# Verification model of the duck database engine

The engine is layered: a page file with an allocator, a page cache, slotted pages, heaps of
records, a row and schema format, a catalog, row locks and transactions with an undo log.
This project models each layer in Dafny, in the form the C++ has (classes whose methods change
fields, in-place work on byte arrays, loops), and proves what each layer means for the one above it.

## The layers and what is proved

Each layer has an abstract value, and its operations are proved against functions of that value.

| layer | files | abstract value | main results |
|---|---|---|---|
| bytes | `Bytes` | integers | little-endian fields are exact inverses; their byte k is the value divided by 256^k, modulo 256 |
| page file | `DiskManager` | file as bytes, allocator | ids are never handed out twice while held; what page 0 holds, byte by byte; header and free list survive a restart exactly when the file has a whole page or nothing was allocated |
| page cache | `Replacer`, `BufferPool`, `PooledStore`, `StoreRuns` | what every page id shows, keeps and has marked | only the page that makes way can show anything else, namely what it kept; with every change marked nothing changes; eviction order is order of last use; frames are conserved; every run of calls is one of the plain store; an orderly restart loses nothing that was marked |
| slotted page | `SlottedLayout`, `Compaction`, `SlottedPage` | map from slot to bytes | every operation is exactly one map update on the real bytes; compaction keeps the map, never underflows, and is idempotent; where every field and tuple stands; when a page counts as compacted |
| heap | `PageStore`, `HeapModel`, `HeapStates`, `TableHeap`, `HeapScan` | map from record id to bytes, as shown and as kept | insertion terminates, and where it lands and whether it is refused is known beforehand; moving updates; a scan yields every record once, in order, up to the first page it cannot get |
| row format | `Schemas`, `Tuples`, `TupleCodec`, `Formats` | typed values | every byte that is written, told without the writers; reading it back, with the exact conditions on offsets, trailing NULs and CHAR(0) |
| catalog | `CatalogRows`, `CatalogHomes`, `Databases`, `Catalog` | map from name to table, each with its columns and records | rows and map correspond one to one and the tables' heaps stay apart over every run of creations, drops and insertions; which calls succeed, told beforehand; when a drop breaks that; what a reload rebuilds |
| locks | `Locks`, `LockSystem`, `LockBooks`, `Serializability`, `SerialExecution`, `FullExecution`, `LockFacts` | queues, lock sets, trace of accesses | lock safety over all interleavings; when a lock is granted, told from the lock sets alone; no deadlock lasts; where an overtaken transaction goes on to use the record, the conflict graph has a cycle exactly when a transaction was overtaken while its upgrade waited; whole runs, aborts and undo included, equal a serial execution otherwise |
| transactions | `Undo`, `Losses`, `Tables`, `Isolation`, `Sessions` | history of one transaction | what one has written no other reads or writes before it ends; replaying the undo log in reverse is an inverse exactly when every restored record still finds room; through the page cache exactly when, besides, none is lost before it is saved; as theorems on histories and as the contract of abort after any sequence of table operations |

Frames are elements of one array, updated in place, as in the source. The heap works on `PageStore`, where a page
shows one image and keeps another until it is saved, and where calls may be refused and may throw pages out of their
frames. What `PageStore` leaves open, the page cache decides: `PooledStore` proves that its calls do to these images and
marks what those of `PageStore` do, and `StoreRuns` that whatever calls a client makes, in whatever order, a plain store
that is given the same answers goes through the same states (`Client.Valid`, `Replay`). It also says what the answers
are: a client that holds fewer pages than there are frames not held by others is never refused, so one frame is enough
for a fetch and two for an append; and the page that makes way is the least recently used one that is not held, none
while a frame is free (`BufferPool.Chosen`).

Only the lock manager is modelled with interleaving; there each latched section is one step, waiting is a
state, and the end of a wait is a step that may happen at any time. All other calls are atomic.

## Results that are not what one might expect

- An upgrade that has to wait first gives its shared lock away. Another transaction may then write the record ahead of
  it, and both can commit with one's write lost on the other (`LockFacts.LostUpdate`, `LockFacts.LostUpdateValues`).
  `Serializability.CyclicExactly` says exactly when the conflicts of committed transactions close: where every
  overtaken transaction goes on to use the record, as an update does, exactly when a committed one was overtaken by a
  committed one (`Serializability.DisturbedIsCyclic`). Otherwise the whole run is serializable
  (`FullExecution.FullySerializable`), whether upgrades waited or not.
- A transaction that deletes a record from a full page and then adds slots to that page cannot roll back, even
  alone (`Undo.FullPageCannotRollBack`). `Undo.Rollback` gives the exact condition.
- A table scan inside a transaction locks the record id under its cursor, not the record it returns. The two are
  the same exactly when the cursor stands on a live record (`Tables.TableScan.Next`).
- Restoring a record on rollback does not mark the page dirty. A page that leaves its frame before anything else marks
  it loses the record, even before the abort ends: in a pool of one frame, undoing three deletions on three pages loses
  the second record though everything fits (`Losses.OneFrameLoses`). `Sessions.Session.Abort` states exactly when the
  table is as it was.
- A CHAR column of length 0 is written as nothing and read as a length prefix: the reader finds the cells of a row
  exactly when the schema has no such column (`TupleCodec.CellsFoundExactly`).
- The offset of a schema's reader has 16 bits. A schema one of whose columns starts beyond 65535 bytes is read from
  the wrapped offset on; how long the last column is makes no difference (`Schemas.SchemaRoundTrip`,
  `Schemas.LongSchemaExactly`).
- Dropping a table deletes its row first. When a page of the table cannot be fetched then, the table stays in memory
  without its catalog row; the calls that decide it are known beforehand (`Catalogs.Catalog.DropTable`,
  `Catalogs.Catalog.DropCutShort`). A reload then completes the drop (`Catalogs.Catalog.RunAndReload`).
- A catalog reload with a full pool stops early without an error, and finds all tables exactly when no row lies on the
  pages from the first refused one on (`Catalogs.Catalog.LoadExistingTables`, `Catalogs.Catalog.LoadFromFullPool`).
- An update that does not fit on its page any more deletes the old record before it looks for another place. It fails
  after that, with nothing logged, exactly when the new tuple is too long, a call on the way to its new page is
  refused, or another transaction holds the new record id (`Tables.Table.Update` and `Tears`). Rollback does not bring
  the record back (`Sessions.Session.UpdateAndAbort`).
- A scan that is refused its next page gives the page it held back a second time at its end. It is refused only where
  others hold that page too, and takes a pin of theirs: the page can be evicted while it is in use, or its count wraps
  and the frame stays pinned, as the other lets go after or before (`BufferPool.RefusedScan`).
- The free list stops growing after 1025 entries and further ids are dropped with a warning; the
  repository's README.md says that exceeding the cap throws.

## Model

| member | source | states |
|---|---|---|
| Bytes.LERoundTrip | include/duck/table/slotted_page.hpp:14-23 | an integer that fits its bytes is read back unchanged from its little-endian form |
| Bytes.FromLEInverse | include/duck/table/slotted_page.hpp:14-23 | every byte string is the little-endian form of the number it is read as |
| Bytes.LEByte | include/duck/table/slotted_page.hpp:14-23 | byte k of the little-endian form is the value divided by 256^k, modulo 256 |
| Compaction.SameImage | include/duck/table/slotted_page.hpp:14-23 | a page is determined by the header and directory it decodes to and the bytes after them |
| SlottedLayout.PageFormat | include/duck/table/slotted_page.hpp:14-23 | which bytes of a page hold the link, the slot count, the free-space offset and each slot's offset and length, low byte first, and which bytes each tuple has |
| SlottedLayout.PlacedTuples | src/table/slotted_page.cpp:69-75 | writing a tuple below the free-space offset into a free slot keeps the page sound and adds exactly that slot to the map |
| SlottedLayout.ShrunkTuples | src/table/slotted_page.cpp:99-105 | overwriting a live slot with no more bytes changes exactly that slot |
| SlottedLayout.DroppedTuples | src/table/slotted_page.cpp:110-119 | setting a slot's offset to 0 removes exactly that slot, whatever length it keeps |
| SlottedPages.SlottedPage.Init | src/table/slotted_page.cpp:20-24 | the page is sound, empty, unlinked, all of it free |
| SlottedPages.SlottedPage.FindEmptySlot | src/table/slotted_page.cpp:31-39 | the first empty slot, none exactly when all are live |
| SlottedPages.SlottedPage.AllocateSlot | src/table/slotted_page.cpp:41-45 | the directory grows by one empty slot and nothing else changes meaning |
| SlottedPages.SlottedPage.Insert | src/table/slotted_page.cpp:47-78 | succeeds exactly when the bytes fit (with a new slot only if none is empty), adds one slot that was not live, keeps all others; on failure no byte changes |
| SlottedPages.SlottedPage.Get | src/table/slotted_page.cpp:80-89 | the bytes under a live slot, else nothing |
| SlottedPages.SlottedPage.HasSlot | src/table/slotted_page.cpp:196-198 | true exactly for live slots |
| SlottedPages.SlottedPage.TryUpdateInPlace | src/table/slotted_page.cpp:91-108 | succeeds exactly for a live slot and no more bytes than it holds; changes that slot alone |
| SlottedPages.SlottedPage.Delete | src/table/slotted_page.cpp:110-119 | removes exactly that slot; false and no change when it is not live |
| SlottedPages.SlottedPage.Restore | src/table/slotted_page.cpp:121-134 | all assertions hold exactly when the slot exists, is empty and the page has room after compaction; then it holds the tuple |
| SlottedPages.SlottedPage.MakeRoom | src/table/slotted_page.cpp:127-130 | compacts exactly when the free space is too small and leaves the page alone otherwise; the second assertion of the restore holds exactly when live bytes, directory and tuple fit on a page |
| SlottedPages.SlottedPage.IsCompacted | src/table/slotted_page.cpp:136-152 | on a page with slots, true exactly when slot 0 is live, each live slot starts where the live slot before it ends and the last one ends at 8192; then the live bytes are 8192 minus slot 0's offset |
| SlottedPages.SlottedPage.NextOccupiedSlot | src/table/slotted_page.cpp:200-208 | the first live slot after the given one, none exactly when there is none |
| SlottedPages.SlottedPage.Compact | src/table/slotted_page.cpp:155-186 | the loop produces exactly the compacted image; slot map, slot count and link are kept |
| SlottedPages.SlottedPage.LayOut | src/table/slotted_page.cpp:158-178 | the copying loop lays the live tuples out downwards from the page end, its 16-bit offset never underflowing |
| Compaction.LiveBytesFit | src/table/slotted_page.cpp:162-171 | disjoint live tuples hold at most 8192 minus the free-space offset bytes |
| Compaction.CompactLayoutSound | src/table/slotted_page.cpp:155-186 | the compacted directory is sound and has the same live slots |
| Compaction.CompactionKeepsContents | src/table/slotted_page.cpp:155-186 | slot map, count and link are kept and the free space is exactly what directory and live tuples leave |
| Compaction.CompactionIdempotent | src/table/slotted_page.cpp:155-186 | compacting a second time changes no byte |
| Compaction.RoomIsEnough | src/table/slotted_page.cpp:127-130 | a page that fits a tuple before compaction fits it after |
| Compaction.CompactedTakes | src/table/table_heap.cpp:54-60 | compacting a page whose tuples do not tile it, as a failed insertion does without marking it, makes no difference to what the page takes |
| Compaction.TiledExactly | src/table/slotted_page.cpp:136-152 | the walk along the tuples comes to the page end exactly when the live slots are one unbroken row from slot 0 to byte 8192 |
| Compaction.SeamlessBytes | src/table/slotted_page.cpp:136-152 | the live bytes of such a page are exactly 8192 minus slot 0's offset |
| Compaction.CompactedPositions | src/table/slotted_page.cpp:155-186 | after compaction the first live tuple ends at 8192, each further one where the one before it starts, dead slots are zero, and every tuple keeps its bytes |
| Disk.WritePageView | src/storage/disk_manager.cpp:94-127 | a page write is seen on that page and no other, zeros filling what the file does not reach |
| Disk.PersistRoundTrip | src/storage/disk_manager.cpp:80-92 | reading page 0 back recovers capacity and free list exactly |
| Disk.PersistOtherPages | src/storage/disk_manager.cpp:80-92 | persisting the allocator touches no other page |
| Disk.HeaderFormat | src/storage/disk_manager.cpp:80-92 | page 0 holds the mark DUCK, version 1, the capacity, the number of free ids and the ids, byte by byte |
| Disk.RecognisedExactly | src/storage/disk_manager.cpp:24-53 | a file of a page or more is accepted if and only if its first sixteen bytes are that mark and version |
| Disk.DiskManager.AllocatePage | src/storage/disk_manager.cpp:55-63 | an id no one holds: the last one given back, else the next new one |
| Disk.DiskManager.DeallocatePage | src/storage/disk_manager.cpp:65-78 | page 0 throws; the list takes at most 1025 ids, and stays free of duplicates and of held ids if the id given back was held, which nobody checks |
| Disk.DiskManager.FlushAll | src/storage/disk_manager.cpp:80-92 | both writes together leave a header from which the allocator is read back |
| Disk.DiskManager.InitHeader | src/storage/disk_manager.cpp:139-150 | whatever allocator page 0 was last persisted with is read back, capacity and list |
| Disk.DiskManager.WritePage | src/storage/disk_manager.cpp:94-107 | throws exactly for an id beyond the capacity, else changes that page alone |
| Disk.DiskManager.ReadPage | src/storage/disk_manager.cpp:109-127 | throws exactly for an id beyond the capacity, else gives every byte the file has of the page and zeros after its end |
| Disk.Restart | src/storage/disk_manager.cpp:24-53 | closing and reopening keeps capacity and list if and only if the file has a whole page or only page 0 was allocated; all other pages stay |
| Replacer.EventKeepsOrder | src/buffer/replacer.cpp:9-21 | record and remove keep the list sorted by last use, for every history of uses |
| Replacer.NodeErased | src/buffer/replacer.cpp:16-21 | erasing by stored position takes out the page's own node and keeps the index exact |
| Replacer.BufferReplacer.Record | src/buffer/replacer.cpp:9-14 | the page moves to the back of the list |
| Replacer.BufferReplacer.Remove | src/buffer/replacer.cpp:16-21 | the page leaves the list, the rest keeps its order |
| Replacer.BufferReplacer.FindLru | src/buffer/replacer.cpp:23-34 | the cached unpinned page whose last use is oldest, none exactly when there is none |
| BufferPool.FramesConserved | src/buffer/pool_manager.cpp:32-54 | cached pages plus free frames are exactly the frames in use |
| BufferPool.AllTaken | src/buffer/pool_manager.cpp:124-141 | with no frame free or unused and nothing to evict, every frame is pinned |
| BufferPool.SwappedViews | src/buffer/pool_manager.cpp:77-106 | an eviction changes no other page; the evicted page keeps what it shows if and only if it is dirty or as on the disk |
| BufferPool.SwappedKeeps | src/buffer/pool_manager.cpp:77-106 | with every change marked, a swap changes what no page shows and keeps it that way |
| BufferPool.SwappedFades | src/buffer/pool_manager.cpp:77-106 | a swap makes the page that gives way show what it kept and lose its mark; no other page shows anything else, and what pages keep does not change |
| BufferPool.FlushedViews | src/buffer/pool_manager.cpp:143-150 | flushing changes what no page shows, and then the disk has what every unpinned page shows |
| BufferPool.BufferPoolManager.FindNextFrame | src/buffer/pool_manager.cpp:124-141 | the last frame given back, else the next one never used, else that of the least recently used unpinned page; none exactly when all frames are pinned |
| BufferPool.BufferPoolManager.LongestUnused | src/buffer/replacer.cpp:23-34 | after the last use of the page that makes way, every other unpinned page was used |
| BufferPool.BufferPoolManager.SwapPage | src/buffer/pool_manager.cpp:77-106 | null exactly when all frames are pinned, and then nothing changed; else the victim is the least recently used page, written back if dirty |
| BufferPool.BufferPoolManager.FetchPage | src/buffer/pool_manager.cpp:25-30 | null exactly when the page is not cached and all frames are pinned; the page becomes the most recently used and is pinned once more, no other page more or less; a free or unused frame is taken while there is one, else that of the least recently used unpinned page, which falls back to what it kept, and with every change marked not even that |
| BufferPool.BufferPoolManager.NewPage | src/buffer/pool_manager.cpp:19-23 | a zeroed pinned page under an id no one holds; the id is spent even without a frame; pinned pages stay, at most one other falls back |
| BufferPool.BufferPoolManager.DeletePage | src/buffer/pool_manager.cpp:32-54 | refused for a pinned page; else the frame is free and blank and the id given back, all other pages untouched |
| BufferPool.BufferPoolManager.UnpinPage | src/buffer/pool_manager.cpp:108-122 | no page shows anything else, and coherence is kept if and only if the page is still pinned, dirty, or as on the disk |
| BufferPool.BufferPoolManager.Write | include/duck/buffer/page.hpp:19-24 | a client's change to a pinned page is seen on that page alone |
| BufferPool.BufferPoolManager.FlushAll | src/buffer/pool_manager.cpp:143-150 | exactly the dirty frames are written, so the disk has what every page kept; the marks stay; the file has a whole page then if and only if it had one or something was dirty |
| BufferPool.FullHouse | src/buffer/pool_manager.cpp:124-141 | when all frames are pinned there are as many pinned pages as frames |
| BufferPool.Shutdown | src/buffer/pool_manager.cpp:15-17 | after an orderly end and a new start every page shows what it kept, so every unpinned page what it showed; the allocator is back if and only if the file had a whole page, something was dirty or nothing was allocated |
| BufferPool.RefusedScan | src/table/table_heap.cpp:221-224 | a scan is refused its next page exactly where all frames are pinned and others hold its page too; its end then takes a pin of theirs, leaving the page evictable or the count wrapped |
| PooledStores.PooledStore.Fetch | include/duck/buffer/pinned_page.hpp:11-17 | the page is read and held; at most one page, not held, falls back to what it kept; what pages keep and what is held stays |
| PooledStores.PooledStore.Unpin | include/duck/buffer/pinned_page.hpp:13-41 | a change marked dirty is one update both of what pages show and of what they keep; other held pages stay held |
| PooledStores.PooledStore.UnpinUnmarked | src/table/table_heap.cpp:178-186 | an unmarked change is shown, and kept if and only if the frame was marked before |
| PooledStores.PooledStore.NewPage | src/buffer/pool_manager.cpp:19-23 | one zeroed page more, at most one page not held falling back, or everything as before; held pages stay held |
| PooledStores.PooledStore.DeletePage | src/buffer/pool_manager.cpp:32-54 | that page is gone exactly when it was not held |
| StoreRuns.Replay | src/buffer/pool_manager.cpp:19-54 | a plain store that is given the answers of a log of calls reaches the state the log leads to |
| StoreRuns.Client.Fetch | src/buffer/pool_manager.cpp:25-30 | whatever calls came before, the pool's pages are those of the plain store after the same calls and answers; never refused while fewer pages are held than frames not held by others |
| StoreRuns.Client.NewPage | src/buffer/pool_manager.cpp:19-23 | the same for a new page |
| StoreRuns.Client.Unpin | src/buffer/pool_manager.cpp:108-122 | the same for giving a page back, marked |
| StoreRuns.Client.UnpinUnmarked | src/buffer/pool_manager.cpp:108-122 | the same for giving it back unmarked |
| StoreRuns.Client.DeletePage | src/buffer/pool_manager.cpp:32-54 | the same for a deletion, refused exactly when the client or others hold the page |
| StoreRuns.Client.HeldFew | src/buffer/pool_manager.cpp:124-141 | the pool is full only of pages the client or others hold |
| PooledStores.PooledStore.Append | src/table/table_heap.cpp:62-91 | the last page is held while a new one is created and given back, both end up saved and linked, and every page is pinned as often as before |
| HeapModel.AppendPage | src/table/table_heap.cpp:78-91 | linking an empty page behind the last one extends the finite, duplicate-free chain and adds no record |
| HeapStates.CompactedAkin | src/table/table_heap.cpp:54-60 | a page compacted in vain takes the same tuples as before |
| HeapStates.SameLanding | src/table/table_heap.cpp:34-106 | where an insertion lands depends only on what each page of the chain takes |
| HeapStates.LandsFirst | src/table/table_heap.cpp:41-103 | an insertion lands on the first page of the chain that takes it, and on a new one exactly when none does |
| HeapStates.TakesExactly | src/table/table_heap.cpp:47-60 | a page takes a tuple if and only if header, directory and tuple fit below its free-space offset, or fit beside the live bytes and the live tuples are not one unbroken row |
| HeapStates.InPlaceExactly | src/table/table_heap.cpp:126-159 | an update stays on its page if and only if the record has as many bytes, or the page without it takes the new ones |
| HeapStates.FirstHoleExactly | src/table/slotted_page.cpp:31-39 | the slot used is the lowest one without a tuple |
| TableHeaps.TableHeap.Insert | src/table/table_heap.cpp:34-106 | terminates; appends at most one page; adds exactly one record id that was not live; where everything is saved, succeeds exactly when the tuple is not too large and no call up to the first page that takes it is refused, under the record id known beforehand; else it throws or returns nothing as the first refused call creates a page or fetches one; the throw on a fresh page is unreachable |
| TableHeaps.TableHeap.Visit | src/table/table_heap.cpp:41-103 | one round ends the search or moves along the chain, as the page's directory and the next two calls decide; on a fresh page it always ends |
| TableHeaps.TableHeap.InsertOnPage | src/table/table_heap.cpp:47-60 | insertion with one compaction in between changes one record or none, succeeds exactly when the directory says so, always on a fresh page, and uses the first empty slot |
| TableHeaps.TableHeap.AppendPage | src/table/table_heap.cpp:65-91 | the chain grows by one fresh page; without a frame nothing changes |
| TableHeaps.TableHeap.Create | src/table/table_heap.cpp:18-30 | a heap of one page and no records, or nothing when the pool has no frame |
| TableHeaps.TableHeap.Get | src/table/table_heap.cpp:108-124 | the bytes of a live non-empty record; an empty record reads as absent |
| TableHeaps.TableHeap.Update | src/table/table_heap.cpp:126-159 | the map minus the old id plus the returned one, on its page exactly when that takes the new bytes, else moved or lost as the pages and calls say beforehand |
| TableHeaps.TableHeap.Delete | src/table/table_heap.cpp:161-176 | removes exactly that record and saves the page |
| TableHeaps.TableHeap.Restore | src/table/table_heap.cpp:178-186 | the record is back under its own id exactly when the slot is empty and the page has room; it is kept only if the page was dirty before |
| TableHeaps.TableHeap.AllPages | src/table/table_heap.cpp:188-206 | exactly the chain if and only if none of the fetches is refused |
| HeapScan.ScanIsExact | src/table/table_heap.cpp:226-294 | the enumeration has every live record once, with its bytes |
| HeapScan.ScanInOrder | src/table/table_heap.cpp:226-294 | pages come in the order of the chain, and on a page the lower slot first |
| HeapScan.ChainRowsDistinct | src/table/table_heap.cpp:226-294 | no record id comes twice |
| HeapScan.Scan.constructor | src/table/table_heap.cpp:216-219 | the cursor stands before the first record |
| HeapScan.Scan.Next | src/table/table_heap.cpp:226-259 | yields the head of what remains and keeps the tail, across empty pages and deleted slots; nothing exactly at the end or when a fetch was refused, and then everything from that page on is missing |
| HeapScan.Scan.NextPage | src/table/table_heap.cpp:265-294 | moves to the linked page without skipping a record |
| HeapScan.Drain | src/table/table_heap.cpp:226-259 | calling the cursor until it yields nothing ends and gives all that remained before the first page that was refused |
| HeapScan.ReadAll | src/table/table_heap.cpp:212-259 | a whole scan is complete if and only if no fetch is refused, and misses exactly the records from the first refused page on |
| Schemas.ColumnRoundTrip | src/tuple/column.cpp:11-61 | a column is read back with exactly its own byte count, whatever follows |
| Schemas.SchemaRoundTrip | src/tuple/schema.cpp:43-84 | a schema is read back whole, whatever follows, as long as every column starts within 65535 bytes |
| Schemas.SchemaRead | src/tuple/schema.cpp:59-84 | any schema is read right up to the first column that starts beyond, and from there at the wrapped offset |
| Schemas.LongSchemaExactly | src/tuple/schema.cpp:71-81 | a longer schema comes back if and only if what stands at the wrapped offset happens to be its remaining columns |
| Schemas.LongSchemaMisread | src/tuple/schema.cpp:71-81 | a family of two-column schemas that do not |
| Schemas.SerializeSchema | src/tuple/schema.cpp:43-57 | the loop produces the stored form, count and columns cut to 16 bits |
| Schemas.DeserializeSchema | src/tuple/schema.cpp:59-84 | the loop reads exactly what the recursive reader reads, and fails where it fails |
| Formats.SchemaFormat | src/tuple/schema.cpp:43-57 | the bytes written for a schema: the count cut to 16 bits, then per column the name's length, the name, the number of its type from 0 for INT32 to 9 for VARBINARY, and the declared length, low bytes first, each where the widths before it say |
| Tuples.SetNullBits | src/tuple/tuple.cpp:222-235 | setting one null bit sets that column's and no other |
| Tuples.BitmapBits | src/tuple/tuple.cpp:141-149 | the bitmap tells exactly the null columns |
| Tuples.Serialize | src/tuple/tuple.cpp:141-202 | the loops produce bitmap and cells, or the first column's error; what bytes that are is `Formats.RowFormat` |
| Formats.RowFormat | src/tuple/tuple.cpp:141-202 | the bytes written for a row: (n + 7) / 8 bytes whose bits are set exactly for the null columns, then cells of 1, 4, 8, the declared or 2 plus the value's bytes by type, numbers and length prefixes low byte first, each where the widths before it say |
| Formats.RefusedExactly | src/tuple/tuple.cpp:151-202 | a row is refused if and only if some text is longer than its CHAR, its bounded VARCHAR or 65535 bytes, for the reason of the first such column |
| Tuples.ComputeOffsets | src/tuple/tuple.cpp:116-133 | the loop finds the start of every cell, as long as 16 bits reach them |
| Tuples.Deserialize | src/tuple/tuple.cpp:33-43 | every value is the one in its cell |
| TupleCodec.CellRead | src/tuple/tuple.cpp:45-114 | a cell found anywhere among other bytes is measured and read back right |
| TupleCodec.WalkFindsCells | src/tuple/tuple.cpp:116-133 | the reader's walk visits exactly the positions the writer used, nulls included |
| TupleCodec.TupleRoundTrip | src/tuple/tuple.cpp:33-202 | every encodable row whose cells 16 bits reach comes back, CHAR values without their trailing NULs |
| TupleCodec.ShortRow | src/tuple/tuple.cpp:116-139 | 16 bits reach every cell of a row of at most 65535 bytes |
| TupleCodec.TupleUnchanged | src/tuple/tuple.cpp:96-105 | it comes back unchanged if and only if no CHAR value ends in NUL |
| TupleCodec.CellsFoundExactly | src/tuple/tuple.cpp:116-133 | the reader finds the cells where the writer put them if and only if no CHAR column has length 0, for every encodable row that 16 bits reach |
| TupleCodec.ZeroLengthChar | src/tuple/tuple.cpp:125-129 | with a CHAR column of length 0 before a number the reader runs off the row |
| TupleCodec.NumberBack | src/tuple/value.cpp:176-225 | signed, unsigned and bit-pattern numbers are read back from their bytes |
| CatalogRows.RowBack | src/catalog/catalog.cpp:140-151 | a row describing a table is loaded as exactly that table |
| CatalogRows.RowSizeIs | src/catalog/catalog.cpp:50-56 | the row of a table has 9 bytes more than its name and stored schema, and cannot be written exactly when the name is longer than 128 bytes |
| CatalogRows.CatalogRowFormat | src/catalog/catalog.cpp:50-56 | where the name, the first page's id and the stored schema stand in it |
| CatalogRows.OneRowEach | src/catalog/catalog.cpp:43-68 | no two tables have the same row |
| CatalogRows.LoadedIsPart | src/catalog/catalog.cpp:140-151 | loading some rows gives exactly the tables they belong to |
| CatalogRows.LoadedIsAll | src/catalog/catalog.cpp:140-151 | loading every row rebuilds the whole map |
| CatalogRows.LoadedExactly | src/catalog/catalog.cpp:140-151 | loading the first rows gives the whole map if and only if there are no more |
| CatalogRows.PartCorresponds | src/catalog/catalog.cpp:140-151 | a part of the map has exactly the rows if and only if it is the whole |
| Catalogs.Catalog.CreateTable | src/catalog/catalog.cpp:43-68 | fails because the name is taken, the first call is refused, or the name is longer than 128 bytes, in this order; else succeeds if and only if the row of 9 bytes more than name and schema is at most a page's maximum and every call up to the page it lands on goes through; the table then has an empty heap on the next new page, apart from all others; rows and map stay in correspondence, every table stays usable, every exception leaves map and rows as they were |
| Catalogs.Catalog.AddRow | src/catalog/catalog.cpp:50-56 | refused exactly when the name is longer than 128 bytes or the row gets no place; the row written describes the new table; the catalog's heap takes no page others have |
| Catalogs.Catalog.DropTable | src/catalog/catalog.cpp:70-95 | nothing happens, or the table is gone, or its row is gone and the map still has it, as the two calls for the row and those for the chain decide beforehand; which pages are freed; all other tables stay usable |
| Catalogs.Catalog.DropCutShort | src/catalog/catalog.cpp:77-84 | a pool that is full when the table's pages are read leaves the map without the row, and all is well but for that table |
| Catalogs.Catalog.InsertInto | src/catalog/catalog.cpp:117-123 | the row is inserted exactly when the table is there, the row is not too large and every call up to the page it lands on goes through; it changes that table alone |
| Catalogs.Catalog.LoadExistingTables | src/catalog/catalog.cpp:137-152 | complete if and only if no fetch is refused; the map is the one the rows correspond to, and the catalog as good as before, if and only if no row lies from the first refused page on, else a part of it; each table loaded has its heap |
| Catalogs.Catalog.LoadFromFullPool | src/catalog/catalog.cpp:137-152 | with a full pool no table is found where there are some |
| Catalogs.Catalog.Perform | src/catalog/catalog.cpp:43-95 | one call has its effect on the tables clients see exactly when the state before it says that it works, and none otherwise; no record is written over and no other table touched |
| Catalogs.Catalog.Run | src/catalog/catalog.cpp:43-95 | after any sequence of creations, drops and insertions the tables, columns and records are those the calls make one after another; while no call is refused each has its effect exactly when name and size allow it; it ends early only at a drop that could not read the pages or when the ids run out |
| Catalogs.Catalog.Reload | src/catalog/catalog.cpp:30-33 | a catalog made anew over the rows has all tables with their records if and only if no row lies from the first refused page on |
| Catalogs.Catalog.RunAndReload | src/catalog/catalog.cpp:43-152 | after any run and a reload that finds all rows, every call had its effect, even a drop that was cut short; while no call is refused that is always so |
| Locks.LockManager.CanGrant | src/transaction/lock_manager.cpp:91-102 | true exactly when no other transaction's granted request conflicts |
| Locks.LockManager.TryShared | src/transaction/lock_manager.cpp:8-31 | refused outside the growing phase, held already, granted at once, or queued |
| Locks.LockManager.TryExclusive | src/transaction/lock_manager.cpp:33-62 | the same, an upgrade first giving the shared lock away |
| Locks.LockManager.Recheck | src/transaction/lock_manager.cpp:21-30 | on wake-up granted if grantable; out of time the request leaves and the transaction is doomed |
| Locks.LockManager.RemoveAndNotify | src/transaction/lock_manager.cpp:80-89 | takes exactly the transaction's requests on one record out |
| Locks.LockManager.UnlockAll | src/transaction/lock_manager.cpp:64-78 | none of the transaction's requests on its records is left, and its lock sets are empty |
| LockSystem.StepKeepsLocks | src/transaction/lock_manager.cpp:8-102 | every step of every transaction keeps: one request per queue, granted ones compatible, queues and lock sets agreeing |
| LockSystem.UnlockAllOk | src/transaction/lock_manager.cpp:64-78 | the release keeps these invariants |
| LockBooks.StepByBooks | src/transaction/lock_manager.cpp:8-102 | every step of the lock manager changes the lock sets and waits of all transactions as these alone say, whatever stands in the queues |
| LockBooks.RunByBooks | src/transaction/lock_manager.cpp:8-102 | so do whole runs |
| LockBooks.ReadsExactly | src/transaction/lock_manager.cpp:91-102 | in every reachable state a growing transaction without the record gets to read it at once if and only if no other has it in its exclusive set |
| LockBooks.WritesExactly | src/transaction/lock_manager.cpp:91-102 | it gets to write it at once if and only if no other has it in either set; its shared lock is gone in any case |
| LockBooks.WakesExactly | src/transaction/lock_manager.cpp:21-25 | a transaction that waits and looks again has its lock by the same conditions; with its time up and no lock it is aborted, else it goes on growing |
| LockFacts.NoneStuck | src/transaction/lock_manager.cpp:18-25 | every run goes on to one in which all transactions have ended and no request is left, so no deadlock lasts |
| Serializability.Reachable | src/transaction/lock_manager.cpp:8-102 | the invariants hold after every interleaving |
| Serializability.Exclusion | src/transaction/lock_manager.cpp:91-102 | two transactions never hold conflicting locks at once |
| Serializability.OvertakingExactly | src/transaction/lock_manager.cpp:44-52 | a transaction counts as overtaken by another if and only if that one wrote a record between its access and its release |
| Serializability.EdgeFollowsRelease | src/transaction/manager.cpp:21-41 | without overtaking a conflict points from the transaction that released its locks first |
| Serializability.Acyclic | src/transaction/manager.cpp:21-41 | no path of conflicts without overtaking closes |
| Serializability.CyclicExactly | src/transaction/lock_manager.cpp:44-52 | the conflict graph of the committed transactions has a cycle if and only if one was overtaken and conflicts lead back to it from the one that overtook it |
| Serializability.DisturbedIsCyclic | src/table/table.cpp:66-95 | where committed transactions that were overtaken go on to use the record, the conflict graph of the committed transactions has a cycle if and only if one was overtaken by a committed one |
| Serializability.OvertakenOnCycle | src/transaction/lock_manager.cpp:44-52 | an overtaken transaction that goes on to use the record lies on a cycle with the writer |
| Serializability.UndisturbedIsAcyclic | src/transaction/manager.cpp:21-41 | where no committed transaction was overtaken by a committed one there is no cycle |
| Serializability.NoDirtyAccess | src/transaction/manager.cpp:21-41 | in every run, nobody touches what another transaction wrote before that one released |
| SerialExecution.MoveToFront | src/transaction/manager.cpp:21-30 | the accesses of the transaction that released first can all be moved to the front without changing any value |
| SerialExecution.SerialEquivalent | src/transaction/manager.cpp:21-30 | an interleaving whose conflicts follow a rank equals the serial execution in that order |
| SerialExecution.Serializable | src/transaction/manager.cpp:21-41 | for every run, the accesses of the transactions not overtaken by a committed one leave the same records and read the same values as one transaction after another in release order |
| FullExecution.FullMatches | src/transaction/transaction.cpp:5-9 | at every moment, with aborted transactions having undone what they wrote, each record has its committed value unless a running transaction wrote it |
| FullExecution.FullySerializable | src/transaction/manager.cpp:21-41 | a whole run whose aborts undo what they wrote, undo writes included, leaves the records and shows the values of the committed transactions run one after another |
| FullExecution.NothingLeftOut | src/transaction/manager.cpp:21-30 | every access of every committed transaction is in that serial execution |
| LockFacts.UndoUnderLock | src/table/table.cpp:27-92 | while a transaction can roll back it alone holds every record its undo log names |
| LockFacts.ExclusiveKept | src/transaction/lock_manager.cpp:33-78 | only the final release takes an exclusive lock away |
| LockFacts.GrowingOnce | src/transaction/lock_manager.cpp:11-12 | after the growing phase no lock is ever gained and the phase never comes back |
| LockFacts.UpgradeKeepsLock | src/transaction/lock_manager.cpp:44-52 | an upgrade keeps the record locked if and only if nobody else holds it |
| LockFacts.LostUpdate | src/transaction/lock_manager.cpp:44-47 | a run in which one of two upgrading transactions is overtaken, both commit and they conflict both ways |
| LockFacts.LostUpdateValues | src/transaction/lock_manager.cpp:44-47 | its effect is that of neither serial order, whatever the two write |
| Undo.UndoChange | src/transaction/undo.cpp:11-20 | undoing one operation restores the records if and only if the page of the restored one fits |
| Undo.ReplayUndoes | src/transaction/transaction.cpp:5-9 | reverse replay of a whole log undoes a whole history, with others changing other records meanwhile |
| Undo.Rollback | src/transaction/transaction.cpp:5-9 | the transaction's records return to their values at its begin and all others stay, if and only if every restored record finds room |
| Undo.RollbackAlone | src/transaction/manager.cpp:31-41 | without interference the whole table is as at the begin |
| Undo.StolenSlot | src/table/table_heap.cpp:178-186 | a slot freed by a delete and taken by someone else cannot be restored |
| Undo.FullPageCannotRollBack | src/table/slotted_page.cpp:121-134 | a lone transaction that cannot roll back |
| Losses.HistoryRewound | src/transaction/transaction.cpp:5-9 | without losses the reverse replay ends where the history began, and every deletion in it finds its record |
| Losses.SparedFate | src/table/table_heap.cpp:178-186 | with no page thrown out while a restored record on it is unsaved, a rollback ends as the replay on plain records |
| Losses.NotSparedFate | src/table/table_heap.cpp:178-186 | with one thrown out, the record stays lost if no earlier operation touched it |
| Losses.RollbackKept | src/transaction/manager.cpp:31-41 | the records are back as at the begin if and only if none is lost; for logs in which no record is restored that an earlier operation touched, if and only if every restored record finds room and none is thrown out unsaved |
| Losses.OneFrameLoses | src/buffer/pool_manager.cpp:91-93 | three deletions on three pages, a pool of one frame: everything fits and the second record is lost |
| Tables.HeldIsTotal | src/table/slotted_page.cpp:127-130 | the bytes undo counts on a page are those the page counts |
| Tables.LockForRead | src/transaction/lock_manager.cpp:8-31 | a blocking call with nobody else running succeeds exactly when no other transaction holds the record exclusively; then its shared request is in the record's queue, granted; the requests of all others stay as they were on every record, and lock table and lock sets agree afterwards if they did before |
| Tables.LockForWrite | src/transaction/lock_manager.cpp:33-62 | the same for the exclusive request, granted exactly when nobody else holds the record; a shared lock is given up even if the call fails |
| Isolation.ShutOut | src/transaction/lock_manager.cpp:91-102 | where lock sets and lock table agree, a record one transaction has locked exclusively can be locked by no other |
| Isolation.WriteThenMeanwhile | src/table/table.cpp:19-95 | after a transaction has inserted or updated a record, any number of others doing anything in any order neither read nor write that record, nor the one it was moved from, and its bytes stay |
| Isolation.Meanwhile | src/table/table.cpp:19-95 | the same for every record a transaction has locked exclusively, so also for one it deleted |
| Isolation.CommitLetsIn | src/transaction/manager.cpp:21-30 | the commit of the owner lets every growing transaction lock its records |
| Isolation.AbortLetsIn | src/transaction/manager.cpp:31-41 | so does its abort, exactly when no assertion fires in it |
| Tables.Table.Get | src/table/table.cpp:38-47 | the record stored, locked, exactly when it can be locked, is there and not empty and its page can be fetched; the lock sets afterwards in every case, and the requests of others as before |
| Tables.Table.Insert | src/table/table.cpp:19-36 | one new record, locked, with its undo record, exactly when it gets a place and its new id can be locked; a failed lock leaves the heap as before unless the record cannot be taken back; throws exactly when the tuple is too long or the first refused call creates a page; the lock sets afterwards in every case |
| Tables.Table.Delete | src/table/table.cpp:49-64 | one record less, locked, with its undo record, exactly when it can be locked, is there and not empty and both calls go through; else nothing changed |
| Tables.Table.Update | src/table/table.cpp:66-95 | one record replaced, both ids locked, both undo records in the order replay needs; torn exactly when the new bytes do not fit on the page and are too long, find no place, or get a record id held by another, what the table holds then; throws exactly when torn for its length or because a page could not be created; the lock sets afterwards in every case |
| Tables.Table.OversizeTears | src/table/table_heap.cpp:34-37 | every update of a live record to more bytes than a page takes is torn |
| Tables.TableScan.Next | src/table/table.cpp:116-125 | the record returned is locked if and only if the cursor stood on a live record or it was locked before |
| Tables.TableScan.ReadUnlocked | src/table/table.cpp:116-125 | wherever the cursor stands on a dead record id, the next record is returned unlocked |
| Tables.Rewind | src/transaction/transaction.cpp:5-9 | the reverse loop stops exactly where an assertion fires, and leaves the rewound records if and only if none was lost on the way |
| Tables.UndoOne | src/transaction/undo.cpp:11-20 | one undo record acts on what the pages show and keep as one step of the rewinding |
| Tables.TransactionManager.Begin | src/transaction/manager.cpp:11-19 | a growing transaction with no locks under an id no active one has |
| Tables.TransactionManager.Commit | src/transaction/manager.cpp:21-30 | its requests on the records of its lock sets are gone, no others, and it is committed |
| Tables.TransactionManager.Abort | src/transaction/manager.cpp:31-41 | the heap is the rewound one without the lost records, done while all locks are held; then all are released |
| Sessions.Extended | src/table/table.cpp:19-95 | a logged operation on the real table extends the history that explains the undo log |
| Sessions.Session.Insert | src/table/table.cpp:19-36 | with a frame to take it back, an insertion keeps the history, whether it succeeds or not; the record it returns can be worked on |
| Sessions.Session.Delete | src/table/table.cpp:49-64 | a deletion keeps the history, whether it succeeds or not |
| Sessions.Session.Update | src/table/table.cpp:66-95 | an update keeps the history unless it is torn, which can be told beforehand; the record it returns can be worked on |
| Sessions.Session.Perform | src/table/table.cpp:19-95 | any sequence of operations, each on a record known before or returned by an earlier one: the operations done are told one by one, each on the records as the earlier ones left them; with nobody else holding a lock and no call refused it stops only before one that cannot be done; the history that explains the undo log is kept |
| Sessions.Session.Abort | src/transaction/manager.cpp:31-41 | after any sequence of insertions, deletions and updates, abort returns the table to its state at the begin if and only if no restored record is lost; for logs in which no record is restored that an earlier operation touched, if and only if each finds room and no page leaves the pool with an unsaved one |
| Sessions.Session.UpdateAndAbort | src/table/table.cpp:77-83 | after a torn update the rollback does not give the record back |

## Left out

- Threads, latches, condition variables and clocks: a wait is a state and its end a step; no fairness is claimed.
- Races inside one call of the page cache or the heap (lookup and swap under two latches, the re-check after a page was created): every call is atomic, so the branch that deletes a superfluous new page is not modelled.
- Two clients holding the same frame at once: within one call a heap holds at most two pages, the last one and the one just created.
- PageStores.PageStore.Fetch: a missing page and a full pool both give null, because the exception for an id beyond the file's capacity is not modelled there.
- BufferPool.BufferPoolManager.FetchPage: takes an id that was handed out and not given back; for other ids the source throws after it has already taken a frame.
- BufferPool.BufferPoolManager.DeletePage: takes an id that was handed out and not given back; the source takes any and may then list it twice.
- PooledStores.PooledStore.Fetch: pin counts below the wrap-around at 32 bits.
- Exhaustion of the 32-bit page ids: allocation requires that an id is left.
- TableHeaps.TableHeap.Get: record ids on pages of this heap or on no page; the source does not check, and would read another heap's page.
- TableHeaps.TableHeap.Delete: the same, and it would delete there.
- TableHeaps.TableHeap.Update: the same; and tuples below 65536 bytes, since longer ones have their length cut to 16 bits before any check.
- TableHeaps.TableHeap.Restore: the same.
- Tables.Table.Get: the same.
- Tables.Table.Delete: the same; the records are described where everything is saved.
- Tables.Table.Update: the same, and tuples below 65536 bytes.
- Tables.Table.Insert: the records and the exact outcome are described where everything is saved; before, pages may fall back between the calls.
- TableHeaps.TableHeap.Insert: the exact outcome is stated where everything is saved; otherwise it depends on which pages fall back on the way.
- HeapScan.ReadAll: the rows are described where everything is saved.
- HeapScan.Scan.Next: not called again after a page fetch failed, when the source would read a frame it has already given back; the end of a cursor is described by `BufferPool.RefusedScan` only.
- Tables.LockForWrite: the wait is sequential, so a request that has to wait times out; the interleaved wait is in `LockSystem`.
- Setting the final state after the release is merged with the release into one step of `LockSystem`, as no lock call can succeed in between.
- Insertions write before they lock, so serializability covers accesses to existing records made under a lock; phantoms and reuse of a slot freed by a running transaction are not excluded.
- Undo of a table creation, and undo logs that span several tables.
- Sessions.Session.constructor: a session begins where earlier restores were saved; what a transaction loses of restores from before its begin is not described.
- Sessions.Session.Insert: no history is kept when the lock on a new record fails and the pool has no frame to take it back.
- Tables.Rewind: nothing is said when a call is refused, as the undo step of that record is then silently skipped.
- Durability across a crash: what `kept` tells is what a page shows when it is fetched again, or after an orderly end (`BufferPool.Shutdown`).
- Heaps as clients in the sense of `StoreRuns`: that a heap's calls hold one page at a time, two while it appends, is in the text of its methods, not in a theorem.
- Schemas.LongSchemaExactly: fewer than 65536 columns, since the stored count is cut to 16 bits.
- TupleCodec.TupleRoundTrip: rows with a cell that 16 bits do not reach, or with a VARBINARY value from 65536 bytes on, are excluded.
- The size checks for VARBINARY stand inside a branch for CHAR and VARCHAR and never run; the model has none.
- Catalogs.Catalog.CreateTable: fewer than 65536 columns, since the stored count is cut to 16 bits; table creation inside a transaction is not modelled.
- Catalogs.Catalog.LoadExistingTables: a heap is loaded from its first page on; which pages its chain has is told by a ghost parameter, as they are only read later.
- Catalogs.Catalog.Run: the contents of tables are described where everything is saved; stops at the first drop that could not read the pages, as the source throws there.
- The choice between a new catalog heap and the one on page 1, when a database is opened.
- The pinned-page wrapper as an object of its own (its move constructor does not take over the dirty mark; no caller relies on it).
- File errors, short reads and writes, and the size checks on buffers, which are always whole pages here.
- Floating-point meaning: values are bit patterns.
- Expressions, operators, the executor, `to_string` and forwarding wrappers, which would add only easy members.
- Whether `is_compacted` means that compaction gains nothing: it does not, and nothing relies on it.
