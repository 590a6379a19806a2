/** The database file: pages addressed by id, and an allocator whose state is kept in page 0. */
module Disk {
  import opened Bytes
  import opened SlottedLayout

  const DB_MAGIC: nat := 0x4455_434B
  const DB_FORMAT_VERSION: nat := 1
  const DISK_HEADER_SIZE: nat := 32
  const FREE_LIST_LIMIT: nat := 1024

  type File = seq<byte>

  /** The file after `bytes` are written at `off`: a gap past the old end is zeros; writing nothing changes nothing. */
  function Overwritten(f: File, off: nat, bytes: seq<byte>): (g: File)
    ensures |bytes| > 0 ==> |g| == if off + |bytes| > |f| then off + |bytes| else |f|
    ensures |bytes| == 0 ==> g == f
    ensures forall k :: 0 <= k < |bytes| ==> g[off + k] == bytes[k]
    ensures forall k :: 0 <= k < |g| && !(off <= k < off + |bytes|) ==> g[k] == if k < |f| then f[k] else 0
  {
    if bytes == [] then f
    else
      var padded := if |f| < off then f + Zeros(off - |f|) else f;
      padded[..off] + bytes + (if off + |bytes| < |f| then f[off + |bytes|..] else [])
  }

  function ByteAt(f: File, k: nat): byte {
    if k < |f| then f[k] else 0
  }

  /** What reading page `p` shows: bytes past the end of the file are zero. */
  function PageAt(f: File, p: nat): (r: Image)
    ensures forall k :: 0 <= k < PAGE_SIZE ==> r[k] == ByteAt(f, p * PAGE_SIZE + k)
  {
    var from, to := p * PAGE_SIZE, (p + 1) * PAGE_SIZE;
    if to <= |f| then f[from..to]
    else if from < |f| then f[from..] + Zeros(to - |f|)
    else Zeros(PAGE_SIZE)
  }

  lemma WriteOtherPage(f: File, off: nat, bytes: seq<byte>, q: nat)
    requires off + |bytes| <= q * PAGE_SIZE || (q + 1) * PAGE_SIZE <= off
    ensures PageAt(Overwritten(f, off, bytes), q) == PageAt(f, q)
  {
    var g := Overwritten(f, off, bytes);
    assert forall j :: q * PAGE_SIZE <= j < (q + 1) * PAGE_SIZE ==> ByteAt(g, j) == ByteAt(f, j);
  }

  /** Writing a page is seen on that page and on no other. */
  lemma WritePageView(f: File, p: nat, image: Image, q: nat)
    ensures PageAt(Overwritten(f, p * PAGE_SIZE, image), q) == if q == p then image else PageAt(f, q)
  {
    if q == p {
      assert PageAt(Overwritten(f, p * PAGE_SIZE, image), q) == image;
    } else {
      WriteOtherPage(f, p * PAGE_SIZE, image, q);
    }
  }

  // ----- The header in page 0 -----

  function IdBytes(ids: seq<nat>): (b: seq<byte>)
    ensures |b| == 4 * |ids|
  {
    if ids == [] then [] else IdBytes(ids[..|ids| - 1]) + LE(ids[|ids| - 1], 4)
  }

  function HeaderBytes(capacity: nat, count: nat): (b: seq<byte>)
    ensures |b| == DISK_HEADER_SIZE
  {
    LE(DB_MAGIC, 8) + LE(DB_FORMAT_VERSION, 8) + LE(capacity, 8) + LE(count, 8)
  }

  /** The two writes that persist the allocator. */
  function Persisted(f: File, capacity: nat, ids: seq<nat>): File {
    Overwritten(Overwritten(f, 0, HeaderBytes(capacity, |ids|)), DISK_HEADER_SIZE, IdBytes(ids))
  }

  datatype Header = Header(magic: nat, version: nat, capacity: nat, count: nat)

  function HeaderOf(p: Image): Header {
    Header(FromLE(p[..8]), FromLE(p[8..16]), FromLE(p[16..24]), FromLE(p[24..32]))
  }

  predicate ListFits(p: Image) {
    DISK_HEADER_SIZE + 4 * HeaderOf(p).count <= PAGE_SIZE
  }

  function ListOf(p: Image): (ids: seq<nat>)
    requires ListFits(p)
  {
    seq(HeaderOf(p).count, i requires 0 <= i < HeaderOf(p).count =>
      FromLE(p[DISK_HEADER_SIZE + 4 * i..DISK_HEADER_SIZE + 4 * i + 4]))
  }

  lemma {:induction false} IdBytesAt(ids: seq<nat>, i: nat)
    requires i < |ids|
    ensures IdBytes(ids)[4 * i..4 * i + 4] == LE(ids[i], 4)
  {
    hide *;
    var n := |ids| - 1;
    LastId(ids);
    Slices(IdBytes(ids[..n]), LE(ids[n], 4), 4 * i);
    if i < n {
      IdBytesAt(ids[..n], i);
    }
  }

  lemma LastId(ids: seq<nat>)
    requires ids != []
    ensures var n := |ids| - 1;
            IdBytes(ids) == IdBytes(ids[..n]) + LE(ids[n], 4) && |IdBytes(ids[..n])| == 4 * n && |LE(ids[n], 4)| == 4
  {
    hide LE;
  }

  lemma Slices(a: seq<byte>, b: seq<byte>, x: nat)
    requires |b| == 4 && (x == |a| || x + 4 <= |a|)
    ensures (a + b)[x..x + 4] == if x == |a| then b else a[x..x + 4]
  {
  }

  lemma FourParts(a: seq<byte>, b: seq<byte>, c: seq<byte>, d: seq<byte>)
    requires |a| == |b| == |c| == |d| == 8
    ensures var s := a + b + c + d; s[..8] == a && s[8..16] == b && s[16..24] == c && s[24..32] == d
  {
  }

  lemma HeaderFields(capacity: nat, count: nat)
    requires capacity < Pow256(8) && count < Pow256(8)
    ensures var b := HeaderBytes(capacity, count);
            Header(FromLE(b[..8]), FromLE(b[8..16]), FromLE(b[16..24]), FromLE(b[24..32]))
              == Header(DB_MAGIC, DB_FORMAT_VERSION, capacity, count)
  {
    FourParts(LE(DB_MAGIC, 8), LE(DB_FORMAT_VERSION, 8), LE(capacity, 8), LE(count, 8));
    PowEight();
    hide LE;
    hide FromLE;
    hide Pow256;
    LERoundTrip(DB_MAGIC, 8);
    LERoundTrip(DB_FORMAT_VERSION, 8);
    LERoundTrip(capacity, 8);
    LERoundTrip(count, 8);
  }

  /** Page 0 after persisting holds the header, then the list, whatever was in the file before. */
  lemma PersistedBytes(f: File, capacity: nat, ids: seq<nat>)
    requires DISK_HEADER_SIZE + 4 * |ids| <= PAGE_SIZE
    ensures var p := PageAt(Persisted(f, capacity, ids), 0);
            p[..DISK_HEADER_SIZE] == HeaderBytes(capacity, |ids|)
            && p[DISK_HEADER_SIZE..DISK_HEADER_SIZE + 4 * |ids|] == IdBytes(ids)
  {
    hide *;
    var h, b := HeaderBytes(capacity, |ids|), IdBytes(ids);
    WrittenShows(f, 0, h);
    WrittenShows(Overwritten(f, 0, h), DISK_HEADER_SIZE, b);
    PersistedIs(f, capacity, ids);
    FromZero(PageAt(Overwritten(f, 0, h), 0), DISK_HEADER_SIZE);
  }

  lemma PersistedIs(f: File, capacity: nat, ids: seq<nat>)
    ensures Persisted(f, capacity, ids) ==
            Overwritten(Overwritten(f, 0, HeaderBytes(capacity, |ids|)), DISK_HEADER_SIZE, IdBytes(ids))
  {
  }

  lemma FromZero(p: seq<byte>, n: nat)
    requires n <= |p|
    ensures p[0..0 + n] == p[..n]
  {
  }

  /** On page 0, a write at `off` shows its bytes there and leaves those before it alone. */
  lemma WrittenShows(f: File, off: nat, b: seq<byte>)
    requires off + |b| <= PAGE_SIZE
    ensures var p := PageAt(Overwritten(f, off, b), 0);
            p[off..off + |b|] == b && p[..off] == PageAt(f, 0)[..off]
  {
    hide Overwritten;
    var g := Overwritten(f, off, b);
    var p := PageAt(g, 0);
    hide PageAt;
    assert forall k :: 0 <= k < |b| ==> p[off + k] == g[off + k] == b[k];
  }

  lemma HeaderOfBytes(p: Image, b: seq<byte>)
    requires |b| == DISK_HEADER_SIZE && p[..DISK_HEADER_SIZE] == b
    ensures HeaderOf(p) == Header(FromLE(b[..8]), FromLE(b[8..16]), FromLE(b[16..24]), FromLE(b[24..32]))
  {
    assert p[..8] == b[..8] && p[8..16] == b[8..16] && p[16..24] == b[16..24] && p[24..32] == b[24..32];
  }

  lemma ListOfBytes(p: Image, ids: seq<nat>, i: nat)
    requires i < |ids| && DISK_HEADER_SIZE + 4 * |ids| <= PAGE_SIZE && ids[i] < Pow256(4)
    requires p[DISK_HEADER_SIZE..DISK_HEADER_SIZE + 4 * |ids|] == IdBytes(ids)
    ensures FromLE(p[DISK_HEADER_SIZE + 4 * i..DISK_HEADER_SIZE + 4 * i + 4]) == ids[i]
  {
    IdBytesAt(ids, i);
    LERoundTrip(ids[i], 4);
    hide *;
    SliceOf(p, DISK_HEADER_SIZE, p[DISK_HEADER_SIZE..DISK_HEADER_SIZE + 4 * |ids|], 4 * i, 4);
  }

  /** The bytes of page 0: the mark DUCK and the version, the capacity and the number of ids, then the ids, low byte first. */
  lemma HeaderFormat(f: File, capacity: nat, ids: seq<nat>)
    requires 32 + 4 * |ids| <= 8192
    ensures var p := PageAt(Persisted(f, capacity, ids), 0);
            && p[..16] == [0x4B, 0x43, 0x55, 0x44, 0, 0, 0, 0, 1, 0, 0, 0, 0, 0, 0, 0]
            && (forall k: nat :: k < 8 ==> p[16 + k] as nat == Digit(capacity, 256, k))
            && (forall k: nat :: k < 8 ==> p[24 + k] as nat == Digit(|ids|, 256, k))
            && (forall i: nat, k: nat :: i < |ids| && k < 4 ==> p[32 + 4 * i + k] as nat == Digit(ids[i], 256, k))
  {
    hide Digit;
    hide Persisted;
    hide PageAt;
    hide LE;
    hide IdBytes;
    var p, n := PageAt(Persisted(f, capacity, ids), 0), |ids|;
    PersistedBytes(f, capacity, ids);
    FourParts(LE(DB_MAGIC, 8), LE(DB_FORMAT_VERSION, 8), LE(capacity, 8), LE(n, 8));
    Mark();
    var h := HeaderBytes(capacity, n);
    assert p[..16] == h[..8] + h[8..16];
    forall k: nat | k < 8
      ensures p[16 + k] as nat == Digit(capacity, 256, k) && p[24 + k] as nat == Digit(n, 256, k)
    {
      LEByte(capacity, 8, k);
      LEByte(n, 8, k);
      assert p[16 + k] == p[..32][16 + k] == h[16..24][k] && p[24 + k] == p[..32][24 + k] == h[24..32][k];
    }
    forall i: nat, k: nat | i < |ids| && k < 4
      ensures p[32 + 4 * i + k] as nat == Digit(ids[i], 256, k)
    {
      IdBytesAt(ids, i);
      LEByte(ids[i], 4, k);
      assert p[32 + 4 * i + k] == p[32..32 + 4 * n][4 * i + k] == IdBytes(ids)[4 * i..4 * i + 4][k];
    }
  }

  lemma Mark()
    ensures LE(DB_MAGIC, 8) == [0x4B, 0x43, 0x55, 0x44, 0, 0, 0, 0] && LE(DB_FORMAT_VERSION, 8) == [1, 0, 0, 0, 0, 0, 0, 0]
  {
    LEStep(0x4455_434B, 8);
    LEStep(0x44_5543, 7);
    LEStep(0x4455, 6);
    LEStep(0x44, 5);
    LEZero(4);
    LEStep(1, 8);
    LEZero(7);
  }

  lemma LEStep(x: nat, n: nat)
    requires n > 0
    ensures LE(x, n) == [x % 256] + LE(x / 256, n - 1)
  {
  }

  lemma {:induction false} LEZero(n: nat)
    ensures LE(0, n) == Zeros(n)
  {
    if n > 0 {
      LEZero(n - 1);
    }
  }

  /** Reading the header back recovers exactly the capacity and the free list. */
  lemma {:induction false} PersistRoundTrip(f: File, capacity: nat, ids: seq<nat>)
    requires DISK_HEADER_SIZE + 4 * |ids| <= PAGE_SIZE && capacity < Pow256(8)
    requires forall i :: 0 <= i < |ids| ==> ids[i] < Pow256(4)
    ensures var p := PageAt(Persisted(f, capacity, ids), 0);
            && HeaderOf(p) == Header(DB_MAGIC, DB_FORMAT_VERSION, capacity, |ids|)
            && ListFits(p) && ListOf(p) == ids
  {
    PowEight();
    hide Persisted;
    hide PageAt;
    hide FromLE;
    hide HeaderBytes;
    hide IdBytes;
    hide Pow256;
    var p := PageAt(Persisted(f, capacity, ids), 0);
    PersistedBytes(f, capacity, ids);
    HeaderFields(capacity, |ids|);
    HeaderOfBytes(p, HeaderBytes(capacity, |ids|));
    hide HeaderOf;
    forall i | 0 <= i < |ids|
      ensures FromLE(p[DISK_HEADER_SIZE + 4 * i..DISK_HEADER_SIZE + 4 * i + 4]) == ids[i]
    {
      ListOfBytes(p, ids, i);
    }
  }

  lemma PersistOtherPages(f: File, capacity: nat, ids: seq<nat>, q: nat)
    requires DISK_HEADER_SIZE + 4 * |ids| <= PAGE_SIZE && q > 0
    ensures PageAt(Persisted(f, capacity, ids), q) == PageAt(f, q)
  {
    var g := Overwritten(f, 0, HeaderBytes(capacity, |ids|));
    WriteOtherPage(f, 0, HeaderBytes(capacity, |ids|), q);
    WriteOtherPage(g, DISK_HEADER_SIZE, IdBytes(ids), q);
  }

  // ----- The allocator -----

  ghost predicate FreeListOk(capacity: nat, freeList: seq<nat>, live: set<nat>) {
    && Distinct(freeList)
    && (forall i :: 0 <= i < |freeList| ==> 1 <= freeList[i] < capacity && freeList[i] !in live)
    && |freeList| <= FREE_LIST_LIMIT + 1
  }

  ghost predicate Allocator(capacity: nat, freeList: seq<nat>, live: set<nat>) {
    capacity <= INVALID_PAGE_ID && FreeListOk(capacity, freeList, live)
  }

  lemma AllocatorBack(f: File, capacity: nat, ids: seq<nat>, live: set<nat>)
    requires Allocator(capacity, ids, live)
    ensures var p := PageAt(Persisted(f, capacity, ids), 0);
            ListFits(p) && HeaderOf(p).capacity % 0x1_0000_0000 == capacity && ListOf(p) == ids
  {
    hide Persisted;
    hide PageAt;
    hide HeaderOf;
    hide ListOf;
    PowEight();
    PersistRoundTrip(f, capacity, ids);
  }

  /** Whether the file holds a database this program reads. */
  predicate Recognised(f: File) {
    |f| < PAGE_SIZE || (HeaderOf(PageAt(f, 0)).magic == DB_MAGIC && HeaderOf(PageAt(f, 0)).version == DB_FORMAT_VERSION)
  }

  lemma {:induction false} ReadAs(b: seq<byte>, x: nat)
    requires x < Pow256(|b|)
    ensures FromLE(b) == x <==> b == LE(x, |b|)
  {
    FromLEInverse(b);
    LERoundTrip(x, |b|);
  }

  lemma HeaderMark(p: Image)
    ensures HeaderOf(p).magic == DB_MAGIC && HeaderOf(p).version == DB_FORMAT_VERSION <==>
            p[..16] == LE(DB_MAGIC, 8) + LE(DB_FORMAT_VERSION, 8)
  {
    hide LE;
    hide FromLE;
    hide Pow256;
    PowEight();
    ReadAs(p[..8], DB_MAGIC);
    ReadAs(p[8..16], DB_FORMAT_VERSION);
    assert p[..16] == p[..8] + p[8..16];
  }

  /** A file of a page or more is recognised by its first sixteen bytes. */
  lemma RecognisedExactly(f: File)
    ensures Recognised(f) <==>
            |f| < 8192 || f[..16] == [0x4B, 0x43, 0x55, 0x44, 0, 0, 0, 0, 1, 0, 0, 0, 0, 0, 0, 0]
  {
    hide LE;
    hide HeaderOf;
    Mark();
    if |f| >= PAGE_SIZE {
      var p := PageAt(f, 0);
      HeaderMark(p);
      assert p[..16] == f[..16];
      assert LE(DB_MAGIC, 8) + LE(DB_FORMAT_VERSION, 8) == [0x4B, 0x43, 0x55, 0x44, 0, 0, 0, 0, 1, 0, 0, 0, 0, 0, 0, 0];
    }
  }

  class DiskManager {
    var file: File
    var capacity: nat
    var freeList: seq<nat>
    /** False when the constructor throws because of the magic number or the version. */
    const accepted: bool
    /** Ids handed out and not given back; ids dropped by a full free list stay out of both. */
    ghost var live: set<nat>

    ghost predicate Valid()
      reads this`capacity, this`freeList, this`live
    {
      && 1 <= capacity <= INVALID_PAGE_ID && 0 in live
      && (forall p :: p in live ==> p < capacity)
      && FreeListOk(capacity, freeList, live)
    }

    /** Opens a file shorter than a page as a new database, any other by its header. */
    constructor (f: File)
      requires |f| >= PAGE_SIZE ==> ListFits(PageAt(f, 0))
      ensures |f| < PAGE_SIZE ==> Valid() && capacity == 1 && freeList == [] && file == Persisted(f, 1, [])
      ensures |f| >= PAGE_SIZE ==>
                var p := PageAt(f, 0);
                file == f && capacity == HeaderOf(p).capacity % 0x1_0000_0000 && freeList == ListOf(p)
      ensures |f| >= PAGE_SIZE ==> live == set p | 0 <= p < capacity && p !in freeList
      ensures forall q :: q > 0 ==> PageAt(file, q) == PageAt(f, q)
      ensures accepted <==> Recognised(f)
    {
      hide Persisted;
      hide PageAt;
      hide HeaderOf;
      hide ListOf;
      hide FreeListOk;
      file, capacity, freeList, live := f, 0, [], {};
      accepted := Recognised(f);
      new;
      if |f| < PAGE_SIZE {
        var first := AllocatePage();
        FlushAll();
      } else {
        InitHeader();
      }
    }

    /** Reads back, from page 0 as it now is, the allocator that was last persisted there. */
    method InitHeader()
      requires |file| >= PAGE_SIZE && ListFits(PageAt(file, 0))
      modifies this`capacity, this`freeList, this`live
      ensures forall f, c, ids, held :: PageAt(file, 0) == PageAt(Persisted(f, c, ids), 0) && Allocator(c, ids, held) ==>
                capacity == c && freeList == ids
      ensures var p := PageAt(file, 0); capacity == HeaderOf(p).capacity % 0x1_0000_0000 && freeList == ListOf(p)
      ensures live == set p | 0 <= p < capacity && p !in freeList
    {
      hide Persisted;
      hide PageAt;
      hide HeaderOf;
      hide ListOf;
      hide FreeListOk;
      hide Allocator;
      var page := PageAt(file, 0);
      capacity := HeaderOf(page).capacity % 0x1_0000_0000;
      freeList := ListOf(page);
      live := set p | 0 <= p < capacity && p !in freeList;
      forall f, c, ids, held | page == PageAt(Persisted(f, c, ids), 0) && Allocator(c, ids, held)
        ensures capacity == c && freeList == ids
      {
        AllocatorBack(f, c, ids, held);
      }
    }

    /** An id no one holds: the last one given back, else the next never used. */
    method AllocatePage() returns (id: nat)
      requires Valid() || (capacity == 0 && freeList == [] && live == {})
      requires capacity < INVALID_PAGE_ID || freeList != []
      modifies this`capacity, this`freeList, this`live
      ensures Valid() && id !in old(live) && live == old(live) + {id}
      ensures if old(freeList) == [] then id == old(capacity) && capacity == id + 1 && freeList == []
              else freeList + [id] == old(freeList) && capacity == old(capacity)
    {
      if freeList != [] {
        id := freeList[|freeList| - 1];
        freeList := freeList[..|freeList| - 1];
      } else {
        id := capacity;
        capacity := capacity + 1;
      }
      live := live + {id};
    }

    /**
     * Takes an id back, or drops it when the list is long; false is the exception for page 0.
     * Nobody checks that the id was held.
     */
    method DeallocatePage(id: nat) returns (ok: bool)
      requires Valid()
      modifies this`freeList, this`live
      ensures (id in old(live) || id == 0 ==> Valid()) && (ok <==> id != 0)
      ensures live == if ok then old(live) - {id} else old(live)
      ensures freeList == if ok && |old(freeList)| <= FREE_LIST_LIMIT then old(freeList) + [id] else old(freeList)
    {
      if id == 0 {
        return false;
      }
      live := live - {id};
      if |freeList| > FREE_LIST_LIMIT {
        return true;
      }
      freeList := freeList + [id];
      return true;
    }

    /** Persists the allocator in page 0; no other page changes, and reading page 0 gives the allocator back. */
    method FlushAll()
      requires Valid()
      modifies this`file
      ensures file == Persisted(old(file), capacity, freeList)
      ensures forall q :: q > 0 ==> PageAt(file, q) == PageAt(old(file), q)
      ensures var p := PageAt(file, 0);
              && HeaderOf(p) == Header(DB_MAGIC, DB_FORMAT_VERSION, capacity, |freeList|)
              && ListFits(p) && ListOf(p) == freeList
    {
      hide PageAt;
      hide IdBytes;
      hide HeaderBytes;
      hide Overwritten;
      hide HeaderOf;
      hide ListOf;
      PowEight();
      forall q | q > 0
        ensures PageAt(Persisted(file, capacity, freeList), q) == PageAt(file, q)
      {
        PersistOtherPages(file, capacity, freeList, q);
      }
      PersistRoundTrip(file, capacity, freeList);
      file := Overwritten(file, 0, HeaderBytes(capacity, |freeList|));
      file := Overwritten(file, DISK_HEADER_SIZE, IdBytes(freeList));
    }

    /** False is the exception for an id that was never allocated. */
    method WritePage(id: nat, image: Image) returns (ok: bool)
      modifies this`file
      ensures ok <==> id < capacity
      ensures forall q :: PageAt(file, q) == if ok && q == id then image else PageAt(old(file), q)
      ensures |file| >= |old(file)| && (ok ==> |file| >= PAGE_SIZE)
    {
      if id >= capacity {
        return false;
      }
      forall q
        ensures PageAt(Overwritten(file, id * PAGE_SIZE, image), q) == if q == id then image else PageAt(file, q)
      {
        WritePageView(file, id, image, q);
      }
      file := Overwritten(file, id * PAGE_SIZE, image);
      return true;
    }

    /** Nothing for an id that was never allocated; otherwise what the file has of the page, and zeros after its end. */
    method ReadPage(id: nat) returns (image: Option<Image>)
      ensures image.None? <==> id >= capacity
      ensures image.Some? ==>
                forall k :: 0 <= k < PAGE_SIZE ==>
                  image.value[k] == if id * PAGE_SIZE + k < |file| then file[id * PAGE_SIZE + k] else 0
      ensures image.Some? ==> image.value == PageAt(file, id)
    {
      if id >= capacity {
        return None;
      }
      var offset := id * PAGE_SIZE;
      var read := if |file| <= offset then [] else file[offset..if |file| < offset + PAGE_SIZE then |file| else offset + PAGE_SIZE];
      var buffer := read + Zeros(PAGE_SIZE - |read|);
      assert buffer == PageAt(file, id);
      return Some(buffer);
    }
  }

  /**
   * Closing and reopening: capacity and free list survive exactly when the file has a whole page
   * or nothing but page 0 was ever allocated; otherwise every id is handed out afresh.
   */
  method Restart(d: DiskManager) returns (e: DiskManager)
    requires d.Valid()
    modifies d`file
    ensures e.Valid() && e.accepted
    ensures (e.capacity == d.capacity && e.freeList == d.freeList) <==> |old(d.file)| >= PAGE_SIZE || d.capacity == 1
    ensures |old(d.file)| < PAGE_SIZE ==> e.capacity == 1 && e.freeList == []
    ensures forall q :: q > 0 ==> PageAt(e.file, q) == PageAt(old(d.file), q)
  {
    hide Persisted;
    hide PageAt;
    hide HeaderOf;
    hide ListOf;
    hide FreeListOk;
    PersistedSize(d.file, d.capacity, d.freeList, d.live);
    OneEntryList(d.capacity, d.freeList, d.live);
    d.FlushAll();
    e := new DiskManager(d.file);
    Reloaded(d.capacity, d.freeList, d.live);
  }

  lemma PersistedSize(f: File, capacity: nat, ids: seq<nat>, live: set<nat>)
    requires FreeListOk(capacity, ids, live)
    ensures |Persisted(f, capacity, ids)| >= PAGE_SIZE <==> |f| >= PAGE_SIZE
  {
  }

  lemma OneEntryList(capacity: nat, ids: seq<nat>, live: set<nat>)
    requires FreeListOk(capacity, ids, live)
    ensures capacity == 1 ==> ids == []
  {
    assert |ids| > 0 ==> 1 <= ids[0] < capacity;
  }

  /** Everything not on the list counts as held after a reload. */
  lemma Reloaded(capacity: nat, ids: seq<nat>, live: set<nat>)
    requires FreeListOk(capacity, ids, live) && 0 < capacity
    ensures var held := set p | 0 <= p < capacity && p !in ids;
            FreeListOk(capacity, ids, held) && 0 in held
  {
  }
}
