/** Multi-page tuple storage: a chain of slotted pages found through the pool. */
module TableHeaps {
  import opened Bytes
  import opened SlottedLayout
  import opened SlottedPages
  import Compaction
  import opened PageStores
  import opened HeapModel
  import opened HeapStates

  /** How an insertion ends: a record id, nullopt, or one of the exceptions. */
  datatype InsertResult = Inserted(rid: RID) | NoFrame | CreateFailed | TooLarge

  /** How an update ends; `Lost` is the failed insertion of the new tuple after the old one was deleted. */
  datatype UpdateResult = Updated(rid: RID) | Missing | Unread | Lost(cause: InsertResult)

  datatype RestoreResult = Restored | AssertionFailed | NotFetched

  class TableHeap {
    const store: PageStore
    const first: nat
    ghost var chain: seq<nat>
    /** What the pages show, and what they show once they left their frames. */
    ghost var pages: Pages
    ghost var backed: Pages

    constructor (store: PageStore, first: nat, ghost chain: seq<nat>, ghost pages: Pages, ghost backed: Pages)
      requires store.Valid() && Represents(store.pages, pages) && Represents(store.kept, backed)
      requires SameShape(pages, backed) && IsChain(pages, chain) && chain[0] == first
      ensures Ready() && this.store == store && this.first == first && this.chain == chain
      ensures this.pages == pages && this.backed == backed
    {
      this.store, this.first, this.chain, this.pages, this.backed := store, first, chain, pages, backed;
    }

    ghost predicate Ready()
      reads this, store
    {
      && store.Valid() && Represents(store.pages, pages) && Represents(store.kept, backed)
      && SameShape(pages, backed) && IsChain(pages, chain) && chain[0] == first
    }

    /** Nothing was changed that a page would lose by leaving its frame. */
    ghost predicate Settled()
      reads this, store
    {
      pages == backed && AllAkin(store.pages, store.kept, pages)
    }

    ghost function Now(): State
      reads this, store
    {
      State(store.Both(), pages, backed)
    }

    /** The pages as the next call finds them if it pins page `id`. */
    ghost function Found(id: nat): Pages
      reads this, store
    {
      Faded(pages, backed, store.Gone({id}))
    }

    /** A record id of this heap, or of no page at all: ids of other heaps' pages are not checked. */
    ghost predicate Own(rid: RID)
      reads this, store
    {
      rid.page in pages || rid.page !in store.pages
    }

    // ----- One page -----

    /** Insertion into one fetched page, compacting it once if its tuples do not tile it. */
    static method InsertOnPage(frame: array<byte>, t: seq<byte>) returns (r: Option<nat>)
      requires frame.Length == PAGE_SIZE && Valid(frame[..]) && |t| <= MAX_TUPLE
      modifies frame
      ensures Valid(frame[..])
      ensures r.Some? <==> PageTakes(old(frame[..]), |t|)
      ensures var p, q := Read(old(frame[..])), Read(frame[..]);
              && (r.None? ==> q == p && Akin(old(frame[..]), frame[..]))
              && (r.Some? ==> r.value == FirstHole(p, 0) && r.value !in p.rows)
              && (r.Some? ==> q.rows == p.rows[r.value := t] && q.next == p.next && p.slots <= q.slots)
      ensures IsFresh(old(frame[..])) ==> r.Some?
    {
      hide *;
      EmptyIsHole(frame[..]);
      FreshTakes(frame[..], |t|);
      r := InsertCompacting(frame, t);
    }

    static method InsertCompacting(frame: array<byte>, t: seq<byte>) returns (r: Option<nat>)
      requires frame.Length == PAGE_SIZE && Valid(frame[..]) && |t| <= MAX_TUPLE
      modifies frame
      ensures Valid(frame[..])
      ensures r.Some? <==> PageTakes(old(frame[..]), |t|)
      ensures r.None? ==> Akin(old(frame[..]), frame[..])
      ensures r.Some? ==> r.value == FirstEmpty(LayoutOf(old(frame[..])))
      ensures var p, q := Read(old(frame[..])), Read(frame[..]);
              && (r.None? ==> q == p) && (r.Some? ==> r.value !in p.rows)
              && (r.Some? ==> q.rows == p.rows[r.value := t] && q.next == p.next && p.slots <= q.slots)
    {
      hide FirstEmpty;
      hide Takes;
      hide Compaction.CompactLayout;
      hide Compaction.Tiled;
      ghost var p := frame[..];
      CompactedFirstEmpty(p);
      var slotted := new SlottedPage(frame);
      r := slotted.Insert(t, None);
      if r.Some? {
        return;
      }
      var compacted := slotted.IsCompacted();
      if !compacted {
        slotted.Compact();
        CompactedAkin(p, frame[..]);
        r := slotted.Insert(t, None);
      }
    }

    static lemma FreshTakes(p: Image, n: nat)
      requires Valid(p) && n <= MAX_TUPLE
      ensures IsFresh(p) ==> PageTakes(p, n)
    {
    }

    static lemma CompactedFirstEmpty(p: Image)
      requires Valid(p)
      ensures FirstEmpty(Compaction.CompactLayout(LayoutOf(p))) == FirstEmpty(LayoutOf(p))
    {
      Compaction.CompactLayoutSound(LayoutOf(p));
      Compaction.SameEmpty(LayoutOf(p), Compaction.CompactLayout(LayoutOf(p)));
    }

    // ----- Pages in and out -----

    lemma FadedReady(gone: set<nat>)
      requires Ready()
      ensures var h, v := Faded(pages, backed, gone), Faded<Image>(store.pages, store.kept, gone);
              && Represents(v, h) && SameShape(h, backed) && IsChain(h, chain)
              && Moved(Now(), State(Views(v, store.kept), h, backed))
              && (Settled() ==> h == pages && AllAkin(v, store.kept, h) && AllAkin(store.pages, v, h))
    {
      FadedRepresents(store.pages, store.kept, pages, backed, gone);
      FadedShape(pages, backed, chain, gone);
      FadedMoves(store.pages, store.kept, pages, backed, gone);
      Backed(store.kept, backed);
      hide Represents;
      hide IsChain;
      hide Moved;
      hide PageTakes;
    }

    /** Whatever image of a page of the heap is shown, it takes what the page took in view `v`. */
    ghost predicate TakesAs(v: View)
      reads this, store
    {
      AkinAlong(v, store.pages, chain)
    }

    /** Pins a page of the heap. */
    method Load(id: nat) returns (frame: array?<byte>)
      requires Ready() && (id in pages || id !in store.pages)
      modifies this`pages, store`calls, store`pages, store`dirty
      ensures Ready() && store.calls == old(store.calls) + 1 && pages == old(Found(id))
      ensures Moved(old(Now()), Now()) && pages.Keys == old(pages).Keys
      ensures id in pages ==> pages[id] == old(pages)[id]
      ensures id in pages ==> id in store.pages && id in old(store.pages) && store.pages[id] == old(store.pages)[id]
      ensures id !in old(store.pages) ==> id !in store.pages
      ensures AllStay(old(store.Both()), store.Both())
      ensures store.dirty == old(store.dirty) - old(store.Gone({id}))
      ensures old(Settled()) ==> Settled() && pages == old(pages) && TakesAs(old(store.pages))
      ensures frame == null <==> id !in pages || store.starved(old(store.calls))
      ensures frame != null ==> fresh(frame) && frame.Length == PAGE_SIZE && Valid(frame[..])
      ensures frame != null ==> Read(frame[..]) == pages[id] && id in store.pages && frame[..] == store.pages[id]
    {
      hide SlottedLayout.Valid;
      hide Represents;
      hide IsChain;
      hide Moved;
      hide Akin;
      hide SameShape;
      hide AllStay;
      FadedReady(store.Gone({id}));
      KeysMatch();
      FadedStays(store.pages, store.kept, store.Gone({id}));
      ghost var v := store.pages;
      frame := store.Fetch(id);
      pages := Faded(pages, backed, old(store.Gone({id})));
      ChainInPages();
      if id in pages {
        PageShown(id);
      }
    }

    lemma KeysMatch()
      requires Ready()
      ensures store.kept.Keys == store.pages.Keys
    {
    }

    lemma ChainInPages()
      requires IsChain(pages, chain)
      ensures forall id :: id in chain <==> id in pages
    {
    }

    lemma PageShown(id: nat)
      requires Represents(store.pages, pages) && id in pages
      ensures id in store.pages && Valid(store.pages[id]) && pages[id] == Read(store.pages[id])
    {
    }

    /** The state with another image on page `id`, kept as well if `keep`. */
    ghost function With(id: nat, q: Image, keep: bool): State
      requires Valid(q)
      reads this, store
    {
      State(Views(store.pages[id := q], if keep then store.kept[id := q] else store.kept),
            pages[id := Read(q)], if keep then backed[id := Read(q)] else backed)
    }

    lemma PutReady(id: nat, q: Image, keep: bool)
      requires Ready() && id in pages && Valid(q) && Read(q).next == pages[id].next
      requires if keep then pages[id].slots <= Read(q).slots else pages[id].slots == Read(q).slots
      ensures var s := With(id, q, keep);
              && Represents(s.views.shown, s.pages) && Represents(s.views.kept, s.backed) && SameShape(s.pages, s.backed)
              && IsChain(s.pages, chain) && Grown(Now(), s) && id in store.pages
              && (Settled() && (keep || Akin(store.pages[id], q)) && (keep || Read(q) == pages[id]) ==>
                    s.pages == s.backed && AllAkin(s.views.shown, s.views.kept, s.pages))
    {
      hide SlottedLayout.Valid;
      hide Represents;
      hide IsChain;
      hide Grown;
      hide PageTakes;
      ghost var p := Read(q);
      hide Read;
      ReplacePage(pages, chain, id, p);
      PutPage(store.pages, pages, id, q);
      PutPage(store.kept, backed, id, q);
      Backed(store.pages, pages);
      PutShape(pages, backed, id, p, keep);
      hide SameShape;
      if Settled() && (keep || Akin(store.pages[id], q)) {
        PutAkin(store.pages, store.kept, pages, id, p, q, keep);
      }
      hide AllAkin;
      PutGrows(Now(), With(id, q, keep), id, p);
    }

    /** Unpins a page whose link is as it was, marked dirty. */
    method Save(id: nat, frame: array<byte>)
      requires Ready() && id in pages && frame.Length == PAGE_SIZE && Valid(frame[..])
      requires Read(frame[..]).next == pages[id].next && pages[id].slots <= Read(frame[..]).slots
      modifies this`pages, this`backed, store`pages, store`kept, store`dirty
      ensures Ready() && Now() == old(With(id, frame[..], true)) && store.dirty == old(store.dirty) + {id}
      ensures Grown(old(Now()), Now())
      ensures old(Settled()) ==> Settled()
    {
      hide SlottedLayout.Valid;
      hide Represents;
      hide IsChain;
      hide Grown;
      hide SameShape;
      hide Akin;
      hide Read;
      PutReady(id, frame[..], true);
      store.Unpin(id, frame);
      pages, backed := pages[id := Read(frame[..])], backed[id := Read(frame[..])];
    }

    lemma DirtyBacked(id: nat)
      requires Ready() && id in pages && id in store.dirty
      ensures backed[id] == pages[id]
    {
    }

    /** Unpins a page that means what it meant, without the mark. */
    method GiveBack(id: nat, frame: array<byte>)
      requires Ready() && id in pages && frame.Length == PAGE_SIZE && Valid(frame[..]) && Read(frame[..]) == pages[id]
      modifies this`pages, this`backed, store`pages, store`kept
      ensures Ready() && pages == old(pages) && backed == old(backed) && Moved(old(Now()), Now())
      ensures store.pages == old(store.pages)[id := frame[..]]
      ensures old(Settled()) && Akin(old(store.pages)[id], frame[..]) ==> Settled()
    {
      hide SlottedLayout.Valid;
      hide Represents;
      hide IsChain;
      hide Akin;
      hide AllAkin;
      hide Read;
      hide Moved;
      hide Grown;
      if id in store.dirty {
        DirtyBacked(id);
      }
      ghost var a := Now();
      Release(id, frame);
      assert pages == a.pages && backed == a.backed;
      SamePagesMoved(a, Now());
    }

    /** Unpins a page without the mark; the change is kept if the page was dirty already. */
    method Release(id: nat, frame: array<byte>)
      requires Ready() && id in pages && frame.Length == PAGE_SIZE && Valid(frame[..])
      requires Read(frame[..]).next == pages[id].next && pages[id].slots == Read(frame[..]).slots
      modifies this`pages, this`backed, store`pages, store`kept
      ensures Ready() && Now() == old(With(id, frame[..], id in store.dirty))
      ensures Grown(old(Now()), Now())
      ensures old(Settled()) && Read(frame[..]) == old(pages)[id] && Akin(old(store.pages)[id], frame[..]) ==> Settled()
    {
      hide SlottedLayout.Valid;
      hide Represents;
      hide IsChain;
      hide Grown;
      hide SameShape;
      hide Akin;
      hide Read;
      PutReady(id, frame[..], id in store.dirty);
      store.UnpinUnmarked(id, frame);
      pages := pages[id := Read(frame[..])];
      if id in store.dirty {
        backed := backed[id := Read(frame[..])];
      }
    }

    static method InitFrame(frame: array<byte>)
      requires frame.Length == PAGE_SIZE
      modifies frame
      ensures Valid(frame[..]) && IsFresh(frame[..]) && Read(frame[..]) == Page(map[], 0, INVALID_PAGE_ID)
    {
      var slotted := new SlottedPage(frame);
      slotted.Init();
    }

    static method LinkFrame(frame: array<byte>, id: nat)
      requires frame.Length == PAGE_SIZE && Valid(frame[..]) && id <= INVALID_PAGE_ID
      modifies frame
      ensures Valid(frame[..]) && Read(frame[..]) == Read(old(frame[..])).(next := id)
    {
      var slotted := new SlottedPage(frame);
      ghost var p := frame[..];
      slotted.SetNextPage(id);
      Relinked(p, frame[..], id);
    }

    lemma Start()
      requires Ready()
      ensures chain != [] && chain[0] == first
    {
    }

    lemma Position(i: nat)
      requires Ready() && i < |chain|
      ensures chain[i] in pages && chain[i] in store.pages
      ensures pages[chain[i]].next == Successor(chain, i)
      ensures pages[chain[i]].next == INVALID_PAGE_ID <==> i == |chain| - 1
    {
      ChainStep(pages, chain, i);
    }

    // ----- Insertion -----

    /** Creates a page and links it behind the last one; INVALID_PAGE_ID when the pool has no frame. */
    method AppendPage(last: nat, frame: array<byte>) returns (id: nat)
      requires Ready() && store.CanAllocate() && last == chain[|chain| - 1]
      requires last in pages && frame.Length == PAGE_SIZE && Valid(frame[..]) && Read(frame[..]) == pages[last]
      modifies this, store, frame
      ensures Ready() && store.calls == old(store.calls) + 1 && Moved(old(Now()), Now())
      ensures store.starved(old(store.calls)) ==> id == INVALID_PAGE_ID && chain == old(chain)
      ensures !store.starved(old(store.calls)) ==>
                && id == old(store.NextNew()) != INVALID_PAGE_ID && chain == old(chain) + [id]
                && id in store.pages && IsFresh(store.pages[id])
      ensures old(Settled()) && Akin(old(store.pages[last]), old(frame[..])) ==> Settled()
    {
      hide SlottedLayout.Valid;
      hide SlottedLayout.Contents;
      hide SlottedLayout.LayoutOf;
      hide IsChain;
      hide Represents;
      hide Moved;
      hide Grown;
      hide Akin;
      hide AllAkin;
      hide Read;
      hide Faded;
      ghost var a := Now();
      Backed(store.pages, pages);
      var newId, newFrame := NewFrame(last);
      if newFrame == null {
        GiveBack(last, frame);
        return INVALID_PAGE_ID;
      }
      id := newId;
      ghost var b := Now();
      LinkNew(last, frame, id, newFrame);
      AppendMoves(a, b, Now(), id);
    }

    lemma AppendMoves(a: State, b: State, c: State, id: nat)
      requires Moved(a, b) && Joined(b, c, id) && id !in a.views.shown && Drawn(b, c.pages) && Drawn(b, c.backed)
      ensures Moved(a, c)
    {
      JoinedGrows(a, b, c, id);
      DrawnTrans(a, b, c.pages);
      DrawnTrans(a, b, c.backed);
    }

    /** A new page, not yet part of the heap, while page `last` is held. */
    method NewFrame(last: nat) returns (id: nat, frame: array?<byte>)
      requires Ready() && store.CanAllocate() && last in pages
      modifies this`pages, store
      ensures Ready() && store.calls == old(store.calls) + 1
      ensures frame == null <==> store.starved(old(store.calls))
      ensures frame == null ==> Now() == old(Now())
      ensures id == old(store.NextNew()) && id !in old(store.pages) && id !in pages && id < INVALID_PAGE_ID
      ensures frame != null ==> fresh(frame) && frame.Length == PAGE_SIZE && id in store.pages
      ensures frame != null ==> Moved(old(Now()), Now()) && pages.Keys == old(pages).Keys && pages[last] == old(pages)[last]
      ensures frame != null && old(Settled()) ==> Settled()
    {
      hide SlottedLayout.Valid;
      hide IsChain;
      hide Represents;
      hide Moved;
      hide SameShape;
      hide Akin;
      hide AllAkin;
      ghost var gone := store.Gone({last});
      FadedReady(gone);
      Backed(store.pages, pages);
      ghost var v, k := Faded<Image>(store.pages, store.kept, gone), store.kept;
      hide Faded;
      id, frame := store.NewPage({last});
      if frame != null {
        pages := Faded(pages, backed, gone);
        MoreViews(old(Now()), v, k, pages, backed, id, store.pages[id], store.kept[id]);
      }
    }

    method LinkNew(last: nat, frame: array<byte>, id: nat, newFrame: array<byte>)
      requires Ready() && last in pages && last == chain[|chain| - 1] && frame != newFrame
      requires frame.Length == PAGE_SIZE && Valid(frame[..]) && Read(frame[..]) == pages[last]
      requires newFrame.Length == PAGE_SIZE && id !in pages && id < INVALID_PAGE_ID && id in store.pages
      modifies this, store`pages, store`kept, store`dirty, frame, newFrame
      ensures Ready() && Joined(old(Now()), Now(), id) && Drawn(old(Now()), pages) && Drawn(old(Now()), backed)
      ensures chain == old(chain) + [id] && id in store.pages && IsFresh(store.pages[id])
      ensures old(Settled()) ==> Settled()
    {
      hide *;
      InitFrame(newFrame);
      LinkFrame(frame, id);
      Join(last, frame, id, newFrame);
    }

    /** Saves the last page, linked to the new one, and the new page behind it. */
    method Join(last: nat, frame: array<byte>, id: nat, newFrame: array<byte>)
      requires Ready() && last in pages && last == chain[|chain| - 1] && frame.Length == newFrame.Length == PAGE_SIZE
      requires id !in pages && id < INVALID_PAGE_ID && id in store.pages
      requires Valid(frame[..]) && Read(frame[..]) == pages[last].(next := id)
      requires Valid(newFrame[..]) && IsFresh(newFrame[..]) && Read(newFrame[..]) == Page(map[], 0, INVALID_PAGE_ID)
      modifies this, store`pages, store`kept, store`dirty
      ensures Ready() && Joined(old(Now()), Now(), id) && Drawn(old(Now()), pages) && Drawn(old(Now()), backed)
      ensures chain == old(chain) + [id] && id in store.pages && IsFresh(store.pages[id])
      ensures old(Settled()) ==> Settled()
    {
      hide *;
      ghost var a, q, e := Now(), frame[..], newFrame[..];
      InStore(last);
      NowIs();
      LinkedReady(last, q, id, e);
      store.Unpin(id, newFrame);
      store.Unpin(last, frame);
      chain := chain + [id];
      ghost var b := Linked(a, last, q, id, e);
      pages, backed := b.pages, b.backed;
      LinkedNow(a, last, q, id, e);
      ReadyNow(b);
    }

    lemma NowIs()
      ensures Now() == State(Views(store.pages, store.kept), pages, backed)
    {
    }

    lemma InStore(id: nat)
      requires Ready() && id in pages
      ensures store.Valid() && id in store.pages
    {
    }

    lemma LinkedNow(a: State, last: nat, q: Image, id: nat, e: Image)
      requires Valid(q) && Valid(e) && last != id
      requires store.pages == a.views.shown[id := e][last := q] && store.kept == a.views.kept[id := e][last := q]
      ensures var b := Linked(a, last, q, id, e);
              b.views == Views(store.pages, store.kept) && id in store.pages && store.pages[id] == e
    {
    }

    /** The state `b` is one of a heap that is ready. */
    lemma ReadyNow(b: State)
      requires store.Valid() && b.views == Views(store.pages, store.kept) && pages == b.pages && backed == b.backed
      requires Represents(b.views.shown, b.pages) && Represents(b.views.kept, b.backed) && SameShape(b.pages, b.backed)
      requires IsChain(b.pages, chain) && chain[0] == first
      ensures Ready() && Now() == b
      ensures Settled() <==> b.pages == b.backed && AllAkin(b.views.shown, b.views.kept, b.pages)
    {
    }

    lemma LinkedReady(last: nat, q: Image, id: nat, e: Image)
      requires Ready() && last in pages && last == chain[|chain| - 1] && id !in pages && id < INVALID_PAGE_ID
      requires Valid(q) && Valid(e) && Read(q) == pages[last].(next := id) && Read(e) == Page(map[], 0, INVALID_PAGE_ID)
      ensures var b := Linked(Now(), last, q, id, e);
              && Represents(b.views.shown, b.pages) && Represents(b.views.kept, b.backed) && SameShape(b.pages, b.backed)
              && IsChain(b.pages, chain + [id]) && (chain + [id])[0] == first
              && Joined(Now(), b, id) && Drawn(Now(), b.pages) && Drawn(Now(), b.backed)
              && (Settled() ==> b.pages == b.backed && AllAkin(b.views.shown, b.views.kept, b.pages))
    {
      hide SlottedLayout.Valid;
      hide Read;
      hide Represents;
      hide Joined;
      hide Drawn;
      hide SameShape;
      hide AllAkin;
      HeapModel.AppendPage(pages, chain, last, id, Read(e));
      ChainInPages();
      hide IsChain;
      Backed(store.pages, pages);
      SameKeys();
      PutLinked(store.pages, pages, last, q, id, e);
      PutLinked(store.kept, backed, last, q, id, e);
      LinkedMoves(Now(), last, q, id, e);
      if Settled() {
        LinkedAkin(Now(), last, q, id, e);
      }
    }

    lemma SameKeys()
      requires SameShape(pages, backed)
      ensures pages.Keys == backed.Keys
    {
    }

    /** How the visit of a page ends, if the search ends there. */
    ghost function Outcome(pageId: nat, n: nat): Option<InsertResult>
      requires pageId in pages && pageId in store.pages
      reads this, store
    {
      if store.starved(store.calls) then Some(NoFrame)
      else if PageTakes(store.pages[pageId], n) then Some(Inserted(RID(pageId, FirstHole(pages[pageId], 0))))
      else if pages[pageId].next == INVALID_PAGE_ID && store.starved(store.calls + 1) then Some(CreateFailed)
      else None
    }

    lemma OutcomeIs(pageId: nat, n: nat)
      requires pageId in pages && pageId in store.pages
      ensures var o := Outcome(pageId, n);
              && (o == Some(NoFrame) <==> store.starved(store.calls))
              && (o.None? ==> !store.starved(store.calls) && !PageTakes(store.pages[pageId], n))
              && (o.Some? ==> o.value.NoFrame? || o.value.Inserted? || o.value.CreateFailed?)
              && (o.Some? && o.value.Inserted? ==>
                    && !store.starved(store.calls) && PageTakes(store.pages[pageId], n)
                    && o.value.rid == RID(pageId, FirstHole(pages[pageId], 0)))
              && (o == Some(CreateFailed) ==>
                    && !store.starved(store.calls) && store.starved(store.calls + 1) && !PageTakes(store.pages[pageId], n)
                    && pages[pageId].next == INVALID_PAGE_ID)
    {
      hide PageTakes;
      hide FirstHole;
    }

    /** One round of the search: insert here, or move on to the next page, creating it behind the last one. */
    method Visit(pageId: nat, t: seq<byte>) returns (done: Option<InsertResult>, next: nat, appended: bool)
      requires Ready() && |t| <= MAX_TUPLE && pageId in pages && pageId in store.pages
      requires store.CanAllocate() || IsFresh(store.pages[pageId])
      requires pages[pageId].next == INVALID_PAGE_ID ==> pageId == chain[|chain| - 1]
      modifies this, store
      ensures Ready() && done == old(Outcome(pageId, |t|)) && Grown(old(Now()), Now())
      ensures store.calls == old(store.calls) + if appended || done == Some(CreateFailed) then 2 else 1
      ensures IsFresh(old(store.pages)[pageId]) ==> done.Some?
      ensures done.Some? ==> chain == old(chain) && !appended
      ensures done.Some? && done.value.Inserted? ==>
                && done.value.rid !in Rows(old(Found(pageId)))
                && Rows(pages) == Rows(old(Found(pageId)))[done.value.rid := t]
      ensures !(done.Some? && done.value.Inserted?) ==> Moved(old(Now()), Now())
      ensures done.None? ==>
                && (appended <==> old(pages)[pageId].next == INVALID_PAGE_ID) && (appended ==> !store.starved(old(store.calls) + 1))
                && (!appended ==> next == old(pages)[pageId].next && chain == old(chain))
                && (!appended ==> store.CanAllocate() == old(store.CanAllocate()) && store.NextNew() == old(store.NextNew()))
                && (appended ==> next == old(store.NextNew()) && chain == old(chain) + [next])
                && (appended ==> next in store.pages && IsFresh(store.pages[next]))
      ensures old(Settled()) ==> Settled() && (done.None? && !appended ==> TakesAs(old(store.pages)) && pages == old(pages))
    {
      hide Ready;
      hide Settled;
      hide TakesAs;
      hide Found;
      hide AkinAlong;
      hide AllStay;
      hide SlottedLayout.Valid;
      hide SlottedLayout.Contents;
      hide SlottedLayout.LayoutOf;
      hide HeapModel.Rows;
      hide HeapModel.IsChain;
      hide Represents;
      hide SameShape;
      hide Moved;
      hide Grown;
      hide PageTakes;
      hide Akin;
      hide AllAkin;
      hide Read;
      hide Faded;
      hide FirstHole;
      hide IsFresh;
      ghost var a := Now();
      var frame := Load(pageId);
      MovedGrows(a, Now());
      if frame == null {
        return Some(NoFrame), INVALID_PAGE_ID, false;
      }
      ghost var b := Now();
      var slot := InsertOnPage(frame, t);
      if slot.Some? {
        RowsPut(pages, pageId, Read(frame[..]), slot.value, t);
        Save(pageId, frame);
        GrownTrans(a, b, Now());
        return Some(Inserted(RID(pageId, slot.value))), INVALID_PAGE_ID, false;
      }
      next, appended := MoveOn(pageId, frame, pages[pageId].next, a.views.shown);
      MovedTrans(a, b, Now());
      MovedGrows(a, Now());
      done := if next == INVALID_PAGE_ID then Some(CreateFailed) else None;
    }

    /** Goes to the next page, or creates one behind the last; INVALID_PAGE_ID when it cannot. */
    method MoveOn(pageId: nat, frame: array<byte>, ghost after: nat, ghost v: View) returns (next: nat, appended: bool)
      requires Ready() && pageId in pages && pageId in store.pages
      requires frame.Length == PAGE_SIZE && Valid(frame[..]) && Read(frame[..]) == pages[pageId]
      requires after == pages[pageId].next && Akin(store.pages[pageId], frame[..])
      requires after == INVALID_PAGE_ID ==> store.CanAllocate() && pageId == chain[|chain| - 1]
      modifies this, store, frame
      ensures Ready() && Moved(old(Now()), Now())
      ensures store.calls == old(store.calls) + if after == INVALID_PAGE_ID then 1 else 0
      ensures appended <==> after == INVALID_PAGE_ID && !store.starved(old(store.calls))
      ensures next == INVALID_PAGE_ID <==> after == INVALID_PAGE_ID && !appended
      ensures !appended ==> chain == old(chain)
      ensures after != INVALID_PAGE_ID ==>
                && next == after
                && store.CanAllocate() == old(store.CanAllocate()) && store.NextNew() == old(store.NextNew())
                && pages == old(pages) && (old(Settled() && TakesAs(v)) ==> TakesAs(v))
      ensures appended ==>
                && next == old(store.NextNew()) && chain == old(chain) + [next]
                && next in store.pages && IsFresh(store.pages[next])
      ensures old(Settled()) ==> Settled()
    {
      hide Ready;
      hide Settled;
      hide SlottedLayout.Valid;
      hide SlottedLayout.Contents;
      hide SlottedLayout.LayoutOf;
      hide HeapModel.Rows;
      hide HeapModel.IsChain;
      hide Represents;
      hide SameShape;
      hide Moved;
      hide Grown;
      hide PageTakes;
      hide AllAkin;
      hide Read;
      hide Faded;
      hide IsFresh;
      next := NextOf(frame);
      appended := next == INVALID_PAGE_ID;
      if appended {
        next := AppendPage(pageId, frame);
        appended := next != INVALID_PAGE_ID;
      } else {
        GiveBack(pageId, frame);
      }
    }

    static method NextOf(frame: array<byte>) returns (next: nat)
      requires frame.Length == PAGE_SIZE && Valid(frame[..])
      ensures next == Read(frame[..]).next
    {
      var slotted := new SlottedPage(frame);
      next := slotted.NextPage();
    }

    /** The page of the chain an insertion of `n` bytes would land on, by position; the chain's length for a new page. */
    ghost function Lands(skip: nat, n: nat): nat
      reads this, store
    {
      Landing(store.pages, chain, skip, 0, n)
    }

    /** The record id an insertion that lands at `k` gives. */
    ghost function Target(k: nat): RID
      reads this, store
    {
      TargetIn(pages, chain, store.NextNew(), k)
    }

    /**
     * First fit along the chain; a page is appended when nothing fits. `found` is what the pages held when the
     * tuple went in. Where everything is saved, the insertion succeeds exactly when none of the calls up to the
     * page it lands on is refused, and its record id is known beforehand.
     */
    method Insert(t: seq<byte>) returns (r: InsertResult, ghost found: Pages)
      requires Ready() && store.CanAllocate()
      modifies this, store
      ensures Ready() && Grown(old(Now()), Now()) && Drawn(old(Now()), found)
      ensures chain == old(chain) || exists id :: chain == old(chain) + [id]
      ensures r.TooLarge? <==> |t| > MAX_TUPLE
      ensures r.Inserted? ==> r.rid !in Rows(found) && Rows(pages) == Rows(found)[r.rid := t]
      ensures !r.Inserted? ==> Rows(pages) == Rows(found)
      ensures r.NoFrame? || r.CreateFailed? ==> !store.NeverStarved(old(store.calls))
      ensures r.NoFrame? || r.CreateFailed? ==> (r.CreateFailed? <==> store.FirstRefused(old(store.calls), |old(chain)|))
      ensures old(store.calls) <= store.calls
      ensures old(Settled()) ==> Settled() && Rows(found) == Rows(old(pages))
      ensures old(Settled()) && |t| <= MAX_TUPLE ==>
                var k := old(Lands(INVALID_PAGE_ID, |t|));
                && (r.Inserted? <==> store.Serves(old(store.calls), CallsTo(k, |old(chain)|)))
                && (r.Inserted? ==> store.calls == old(store.calls) + if k < |old(chain)| then k + 1 else |old(chain)| + 2)
                && (r.Inserted? ==> r.rid == old(Target(k)))
    {
      hide SlottedLayout.Valid;
      hide HeapModel.Rows;
      hide HeapModel.IsChain;
      hide Represents;
      hide Grown;
      hide Searching;
      hide AllAkin;
      hide Drawn;
      hide Landing;
      ghost var k := Lands(INVALID_PAGE_ID, |t|);
      ghost var q := Search(Now(), chain, store.calls, store.NextNew(), k, Settled());
      NowMoved();
      if |t| > MAX_TUPLE {
        return TooLarge, pages;
      }
      StartSearch(q, |t|);
      var pageId := first;
      var created := false;
      ghost var i := 0;
      while true
        invariant Searching(q, |t|, i, pageId, created) && (!created ==> i < |q.chain|)
        decreases !created, |q.chain| - i
      {
        var done, next, appended;
        done, next, appended, found := Round(q, i, pageId, created, t);
        if done.Some? {
          return done.value, found;
        }
        created := appended;
        pageId := next;
        i := i + 1;
      }
    }

    /** The search for a place as started in the state `q` has come to position `i` of the chain, page `pageId`. */
    ghost predicate Searching(q: Search, n: nat, i: nat, pageId: nat, created: bool)
      reads this, store
    {
      && Ready() && i < |chain| && pageId == chain[i] && Moved(q.start, Now())
      && store.calls == q.calls + i + (if created then 1 else 0) && store.Serves(q.calls, store.calls - q.calls)
      && (if created then
            && chain == q.chain + [pageId] && i == |q.chain| && pageId == q.newId
            && pageId in store.pages && IsFresh(store.pages[pageId])
          else chain == q.chain && store.CanAllocate() && store.NextNew() == q.newId)
      && (q.settled ==> Settled() && q.start.pages == q.start.backed && i <= q.k <= |q.chain|)
      && (q.settled && !created ==>
            && pages == q.start.pages && TakesAs(q.start.views.shown)
            && q.k == Landing(q.start.views.shown, q.chain, INVALID_PAGE_ID, 0, n))
    }

    /** The last call was the first one refused: behind as many fetches as the chain is long, the creation of a page. */
    ghost predicate Refused(q: Search, creation: bool)
      reads this, store
    {
      && q.calls < store.calls && store.FirstRefused(q.calls, store.calls - 1 - q.calls)
      && (creation <==> store.calls == q.calls + |q.chain| + 1)
    }

    /** The search ended with `r` where the pages were `found`. */
    ghost predicate Ended(q: Search, r: InsertResult, found: Pages, t: seq<byte>)
      reads this, store
    {
      && Ready() && Grown(q.start, Now()) && Drawn(q.start, found) && !r.TooLarge?
      && (chain == q.chain || exists id :: chain == q.chain + [id])
      && (r.Inserted? ==> r.rid !in Rows(found) && Rows(pages) == Rows(found)[r.rid := t])
      && (!r.Inserted? ==> Rows(pages) == Rows(found) && !store.NeverStarved(q.calls))
      && q.calls <= store.calls && (!r.Inserted? ==> Refused(q, r.CreateFailed?))
      && (q.settled ==>
            && Settled() && Rows(found) == Rows(q.start.pages)
            && (r.Inserted? <==> store.Serves(q.calls, CallsTo(q.k, |q.chain|)))
            && (r.Inserted? ==> store.calls == q.calls + CallsTo(q.k, |q.chain|))
            && (r.Inserted? ==> r.rid == TargetIn(q.start.pages, q.chain, q.newId, q.k)))
    }

    lemma RefusedAt(q: Search, c: nat, creation: bool)
      requires q.calls <= c && store.Serves(q.calls, c - q.calls) && store.calls == c + if creation then 2 else 1
      requires if creation then !store.starved(c) && store.starved(c + 1) && c + 1 == q.calls + |q.chain|
               else store.starved(c) && c != q.calls + |q.chain|
      ensures Refused(q, creation)
    {
    }

    lemma StartSearch(q: Search, n: nat)
      requires Ready() && store.CanAllocate()
      requires q == Search(Now(), chain, store.calls, store.NextNew(), Lands(INVALID_PAGE_ID, n), Settled())
      ensures Searching(q, n, 0, first, false) && |chain| > 0
    {
      hide Moved;
      hide Ready;
      hide Settled;
      hide TakesAs;
      NowMoved();
      Start();
      if Settled() {
        SettledMeans();
      }
    }

    /** One round of the search. */
    method Round(ghost q: Search, ghost i: nat, pageId: nat, created: bool, t: seq<byte>)
      returns (done: Option<InsertResult>, next: nat, appended: bool, ghost found: Pages)
      requires Searching(q, |t|, i, pageId, created) && |t| <= MAX_TUPLE
      modifies this, store
      ensures done.None? ==> !created && Searching(q, |t|, i + 1, next, appended) && (!appended ==> i + 1 < |q.chain|)
      ensures done.Some? ==> Ended(q, done.value, found, t)
    {
      hide Outcome;
      hide Refused;
      hide PageStore.Valid;
      hide Ready;
      hide Settled;
      hide TakesAs;
      hide Found;
      hide OnlyGrows;
      hide AllStay;
      hide AkinAlong;
      hide SlottedLayout.Valid;
      hide SlottedLayout.LayoutOf;
      hide HeapModel.Rows;
      hide HeapModel.IsChain;
      hide Represents;
      hide SameShape;
      hide Grown;
      hide Drawn;
      hide PageTakes;
      hide AllAkin;
      hide Akin;
      hide Faded;
      hide FirstHole;
      hide Landing;
      hide IsFresh;
      Position(i);
      ghost var b, f, c := Now(), Found(pageId), store.calls;
      FoundDrawn(q.start, pageId);
      if created {
        FreshHole(pageId, |t|);
      } else if q.settled {
        Landed(q.start.views.shown, i, |t|);
      }
      OutcomeIs(pageId, |t|);
      if q.settled && !created {
        TakesMeans(q.start.views.shown);
      }
      done, next, appended := Visit(pageId, t);
      GrownTrans(q.start, b, Now());
      found := if done.Some? && done.value.Inserted? then f else pages;
      if done == Some(NoFrame) || done == Some(CreateFailed) {
        RefusedAt(q, c, done == Some(CreateFailed));
      }
      if done.None? && !appended && q.settled {
        TakesTrans(q.start.views.shown, b.views.shown);
      }
      if done.None? || !done.value.Inserted? {
        MovedTrans(q.start, b, Now());
        if q.settled {
          DrawnSettled(q.start, pages);
        }
      }
    }

    lemma Landed(v: View, i: nat, n: nat)
      requires Ready() && TakesAs(v) && i < |chain| && i <= Landing(v, chain, INVALID_PAGE_ID, 0, n)
      ensures chain[i] in store.pages
      ensures PageTakes(store.pages[chain[i]], n) <==> i == Landing(v, chain, INVALID_PAGE_ID, 0, n)
    {
      assert chain[i] in chain;
      LandsHere(v, chain, 0, i, n);
      hide PageTakes;
    }

    lemma TakesMeans(v: View)
      requires TakesAs(v)
      ensures AkinAlong(v, store.pages, chain)
    {
    }

    lemma TakesTrans(v: View, w: View)
      requires TakesAs(w) && AkinAlong(v, w, chain)
      ensures TakesAs(v)
    {
      hide PageTakes;
      hide SlottedLayout.Valid;
    }

    lemma FreshHole(id: nat, n: nat)
      requires Ready() && id in pages && id in store.pages && IsFresh(store.pages[id]) && n <= MAX_TUPLE
      ensures FirstHole(pages[id], 0) == 0 && PageTakes(store.pages[id], n)
    {
      FreshTakes(store.pages[id], n);
    }

    lemma NowMoved()
      requires Ready()
      ensures Moved(Now(), Now()) && Grown(Now(), Now()) && Drawn(Now(), pages) && (Settled() ==> TakesAs(store.pages))
    {
      Backed(store.pages, pages);
      Backed(store.kept, backed);
      MovedRefl(Now());
      hide PageTakes;
    }

    lemma FoundDrawn(a: State, id: nat)
      requires Ready() && Moved(a, Now())
      ensures Drawn(a, Found(id))
      ensures a.pages == a.backed ==> Rows(Found(id)) == Rows(a.pages)
    {
      FadedReady(store.Gone({id}));
      DrawnTrans(a, Now(), Found(id));
      if a.pages == a.backed {
        DrawnSettled(a, Found(id));
      }
    }

    /** Allocates the first page of a new heap. */
    static method Create(store: PageStore) returns (heap: TableHeap?)
      requires store.Valid() && store.CanAllocate()
      modifies store
      ensures heap == null <==> store.starved(old(store.calls))
      ensures heap == null ==> store.Valid() && store.Both() == old(store.Both())
      ensures store.nextId <= old(store.nextId) + 1 && store.calls == old(store.calls) + 1
      ensures heap != null ==> fresh(heap) && heap.Ready() && heap.Settled() && heap.store == store
      ensures heap != null ==> heap.first !in old(store.pages) && heap.chain == [heap.first]
      ensures heap != null ==> heap.first == old(store.NextNew())
      ensures heap != null ==> Rows(heap.pages) == imap[]
      ensures heap != null ==> Grown(State(old(store.Both()), map[], map[]), heap.Now())
    {
      hide SlottedLayout.Valid;
      hide SlottedLayout.Contents;
      hide SlottedLayout.LayoutOf;
      hide Represents;
      hide IsChain;
      hide SameShape;
      hide AllAkin;
      hide Grown;
      hide HeapModel.Rows;
      hide Read;
      hide Faded;
      ghost var v, gone := store.Both(), store.Gone({});
      var id, frame := store.NewPage({});
      if frame == null {
        return null;
      }
      InitFrame(frame);
      store.Unpin(id, frame);
      CreatedReady(v, store.Both(), gone, id, frame[..]);
      ghost var h := map[id := Read(frame[..])];
      heap := new TableHeap(store, id, [id], h, h);
    }

    /** Reads a record; one of no bytes reads as absent. */
    method Get(rid: RID) returns (r: Option<seq<byte>>)
      requires Ready() && Own(rid)
      modifies this`pages, store`calls, store`pages, store`dirty
      ensures Ready() && store.calls == old(store.calls) + 1
      ensures pages == old(Found(rid.page)) && Moved(old(Now()), Now()) && store.dirty == old(store.dirty) - old(store.Gone({rid.page}))
      ensures old(Settled()) ==> Settled() && pages == old(pages) && TakesAs(old(store.pages))
      ensures rid.page in pages ==>
                old(rid.page in store.pages) && rid.page in store.pages && store.pages[rid.page] == old(store.pages)[rid.page]
      ensures !store.starved(old(store.calls)) ==>
                r == if rid in Rows(old(pages)) && Rows(old(pages))[rid] != [] then Some(Rows(old(pages))[rid]) else None
      ensures store.starved(old(store.calls)) ==> r.None?
    {
      hide AllStay;
      hide Moved;
      hide Represents;
      hide IsChain;
      hide SameShape;
      hide Settled;
      hide TakesAs;
      hide Faded;
      var frame := Load(rid.page);
      if frame == null {
        return None;
      }
      var t := GetFrom(frame, rid.slot);
      r := if |t| == 0 then None else Some(t);
    }

    static method GetFrom(frame: array<byte>, slot: nat) returns (t: seq<byte>)
      requires frame.Length == PAGE_SIZE && Valid(frame[..])
      ensures var p := Read(frame[..]); t == if slot in p.rows then p.rows[slot] else []
    {
      var slotted := new SlottedPage(frame);
      t := slotted.Get(slot);
    }

    method Delete(rid: RID) returns (ok: bool)
      requires Ready() && Own(rid)
      modifies this`pages, this`backed, store`calls, store`pages, store`kept, store`dirty
      ensures backed == if ok && rid.page in pages then old(backed)[rid.page := pages[rid.page]] else old(backed)
      ensures store.dirty == old(store.dirty) - old(store.Gone({rid.page})) + if ok then {rid.page} else {}
      ensures ok <==> rid in Rows(old(pages)) && !store.starved(old(store.calls))
      ensures Rows(pages) == if ok then Rows(old(Found(rid.page))) - {rid} else Rows(old(Found(rid.page)))
      ensures Ready() && store.calls == old(store.calls) + 1 && Grown(old(Now()), Now()) && SameSlots(old(pages), pages)
      ensures old(Settled()) ==> Settled() && Rows(old(Found(rid.page))) == Rows(old(pages))
    {
      hide Ready;
      hide Found;
      hide Faded;
      hide SameSlots;
      hide AllStay;
      hide SlottedLayout.Valid;
      hide SlottedLayout.Contents;
      hide SlottedLayout.LayoutOf;
      hide HeapModel.Rows;
      hide HeapModel.IsChain;
      hide Represents;
      hide SameShape;
      hide Settled;
      hide TakesAs;
      hide Moved;
      hide Grown;
      hide Read;
      ghost var a, f := Now(), Found(rid.page);
      RowsHome(pages, rid);
      RowsHome(f, rid);
      FoundSlots(rid.page);
      var frame := Load(rid.page);
      MovedGrows(a, Now());
      if frame == null {
        return false;
      }
      ghost var b := Now();
      ok := DeleteOnPage(frame, rid.slot);
      if ok {
        DropRow(rid, frame);
        GrownTrans(a, b, Now());
        SameSlotsTrans(a.pages, b.pages, pages);
      }
    }

    /** Saves a page from which one record was removed. */
    method DropRow(rid: RID, frame: array<byte>)
      requires Ready() && rid.page in pages && frame.Length == PAGE_SIZE && Valid(frame[..])
      requires Read(frame[..]) == pages[rid.page].(rows := pages[rid.page].rows - {rid.slot})
      modifies this`pages, this`backed, store`pages, store`kept, store`dirty
      ensures Ready() && Grown(old(Now()), Now()) && SameSlots(old(pages), pages)
      ensures Now() == old(With(rid.page, frame[..], true)) && store.dirty == old(store.dirty) + {rid.page}
      ensures Rows(pages) == Rows(old(pages)) - {rid}
      ensures old(Settled()) ==> Settled()
    {
      hide SlottedLayout.Valid;
      hide SlottedLayout.Contents;
      hide SlottedLayout.LayoutOf;
      hide HeapModel.Rows;
      hide HeapModel.IsChain;
      hide Represents;
      hide SameShape;
      hide Settled;
      hide Grown;
      RowsDrop(pages, rid.page, Read(frame[..]), rid.slot);
      Save(rid.page, frame);
    }

    lemma SameSlotsTrans(h: Pages, h': Pages, h'': Pages)
      requires SameSlots(h, h') && SameSlots(h', h'')
      ensures SameSlots(h, h'')
    {
    }

    lemma FoundSlots(id: nat)
      requires Ready()
      ensures SameSlots(pages, Found(id)) && (id in pages ==> Found(id)[id] == pages[id])
      ensures Settled() ==> Found(id) == pages
    {
      hide Represents;
      hide IsChain;
      hide AllAkin;
    }

    static method DeleteOnPage(frame: array<byte>, slot: nat) returns (ok: bool)
      requires frame.Length == PAGE_SIZE && Valid(frame[..])
      modifies frame
      ensures Valid(frame[..]) && (!ok ==> frame[..] == old(frame[..]))
      ensures var p := Read(old(frame[..]));
              Read(frame[..]) == Page(p.rows - {slot}, p.slots, p.next) && (ok <==> slot in p.rows)
      ensures ok ==> LayoutOf(frame[..]) == Dropped(LayoutOf(old(frame[..])), slot)
    {
      var slotted := new SlottedPage(frame);
      ok := slotted.Delete(slot);
    }

    /** Puts a tuple into an empty slot of its page, compacting first if the tuples do not tile it. */
    static method Reinsert(frame: array<byte>, slot: nat, t: seq<byte>) returns (ok: bool)
      requires frame.Length == PAGE_SIZE && Valid(frame[..]) && |t| < 0x1_0000
      requires slot < Read(frame[..]).slots && slot !in Read(frame[..]).rows
      modifies frame
      ensures Valid(frame[..]) && (ok <==> PageTakes(old(frame[..]), |t|))
      ensures var p := Read(old(frame[..]));
              Read(frame[..]) == Page(if ok then p.rows[slot := t] else p.rows, p.slots, p.next)
      ensures |t| > MAX_TUPLE ==> !ok
      ensures !ok ==> !PageTakes(frame[..], |t|)
    {
      hide FirstEmpty;
      hide PageTakes;
      var slotted := new SlottedPage(frame);
      Tidy(frame, |t|);
      EmptySlot(frame[..], slot);
      var r := slotted.Insert(t, Some(slot));
      ok := r.Some?;
    }

    /** Compacts a page whose tuples do not tile it; then it takes exactly what it takes as it is. */
    static method Tidy(frame: array<byte>, ghost n: nat)
      requires frame.Length == PAGE_SIZE && Valid(frame[..])
      modifies frame
      ensures Valid(frame[..]) && Read(frame[..]) == Read(old(frame[..]))
      ensures PageTakes(old(frame[..]), n) <==> Takes(LayoutOf(frame[..]), n)
      ensures PageTakes(frame[..], n) <==> PageTakes(old(frame[..]), n)
    {
      hide Compaction.Tiled;
      hide Compaction.CompactLayout;
      hide Takes;
      ghost var p := frame[..];
      var slotted := new SlottedPage(frame);
      var compacted := slotted.IsCompacted();
      if !compacted {
        slotted.Compact();
        CompactedAkin(p, frame[..]);
        CompactedFits(p, n);
      }
    }

    static lemma CompactedFits(p: Image, n: nat)
      requires Valid(p)
      ensures Takes(LayoutOf(p), n) ==> Takes(Compaction.CompactLayout(LayoutOf(p)), n)
    {
      Compaction.CompactLayoutSound(LayoutOf(p));
      Compaction.SameEmpty(LayoutOf(p), Compaction.CompactLayout(LayoutOf(p)));
    }

    static method OverwriteOnPage(frame: array<byte>, slot: nat, t: seq<byte>) returns (ok: bool)
      requires frame.Length == PAGE_SIZE && Valid(frame[..]) && |t| < 0x1_0000
      modifies frame
      ensures Valid(frame[..]) && (!ok ==> frame[..] == old(frame[..]))
      ensures var p := Read(old(frame[..]));
              && (ok <==> slot in p.rows && |t| <= |p.rows[slot]|)
              && Read(frame[..]) == Page(if ok then p.rows[slot := t] else p.rows, p.slots, p.next)
    {
      var slotted := new SlottedPage(frame);
      ok := slotted.TryUpdateInPlace(slot, t);
    }

    /** Replaces a record within its page: in place when it is no longer, else deleted and reinserted. */
    static method UpdateOnPage(frame: array<byte>, slot: nat, t: seq<byte>) returns (ok: bool)
      requires frame.Length == PAGE_SIZE && Valid(frame[..]) && |t| < 0x1_0000
      requires slot in Read(frame[..]).rows
      modifies frame
      ensures Valid(frame[..]) && (ok <==> InPlace(old(frame[..]), slot, |t|))
      ensures var p := Read(old(frame[..]));
              Read(frame[..]) == Page(if ok then p.rows[slot := t] else p.rows - {slot}, p.slots, p.next)
      ensures |t| > MAX_TUPLE ==> !ok
      ensures !ok ==> !PageTakes(frame[..], |t|)
    {
      hide SlottedLayout.Valid;
      hide SlottedLayout.Contents;
      hide SlottedLayout.LayoutOf;
      ghost var p := Read(frame[..]);
      RecordFits(frame[..], slot);
      ok := OverwriteOnPage(frame, slot, t);
      if ok {
        return;
      }
      ghost var was := frame[..];
      var deleted := DeleteOnPage(frame, slot);
      DropMeans(was, frame[..], slot, |t|);
      ok := Reinsert(frame, slot, t);
      assert ok ==> (p.rows - {slot})[slot := t] == p.rows[slot := t];
    }

    static lemma DropMeans(p: Image, q: Image, slot: nat, n: nat)
      requires Valid(p) && Valid(q) && slot in Contents(p) && SlotCount(p) <= MAX_SLOTS && SlotCount(q) <= MAX_SLOTS
      requires LayoutOf(q) == Dropped(LayoutOf(p), slot)
      ensures PageTakes(q, n) <==> DropTakes(p, slot, n)
    {
    }

    /**
     * Replaces a record on its page if the page takes the new bytes, else deletes it there and inserts it anew.
     * `found` is what the pages held when the old record went. Where everything is saved, the outcome is known
     * beforehand: the new bytes get a place exactly when they are not too long and none of the calls up to the
     * page they land on is refused.
     */
    method Update(rid: RID, t: seq<byte>) returns (r: UpdateResult, ghost found: Pages)
      requires Ready() && Own(rid) && store.CanAllocate() && |t| < 0x1_0000
      modifies this, store
      ensures r.Unread? <==> rid.page !in old(pages) || store.starved(old(store.calls))
      ensures !r.Unread? ==> (r.Missing? <==> rid !in Rows(old(pages)))
      ensures r.Missing? || r.Unread? ==> Rows(pages) == Rows(found)
      ensures r.Updated? || r.Lost? ==> rid in Rows(found) && rid in Rows(old(pages)) && Rows(found)[rid] == Rows(old(pages))[rid]
      ensures r.Updated? ==>
                && (r.rid == rid || r.rid !in Rows(found))
                && Rows(pages) == (Rows(found) - {rid})[r.rid := t]
      ensures r.Lost? ==> !r.cause.Inserted? && Rows(pages) == Rows(found) - {rid}
      ensures r.Lost? ==> (r.cause.TooLarge? <==> |t| > MAX_TUPLE)
      ensures r.Lost? ==> |t| > MAX_TUPLE || !store.NeverStarved(old(store.calls))
      ensures r.Lost? && |t| <= MAX_TUPLE ==> (r.cause.CreateFailed? <==> store.FirstRefused(old(store.calls) + 1, |old(chain)|))
      ensures |t| > MAX_TUPLE ==> !r.Updated?
      ensures r.Updated? || r.Lost? ==> old(Fits(rid, |t|)) ==> r == Updated(rid)
      ensures old(store.calls) <= store.calls
      ensures Ready() && Grown(old(Now()), Now()) && Drawn(old(Now()), found)
      ensures old(Settled()) ==> Settled() && Rows(found) == Rows(old(pages))
      ensures old(Settled()) && (r.Updated? || r.Lost?) && !old(Fits(rid, |t|)) ==>
                var k := old(Lands(rid.page, |t|));
                && (r.Updated? <==> |t| <= MAX_TUPLE && store.Serves(old(store.calls) + 1, CallsTo(k, |old(chain)|)))
                && (r.Updated? ==> r.rid == old(Target(k)))
    {
      hide AllStay;
      hide SlottedLayout.Valid;
      hide SlottedLayout.Contents;
      hide SlottedLayout.LayoutOf;
      hide HeapModel.Rows;
      hide HeapModel.IsChain;
      hide Represents;
      hide SameShape;
      hide Settled;
      hide Moved;
      hide Grown;
      hide Read;
      hide Faded;
      hide Drawn;
      hide InPlace;
      hide Fits;
      hide Landing;
      hide TargetIn;
      hide TakesAs;
      ghost var a := Now();
      RowsHome(pages, rid);
      if rid.page in pages {
        FitsMeans(rid, |t|);
      }
      if Settled() {
        SettledMeans();
      }
      var frame := Load(rid.page);
      found := pages;
      MovedMeans(a);
      if frame == null {
        return Unread, found;
      }
      var has := HasOn(frame, rid.slot);
      if !has {
        return Missing, found;
      }
      RowsHome(pages, rid);
      r, found := Replace(rid, frame, t, a);
    }

    lemma SettledMeans()
      requires Settled()
      ensures pages == backed
    {
    }

    lemma FitsMeans(rid: RID, n: nat)
      requires Ready() && rid.page in pages
      ensures rid.page in store.pages && Valid(store.pages[rid.page])
      ensures Fits(rid, n) <==>
              rid.slot in Contents(store.pages[rid.page]) && InPlace(store.pages[rid.page], rid.slot, n)
      ensures Contents(store.pages[rid.page]) == pages[rid.page].rows
    {
    }

    /** The update of a record on its page or elsewhere, the state having been `a` one call before. */
    method Replace(rid: RID, frame: array<byte>, t: seq<byte>, ghost a: State) returns (r: UpdateResult, ghost found: Pages)
      requires Ready() && rid.page in pages && frame.Length == PAGE_SIZE && Valid(frame[..]) && store.CanAllocate()
      requires rid.slot in pages[rid.page].rows && Read(frame[..]) == pages[rid.page] && |t| < 0x1_0000
      requires Moved(a, Now()) && rid.page in a.pages && pages[rid.page] == a.pages[rid.page]
      modifies this, store, frame
      ensures r.Updated? || r.Lost?
      ensures rid in Rows(found) && rid in Rows(a.pages) && Rows(found)[rid] == Rows(a.pages)[rid]
      ensures r.Updated? ==>
                && (r.rid == rid || r.rid !in Rows(found))
                && Rows(pages) == (Rows(found) - {rid})[r.rid := t]
      ensures r.Lost? ==> !r.cause.Inserted? && Rows(pages) == Rows(found) - {rid}
      ensures r.Lost? ==> (r.cause.TooLarge? <==> |t| > MAX_TUPLE)
      ensures r.Lost? ==> |t| > MAX_TUPLE || !store.NeverStarved(old(store.calls))
      ensures r.Lost? && |t| <= MAX_TUPLE ==> (r.cause.CreateFailed? <==> store.FirstRefused(old(store.calls), |old(chain)|))
      ensures |t| > MAX_TUPLE ==> !r.Updated?
      ensures InPlace(old(frame[..]), rid.slot, |t|) ==> r == Updated(rid)
      ensures old(store.calls) <= store.calls
      ensures Ready() && Grown(a, Now()) && Drawn(a, found)
      ensures old(Settled()) && a.pages == a.backed ==> Settled() && Rows(found) == Rows(a.pages)
      ensures old(Settled()) && old(TakesAs(a.views.shown)) && old(pages) == a.pages
              && !InPlace(old(frame[..]), rid.slot, |t|) ==>
                var k := Landing(a.views.shown, old(chain), rid.page, 0, |t|);
                && (r.Updated? <==> |t| <= MAX_TUPLE && store.Serves(old(store.calls), CallsTo(k, |old(chain)|)))
                && (r.Updated? ==> r.rid == TargetIn(a.pages, old(chain), old(store.NextNew()), k))
    {
      hide SlottedLayout.Valid;
      hide SlottedLayout.Contents;
      hide SlottedLayout.LayoutOf;
      hide HeapModel.Rows;
      hide HeapModel.IsChain;
      hide Represents;
      hide SameShape;
      hide Settled;
      hide TakesAs;
      hide Moved;
      hide Grown;
      hide Read;
      hide Drawn;
      hide PageTakes;
      hide InPlace;
      hide Landing;
      hide TargetIn;
      MovedMeans(a);
      RowsHome(pages, rid);
      RowsHome(a.pages, rid);
      var ok := UpdateOnPage(frame, rid.slot, t);
      if ok {
        ghost var b := Now();
        found := pages;
        RowsPut(pages, rid.page, Read(frame[..]), rid.slot, t);
        Save(rid.page, frame);
        GrownTrans(a, b, Now());
        assert Rows(found)[rid := t] == (Rows(found) - {rid})[rid := t];
        return Updated(rid), found;
      }
      var inserted;
      inserted, found := Relocate(rid, frame, t, a);
      r := if inserted.Inserted? then Updated(inserted.rid) else Lost(inserted);
    }

    /** Pages leaving their frames make no difference to where an insertion lands. */
    lemma LandsSame(v: View, skip: nat, n: nat)
      requires Ready() && TakesAs(v)
      ensures Landing(v, chain, skip, 0, n) == Lands(skip, n)
    {
      hide Akin;
      AkinLanding(v, store.pages, chain, skip, 0, n);
    }

    /** A record that moves gets another id. */
    lemma TargetElsewhere(rid: RID, n: nat)
      requires Ready() && rid.page in pages && store.CanAllocate()
      ensures Target(Lands(rid.page, n)) != rid
    {
      LandsElsewhere(store.pages, chain, rid.page, 0, n);
      Backed(store.pages, pages);
    }

    /** Whether the record can be replaced by `n` bytes on its page as it is shown. */
    ghost predicate Fits(rid: RID, n: nat)
      reads this, store
    {
      && rid.page in store.pages && Valid(store.pages[rid.page]) && rid.slot in Contents(store.pages[rid.page])
      && InPlace(store.pages[rid.page], rid.slot, n)
    }

    lemma OversizeFits(rid: RID, n: nat)
      requires Ready() && rid.page in pages && rid.slot in pages[rid.page].rows && n > MAX_TUPLE
      ensures !Fits(rid, n)
    {
      var p := store.pages[rid.page];
      RecordFits(p, rid.slot);
      DroppedIsSound(LayoutOf(p), rid.slot);
      Oversize(Dropped(LayoutOf(p), rid.slot), n);
      hide Compaction.TakesAtLast;
      hide Represents;
    }

    static lemma Oversize(l: Layout, n: nat)
      requires Sound(l) && |l.slots| > 0 && n > MAX_TUPLE
      ensures !Compaction.TakesAtLast(l, n)
    {
      hide Compaction.Tiled;
      Compaction.CompactLayoutSound(l);
      assert |Compaction.CompactLayout(l).slots| == |l.slots|;
    }

    static method HasOn(frame: array<byte>, slot: nat) returns (has: bool)
      requires frame.Length == PAGE_SIZE && Valid(frame[..])
      ensures has <==> slot in Read(frame[..]).rows
    {
      var slotted := new SlottedPage(frame);
      has := slotted.HasSlot(slot);
    }

    lemma MovedMeans(a: State)
      requires Moved(a, Now())
      ensures Grown(a, Now()) && Drawn(a, pages)
      ensures a.pages == a.backed ==> Rows(pages) == Rows(a.pages)
    {
      if a.pages == a.backed {
        DrawnSettled(a, pages);
      }
    }

    /** Saves the page without the record and inserts the tuple anew, the state having been `a` one call before. */
    method Relocate(rid: RID, frame: array<byte>, t: seq<byte>, ghost a: State) returns (inserted: InsertResult, ghost found: Pages)
      requires Ready() && rid.page in pages && frame.Length == PAGE_SIZE && Valid(frame[..]) && store.CanAllocate()
      requires rid.slot in pages[rid.page].rows && !PageTakes(frame[..], |t|)
      requires Read(frame[..]) == pages[rid.page].(rows := pages[rid.page].rows - {rid.slot})
      requires Moved(a, Now()) && rid.page in a.pages && pages[rid.page] == a.pages[rid.page]
      modifies this, store
      ensures rid in Rows(found) && rid in Rows(a.pages) && Rows(found)[rid] == Rows(a.pages)[rid]
      ensures inserted.Inserted? ==> inserted.rid == rid || inserted.rid !in Rows(found)
      ensures Rows(pages) == if inserted.Inserted? then (Rows(found) - {rid})[inserted.rid := t] else Rows(found) - {rid}
      ensures inserted.TooLarge? <==> |t| > MAX_TUPLE
      ensures inserted.NoFrame? || inserted.CreateFailed? ==>
                && !store.NeverStarved(old(store.calls))
                && (inserted.CreateFailed? <==> store.FirstRefused(old(store.calls), |old(chain)|))
      ensures old(store.calls) <= store.calls
      ensures Ready() && Grown(a, Now()) && Drawn(a, found)
      ensures old(Settled()) && a.pages == a.backed ==> Settled() && Rows(found) == Rows(a.pages)
      ensures old(Settled()) && |t| <= MAX_TUPLE && old(TakesAs(a.views.shown)) && old(pages) == a.pages ==>
                var k := Landing(a.views.shown, old(chain), rid.page, 0, |t|);
                && (inserted.Inserted? <==> store.Serves(old(store.calls), CallsTo(k, |old(chain)|)))
                && (inserted.Inserted? ==> inserted.rid == TargetIn(a.pages, old(chain), old(store.NextNew()), k))
    {
      hide SlottedLayout.Valid;
      hide SlottedLayout.Contents;
      hide SlottedLayout.LayoutOf;
      hide HeapModel.Rows;
      hide HeapModel.IsChain;
      hide Represents;
      hide SameShape;
      hide AllAkin;
      hide Moved;
      hide Grown;
      hide Read;
      hide Drawn;
      hide PageTakes;
      hide Akin;
      hide Landing;
      hide With;
      hide Returned;
      hide Emptied;
      hide TargetIn;
      hide TakesAs;
      hide Settled;
      ghost var b, n, chain0, settled := Now(), |t|, chain, Settled();
      MovedGrows(a, b);
      DropMeansEmptied(rid, frame[..]);
      if TakesAs(a.views.shown) && pages == a.pages && Settled() {
        LandsAfterDrop(a, rid, frame[..], n);
      }
      DropRow(rid, frame);
      ghost var c := Now();
      GrownTrans(a, b, c);
      inserted, found := Insert(t);
      GrownTrans(a, c, Now());
      ReturnedDrawn(a, b, c, found, rid);
      ReturnedRows(found, a.pages, rid);
      found := Returned(found, a.pages, rid.page);
      if a.pages == a.backed {
        DrawnSettled(a, found);
      }
    }

    lemma DropMeansEmptied(rid: RID, q: Image)
      requires Ready() && rid.page in pages && Valid(q)
      requires Read(q) == pages[rid.page].(rows := pages[rid.page].rows - {rid.slot})
      ensures var c := With(rid.page, q, true);
              Emptied(pages, c.pages, pages, rid) && Emptied(backed, c.backed, pages, rid)
    {
    }

    /** Once the record is gone from its page, an insertion lands where it would have, its own page left out. */
    lemma LandsAfterDrop(a: State, rid: RID, q: Image, n: nat)
      requires Ready() && rid.page in pages && Valid(q) && !PageTakes(q, n) && TakesAs(a.views.shown) && pages == a.pages
      ensures var c, k := With(rid.page, q, true), Landing(a.views.shown, chain, rid.page, 0, n);
              && Landing(c.views.shown, chain, INVALID_PAGE_ID, 0, n) == k
              && TargetIn(c.pages, chain, store.NextNew(), k) == TargetIn(a.pages, chain, store.NextNew(), k)
    {
      hide SlottedLayout.Valid;
      hide SlottedLayout.LayoutOf;
      hide Represents;
      hide SameShape;
      hide PageTakes;
      hide Read;
      hide Landing;
      hide TargetIn;
      hide TakeAlike;
      PutAlike(a.views.shown, store.pages, chain, rid.page, q, n);
      NoInvalid();
      hide IsChain;
      SameLanding(a.views.shown, store.pages[rid.page := q], chain, rid.page, 0, n);
      SameTarget(a.pages, pages[rid.page := Read(q)], chain, rid.page, store.NextNew(), a.views.shown, n);
    }

    lemma NoInvalid()
      requires IsChain(pages, chain)
      ensures INVALID_PAGE_ID !in chain
    {
    }

    /**
     * Puts a deleted record back under its own id. The frame is not marked dirty: the record is kept only if the
     * frame was marked before.
     */
    method Restore(rid: RID, t: seq<byte>) returns (r: RestoreResult)
      requires Ready() && Own(rid) && |t| < 0x1_0000
      modifies this`pages, this`backed, store`calls, store`pages, store`kept, store`dirty
      ensures backed == if r.Restored? && rid.page in store.dirty && rid.page in pages then old(backed)[rid.page := pages[rid.page]]
                        else old(backed)
      ensures r.NotFetched? <==> rid.page !in old(pages) || store.starved(old(store.calls))
      ensures r.Restored? <==>
                && !store.starved(old(store.calls)) && rid.page in old(pages) && rid !in Rows(old(pages))
                && rid.slot < old(pages)[rid.page].slots && Room(old(pages)[rid.page], |t|)
      ensures Rows(pages) == if r.Restored? then Rows(old(Found(rid.page)))[rid := t] else Rows(old(Found(rid.page)))
      ensures store.dirty == old(store.dirty) - old(store.Gone({rid.page}))
      ensures Ready() && store.calls == old(store.calls) + 1 && Grown(old(Now()), Now()) && SameSlots(old(pages), pages)
    {
      hide Ready;
      hide Found;
      hide Faded;
      hide SameSlots;
      hide AllStay;
      hide SlottedLayout.Valid;
      hide SlottedLayout.Contents;
      hide SlottedLayout.LayoutOf;
      hide HeapModel.Rows;
      hide HeapModel.IsChain;
      hide Represents;
      hide SameShape;
      hide Moved;
      hide Grown;
      hide Settled;
      hide TakesAs;
      hide Read;
      hide Room;
      ghost var a := Now();
      RowsHome(pages, rid);
      FoundSlots(rid.page);
      var frame := Load(rid.page);
      MovedGrows(a, Now());
      if frame == null {
        return NotFetched;
      }
      ghost var b := Now();
      var ok := RestoreOnPage(frame, rid.slot, t);
      if ok {
        PutRow(rid, frame, t);
        GrownTrans(a, b, Now());
        SameSlotsTrans(a.pages, b.pages, pages);
        return Restored;
      }
      GiveBack(rid.page, frame);
      MovedGrows(b, Now());
      GrownTrans(a, b, Now());
      return AssertionFailed;
    }

    /** Unpins a page to which one record was added in an old slot, without the mark. */
    method PutRow(rid: RID, frame: array<byte>, t: seq<byte>)
      requires Ready() && rid.page in pages && frame.Length == PAGE_SIZE && Valid(frame[..])
      requires Read(frame[..]) == pages[rid.page].(rows := pages[rid.page].rows[rid.slot := t])
      modifies this`pages, this`backed, store`pages, store`kept
      ensures Now() == old(With(rid.page, frame[..], rid.page in store.dirty)) && Rows(pages) == Rows(old(pages))[rid := t]
      ensures Ready() && Grown(old(Now()), Now()) && SameSlots(old(pages), pages)
    {
      hide SlottedLayout.Valid;
      hide SlottedLayout.Contents;
      hide SlottedLayout.LayoutOf;
      hide HeapModel.Rows;
      hide HeapModel.IsChain;
      hide Represents;
      hide SameShape;
      hide Settled;
      hide Grown;
      RowsPut(pages, rid.page, Read(frame[..]), rid.slot, t);
      Release(rid.page, frame);
    }

    static method RestoreOnPage(frame: array<byte>, slot: nat, t: seq<byte>) returns (ok: bool)
      requires frame.Length == PAGE_SIZE && Valid(frame[..]) && |t| < 0x1_0000
      modifies frame
      ensures Valid(frame[..])
      ensures var p := Read(old(frame[..]));
              && (ok <==> slot < p.slots && slot !in p.rows && Room(p, |t|))
              && Read(frame[..]) == Page(if ok then p.rows[slot := t] else p.rows, p.slots, p.next)
    {
      var slotted := new SlottedPage(frame);
      ok := slotted.Restore(slot, t);
    }

    /** Walks the chain; `complete` is false exactly when a fetch was refused on the way. */
    method AllPages() returns (ids: seq<nat>, complete: bool)
      requires Ready()
      modifies this`pages, store`calls, store`pages, store`dirty
      ensures Ready() && ids <= chain && (complete ==> ids == chain)
      ensures complete <==> store.Serves(old(store.calls), |chain|)
      ensures old(store.calls) <= store.calls && (complete ==> store.calls == old(store.calls) + |chain|)
      ensures Moved(old(Now()), Now()) && AllStay(old(store.Both()), store.Both())
      ensures old(Settled()) ==> Settled() && pages == old(pages)
    {
      hide Ready;
      hide Settled;
      hide Moved;
      hide IsChain;
      KeysMatch();
      ids := [];
      Start();
      NowMoved();
      ghost var a := Now();
      assert AllStay(a.views, store.Both());
      hide AllStay;
      var pageId := first;
      while true
        invariant Ready() && |ids| < |chain| && pageId == chain[|ids|] && ids == chain[..|ids|]
        invariant store.calls == old(store.calls) + |ids| && store.Serves(old(store.calls), |ids|)
        invariant Moved(a, Now()) && (old(Settled()) ==> Settled() && pages == old(pages))
        invariant AllStay(a.views, store.Both())
        decreases |chain| - |ids|
      {
        ghost var b := Now();
        var next := Follow(pageId, |ids|);
        MovedTrans(a, b, Now());
        AllStayTrans(a.views, b.views, store.Both());
        if next.None? {
          assert store.starved(old(store.calls) + |ids|);
          return ids, false;
        }
        ids := ids + [pageId];
        pageId := next.value;
        if pageId == INVALID_PAGE_ID {
          return ids, true;
        }
      }
    }

    /** The page the one at position `i` links to, if it can be fetched. */
    method Follow(pageId: nat, ghost i: nat) returns (next: Option<nat>)
      requires Ready() && i < |chain| && pageId == chain[i]
      modifies this`pages, store`calls, store`pages, store`dirty
      ensures next == if store.starved(old(store.calls)) then None else Some(Successor(chain, i))
      ensures next == Some(INVALID_PAGE_ID) <==> next.Some? && i == |chain| - 1
      ensures Ready() && store.calls == old(store.calls) + 1 && Moved(old(Now()), Now())
      ensures AllStay(old(store.Both()), store.Both())
      ensures old(Settled()) ==> Settled() && pages == old(pages)
    {
      hide SlottedLayout.Valid;
      hide SlottedLayout.Contents;
      hide SlottedLayout.LayoutOf;
      hide IsChain;
      hide Represents;
      hide SameShape;
      hide Settled;
      hide TakesAs;
      hide Moved;
      hide Read;
      hide Faded;
      hide AllStay;
      Position(i);
      var frame := Load(pageId);
      if frame == null {
        return None;
      }
      Position(i);
      var id := NextOf(frame);
      next := Some(id);
    }

    /** The heap, its store left out. */
    ghost function AsHome(): Home
      reads this
    {
      Home(first, chain, pages, backed)
    }

    lemma AtHome()
      ensures Ready() <==> store.Valid() && HomeIn(AsHome(), store.Both())
      ensures Settled() <==> HomeSettled(AsHome(), store.Both())
    {
    }

    /** The heap in a store that another heap has worked on: some pages may have left their frames. */
    ghost method Refresh(v: Views)
      requires store.Valid() && HomeIn(AsHome(), v) && forall id :: id in pages ==> Stays(v, store.Both(), id)
      modifies this`pages
      ensures Ready() && SameHome(old(AsHome()), AsHome()) && pages.Keys == old(pages).Keys
      ensures old(HomeSettled(AsHome(), v)) ==> Settled() && pages == old(pages)
    {
      hide HomeIn;
      hide HomeSettled;
      hide Ready;
      hide Settled;
      hide Refreshed;
      RefreshedHome(AsHome(), v, store.Both());
      pages := Refreshed(AsHome(), v, store.Both()).pages;
      AtHome();
    }
  }
}
