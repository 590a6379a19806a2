/** What the pages of a heap show and keep, what a page takes, and how operations change both. */
module HeapStates {
  import opened Bytes
  import opened SlottedLayout
  import Compaction
  import opened PageStores
  import opened HeapModel

  const MAX_TUPLE: nat := PAGE_SIZE - HEADER_SIZE - SLOT_SIZE

  ghost function Read(p: Image): Page
    requires Valid(p)
  {
    Page(Contents(p), SlotCount(p), LayoutOf(p).next)
  }

  /** The abstract pages `h` are valid pages of the pool and mean what the pool shows. */
  ghost predicate Represents(v: View, h: Pages) {
    forall id :: id in h ==> id in v && Valid(v[id]) && h[id] == Read(v[id])
  }

  /** Compaction would leave room for `n` more bytes beside the slots the page has. */
  predicate Room(p: Page, n: nat) {
    HEADER_SIZE + SLOT_SIZE * p.slots + Compaction.TotalBytes(p.rows, p.slots) + n <= PAGE_SIZE
  }

  /** A stored tuple shares the page with at least its own directory entry. */
  lemma RecordFits(p: Image, slot: nat)
    requires Valid(p) && slot in Contents(p)
    ensures |Contents(p)[slot]| <= MAX_TUPLE && slot < SlotCount(p)
  {
    assert Live(LayoutOf(p), slot) && slot < SlotCount(p);
  }

  lemma EmptySlot(p: Image, slot: nat)
    requires Valid(p) && slot < SlotCount(p) && slot !in Contents(p)
    ensures var l := LayoutOf(p); !Live(l, slot) && HasEmptySlot(l)
  {
    assert !Live(LayoutOf(p), slot);
  }

  predicate IsFresh(p: Image) {
    SlotCount(p) == 0 && LayoutOf(p) == Layout(INVALID_PAGE_ID, PAGE_SIZE, [])
  }

  /** Rewriting the link leaves tuples and directory alone. */
  lemma Relinked(p: Image, q: Image, id: nat)
    requires Valid(p) && Redirected(p, q, LayoutOf(p).(next := id))
    ensures Valid(q) && Read(q) == Read(p).(next := id)
  {
    var l, m := LayoutOf(p), LayoutOf(q);
    assert Sound(m);
    assert forall i :: Live(m, i) <==> Live(l, i);
    SameTail(l, p, q);
    assert Tuples(m, q) == Tuples(l, q);
  }

  // ----- What a page takes -----

  /** Whether an insertion of `n` bytes succeeds on the page, by the page's directory alone. */
  ghost predicate PageTakes(p: Image, n: nat) {
    Valid(p) && Compaction.TakesAtLast(LayoutOf(p), n)
  }

  /** Header, directory and the tuple need this much, a new slot included if every slot is live. */
  ghost function Needed(l: Layout, n: nat): nat {
    8 + 4 * (if forall i :: 0 <= i < |l.slots| ==> l.slots[i].offset != 0 then |l.slots| + 1 else |l.slots|) + n
  }

  /**
   * A page takes a tuple exactly when header, directory and tuple fit below the free-space offset, or when they fit
   * beside the live bytes and the live tuples do not form one unbroken row up to the page end.
   */
  lemma TakesExactly(p: Image, n: nat)
    requires Valid(p)
    ensures var l := LayoutOf(p);
            PageTakes(p, n) <==>
            || Needed(l, n) <= l.free
            || (l.slots != [] && !Compaction.Seamless(l) && Needed(l, n) + Compaction.TotalBytes(Contents(p), |l.slots|) <= 8192)
  {
    var l := LayoutOf(p);
    Compaction.SeamlessContents(p);
    Compaction.CompactLayoutSound(l);
    Compaction.LiveBytesOfTuples(l, p, |l.slots|);
    Compaction.SameEmpty(l, Compaction.CompactLayout(l));
    NeededMeans(l, n);
    NeededMeans(Compaction.CompactLayout(l), n);
    hide Compaction.Tiled;
    hide Compaction.Seamless;
    hide Takes;
    hide Contents;
  }

  lemma NeededMeans(l: Layout, n: nat)
    requires Sound(l)
    ensures Takes(l, n) <==> Needed(l, n) <= l.free
    ensures Needed(l, n) == 8 + 4 * (if HasEmptySlot(l) then |l.slots| else |l.slots| + 1) + n
  {
    if i :| 0 <= i < |l.slots| && !Live(l, i) {
      assert l.slots[i].offset == 0;
    }
  }

  /** The two pages take the same tuples. */
  ghost predicate Akin(p: Image, q: Image) {
    Valid(p) && Valid(q) && forall n: nat :: PageTakes(p, n) <==> PageTakes(q, n)
  }

  lemma CompactedAkin(p: Image, q: Image)
    requires Valid(p) && Compaction.Compacted(p, q) && !Compaction.Tiled(LayoutOf(p))
    ensures Akin(p, q)
  {
    Compaction.CompactionKeepsContents(p, q);
    forall n: nat
      ensures PageTakes(p, n) <==> PageTakes(q, n)
    {
      Compaction.CompactedTakes(LayoutOf(p), n);
    }
  }

  /** The directory without the tuple in slot `i`. */
  function Dropped(l: Layout, i: nat): Layout
    requires i < |l.slots|
  {
    l.(slots := l.slots[i := Slot(INVALID_SLOT_OFFSET, l.slots[i].length)])
  }

  /** Whether the tuple in a live slot can be replaced by `n` bytes on its own page. */
  ghost predicate InPlace(p: Image, slot: nat, n: nat)
    requires Valid(p) && slot in Contents(p)
  {
    n <= |Contents(p)[slot]| || DropTakes(p, slot, n)
  }

  /** Whether the page takes `n` bytes once the tuple in the slot is gone. */
  ghost predicate DropTakes(p: Image, slot: nat, n: nat)
    requires Valid(p) && slot in Contents(p)
  {
    DroppedIsSound(LayoutOf(p), slot);
    Compaction.TakesAtLast(Dropped(LayoutOf(p), slot), n)
  }

  /**
   * A record is replaced on its page exactly when the new bytes are no more than the old ones, or fit below the
   * free-space offset, or fit in place of the old ones beside the other live bytes where these are not one unbroken row.
   */
  lemma InPlaceExactly(p: Image, slot: nat, n: nat)
    requires Valid(p) && slot in Contents(p)
    ensures var l := LayoutOf(p); var dir := 8 + 4 * |l.slots|;
            InPlace(p, slot, n) <==>
            || n <= |Contents(p)[slot]| || dir + n <= l.free
            || (!Compaction.Seamless(Dropped(l, slot))
                && dir + Compaction.TotalBytes(Contents(p), |l.slots|) - |Contents(p)[slot]| + n <= 8192)
  {
    var l := LayoutOf(p);
    var d := Dropped(l, slot);
    DroppedIsSound(l, slot);
    assert !Live(d, slot);
    NeededMeans(d, n);
    Compaction.TiledExactly(d);
    Compaction.CompactLayoutSound(d);
    Compaction.SameEmpty(d, Compaction.CompactLayout(d));
    NeededMeans(Compaction.CompactLayout(d), n);
    DroppedBytes(l, slot, |l.slots|);
    Compaction.LiveBytesOfTuples(l, p, |l.slots|);
    hide Compaction.Tiled;
    hide Compaction.Seamless;
    hide Takes;
  }

  lemma {:induction false} DroppedBytes(l: Layout, slot: nat, n: nat)
    requires Live(l, slot) && n <= |l.slots|
    ensures Compaction.LiveBytes(Dropped(l, slot), n) ==
            Compaction.LiveBytes(l, n) - if slot < n then l.slots[slot].length else 0
  {
    if n > 0 {
      DroppedBytes(l, slot, n - 1);
    }
  }

  /** The slot an insertion uses: the first empty one, or the next new one. */
  function FirstHole(p: Page, i: nat): nat
    decreases if i < p.slots then p.slots - i else 0
  {
    if i < p.slots && i in p.rows then FirstHole(p, i + 1) else i
  }

  lemma {:induction false} HoleIsEmpty(p: Page, l: Layout, i: nat)
    requires p.slots == |l.slots| && i <= p.slots && forall k: nat :: k in p.rows <==> Live(l, k)
    ensures FirstHole(p, i) == EmptyFrom(l, i)
    decreases p.slots - i
  {
    if Live(l, i) {
      HoleIsEmpty(p, l, i + 1);
    }
  }

  lemma EmptyIsHole(p: Image)
    requires Valid(p)
    ensures FirstHole(Read(p), 0) == FirstEmpty(LayoutOf(p))
  {
    hide FirstHole;
    hide EmptyFrom;
    assert forall k: nat :: k in Contents(p) <==> Live(LayoutOf(p), k);
    HoleIsEmpty(Read(p), LayoutOf(p), 0);
  }

  /** The first page of the chain from position `i` on, `skip` left out, that takes `n` bytes. */
  ghost function Landing(v: View, chain: seq<nat>, skip: nat, i: nat, n: nat): (k: nat)
    requires i <= |chain|
    ensures i <= k <= |chain|
    decreases |chain| - i
  {
    if i == |chain| || (chain[i] != skip && chain[i] in v && PageTakes(v[chain[i]], n)) then i
    else Landing(v, chain, skip, i + 1, n)
  }

  /** It is the first such page, or there is none. */
  lemma {:induction false} LandsFirst(v: View, chain: seq<nat>, skip: nat, i: nat, n: nat)
    requires i <= |chain|
    ensures var k := Landing(v, chain, skip, i, n);
            && (forall j :: i <= j < k ==> chain[j] == skip || chain[j] !in v || !PageTakes(v[chain[j]], n))
            && (k < |chain| ==> chain[k] != skip && chain[k] in v && PageTakes(v[chain[k]], n))
    decreases |chain| - i
  {
    hide PageTakes;
    if i < |chain| {
      LandsFirst(v, chain, skip, i + 1, n);
    }
  }

  /** The slot is the first one that is not live. */
  lemma {:induction false} FirstHoleExactly(p: Page, i: nat)
    requires i <= p.slots && forall s :: s in p.rows ==> s < p.slots
    ensures var s := FirstHole(p, i);
            i <= s <= p.slots && s !in p.rows && forall k :: i <= k < s ==> k in p.rows
    decreases p.slots - i
  {
    if i < p.slots {
      FirstHoleExactly(p, i + 1);
    }
  }

  /** The record id an insertion gives on the page at position `k`, or on the new page. */
  ghost function TargetIn(h: Pages, chain: seq<nat>, newId: nat, k: nat): RID {
    if k < |chain| && chain[k] in h then RID(chain[k], FirstHole(h[chain[k]], 0)) else RID(newId, 0)
  }

  /** The calls of an insertion: a page each up to the landing page; at the end one more page is created and fetched. */
  function CallsTo(k: nat, length: nat): nat {
    if k < length then k + 1 else length + 2
  }

  /** The views agree on what the pages of the chain take; the page `skip` takes no `n` bytes in the second. */
  ghost predicate TakeAlike(v: View, w: View, chain: seq<nat>, skip: nat, n: nat) {
    forall id :: id in chain ==>
                   id in v && id in w && (PageTakes(w[id], n) <==> id != skip && PageTakes(v[id], n))
  }

  lemma {:induction false} SameLanding(v: View, w: View, chain: seq<nat>, skip: nat, i: nat, n: nat)
    requires i <= |chain| && TakeAlike(v, w, chain, skip, n) && INVALID_PAGE_ID !in chain
    ensures Landing(w, chain, INVALID_PAGE_ID, i, n) == Landing(v, chain, skip, i, n)
    decreases |chain| - i
  {
    hide PageTakes;
    if i < |chain| {
      assert chain[i] in chain;
      SameLanding(v, w, chain, skip, i + 1, n);
    }
  }

  /** The views agree on what the pages of the chain take. */
  ghost predicate AkinAlong(v: View, w: View, chain: seq<nat>) {
    forall id :: id in chain ==> id in v && id in w && Akin(v[id], w[id])
  }

  lemma {:induction false} AkinLanding(v: View, w: View, chain: seq<nat>, skip: nat, i: nat, n: nat)
    requires i <= |chain| && AkinAlong(v, w, chain)
    ensures Landing(v, chain, skip, i, n) == Landing(w, chain, skip, i, n)
    decreases |chain| - i
  {
    hide PageTakes;
    if i < |chain| {
      assert chain[i] in chain;
      AkinLanding(v, w, chain, skip, i + 1, n);
    }
  }

  lemma {:induction false} LandsHere(v: View, chain: seq<nat>, from: nat, i: nat, n: nat)
    requires INVALID_PAGE_ID !in chain && from <= i < |chain| && chain[i] in v
    requires i <= Landing(v, chain, INVALID_PAGE_ID, from, n)
    ensures PageTakes(v[chain[i]], n) <==> i == Landing(v, chain, INVALID_PAGE_ID, from, n)
    decreases i - from
  {
    hide PageTakes;
    assert chain[from] in chain;
    if from < i {
      LandsHere(v, chain, from + 1, i, n);
    }
  }

  // ----- How operations change the heap -----

  /** What pages show and keep, and what that means for the pages of one heap. */
  datatype State = State(views: Views, pages: Pages, backed: Pages)

  /** Where a search for a place started, and where it is going to end if everything is saved. */
  datatype Search = Search(start: State, chain: seq<nat>, calls: nat, newId: nat, k: nat, settled: bool)

  ghost predicate SameShape(h: Pages, b: Pages) {
    h.Keys == b.Keys && forall id :: id in h ==> h[id].slots == b[id].slots && h[id].next == b[id].next
  }

  /** What page `id` keeps stays, and it shows what it did or what it keeps. */
  ghost predicate Stays(v: Views, w: Views, id: nat) {
    && id in v.shown && id in v.kept && id in w.shown && id in w.kept && w.kept[id] == v.kept[id]
    && (w.shown[id] == v.shown[id] || w.shown[id] == v.kept[id])
  }

  /** No page joins or leaves, and every one stays. */
  ghost predicate AllStay(v: Views, w: Views) {
    w.shown.Keys == v.shown.Keys && forall id :: id in v.shown ==> Stays(v, w, id)
  }

  lemma FadedStays(v: View, k: View, gone: set<nat>)
    requires k.Keys == v.Keys
    ensures AllStay(Views(v, k), Views(Faded<Image>(v, k, gone), k))
  {
  }

  lemma AllStayTrans(u: Views, v: Views, w: Views)
    requires AllStay(u, v) && AllStay(v, w)
    ensures AllStay(u, w)
  {
  }

  /** The heap's pages only gain slots; other pages stay and do not join the heap. */
  ghost predicate Grown(a: State, b: State) {
    && OnlyGrows(a.pages, b.pages)
    && (forall id :: id in a.views.shown && id !in a.pages ==> id !in b.pages && Stays(a.views, b.views, id))
  }

  /** Every page of `a` has the records it showed or those it kept; further pages have none. */
  ghost predicate Drawn(a: State, h: Pages) {
    && a.pages.Keys <= h.Keys && a.backed.Keys == a.pages.Keys
    && (forall id :: id in h ==>
          if id in a.pages then h[id].rows == a.pages[id].rows || h[id].rows == a.backed[id].rows else h[id].rows == map[])
  }

  /** Nothing happened but that pages left their frames and empty pages were appended. */
  ghost predicate Moved(a: State, b: State) {
    Grown(a, b) && Drawn(a, b.pages) && Drawn(a, b.backed)
  }

  lemma MovedRefl(a: State)
    requires a.views.kept.Keys == a.views.shown.Keys && a.backed.Keys == a.pages.Keys
    ensures Moved(a, a)
  {
  }

  lemma MovedGrows(a: State, b: State)
    requires Moved(a, b)
    ensures Grown(a, b)
  {
  }

  lemma GrownTrans(a: State, b: State, c: State)
    requires Grown(a, b) && Grown(b, c)
    ensures Grown(a, c)
  {
  }

  lemma DrawnTrans(a: State, b: State, h: Pages)
    requires Drawn(a, b.pages) && Drawn(a, b.backed) && Drawn(b, h)
    ensures Drawn(a, h)
  {
  }

  lemma MovedTrans(a: State, b: State, c: State)
    requires Moved(a, b) && Moved(b, c)
    ensures Moved(a, c)
  {
    GrownTrans(a, b, c);
    DrawnTrans(a, b, c.pages);
    DrawnTrans(a, b, c.backed);
  }

  /** What an insertion found after record `rid` was removed, with the record still there. */
  function Returned(f: Pages, h: Pages, id: nat): Pages
    requires id in f && id in h
  {
    f[id := f[id].(rows := h[id].rows)]
  }

  ghost predicate Emptied(b: Pages, c: Pages, h: Pages, rid: RID) {
    rid.page in b && rid.page in h && c == b[rid.page := h[rid.page].(rows := h[rid.page].rows - {rid.slot})]
  }

  lemma ReturnedDrawn(a: State, b: State, c: State, f: Pages, rid: RID)
    requires Moved(a, b) && rid.page in b.pages && rid.page in a.pages
    requires Emptied(b.pages, c.pages, b.pages, rid) && Emptied(b.backed, c.backed, b.pages, rid) && Drawn(c, f)
    ensures rid.page in f && Drawn(a, Returned(f, a.pages, rid.page))
    ensures f[rid.page].rows == b.pages[rid.page].rows - {rid.slot}
  {
  }

  lemma ReturnedRows(f: Pages, h: Pages, rid: RID)
    requires rid.page in f && rid.page in h && rid.slot in h[rid.page].rows
    requires f[rid.page].rows == h[rid.page].rows - {rid.slot}
    ensures var g := Returned(f, h, rid.page);
            Rows(f) == Rows(g) - {rid} && rid in Rows(g) && rid in Rows(h) && Rows(g)[rid] == Rows(h)[rid]
  {
    var g := Returned(f, h, rid.page);
    assert forall r: RID :: r in Rows(f) <==> r in Rows(g) && r != rid;
  }

  lemma PutAlike(v: View, w: View, chain: seq<nat>, id: nat, q: Image, n: nat)
    requires forall x :: x in chain ==> x in v && x in w && Akin(v[x], w[x])
    requires !PageTakes(q, n)
    ensures TakeAlike(v, w[id := q], chain, id, n)
  {
    hide PageTakes;
    hide SlottedLayout.Valid;
  }

  lemma {:induction false} SameTarget(h: Pages, c: Pages, chain: seq<nat>, id: nat, newId: nat, v: View, n: nat)
    requires forall x :: x in h && x != id ==> x in c && c[x] == h[x]
    requires h.Keys == c.Keys
    ensures var k := Landing(v, chain, id, 0, n);
            TargetIn(c, chain, newId, k) == TargetIn(h, chain, newId, k)
  {
    LandsElsewhere(v, chain, id, 0, n);
    hide FirstHole;
  }

  lemma {:induction false} LandsElsewhere(v: View, chain: seq<nat>, skip: nat, i: nat, n: nat)
    requires i <= |chain|
    ensures var k := Landing(v, chain, skip, i, n); k < |chain| ==> chain[k] != skip
    decreases |chain| - i
  {
    hide PageTakes;
    if i < |chain| {
      LandsElsewhere(v, chain, skip, i + 1, n);
    }
  }

  /** A page released with other bytes but the same meaning. */
  lemma SamePagesMoved(a: State, b: State)
    requires Grown(a, b) && b.pages == a.pages && b.backed == a.backed && a.pages.Keys == a.backed.Keys
    ensures Moved(a, b)
  {
  }

  /** Where every page keeps what it shows, moving changes no record. */
  lemma DrawnSettled(a: State, h: Pages)
    requires Drawn(a, h) && a.backed == a.pages
    ensures Rows(h) == Rows(a.pages)
  {
    assert forall r: RID :: r in Rows(h) <==> r in Rows(a.pages);
  }

  lemma Backed(v: View, h: Pages)
    requires Represents(v, h)
    ensures h.Keys <= v.Keys
  {
  }

  lemma FadedRepresents(v: View, k: View, h: Pages, b: Pages, gone: set<nat>)
    requires Represents(v, h) && Represents(k, b) && SameShape(h, b) && k.Keys == v.Keys
    ensures Represents(Faded<Image>(v, k, gone), Faded(h, b, gone))
  {
    hide SlottedLayout.Valid;
    hide Read;
  }

  lemma FadedShape(h: Pages, b: Pages, chain: seq<nat>, gone: set<nat>)
    requires SameShape(h, b) && IsChain(h, chain)
    ensures SameShape(Faded(h, b, gone), b) && IsChain(Faded(h, b, gone), chain)
    ensures h == b ==> Faded(h, b, gone) == h
  {
  }

  lemma FadedMoves(v: View, k: View, h: Pages, b: Pages, gone: set<nat>)
    requires Represents(v, h) && SameShape(h, b) && k.Keys == v.Keys
    ensures Moved(State(Views(v, k), h, b), State(Views(Faded<Image>(v, k, gone), k), Faded(h, b, gone), b))
  {
    hide SlottedLayout.Valid;
    hide Read;
  }

  lemma PutPage(v: View, h: Pages, id: nat, q: Image)
    requires Represents(v, h) && id in h && Valid(q)
    ensures Represents(v[id := q], h[id := Read(q)])
  {
    hide SlottedLayout.Valid;
    hide Read;
  }

  lemma PutShape(h: Pages, b: Pages, id: nat, p: Page, keep: bool)
    requires SameShape(h, b) && id in h && p.next == h[id].next && (keep || p.slots == h[id].slots)
    ensures SameShape(h[id := p], if keep then b[id := p] else b)
  {
  }

  ghost predicate AllAkin(v: View, k: View, h: Pages) {
    forall id :: id in h ==> id in v && id in k && Akin(v[id], k[id])
  }

  lemma PutAkin(v: View, k: View, h: Pages, id: nat, p: Page, q: Image, keep: bool)
    requires AllAkin(v, k, h) && id in h && Valid(q) && (keep || Akin(v[id], q))
    ensures AllAkin(v[id := q], if keep then k[id := q] else k, h[id := p])
  {
    hide PageTakes;
    hide SlottedLayout.Valid;
    assert Akin(q, q);
    assert !keep ==> Akin(q, k[id]);
  }

  lemma PutGrows(a: State, b: State, id: nat, p: Page)
    requires id in a.pages && b.pages == a.pages[id := p] && a.pages[id].slots <= p.slots
    requires a.pages.Keys <= a.views.shown.Keys == a.views.kept.Keys
    requires b.views.shown.Keys == a.views.shown.Keys && b.views.kept.Keys == a.views.kept.Keys
    requires forall x :: x in a.views.shown && x != id ==>
                           b.views.shown[x] == a.views.shown[x] && b.views.kept[x] == a.views.kept[x]
    ensures Grown(a, b)
  {
  }

  /** One page more in the store, not yet part of the heap. */
  lemma MoreViews(a: State, v: View, k: View, h: Pages, b: Pages, id: nat, x: Image, y: Image)
    requires Represents(v, h) && Represents(k, b) && Moved(a, State(Views(v, k), h, b))
    requires id !in v && id !in k && id !in a.views.shown && id !in h
    ensures Represents(v[id := x], h) && Represents(k[id := y], b)
    ensures Moved(a, State(Views(v[id := x], k[id := y]), h, b))
    ensures AllAkin(v, k, h) ==> AllAkin(v[id := x], k[id := y], h)
  {
    hide SlottedLayout.Valid;
    hide Read;
    hide Akin;
  }

  /** A heap made of one page that was just created and saved. */
  lemma CreatedReady(v: Views, w: Views, gone: set<nat>, id: nat, p: Image)
    requires v.kept.Keys == v.shown.Keys && id !in v.shown && id < INVALID_PAGE_ID
    requires w.shown == Faded<Image>(v.shown, v.kept, gone)[id := p] && w.kept == v.kept[id := p]
    requires Valid(p) && Read(p) == Page(map[], 0, INVALID_PAGE_ID)
    ensures var h := map[id := Read(p)];
            && Represents(w.shown, h) && Represents(w.kept, h) && SameShape(h, h) && AllAkin(w.shown, w.kept, h)
            && IsChain(h, [id]) && Rows(h) == imap[] && Grown(State(v, map[], map[]), State(w, h, h))
  {
    OnePage(w.shown, id, p);
    OnePage(w.kept, id, p);
    OneAkin(w.shown, w.kept, id, p);
    hide SlottedLayout.Valid;
    hide Read;
    hide Represents;
    hide AllAkin;
    hide IsChain;
    hide HeapModel.Rows;
  }

  lemma OneAkin(v: View, k: View, id: nat, p: Image)
    requires id in v && v[id] == p && id in k && k[id] == p && Valid(p)
    ensures SameShape(map[id := Read(p)], map[id := Read(p)]) && AllAkin(v, k, map[id := Read(p)])
  {
    hide PageTakes;
  }

  /** As `Grown`, page `id` being the one that joins. */
  ghost predicate Joined(a: State, b: State, id: nat) {
    && OnlyGrows(a.pages, b.pages)
    && (forall x :: x in a.views.shown && x !in a.pages && x != id ==> x !in b.pages && Stays(a.views, b.views, x))
  }

  lemma JoinedGrows(a: State, b: State, c: State, id: nat)
    requires Grown(a, b) && Joined(b, c, id) && id !in a.views.shown
    ensures Grown(a, c)
  {
  }

  /** The state with `q` on page `last` and the new page `e` behind it. */
  ghost function Linked(a: State, last: nat, q: Image, id: nat, e: Image): State
    requires Valid(q) && Valid(e)
  {
    State(Views(a.views.shown[id := e][last := q], a.views.kept[id := e][last := q]),
          a.pages[last := Read(q)][id := Read(e)], a.backed[last := Read(q)][id := Read(e)])
  }

  lemma PutLinked(v: View, h: Pages, last: nat, q: Image, id: nat, e: Image)
    requires Represents(v, h) && last in h && id !in h && Valid(q) && Valid(e)
    ensures Represents(v[id := e][last := q], h[last := Read(q)][id := Read(e)])
  {
    hide SlottedLayout.Valid;
    hide Read;
  }

  lemma LinkedShape(h: Pages, b: Pages, last: nat, p: Page, id: nat, e: Page)
    requires SameShape(h, b) && last in h && id !in h && p.slots == h[last].slots
    ensures SameShape(h[last := p][id := e], b[last := p][id := e]) && OnlyGrows(h, h[last := p][id := e])
  {
  }

  lemma LinkedDrawn(a: State, h: Pages, last: nat, p: Page, id: nat, e: Page)
    requires a.pages.Keys == a.backed.Keys == h.Keys && last in h && id !in h
    requires h == a.pages || h == a.backed
    requires p.rows == a.pages[last].rows && e.rows == map[]
    ensures Drawn(a, h[last := p][id := e])
  {
  }

  lemma LinkedMoves(a: State, last: nat, q: Image, id: nat, e: Image)
    requires SameShape(a.pages, a.backed) && last in a.pages && id !in a.pages && Valid(q) && Valid(e)
    requires a.pages.Keys <= a.views.shown.Keys == a.views.kept.Keys
    requires Read(q) == a.pages[last].(next := id) && Read(e).rows == map[]
    ensures var b := Linked(a, last, q, id, e);
            SameShape(b.pages, b.backed) && Joined(a, b, id) && Drawn(a, b.pages) && Drawn(a, b.backed)
  {
    LinkedShape(a.pages, a.backed, last, Read(q), id, Read(e));
    LinkedDrawn(a, a.pages, last, Read(q), id, Read(e));
    LinkedDrawn(a, a.backed, last, Read(q), id, Read(e));
    hide SlottedLayout.Valid;
    hide Read;
    hide Drawn;
    hide SameShape;
    hide HeapModel.OnlyGrows;
  }

  lemma LinkedAkin(a: State, last: nat, q: Image, id: nat, e: Image)
    requires AllAkin(a.views.shown, a.views.kept, a.pages) && Valid(q) && Valid(e)
    ensures var b := Linked(a, last, q, id, e); AllAkin(b.views.shown, b.views.kept, b.pages)
  {
    hide SlottedLayout.Valid;
    hide Read;
    hide PageTakes;
    assert Valid(q) && Valid(e) ==> Akin(q, q) && Akin(e, e);
  }

  /** One empty page is a heap without rows. */
  lemma OnePage(v: View, id: nat, p: Image)
    requires id in v && v[id] == p && Valid(p) && id < INVALID_PAGE_ID
    requires Read(p) == Page(map[], 0, INVALID_PAGE_ID)
    ensures var h := map[id := Read(p)]; Represents(v, h) && IsChain(h, [id]) && Rows(h) == imap[]
  {
    hide SlottedLayout.Valid;
    hide Read;
    var h := map[id := Read(p)];
    assert forall r: RID :: r !in Rows(h);
  }

  // ----- A heap apart from its store -----

  datatype Home = Home(first: nat, chain: seq<nat>, pages: Pages, backed: Pages)

  ghost predicate HomeIn(h: Home, v: Views) {
    && Represents(v.shown, h.pages) && Represents(v.kept, h.backed) && SameShape(h.pages, h.backed)
    && IsChain(h.pages, h.chain) && h.chain[0] == h.first
  }

  /** Nothing was changed that a page would lose by leaving its frame. */
  ghost predicate HomeSettled(h: Home, v: Views) {
    h.pages == h.backed && AllAkin(v.shown, v.kept, h.pages)
  }

  /** The same heap, some of whose pages may have fallen back to what they kept. */
  ghost predicate SameHome(g: Home, h: Home) {
    && h.first == g.first && h.chain == g.chain && h.backed == g.backed && h.pages.Keys == g.pages.Keys
    && (forall id :: id in g.pages ==> h.pages[id] == g.pages[id] || (id in g.backed && h.pages[id] == g.backed[id]))
  }

  lemma SameHomeTrans(f: Home, g: Home, h: Home)
    requires SameHome(f, g) && SameHome(g, h)
    ensures SameHome(f, h)
  {
  }

  /** The heap after others worked on the store: pages that left their frames fell back. */
  ghost function Refreshed(h: Home, v: Views, w: Views): (r: Home)
    ensures SameHome(h, r)
  {
    h.(pages := map id | id in h.pages ::
      if id in h.backed && id in v.shown && id in w.shown && w.shown[id] != v.shown[id] then h.backed[id] else h.pages[id])
  }

  lemma RefreshedHome(h: Home, v: Views, w: Views)
    requires HomeIn(h, v) && forall id :: id in h.pages ==> Stays(v, w, id)
    ensures HomeIn(Refreshed(h, v, w), w)
    ensures HomeSettled(h, v) ==> Refreshed(h, v, w) == h && HomeSettled(h, w)
  {
    hide SlottedLayout.Valid;
    hide Read;
    hide PageTakes;
    RefreshedChain(h, v, w);
    hide IsChain;
  }

  lemma RefreshedChain(h: Home, v: Views, w: Views)
    requires SameShape(h.pages, h.backed) && IsChain(h.pages, h.chain)
    ensures SameShape(Refreshed(h, v, w).pages, h.backed) && IsChain(Refreshed(h, v, w).pages, h.chain)
  {
  }

  lemma HomeKeys(h: Home, v: Views)
    requires HomeIn(h, v)
    ensures h.pages.Keys <= v.shown.Keys
  {
  }
}
