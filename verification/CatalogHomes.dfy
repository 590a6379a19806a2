/** Several heaps in one store: what work on some leaves of the others. */
module CatalogHomes {
  import opened Bytes
  import opened PageStores
  import opened HeapModel
  import opened HeapStates
  import opened TableHeaps
  import opened CatalogRows

  /** The heaps share a store and no page. */
  ghost predicate Apart(a: TableHeap, b: TableHeap)
    reads a, b
  {
    a != b && a.store == b.store && a.pages.Keys !! b.pages.Keys
  }

  /** The pages outside `own` keep what they kept, and show what they showed or what they keep. */
  ghost predicate OthersStay(v: Views, w: Views, own: set<nat>) {
    forall p :: p in v.shown && p !in own ==> Stays(v, w, p)
  }

  /** Of all pages, only those of `ids` may be gone; none has joined, and the others stay. */
  ghost predicate OnlyDropped(v: Views, w: Views, ids: seq<nat>) {
    && w.shown.Keys <= v.shown.Keys
    && (forall p :: p in v.shown && p !in ids ==> p in w.shown)
    && (forall p :: p in w.shown ==> Stays(v, w, p))
  }

  lemma GrownOthers(a: State, b: State)
    requires Grown(a, b)
    ensures OthersStay(a.views, b.views, a.pages.Keys)
  {
  }

  /** No page the heap did not have joins it. */
  lemma GrownJoins(a: State, b: State)
    requires Grown(a, b)
    ensures forall p :: p in a.views.shown && p !in a.pages ==> p !in b.pages
  {
  }

  /** The heap was `home` in the views `v`, and pages may have fallen back since; what was saved stays. */
  ghost predicate Usable(t: TableHeap, home: Home, v: Views)
    reads t, t.store
  {
    StillHome(home, v, t.AsHome(), t.store.Both())
  }

  /** The heap was `home` in the views `v` and is `now` in the views `w`. */
  ghost predicate StillHome(home: Home, v: Views, now: Home, w: Views) {
    SameHome(home, now) && HomeIn(now, w) && (HomeSettled(home, v) ==> HomeSettled(now, w))
  }

  ghost predicate AllIn(homes: map<Name, Home>, v: Views) {
    forall n :: n in homes ==> HomeIn(homes[n], v)
  }

  /** The heaps have no page among `own` and none in common. */
  ghost predicate Disjoint(homes: map<Name, Home>, own: set<nat>) {
    && (forall n :: n in homes ==> homes[n].pages.Keys !! own)
    && (forall n, m :: n in homes && m in homes && n != m ==> homes[n].pages.Keys !! homes[m].pages.Keys)
  }

  lemma OthersSame(tables: Entries, name: Name, homes: map<Name, Home>, now: map<Name, Home>, mine: set<nat>, w: Views)
    requires now.Keys == homes.Keys && Fit(tables, homes) && Disjoint(homes, mine)
    requires forall n :: n in homes && n != name ==>
               HomeIn(now[n], w) && now[n].pages.Keys == homes[n].pages.Keys && now[n].first == homes[n].first
    ensures Fit(tables - {name}, now - {name}) && Disjoint(now - {name}, mine) && AllIn(now - {name}, w)
  {
    hide HomeIn;
  }

  /** Every table has a heap that starts at the page in its row. */
  ghost predicate Fit(tables: Entries, homes: map<Name, Home>) {
    homes.Keys == tables.Keys && forall n :: n in homes ==> homes[n].first == tables[n].first
  }

  lemma HomeStays(h: Home, v: Views, w: Views, own: set<nat>)
    requires HomeIn(h, v) && h.pages.Keys !! own && OthersStay(v, w, own)
    ensures forall id :: id in h.pages ==> Stays(v, w, id)
  {
    HomeKeys(h, v);
  }

  lemma OthersTwice(u: Views, v: Views, w: Views, own: set<nat>, own': set<nat>)
    requires OthersStay(u, v, own) && OthersStay(v, w, own') && own' !! u.shown.Keys - own
    ensures OthersStay(u, w, own)
  {
  }

  lemma StillThere(v: Views, w: Views, own: set<nat>, p: nat)
    requires OthersStay(v, w, own) && p in v.shown && p !in own
    ensures p in w.shown
  {
  }

  lemma DroppedOthers(v: Views, w: Views, ids: seq<nat>, own: set<nat>)
    requires OnlyDropped(v, w, ids) && forall p :: p in ids ==> p in own
    ensures OthersStay(v, w, own)
  {
  }

  lemma DroppedTwice(u: Views, v: Views, w: Views, ids: seq<nat>)
    requires OnlyDropped(u, v, ids) && OnlyDropped(v, w, ids)
    ensures OnlyDropped(u, w, ids)
  {
  }

  /** A heap that has everything saved is not affected by what others do to their pages. */
  lemma SettledKept(heap: TableHeap, v: Views)
    requires heap.store.Valid() && Represents(v.shown, heap.pages) && Represents(v.kept, heap.backed)
    requires AllAkin(v.shown, v.kept, heap.pages) && heap.pages == heap.backed
    requires IsChain(heap.pages, heap.chain) && heap.chain[0] == heap.first
    requires forall p :: p in heap.pages ==> Stays(v, heap.store.Both(), p)
    ensures heap.Ready() && heap.Settled()
  {
    hide SlottedLayout.Valid;
    hide Read;
    hide PageTakes;
    hide IsChain;
  }

  /** Nor is where its next record lands. */
  lemma LandsStill(heap: TableHeap, v: Views, n: nat)
    requires heap.Ready() && AllAkin(v.shown, v.kept, heap.pages)
    requires forall p :: p in heap.pages ==> Stays(v, heap.store.Both(), p)
    ensures Landing(v.shown, heap.chain, INVALID_PAGE_ID, 0, n) == heap.Lands(INVALID_PAGE_ID, n)
  {
    hide PageTakes;
    hide SlottedLayout.Valid;
    hide Represents;
    forall p | p in heap.chain
      ensures p in v.shown && p in heap.store.pages && Akin(v.shown[p], heap.store.pages[p])
    {
      heap.ChainInPages();
      assert p in heap.pages && Stays(v, heap.store.Both(), p);
      assert Akin(v.shown[p], v.kept[p]);
    }
    AkinLanding(v.shown, heap.store.pages, heap.chain, INVALID_PAGE_ID, 0, n);
  }

  lemma HeapOpened(heap: TableHeap)
    requires heap.Ready()
    ensures var v := heap.store.Both();
            && heap.store.Valid() && Represents(v.shown, heap.pages) && Represents(v.kept, heap.backed)
            && SameShape(heap.pages, heap.backed) && IsChain(heap.pages, heap.chain) && heap.chain[0] == heap.first
            && heap.pages.Keys <= v.shown.Keys == v.kept.Keys && v == Views(heap.store.pages, heap.store.kept)
            && heap.Now() == State(v, heap.pages, heap.backed)
            && (heap.Settled() ==> heap.pages == heap.backed && AllAkin(v.shown, v.kept, heap.pages))
  {
    Backed(heap.store.pages, heap.pages);
  }

  lemma FirstFits(heap: TableHeap)
    requires heap.Ready()
    ensures heap.first < INVALID_PAGE_ID && heap.first in heap.pages && heap.first in heap.store.pages
  {
    assert heap.first in heap.chain;
  }

  lemma ChainPages(heap: TableHeap, table: TableHeap)
    requires table.Ready() && Apart(heap, table)
    ensures Distinct(table.chain)
    ensures forall i :: 0 <= i < |table.chain| ==> table.chain[i] in heap.store.pages && table.chain[i] !in heap.pages
  {
  }

  lemma RowHome(heap: TableHeap, rid: RID)
    requires heap.Ready() && rid in Rows(heap.pages)
    ensures heap.Own(rid)
  {
  }

  lemma OneApart(homes: map<Name, Home>, v: Views, own: set<nat>)
    requires AllIn(homes, v) && Disjoint(homes, own)
    ensures forall n :: n in homes ==> HomeIn(homes[n], v) && homes[n].pages.Keys !! own
  {
    hide HomeIn;
  }

  lemma StillShown(v: Views, w: Views, own: set<nat>)
    requires OthersStay(v, w, own)
    ensures forall p :: p in v.shown && p !in own ==> p in w.shown
  {
  }

  lemma FitMeans(tables: Entries, homes: map<Name, Home>)
    requires Fit(tables, homes)
    ensures tables.Keys == homes.Keys && forall n :: n in homes ==> homes[n].first == tables[n].first
  {
  }

  lemma HomeOf(table: TableHeap)
    ensures table.AsHome() == Home(table.first, table.chain, table.pages, table.backed)
  {
  }

  lemma Unjoined(homes: map<Name, Home>, v: Views, own: set<nat>, own': set<nat>)
    requires AllIn(homes, v) && Disjoint(homes, own)
    requires forall p :: p in v.shown && p !in own ==> p !in own'
    ensures Disjoint(homes, own')
  {
    hide HomeIn;
    forall n | n in homes
      ensures homes[n].pages.Keys !! own'
    {
      HomeKeys(homes[n], v);
    }
  }

  lemma Enrolled(tables: Entries, homes: map<Name, Home>, own: set<nat>, v: Views, name: Name, e: Entry, home: Home)
    requires Fit(tables, homes) && Disjoint(homes, own) && AllIn(homes, v) && name !in tables
    requires HomeIn(home, v) && home.first == e.first && home.pages.Keys !! own
    requires forall n :: n in homes ==> homes[n].pages.Keys !! home.pages.Keys
    ensures Fit(tables[name := e], homes[name := home]) && Disjoint(homes[name := home], own) && AllIn(homes[name := home], v)
  {
    hide HomeIn;
  }

  lemma OnlyPage(table: TableHeap)
    requires table.Ready() && table.chain == [table.first]
    ensures table.pages.Keys == {table.first}
  {
  }

  lemma UsableNow(table: TableHeap, home: Home, v: Views)
    requires table.Ready() && SameHome(home, table.AsHome()) && (HomeSettled(home, v) ==> table.Settled())
    ensures Usable(table, home, v)
  {
    table.AtHome();
  }

  lemma OthersApart(homes: map<Name, Home>, name: Name, own: set<nat>, both: set<nat>, v: Views)
    requires AllIn(homes, v) && Disjoint(homes, own) && name in homes && both == own + homes[name].pages.Keys
    ensures forall n :: n in homes && n != name ==> HomeIn(homes[n], v) && homes[n].pages.Keys !! both
  {
    hide HomeIn;
  }

  lemma SameKeysThen(h: Pages, h': Pages)
    requires SameSlots(h, h')
    ensures h.Keys == h'.Keys
  {
  }

  lemma Others(ids: seq<nat>, i: nat)
    requires Distinct(ids) && i < |ids|
    ensures forall k :: 0 <= k < |ids| && k != i ==> ids[k] != ids[i]
  {
  }

  lemma NoneDropped(v: Views, ids: seq<nat>)
    requires v.kept.Keys == v.shown.Keys
    ensures OnlyDropped(v, v, ids)
  {
  }

  lemma OneDropped(v: Views, w: Views, w': Views, ids: seq<nat>, id: nat)
    requires id in ids && OnlyDropped(v, w, ids)
    requires w' == w || w' == Views(w.shown - {id}, w.kept - {id})
    ensures OnlyDropped(v, w', ids)
  {
  }

  lemma OthersMore(v: Views, w: Views, own: set<nat>, own': set<nat>)
    requires OthersStay(v, w, own) && own <= own'
    ensures OthersStay(v, w, own')
  {
  }

  lemma StayDropsNone(v: Views, w: Views, ids: seq<nat>)
    requires AllStay(v, w)
    ensures OnlyDropped(v, w, ids)
  {
  }

  lemma ChainStays(v: Views, w: Views, ids: seq<nat>)
    requires AllStay(v, w)
    ensures forall i :: 0 <= i < |ids| && ids[i] in v.shown ==> ids[i] in w.shown
  {
  }

  lemma ChainInOwn(table: TableHeap, own: set<nat>)
    requires table.Ready() && table.pages.Keys <= own
    ensures forall p :: p in table.chain ==> p in own
  {
  }

  lemma InMeans(homes: map<Name, Home>, v: Views)
    requires AllIn(homes, v)
    ensures forall n :: n in homes ==> HomeIn(homes[n], v)
  {
    hide HomeIn;
  }

  lemma NothingOwn(v: Views, w: Views)
    requires AllStay(v, w)
    ensures OthersStay(v, w, {})
  {
  }

  /** The pages a heap gained are new to the store. */
  lemma NewKeysApart(name: Name, homes: map<Name, Home>, mine: set<nat>, v: Views, own: set<nat>)
    requires AllIn(homes, v) && Disjoint(homes, mine) && name in homes && mine <= v.shown.Keys
    requires forall p :: p in v.shown && p !in homes[name].pages ==> p !in own
    ensures own !! mine && forall n :: n in homes && n != name ==> own !! homes[n].pages.Keys
  {
    hide HomeIn;
    forall n | n in homes && n != name
      ensures own !! homes[n].pages.Keys
    {
      HomeKeys(homes[n], v);
    }
  }

  lemma OneMoved(name: Name, homes: map<Name, Home>, now: map<Name, Home>, mine: set<nat>)
    requires now.Keys == homes.Keys && name in homes && Disjoint(homes, mine)
    requires forall n :: n in homes && n != name ==> now[n].pages.Keys == homes[n].pages.Keys
    requires now[name].pages.Keys !! mine
    requires forall n :: n in homes && n != name ==> now[name].pages.Keys !! homes[n].pages.Keys
    ensures Disjoint(now, mine)
  {
    forall n, m | n in now && m in now && n != m
      ensures now[n].pages.Keys !! now[m].pages.Keys
    {
      if n == name {
        assert now[n].pages.Keys !! homes[m].pages.Keys;
      } else if m == name {
        assert now[m].pages.Keys !! homes[n].pages.Keys;
      }
    }
  }
}
