/** The table of tables: kept in memory by name, and as rows of a heap from which it can be rebuilt. */
module Catalogs {
  import opened Bytes
  import opened PageStores
  import opened HeapModel
  import opened HeapStates
  import opened TableHeaps
  import opened HeapScan
  import opened Schemas
  import opened Tuples
  import opened CatalogRows
  import opened CatalogHomes
  import opened Databases

  // ----- The catalog -----

  /** How creating a table ends; all but `Created` are exceptions. */
  datatype CreateResult = Created | Exists | NoFirstPage | NotEncodable | RowNotWritten

  /** How dropping a table ends; `PagesUnread` is the exception raised after the row is already deleted. */
  datatype DropResult = Dropped | NotDropped | PagesUnread

  datatype AddResult = Added(rid: RID) | Refused(r: CreateResult)

  class Catalog {
    const heap: TableHeap
    var tables: Entries
    /** The heap of every table. */
    var heaps: map<Name, TableHeap>

    ghost function Heaps(): set<TableHeap>
      reads this`heaps
    {
      set n | n in heaps :: heaps[n]
    }

    /** The catalog's own heap is only changed by insertions and deletions, which mark their pages. */
    ghost predicate Sound()
      reads this`tables, heap, heap.store
    {
      heap.Ready() && heap.Settled() && Corresponds(tables, Rows(heap.pages))
    }

    ghost function Homes(): (homes: map<Name, Home>)
      reads this`heaps, Heaps()
      ensures homes.Keys == heaps.Keys && forall n :: n in heaps ==> homes[n] == heaps[n].AsHome()
    {
      map n | n in heaps :: heaps[n].AsHome()
    }

    /** No two heaps are the same object, and all are in one store. */
    ghost predicate Separate()
      reads this`heaps
    {
      && (forall n :: n in heaps ==> heaps[n] != heap && heaps[n].store == heap.store)
      && (forall n, m :: n in heaps && m in heaps && n != m ==> heaps[n] != heaps[m])
    }

    /** Every table has its heap, from the page in its row on, apart from the catalog's and from one another. */
    ghost predicate Arranged()
      reads this, heap, Heaps()
    {
      Separate() && Fit(tables, Homes()) && Disjoint(Homes(), heap.pages.Keys)
    }

    ghost predicate Valid()
      reads this, heap, heap.store, Heaps()
    {
      Sound() && Arranged() && AllIn(Homes(), heap.store.Both())
    }

    /** The rows are those of the tables but `lost`, which have their heaps. */
    ghost predicate ValidBut(lost: set<Name>)
      reads this, heap, heap.store, Heaps()
    {
      && heap.Ready() && heap.Settled() && Corresponds(tables - lost, Rows(heap.pages)) && heaps.Keys == tables.Keys
      && Fit(tables - lost, Homes() - lost) && Disjoint(Homes() - lost, heap.pages.Keys)
      && AllIn(Homes() - lost, heap.store.Both())
    }

    /** All the tables that had the given heaps are usable. */
    ghost predicate Kept(homes: map<Name, Home>, v: Views)
      reads this`heaps, heap.store, Heaps()
    {
      forall n :: n in homes ==> n in heaps && heaps[n].store == heap.store && Usable(heaps[n], homes[n], v)
    }

    /** A catalog over a heap that has rows already starts by loading them. */
    constructor (heap: TableHeap)
      requires heap.Ready() && heap.Settled()
      ensures this.heap == heap && tables == map[] && heaps == map[]
    {
      this.heap, this.tables, this.heaps := heap, map[], map[];
    }

    lemma SoundMeans()
      ensures Sound() <==> heap.Ready() && heap.Settled() && Corresponds(tables, Rows(heap.pages))
    {
    }

    lemma ValidMeans()
      ensures Valid() <==>
              && Sound() && Separate() && Fit(tables, Homes()) && Disjoint(Homes(), heap.pages.Keys)
              && AllIn(Homes(), heap.store.Both())
    {
    }

    lemma ButMeans(lost: set<Name>)
      ensures ValidBut(lost) <==>
              && heap.Ready() && heap.Settled() && Corresponds(tables - lost, Rows(heap.pages)) && heaps.Keys == tables.Keys
              && Fit(tables - lost, Homes() - lost) && Disjoint(Homes() - lost, heap.pages.Keys)
              && AllIn(Homes() - lost, heap.store.Both())
    {
    }

    /** A table's heap can be worked on. */
    lemma TableReady(name: Name)
      requires Valid() && name in heaps
      ensures heaps[name].Ready() && Apart(heap, heaps[name]) && name in tables && heaps[name].first == tables[name].first
      ensures heaps[name].Settled() <==> HomeSettled(heaps[name].AsHome(), heap.store.Both())
    {
      heaps[name].AtHome();
      hide HomeIn;
      hide HomeSettled;
    }

    /** The tables `names` are still what they were in views `v`. */
    ghost predicate Untouched(names: set<Name>, homes: map<Name, Home>)
      reads this`heaps, Heaps()
    {
      forall n :: n in names ==> n in heaps && n in homes && heaps[n].AsHome() == homes[n]
    }

    /** After work on the store that left their pages alone, tables are usable again: some pages may have left their frames. */
    ghost method RefreshAll(names: set<Name>, homes: map<Name, Home>, v: Views, own: set<nat>)
      requires heap.store.Valid() && Separate() && Untouched(names, homes) && OthersStay(v, heap.store.Both(), own)
      requires forall n :: n in names ==> HomeIn(homes[n], v) && homes[n].pages.Keys !! own
      modifies (set n | n in names && n in heaps :: heaps[n])`pages
      ensures forall n :: n in names ==> Usable(heaps[n], homes[n], v)
    {
      hide HomeIn;
      hide HomeSettled;
      hide SameHome;
      hide OthersStay;
      hide TableHeap.Ready;
      hide TableHeap.Settled;
      hide TableHeap.AsHome;
      hide PageStore.Valid;
      var todo := names;
      while todo != {}
        invariant todo <= names
        invariant forall n :: n in todo ==> heaps[n].AsHome() == homes[n]
        invariant forall n :: n in names - todo ==> Usable(heaps[n], homes[n], v)
        decreases todo
      {
        var n :| n in todo;
        HomeOf(heaps[n]);
        HomeStays(homes[n], v, heap.store.Both(), own);
        heaps[n].Refresh(v);
        heaps[n].AtHome();
        todo := todo - {n};
      }
    }

    /** Makes all tables usable again after work of the catalog's own heap, which they had no page of and have none. */
    ghost method Reopen(homes: map<Name, Home>, v: Views, own: set<nat>)
      requires heap.Ready() && Separate() && homes.Keys == heaps.Keys && Untouched(heaps.Keys, homes)
      requires AllIn(homes, v) && Disjoint(homes, own) && Disjoint(homes, heap.pages.Keys)
      requires OthersStay(v, heap.store.Both(), own) && Fit(tables, homes)
      modifies Heaps()`pages
      ensures AllIn(Homes(), heap.store.Both()) && Disjoint(Homes(), heap.pages.Keys) && Fit(tables, Homes())
      ensures Kept(homes, v) && unchanged(heap)
    {
      hide *;
      HeapOpened(heap);
      SeparateMeans();
      FitMeans(tables, homes);
      OneApart(homes, v, own);
      HeapsMean();
      RefreshAll(heaps.Keys, homes, v, own);
      KeptMeans(homes, v);
      Reopened(homes, v, heap.pages.Keys);
    }

    lemma Reopened(homes: map<Name, Home>, v: Views, own: set<nat>)
      requires heaps.Keys <= homes.Keys && heaps.Keys == tables.Keys && Disjoint(homes, own)
      requires forall n :: n in heaps ==>
                 homes[n].first == tables[n].first && heaps[n].store == heap.store && Usable(heaps[n], homes[n], v)
      ensures Disjoint(Homes(), own) && Fit(tables, Homes()) && AllIn(Homes(), heap.store.Both())
    {
      hide HomeIn;
      hide HomeSettled;
      hide TableHeap.AsHome;
      assert forall n :: n in heaps ==> Homes()[n].pages.Keys == homes[n].pages.Keys && Homes()[n].first == homes[n].first;
    }

    // ----- Creating -----

    /**
     * The table is created: its name is new and not too long, there is a frame for its first page, and its row is not
     * too long and gets a place.
     */
    ghost predicate Creates(name: Name, columns: seq<Column>)
      reads this`tables, heap, heap.store
    {
      && name !in tables && |name| <= 128 && !heap.store.starved(heap.store.calls)
      && RowGoesIn(RowSize(name, columns), heap.store.calls + 1)
    }

    lemma CreatesMeans(name: Name, columns: seq<Column>)
      ensures Creates(name, columns) <==>
              && name !in tables && |name| <= 128 && !heap.store.starved(heap.store.calls)
              && RowGoesIn(RowSize(name, columns), heap.store.calls + 1)
    {
    }

    /** Allocates the table's first page and adds its row; the pages of other tables stay. */
    method CreateTable(name: Name, columns: seq<Column>) returns (r: CreateResult)
      requires Valid() && heap.store.nextId + 1 < INVALID_PAGE_ID && Storable(0, columns)
      modifies this`tables, this`heaps, heap, heap.store, Heaps()`pages
      ensures r.Created? <==> old(Creates(name, columns))
      ensures r.Exists? <==> name in old(tables)
      ensures r.NoFirstPage? <==> name !in old(tables) && heap.store.starved(old(heap.store.calls))
      ensures r.NotEncodable? <==> name !in old(tables) && !heap.store.starved(old(heap.store.calls)) && |name| > 128
      ensures !r.Created? ==> tables == old(tables) && heaps == old(heaps) && Rows(heap.pages) == Rows(old(heap.pages))
      ensures r.Created? ==>
                && name in tables && tables == old(tables)[name := tables[name]] && tables[name].columns == columns
                && tables[name].first !in old(heap.store.pages) && tables[name].first in heap.store.pages
                && tables[name].rid !in Rows(old(heap.pages)) && tables[name].first == old(heap.store.NextNew())
                && var k := old(heap.Lands(INVALID_PAGE_ID, RowSize(name, columns)));
                   (k < |old(heap.chain)| ==> tables[name].rid == old(heap.Target(k)))
      ensures r.Created? ==>
                && name in heaps && heaps == old(heaps)[name := heaps[name]] && fresh(heaps[name])
                && heaps[name].Ready() && heaps[name].Settled() && Rows(heaps[name].pages) == imap[]
      ensures Valid() && OthersStay(old(heap.store.Both()), heap.store.Both(), old(heap.pages).Keys)
      ensures Kept(old(Homes()), old(heap.store.Both()))
    {
      hide *;
      ValidMeans();
      SoundMeans();
      SeparateMeans();
      HeapOpened(heap);
      NothingMoved();
      AllKept();
      CreatesMeans(name, columns);
      ghost var v, own, homes := heap.store.Both(), heap.pages.Keys, Homes();
      if name in tables {
        return Exists;
      }
      var table, added := MakeTable(name, columns);
      UntouchedNow(homes);
      Unjoined(homes, v, own, heap.pages.Keys);
      HeapsMean();
      Reopen(homes, v, own);
      if added.Refused? {
        ValidMeans();
        SoundMeans();
        return added.r;
      }
      NewApart(homes, v, table);
      Enroll(name, table, Entry(added.rid, table.first, columns), homes, v);
      return Created;
    }

    /** Allocates a heap and writes its row, none of which is in the map yet. */
    method MakeTable(name: Name, columns: seq<Column>) returns (table: TableHeap?, added: AddResult)
      requires Sound() && name !in tables && heap.store.nextId + 1 < INVALID_PAGE_ID && Storable(0, columns)
      modifies heap, heap.store
      ensures heap.Ready() && heap.Settled() && OthersStay(old(heap.store.Both()), heap.store.Both(), old(heap.pages).Keys)
      ensures forall p :: p in old(heap.store.pages) && p !in old(heap.pages) ==> p !in heap.pages
      ensures added.Refused? ==> Rows(heap.pages) == Rows(old(heap.pages))
      ensures added.Refused? ==> added.r.NoFirstPage? || added.r.NotEncodable? || added.r.RowNotWritten?
      ensures added.Added? ==>
                && table != null && added.rid !in Rows(old(heap.pages)) && |name| <= 128
                && Corresponds(tables[name := Entry(added.rid, table.first, columns)], Rows(heap.pages))
      ensures table != null ==>
                && fresh(table) && table.Ready() && table.Settled() && table.store == heap.store
                && table.pages.Keys == {table.first} && Rows(table.pages) == imap[] && table.first !in old(heap.store.pages)
                && table.first in heap.store.pages && table.first !in heap.pages && table.first == old(heap.store.NextNew())
      ensures added == Refused(NoFirstPage) <==> heap.store.starved(old(heap.store.calls))
      ensures !heap.store.starved(old(heap.store.calls)) ==>
                && (added == Refused(NotEncodable) <==> |name| > 128)
                && (added.Added? <==> |name| <= 128 && old(RowGoesIn(RowSize(name, columns), heap.store.calls + 1)))
      ensures added.Added? ==>
                var k := old(heap.Lands(INVALID_PAGE_ID, RowSize(name, columns)));
                k < |old(heap.chain)| ==> added.rid == old(heap.Target(k))
    {
      hide *;
      SoundMeans();
      HeapOpened(heap);
      ghost var v, own, size := heap.store.Both(), heap.pages.Keys, RowSize(name, columns);
      AllUnmoved();
      OwnAllStay(v, v);
      GoesInIs(v, size);
      table := NewHeap();
      OthersMore(v, heap.store.Both(), {}, own);
      if table == null {
        return null, Refused(NoFirstPage);
      }
      SoundMeans();
      StorableThere(table.first, columns);
      HeapOpened(heap);
      table.AtHome();
      HomeOf(table);
      ghost var w, home := heap.store.Both(), table.AsHome();
      StillShown(v, w, own);
      OwnAllStay(v, w);
      GoesInIs(v, size);
      added := AddRow(name, table.first, columns);
      HeapOpened(heap);
      OthersTwice(v, w, heap.store.Both(), own, own);
      StillThere(w, heap.store.Both(), own, table.first);
      HomeStays(home, w, heap.store.Both(), own);
      table.Refresh(w);
      table.AtHome();
      HomeOf(table);
    }

    /** Enters a new table into the map. */
    method Enroll(name: Name, table: TableHeap, e: Entry, ghost homes: map<Name, Home>, ghost v: Views)
      requires heap.Ready() && heap.Settled() && Corresponds(tables[name := e], Rows(heap.pages)) && name !in tables
      requires Separate() && Fit(tables, Homes()) && Disjoint(Homes(), heap.pages.Keys) && AllIn(Homes(), heap.store.Both())
      requires table.store == heap.store && table != heap && table.Ready() && table.first == e.first && table.first !in heap.pages
      requires table.pages.Keys == {table.first} && homes.Keys == heaps.Keys && Kept(homes, v)
      requires forall n :: n in heaps ==> heaps[n] != table && heaps[n].AsHome().pages.Keys !! table.AsHome().pages.Keys
      modifies this`tables, this`heaps
      ensures Valid() && tables == old(tables)[name := e] && heaps == old(heaps)[name := table] && Kept(homes, v)
    {
      hide *;
      SeparateMeans();
      KeptMeans(homes, v);
      table.AtHome();
      HomeOf(table);
      FitMeans(tables, Homes());
      ghost var before := Homes();
      Enrolled(tables, before, heap.pages.Keys, heap.store.Both(), name, e, table.AsHome());
      tables := tables[name := e];
      Add(name, table, before);
      KeptMeans(homes, v);
      SoundMeans();
      ValidMeans();
    }

    method Add(name: Name, table: TableHeap, ghost before: map<Name, Home>)
      requires Separate() && name !in heaps && table.store == heap.store && table != heap && before == Homes()
      requires forall n :: n in heaps ==> heaps[n] != table
      modifies this`heaps
      ensures heaps == old(heaps)[name := table] && Separate() && Homes() == before[name := table.AsHome()]
    {
      hide *;
      SeparateMeans();
      heaps := heaps[name := table];
      SeparateMeans();
      HomesMore(before, name);
    }

    lemma SeparateMeans()
      ensures Separate() <==>
              && (forall n :: n in heaps ==> heaps[n] != heap && heaps[n].store == heap.store)
              && (forall n, m :: n in heaps && m in heaps && n != m ==> heaps[n] != heaps[m])
    {
    }

    lemma HeapsMean()
      ensures forall h :: h in Heaps() ==> exists n :: n in heaps && heaps[n] == h
      ensures forall n :: n in heaps ==> heaps[n] in Heaps()
    {
    }

    lemma KeptMeans(homes: map<Name, Home>, v: Views)
      ensures Kept(homes, v) <==>
              forall n :: n in homes ==> n in heaps && heaps[n].store == heap.store && Usable(heaps[n], homes[n], v)
    {
    }

    lemma UntouchedNow(homes: map<Name, Home>)
      requires homes.Keys == heaps.Keys && forall n :: n in heaps ==> heaps[n].AsHome() == homes[n]
      ensures Untouched(heaps.Keys, homes)
    {
    }

    lemma AllKept()
      requires Separate() && AllIn(Homes(), heap.store.Both())
      ensures Kept(Homes(), heap.store.Both())
    {
      hide HomeIn;
      hide HomeSettled;
      hide TableHeap.AsHome;
    }

    /** A heap of one page that was not in the store before has none of the tables' pages. */
    lemma NewApart(homes: map<Name, Home>, v: Views, table: TableHeap)
      requires AllIn(homes, v) && Kept(homes, v) && homes.Keys == heaps.Keys
      requires table.pages.Keys == {table.first} && table.first !in v.shown
      ensures forall n :: n in heaps ==> heaps[n].AsHome().pages.Keys !! table.AsHome().pages.Keys
    {
      hide HomeIn;
      hide HomeSettled;
      forall n | n in heaps
        ensures heaps[n].AsHome().pages.Keys !! table.AsHome().pages.Keys
      {
        HomeKeys(homes[n], v);
      }
    }

    lemma HomesMore(before: map<Name, Home>, name: Name)
      requires name in heaps && before.Keys == heaps.Keys - {name} && forall n :: n in before ==> before[n] == heaps[n].AsHome()
      ensures Homes() == before[name := heaps[name].AsHome()]
    {
      hide TableHeap.AsHome;
    }

    lemma NothingMoved()
      requires heap.Ready()
      ensures OthersStay(heap.store.Both(), heap.store.Both(), heap.pages.Keys)
    {
    }

    lemma AllUnmoved()
      requires heap.Ready()
      ensures OthersStay(heap.store.Both(), heap.store.Both(), {})
    {
    }

    /** Allocates a heap beside the catalog's own. */
    method NewHeap() returns (table: TableHeap?)
      requires heap.Ready() && heap.Settled() && heap.store.nextId + 1 < INVALID_PAGE_ID
      modifies heap.store
      ensures heap.Ready() && heap.Settled() && heap.store.CanAllocate()
      ensures table == null <==> heap.store.starved(old(heap.store.calls))
      ensures heap.store.calls == old(heap.store.calls) + 1
      ensures OthersStay(old(heap.store.Both()), heap.store.Both(), {})
      ensures table != null ==> table.first == old(heap.store.NextNew())
      ensures table != null ==> fresh(table) && table.Ready() && table.Settled() && table.store == heap.store
      ensures table != null ==> table.pages.Keys == {table.first} && Rows(table.pages) == imap[]
      ensures table != null ==> table.first < INVALID_PAGE_ID && table.first !in old(heap.store.pages)
      ensures table != null ==> table.first in heap.store.pages && table.first !in heap.pages
    {
      hide TableHeap.Ready;
      hide TableHeap.Settled;
      hide HeapModel.IsChain;
      hide HeapModel.Rows;
      hide Represents;
      hide AllAkin;
      hide Grown;
      hide SameShape;
      HeapOpened(heap);
      AllUnmoved();
      ghost var v := heap.store.Both();
      table := TableHeap.Create(heap.store);
      if table == null {
        SettledKept(heap, v);
        return;
      }
      GrownOthers(State(v, map[], map[]), table.Now());
      HeapOpened(table);
      FirstFits(table);
      OnlyPage(table);
      SettledKept(heap, v);
    }

    /** A row of `n` bytes gets into the catalog's heap, the insertion beginning with call number `from`. */
    ghost predicate RowGoesIn(n: nat, from: nat)
      reads heap, heap.store
    {
      n <= MAX_TUPLE && heap.store.Serves(from, CallsTo(heap.Lands(INVALID_PAGE_ID, n), |heap.chain|))
    }

    /** Where a row lands is the same in all states between which the heap's pages only left their frames. */
    lemma GoesInIs(v: Views, n: nat)
      requires heap.Ready() && AllAkin(v.shown, v.kept, heap.pages)
      requires forall p :: p in heap.pages ==> Stays(v, heap.store.Both(), p)
      ensures var k := Landing(v.shown, heap.chain, INVALID_PAGE_ID, 0, n);
              && heap.Lands(INVALID_PAGE_ID, n) == k
              && (forall from :: RowGoesIn(n, from) <==> n <= MAX_TUPLE && heap.store.Serves(from, CallsTo(k, |heap.chain|)))
              && (k < |heap.chain| && heap.chain[k] in heap.pages ==>
                    heap.Target(k) == RID(heap.chain[k], FirstHole(heap.pages[heap.chain[k]], 0)))
    {
      hide AllAkin;
      hide TableHeap.Ready;
      hide FirstHole;
      LandsStill(heap, v, n);
    }

    lemma OwnAllStay(v: Views, w: Views)
      requires OthersStay(v, w, {}) && heap.pages.Keys <= v.shown.Keys
      ensures forall p :: p in heap.pages ==> Stays(v, w, p)
    {
    }

    /** Writes the row of a table not yet in the catalog. */
    method AddRow(name: Name, first: nat, columns: seq<Column>) returns (r: AddResult)
      requires Sound() && name !in tables && Storable(first, columns) && heap.store.CanAllocate()
      modifies heap, heap.store
      ensures heap.Ready() && heap.Settled() && OthersStay(old(heap.store.Both()), heap.store.Both(), old(heap.pages).Keys)
      ensures forall p :: p in old(heap.store.pages) && p !in old(heap.pages) ==> p !in heap.pages
      ensures r.Refused? ==> Rows(heap.pages) == Rows(old(heap.pages)) && (r.r.NotEncodable? || r.r.RowNotWritten?)
      ensures r.Added? ==>
                && r.rid !in Rows(old(heap.pages)) && |name| <= 128
                && Corresponds(tables[name := Entry(r.rid, first, columns)], Rows(heap.pages))
      ensures r == Refused(NotEncodable) <==> |name| > 128
      ensures r.Added? <==> |name| <= 128 && old(RowGoesIn(RowSize(name, columns), heap.store.calls))
      ensures r.Added? ==> r.rid == old(heap.Target(heap.Lands(INVALID_PAGE_ID, RowSize(name, columns))))
    {
      hide RowSize;
      hide TableHeap.Ready;
      hide TableHeap.Settled;
      hide TableHeap.Lands;
      hide TableHeap.Target;
      hide HeapModel.Rows;
      hide Corresponds;
      hide Describes;
      hide Encode;
      hide Grown;
      hide Drawn;
      hide OthersStay;
      hide Sound;
      SoundMeans();
      NothingMoved();
      SchemaShape();
      RowMatches(name, first, columns);
      RowSizeIs(name, first, columns);
      var schema := SerializeSchema(columns);
      var encoded := Serialize(CATALOG_SCHEMA, [Str(name), UInt32(first), Blob(schema)]);
      if encoded.Failed? {
        return Refused(NotEncodable);
      }
      StoredBytes(name, first, columns, encoded.bytes);
      ghost var a := heap.Now();
      var inserted;
      ghost var found;
      inserted, found := heap.Insert(encoded.bytes);
      GrownOthers(a, heap.Now());
      GrownJoins(a, heap.Now());
      if !inserted.Inserted? {
        return Refused(RowNotWritten);
      }
      RowCreated(tables, Rows(old(heap.pages)), name, Entry(inserted.rid, first, columns), encoded.bytes);
      return Added(inserted.rid);
    }

    // ----- Dropping -----

    /**
     * Deletes a table's row, then frees its pages, then forgets it. The two calls for the row decide whether it
     * goes, the calls for the chain whether the rest follows: when the pages cannot all be read, the row is gone
     * and the map still has the table, so the two no longer correspond.
     */
    method DropTable(name: Name) returns (r: DropResult)
      requires Valid()
      modifies this`tables, this`heaps, heap`pages, heap`backed, heap.store, Heaps()`pages
      ensures r.NotDropped? <==> name !in old(heaps) || !heap.store.Serves(old(heap.store.calls), 2)
      ensures r.Dropped? <==> name in old(heaps) && heap.store.Serves(old(heap.store.calls), 2 + |old(heaps)[name].chain|)
      ensures tables == if r.Dropped? then old(tables) - {name} else old(tables)
      ensures heaps == if r.Dropped? then old(heaps) - {name} else old(heaps)
      ensures r.NotDropped? || name in old(tables)
      ensures Rows(heap.pages) ==
              if r.NotDropped? then Rows(old(heap.pages)) else Rows(old(heap.pages)) - {old(tables)[name].rid}
      ensures Valid() <==> !r.PagesUnread?
      ensures r.PagesUnread? ==> ValidBut({name})
      ensures heap.Ready() && heap.Settled()
      ensures name in old(heaps) ==>
                OthersStay(old(heap.store.Both()), heap.store.Both(), old(heap.pages.Keys + heaps[name].pages.Keys))
      ensures Kept(old(Homes()) - {name}, old(heap.store.Both()))
      ensures r.NotDropped? ==> Kept(old(Homes()), old(heap.store.Both()))
      ensures r.Dropped? ==>
                var ids := old(heaps)[name].chain;
                forall i :: 0 <= i < |ids| ==>
                  (ids[i] !in heap.store.pages <==> !heap.store.starved(old(heap.store.calls) + 2 + |ids| + i))
    {
      hide *;
      Unchanged(name);
      if name !in heaps {
        return NotDropped;
      }
      r := DropKnown(name);
    }

    /** A case of it: the pool is full when the first page of the table is to be read. */
    method DropCutShort(name: Name) returns (r: DropResult)
      requires Valid() && name in heaps
      requires heap.store.Serves(heap.store.calls, 2) && heap.store.starved(heap.store.calls + 2)
      modifies this`tables, this`heaps, heap`pages, heap`backed, heap.store, Heaps()`pages
      ensures r.PagesUnread? && name in tables && tables[name].rid !in Rows(heap.pages)
      ensures !Valid() && ValidBut({name})
    {
      hide *;
      FirstRefused(name, heap.store.calls);
      r := DropTable(name);
    }

    lemma FirstRefused(name: Name, c: nat)
      requires Valid() && name in heaps && heap.store.starved(c + 2)
      ensures !heap.store.Serves(c, 2 + |heaps[name].chain|) && name in tables
    {
      hide *;
      TableReady(name);
      heaps[name].Start();
      NotServed(c, |heaps[name].chain|);
    }

    lemma NotServed(c: nat, n: nat)
      requires heap.store.starved(c + 2) && n > 0
      ensures !heap.store.Serves(c, 2 + n)
    {
    }

    lemma Unchanged(name: Name)
      requires Valid()
      ensures heap.Ready() && heap.Settled() && heaps.Keys == tables.Keys
      ensures Kept(Homes(), heap.store.Both()) && Kept(Homes() - {name}, heap.store.Both())
    {
      hide *;
      ValidMeans();
      SoundMeans();
      AllKept();
      KeptMeans(Homes(), heap.store.Both());
      KeptMeans(Homes() - {name}, heap.store.Both());
      FitMeans(tables, Homes());
    }

    /** The same for a table that is in the map. */
    method DropKnown(name: Name) returns (r: DropResult)
      requires Valid() && name in heaps && name in tables
      modifies this`tables, this`heaps, heap`pages, heap`backed, heap.store, Heaps()`pages
      ensures r.NotDropped? <==> !heap.store.Serves(old(heap.store.calls), 2)
      ensures r.Dropped? <==> heap.store.Serves(old(heap.store.calls), 2 + |old(heaps)[name].chain|)
      ensures tables == if r.Dropped? then old(tables) - {name} else old(tables)
      ensures heaps == if r.Dropped? then old(heaps) - {name} else old(heaps)
      ensures Rows(heap.pages) ==
              if r.NotDropped? then Rows(old(heap.pages)) else Rows(old(heap.pages)) - {old(tables)[name].rid}
      ensures Valid() <==> !r.PagesUnread?
      ensures r.PagesUnread? ==> ValidBut({name})
      ensures heap.Ready() && heap.Settled()
      ensures OthersStay(old(heap.store.Both()), heap.store.Both(), old(heap.pages.Keys + heaps[name].pages.Keys))
      ensures Kept(old(Homes()) - {name}, old(heap.store.Both()))
      ensures r.NotDropped? ==> Kept(old(Homes()), old(heap.store.Both()))
      ensures r.Dropped? ==>
                var ids := old(heaps)[name].chain;
                forall i :: 0 <= i < |ids| ==>
                  (ids[i] !in heap.store.pages <==> !heap.store.starved(old(heap.store.calls) + 2 + |ids| + i))
    {
      hide *;
      ValidMeans();
      SeparateMeans();
      FitMeans(tables, Homes());
      HomeOf(heaps[name]);
      ghost var v, homes := heap.store.Both(), Homes();
      r := DropAmong(name, heaps[name], homes - {name}, homes[name], v, tables[name].rid);
      if !r.PagesUnread? {
        Remember(name, r.Dropped?, homes, v);
      } else {
        RestIsKept(name, homes, v);
      }
      ValidMeans();
    }

    /** When a drop was cut short, the catalog would be good without that table. */
    lemma RestIsKept(name: Name, homes: map<Name, Home>, v: Views)
      requires heap.Ready() && heap.Settled() && Corresponds(tables - {name}, Rows(heap.pages)) && Kept(homes - {name}, v)
      requires Fit(tables, homes) && Disjoint(homes, heap.pages.Keys) && heaps.Keys == homes.Keys && Separate()
      ensures ValidBut({name})
    {
      hide *;
      KeptMeans(homes - {name}, v);
      ButMeans({name});
      FitMeans(tables, homes);
      StillThose(name, homes, v);
      OthersSame(tables, name, homes, Homes(), heap.pages.Keys, heap.store.Both());
    }

    /** Takes a table that was dropped out of the map of heaps. */
    method Remember(name: Name, dropped: bool, ghost homes: map<Name, Home>, ghost v: Views)
      requires Sound() && Separate() && Disjoint(homes, heap.pages.Keys) && homes.Keys == heaps.Keys && name in heaps
      requires Kept(homes - {name}, v) && (!dropped ==> Usable(heaps[name], homes[name], v))
      requires tables.Keys == if dropped then homes.Keys - {name} else homes.Keys
      requires forall n :: n in tables ==> homes[n].first == tables[n].first
      modifies this`heaps
      ensures heaps == if dropped then old(heaps) - {name} else old(heaps)
      ensures Valid() && Kept(homes - {name}, v) && (!dropped ==> Kept(homes, v))
    {
      hide *;
      SeparateMeans();
      KeptMeans(homes - {name}, v);
      if dropped {
        heaps := heaps - {name};
      }
      KeptMeans(homes - {name}, v);
      KeptMeans(homes, v);
      Reopened(homes, v, heap.pages.Keys);
      SeparateMeans();
      ValidMeans();
    }

    /** The same, the table's heap not yet taken from the map; the other tables are usable. */
    method DropAmong(name: Name, table: TableHeap, ghost homes: map<Name, Home>, ghost home: Home, ghost v: Views,
                     ghost rid: RID)
      returns (r: DropResult)
      requires Valid() && name in heaps && heaps[name] == table && home == table.AsHome()
      requires name in tables && tables[name].rid == rid && homes == Homes() - {name} && v == heap.store.Both()
      modifies this`tables, heap`pages, heap`backed, heap.store, Heaps()`pages
      ensures r.NotDropped? <==> !heap.store.Serves(old(heap.store.calls), 2)
      ensures r.Dropped? <==> heap.store.Serves(old(heap.store.calls), 2 + |table.chain|)
      ensures tables == if r.Dropped? then old(tables) - {name} else old(tables)
      ensures Rows(heap.pages) == if r.NotDropped? then Rows(old(heap.pages)) else Rows(old(heap.pages)) - {rid}
      ensures r.Dropped? ==> forall i :: 0 <= i < |table.chain| ==>
                (table.chain[i] !in heap.store.pages <==> !heap.store.starved(old(heap.store.calls) + 2 + |table.chain| + i))
      ensures Kept(homes, v) && (r.NotDropped? ==> Usable(table, home, v))
      ensures OthersStay(v, heap.store.Both(), old(heap.pages.Keys) + home.pages.Keys)
      ensures r.PagesUnread? ==> Corresponds(tables - {name}, Rows(heap.pages))
      ensures heap.Ready() && heap.Settled() && heap.pages.Keys == old(heap.pages).Keys && (Sound() <==> !r.PagesUnread?)
    {
      hide *;
      ghost var both := heap.pages.Keys + home.pages.Keys;
      BeforeDrop(name, table, homes, home, v, both);
      r := DropListed(name, table);
      HeapOpened(heap);
      OthersUntouched(homes.Keys, homes);
      if r.NotDropped? {
        UsableNow(table, home, v);
      }
      RestUsable(name, table, homes, v, both);
    }

    lemma BeforeDrop(name: Name, table: TableHeap, homes: map<Name, Home>, home: Home, v: Views, both: set<nat>)
      requires Valid() && name in heaps && heaps[name] == table && home == table.AsHome()
      requires homes == Homes() - {name} && v == heap.store.Both() && both == heap.pages.Keys + home.pages.Keys
      ensures Sound() && Separate() && table.Ready() && table != heap && table.store == heap.store
      ensures table.pages.Keys == home.pages.Keys && (table.Settled() <==> HomeSettled(home, v)) && Apart(heap, table)
      ensures homes.Keys == heaps.Keys - {name} && table in Heaps()
      ensures forall n :: n in homes ==>
                && heaps[n] != table && heaps[n] != heap && heaps[n].AsHome() == homes[n]
                && HomeIn(homes[n], v) && homes[n].pages.Keys !! both
    {
      hide *;
      ValidMeans();
      SeparateMeans();
      TableReady(name);
      HeapsMean();
      HomeOf(table);
      OthersApart(Homes(), name, heap.pages.Keys, both, v);
    }

    ghost method RestUsable(name: Name, table: TableHeap, homes: map<Name, Home>, v: Views, both: set<nat>)
      requires heap.store.Valid() && Separate() && name in heaps && heaps[name] == table && homes.Keys == heaps.Keys - {name}
      requires Untouched(homes.Keys, homes) && OthersStay(v, heap.store.Both(), both)
      requires forall n :: n in homes ==> HomeIn(homes[n], v) && homes[n].pages.Keys !! both
      modifies (Heaps() - {table})`pages
      ensures Kept(homes, v) && unchanged(heap, table)
    {
      hide *;
      SeparateMeans();
      HeapsMean();
      RefreshAll(homes.Keys, homes, v, both);
      KeptMeans(homes, v);
    }

    lemma OthersUntouched(names: set<Name>, homes: map<Name, Home>)
      requires forall n :: n in names ==> n in heaps && n in homes && heaps[n].AsHome() == homes[n]
      ensures Untouched(names, homes)
    {
    }

    /** Deletes the row of a table, as a deletion outside any transaction does. */
    method DeleteRow(rid: RID) returns (ok: bool)
      requires heap.Ready() && heap.Settled() && rid in Rows(heap.pages) && Rows(heap.pages)[rid] != []
      modifies heap`pages, heap`backed, heap.store
      ensures heap.Ready() && heap.Settled() && heap.pages.Keys == old(heap.pages).Keys
      ensures OthersStay(old(heap.store.Both()), heap.store.Both(), heap.pages.Keys)
      ensures Rows(heap.pages) == if ok then Rows(old(heap.pages)) - {rid} else Rows(old(heap.pages))
      ensures ok <==> heap.store.Serves(old(heap.store.calls), 2)
      ensures ok ==> heap.store.calls == old(heap.store.calls) + 2
    {
      hide *;
      RowHome(heap, rid);
      HeapOpened(heap);
      heap.FoundSlots(rid.page);
      ghost var a, c := heap.Now(), heap.store.calls;
      var got := heap.Get(rid);
      HeapOpened(heap);
      MovedGrows(a, heap.Now());
      GrownOthers(a, heap.Now());
      if got.None? {
        ServesNot(c, c);
        return false;
      }
      RowHome(heap, rid);
      ghost var b := heap.Now();
      ok := heap.Delete(rid);
      HeapOpened(heap);
      GrownTrans(a, b, heap.Now());
      GrownOthers(a, heap.Now());
      SameKeysThen(b.pages, heap.pages);
      ServesTwo(c, ok);
    }

    lemma ServesNot(c: nat, n: nat)
      requires c <= n < c + 2 && heap.store.starved(n)
      ensures !heap.store.Serves(c, 2)
    {
    }

    lemma ServesTwo(c: nat, ok: bool)
      requires !heap.store.starved(c) && (ok <==> !heap.store.starved(c + 1))
      ensures ok <==> heap.store.Serves(c, 2)
    {
    }

    /** Frees the pages of a table one by one; pages that stay pinned are left behind. */
    method DropPages(ids: seq<nat>)
      requires heap.Ready() && heap.Settled() && Distinct(ids)
      requires forall i :: 0 <= i < |ids| ==> ids[i] in heap.store.pages && ids[i] !in heap.pages
      modifies heap.store
      ensures heap.Ready() && heap.Settled() && OnlyDropped(old(heap.store.Both()), heap.store.Both(), ids)
      ensures forall i :: 0 <= i < |ids| ==> (ids[i] !in heap.store.pages <==> !heap.store.starved(old(heap.store.calls) + i))
    {
      hide *;
      HeapOpened(heap);
      ghost var v := heap.store.Both();
      NoneDropped(v, ids);
      var i := 0;
      while i < |ids|
        invariant i <= |ids| && heap.store.Valid() && heap.store.calls == old(heap.store.calls) + i
        invariant forall k :: 0 <= k < i ==> (ids[k] !in heap.store.pages <==> !heap.store.starved(old(heap.store.calls) + k))
        invariant forall k :: i <= k < |ids| ==> ids[k] in heap.store.pages
        invariant OnlyDropped(v, heap.store.Both(), ids)
      {
        Others(ids, i);
        DropOne(ids[i], ids, v);
        i := i + 1;
      }
      OwnStay(v, ids);
      SettledKept(heap, v);
    }

    /** One of the pages to drop; it stays when a frame of it is pinned. */
    method DropOne(id: nat, ghost ids: seq<nat>, ghost v: Views)
      requires heap.store.Valid() && id in heap.store.pages && id in ids && OnlyDropped(v, heap.store.Both(), ids)
      modifies heap.store
      ensures heap.store.Valid() && heap.store.calls == old(heap.store.calls) + 1
      ensures id !in heap.store.pages <==> !heap.store.starved(old(heap.store.calls))
      ensures forall p :: p != id ==> (p in heap.store.pages <==> p in old(heap.store.pages))
      ensures OnlyDropped(v, heap.store.Both(), ids)
    {
      hide PageStore.Valid;
      hide OnlyDropped;
      ghost var w := heap.store.Both();
      var ok := heap.store.DeletePage(id);
      OneDropped(v, w, heap.store.Both(), ids, id);
    }

    lemma OwnStay(v: Views, ids: seq<nat>)
      requires OnlyDropped(v, heap.store.Both(), ids) && heap.pages.Keys <= v.shown.Keys
      requires forall i :: 0 <= i < |ids| ==> ids[i] !in heap.pages
      ensures forall p :: p in heap.pages ==> Stays(v, heap.store.Both(), p)
    {
    }

    /** Frees every page of a table, or none when they cannot all be read. */
    method FreeTable(table: TableHeap) returns (ok: bool)
      requires heap.Ready() && heap.Settled() && table.Ready() && Apart(heap, table)
      modifies heap.store, table`pages
      ensures heap.Ready() && heap.Settled() && heap.pages == old(heap.pages) && table.pages.Keys == old(table.pages).Keys
      ensures ok <==> heap.store.Serves(old(heap.store.calls), |table.chain|)
      ensures OnlyDropped(old(heap.store.Both()), heap.store.Both(), table.chain)
      ensures ok ==> forall i :: 0 <= i < |table.chain| ==>
                (table.chain[i] !in heap.store.pages <==> !heap.store.starved(old(heap.store.calls) + |table.chain| + i))
    {
      hide *;
      ChainPages(heap, table);
      ghost var v := heap.store.Both();
      var ids, complete := ReadPages(table);
      if !complete {
        return false;
      }
      ghost var w := heap.store.Both();
      DropPages(ids);
      DroppedTwice(v, w, heap.store.Both(), table.chain);
      return true;
    }

    /** The ids of the table's pages, if they can all be read. */
    method ReadPages(table: TableHeap) returns (ids: seq<nat>, complete: bool)
      requires heap.Ready() && heap.Settled() && table.Ready() && Apart(heap, table)
      modifies heap.store, table`pages
      ensures heap.Ready() && heap.Settled() && heap.pages == old(heap.pages) && table.pages.Keys == old(table.pages).Keys
      ensures complete ==> ids == table.chain
      ensures complete <==> heap.store.Serves(old(heap.store.calls), |table.chain|)
      ensures complete ==> heap.store.calls == old(heap.store.calls) + |table.chain|
      ensures OnlyDropped(old(heap.store.Both()), heap.store.Both(), table.chain)
      ensures forall i :: 0 <= i < |table.chain| ==> table.chain[i] in heap.store.pages
    {
      hide *;
      HeapOpened(heap);
      HeapOpened(table);
      ApartMeans(table);
      ChainPages(heap, table);
      ghost var v := heap.store.Both();
      ids, complete := table.AllPages();
      HeapOpened(table);
      StayDropsNone(v, heap.store.Both(), table.chain);
      HeapStays(v, heap.store.Both());
      ChainStays(v, heap.store.Both(), table.chain);
      SettledKept(heap, v);
    }

    lemma ApartMeans(table: TableHeap)
      ensures Apart(heap, table) <==> heap != table && heap.store == table.store && heap.pages.Keys !! table.pages.Keys
    {
    }

    lemma HeapStays(v: Views, w: Views)
      requires AllStay(v, w) && heap.pages.Keys <= v.shown.Keys
      ensures forall p :: p in heap.pages ==> Stays(v, w, p)
    {
    }

    method DropListed(name: Name, table: TableHeap) returns (r: DropResult)
      requires Sound() && Apart(heap, table) && name in tables && table.Ready()
      modifies this`tables, heap`pages, heap`backed, heap.store, table`pages
      ensures r.NotDropped? <==> !heap.store.Serves(old(heap.store.calls), 2)
      ensures r.Dropped? <==> heap.store.Serves(old(heap.store.calls), 2 + |table.chain|)
      ensures r.PagesUnread? ==> Corresponds(tables - {name}, Rows(heap.pages))
      ensures heap.Ready() && heap.Settled() && (Sound() <==> !r.PagesUnread?)
      ensures tables == if r.Dropped? then old(tables) - {name} else old(tables)
      ensures Rows(heap.pages) ==
              if r.NotDropped? then Rows(old(heap.pages)) else Rows(old(heap.pages)) - {old(tables)[name].rid}
      ensures heap.pages.Keys == old(heap.pages).Keys && table.pages.Keys == old(table.pages).Keys
      ensures r.NotDropped? ==> table.Ready() && SameHome(old(table.AsHome()), table.AsHome())
      ensures r.NotDropped? && old(table.Settled()) ==> table.Settled()
      ensures OthersStay(old(heap.store.Both()), heap.store.Both(), old(heap.pages.Keys + table.pages.Keys))
      ensures r.Dropped? ==> forall i :: 0 <= i < |table.chain| ==>
                (table.chain[i] !in heap.store.pages <==> !heap.store.starved(old(heap.store.calls) + 2 + |table.chain| + i))
    {
      hide *;
      SoundMeans();
      var rid := tables[name].rid;
      ghost var rows := Rows(heap.pages);
      TableRow(tables, rows, name);
      RowDropped(tables, rows, name);
      r := Unlink(rid, table);
      match r {
        case NotDropped =>
        case PagesUnread =>
          RowGone(tables, rows - {rid}, name);
        case Dropped =>
          tables := tables - {name};
      }
      SoundMeans();
    }

    /** Deletes the row, then frees the pages. */
    method Unlink(rid: RID, table: TableHeap) returns (r: DropResult)
      requires heap.Ready() && heap.Settled() && table.Ready() && Apart(heap, table)
      requires rid in Rows(heap.pages) && Rows(heap.pages)[rid] != []
      modifies heap`pages, heap`backed, heap.store, table`pages
      ensures r.NotDropped? <==> !heap.store.Serves(old(heap.store.calls), 2)
      ensures r.Dropped? <==> heap.store.Serves(old(heap.store.calls), 2 + |table.chain|)
      ensures heap.Ready() && heap.Settled()
      ensures Rows(heap.pages) == if r.NotDropped? then Rows(old(heap.pages)) else Rows(old(heap.pages)) - {rid}
      ensures heap.pages.Keys == old(heap.pages).Keys && table.pages.Keys == old(table.pages).Keys
      ensures r.NotDropped? ==> table.Ready() && SameHome(old(table.AsHome()), table.AsHome())
      ensures r.NotDropped? && old(table.Settled()) ==> table.Settled()
      ensures OthersStay(old(heap.store.Both()), heap.store.Both(), old(heap.pages.Keys + table.pages.Keys))
      ensures r.Dropped? ==> forall i :: 0 <= i < |table.chain| ==>
                (table.chain[i] !in heap.store.pages <==> !heap.store.starved(old(heap.store.calls) + 2 + |table.chain| + i))
    {
      hide TableHeap.Ready;
      hide TableHeap.Settled;
      hide HeapModel.Rows;
      hide OthersStay;
      hide OnlyDropped;
      ApartMeans(table);
      hide Apart;
      ghost var v, c, own := heap.store.Both(), heap.store.calls, heap.pages.Keys + table.pages.Keys;
      var deleted := DeleteBeside(rid, table);
      if !deleted {
        return NotDropped;
      }
      ghost var w := heap.store.Both();
      ChainInOwn(table, own);
      var freed := FreeTable(table);
      DroppedOthers(w, heap.store.Both(), table.chain, own);
      OthersTwice(v, w, heap.store.Both(), own, own);
      return if freed then Dropped else PagesUnread;
    }

    /** The deletion leaves the other heap usable: pages of it may leave their frames. */
    method DeleteBeside(rid: RID, table: TableHeap) returns (ok: bool)
      requires heap.Ready() && heap.Settled() && table.Ready() && Apart(heap, table)
      requires rid in Rows(heap.pages) && Rows(heap.pages)[rid] != []
      modifies heap`pages, heap`backed, heap.store, table`pages
      ensures heap.Ready() && heap.Settled() && table.Ready() && Apart(heap, table)
      ensures SameHome(old(table.AsHome()), table.AsHome()) && (old(table.Settled()) ==> table.Settled())
      ensures heap.pages.Keys == old(heap.pages).Keys && table.pages.Keys == old(table.pages).Keys
      ensures Rows(heap.pages) == if ok then Rows(old(heap.pages)) - {rid} else Rows(old(heap.pages))
      ensures ok <==> heap.store.Serves(old(heap.store.calls), 2)
      ensures ok ==> heap.store.calls == old(heap.store.calls) + 2
      ensures OthersStay(old(heap.store.Both()), heap.store.Both(), old(heap.pages.Keys + table.pages.Keys))
    {
      hide *;
      HeapOpened(table);
      table.AtHome();
      ApartMeans(table);
      ghost var v, own, own' := heap.store.Both(), heap.pages.Keys, heap.pages.Keys + table.pages.Keys;
      ok := DeleteRow(rid);
      HeapOpened(heap);
      ApartMeans(table);
      TableStays(table, v);
      table.Refresh(v);
      ApartMeans(table);
      OthersMore(v, heap.store.Both(), own, own');
    }

    lemma TableStays(table: TableHeap, v: Views)
      requires Apart(heap, table) && OthersStay(v, heap.store.Both(), heap.pages.Keys) && table.pages.Keys <= v.shown.Keys
      ensures forall p :: p in table.pages ==> Stays(v, table.store.Both(), p)
    {
    }

    // ----- Reloading -----

    /** What is in the map so far has a usable heap, `homes` being the heaps of all tables in the views `v`. */
    ghost predicate Loading(homes: map<Name, Home>, v: Views)
      reads this`tables, this`heaps, heap.store, Heaps()
    {
      && heaps.Keys == tables.Keys && Separate() && heap.store.Valid() && AllStay(v, heap.store.Both())
      && (forall n :: n in heaps ==> n in homes && Usable(heaps[n], homes[n], v))
    }

    /**
     * Rebuilds the map from the rows. With `known` the map the rows correspond to and `homes` the heaps of its tables,
     * what is loaded is the part whose rows lie on the pages before the first one that is refused, without an error; it
     * is all of it, and the catalog as good as before, exactly when there are no rows beyond.
     */
    method LoadExistingTables(ghost known: Entries, ghost homes: map<Name, Home>) returns (complete: bool)
      requires heap.Ready() && heap.Settled() && tables == map[] && heaps == map[] && Corresponds(known, Rows(heap.pages))
      requires Fit(known, homes) && Disjoint(homes, heap.pages.Keys) && AllIn(homes, heap.store.Both())
      modifies this`tables, this`heaps, heap`pages, heap.store
      ensures heap.Ready() && heap.Settled() && heap.pages == old(heap.pages)
      ensures complete <==> heap.store.Serves(old(heap.store.calls), |heap.chain|)
      ensures forall n :: n in tables ==> n in known && tables[n] == known[n]
      ensures tables == known <==>
              ChainRows(heap.pages, heap.chain, heap.store.Served(old(heap.store.calls), |heap.chain|)) == []
      ensures Valid() <==> tables == known
      ensures heaps.Keys == tables.Keys
      ensures forall n :: n in heaps ==> fresh(heaps[n]) && n in homes && Usable(heaps[n], homes[n], old(heap.store.Both()))
    {
      hide *;
      AllRows(heap);
      ghost var all, c, v := ChainRows(heap.pages, heap.chain, 0), heap.store.calls, heap.store.Both();
      var scan := new Scan(heap);
      if scan.current.None? {
        NothingServed(heap, c);
        NothingLoaded();
        ScanEnds(scan);
        LoadedExactly(known, Rows(heap.pages), all, [], all);
        NothingLoading(homes, v);
        complete := false;
      } else {
        ServedOneMore(heap.store, c, |heap.chain|);
        ScanEnds(scan);
        NothingLoading(homes, v);
        complete := LoadFrom(scan, known, homes, v, all);
        ScanEnds(scan);
      }
      LoadedValid(known, homes, v);
    }

    lemma NothingLoading(homes: map<Name, Home>, v: Views)
      requires heap.Ready() && tables == map[] && heaps == map[] && AllStay(v, heap.store.Both())
      ensures Loading(homes, v)
    {
      HeapOpened(heap);
    }

    lemma LoadingMeans(homes: map<Name, Home>, v: Views)
      ensures Loading(homes, v) <==>
              && heaps.Keys == tables.Keys && Separate() && heap.store.Valid() && AllStay(v, heap.store.Both())
              && (forall n :: n in heaps ==> n in homes && Usable(heaps[n], homes[n], v))
    {
    }

    /** What was loaded is good exactly when it is everything. */
    lemma LoadedValid(known: Entries, homes: map<Name, Home>, v: Views)
      requires heap.Ready() && heap.Settled() && Corresponds(known, Rows(heap.pages)) && Loading(homes, v)
      requires Fit(known, homes) && Disjoint(homes, heap.pages.Keys)
      requires forall n :: n in tables ==> n in known && tables[n] == known[n]
      ensures Valid() <==> tables == known
      ensures heaps.Keys == tables.Keys && forall n :: n in heaps ==> n in homes && Usable(heaps[n], homes[n], v)
    {
      hide *;
      LoadingMeans(homes, v);
      FitMeans(known, homes);
      SoundMeans();
      ValidMeans();
      SeparateMeans();
      PartCorresponds(known, tables, Rows(heap.pages));
      if tables == known {
        Reopened(homes, v, heap.pages.Keys);
      }
    }

    /** A case of it: the pool is full from the start, and no table is found where there are some. */
    method LoadFromFullPool(ghost known: Entries, ghost homes: map<Name, Home>) returns (complete: bool)
      requires heap.Ready() && heap.Settled() && tables == map[] && heaps == map[] && Corresponds(known, Rows(heap.pages))
      requires Fit(known, homes) && Disjoint(homes, heap.pages.Keys) && AllIn(homes, heap.store.Both())
      requires known != map[] && heap.store.starved(heap.store.calls)
      modifies this`tables, this`heaps, heap`pages, heap.store
      ensures !complete && tables != known && !Valid()
    {
      hide *;
      FullPool(known);
      complete := LoadExistingTables(known, homes);
    }

    lemma FullPool(known: Entries)
      requires heap.Ready() && Corresponds(known, Rows(heap.pages)) && known != map[]
      requires heap.store.starved(heap.store.calls)
      ensures !heap.store.Serves(heap.store.calls, |heap.chain|)
      ensures ChainRows(heap.pages, heap.chain, heap.store.Served(heap.store.calls, |heap.chain|)) != []
    {
      hide *;
      heap.Start();
      NothingServed(heap, heap.store.calls);
      AllRows(heap);
      SomeRow(known, Rows(heap.pages), ChainRows(heap.pages, heap.chain, 0));
    }

    /** Loads what the cursor yields until it yields nothing. */
    method LoadFrom(scan: Scan, ghost known: Entries, ghost homes: map<Name, Home>, ghost v: Views, ghost all: seq<Row>)
      returns (complete: bool)
      requires scan.Valid() && !scan.lost && scan.current.Some? && scan.heap == heap && scan.pos == 0 && scan.Remaining() == all
      requires heap.Settled() && tables == map[] && Lists(all, Rows(heap.pages)) && Corresponds(known, Rows(heap.pages))
      requires OneOfEach(all) && heaps == map[] && Loading(homes, v) && Fit(known, homes) && AllIn(homes, v)
      modifies this`tables, this`heaps, scan, heap`pages, heap.store
      ensures scan.Valid() && heap.Settled() && heap.pages == old(heap.pages)
      ensures complete <==> heap.store.Serves(old(heap.store.calls), |heap.chain| - 1)
      ensures forall n :: n in tables ==> n in known && tables[n] == known[n]
      ensures tables == known <==>
              ChainRows(heap.pages, heap.chain, 1 + heap.store.Served(old(heap.store.calls), |heap.chain| - 1)) == []
      ensures Loading(homes, v) && forall n :: n in heaps ==> fresh(heaps[n])
    {
      hide *;
      NothingLoaded();
      ghost var done, rest, c := [], all, heap.store.calls;
      FetchedNone(scan);
      assert done + all == all;
      var more := true;
      while more
        invariant scan.Valid() && scan.current.Some? && scan.heap == heap && scan.Fetched(0, c)
        invariant heap.Settled() && heap.pages == old(heap.pages) && tables == Loaded(done) && done + rest == all
        invariant more ==> !scan.lost && rest == scan.Remaining()
        invariant !more ==> (scan.lost || scan.pos == |heap.chain| - 1) && rest == ChainRows(heap.pages, heap.chain, scan.pos + 1)
        invariant Loading(homes, v) && forall n :: n in heaps ==> fresh(heaps[n])
        decreases more, |rest|
      {
        ghost var from, n := scan.pos, heap.store.calls;
        FetchedSo(scan, c);
        HeapsMean();
        more, done, rest := LoadNext(scan, known, homes, v, all, done, rest);
        FetchedOn(scan, from, c, n);
      }
      Ended(scan, 0, c);
      LoadedExactly(known, Rows(heap.pages), all, done, rest);
      complete := !scan.lost;
    }

    lemma FetchedNone(scan: Scan)
      requires scan.Valid() && !scan.lost && scan.heap == heap && scan.pos == 0
      ensures scan.Fetched(0, heap.store.calls)
    {
    }

    lemma FetchedSo(scan: Scan, c: nat)
      requires scan.heap == heap && scan.Fetched(0, c) && !scan.lost
      ensures heap.store.calls == c + scan.pos && heap.store.Serves(c, scan.pos)
    {
    }

    lemma FetchedOn(scan: Scan, from: nat, c: nat, n: nat)
      requires scan.heap == heap && scan.Fetched(from, n) && n == c + from && heap.store.Serves(c, from)
      ensures scan.Fetched(0, c)
    {
    }

    method LoadNext(scan: Scan, ghost known: Entries, ghost homes: map<Name, Home>, ghost v: Views, ghost all: seq<Row>,
                    ghost done: seq<Row>, ghost rest: seq<Row>)
      returns (more: bool, ghost now: seq<Row>, ghost left: seq<Row>)
      requires scan.Valid() && !scan.lost && scan.current.Some? && scan.heap == heap && tables == Loaded(done)
      requires heap.Settled() && rest == scan.Remaining() && done + rest == all
      requires Lists(all, Rows(heap.pages)) && Corresponds(known, Rows(heap.pages))
      requires Loading(homes, v) && Fit(known, homes) && AllIn(homes, v)
      modifies this`tables, this`heaps, scan, heap`pages, heap.store, Heaps()`pages
      ensures scan.Valid() && scan.current.Some? && scan.Fetched(old(scan.pos), old(heap.store.calls))
      ensures heap.Settled() && heap.pages == old(heap.pages) && tables == Loaded(now) && now + left == all
      ensures more ==> !scan.lost && left == scan.Remaining() && |left| < |rest|
      ensures !more ==> (scan.lost || scan.pos == |heap.chain| - 1) && left == ChainRows(heap.pages, heap.chain, scan.pos + 1)
      ensures Loading(homes, v)
      ensures forall n :: n in heaps ==> fresh(heaps[n]) || (n in old(heaps) && heaps[n] == old(heaps)[n])
    {
      hide *;
      var row := AnotherRow(scan, homes, v);
      if row.None? {
        if !scan.lost {
          NoRowsBeyond();
        }
        return false, done, rest;
      }
      left := scan.Remaining();
      assert done + ([row.value] + left) == done + [row.value] + left;
      assert all[|done|] == row.value;
      RowEntry(known, Rows(heap.pages), all, |done|);
      FitMeans(known, homes);
      InMeans(homes, v);
      ScanEnds(scan);
      LoadRow(row.value, EntryOf(row.value).value.0, homes, v);
      LoadedMore(done, row.value);
      return true, done + [row.value], left;
    }

    lemma NoRowsBeyond()
      ensures ChainRows(heap.pages, heap.chain, |heap.chain|) == []
    {
    }

    /** The next row; the tables loaded before stay usable. */
    method AnotherRow(scan: Scan, ghost homes: map<Name, Home>, ghost v: Views) returns (row: Option<Row>)
      requires scan.Valid() && !scan.lost && scan.current.Some? && scan.heap == heap
      requires heap.Settled() && Loading(homes, v)
      modifies scan, heap`pages, heap.store, Heaps()`pages
      ensures scan.Valid() && scan.current.Some? && scan.Fetched(old(scan.pos), old(heap.store.calls))
      ensures heap.Settled() && heap.pages == old(heap.pages)
      ensures row.Some? ==> !scan.lost && old(scan.Remaining()) == [row.value] + scan.Remaining()
      ensures row.None? ==>
                && (scan.lost || (scan.pos == |heap.chain| - 1 && old(scan.Remaining()) == []))
                && (scan.lost ==> old(scan.Remaining()) == ChainRows(heap.pages, heap.chain, scan.pos + 1))
      ensures Loading(homes, v)
    {
      hide *;
      LoadingMeans(homes, v);
      HeapsMean();
      SeparateMeans();
      ghost var w, before := heap.store.Both(), Homes();
      LoadingIn(homes, v);
      row := scan.Next();
      ScanEnds(scan);
      HeapOpened(heap);
      KeepLoading(before, homes, v, w);
    }

    ghost method KeepLoading(before: map<Name, Home>, homes: map<Name, Home>, v: Views, w: Views)
      requires heap.store.Valid() && Separate() && AllStay(v, w) && AllStay(w, heap.store.Both())
      requires heaps.Keys == tables.Keys == before.Keys && heaps.Keys <= homes.Keys
      requires forall n :: n in heaps ==>
                 heaps[n].AsHome() == before[n] && HomeIn(before[n], w) && StillHome(homes[n], v, before[n], w)
      modifies Heaps()`pages
      ensures Loading(homes, v)
    {
      hide *;
      SeparateMeans();
      HeapsMean();
      UntouchedNow(before);
      NothingOwn(w, heap.store.Both());
      AllStayTrans(v, w, heap.store.Both());
      RefreshAll(heaps.Keys, before, w, {});
      UsableTwice(before, homes, v, w);
      LoadingMeans(homes, v);
    }

    lemma LoadingIn(homes: map<Name, Home>, v: Views)
      requires Loading(homes, v)
      ensures forall n :: n in heaps ==>
                StillHome(homes[n], v, Homes()[n], heap.store.Both()) && HomeIn(Homes()[n], heap.store.Both())
    {
      hide HomeIn;
      hide HomeSettled;
      hide SameHome;
      hide AllStay;
      hide TableHeap.AsHome;
    }

    lemma UsableTwice(before: map<Name, Home>, homes: map<Name, Home>, v: Views, w: Views)
      requires heaps.Keys <= before.Keys && heaps.Keys <= homes.Keys
      requires forall n :: n in heaps ==> StillHome(homes[n], v, before[n], w) && Usable(heaps[n], before[n], w)
      ensures forall n :: n in heaps ==> Usable(heaps[n], homes[n], v)
    {
      hide HomeIn;
      hide HomeSettled;
      hide SameHome;
      hide TableHeap.AsHome;
      forall n | n in heaps
        ensures Usable(heaps[n], homes[n], v)
      {
        SameHomeTrans(homes[n], before[n], heaps[n].AsHome());
      }
    }

    /** Enters one row into the map, with a heap from the page in the row on. */
    method LoadRow(x: Row, ghost name: Name, ghost homes: map<Name, Home>, ghost v: Views)
      requires EntryOf(x).Some? && EntryOf(x).value.0 == name && Loading(homes, v)
      requires name in homes && HomeIn(homes[name], v) && homes[name].first == EntryOf(x).value.1.first
      requires heap.Ready()
      modifies this`tables, this`heaps
      ensures tables == old(tables)[name := EntryOf(x).value.1]
      ensures Loading(homes, v)
      ensures forall n :: n in heaps ==> fresh(heaps[n]) || (n in old(heaps) && heaps[n] == old(heaps)[n])
    {
      hide *;
      LoadingMeans(homes, v);
      SeparateMeans();
      EntryIs(x);
      ghost var now := Refreshed(homes[name], v, heap.store.Both());
      NowHome(homes[name], v);
      var values := Deserialize(CATALOG_SCHEMA, x.1);
      var columns := DeserializeSchema(values[2].s);
      var e := Entry(x.0, values[1].u, columns.value);
      var table := new TableHeap(heap.store, e.first, now.chain, now.pages, now.backed);
      table.AtHome();
      HomeOf(table);
      UsableNow(table, homes[name], v);
      tables := tables[values[0].s := e];
      heaps := heaps[values[0].s := table];
      SeparateMeans();
      LoadingMeans(homes, v);
    }

    lemma NowHome(home: Home, v: Views)
      requires HomeIn(home, v) && AllStay(v, heap.store.Both())
      ensures var now := Refreshed(home, v, heap.store.Both());
              && HomeIn(now, heap.store.Both()) && SameHome(home, now)
              && (HomeSettled(home, v) ==> HomeSettled(now, heap.store.Both()))
              && Represents(heap.store.pages, now.pages) && Represents(heap.store.kept, now.backed)
              && SameShape(now.pages, now.backed) && IsChain(now.pages, now.chain) && now.chain[0] == now.first == home.first
    {
      hide Represents;
      hide IsChain;
      hide SameShape;
      hide AllAkin;
      HomeKeys(home, v);
      RefreshedHome(home, v, heap.store.Both());
    }

    // ----- Work on a table -----

    /** A record of `n` bytes gets a place on the pages of the chain or behind them. */
    ghost predicate Places(chain: seq<nat>, n: nat)
      reads heap.store
    {
      && n <= MAX_TUPLE
      && heap.store.Serves(heap.store.calls, CallsTo(Landing(heap.store.pages, chain, INVALID_PAGE_ID, 0, n), |chain|))
    }

    lemma PlacesMeans(table: TableHeap, n: nat)
      requires table.store == heap.store
      ensures Places(table.chain, n) <==>
              && n <= MAX_TUPLE
              && heap.store.Serves(heap.store.calls, CallsTo(table.Lands(INVALID_PAGE_ID, n), |table.chain|))
    {
    }

    /** Adds a row to a table; nothing else changes but that pages may leave their frames. */
    method InsertInto(name: Name, t: seq<byte>) returns (r: InsertResult)
      requires Valid() && name in heaps && heap.store.CanAllocate()
      modifies heaps[name], heap.store, Heaps()`pages
      ensures name in heaps && heaps[name] == old(heaps[name])
      ensures r.TooLarge? <==> |t| > MAX_TUPLE
      ensures old(heaps[name].Settled()) ==> heaps[name].Settled() && (r.Inserted? <==> old(Places(heaps[name].chain, |t|)))
      ensures old(heaps[name].Settled()) && r.Inserted? ==>
                && r.rid == old(heaps[name].Target(heaps[name].Lands(INVALID_PAGE_ID, |t|)))
                && r.rid !in Rows(old(heaps[name].pages))
                && Rows(heaps[name].pages) == Rows(old(heaps[name].pages))[r.rid := t]
      ensures old(heaps[name].Settled()) && !r.Inserted? ==> Rows(heaps[name].pages) == Rows(old(heaps[name].pages))
      ensures Kept(old(Homes()) - {name}, old(heap.store.Both()))
      ensures heap.pages == old(heap.pages) && Valid()
    {
      hide *;
      var table := heaps[name];
      TableOpened(name, table);
      PlacesMeans(table, |t|);
      ghost var v, homes, a := heap.store.Both(), Homes(), table.Now();
      ghost var found;
      r, found := table.Insert(t);
      UsedTable(table);
      GrownOthers(a, table.Now());
      GrownJoins(a, table.Now());
      Resume(name, homes, v, table.pages.Keys);
      UsedTable(table);
    }

    /** What work on a table starts from. */
    lemma TableOpened(name: Name, table: TableHeap)
      requires Valid() && name in heaps && heaps[name] == table
      ensures table.Ready() && table != heap && table.store == heap.store
      ensures table.Now() == State(heap.store.Both(), table.pages, table.backed)
      ensures Separate() && Fit(tables, Homes()) && AllIn(Homes(), heap.store.Both()) && Disjoint(Homes(), heap.pages.Keys)
      ensures HomeIn(heap.AsHome(), heap.store.Both()) && HomeSettled(heap.AsHome(), heap.store.Both())
      ensures Corresponds(tables, Rows(heap.pages)) && Homes()[name] == Home(table.first, table.chain, table.pages, table.backed)
      ensures heap.AsHome() == Home(heap.first, heap.chain, heap.pages, heap.backed)
      ensures forall n :: n in heaps && n != name ==> heaps[n] != table
    {
      hide *;
      ValidMeans();
      SeparateMeans();
      TableReady(name);
      SoundMeans();
      HeapOpened(table);
      HomeOf(table);
      HomeOf(heap);
      heap.AtHome();
    }

    lemma UsedTable(table: TableHeap)
      ensures table.AsHome() == Home(table.first, table.chain, table.pages, table.backed)
      ensures table.Ready() ==> table.store.Valid() && table.Now() == State(table.store.Both(), table.pages, table.backed)
      ensures table.Settled() <==> HomeSettled(table.AsHome(), table.store.Both())
    {
      hide *;
      if table.Ready() {
        HeapOpened(table);
      }
      HomeOf(table);
      table.AtHome();
    }

    /** Makes the catalog whole again after work on one table that left the pages of the others alone. */
    ghost method Resume(name: Name, homes: map<Name, Home>, v: Views, own: set<nat>)
      requires name in heaps && heaps[name].Ready() && Separate() && homes.Keys == heaps.Keys && own == heaps[name].pages.Keys
      requires forall n :: n in heaps && n != name ==> heaps[n].AsHome() == homes[n]
      requires heaps[name].first == homes[name].first && Fit(tables, homes)
      requires HomeIn(heap.AsHome(), v) && HomeSettled(heap.AsHome(), v) && Corresponds(tables, Rows(heap.pages))
      requires AllIn(homes, v) && Disjoint(homes, heap.pages.Keys) && OthersStay(v, heap.store.Both(), homes[name].pages.Keys)
      requires forall p :: p in v.shown && p !in homes[name].pages ==> p !in own
      modifies Heaps()`pages
      ensures Valid() && Kept(homes - {name}, v) && heaps[name].AsHome() == old(heaps[name].AsHome()) && heap.pages == old(heap.pages)
    {
      hide *;
      SeparateMeans();
      HeapOpened(heaps[name]);
      HomeOf(heap);
      ghost var others, was := heaps.Keys - {name}, homes[name].pages.Keys;
      OthersApart(homes, name, heap.pages.Keys, heap.pages.Keys + was, v);
      OwnSettled(v, was, homes, name);
      OthersUntouched(others, homes);
      HeapsMean();
      RefreshAll(others, homes, v, was);
      heaps[name].AtHome();
      HomeOf(heaps[name]);
      NewKeysApart(name, homes, heap.pages.Keys, v, own);
      Rearranged(name, homes, v, heap.pages.Keys);
      KeptMeans(homes - {name}, v);
      SoundMeans();
      ValidMeans();
    }

    /** The catalog's own heap has nothing to lose when other heaps are worked on. */
    lemma OwnSettled(v: Views, was: set<nat>, homes: map<Name, Home>, name: Name)
      requires HomeIn(heap.AsHome(), v) && HomeSettled(heap.AsHome(), v) && OthersStay(v, heap.store.Both(), was)
      requires heap.store.Valid() && Disjoint(homes, heap.pages.Keys) && name in homes && was == homes[name].pages.Keys
      ensures heap.Ready() && heap.Settled() && heap.pages.Keys <= v.shown.Keys
    {
      hide HomeIn;
      hide HomeSettled;
      hide OthersStay;
      hide PageStore.Valid;
      hide TableHeap.Ready;
      hide TableHeap.Settled;
      HomeKeys(heap.AsHome(), v);
      HomeStays(heap.AsHome(), v, heap.store.Both(), was);
      RefreshedHome(heap.AsHome(), v, heap.store.Both());
      heap.AtHome();
    }

    lemma Rearranged(name: Name, homes: map<Name, Home>, v: Views, mine: set<nat>)
      requires homes.Keys == heaps.Keys && name in heaps && Fit(tables, homes) && Disjoint(homes, mine) && Separate()
      requires forall n :: n in heaps && n != name ==> Usable(heaps[n], homes[n], v)
      requires HomeIn(heaps[name].AsHome(), heap.store.Both()) && heaps[name].first == homes[name].first
      requires var own := heaps[name].pages.Keys;
               own !! mine && forall n :: n in homes && n != name ==> own !! homes[n].pages.Keys
      ensures Disjoint(Homes(), mine) && Fit(tables, Homes()) && AllIn(Homes(), heap.store.Both())
    {
      hide *;
      StillThose(name, homes, v);
      HomeOf(heaps[name]);
      OneReplaced(name, homes, Homes(), mine, heap.store.Both());
    }

    lemma StillThose(name: Name, homes: map<Name, Home>, v: Views)
      requires homes.Keys == heaps.Keys && Separate()
      requires forall n :: n in heaps && n != name ==> Usable(heaps[n], homes[n], v)
      ensures forall n :: n in heaps && n != name ==>
                && HomeIn(Homes()[n], heap.store.Both()) && Homes()[n].pages.Keys == homes[n].pages.Keys
                && Homes()[n].first == homes[n].first
    {
      hide HomeIn;
      hide HomeSettled;
    }

    lemma OneReplaced(name: Name, homes: map<Name, Home>, now: map<Name, Home>, mine: set<nat>, w: Views)
      requires now.Keys == homes.Keys && name in homes && Fit(tables, homes) && Disjoint(homes, mine) && HomeIn(now[name], w)
      requires forall n :: n in homes && n != name ==>
                 HomeIn(now[n], w) && now[n].pages.Keys == homes[n].pages.Keys && now[n].first == homes[n].first
      requires now[name].first == homes[name].first && now[name].pages.Keys !! mine
      requires forall n :: n in homes && n != name ==> now[name].pages.Keys !! homes[n].pages.Keys
      ensures Disjoint(now, mine) && Fit(tables, now) && AllIn(now, w)
    {
      hide HomeIn;
      hide Disjoint;
      OneMoved(name, homes, now, mine);
    }

    // ----- Runs -----

    /** The tables as their clients see them. */
    ghost function Database(): Database
      reads this, Heaps()
    {
      ContentsOf(tables, Homes())
    }

    /** No table but `lost` has a change that was not saved. */
    ghost predicate SettledBut(lost: set<Name>)
      reads this`heaps, Heaps(), heap.store
    {
      forall n :: n in heaps && n !in lost ==> HomeSettled(Homes()[n], heap.store.Both())
    }

    /** The command will have its effect: it makes sense, and the calls it takes go through. */
    ghost predicate Works(c: Command)
      reads this, heap, heap.store, Heaps()
    {
      match c
      case Create(name, columns) => Creates(name, columns)
      case Drop(name) => name in heaps && heap.store.Serves(heap.store.calls, 2)
      case Put(name, t) => name in heaps && Places(heaps[name].chain, |t|)
    }

    lemma WorksMeans(c: Command)
      ensures Works(c) <==>
              match c
              case Create(name, columns) => Creates(name, columns)
              case Drop(name) => name in heaps && heap.store.Serves(heap.store.calls, 2)
              case Put(name, t) => name in heaps && Places(heaps[name].chain, |t|)
    {
    }

    /** No call is ever refused. */
    ghost predicate Unrefused() {
      forall n :: !heap.store.starved(n)
    }

    lemma UnrefusedMeans()
      ensures Unrefused() ==> forall from, count :: heap.store.Serves(from, count)
    {
    }

    /** Then exactly the commands that make sense have their effect. */
    lemma WorksGoes(c: Command)
      requires Valid() && Unrefused()
      ensures Works(c) <==> Goes(Database(), c)
    {
      hide Valid;
      Whole();
      InView({});
      GoesIs(tables, Homes(), c);
      hide Goes;
      hide RowSize;
      hide ContentsOf;
    }

    /** One call. The table of a drop that could not read the pages is `lost`: no row has it any more. */
    method Perform(c: Command) returns (o: Outcome, lost: set<Name>)
      requires Valid() && heap.store.nextId + 1 < INVALID_PAGE_ID && (c.Create? ==> Storable(0, c.columns))
      modifies this`tables, this`heaps, heap, heap.store, Heaps()
      ensures forall h :: h in Heaps() ==> fresh(h) || h in old(Heaps())
      ensures lost == {} || (c.Drop? && lost == {c.name} && o.Took?)
      ensures c.Drop? ==>
                (lost == {} <==>
                 o.Stayed? || heap.store.Serves(old(heap.store.calls), if c.name in old(heaps) then 2 + |old(heaps)[c.name].chain| else 2))
      ensures (!c.Put? || old(SettledBut({}))) ==> (o.Stayed? <==> !old(Works(c)))
      ensures old(SettledBut({})) ==>
                SettledBut(lost) && Database() - lost == Effect(old(Database()), c, o) && Lawful(old(Database()), c, o)
      ensures Valid() <==> lost == {}
      ensures ValidBut(lost)
    {
      hide *;
      lost := {};
      match c {
        case Create(_, _) => o := PerformCreate(c);
        case Drop(_) => o, lost := PerformDrop(c);
        case Put(_, _) => o := PerformPut(c);
      }
    }

    method PerformCreate(c: Command) returns (o: Outcome)
      requires c.Create? && Valid() && heap.store.nextId + 1 < INVALID_PAGE_ID && Storable(0, c.columns)
      modifies this`tables, this`heaps, heap, heap.store, Heaps()
      ensures forall h :: h in Heaps() ==> fresh(h) || h in old(Heaps())
      ensures (o.Stayed? <==> !old(Works(c)))
      ensures old(SettledBut({})) ==>
                SettledBut({}) && Database() - {} == Effect(old(Database()), c, o) && Lawful(old(Database()), c, o)
      ensures Valid() && ValidBut({})
    {
      hide *;
      ghost var v, homes, before := heap.store.Both(), Homes(), tables;
      Whole();
      InView({});
      WorksMeans(c);
      CreatesMeans(c.name, c.columns);
      RowLimit(RowSize(c.name, c.columns));
      o := TryCreate(c, homes, v);
      Whole();
      InView({});
      KeptSettled(homes, v);
      if old(SettledBut({})) {
        AlikeIs(before, homes, tables, Homes(), before.Keys);
        CreateSeen(before, homes, tables, Homes(), c, o);
      }
    }

    lemma RowLimit(n: nat)
      ensures forall from :: RowGoesIn(n, from) ==> n <= MAX_TUPLE
    {
    }

    method TryCreate(c: Command, ghost homes: map<Name, Home>, ghost v: Views) returns (o: Outcome)
      requires c.Create? && heap.store.nextId + 1 < INVALID_PAGE_ID && Storable(0, c.columns)
      requires Valid() && homes == Homes() && v == heap.store.Both()
      modifies this`tables, this`heaps, heap, heap.store, Heaps()`pages
      ensures !o.Stored? && (o.Stayed? ==> tables == old(tables) && heaps == old(heaps))
      ensures (o.Took? <==> old(Creates(c.name, c.columns)))
      ensures o.Took? ==>
                && c.name !in old(tables) && c.name in tables && tables == old(tables)[c.name := tables[c.name]]
                && c.name in heaps && heaps == old(heaps)[c.name := heaps[c.name]] && fresh(heaps[c.name])
                && tables[c.name].columns == c.columns && Rows(heaps[c.name].AsHome().pages) == imap[]
                && HomeSettled(heaps[c.name].AsHome(), heap.store.Both())
      ensures forall h :: h in Heaps() ==> fresh(h) || h in old(Heaps())
      ensures Kept(homes, v)
      ensures Valid()
    {
      hide *;
      HeapsMean();
      var r := CreateTable(c.name, c.columns);
      o := if r.Created? then Took else Stayed;
      HeapsMean();
      if r.Created? {
        ValidMeans();
        SeparateMeans();
        heaps[c.name].AtHome();
        HomeOf(heaps[c.name]);
      }
    }

    method PerformDrop(c: Command) returns (o: Outcome, lost: set<Name>)
      requires c.Drop? && Valid()
      modifies this`tables, this`heaps, heap, heap.store, Heaps()
      ensures forall h :: h in Heaps() ==> fresh(h) || h in old(Heaps())
      ensures lost == {} || (lost == {c.name} && o.Took?)
      ensures lost == {} <==>
              o.Stayed? || heap.store.Serves(old(heap.store.calls), if c.name in old(heaps) then 2 + |old(heaps)[c.name].chain| else 2)
      ensures (o.Stayed? <==> !old(Works(c)))
      ensures old(SettledBut({})) ==>
                SettledBut(lost) && Database() - lost == Effect(old(Database()), c, o) && Lawful(old(Database()), c, o)
      ensures Valid() <==> lost == {}
      ensures ValidBut(lost)
    {
      hide *;
      ghost var v, homes, before := heap.store.Both(), Homes(), tables;
      Whole();
      InView({});
      WorksMeans(c);
      o, lost := TryDrop(c, homes, v);
      Whole();
      InView(lost);
      KeptSettled(homes - {c.name}, v);
      if o.Stayed? {
        KeptSettled(homes, v);
      }
      if old(SettledBut({})) {
        AlikeIs(before, homes, tables, Homes(), if o.Took? then before.Keys - {c.name} else before.Keys);
        DropSeen(before, homes, tables, Homes(), c, o, lost);
      }
    }

    method TryDrop(c: Command, ghost homes: map<Name, Home>, ghost v: Views) returns (o: Outcome, lost: set<Name>)
      requires c.Drop? && Valid() && homes == Homes() && v == heap.store.Both()
      modifies this`tables, this`heaps, heap`pages, heap`backed, heap.store, Heaps()`pages
      ensures !o.Stored? && (o.Stayed? ==> Kept(homes, v) && tables == old(tables) && heaps == old(heaps) && lost == {})
      ensures o.Took? <==> c.name in old(heaps) && heap.store.Serves(old(heap.store.calls), 2)
      ensures o.Took? ==>
                c.name in old(heaps) && (lost == {} <==> heap.store.Serves(old(heap.store.calls), 2 + |old(heaps)[c.name].chain|))
      ensures o.Took? ==> c.name in old(tables) && lost <= {c.name}
      ensures o.Took? ==>
                if lost == {} then tables == old(tables) - {c.name} && heaps == old(heaps) - {c.name}
                else tables == old(tables) && heaps == old(heaps)
      ensures Heaps() <= old(Heaps())
      ensures Kept(homes - {c.name}, v)
      ensures Valid() <==> lost == {}
      ensures lost != {} ==> ValidBut(lost)
    {
      hide *;
      HeapsMean();
      var r := DropTable(c.name);
      o := if r.NotDropped? then Stayed else Took;
      lost := if r.PagesUnread? then {c.name} else {};
      HeapsMean();
    }

    method PerformPut(c: Command) returns (o: Outcome)
      requires c.Put? && Valid() && heap.store.nextId + 1 < INVALID_PAGE_ID
      modifies this`tables, this`heaps, heap, heap.store, Heaps()
      ensures forall h :: h in Heaps() ==> fresh(h) || h in old(Heaps())
      ensures old(SettledBut({})) ==>
                && (o.Stayed? <==> !old(Works(c)))
                && SettledBut({}) && Database() - {} == Effect(old(Database()), c, o) && Lawful(old(Database()), c, o)
      ensures Valid() && ValidBut({})
    {
      hide *;
      ghost var v, homes, before := heap.store.Both(), Homes(), tables;
      Whole();
      InView({});
      WorksMeans(c);
      o := Stayed;
      if c.name in heaps {
        o := PutKnown(c, heaps[c.name], homes[c.name], homes - {c.name}, v);
        Whole();
        InView({});
        KeptSettled(homes - {c.name}, v);
      }
      if old(SettledBut({})) {
        AlikeIs(before, homes, tables, Homes(), before.Keys - {c.name});
        PutSeen(before, homes, tables, Homes(), c, o);
      }
    }

    method PutKnown(c: Command, table: TableHeap, ghost home: Home, ghost homes: map<Name, Home>, ghost v: Views)
      returns (o: Outcome)
      requires c.Put? && c.name in heaps && heaps[c.name] == table && home == table.AsHome()
      requires heap.store.nextId + 1 < INVALID_PAGE_ID && v == heap.store.Both() && homes == Homes() - {c.name}
      requires Valid()
      modifies heap.store, Heaps()
      ensures !o.Took? && (o.Stored? ==> |c.tuple| <= MAX_TUPLE)
      ensures HomeSettled(home, v) ==>
                && (o.Stored? <==> old(Places(table.chain, |c.tuple|)))
                && HomeSettled(table.AsHome(), heap.store.Both())
                && (o.Stored? ==> o.rid !in Rows(home.pages))
                && Rows(table.AsHome().pages) == if o.Stored? then Rows(home.pages)[o.rid := c.tuple] else Rows(home.pages)
      ensures Kept(homes, v)
      ensures Valid()
    {
      hide *;
      Allocates();
      HeapsMean();
      TableOpened(c.name, table);
      UsedTable(table);
      var r := InsertInto(c.name, c.tuple);
      o := if r.Inserted? then Stored(r.rid) else Stayed;
      UsedTable(table);
    }

    lemma Allocates()
      requires heap.store.nextId + 1 < INVALID_PAGE_ID
      ensures heap.store.CanAllocate()
    {
    }

    lemma InView(lost: set<Name>)
      ensures Database() == ContentsOf(tables, Homes())
      ensures SettledBut(lost) <==> forall n :: n in heaps && n !in lost ==> HomeSettled(Homes()[n], heap.store.Both())
      ensures forall n :: n in heaps ==> heaps[n] in Heaps() && Homes()[n].pages == heaps[n].pages
      ensures Database() - {} == Database()
      ensures ValidBut(lost) ==> heaps.Keys == tables.Keys
    {
    }

    lemma Whole()
      ensures Valid() <==> ValidBut({}) && Separate()
    {
      hide *;
      assert tables - {} == tables && Homes() - {} == Homes();
      ValidMeans();
      ButMeans({});
      SoundMeans();
      if Fit(tables, Homes()) {
        FitMeans(tables, Homes());
      }
    }

    /** A table that had nothing unsaved has the pages it had. */
    lemma KeptSettled(homes: map<Name, Home>, v: Views)
      requires Kept(homes, v)
      ensures forall n :: n in homes ==> n in heaps
      ensures forall n :: n in homes && HomeSettled(homes[n], v) ==>
                Homes()[n].pages == homes[n].pages && HomeSettled(Homes()[n], heap.store.Both())
    {
      hide HomeIn;
      hide AllAkin;
    }

    /**
     * Any sequence of calls. The tables a client sees are what the calls make one after another, each with the outcome
     * it had; the run ends early only after a drop that could not read the pages, or when the page ids run out.
     */
    method Run(commands: seq<Command>) returns (outcomes: seq<Outcome>, lost: set<Name>)
      requires Valid() && forall c :: c in commands && c.Create? ==> Storable(0, c.columns)
      modifies this`tables, this`heaps, heap, heap.store, Heaps()
      ensures |outcomes| <= |commands|
      ensures |outcomes| < |commands| ==> lost != {} || heap.store.nextId + 1 >= INVALID_PAGE_ID
      ensures lost == {} || (outcomes != [] && commands[|outcomes| - 1].Drop? && lost == {commands[|outcomes| - 1].name})
      ensures old(SettledBut({})) ==>
                SettledBut(lost) && Happened(old(Database()), commands[..|outcomes|], outcomes, Database() - lost)
      ensures old(SettledBut({})) && Unrefused() ==>
                lost == {} && AllWent(old(Database()), commands[..|outcomes|], outcomes)
      ensures forall h :: h in Heaps() ==> fresh(h) || h in old(Heaps())
      ensures Valid() <==> lost == {}
      ensures ValidBut(lost)
    {
      hide *;
      outcomes, lost := [], {};
      Whole();
      InView({});
      NothingHappened(Database());
      while |outcomes| < |commands| && lost == {} && heap.store.nextId + 1 < INVALID_PAGE_ID
        invariant |outcomes| <= |commands| && ValidBut(lost) && (Valid() <==> lost == {})
        invariant lost == {} || (outcomes != [] && commands[|outcomes| - 1].Drop? && lost == {commands[|outcomes| - 1].name})
        invariant forall h :: h in Heaps() ==> fresh(h) || h in old(Heaps())
        invariant old(SettledBut({})) ==>
                    SettledBut(lost) && Happened(old(Database()), commands[..|outcomes|], outcomes, Database() - lost)
        invariant old(SettledBut({})) && Unrefused() ==>
                    lost == {} && AllWent(old(Database()), commands[..|outcomes|], outcomes)
        decreases |commands| - |outcomes|
      {
        ghost var db := Database();
        var c := commands[|outcomes|];
        InView({});
        if Unrefused() {
          WorksGoes(c);
        }
        var o;
        o, lost := Perform(c);
        UnrefusedMeans();
        if old(SettledBut({})) {
          OneMoreHappened(old(Database()), commands, outcomes, db, o);
        }
        outcomes := outcomes + [o];
      }
    }

    /**
     * Loads the map anew from the heap, as at the next start. The new catalog is good, and has every table but `lost`
     * with the records it had, exactly when no rows lie beyond the first page that is refused.
     */
    method Reload(ghost lost: set<Name>) returns (c: Catalog, complete: bool)
      requires ValidBut(lost)
      modifies heap`pages, heap.store
      ensures fresh(c) && c.heap == heap
      ensures heap.Ready() && heap.Settled() && heap.pages == old(heap.pages)
      ensures complete <==> heap.store.Serves(old(heap.store.calls), |heap.chain|)
      ensures c.Valid() <==>
              ChainRows(heap.pages, heap.chain, heap.store.Served(old(heap.store.calls), |heap.chain|)) == []
      ensures c.Valid() && old(SettledBut(lost)) ==> c.SettledBut({}) && c.Database() == old(Database()) - lost
      ensures c.Valid() <==> c.tables == tables - lost
      ensures Unrefused() ==> complete && c.Valid()
      ensures forall n :: n in c.heaps ==> fresh(c.heaps[n])
    {
      hide *;
      NoRowsBeyond();
      AllServed(heap.store.calls, |heap.chain|);
      ButMeans(lost);
      InView(lost);
      ghost var homes, v, known := Homes() - lost, heap.store.Both(), tables - lost;
      ContentsBut(tables, Homes(), lost);
      c := new Catalog(heap);
      complete := c.LoadExistingTables(known, homes);
      if c.Valid() {
        c.Reborn(known, homes, v);
      }
    }

    lemma AllServed(from: nat, count: nat)
      ensures Unrefused() ==> heap.store.Served(from, count) == count && heap.store.Serves(from, count)
    {
      UnrefusedMeans();
    }

    /** A run, and then a restart that reads every row: no call's effect is lost, not even that of a drop cut short. */
    method RunAndReload(commands: seq<Command>) returns (c: Catalog, outcomes: seq<Outcome>)
      requires Valid() && SettledBut({}) && forall c :: c in commands && c.Create? ==> Storable(0, c.columns)
      modifies this`tables, this`heaps, heap, heap.store, Heaps()
      ensures fresh(c) && |outcomes| <= |commands|
      ensures c.Valid() ==> Happened(old(Database()), commands[..|outcomes|], outcomes, c.Database())
      ensures Unrefused() ==> c.Valid() && AllWent(old(Database()), commands[..|outcomes|], outcomes)
    {
      hide *;
      var lost, complete;
      outcomes, lost := Run(commands);
      c, complete := Reload(lost);
    }

    /** What is loaded whole has the records it had. */
    lemma Reborn(known: Entries, homes: map<Name, Home>, v: Views)
      requires Valid() && tables == known && homes.Keys == known.Keys
      requires forall n :: n in heaps ==> Usable(heaps[n], homes[n], v)
      ensures (forall n :: n in homes ==> HomeSettled(homes[n], v)) ==>
                SettledBut({}) && Database() == ContentsOf(known, homes)
    {
      hide *;
      Whole();
      SeparateMeans();
      InView({});
      UsedSettled(homes, v);
      if forall n :: n in homes ==> HomeSettled(homes[n], v) {
        SameContents(known, homes, Homes());
      }
    }

    lemma UsedSettled(homes: map<Name, Home>, v: Views)
      requires Separate() && heaps.Keys <= homes.Keys && forall n :: n in heaps ==> Usable(heaps[n], homes[n], v)
      ensures forall n :: n in heaps && HomeSettled(homes[n], v) ==>
                Homes()[n].pages == homes[n].pages && HomeSettled(Homes()[n], heap.store.Both())
    {
      hide HomeIn;
      hide AllAkin;
    }
  }
}
