/** The cursor over a heap: every live record once, page by page along the chain, slot by slot on a page. */
module HeapScan {
  import opened Bytes
  import opened SlottedLayout
  import opened SlottedPages
  import opened PageStores
  import opened HeapModel
  import opened HeapStates
  import opened TableHeaps

  type Row = (RID, seq<byte>)

  /** The records of one page from slot `from` on. */
  function PageRows(p: Page, id: nat, from: nat): seq<Row>
    decreases if from < p.slots then p.slots - from else 0
  {
    if from >= p.slots then []
    else if from in p.rows then [(RID(id, from), p.rows[from])] + PageRows(p, id, from + 1)
    else PageRows(p, id, from + 1)
  }

  function RowsFrom(h: Pages, id: nat, from: nat): seq<Row> {
    if id in h then PageRows(h[id], id, from) else []
  }

  /** The records of the pages from position `i` of the chain on. */
  ghost function ChainRows(h: Pages, chain: seq<nat>, i: nat): seq<Row>
    decreases if i < |chain| then |chain| - i else 0
  {
    if i >= |chain| then [] else RowsFrom(h, chain[i], 0) + ChainRows(h, chain, i + 1)
  }

  // ----- Every live record exactly once -----

  lemma {:induction false} PageRowsExact(p: Page, id: nat, from: nat)
    ensures forall x :: x in PageRows(p, id, from) <==>
                          x.0.page == id && from <= x.0.slot < p.slots && x.0.slot in p.rows && x.1 == p.rows[x.0.slot]
    ensures forall i, j :: 0 <= i < j < |PageRows(p, id, from)| ==>
                             PageRows(p, id, from)[i].0.slot < PageRows(p, id, from)[j].0.slot
    decreases if from < p.slots then p.slots - from else 0
  {
    if from < p.slots {
      PageRowsExact(p, id, from + 1);
      var rest := PageRows(p, id, from + 1);
      assert forall j :: 0 <= j < |rest| ==> rest[j] in rest;
    }
  }

  ghost predicate Housed(h: Pages) {
    forall id, s :: id in h && s in h[id].rows ==> s < h[id].slots
  }

  lemma {:induction false} ChainRowsMember(h: Pages, chain: seq<nat>, i: nat, x: Row)
    requires forall k :: i <= k < |chain| ==> chain[k] in h
    requires Housed(h)
    ensures x in ChainRows(h, chain, i) <==>
            x.0.page in chain[if i <= |chain| then i else |chain|..] && x.0 in Rows(h) && Rows(h)[x.0] == x.1
    decreases if i < |chain| then |chain| - i else 0
  {
    if i < |chain| {
      PageRowsExact(h[chain[i]], chain[i], 0);
      ChainRowsMember(h, chain, i + 1, x);
      assert chain[i..] == [chain[i]] + chain[i + 1..];
    }
  }

  lemma {:induction false} ChainRowsDistinct(h: Pages, chain: seq<nat>, i: nat, a: nat, b: nat)
    requires forall k :: i <= k < |chain| ==> chain[k] in h
    requires Housed(h) && Distinct(chain)
    requires a < b < |ChainRows(h, chain, i)|
    ensures ChainRows(h, chain, i)[a].0 != ChainRows(h, chain, i)[b].0
    decreases if i < |chain| then |chain| - i else 0
  {
    var here, rest := PageRows(h[chain[i]], chain[i], 0), ChainRows(h, chain, i + 1);
    PageRowsExact(h[chain[i]], chain[i], 0);
    if a >= |here| {
      ChainRowsDistinct(h, chain, i + 1, a - |here|, b - |here|);
    } else if b >= |here| {
      assert here[a] in here;
      var x := rest[b - |here|];
      assert x in rest;
      ChainRowsMember(h, chain, i + 1, x);
    }
  }

  /** The full enumeration lists each live record of the heap once, with its bytes. */
  lemma ScanIsExact(h: Pages, chain: seq<nat>)
    requires IsChain(h, chain) && Housed(h)
    ensures forall x :: x in ChainRows(h, chain, 0) <==> x.0 in Rows(h) && Rows(h)[x.0] == x.1
    ensures forall a, b :: 0 <= a < b < |ChainRows(h, chain, 0)| ==>
                             ChainRows(h, chain, 0)[a].0 != ChainRows(h, chain, 0)[b].0
  {
    assert chain[0..] == chain;
    forall x: Row
      ensures x in ChainRows(h, chain, 0) <==> x.0 in Rows(h) && Rows(h)[x.0] == x.1
    {
      ChainRowsMember(h, chain, 0, x);
      RowsHome(h, x.0);
    }
    forall a, b | 0 <= a < b < |ChainRows(h, chain, 0)|
      ensures ChainRows(h, chain, 0)[a].0 != ChainRows(h, chain, 0)[b].0
    {
      ChainRowsDistinct(h, chain, 0, a, b);
    }
  }

  /** One record comes before the other: on an earlier page of the chain, or in a lower slot of the same page. */
  ghost predicate Before(chain: seq<nat>, a: RID, b: RID) {
    exists i, j :: 0 <= i <= j < |chain| && chain[i] == a.page && chain[j] == b.page && (i < j || a.slot < b.slot)
  }

  /** The records come in the order of the chain, on each page in the order of the slots. */
  lemma {:induction false} ScanInOrder(h: Pages, chain: seq<nat>, i: nat, a: nat, b: nat)
    requires forall k :: i <= k < |chain| ==> chain[k] in h
    requires Housed(h) && a < b < |ChainRows(h, chain, i)|
    ensures Before(chain, ChainRows(h, chain, i)[a].0, ChainRows(h, chain, i)[b].0)
    decreases if i < |chain| then |chain| - i else 0
  {
    var rows, here, rest := ChainRows(h, chain, i), PageRows(h[chain[i]], chain[i], 0), ChainRows(h, chain, i + 1);
    PageRowsExact(h[chain[i]], chain[i], 0);
    if a >= |here| {
      ScanInOrder(h, chain, i + 1, a - |here|, b - |here|);
    } else {
      assert here[a] in here && chain[i] == rows[a].0.page;
      if b >= |here| {
        var x := rest[b - |here|];
        assert x in rest;
        ChainRowsMember(h, chain, i + 1, x);
        var j :| i + 1 <= j < |chain| && chain[j] == x.0.page;
      } else {
        assert here[b] in here;
      }
    }
  }

  // ----- Skipping empty slots -----

  lemma {:induction false} SkipEmpty(p: Page, id: nat, from: nat, to: nat)
    requires from <= to && forall s :: from <= s < to ==> s !in p.rows
    ensures PageRows(p, id, from) == PageRows(p, id, to)
    decreases if from < to then to - from else 0
  {
    if from < to && from < p.slots {
      SkipEmpty(p, id, from + 1, to);
    }
  }

  /** The page has no record from `from` on until `to`. */
  ghost predicate Gap(p: Page, from: nat, to: nat) {
    from <= to && forall s :: from <= s < to ==> s !in p.rows
  }

  lemma LiveRows(p: Image)
    requires SlottedLayout.Valid(p)
    ensures SlotCount(p) <= MAX_SLOTS
    ensures forall s: nat :: Live(LayoutOf(p), s) <==> s in Contents(p)
    ensures forall s :: s in Contents(p) ==> s < SlotCount(p)
  {
  }

  lemma HeadRow(p: Page, id: nat, s: nat)
    requires s in p.rows && s < p.slots
    ensures PageRows(p, id, s) == [(RID(id, s), p.rows[s])] + PageRows(p, id, s + 1)
  {
  }

  lemma Drained(p: Page, id: nat, from: nat)
    requires forall s :: from <= s ==> s !in p.rows
    ensures PageRows(p, id, from) == []
  {
    SkipEmpty(p, id, from, if from < p.slots then p.slots else from);
  }

  lemma ChainRowsStep(h: Pages, chain: seq<nat>, i: nat)
    ensures ChainRows(h, chain, i) == if i < |chain| then RowsFrom(h, chain[i], 0) + ChainRows(h, chain, i + 1) else []
  {
  }

  /** The rows from a position on start with the one there exactly when it is live. */
  lemma FirstRow(h: Pages, chain: seq<nat>, pos: nat, from: nat)
    requires IsChain(h, chain) && Housed(h) && pos < |chain|
    requires RowsFrom(h, chain[pos], from) + ChainRows(h, chain, pos + 1) != []
    ensures (RowsFrom(h, chain[pos], from) + ChainRows(h, chain, pos + 1))[0].0 == RID(chain[pos], from) <==>
            RID(chain[pos], from) in Rows(h)
  {
    hide PageRows;
    hide ChainRows;
    ChainStep(h, chain, pos);
    var id := chain[pos];
    var here, rest := PageRows(h[id], id, from), ChainRows(h, chain, pos + 1);
    if from in h[id].rows {
      HeadRow(h[id], id, from);
    } else if here != [] {
      PageRowsExact(h[id], id, from);
      assert here[0] in here;
    } else {
      assert rest[0] in rest;
      LaterRow(h, chain, pos + 1, rest[0]);
    }
  }

  lemma LaterRow(h: Pages, chain: seq<nat>, i: nat, x: Row)
    requires IsChain(h, chain) && Housed(h) && 0 < i <= |chain| && x in ChainRows(h, chain, i)
    ensures x.0.page != chain[i - 1]
  {
    hide ChainRows;
    forall k | i <= k < |chain|
      ensures chain[k] in h
    {
      ChainStep(h, chain, k);
    }
    ChainRowsMember(h, chain, i, x);
  }

  lemma HeapIsHoused(heap: TableHeap)
    requires heap.Ready()
    ensures Housed(heap.pages)
  {
  }

  lemma Shown(heap: TableHeap, id: nat)
    requires heap.Ready() && id in heap.pages
    ensures id in heap.store.pages && SlottedLayout.Valid(heap.store.pages[id])
    ensures Read(heap.store.pages[id]) == heap.pages[id]
  {
  }

  /** A cursor holding one page pinned; `lost` once the next page could not be fetched after giving back the held one. */
  class Scan {
    const heap: TableHeap
    var rid: RID
    var current: Option<nat>
    var lost: bool
    ghost var pos: nat

    ghost predicate Valid()
      reads this, heap, heap.store
    {
      && heap.Ready()
      && rid.slot <= MAX_SLOTS
      && (current.Some? ==> pos < |heap.chain| && current.value == rid.page == heap.chain[pos])
    }

    /** The records still to come, in chain-then-slot order. */
    ghost function Remaining(): seq<Row>
      requires Valid()
      reads this, heap, heap.store
    {
      if current.None? then [] else
        RowsFrom(heap.pages, current.value, rid.slot) + ChainRows(heap.pages, heap.chain, pos + 1)
    }

    constructor (heap: TableHeap)
      requires heap.Ready()
      modifies heap`pages, heap.store`calls, heap.store`pages, heap.store`dirty
      ensures Valid() && !lost && this.heap == heap && heap.store.calls == old(heap.store.calls) + 1
      ensures pos == 0 && heap.chain != [] && heap.pages.Keys == old(heap.pages).Keys
      ensures current.None? <==> heap.store.starved(old(heap.store.calls))
      ensures current.Some? ==> Remaining() == ChainRows(heap.pages, heap.chain, 0)
      ensures old(heap.Settled()) ==> heap.Settled() && heap.pages == old(heap.pages)
      ensures AllStay(old(heap.store.Both()), heap.store.Both())
    {
      hide AllStay;
      hide SlottedLayout.Valid;
      hide HeapModel.IsChain;
      hide Represents;
      hide SameShape;
      hide PageRows;
      hide ChainRows;
      hide Moved;
      hide Faded;
      hide TableHeap.TakesAs;
      hide TableHeap.Settled;
      this.heap := heap;
      rid := RID(heap.first, 0);
      current, lost, pos := None, false, 0;
      new;
      heap.Start();
      heap.Position(0);
      var frame := heap.Load(heap.first);
      if frame != null {
        current := Some(heap.first);
      }
      ChainRowsStep(heap.pages, heap.chain, 0);
    }

    /** The fetches since the cursor stood at position `from`, `calls` calls ago: one a page, all but the last served. */
    ghost predicate Fetched(from: nat, calls: nat)
      reads this, heap, heap.store
    {
      && from <= pos && heap.store.calls == calls + (pos - from) + (if lost then 1 else 0)
      && heap.store.Serves(calls, pos - from)
      && (lost ==> heap.store.starved(calls + (pos - from)) && pos + 1 < |heap.chain|)
    }

    /**
     * The next live record, or nothing at the end of the chain. `lost` tells exactly whether a fetch was refused,
     * and then everything on the pages from there on is missing.
     */
    method Next() returns (row: Option<Row>)
      requires Valid() && !lost
      modifies this, heap`pages, heap.store`calls, heap.store`pages, heap.store`dirty
      ensures Valid() && Fetched(old(pos), old(heap.store.calls))
      ensures lost ==> row.None?
      ensures row.None? && !lost ==> current.None? || pos == |heap.chain| - 1
      ensures old(heap.Settled()) ==>
                && heap.Settled() && heap.pages == old(heap.pages)
                && (row.Some? ==> old(Remaining()) == [row.value] + Remaining())
                && (row.None? && !lost ==> old(Remaining()) == [] && Remaining() == [])
                && (lost ==> old(Remaining()) == ChainRows(heap.pages, heap.chain, pos + 1))
      ensures current.Some? <==> old(current.Some?)
      ensures row.Some? ==> pos > old(pos) || (pos == old(pos) && rid.slot > old(rid.slot))
      ensures AllStay(old(heap.store.Both()), heap.store.Both())
    {
      hide AllStay;
      hide SlottedLayout.Valid;
      hide SlottedLayout.LayoutOf;
      hide HeapModel.IsChain;
      hide Represents;
      hide PageRows;
      hide ChainRows;
      hide RowsFrom;
      hide Remaining;
      hide TableHeap.Ready;
      hide TableHeap.Settled;
      ghost var v := heap.store.Both();
      NoneMoved();
      while current.Some?
        invariant Valid() && !lost && Fetched(old(pos), old(heap.store.calls))
        invariant old(heap.Settled()) ==> heap.Settled() && heap.pages == old(heap.pages) && Remaining() == old(Remaining())
        invariant current.Some? <==> old(current.Some?)
        invariant pos == old(pos) ==> rid == old(rid)
        invariant AllStay(v, heap.store.Both())
        decreases |heap.chain| - pos
      {
        var found := Advance();
        if found.Some? {
          return found;
        }
        ghost var w := heap.store.Both();
        var moved := NextPage();
        AllStayTrans(v, w, heap.store.Both());
        if !moved {
          return None;
        }
      }
      NoPage();
      return None;
    }

    /** The next record is the one under the cursor exactly when that one is live. */
    lemma CursorHead()
      requires Valid() && current.Some? && Remaining() != []
      ensures Remaining()[0].0 == rid <==> rid in Rows(heap.pages)
    {
      hide *;
      Parts();
      RemainingIs();
      ReadyChain();
      HeapIsHoused(heap);
      assert rid == RID(heap.chain[pos], rid.slot);
      FirstRow(heap.pages, heap.chain, pos, rid.slot);
    }

    lemma RemainingIs()
      requires Valid() && current.Some?
      ensures Remaining() == RowsFrom(heap.pages, current.value, rid.slot) + ChainRows(heap.pages, heap.chain, pos + 1)
    {
      hide ChainRows;
      hide RowsFrom;
    }

    lemma ReadyChain()
      requires heap.Ready()
      ensures IsChain(heap.pages, heap.chain)
    {
    }

    lemma NoneMoved()
      requires Valid()
      ensures AllStay(heap.store.Both(), heap.store.Both())
    {
      heap.KeysMatch();
    }

    lemma NoPage()
      requires Valid() && current.None?
      ensures Remaining() == []
    {
    }

    /** Looks for a live slot: the given one first, then the ones after it. */
    static method Seek(frame: array<byte>, from: nat) returns (slot: Option<nat>)
      requires frame.Length == PAGE_SIZE && SlottedLayout.Valid(frame[..]) && from <= MAX_SLOTS
      ensures var p := Read(frame[..]);
              && (slot.Some? ==> slot.value in p.rows && slot.value < p.slots && slot.value < MAX_SLOTS && Gap(p, from, slot.value))
              && (slot.None? ==> forall s :: from <= s ==> s !in p.rows)
    {
      hide SlottedLayout.Valid;
      hide SlottedLayout.Contents;
      hide SlottedLayout.LayoutOf;
      hide SlottedLayout.Live;
      LiveRows(frame[..]);
      var slotted := new SlottedPage(frame);
      var has := slotted.HasSlot(from);
      if has {
        return Some(from);
      }
      slot := slotted.NextOccupiedSlot(from);
    }

    /** Yields a record of the held page and steps past it, or finds none left there. */
    method Advance() returns (row: Option<Row>)
      requires Valid() && current.Some?
      modifies this`rid
      ensures Valid() && rid.page == old(rid.page) && (if row.None? then rid == old(rid) else rid.slot > old(rid.slot))
      ensures row.Some? ==> old(Remaining()) == [row.value] + Remaining()
      ensures row.None? ==> Remaining() == old(Remaining())
      ensures row.None? ==> RowsFrom(heap.pages, current.value, rid.slot) == []
    {
      hide SlottedLayout.Valid;
      hide SlottedLayout.Contents;
      hide SlottedLayout.LayoutOf;
      hide HeapModel.IsChain;
      hide PageRows;
      hide ChainRows;
      heap.Position(pos);
      ghost var p, id := heap.pages[current.value], current.value;
      var found := Peek();
      if found.None? {
        Drained(p, id, rid.slot);
        return None;
      }
      var (slot, tuple) := found.value;
      SkipEmpty(p, id, rid.slot, slot);
      HeadRow(p, id, slot);
      rid := rid.(slot := slot);
      row := Some((rid, tuple));
      rid := rid.(slot := rid.slot + 1);
    }

    /** The first live slot of the held page from the cursor on, and its tuple. */
    method Peek() returns (found: Option<(nat, seq<byte>)>)
      requires Valid() && current.Some? && current.value in heap.pages
      ensures var p := heap.pages[current.value];
              && (found.Some? ==>
                    var s := found.value.0;
                    s in p.rows && found.value.1 == p.rows[s] && s < p.slots && s < MAX_SLOTS && Gap(p, rid.slot, s))
              && (found.None? ==> forall s :: rid.slot <= s ==> s !in p.rows)
    {
      hide SlottedLayout.Valid;
      hide SlottedLayout.Contents;
      hide SlottedLayout.LayoutOf;
      hide HeapModel.IsChain;
      hide Represents;
      hide SameShape;
      Shown(heap, current.value);
      var frame := heap.store.Look(current.value);
      var slot := Seek(frame, rid.slot);
      if slot.None? {
        return None;
      }
      var tuple := TableHeap.GetFrom(frame, slot.value);
      found := Some((slot.value, tuple));
    }

    lemma PageAhead()
      requires Valid() && current.Some? && rid.slot == 0
      ensures Remaining() == RowsFrom(heap.pages, current.value, 0) + ChainRows(heap.pages, heap.chain, pos + 1)
    {
      hide ChainRows;
    }

    lemma NothingLeft()
      requires Valid() && current.Some? && RowsFrom(heap.pages, current.value, rid.slot) == []
      ensures Remaining() == ChainRows(heap.pages, heap.chain, pos + 1)
    {
      hide ChainRows;
    }

    method LinkOfHeld() returns (next: nat)
      requires Valid() && current.Some?
      ensures next == Successor(heap.chain, pos) && (next == INVALID_PAGE_ID <==> pos == |heap.chain| - 1)
    {
      hide SlottedLayout.Valid;
      hide SlottedLayout.Contents;
      hide SlottedLayout.LayoutOf;
      hide HeapModel.IsChain;
      hide Represents;
      hide SameShape;
      heap.Position(pos);
      Shown(heap, current.value);
      var held := heap.store.Look(current.value);
      next := TableHeap.NextOf(held);
    }

    /** Moves to the page the held one links to. */
    method NextPage() returns (moved: bool)
      requires Valid() && !lost && current.Some?
      requires RowsFrom(heap.pages, current.value, rid.slot) == []
      modifies this, heap`pages, heap.store`calls, heap.store`pages, heap.store`dirty
      ensures Valid() && current.Some? && Fetched(old(pos), old(heap.store.calls))
      ensures moved ==> pos == old(pos) + 1 && !lost
      ensures !moved ==> pos == old(pos) && (lost || pos == |heap.chain| - 1)
      ensures old(heap.Settled()) ==>
                && heap.Settled() && heap.pages == old(heap.pages)
                && (moved ==> Remaining() == old(Remaining()))
                && (!moved && !lost ==> old(Remaining()) == [] && Remaining() == [])
                && (lost ==> old(Remaining()) == ChainRows(heap.pages, heap.chain, pos + 1))
      ensures AllStay(old(heap.store.Both()), heap.store.Both())
    {
      hide *;
      var next := LinkOfHeld();
      ChainRowsStep(heap.pages, heap.chain, pos + 1);
      NothingLeft();
      Parts();
      NoneMoved();
      if next == INVALID_PAGE_ID {
        NoneFetched();
        return false;
      }
      NextThere();
      ghost var c := heap.store.calls;
      var frame := heap.Load(next);
      if frame == null {
        lost := true;
        IsValid();
        OneFetched(pos, c);
        return false;
      }
      current, rid, pos := Some(next), RID(next, 0), pos + 1;
      IsValid();
      OneFetched(pos - 1, c);
      PageAhead();
      return true;
    }

    lemma Parts()
      requires Valid() && current.Some?
      ensures heap.Ready() && rid.slot <= MAX_SLOTS && pos < |heap.chain| && current.value == rid.page == heap.chain[pos]
    {
    }

    lemma IsValid()
      requires heap.Ready() && rid.slot <= MAX_SLOTS
      requires current.Some? ==> pos < |heap.chain| && current.value == rid.page == heap.chain[pos]
      ensures Valid()
    {
    }

    lemma NoneFetched()
      requires !lost
      ensures Fetched(pos, heap.store.calls)
    {
    }

    lemma OneFetched(from: nat, c: nat)
      requires heap.store.calls == c + 1 && (lost <==> heap.store.starved(c))
      requires if lost then pos == from && pos + 1 < |heap.chain| else pos == from + 1
      ensures Fetched(from, c)
    {
    }

    lemma NextThere()
      requires heap.Ready() && pos < |heap.chain| && Successor(heap.chain, pos) != INVALID_PAGE_ID
      ensures pos + 1 < |heap.chain| && Successor(heap.chain, pos) == heap.chain[pos + 1] && heap.chain[pos + 1] in heap.pages
    {
      if pos + 1 < |heap.chain| {
        heap.Position(pos + 1);
      }
    }
  }

  /**
   * Calls the cursor until it yields nothing. Its fetches are one call each; the rows it misses are those of the
   * pages from the first refused one on.
   */
  method Drain(scan: Scan) returns (rows: seq<Row>)
    requires scan.Valid() && !scan.lost && scan.current.Some?
    modifies scan, scan.heap`pages, scan.heap.store`calls, scan.heap.store`pages, scan.heap.store`dirty
    ensures scan.Valid() && old(scan.heap.store.calls) <= scan.heap.store.calls
    ensures !scan.lost <==> scan.heap.store.Serves(old(scan.heap.store.calls), |scan.heap.chain| - 1 - old(scan.pos))
    ensures old(scan.heap.Settled()) ==>
              var k := old(scan.pos) + 1 + scan.heap.store.Served(old(scan.heap.store.calls), |scan.heap.chain| - 1 - old(scan.pos));
              && scan.heap.Settled() && scan.heap.pages == old(scan.heap.pages)
              && rows + ChainRows(scan.heap.pages, scan.heap.chain, k) == old(scan.Remaining())
  {
    hide Represents;
    hide HeapModel.IsChain;
    hide PageRows;
    hide ChainRows;
    hide Scan.Remaining;
    hide TableHeap.Ready;
    hide TableHeap.Settled;
    rows := [];
    ghost var left, from, c, n := scan.Remaining(), scan.pos, scan.heap.store.calls, |scan.heap.chain| - 1 - scan.pos;
    ghost var settled := scan.heap.Settled();
    while true
      invariant scan.Valid() && !scan.lost && scan.current.Some? && scan.Fetched(from, c)
      invariant settled ==> scan.heap.Settled() && scan.heap.pages == old(scan.heap.pages)
      invariant settled ==> left == scan.Remaining() && rows + left == old(scan.Remaining())
      decreases |scan.heap.chain| - scan.pos, MAX_SLOTS - scan.rid.slot
    {
      var row := scan.Next();
      if row.None? {
        Ended(scan, from, c);
        return rows;
      }
      assert settled ==> rows + ([row.value] + scan.Remaining()) == rows + [row.value] + scan.Remaining();
      rows, left := rows + [row.value], scan.Remaining();
    }
  }

  lemma Ended(scan: Scan, from: nat, c: nat)
    requires scan.Valid() && scan.current.Some? && scan.Fetched(from, c) && (scan.lost || scan.pos == |scan.heap.chain| - 1)
    ensures var n := |scan.heap.chain| - 1 - from;
            && n >= 0 && scan.heap.store.Served(c, n) == scan.pos - from
            && (!scan.lost <==> scan.heap.store.Serves(c, n))
            && (!scan.lost ==> ChainRows(scan.heap.pages, scan.heap.chain, scan.pos + 1) == [])
  {
    hide PageStore.Served;
    hide TableHeap.Ready;
    if scan.lost {
      scan.heap.store.ServedIs(c, |scan.heap.chain| - 1 - from, scan.pos - from);
    }
  }

  /**
   * A whole scan: every live record once, exactly when no fetch is refused; otherwise those of the pages before
   * the first refused one.
   */
  method ReadAll(heap: TableHeap) returns (rows: seq<Row>, complete: bool)
    requires heap.Ready()
    modifies heap`pages, heap.store`calls, heap.store`pages, heap.store`dirty
    ensures heap.Ready() && old(heap.store.calls) <= heap.store.calls
    ensures complete <==> heap.store.Serves(old(heap.store.calls), |heap.chain|)
    ensures old(heap.Settled()) ==>
              && heap.Settled() && heap.pages == old(heap.pages)
              && rows + ChainRows(heap.pages, heap.chain, heap.store.Served(old(heap.store.calls), |heap.chain|)) ==
                 ChainRows(heap.pages, heap.chain, 0)
  {
    hide *;
    ghost var c := heap.store.calls;
    var scan := new Scan(heap);
    if scan.current.None? {
      NothingServed(heap, c);
      ScanEnds(scan);
      return [], false;
    }
    ServedOneMore(heap.store, c, |heap.chain|);
    rows := Drain(scan);
    complete := !scan.lost;
    ScanEnds(scan);
  }

  lemma NothingServed(heap: TableHeap, c: nat)
    requires heap.store.starved(c) && heap.chain != []
    ensures heap.store.Served(c, |heap.chain|) == 0 && !heap.store.Serves(c, |heap.chain|)
    ensures [] + ChainRows(heap.pages, heap.chain, 0) == ChainRows(heap.pages, heap.chain, 0)
  {
    heap.store.ServedIs(c, |heap.chain|, 0);
  }

  lemma ScanEnds(scan: Scan)
    requires scan.Valid()
    ensures scan.heap.Ready()
  {
  }

  lemma ServedOneMore(store: PageStore, c: nat, count: nat)
    requires count > 0 && !store.starved(c)
    ensures store.Served(c, count) == 1 + store.Served(c + 1, count - 1)
    ensures store.Serves(c, count) <==> store.Serves(c + 1, count - 1)
  {
    hide PageStore.Served;
    var r := store.Served(c + 1, count - 1);
    assert forall n :: c < n < c + 1 + r ==> !store.starved(n);
    if r < count - 1 {
      store.ServedIs(c, count, 1 + r);
    }
  }
}
