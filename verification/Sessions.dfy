/** One transaction working on one table with nobody beside it, from its begin to its rollback. */
module Sessions {
  import opened Bytes
  import opened HeapModel
  import opened HeapStates
  import opened TableHeaps
  import opened Undo
  import opened Losses
  import opened Locks
  import opened Tables

  ghost predicate SlotsGrow(a: Slots, b: Slots) {
    forall p :: p in a ==> p in b && a[p] <= b[p]
  }

  lemma {:induction false} LawfulGrows(h: History, own: set<RID>, own': set<RID>, slots: Slots, slots': Slots)
    requires Lawful(h, own, slots) && own <= own' && SlotsGrow(slots, slots') && Alone(h)
    ensures Lawful(h, own', slots')
  {
    if h.Then? {
      LawfulGrows(h.before, own, own', slots, slots');
    }
  }

  /** Every record of the log can be replayed: its page is there and its tuple has a 16-bit length. */
  ghost predicate Replayable(log: seq<UndoRecord>, h: Pages) {
    forall r :: r in log ==> r.rid.page in h && (r.RestoreRecord? ==> |r.tuple| < 0x1_0000)
  }

  /** The history ends in the records `m` and explains the log. */
  ghost predicate Explains(h: History, m: HeapMap, log: seq<UndoRecord>, own: set<RID>, pages: Pages) {
    && h.now == m && Log(h) == log && Alone(h) && Lawful(h, own, SlotsOf(pages)) && Replayable(log, pages)
  }

  /** An operation that changed nothing leaves the history as it is. */
  lemma Unchanged(h: History, m: HeapMap, log: seq<UndoRecord>, own: set<RID>, pages: Pages, own': set<RID>, pages': Pages)
    requires Explains(h, m, log, own, pages) && own <= own' && OnlyGrows(pages, pages')
    ensures Explains(h, m, log, own', pages')
  {
    LawfulGrows(h, own, own', SlotsOf(pages), SlotsOf(pages'));
  }

  /** An operation that was logged extends it by its change. */
  lemma Extended(h: History, m: HeapMap, c: Change, log: seq<UndoRecord>, own: set<RID>, pages: Pages,
                 m': HeapMap, own': set<RID>, pages': Pages)
    requires Explains(h, m, log, own, pages) && own <= own' && OnlyGrows(pages, pages')
    requires Performs(m, c, m') && Touched(c) <= own'
    requires !c.Inserted? ==> c.rid.page in pages' && c.rid.slot < pages'[c.rid.page].slots && |c.old'| < 0x1_0000
    requires forall r :: r in Touched(c) ==> r.page in pages'
    ensures Explains(Then(h, Own(c), m'), m', log + LogOf(c), own', pages')
    ensures Start(Then(h, Own(c), m')) == Start(h)
  {
    LawfulGrows(h, own, own', SlotsOf(pages), SlotsOf(pages'));
    forall r | r in LogOf(c)
      ensures r.rid.page in pages' && (r.RestoreRecord? ==> |r.tuple| < 0x1_0000)
    {
      assert r.rid in Touched(c);
    }
  }

  lemma RecordHome(heap: TableHeap, rid: RID)
    requires heap.Ready() && rid in Rows(heap.pages)
    ensures rid.page in heap.pages && rid.slot < heap.pages[rid.page].slots && |Rows(heap.pages)[rid]| < 0x1_0000
  {
    RecordFits(heap.store.pages[rid.page], rid.slot);
  }

  lemma StillHome(h: Pages, h': Pages, rid: RID)
    requires OnlyGrows(h, h') && rid.page in h && rid.slot < h[rid.page].slots
    ensures rid.page in h' && rid.slot < h'[rid.page].slots
  {
  }

  /** A record the log does not mention is as it was at the start. */
  lemma {:induction false} Untouched(h: History, own: set<RID>, slots: Slots, rid: RID)
    requires Lawful(h, own, slots) && Alone(h) && !Mentions(Log(h), rid)
    ensures rid in h.now <==> rid in Start(h)
  {
    if h.Then? {
      var c := h.step.change;
      var log := Log(h.before) + LogOf(c);
      MentionsPart(Log(h.before), LogOf(c), rid);
      Untouched(h.before, own, slots, rid);
      assert rid !in Touched(c) by {
        match c
        case Inserted(r, _) => assert LogOf(c)[0].rid == r;
        case Deleted(r, _) => assert LogOf(c)[0].rid == r;
        case Replaced(r, _, now, _) => assert LogOf(c)[0].rid == r && LogOf(c)[1].rid == now;
      }
    }
  }

  lemma MentionsPart(a: seq<UndoRecord>, b: seq<UndoRecord>, rid: RID)
    ensures Mentions(a, rid) || Mentions(b, rid) ==> Mentions(a + b, rid)
  {
    var log := a + b;
    if Mentions(a, rid) {
      var i :| 0 <= i < |a| && a[i].rid == rid;
      assert log[i].rid == rid;
    } else if Mentions(b, rid) {
      var i :| 0 <= i < |b| && b[i].rid == rid;
      assert log[|a| + i].rid == rid;
    }
  }

  /** A rollback brings back only records that its log mentions. */
  lemma {:induction false} NotRewound(m: HeapMap, log: seq<UndoRecord>, rid: RID)
    requires rid !in m && !Mentions(log, rid)
    ensures rid !in Rewound(m, log)
    decreases |log|
  {
    if log != [] {
      var l := |log| - 1;
      assert log == log[..l] + [log[l]];
      MentionsPart(log[..l], [log[l]], rid);
      assert log[l].rid != rid by { assert [log[l]][0].rid == log[l].rid; }
      NotRewound(RewoundOne(m, log[l]), log[..l], rid);
    }
  }

  /** An operation on a new record or on one given by an earlier operation, by its place among those given. */
  datatype Op = Put(tuple: seq<byte>) | Drop(record: nat) | Set(record: nat, tuple: seq<byte>)

  /**
   * The session did the operations, one after the other, `rids` being the records they gave: its history went from `h0`
   * to `h` by their changes. A deletion may come to nothing; if nothing stands in its way, only where there is nothing.
   */
  ghost predicate Did(h0: History, ops: seq<Op>, rids: seq<RID>, h: History, free: bool)
    decreases |ops|
  {
    if ops == [] then rids == [] && h == h0
    else
      var n := |ops| - 1;
      match ops[n]
      case Put(t) =>
        && rids != [] && h.Then? && h.step == Own(Change.Inserted(rids[|rids| - 1], t))
        && Did(h0, ops[..n], rids[..|rids| - 1], h.before, free)
      case Drop(k) =>
        && k < |rids|
        && ((h.Then? && h.step.Own? && h.step.change.Deleted? && h.step.change.rid == rids[k]
             && Did(h0, ops[..n], rids, h.before, free))
            || (Did(h0, ops[..n], rids, h, free) && (free ==> !HasBytes(h.now, rids[k]))))
      case Set(k, t) =>
        && k + 1 < |rids| && h.Then? && h.step.Own? && h.step.change.Replaced?
        && h.step.change.rid == rids[k] && h.step.change.now == rids[|rids| - 1] && h.step.change.tuple == t
        && Did(h0, ops[..n], rids[..|rids| - 1], h.before, free)
  }

  ghost predicate HasBytes(m: HeapMap, rid: RID) {
    rid in m && m[rid] != []
  }

  /** One operation on the records `rids`: it gave `given`, and took the history from `h0` to `h`. */
  ghost predicate DidOne(h0: History, o: Op, rids: seq<RID>, given: seq<RID>, h: History, free: bool) {
    match o
    case Put(t) => |given| == 1 && h.Then? && h.before == h0 && h.step == Own(Change.Inserted(given[0], t))
    case Drop(k) =>
      && given == [] && k < |rids|
      && ((h.Then? && h.before == h0 && h.step.Own? && h.step.change.Deleted? && h.step.change.rid == rids[k])
          || (h == h0 && (free ==> !HasBytes(h.now, rids[k]))))
    case Set(k, t) =>
      && |given| == 1 && k < |rids| && h.Then? && h.before == h0 && h.step.Own? && h.step.change.Replaced?
      && h.step.change.rid == rids[k] && h.step.change.now == given[0] && h.step.change.tuple == t
  }

  lemma DidOneMore(h0: History, ops: seq<Op>, n: nat, rids: seq<RID>, h1: History, given: seq<RID>, h: History, free: bool)
    requires n < |ops| && Did(h0, ops[..n], rids, h1, free) && DidOne(h1, ops[n], rids, given, h, free)
    ensures Did(h0, ops[..n + 1], rids + given, h, free)
  {
    hide HasBytes;
    var all, now := ops[..n + 1], rids + given;
    assert all[..n] == ops[..n] && all[n] == ops[n];
    match ops[n]
    case Drop(k) => assert now == rids;
    case _ => assert now[..|now| - 1] == rids;
  }

  lemma NothingDid(h: History, free: bool)
    ensures Did(h, [], [], h, free)
  {
  }

  /** The operation cannot be done, whatever the calls: a tuple is too long, or there is no such record. */
  ghost predicate Impossible(o: Op, rids: seq<RID>, m: HeapMap) {
    match o
    case Put(t) => |t| > MAX_TUPLE
    case Drop(k) => k >= |rids|
    case Set(k, t) => |t| > MAX_TUPLE || k >= |rids| || !HasBytes(m, rids[k])
  }

  ghost predicate NoneBut(table: LockTable, t: TxId) {
    forall rid, r :: r in QueueOf(table, rid) ==> r.tx == t
  }

  lemma GrantedGrows(tx: Transaction, x: TxLocks, rid: RID, now: RID)
    ensures WriteLockedBy(tx, x, rid, true).state == x.state
    ensures WriteLockedBy(tx, WriteLockedBy(tx, x, rid, true), now, true).state == x.state
  {
  }

  class Session {
    const manager: TransactionManager
    const table: Table
    const tx: Transaction
    /** What the transaction did to the table so far. */
    ghost var h: History

    constructor (manager: TransactionManager, table: Table, tx: Transaction)
      requires manager.Valid() && table.Ready() && table.heap.Settled() && table.locks == manager.locks && tx.undoLog == []
      ensures this.manager == manager && this.table == table && this.tx == tx
      ensures Valid() && Start(h) == Rows(table.heap.pages)
    {
      this.manager, this.table, this.tx := manager, table, tx;
      h := Begin(Rows(table.heap.pages));
    }

    ghost predicate Valid()
      reads this, manager, table.heap, table.heap.store, tx
    {
      && manager.Valid() && table.Ready() && table.heap.Settled() && table.locks == manager.locks
      && Explains(h, Rows(table.heap.pages), tx.undoLog, tx.exclusive, table.heap.pages)
    }

    /** No call is ever refused, and no other transaction has a request on any record. */
    ghost predicate Free()
      reads tx, table.locks
    {
      (forall n :: !table.heap.store.starved(n)) && tx.state.Growing? && NoneBut(table.locks.table, tx.id)
    }

    /** Then an operation comes to nothing only where it makes no sense. */
    lemma FreeMeans(rid: RID, n: nat)
      requires Free()
      ensures tx.state.Growing? && NoneBut(table.locks.table, tx.id)
      ensures table.Inserts(n, tx) <==> n <= MAX_TUPLE
      ensures table.Begins(rid, tx) <==> HasBytes(Rows(table.heap.pages), rid)
      ensures n <= MAX_TUPLE ==> !table.Tears(rid, n, tx)
    {
      hide HeapModel.Rows;
      hide TableHeap.Fits;
    }

    /** A call that got its locks leaves the session as free as it was. */
    lemma StillFree(before: LockTable, x: TxLocks)
      requires NoneBut(before, tx.id) && Orderly(before, x, table.locks.table, LocksOf(tx), tx)
      requires (forall n :: !table.heap.store.starved(n)) && tx.state.Growing?
      ensures Free()
    {
      hide Booked;
      hide Compatibly;
    }

    lemma FreeWrites(rid: RID)
      requires Free()
      ensures table.CanWrite(tx, rid)
    {
    }

    lemma NeverStarved()
      ensures Free() ==> forall n :: !table.heap.store.starved(n)
      ensures Free() ==> table.heap.store.NeverStarved(0)
    {
    }

    /** The history is kept up, unless the pool had no frame to take an unlocked insertion back. */
    method Insert(t: seq<byte>) returns (r: Answer)
      requires Valid() && table.heap.store.CanAllocate()
      modifies this`h, table.heap, table.heap.store, table.locks, tx
      ensures r.Row? <==> old(table.Inserts(|t|, tx))
      ensures table.heap.store.NeverStarved(old(table.heap.store.calls)) ==> Valid() && Start(h) == old(Start(h))
      ensures r.Row? ==> Valid() && h == Then(old(h), Own(Change.Inserted(r.rid, t)), Rows(table.heap.pages))
      ensures r.Row? ==> r.rid.page in table.heap.pages && table.heap.Own(r.rid)
      ensures OnlyGrows(old(table.heap.pages), table.heap.pages)
      ensures !r.Row? ==> h == old(h)
      ensures old(Free()) ==> (r.Row? <==> |t| <= MAX_TUPLE) && (r.Row? ==> Free())
    {
      hide HeapModel.Rows;
      hide TableHeap.Ready;
      hide TableHeap.Settled;
      hide Explains;
      hide OnlyGrows;
      hide Table.Inserts;
      hide Orderly;
      hide Free;
      hide WriteLocked;
      ghost var free, before, x := Free(), table.locks.table, LocksOf(tx);
      NeverStarved();
      if free {
        FreeMeans(RID(0, 0), |t|);
      }
      ghost var m, log, own, pages := Rows(table.heap.pages), tx.undoLog, tx.exclusive, table.heap.pages;
      r := table.Insert(t, tx);
      if r.Row? {
        RecordHome(table.heap, r.rid);
        InsertedIsHome(table.heap, r.rid);
        GrantedGrows(tx, x, r.rid, r.rid);
        if free {
          StillFree(before, x);
        }
        Extend(Change.Inserted(r.rid, t), m, log, own, pages);
      } else if table.heap.store.NeverStarved(old(table.heap.store.calls)) {
        Unchanged(h, m, log, own, pages, tx.exclusive, table.heap.pages);
      }
    }

    /** Adds a logged change to the history. */
    ghost method Extend(c: Change, m: HeapMap, log: seq<UndoRecord>, own: set<RID>, pages: Pages)
      requires manager.Valid() && table.Ready() && table.heap.Settled() && table.locks == manager.locks
      requires Explains(h, m, log, own, pages) && tx.undoLog == log + LogOf(c)
      requires own <= tx.exclusive && OnlyGrows(pages, table.heap.pages) && Touched(c) <= tx.exclusive
      requires Performs(m, c, Rows(table.heap.pages))
      requires !c.Inserted? ==>
                 c.rid.page in table.heap.pages && c.rid.slot < table.heap.pages[c.rid.page].slots && |c.old'| < 0x1_0000
      requires forall r :: r in Touched(c) ==> r.page in table.heap.pages
      modifies this`h
      ensures Valid() && h == Then(old(h), Own(c), Rows(table.heap.pages)) && Start(h) == old(Start(h))
    {
      hide *;
      Extended(h, m, c, log, own, pages, Rows(table.heap.pages), tx.exclusive, table.heap.pages);
      h := Then(h, Own(c), Rows(table.heap.pages));
      IsValid();
    }

    lemma IsValid()
      requires manager.Valid() && table.Ready() && table.heap.Settled() && table.locks == manager.locks
      requires Explains(h, Rows(table.heap.pages), tx.undoLog, tx.exclusive, table.heap.pages)
      ensures Valid()
    {
    }

    method Delete(rid: RID) returns (ok: bool)
      requires Valid() && table.heap.Own(rid)
      modifies this`h, table.heap, table.heap.store, table.locks, tx
      ensures Valid() && Start(h) == old(Start(h)) && (ok <==> old(table.Begins(rid, tx)))
      ensures ok ==> h == Then(old(h), Own(Deleted(rid, old(Rows(table.heap.pages))[rid])), Rows(table.heap.pages))
      ensures !ok ==> h == old(h)
      ensures OnlyGrows(old(table.heap.pages), table.heap.pages)
      ensures old(Free()) ==> Free() && (ok <==> old(HasBytes(Rows(table.heap.pages), rid)))
    {
      hide HeapModel.Rows;
      hide TableHeap.Ready;
      hide TableHeap.Settled;
      hide Explains;
      hide OnlyGrows;
      hide Orderly;
      hide Free;
      hide WriteLocked;
      hide HasBytes;
      ghost var free, before, x := Free(), table.locks.table, LocksOf(tx);
      NeverStarved();
      if free {
        FreeMeans(rid, 0);
        FreeWrites(rid);
      }
      ghost var m, log, own, pages := Rows(table.heap.pages), tx.undoLog, tx.exclusive, table.heap.pages;
      if rid in Rows(table.heap.pages) {
        RecordHome(table.heap, rid);
      }
      ok := table.Delete(rid, tx);
      GrantedGrows(tx, x, rid, rid);
      if free {
        StillFree(before, x);
      }
      if ok {
        StillHome(pages, table.heap.pages, rid);
        Extend(Deleted(rid, m[rid]), m, log, own, pages);
      } else {
        Unchanged(h, m, log, own, pages, tx.exclusive, table.heap.pages);
      }
    }

    /** The history is kept up unless the update is torn, and whether it will be can be told beforehand. */
    method Update(rid: RID, t: seq<byte>) returns (r: Answer, ghost torn: bool)
      requires Valid() && table.heap.Own(rid) && table.heap.store.CanAllocate() && |t| < 0x1_0000
      modifies this`h, table.heap, table.heap.store, table.locks, tx
      ensures r.Row? ==>
                && rid in old(Rows(table.heap.pages))
                && h == Then(old(h), Own(Replaced(rid, old(Rows(table.heap.pages))[rid], r.rid, t)), Rows(table.heap.pages))
      ensures r.Row? ==> r.rid.page in table.heap.pages && table.heap.Own(r.rid)
      ensures torn <==> old(table.Tears(rid, |t|, tx))
      ensures r.Row? ==> !torn
      ensures !torn ==> Valid() && Start(h) == old(Start(h))
      ensures !r.Row? ==> h == old(h)
      ensures OnlyGrows(old(table.heap.pages), table.heap.pages)
      ensures old(Free()) ==>
                && (|t| <= MAX_TUPLE ==> (r.Row? <==> old(HasBytes(Rows(table.heap.pages), rid))))
                && (r.Row? ==> |t| <= MAX_TUPLE && Free())
    {
      hide HeapModel.Rows;
      hide TableHeap.Ready;
      hide TableHeap.Settled;
      hide Explains;
      hide OnlyGrows;
      hide Table.Tears;
      hide Table.Begins;
      hide Orderly;
      hide Free;
      hide WriteLocked;
      hide HasBytes;
      ghost var free, before, x := Free(), table.locks.table, LocksOf(tx);
      NeverStarved();
      if free {
        FreeMeans(rid, |t|);
      }
      if |t| > MAX_TUPLE && table.Begins(rid, tx) {
        table.OversizeTears(rid, |t|, tx);
      }
      ghost var m, log, own, pages := Rows(table.heap.pages), tx.undoLog, tx.exclusive, table.heap.pages;
      if rid in Rows(table.heap.pages) {
        RecordHome(table.heap, rid);
      }
      r, torn := table.Update(rid, t, tx);
      if r.Row? {
        StillHome(pages, table.heap.pages, rid);
        RecordHome(table.heap, r.rid);
        InsertedIsHome(table.heap, r.rid);
        GrantedGrows(tx, x, rid, r.rid);
        if free {
          StillFree(before, x);
        }
        Extend(Replaced(rid, m[rid], r.rid, t), m, log, own, pages);
      } else if !torn {
        Unchanged(h, m, log, own, pages, tx.exclusive, table.heap.pages);
      }
    }

    /**
     * Any sequence of operations, on records the session was given by earlier ones, up to the first insertion or
     * update that gives none. `rids` are the records given, in order. If nothing stands in its way, the session does
     * all operations up to the first that is impossible.
     */
    method Perform(ops: seq<Op>) returns (done: nat, rids: seq<RID>)
      requires Valid() && forall o :: o in ops && o.Set? ==> |o.tuple| < 0x1_0000
      modifies this`h, table.heap, table.heap.store, table.locks, tx
      ensures done <= |ops| && (done == |ops| ==> Valid() && Start(h) == old(Start(h)))
      ensures Did(old(h), ops[..done], rids, h, old(Free()))
      ensures old(Free()) && done < |ops| ==> Impossible(ops[done], rids, h.now) || !table.heap.store.CanAllocate()
    {
      hide *;
      done, rids := 0, [];
      NoneHome(table.heap.pages);
      ghost var free := Free();
      NothingDid(h, free);
      var more := true;
      while more && done < |ops|
        invariant done <= |ops| && (more ==> Valid() && Start(h) == old(Start(h)))
        invariant !more ==> done < |ops|
        invariant more ==> AllHome(rids, table.heap.pages)
        invariant Did(old(h), ops[..done], rids, h, free)
        invariant free && more ==> Free()
        invariant free && !more ==> Impossible(ops[done], rids, h.now) || !table.heap.store.CanAllocate()
        decreases more, |ops| - done
      {
        assert ops[done] in ops;
        ghost var before := h;
        var r := Next(ops[done], rids, free);
        more := r.Some?;
        if more {
          DidOneMore(old(h), ops, done, rids, before, r.value, h, free);
          rids := rids + r.value;
          done := done + 1;
        }
      }
    }

    /** One operation; nothing when it gave no record though it should have. */
    method Next(o: Op, rids: seq<RID>, ghost free: bool) returns (given: Option<seq<RID>>)
      requires Valid() && AllHome(rids, table.heap.pages) && (o.Set? ==> |o.tuple| < 0x1_0000) && (free ==> Free())
      modifies this`h, table.heap, table.heap.store, table.locks, tx
      ensures given.None? ==> h == old(h) && (free ==> Impossible(o, rids, h.now) || !table.heap.store.CanAllocate())
      ensures given.Some? ==> DidOne(old(h), o, rids, given.value, h, free) && (free ==> Free())
      ensures given.Some? ==> Valid() && Start(h) == old(Start(h)) && AllHome(rids + given.value, table.heap.pages)
    {
      hide HeapModel.Rows;
      hide Valid;
      hide Free;
      hide AllHome;
      hide HasBytes;
      hide OnlyGrows;
      hide TableHeap.Own;
      hide Table.Inserts;
      hide Table.Tears;
      hide Table.Begins;
      ghost var pages := table.heap.pages;
      HistoryNow();
      match o {
        case Put(t) =>
          if !table.heap.store.CanAllocate() {
            return None;
          }
          var r := Insert(t);
          if !r.Row? {
            return None;
          }
          StillAllHome(rids, pages, table.heap.pages);
          OneMoreHome(rids, r.rid, table.heap.pages);
          return Some([r.rid]);
        case Drop(k) =>
          if k >= |rids| {
            return None;
          }
          HomeIsOwn(rids, k);
          var ok := Delete(rids[k]);
          StillAllHome(rids, pages, table.heap.pages);
          assert rids + [] == rids;
          return Some([]);
        case Set(k, t) =>
          if k >= |rids| || !table.heap.store.CanAllocate() {
            return None;
          }
          HomeIsOwn(rids, k);
          var r, torn := Update(rids[k], t);
          if !r.Row? {
            return None;
          }
          StillAllHome(rids, pages, table.heap.pages);
          OneMoreHome(rids, r.rid, table.heap.pages);
          return Some([r.rid]);
      }
    }

    lemma HistoryNow()
      requires Valid()
      ensures h.now == Rows(table.heap.pages)
    {
    }

    /** All the records lie on the pages. */
    ghost predicate AllHome(rids: seq<RID>, pages: Pages) {
      forall i :: 0 <= i < |rids| ==> rids[i].page in pages
    }

    lemma NoneHome(pages: Pages)
      ensures AllHome([], pages)
    {
    }

    lemma StillAllHome(rids: seq<RID>, pages: Pages, pages': Pages)
      requires AllHome(rids, pages) && OnlyGrows(pages, pages')
      ensures AllHome(rids, pages')
    {
    }

    lemma OneMoreHome(rids: seq<RID>, rid: RID, pages: Pages)
      requires AllHome(rids, pages) && rid.page in pages
      ensures AllHome(rids + [rid], pages)
    {
    }

    lemma HomeIsOwn(rids: seq<RID>, k: nat)
      requires AllHome(rids, table.heap.pages) && k < |rids|
      ensures table.heap.Own(rids[k])
    {
    }

    /** What the rollback of the session would lose if it began now. */
    ghost function Lost(): Option<set<RID>>
      reads this, table.heap, table.heap.store
    {
      LostBy(h, SlotsOf(table.heap.pages), table.heap.store.dirty, table.heap.store.evicts, table.heap.store.calls)
    }

    /** Every restored record finds room on its page. */
    ghost predicate Roomy()
      reads this, table.heap, tx
    {
      Fits(h, Rows(table.heap.pages), tx.exclusive, SlotsOf(table.heap.pages))
    }

    /** No page is thrown out of the pool during the rollback with a restored record on it that is not saved. */
    ghost predicate Unhurt()
      reads this, table.heap.store
    {
      Spared(Log(h), table.heap.store.evicts, table.heap.store.calls, table.heap.store.dirty, {})
    }

    /**
     * Whatever the transaction inserted, deleted and updated, aborting it puts the table back to what it was at
     * its begin if and only if nothing is lost on the way. It is not if every restored record finds room and no
     * page leaves the pool with one that is not saved; and if each record was first touched by the operation that
     * has it restored, only then.
     */
    method Abort() returns (ok: bool)
      requires Valid()
      modifies manager, manager.locks, tx, table.heap, table.heap.store
      ensures table.heap.store.Serves(old(table.heap.store.calls), |old(tx.undoLog)|) ==>
                && (ok <==> old(Lost()).Some?)
                && (ok ==> Rows(table.heap.pages) == Minus(Start(h), old(Lost()).value))
                && (ok && Rows(table.heap.pages) == Start(h) <==> old(Lost()) == Some({}))
                && (old(Unhurt()) ==> (ok <==> old(Roomy())) && (ok ==> Rows(table.heap.pages) == Start(h)))
                && (FirstTouch(old(tx.undoLog)) ==>
                      (ok && Rows(table.heap.pages) == Start(h) <==> old(Roomy()) && old(Unhurt())))
    {
      hide *;
      Opened();
      BeforeAbort();
      ghost var m, k := Rows(table.heap.pages), Keeping(table.heap.store.dirty, {}, {});
      ok := manager.Abort(tx, table.heap, m, k);
    }

    lemma BeforeAbort()
      requires Valid()
      ensures table.heap.Ready()
      ensures forall r :: r in tx.undoLog ==> r.rid.page in table.heap.pages && (r.RestoreRecord? ==> |r.tuple| < 0x1_0000)
      ensures Tracks(table.heap, Rows(table.heap.pages), Keeping(table.heap.store.dirty, {}, {}))
      ensures Lost() == Fate(Rows(table.heap.pages), SlotsOf(table.heap.pages), Keeping(table.heap.store.dirty, {}, {}),
                             tx.undoLog, table.heap.store.evicts, table.heap.store.calls)
      ensures Rewound(Rows(table.heap.pages), tx.undoLog) == Start(h)
      ensures Lost().Some? ==> (Minus(Start(h), Lost().value) == Start(h) <==> Lost().value == {})
      ensures Unhurt() ==> Lost() == if Roomy() then Some({}) else None
      ensures FirstTouch(tx.undoLog) ==> (Lost() == Some({}) <==> Roomy() && Unhurt())
    {
      ghost var own, slots, store := tx.exclusive, SlotsOf(table.heap.pages), table.heap.store;
      SettledTracks(table.heap);
      AloneChangesOwn(h, own, slots);
      RollbackKept(h, own, slots, store.dirty, store.evicts, store.calls);
      hide HeapModel.Rows;
      hide TableHeap.Ready;
      hide TableHeap.Settled;
      hide SlotsOf;
      hide Spared;
      hide Fate;
      hide Lawful;
      hide Fits;
    }

    /**
     * After a torn update the rollback does not give the record back, if nothing else in the log is about it: it was
     * there when the transaction began and is gone when it was aborted.
     */
    method UpdateAndAbort(rid: RID, t: seq<byte>) returns (ok: bool, ghost from: nat)
      requires Valid() && table.heap.Own(rid) && table.heap.store.CanAllocate() && |t| < 0x1_0000
      requires table.Tears(rid, |t|, tx) && !Mentions(tx.undoLog, rid)
      modifies this, manager, manager.locks, tx, table.heap, table.heap.store
      ensures old(table.heap.store.calls) <= from
      ensures ok && table.heap.store.Serves(from, |old(tx.undoLog)|) ==>
                rid in old(Start(h)) && rid !in Rows(table.heap.pages)
    {
      hide *;
      Opened();
      Tear(rid, t);
      SettledTracks(table.heap);
      ghost var m, k := Rows(table.heap.pages), Keeping(table.heap.store.dirty, {}, {});
      from := table.heap.store.calls;
      NotRewound(m, tx.undoLog, rid);
      NotInMinus(Rewound(m, tx.undoLog), rid);
      ok := manager.Abort(tx, table.heap, m, k);
    }

    method Tear(rid: RID, t: seq<byte>)
      requires Valid() && table.heap.Own(rid) && table.heap.store.CanAllocate() && |t| < 0x1_0000
      requires table.Tears(rid, |t|, tx) && !Mentions(tx.undoLog, rid)
      modifies table.heap, table.heap.store, table.locks, tx
      ensures manager.Valid() && table.heap.Ready() && table.heap.Settled() && tx.undoLog == old(tx.undoLog)
      ensures forall r :: r in tx.undoLog ==> r.rid.page in table.heap.pages && (r.RestoreRecord? ==> |r.tuple| < 0x1_0000)
      ensures rid in old(Start(h)) && rid !in Rows(table.heap.pages) && old(table.heap.store.calls) <= table.heap.store.calls
    {
      hide *;
      Opened();
      BeforeTear(rid, |t|);
      ghost var pages, log := table.heap.pages, tx.undoLog;
      LockingIs();
      var r, torn := table.Update(rid, t, tx);
      StillReplayable(log, pages, table.heap.pages);
      TableReady();
    }

    lemma LockingIs()
      ensures Locking(tx) == {tx}
    {
    }

    lemma TableReady()
      requires table.Ready()
      ensures table.heap.Ready()
    {
    }

    lemma BeforeTear(rid: RID, n: nat)
      requires Valid() && table.Tears(rid, n, tx) && !Mentions(tx.undoLog, rid)
      ensures rid in Start(h)
    {
      Untouched(h, tx.exclusive, SlotsOf(table.heap.pages), rid);
      TornRecord(rid, n);
      hide Table.Tears;
      hide HeapModel.Rows;
      hide TableHeap.Ready;
      hide TableHeap.Settled;
      hide Lawful;
    }

    lemma Opened()
      requires Valid()
      ensures manager.Valid() && table.Ready() && table.heap.Settled() && Replayable(tx.undoLog, table.heap.pages)
      ensures h.now == Rows(table.heap.pages) && table.locks == manager.locks
    {
    }

    lemma NotInMinus(m: HeapMap, rid: RID)
      requires rid !in m
      ensures forall lost :: rid !in Minus(m, lost)
    {
    }

    lemma TornRecord(rid: RID, n: nat)
      requires Valid() && table.Tears(rid, n, tx)
      ensures rid in Rows(table.heap.pages)
    {
    }

    lemma StillReplayable(log: seq<UndoRecord>, h: Pages, h': Pages)
      requires Replayable(log, h) && OnlyGrows(h, h')
      ensures forall r :: r in log ==> r.rid.page in h' && (r.RestoreRecord? ==> |r.tuple| < 0x1_0000)
    {
    }
  }
}
