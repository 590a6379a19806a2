/** Transactional row operations and the rollback of a transaction. */
module Tables {
  import opened Bytes
  import opened SlottedLayout
  import opened PageStores
  import opened HeapModel
  import opened HeapStates
  import opened TableHeaps
  import opened HeapScan
  import opened Undo
  import opened Losses
  import opened Locks

  /** The slot counts of a heap's pages. */
  function SlotsOf(h: Pages): Slots {
    map id | id in h :: h[id].slots
  }

  lemma {:induction false} HeldIsTotal(h: Pages, p: nat, n: nat)
    requires p in h
    ensures HeldBytes(Rows(h), p, n) == Compaction.TotalBytes(h[p].rows, n)
  {
    if n > 0 {
      HeldIsTotal(h, p, n - 1);
      RowsHome(h, RID(p, n - 1));
    }
  }

  lemma InsertedIsHome(heap: TableHeap, rid: RID)
    requires heap.Ready() && rid in Rows(heap.pages)
    ensures heap.Own(rid)
  {
  }

  lemma OnlyGrowsRefl(h: Pages)
    ensures OnlyGrows(h, h)
  {
  }

  /** A record id, nothing, or an exception. */
  datatype Answer = Row(rid: RID) | NoRow | Threw

  /** With nobody else running, the transaction gets the shared lock. */
  predicate Readable(x: TxLocks, q: Queue, t: TxId, rid: RID) {
    && x.state.Growing?
    && (rid in x.shared + x.exclusive || forall r :: r in q && r.granted && r.tx != t ==> r.mode.Shared?)
  }

  /** With nobody else running, the transaction gets the exclusive lock. */
  predicate Lockable(x: TxLocks, q: Queue, t: TxId, rid: RID) {
    x.state.Growing? && (rid in x.exclusive || HeldOnlyBy(q, t))
  }

  /** The sets of a transaction after a call for a lock; a growing one that does not get it is doomed. */
  function ReadLocked(x: TxLocks, rid: RID, ok: bool): TxLocks {
    if !ok then x.(state := if x.state.Growing? then Aborted else x.state)
    else if rid in x.shared + x.exclusive then x
    else x.(shared := x.shared + {rid})
  }

  function WriteLocked(x: TxLocks, rid: RID, ok: bool): TxLocks {
    if ok then x.(exclusive := x.exclusive + {rid}, shared := if rid in x.exclusive then x.shared else x.shared - {rid})
    else if !x.state.Growing? then x
    else x.(state := Aborted, shared := x.shared - {rid})
  }

  /** A call that waits in vain takes its request back. */
  function Blocking(l: Locked, t: TxId, rid: RID): Locked {
    if l.outcome.Queued? then TimeOut(l.table, t, l.locks, rid) else l
  }

  /**
   * The requests of others stay. If the table agreed with the transaction's lock sets it does so again, and if no
   * two transactions held conflicting locks none do.
   */
  ghost predicate Regular(before: LockTable, x: TxLocks, after: LockTable, y: TxLocks, t: TxId) {
    && OnlyOwn(before, after, t)
    && (Booked(before, t, x) ==> Booked(after, t, y))
    && (Booked(before, t, x) && Compatibly(before) ==> Compatibly(after))
  }

  lemma RegularTwice(a: LockTable, x: TxLocks, b: LockTable, y: TxLocks, c: LockTable, z: TxLocks, t: TxId)
    requires Regular(a, x, b, y, t) && Regular(b, y, c, z, t)
    ensures Regular(a, x, c, z, t)
  {
    hide Booked;
    hide Compatibly;
  }

  /** The request got its lock or was taken back; only its queue changed. */
  ghost predicate Settles(before: LockTable, x: TxLocks, after: LockTable, y: TxLocks, t: TxId, rid: RID) {
    Regular(before, x, after, y, t) && forall r :: r != rid ==> QueueOf(after, r) == QueueOf(before, r)
  }

  lemma SettlesMeans(before: LockTable, x: TxLocks, after: LockTable, y: TxLocks, t: TxId, rid: RID)
    requires Settles(before, x, after, y, t, rid)
    ensures Regular(before, x, after, y, t) && forall r :: r != rid ==> QueueOf(after, r) == QueueOf(before, r)
  {
  }

  /** The lock sets of a transaction, or none. */
  function LocksOf(tx: Transaction?): TxLocks
    reads tx
  {
    if tx == null then TxLocks(Growing, {}, {}) else tx.Locks()
  }

  function ReadLockedBy(tx: Transaction?, x: TxLocks, rid: RID, ok: bool): TxLocks {
    if tx == null then x else ReadLocked(x, rid, ok)
  }

  function WriteLockedBy(tx: Transaction?, x: TxLocks, rid: RID, ok: bool): TxLocks {
    if tx == null then x else WriteLocked(x, rid, ok)
  }

  lemma OrderlyTwice(a: LockTable, x: TxLocks, b: LockTable, y: TxLocks, c: LockTable, z: TxLocks, tx: Transaction?)
    requires Orderly(a, x, b, y, tx) && Orderly(b, y, c, z, tx)
    ensures Orderly(a, x, c, z, tx)
  {
    hide Regular;
    if tx != null {
      RegularTwice(a, x, b, y, c, z, tx.id);
    }
  }

  lemma OrderlyRefl(a: LockTable, x: TxLocks, tx: Transaction?)
    ensures Orderly(a, x, a, x, tx)
  {
  }

  /** The same for a call that may be on behalf of no transaction. */
  ghost predicate Orderly(before: LockTable, x: TxLocks, after: LockTable, y: TxLocks, tx: Transaction?) {
    if tx == null then after == before && y == x else Regular(before, x, after, y, tx.id)
  }

  /** What is granted beside compatible locks. */
  lemma GrantSettles(before: LockTable, x: TxLocks, after: LockTable, y: TxLocks, t: TxId, rid: RID, mode: Mode, q: Queue)
    requires after == before[rid := QueueOf(after, rid)] && Granting(q, QueueOf(after, rid), t, mode)
    requires forall r: Request :: r.tx != t ==> (r in q <==> r in QueueOf(before, rid))
    requires forall r :: r in q && r.granted && r.tx != t ==> mode.Shared? && r.mode.Shared?
    requires y == AddLock(x.(shared := x.shared - {rid}), rid, mode) && rid !in x.exclusive
    requires Booked(before, t, x) ==> forall r :: r in q ==> r.tx != t
    ensures Settles(before, x, after, y, t, rid)
  {
    OneQueue(before, after, t, rid);
  }

  lemma WithdrawSettles(before: LockTable, x: TxLocks, after: LockTable, y: TxLocks, t: TxId, rid: RID)
    requires after == before[rid := QueueOf(after, rid)]
    requires forall r :: r in QueueOf(after, rid) <==> r in QueueOf(before, rid) && r.tx != t
    requires y.shared == x.shared - {rid} && y.exclusive == x.exclusive && rid !in x.exclusive
    ensures Settles(before, x, after, y, t, rid)
  {
    OneQueue(before, after, t, rid);
  }

  lemma ReadSettles(table: LockTable, t: TxId, x: TxLocks, rid: RID)
    ensures var l := Blocking(LockShared(table, t, x, rid), t, rid);
            && Settles(table, x, l.table, l.locks, t, rid)
            && (l.outcome.Granted? || l.outcome.Held? <==> Readable(x, QueueOf(table, rid), t, rid))
            && l.locks == ReadLocked(x, rid, l.outcome.Granted? || l.outcome.Held?)
            && (l.outcome.Granted? ==> Request(t, Shared, true) in QueueOf(l.table, rid) && rid !in x.shared + x.exclusive)
            && (l.outcome.Held? ==> l.table == table && rid in x.shared + x.exclusive)
  {
    var q, l := QueueOf(table, rid), Blocking(LockShared(table, t, x, rid), t, rid);
    if x.state.Growing? && rid !in x.shared + x.exclusive {
      EnqueueMeans(table, t, x, rid, Shared, q);
      assert x.shared - {rid} == x.shared;
      if l.outcome.Granted? {
        GrantSettles(table, x, l.table, l.locks, t, rid, Shared, q);
      } else {
        WithdrawSettles(table, x, l.table, l.locks, t, rid);
      }
    }
  }

  lemma WriteSettles(table: LockTable, t: TxId, x: TxLocks, rid: RID)
    ensures var l := Blocking(LockExclusive(table, t, x, rid), t, rid);
            && Settles(table, x, l.table, l.locks, t, rid)
            && (l.outcome.Granted? || l.outcome.Held? <==> Lockable(x, QueueOf(table, rid), t, rid))
            && l.locks == WriteLocked(x, rid, l.outcome.Granted? || l.outcome.Held?)
            && (l.outcome.Granted? ==> Request(t, Exclusive, true) in QueueOf(l.table, rid) && rid !in x.exclusive)
            && (l.outcome.Held? ==> l.table == table && rid in x.exclusive)
  {
    var q, l := QueueOf(table, rid), Blocking(LockExclusive(table, t, x, rid), t, rid);
    if x.state.Growing? && rid !in x.exclusive {
      var y, q' := x.(shared := x.shared - {rid}), if rid in x.shared then Without(q, t) else q;
      EnqueueMeans(table, t, y, rid, Exclusive, q');
      assert rid !in x.shared ==> x.shared - {rid} == x.shared;
      if l.outcome.Granted? {
        GrantSettles(table, x, l.table, l.locks, t, rid, Exclusive, q');
      } else {
        WithdrawSettles(table, x, l.table, l.locks, t, rid);
      }
    } else if x.state.Growing? {
      assert x.exclusive + {rid} == x.exclusive;
    }
  }

  /** A blocking shared lock call with nobody else running: a request that has to wait runs out of time. */
  method LockForRead(locks: LockManager, tx: Transaction, rid: RID) returns (ok: bool)
    modifies locks, tx`state, tx`shared, tx`exclusive
    ensures ok <==> Readable(old(tx.Locks()), QueueOf(old(locks.table), rid), tx.id, rid)
    ensures tx.Locks() == ReadLocked(old(tx.Locks()), rid, ok)
    ensures if ok && rid !in old(tx.shared + tx.exclusive) then Request(tx.id, Shared, true) in QueueOf(locks.table, rid)
            else ok ==> locks.table == old(locks.table)
    ensures Settles(old(locks.table), old(tx.Locks()), locks.table, tx.Locks(), tx.id, rid)
  {
    hide Settles;
    hide Readable;
    hide ReadLocked;
    hide LockShared;
    hide Blocking;
    hide TimeOut;
    hide Grantable;
    ReadSettles(locks.table, tx.id, tx.Locks(), rid);
    ReadCases(locks.table, tx.id, tx.Locks(), rid);
    var outcome := locks.TryShared(tx, rid);
    if outcome.Queued? {
      outcome := locks.Recheck(tx, rid, Shared, true);
    }
    ok := outcome.Granted? || outcome.Held?;
  }

  lemma ReadCases(table: LockTable, t: TxId, x: TxLocks, rid: RID)
    ensures var l := LockShared(table, t, x, rid);
            && (l.outcome.Queued? ==> !Grantable(QueueOf(l.table, rid), t, Shared))
            && Blocking(l, t, rid) == if l.outcome.Queued? then TimeOut(l.table, t, l.locks, rid) else l
  {
  }

  /** A blocking exclusive lock call with nobody else running. */
  method LockForWrite(locks: LockManager, tx: Transaction, rid: RID) returns (ok: bool)
    modifies locks, tx`state, tx`shared, tx`exclusive
    ensures ok <==> Lockable(old(tx.Locks()), QueueOf(old(locks.table), rid), tx.id, rid)
    ensures tx.Locks() == WriteLocked(old(tx.Locks()), rid, ok)
    ensures if ok && rid !in old(tx.exclusive) then Request(tx.id, Exclusive, true) in QueueOf(locks.table, rid)
            else ok ==> locks.table == old(locks.table)
    ensures Settles(old(locks.table), old(tx.Locks()), locks.table, tx.Locks(), tx.id, rid)
  {
    hide Settles;
    hide Lockable;
    hide WriteLocked;
    hide LockExclusive;
    hide Blocking;
    hide TimeOut;
    hide Grantable;
    WriteSettles(locks.table, tx.id, tx.Locks(), rid);
    WriteCases(locks.table, tx.id, tx.Locks(), rid);
    var outcome := locks.TryExclusive(tx, rid);
    if outcome.Queued? {
      outcome := locks.Recheck(tx, rid, Exclusive, true);
    }
    ok := outcome.Granted? || outcome.Held?;
  }

  lemma WriteCases(table: LockTable, t: TxId, x: TxLocks, rid: RID)
    ensures var l := LockExclusive(table, t, x, rid);
            && (l.outcome.Queued? ==> !Grantable(QueueOf(l.table, rid), t, Exclusive))
            && Blocking(l, t, rid) == if l.outcome.Queued? then TimeOut(l.table, t, l.locks, rid) else l
  {
  }

  // ----- Scans -----

  /** A scan of a table on behalf of a transaction, or of none. */
  class TableScan {
    const scan: Scan
    const locks: LockManager
    const tx: Transaction?

    constructor (scan: Scan, locks: LockManager, tx: Transaction?)
      ensures this.scan == scan && this.locks == locks && this.tx == tx
    {
      this.scan, this.locks, this.tx := scan, locks, tx;
    }

    /**
     * Locks the record id under the cursor, then reads the next live record. The record read is
     * locked exactly when the cursor stood on a live one, or it was locked before.
     */
    method Next() returns (row: Option<(RID, seq<byte>)>)
      requires scan.Valid() && !scan.lost
      modifies scan, scan.heap`pages, scan.heap.store`calls, scan.heap.store`pages, scan.heap.store`dirty
      modifies locks, Locking(tx)`state, Locking(tx)`shared, Locking(tx)`exclusive
      ensures scan.Valid() && scan.Fetched(old(scan.pos), old(scan.heap.store.calls))
      ensures tx != null && !Readable(old(tx.Locks()), QueueOf(old(locks.table), old(scan.rid)), tx.id, old(scan.rid)) ==>
                row.None? && !scan.lost && scan.rid == old(scan.rid)
      ensures old(scan.heap.Settled()) ==> scan.heap.Settled() && scan.heap.pages == old(scan.heap.pages)
      ensures old(scan.heap.Settled()) && row.Some? ==> old(scan.Remaining()) == [row.value] + scan.Remaining()
      ensures old(scan.heap.Settled()) && row.Some? && tx != null ==>
                (row.value.0 in tx.shared + tx.exclusive <==>
                 old(scan.rid) in Rows(scan.heap.pages) || row.value.0 in old(tx.shared + tx.exclusive))
      ensures old(scan.heap.Settled()) && row.None? && !scan.lost
              && (tx != null ==> Readable(old(tx.Locks()), QueueOf(old(locks.table), old(scan.rid)), tx.id, old(scan.rid))) ==>
                old(scan.Remaining()) == []
      ensures LocksOf(tx) ==
              ReadLockedBy(tx, old(LocksOf(tx)), old(scan.rid), tx != null && old(
                  Readable(LocksOf(tx), QueueOf(locks.table, scan.rid), tx.id, scan.rid)))
      ensures Orderly(old(locks.table), old(LocksOf(tx)), locks.table, LocksOf(tx), tx)
    {
      hide HeapModel.Rows;
      hide HeapModel.IsChain;
      hide TableHeap.Ready;
      hide TableHeap.Settled;
      hide Scan.Remaining;
      hide Readable;
      hide Regular;
      hide Settles;
      if scan.current.Some? && scan.Remaining() != [] {
        scan.CursorHead();
      } else if scan.current.None? {
        scan.NoPage();
      }
      if tx != null {
        var ok := LockForRead(locks, tx, scan.rid);
        SettlesMeans(old(locks.table), old(tx.Locks()), locks.table, tx.Locks(), tx.id, scan.rid);
        if !ok {
          return None;
        }
      }
      row := scan.Next();
    }

    /** Wherever the cursor stands on a dead record id, the record read is not locked by the call. */
    method ReadUnlocked() returns (row: Option<(RID, seq<byte>)>)
      requires scan.Valid() && !scan.lost && scan.heap.Settled() && tx != null
      requires scan.rid !in Rows(scan.heap.pages) && Readable(tx.Locks(), QueueOf(locks.table, scan.rid), tx.id, scan.rid)
      requires scan.Remaining() != [] && scan.Remaining()[0].0 !in tx.shared + tx.exclusive
      requires forall n :: !scan.heap.store.starved(n)
      modifies scan, scan.heap`pages, scan.heap.store`calls, scan.heap.store`pages, scan.heap.store`dirty
      modifies locks, tx`state, tx`shared, tx`exclusive
      ensures row == Some(old(scan.Remaining())[0]) && row.value.0 !in tx.shared + tx.exclusive
    {
      hide HeapModel.Rows;
      hide TableHeap.Ready;
      hide TableHeap.Settled;
      hide Scan.Remaining;
      hide Readable;
      row := Next();
    }
  }

  // ----- Row operations -----

  class Table {
    const heap: TableHeap
    const locks: LockManager

    constructor (heap: TableHeap, locks: LockManager)
      ensures this.heap == heap && this.locks == locks
    {
      this.heap, this.locks := heap, locks;
    }

    ghost predicate Ready()
      reads heap, heap.store
    {
      heap.Ready()
    }

    /** With nobody else running, the record can be locked exclusively; without a transaction nothing is locked. */
    predicate CanWrite(tx: Transaction?, rid: RID)
      reads locks, tx
    {
      tx != null ==> Lockable(tx.Locks(), QueueOf(locks.table, rid), tx.id, rid)
    }

    predicate CanRead(tx: Transaction?, rid: RID)
      reads locks, tx
    {
      tx != null ==> Readable(tx.Locks(), QueueOf(locks.table, rid), tx.id, rid)
    }

    /** Takes the exclusive lock if there is a transaction to take it for. */
    method Claim(rid: RID, tx: Transaction?) returns (ok: bool)
      modifies locks, Locking(tx)`state, Locking(tx)`shared, Locking(tx)`exclusive
      ensures ok <==> old(CanWrite(tx, rid))
      ensures LocksOf(tx) == WriteLockedBy(tx, old(LocksOf(tx)), rid, ok)
      ensures forall r :: r != rid ==> QueueOf(locks.table, r) == QueueOf(old(locks.table), r)
      ensures ok ==> forall r :: r != rid ==> CanWrite(tx, r) == old(CanWrite(tx, r))
      ensures Orderly(old(locks.table), old(LocksOf(tx)), locks.table, LocksOf(tx), tx)
    {
      hide Regular;
      hide Settles;
      if tx == null {
        return true;
      }
      ok := LockForWrite(locks, tx, rid);
      SettlesMeans(old(locks.table), old(tx.Locks()), locks.table, tx.Locks(), tx.id, rid);
    }

    /** The bytes of a record, read under a shared lock. */
    method Get(rid: RID, tx: Transaction?) returns (r: Option<seq<byte>>)
      requires Ready() && heap.Own(rid)
      modifies heap`pages, heap.store`calls, heap.store`pages, heap.store`dirty
      modifies locks, Locking(tx)`state, Locking(tx)`shared, Locking(tx)`exclusive
      ensures Ready() && old(heap.store.calls) <= heap.store.calls
      ensures r == if old(CanRead(tx, rid)) && !heap.store.starved(old(heap.store.calls))
                      && rid in Rows(old(heap.pages)) && Rows(old(heap.pages))[rid] != []
                   then Some(Rows(old(heap.pages))[rid]) else None
      ensures LocksOf(tx) == ReadLockedBy(tx, old(LocksOf(tx)), rid, old(CanRead(tx, rid)))
      ensures Orderly(old(locks.table), old(LocksOf(tx)), locks.table, LocksOf(tx), tx)
      ensures old(heap.Settled()) ==> heap.Settled() && heap.pages == old(heap.pages)
    {
      hide HeapModel.Rows;
      hide HeapModel.IsChain;
      hide TableHeap.Ready;
      hide TableHeap.Settled;
      hide TableHeap.TakesAs;
      hide Moved;
      hide Readable;
      hide ReadLocked;
      hide Regular;
      hide Settles;
      if tx != null {
        var ok := LockForRead(locks, tx, rid);
        SettlesMeans(old(locks.table), old(tx.Locks()), locks.table, tx.Locks(), tx.id, rid);
        if !ok {
          return None;
        }
      }
      r := heap.Get(rid);
    }

    /** The record id an insertion of `n` bytes gives. */
    ghost function NewRid(n: nat): RID
      reads heap, heap.store
    {
      heap.Target(heap.Lands(INVALID_PAGE_ID, n))
    }

    /** The creation of a page behind the last one is the first refused of the calls after the next `n`. */
    ghost predicate NoneCreated(n: nat)
      reads heap, heap.store
    {
      heap.store.FirstRefused(heap.store.calls + n, |heap.chain|)
    }

    /** The bytes of an insertion get a place. */
    ghost predicate GetsPlace(n: nat)
      reads heap, heap.store
    {
      n <= MAX_TUPLE && heap.store.Serves(heap.store.calls, CallsTo(heap.Lands(INVALID_PAGE_ID, n), |heap.chain|))
    }

    /** The insertion goes through: its bytes get a place, and the new record id is free to be locked. */
    ghost predicate Inserts(n: nat, tx: Transaction?)
      reads heap, heap.store, locks, tx
    {
      GetsPlace(n) && CanWrite(tx, NewRid(n))
    }

    /**
     * A row is added exactly when it gets a place and its new record id can be locked; an addition whose lock
     * fails is taken back, unless that call is refused.
     */
    method Insert(t: seq<byte>, tx: Transaction?) returns (r: Answer)
      requires Ready() && heap.store.CanAllocate()
      modifies heap, heap.store, locks, Locking(tx)
      ensures Ready() && OnlyGrows(old(heap.pages), heap.pages) && old(heap.store.calls) <= heap.store.calls
      ensures r.Row? && tx != null ==>
                tx.undoLog == old(tx.undoLog) + LogOf(Change.Inserted(r.rid, t)) && r.rid in tx.exclusive
      ensures !r.Row? && tx != null ==> tx.undoLog == old(tx.undoLog)
      ensures tx != null ==> old(tx.exclusive) <= tx.exclusive
      ensures |t| > MAX_TUPLE ==> r.Threw?
      ensures old(heap.Settled()) ==> (r.Threw? <==> old(!GetsPlace(|t|)) && (|t| > MAX_TUPLE || old(NoneCreated(0))))
      ensures r.Row? ==> r.rid in Rows(heap.pages) && Rows(heap.pages)[r.rid] == t
      ensures old(heap.Settled()) ==> heap.Settled()
      ensures old(heap.Settled()) ==> (r.Row? <==> old(Inserts(|t|, tx))) && (r.Row? ==> r.rid == old(NewRid(|t|)))
      ensures old(heap.Settled()) && r.Row? ==>
                Performs(Rows(old(heap.pages)), Change.Inserted(r.rid, t), Rows(heap.pages))
      ensures old(heap.Settled()) && !r.Row? ==>
                || Rows(heap.pages) == Rows(old(heap.pages))
                || (old(GetsPlace(|t|)) && !heap.store.NeverStarved(old(heap.store.calls))
                    && old(NewRid(|t|)) !in Rows(old(heap.pages))
                    && Rows(heap.pages) == Rows(old(heap.pages))[old(NewRid(|t|)) := t])
      ensures r.Row? ==> LocksOf(tx) == WriteLockedBy(tx, old(LocksOf(tx)), r.rid, true)
      ensures old(heap.Settled()) && !r.Row? ==>
                LocksOf(tx) == if old(GetsPlace(|t|)) then WriteLockedBy(tx, old(LocksOf(tx)), old(NewRid(|t|)), false)
                               else old(LocksOf(tx))
      ensures Orderly(old(locks.table), old(LocksOf(tx)), locks.table, LocksOf(tx), tx)
    {
      hide HeapModel.Rows;
      hide HeapModel.IsChain;
      hide TableHeap.Ready;
      hide TableHeap.Settled;
      hide TableHeap.Lands;
      hide TableHeap.Target;
      hide TableHeap.Found;
      hide Grown;
      hide Drawn;
      hide CanWrite;
      hide Orderly;
      ghost var m, x := Rows(heap.pages), LocksOf(tx);
      ghost var newRid := NewRid(|t|);
      OrderlyRefl(locks.table, x, tx);
      var inserted;
      ghost var found;
      ghost var a := heap.Now();
      inserted, found := heap.Insert(t);
      GrownMeans(a, heap.Now());
      if !inserted.Inserted? {
        return if inserted.NoFrame? then NoRow else Threw;
      }
      var rid := inserted.rid;
      var ok := Claim(rid, tx);
      if !ok {
        ghost var c := heap.store.calls;
        TakeBack(rid);
        assert heap.store.starved(c) ==> !heap.store.NeverStarved(old(heap.store.calls));
        assert m[rid := t] - {rid} == m || rid in m;
        return NoRow;
      }
      if tx != null {
        tx.PushUndo(DeleteRecord(rid));
      }
      return Row(rid);
    }

    /** Deletes a record just inserted that could not be locked. */
    method TakeBack(rid: RID)
      requires Ready() && rid in Rows(heap.pages)
      modifies heap`pages, heap`backed, heap.store
      ensures Ready() && OnlyGrows(old(heap.pages), heap.pages) && heap.store.calls == old(heap.store.calls) + 1
      ensures old(heap.Settled()) ==> heap.Settled()
      ensures old(heap.Settled()) ==>
                Rows(heap.pages) ==
                if heap.store.starved(old(heap.store.calls)) then Rows(old(heap.pages)) else Rows(old(heap.pages)) - {rid}
    {
      InsertedIsHome(heap, rid);
      hide HeapModel.Rows;
      hide HeapModel.IsChain;
      hide TableHeap.Ready;
      hide TableHeap.Settled;
      hide TableHeap.Found;
      hide Grown;
      ghost var a := heap.Now();
      var deleted := heap.Delete(rid);
      GrownMeans(a, heap.Now());
    }

    lemma GrownMeans(a: State, b: State)
      requires Grown(a, b)
      ensures OnlyGrows(a.pages, b.pages)
    {
    }

    /** The record can be locked, is there and not empty, and both calls that concern its page go through. */
    ghost predicate Begins(rid: RID, tx: Transaction?)
      reads heap, heap.store, locks, tx
    {
      && CanWrite(tx, rid) && rid in Rows(heap.pages) && Rows(heap.pages)[rid] != []
      && heap.store.Serves(heap.store.calls, 2)
    }

    method Delete(rid: RID, tx: Transaction?) returns (ok: bool)
      requires Ready() && heap.Own(rid)
      modifies heap, heap.store, locks, Locking(tx)
      ensures Ready() && OnlyGrows(old(heap.pages), heap.pages) && old(heap.store.calls) <= heap.store.calls
      ensures ok <==> old(Begins(rid, tx))
      ensures ok ==> heap.store.calls == old(heap.store.calls) + 2
      ensures tx != null ==> old(tx.exclusive) <= tx.exclusive && (ok ==> rid in tx.exclusive)
      ensures tx != null ==>
                tx.undoLog == if ok then old(tx.undoLog) + LogOf(Deleted(rid, Rows(old(heap.pages))[rid])) else old(tx.undoLog)
      ensures old(heap.Settled()) ==> heap.Settled()
      ensures old(heap.Settled()) && ok ==>
                Performs(Rows(old(heap.pages)), Deleted(rid, Rows(old(heap.pages))[rid]), Rows(heap.pages))
      ensures old(heap.Settled()) && !ok ==> Rows(heap.pages) == Rows(old(heap.pages))
      ensures LocksOf(tx) == WriteLockedBy(tx, old(LocksOf(tx)), rid, old(CanWrite(tx, rid)))
      ensures Orderly(old(locks.table), old(LocksOf(tx)), locks.table, LocksOf(tx), tx)
    {
      hide HeapModel.Rows;
      hide HeapModel.IsChain;
      hide TableHeap.Ready;
      hide TableHeap.Settled;
      hide CanWrite;
      hide Orderly;
      OnlyGrowsRefl(heap.pages);
      hide OnlyGrows;
      var locked := Claim(rid, tx);
      if !locked {
        return false;
      }
      var bytes := Take(rid);
      if bytes.None? {
        return false;
      }
      if tx != null {
        tx.PushUndo(RestoreRecord(rid, bytes.value));
      }
      return true;
    }

    /** Reads a record, then deletes it. */
    method Take(rid: RID) returns (bytes: Option<seq<byte>>)
      requires Ready() && heap.Own(rid)
      modifies heap`pages, heap`backed, heap.store
      ensures Ready() && OnlyGrows(old(heap.pages), heap.pages) && old(heap.store.calls) <= heap.store.calls
      ensures bytes == if rid in Rows(old(heap.pages)) && Rows(old(heap.pages))[rid] != []
                          && heap.store.Serves(old(heap.store.calls), 2)
                       then Some(Rows(old(heap.pages))[rid]) else None
      ensures bytes.Some? ==> heap.store.calls == old(heap.store.calls) + 2
      ensures old(heap.Settled()) ==>
                && heap.Settled()
                && Rows(heap.pages) == if bytes.Some? then Rows(old(heap.pages)) - {rid} else Rows(old(heap.pages))
    {
      hide HeapModel.Rows;
      hide HeapModel.IsChain;
      hide TableHeap.Ready;
      hide TableHeap.Settled;
      hide TableHeap.Found;
      hide TableHeap.Fits;
      hide TableHeap.Lands;
      hide MovedTo;
      hide Grown;
      ghost var c, a := heap.store.calls, heap.Now();
      bytes := Look(rid, 0);
      GrownMeans(a, heap.Now());
      if bytes.None? {
        assert heap.store.starved(c) ==> !heap.store.Serves(c, 2);
        return None;
      }
      ghost var b := heap.Now();
      StillOwn(rid);
      var deleted := heap.Delete(rid);
      GrownTrans(a, b, heap.Now());
      GrownMeans(a, heap.Now());
      if !deleted {
        assert heap.store.starved(c + 1);
        return None;
      }
    }

    lemma FoundSame(rid: RID)
      requires heap.Ready()
      ensures rid in Rows(heap.Found(rid.page)) <==> rid in Rows(heap.pages)
      ensures rid in Rows(heap.pages) ==> Rows(heap.Found(rid.page))[rid] == Rows(heap.pages)[rid]
    {
      heap.FoundSlots(rid.page);
      RowsHome(heap.pages, rid);
      RowsHome(heap.Found(rid.page), rid);
      hide TableHeap.Ready;
      hide TableHeap.Found;
      hide HeapModel.Rows;
    }

    lemma StillOwn(rid: RID)
      requires heap.Ready() && rid in Rows(heap.pages)
      ensures heap.Own(rid)
    {
    }

    /** Where a record that does not fit on its page any more goes. */
    ghost function MovedTo(rid: RID, n: nat): RID
      reads heap, heap.store
    {
      heap.Target(heap.Lands(rid.page, n))
    }

    /** A record that does not fit on its page any more finds another place. */
    ghost predicate FindsPlace(rid: RID, n: nat)
      reads heap, heap.store
    {
      n <= MAX_TUPLE && heap.store.Serves(heap.store.calls + 2, CallsTo(heap.Lands(rid.page, n), |heap.chain|))
    }

    /**
     * The update deletes the old record and then fails: the new bytes do not fit on its page, and they are too
     * long, or find no place, or the record id they get is held by another transaction.
     */
    ghost predicate Tears(rid: RID, n: nat, tx: Transaction?)
      reads heap, heap.store, locks, tx
    {
      Begins(rid, tx) && !heap.Fits(rid, n) && !(FindsPlace(rid, n) && CanWrite(tx, MovedTo(rid, n)))
    }

    lemma SameFits(v: View, rid: RID, n: nat)
      requires rid.page in v && rid.page in heap.store.pages && v[rid.page] == heap.store.pages[rid.page]
      ensures var p := v[rid.page];
              heap.Fits(rid, n) <==> SlottedLayout.Valid(p) && rid.slot in Contents(p) && InPlace(p, rid.slot, n)
    {
    }

    /** A live record that is updated to more bytes than a page can hold is torn. */
    lemma OversizeTears(rid: RID, n: nat, tx: Transaction?)
      requires Ready() && Begins(rid, tx) && n > MAX_TUPLE
      ensures Tears(rid, n, tx)
    {
      RowsHome(heap.pages, rid);
      heap.OversizeFits(rid, n);
    }

    /** Reads a record, then replaces it. */
    method Exchange(rid: RID, t: seq<byte>) returns (bytes: Option<seq<byte>>, updated: UpdateResult)
      requires Ready() && heap.Own(rid) && heap.store.CanAllocate() && |t| < 0x1_0000
      modifies heap, heap.store
      ensures OnlyGrows(old(heap.pages), heap.pages) && old(heap.store.calls) <= heap.store.calls
      ensures updated.Updated? || updated.Lost? <==>
              rid in Rows(old(heap.pages)) && Rows(old(heap.pages))[rid] != [] && heap.store.Serves(old(heap.store.calls), 2)
      ensures updated.Updated? || updated.Lost? ==> bytes == Some(Rows(old(heap.pages))[rid])
      ensures updated.Lost? ==> (updated.cause.NoFrame? <==> |t| <= MAX_TUPLE && old(!NoneCreated(2)))
      ensures updated.Updated? || updated.Lost? ==> old(heap.Fits(rid, |t|)) ==> updated == Updated(rid)
      ensures updated.Updated? ==> updated.rid in Rows(heap.pages) && Rows(heap.pages)[updated.rid] == t
      ensures old(heap.Settled()) ==>
                && heap.Settled()
                && Rows(heap.pages) == (if updated.Updated? then (Rows(old(heap.pages)) - {rid})[updated.rid := t]
                                        else if updated.Lost? then Rows(old(heap.pages)) - {rid} else Rows(old(heap.pages)))
                && (updated.Updated? ==> updated.rid == rid || updated.rid !in Rows(old(heap.pages)))
      ensures old(heap.Settled()) && (updated.Updated? || updated.Lost?) && !old(heap.Fits(rid, |t|)) ==>
                && (updated.Updated? <==> old(FindsPlace(rid, |t|)))
                && (updated.Updated? ==> updated.rid == old(MovedTo(rid, |t|)) != rid)
      ensures Ready()
    {
      hide HeapModel.Rows;
      hide HeapModel.IsChain;
      hide TableHeap.Ready;
      hide TableHeap.Settled;
      hide Grown;
      hide Drawn;
      hide TableHeap.Lands;
      hide TableHeap.Target;
      hide TableHeap.Fits;
      hide OnlyGrows;
      hide PageStore.FirstRefused;
      ghost var c, a := heap.store.calls, heap.Now();
      if rid in Rows(heap.pages) {
        RowsHome(heap.pages, rid);
        heap.TargetElsewhere(rid, |t|);
      }
      bytes := Look(rid, |t|);
      GrownMeans(a, heap.Now());
      if bytes.None? {
        assert heap.store.starved(c) ==> !heap.store.Serves(c, 2);
        return None, Missing;
      }
      ghost var b := heap.Now();
      StillOwn(rid);
      ghost var found;
      updated, found := heap.Update(rid, t);
      GrownTrans(a, b, heap.Now());
      GrownMeans(a, heap.Now());
      assert updated.Unread? ==> heap.store.starved(c + 1);
    }

    /** Reads a record; what an update of it to `n` bytes would do stays as it was. */
    method Look(rid: RID, ghost n: nat) returns (bytes: Option<seq<byte>>)
      requires Ready() && heap.Own(rid)
      modifies heap`pages, heap.store`calls, heap.store`pages, heap.store`dirty
      ensures Ready() && Grown(old(heap.Now()), heap.Now()) && heap.store.calls == old(heap.store.calls) + 1
      ensures bytes == if rid in Rows(old(heap.pages)) && Rows(old(heap.pages))[rid] != []
                          && !heap.store.starved(old(heap.store.calls))
                       then Some(Rows(old(heap.pages))[rid]) else None
      ensures bytes.Some? ==> rid in Rows(heap.pages) && rid.page in heap.pages && Rows(heap.pages)[rid] == bytes.value
      ensures bytes.Some? ==> heap.Fits(rid, n) == old(heap.Fits(rid, n))
      ensures old(heap.Settled()) ==>
                && heap.Settled() && heap.pages == old(heap.pages)
                && heap.Lands(rid.page, n) == old(heap.Lands(rid.page, n))
                && MovedTo(rid, n) == old(MovedTo(rid, n))
    {
      hide HeapModel.Rows;
      hide HeapModel.IsChain;
      hide TableHeap.Ready;
      hide TableHeap.Settled;
      hide TableHeap.TakesAs;
      hide TableHeap.Found;
      hide Moved;
      hide Grown;
      hide InPlace;
      hide Landing;
      ghost var a, h := heap.Now(), heap.pages;
      RowsHome(heap.pages, rid);
      FoundSame(rid);
      ghost var settled := heap.Settled();
      bytes := heap.Get(rid);
      GrownAfterGet(a, h);
      RowsHome(heap.pages, rid);
      if rid.page in heap.pages {
        SameFits(a.views.shown, rid, n);
      }
      if settled {
        heap.LandsSame(a.views.shown, rid.page, n);
      }
    }

    /**
     * `torn` tells of an update that returns nothing although the old record is gone; nothing is logged then. With
     * everything saved, that happens exactly when `Tears` says so beforehand.
     */
    method Update(rid: RID, t: seq<byte>, tx: Transaction?) returns (r: Answer, ghost torn: bool)
      requires Ready() && heap.Own(rid) && heap.store.CanAllocate() && |t| < 0x1_0000
      modifies heap, heap.store, locks, Locking(tx)
      ensures Ready() && OnlyGrows(old(heap.pages), heap.pages) && old(heap.store.calls) <= heap.store.calls
      ensures tx != null ==> old(tx.exclusive) <= tx.exclusive && (r.Row? ==> rid in tx.exclusive && r.rid in tx.exclusive)
      ensures r.Row? || torn <==> old(Begins(rid, tx))
      ensures r.Row? ==> !torn && r.rid in Rows(heap.pages) && Rows(heap.pages)[r.rid] == t
      ensures tx != null ==>
                tx.undoLog == if r.Row? then old(tx.undoLog) + LogOf(Replaced(rid, Rows(old(heap.pages))[rid], r.rid, t))
                              else old(tx.undoLog)
      ensures old(heap.Settled()) ==> heap.Settled() && (torn <==> old(Tears(rid, |t|, tx)))
      ensures old(heap.Settled()) && r.Row? ==>
                Performs(Rows(old(heap.pages)), Replaced(rid, Rows(old(heap.pages))[rid], r.rid, t), Rows(heap.pages))
      ensures old(heap.Settled()) && torn ==>
                var m := Rows(old(heap.pages)) - {rid};
                Rows(heap.pages) == if old(FindsPlace(rid, |t|)) then m[old(MovedTo(rid, |t|)) := t] else m
      ensures old(heap.Settled()) && torn ==>
                rid !in Rows(heap.pages) && (old(FindsPlace(rid, |t|)) ==> old(MovedTo(rid, |t|)) !in Rows(old(heap.pages)))
      ensures old(heap.Settled()) && !r.Row? && !torn ==> Rows(heap.pages) == Rows(old(heap.pages))
      ensures !r.Row? && !torn ==> LocksOf(tx) == WriteLockedBy(tx, old(LocksOf(tx)), rid, old(CanWrite(tx, rid)))
      ensures r.Row? && r.rid == rid ==> LocksOf(tx) == WriteLockedBy(tx, old(LocksOf(tx)), rid, true)
      ensures r.Row? && r.rid != rid ==>
                LocksOf(tx) == WriteLockedBy(tx, WriteLockedBy(tx, old(LocksOf(tx)), rid, true), r.rid, true)
      ensures old(heap.Settled()) && torn ==>
                var x := WriteLockedBy(tx, old(LocksOf(tx)), rid, true);
                LocksOf(tx) == if old(FindsPlace(rid, |t|)) then WriteLockedBy(tx, x, old(MovedTo(rid, |t|)), false) else x
      ensures Orderly(old(locks.table), old(LocksOf(tx)), locks.table, LocksOf(tx), tx)
      ensures r.Threw? ==> torn
      ensures old(heap.Settled()) && torn ==>
                (r.Threw? <==> old(!FindsPlace(rid, |t|)) && (|t| > MAX_TUPLE || old(NoneCreated(2))))
    {
      hide HeapModel.Rows;
      hide HeapModel.IsChain;
      hide TableHeap.Ready;
      hide TableHeap.Settled;
      hide TableHeap.Fits;
      hide CanWrite;
      hide MovedTo;
      hide FindsPlace;
      hide Orderly;
      torn := false;
      OnlyGrowsRefl(heap.pages);
      var locked := Claim(rid, tx);
      if !locked {
        return NoRow, false;
      }
      ghost var to, b, y := MovedTo(rid, |t|), locks.table, LocksOf(tx);
      var bytes, updated := Exchange(rid, t);
      if !updated.Updated? {
        return if updated.Lost? && !updated.cause.NoFrame? then Threw else NoRow, updated.Lost?;
      }
      var now := updated.rid;
      if now != rid {
        var too := Claim(now, tx);
        OrderlyTwice(old(locks.table), old(LocksOf(tx)), b, y, locks.table, LocksOf(tx), tx);
        if !too {
          return NoRow, true;
        }
      }
      if tx != null {
        tx.PushUndo(RestoreRecord(rid, bytes.value));
        tx.PushUndo(DeleteRecord(now));
      }
      return Row(now), false;
    }

    lemma GrownAfterGet(a: State, h: Pages)
      requires Moved(a, heap.Now()) && a.pages == h
      ensures Grown(a, heap.Now()) && OnlyGrows(h, heap.pages)
    {
    }
  }

  // ----- Rollback -----

  /** The heap shows and keeps what `m` and `k` tell. */
  ghost predicate Tracks(heap: TableHeap, m: HeapMap, k: Keeping)
    reads heap, heap.store
  {
    Tied(Rows(heap.pages), Rows(heap.backed), m, k) && k.dirty == heap.store.dirty
  }

  lemma SettledTracks(heap: TableHeap)
    requires heap.Settled()
    ensures Tracks(heap, Rows(heap.pages), Keeping(heap.store.dirty, {}, {}))
  {
    TiedStart(Rows(heap.pages), heap.store.dirty);
  }

  lemma FadedRows(h: Pages, b: Pages, gone: set<nat>)
    requires h.Keys == b.Keys
    ensures Rows(Faded(h, b, gone)) == Blend(Rows(h), Rows(b), gone)
  {
    var f := Faded(h, b, gone);
    assert forall r: RID :: r in Rows(f) <==> r in Blend(Rows(h), Rows(b), gone);
  }

  lemma SavedRows(b: Pages, h: Pages, id: nat)
    requires h.Keys == b.Keys && id in h
    ensures Rows(b[id := h[id]]) == Blend(Rows(b), Rows(h), {id})
  {
    var f := b[id := h[id]];
    assert forall r: RID :: r in Rows(f) <==> r in Blend(Rows(b), Rows(h), {id});
  }

  lemma SameKeys(heap: TableHeap)
    requires heap.Ready()
    ensures heap.pages.Keys == heap.backed.Keys
  {
  }

  /** The pages as the next call finds them, in terms of records. */
  lemma FoundRows(heap: TableHeap, m: HeapMap, k: Keeping, r: UndoRecord)
    requires heap.Ready() && Tracks(heap, m, k) && !heap.store.starved(heap.store.calls)
    ensures var p := r.rid.page;
            var gone := heap.store.Gone({p});
            && gone == GoneAt(heap.store.evicts, heap.store.calls, r)
            && Tied(Rows(heap.Found(p)), Rows(heap.backed), m, Evicted(k, gone))
            && (r.rid in Rows(heap.Found(p)) <==> r.rid in Rows(heap.pages))
  {
    SameKeys(heap);
    var gone := heap.store.Gone({r.rid.page});
    FadedRows(heap.pages, heap.backed, gone);
    TiedEvicted(Rows(heap.pages), Rows(heap.backed), m, k, gone);
    hide HeapModel.Rows;
    hide TableHeap.Ready;
    hide Tied;
    hide Evicted;
  }

  /** One undo step: deletions ignore whether there was anything to delete. */
  method UndoOne(r: UndoRecord, heap: TableHeap, ghost m: HeapMap, ghost k: Keeping) returns (ok: bool)
    requires heap.Ready() && r.rid.page in heap.pages && (r.RestoreRecord? ==> |r.tuple| < 0x1_0000)
    modifies heap`pages, heap`backed, heap.store
    ensures heap.Ready() && SlotsOf(heap.pages) == SlotsOf(old(heap.pages)) && heap.store.calls == old(heap.store.calls) + 1
    ensures old(Tracks(heap, m, k)) && !heap.store.starved(old(heap.store.calls)) ==>
              var before := Evicted(k, GoneAt(heap.store.evicts, old(heap.store.calls), r));
              && (ok <==> ReplayOne(Minus(m, before.lost), SlotsOf(old(heap.pages)), r).Some?)
              && (ok ==> Tracks(heap, RewoundOne(m, r), Undone(m, before, r)))
  {
    match r
    case DeleteRecord(rid) =>
      UndoInsert(rid, heap, m, k);
      return true;
    case RestoreRecord(rid, t) =>
      ok := UndoDelete(rid, t, heap, m, k);
  }

  method UndoInsert(rid: RID, heap: TableHeap, ghost m: HeapMap, ghost k: Keeping)
    requires heap.Ready() && rid.page in heap.pages
    modifies heap`pages, heap`backed, heap.store
    ensures heap.Ready() && SlotsOf(heap.pages) == SlotsOf(old(heap.pages)) && heap.store.calls == old(heap.store.calls) + 1
    ensures old(Tracks(heap, m, k)) && !heap.store.starved(old(heap.store.calls)) ==>
              var r := DeleteRecord(rid);
              Tracks(heap, RewoundOne(m, r), Undone(m, Evicted(k, GoneAt(heap.store.evicts, old(heap.store.calls), r)), r))
  {
    hide HeapModel.Rows;
    hide TableHeap.Ready;
    hide TableHeap.Settled;
    hide Grown;
    hide Faded;
    hide Tied;
    hide Undone;
    hide Evicted;
    hide GoneAt;
    hide TableHeap.Found;
    ghost var f, b := Rows(heap.Found(rid.page)), heap.backed;
    ghost var tracked := Tracks(heap, m, k) && !heap.store.starved(heap.store.calls);
    ghost var before := Evicted(k, GoneAt(heap.store.evicts, heap.store.calls, DeleteRecord(rid)));
    if tracked {
      FoundRows(heap, m, k, DeleteRecord(rid));
      DirtyLeft(k, heap.store.Gone({rid.page}));
    }
    SameKeys(heap);
    var deleted := heap.Delete(rid);
    SameSlotsOf(old(heap.pages), heap.pages);
    SameKeys(heap);
    if tracked {
      UndoneDirty(m, before, DeleteRecord(rid));
      TiedShown(f, Rows(b), m, before);
      if deleted {
        SavedRows(b, heap.pages, rid.page);
        TiedDeleted(f, Rows(b), m, before, rid);
      } else {
        TiedAbsent(f, Rows(b), m, before, rid);
      }
    }
  }

  lemma SameSlotsOf(h: Pages, h': Pages)
    requires SameSlots(h, h')
    ensures SlotsOf(h) == SlotsOf(h') && h.Keys == h'.Keys
  {
  }

  lemma UndoneDirty(m: HeapMap, k: Keeping, r: UndoRecord)
    ensures Undone(m, k, r).dirty == if r.DeleteRecord? && r.rid in Minus(m, k.lost) then k.dirty + {r.rid.page} else k.dirty
  {
  }

  lemma TiedShown(shown: HeapMap, saved: HeapMap, m: HeapMap, k: Keeping)
    requires Tied(shown, saved, m, k)
    ensures shown == Minus(m, k.lost)
  {
  }

  /** Whether the record finds its slot and room, by the page it is on. */
  lemma RoomOn(f: Pages, rid: RID, t: seq<byte>)
    requires rid.page in f
    ensures ReplayOne(Rows(f), SlotsOf(f), RestoreRecord(rid, t)).Some? <==>
            rid !in Rows(f) && rid.slot < f[rid.page].slots && Room(f[rid.page], |t|)
  {
    HeldIsTotal(f, rid.page, f[rid.page].slots);
    hide HeldBytes;
    hide Compaction.TotalBytes;
    hide HeapModel.Rows;
  }

  lemma RoomFound(heap: TableHeap, rid: RID, t: seq<byte>)
    requires heap.Ready() && rid.page in heap.pages
    ensures ReplayOne(Rows(heap.Found(rid.page)), SlotsOf(heap.pages), RestoreRecord(rid, t)).Some? <==>
            && rid !in Rows(heap.pages) && rid.slot < heap.pages[rid.page].slots && Room(heap.pages[rid.page], |t|)
    ensures rid in Rows(heap.Found(rid.page)) <==> rid in Rows(heap.pages)
  {
    hide TableHeap.Ready;
    hide TableHeap.Found;
    hide ReplayOne;
    hide Room;
    var f, p := heap.Found(rid.page), rid.page;
    heap.FoundSlots(p);
    SameSlotsOf(heap.pages, f);
    RowsHome(f, rid);
    RowsHome(heap.pages, rid);
    hide HeapModel.Rows;
    RoomOn(f, rid, t);
  }

  method UndoDelete(rid: RID, t: seq<byte>, heap: TableHeap, ghost m: HeapMap, ghost k: Keeping) returns (ok: bool)
    requires heap.Ready() && rid.page in heap.pages && |t| < 0x1_0000
    modifies heap`pages, heap`backed, heap.store
    ensures heap.Ready() && SlotsOf(heap.pages) == SlotsOf(old(heap.pages)) && heap.store.calls == old(heap.store.calls) + 1
    ensures old(Tracks(heap, m, k)) && !heap.store.starved(old(heap.store.calls)) ==>
              var r := RestoreRecord(rid, t);
              var before := Evicted(k, GoneAt(heap.store.evicts, old(heap.store.calls), r));
              && (ok <==> ReplayOne(Minus(m, before.lost), SlotsOf(old(heap.pages)), r).Some?)
              && (ok ==> Tracks(heap, RewoundOne(m, r), Undone(m, before, r)))
  {
    hide HeapModel.Rows;
    hide TableHeap.Ready;
    hide TableHeap.Settled;
    hide Grown;
    hide Faded;
    hide Tied;
    hide Undone;
    hide Evicted;
    hide GoneAt;
    hide ReplayOne;
    hide Room;
    hide TableHeap.Found;
    ghost var r := RestoreRecord(rid, t);
    ghost var f, b := Rows(heap.Found(rid.page)), heap.backed;
    ghost var tracked := Tracks(heap, m, k) && !heap.store.starved(heap.store.calls);
    ghost var before := Evicted(k, GoneAt(heap.store.evicts, heap.store.calls, r));
    RoomFound(heap, rid, t);
    if tracked {
      FoundRows(heap, m, k, r);
      DirtyLeft(k, heap.store.Gone({rid.page}));
      TiedShown(f, Rows(b), m, before);
      UndoneDirty(m, before, r);
    }
    SameKeys(heap);
    var restored := heap.Restore(rid, t);
    SameSlotsOf(old(heap.pages), heap.pages);
    SameKeys(heap);
    ok := !restored.AssertionFailed?;
    if tracked && ok {
      SavedRows(b, heap.pages, rid.page);
      TiedRestored(f, Rows(b), m, before, rid, t);
    }
  }

  lemma DirtyLeft(k: Keeping, gone: set<nat>)
    ensures Evicted(k, gone).dirty == k.dirty - gone
  {
  }

  /**
   * Replays a transaction's log in reverse; false stands for an assertion that fires in a restore. Unless a call
   * is refused, this is so exactly when a record to be restored finds its slot taken or no room, and otherwise the
   * records are the rewound ones but for those that were lost on the way.
   */
  method Rewind(log: seq<UndoRecord>, heap: TableHeap, ghost m: HeapMap, ghost k: Keeping) returns (ok: bool)
    requires heap.Ready()
    requires forall r :: r in log ==> r.rid.page in heap.pages && (r.RestoreRecord? ==> |r.tuple| < 0x1_0000)
    modifies heap`pages, heap`backed, heap.store
    ensures heap.Ready() && SlotsOf(heap.pages) == SlotsOf(old(heap.pages))
    ensures old(Tracks(heap, m, k)) && heap.store.Serves(old(heap.store.calls), |log|) ==>
              var fate := Fate(m, SlotsOf(old(heap.pages)), k, log, heap.store.evicts, old(heap.store.calls));
              && (ok <==> fate.Some?)
              && (ok ==> Rows(heap.pages) == Minus(Rewound(m, log), fate.value))
              && (ok && Rows(heap.pages) == Rewound(m, log) <==> fate == Some({}))
  {
    hide HeapModel.Rows;
    hide TableHeap.Ready;
    hide SlotsOf;
    hide Tied;
    hide ReplayOne;
    hide Undone;
    hide RewoundOne;
    hide Evicted;
    hide GoneAt;
    ghost var h, c, m', k' := heap.pages, heap.store.calls, m, k;
    ghost var tracked := Tracks(heap, m, k) && heap.store.Serves(c, |log|);
    if tracked {
      LossesShow(heap, m, k, log);
    }
    var i := |log|;
    assert log[..i] == log;
    while i > 0
      invariant 0 <= i <= |log| && heap.Ready() && SlotsOf(heap.pages) == SlotsOf(h)
      invariant heap.store.calls == c + |log| - i
      invariant tracked ==>
                  && Tracks(heap, m', k') && Rewound(m', log[..i]) == Rewound(m, log)
                  && Fate(m', SlotsOf(h), k', log[..i], heap.store.evicts, heap.store.calls) ==
                     Fate(m, SlotsOf(h), k, log, heap.store.evicts, c)
    {
      i := i - 1;
      assert log[..i + 1][..i] == log[..i];
      assert log[i] in log;
      PagesStay(h, heap.pages, log[i].rid.page);
      ghost var before := Evicted(k', GoneAt(heap.store.evicts, heap.store.calls, log[i]));
      var done := UndoOne(log[i], heap, m', k');
      if !done {
        return false;
      }
      m', k' := RewoundOne(m', log[i]), Undone(m', before, log[i]);
    }
    if tracked {
      TiedShown(Rows(heap.pages), Rows(heap.backed), m', k');
    }
    return true;
  }

  /** A rollback that loses a record does not end in the rewound records. */
  lemma LossesShow(heap: TableHeap, m: HeapMap, k: Keeping, log: seq<UndoRecord>)
    requires Tracks(heap, m, k)
    ensures var fate := Fate(m, SlotsOf(heap.pages), k, log, heap.store.evicts, heap.store.calls);
            fate.Some? ==> (Minus(Rewound(m, log), fate.value) == Rewound(m, log) <==> fate.value == {})
  {
    var fate := Fate(m, SlotsOf(heap.pages), k, log, heap.store.evicts, heap.store.calls);
    LostWereRestored(m, SlotsOf(heap.pages), k, log, heap.store.evicts, heap.store.calls);
    if fate.Some? {
      MinusNothing(Rewound(m, log), fate.value);
    }
  }

  lemma PagesStay(h: Pages, h': Pages, id: nat)
    requires SlotsOf(h) == SlotsOf(h')
    ensures id in h <==> id in h'
  {
    assert id in h <==> id in SlotsOf(h);
    assert id in h' <==> id in SlotsOf(h');
  }

  // ----- Transactions -----

  class TransactionManager {
    const locks: LockManager
    var nextId: nat
    var active: map<TxId, Transaction>

    constructor (locks: LockManager)
      ensures Valid() && this.locks == locks && active == map[] && nextId == 0
    {
      this.locks, nextId, active := locks, 0, map[];
    }

    /** Ids grow, so a new transaction never shares its id with an active one. */
    ghost predicate Valid()
      reads this
    {
      forall id :: id in active ==> id < nextId && active[id].id == id
    }

    method Begin() returns (tx: Transaction)
      requires Valid()
      modifies this
      ensures Valid() && fresh(tx) && tx.id !in old(active) && active == old(active)[tx.id := tx]
      ensures tx.Locks() == TxLocks(Growing, {}, {}) && tx.undoLog == []
      ensures tx.id == old(nextId) && nextId == old(nextId) + 1
    {
      tx := new Transaction(nextId);
      nextId := nextId + 1;
      active := active[tx.id := tx];
    }

    /** Releases what the lock sets name; no request is left behind if the transaction has none elsewhere. */
    method Commit(tx: Transaction)
      requires Valid()
      modifies this, locks, tx
      ensures Valid() && active == old(active) - {tx.id}
      ensures tx.Locks() == TxLocks(Committed, {}, {})
      ensures locks.table == UnlockTable(old(locks.table), tx.id, old(tx.shared + tx.exclusive))
      ensures RequestsOf(locks.table, tx.id) == RequestsOf(old(locks.table), tx.id) - old(tx.shared + tx.exclusive)
      ensures OnlyOwn(old(locks.table), locks.table, tx.id) && (old(Compatibly(locks.table)) ==> Compatibly(locks.table))
      ensures old(Booked(locks.table, tx.id, tx.Locks())) ==> Booked(locks.table, tx.id, tx.Locks())
    {
      UnlockRegular(locks.table, tx.id, tx.Locks());
      tx.SetState(Shrinking);
      Unlocked(locks.table, tx.id, tx.shared + tx.exclusive);
      locks.UnlockAll(tx);
      tx.SetState(Committed);
      active := active - {tx.id};
    }

    /**
     * Undo happens while all locks are still held; when an assertion fires nothing after it happens. What comes
     * back is told by `Rewound` and `Fate`.
     */
    method Abort(tx: Transaction, heap: TableHeap, ghost m: HeapMap, ghost k: Keeping) returns (ok: bool)
      requires Valid() && heap.Ready()
      requires forall r :: r in tx.undoLog ==> r.rid.page in heap.pages && (r.RestoreRecord? ==> |r.tuple| < 0x1_0000)
      modifies this, locks, tx, heap, heap.store
      ensures Valid() && heap.Ready() && SlotsOf(heap.pages) == SlotsOf(old(heap.pages))
      ensures old(Tracks(heap, m, k)) && heap.store.Serves(old(heap.store.calls), |old(tx.undoLog)|) ==>
                var fate := Fate(m, SlotsOf(old(heap.pages)), k, old(tx.undoLog), heap.store.evicts, old(heap.store.calls));
                && (ok <==> fate.Some?)
                && (ok ==> Rows(heap.pages) == Minus(Rewound(m, old(tx.undoLog)), fate.value))
                && (ok && Rows(heap.pages) == Rewound(m, old(tx.undoLog)) <==> fate == Some({}))
      ensures ok ==>
                && active == old(active) - {tx.id} && tx.Locks() == TxLocks(Aborted, {}, {})
                && locks.table == UnlockTable(old(locks.table), tx.id, old(tx.shared + tx.exclusive))
      ensures !ok ==> locks.table == old(locks.table) && tx.Locks() == old(tx.Locks()).(state := Shrinking)
      ensures OnlyOwn(old(locks.table), locks.table, tx.id) && (old(Compatibly(locks.table)) ==> Compatibly(locks.table))
      ensures old(Booked(locks.table, tx.id, tx.Locks())) ==> Booked(locks.table, tx.id, tx.Locks())
    {
      hide HeapModel.Rows;
      hide HeapModel.IsChain;
      hide TableHeap.Ready;
      hide Tied;
      hide Booked;
      hide Compatibly;
      hide OnlyOwn;
      UnlockRegular(locks.table, tx.id, tx.Locks());
      tx.SetState(Shrinking);
      ok := Rewind(tx.undoLog, heap, m, k);
      if !ok {
        return;
      }
      locks.UnlockAll(tx);
      tx.SetState(Aborted);
      active := active - {tx.id};
    }
  }

  /** Giving everything back concerns no other transaction, and leaves nothing of a transaction that does not wait. */
  lemma UnlockRegular(table: LockTable, t: TxId, x: TxLocks)
    ensures var after := UnlockTable(table, t, x.shared + x.exclusive);
            && OnlyOwn(table, after, t) && (Compatibly(table) ==> Compatibly(after))
            && (Booked(table, t, x) ==> forall state :: Booked(after, t, TxLocks(state, {}, {})))
            && OnlyOwn(table, table, t) && (Booked(table, t, x) ==> forall state :: Booked(table, t, x.(state := state)))
  {
    var after := UnlockTable(table, t, x.shared + x.exclusive);
    assert forall rid, r :: r in QueueOf(after, rid) ==> r in QueueOf(table, rid);
  }

  /** The records on which the transaction has a request, granted or waiting. */
  function RequestsOf(table: LockTable, t: TxId): set<RID> {
    set rid | rid in table && HasRequest(table[rid], t)
  }

  predicate HasRequest(q: Queue, t: TxId) {
    exists r :: r in q && r.tx == t
  }

  lemma Unlocked(table: LockTable, t: TxId, rids: set<RID>)
    ensures RequestsOf(UnlockTable(table, t, rids), t) == RequestsOf(table, t) - rids
  {
    var after := UnlockTable(table, t, rids);
    assert forall rid :: rid in table && rid in rids ==> !HasRequest(after[rid], t);
  }
}
