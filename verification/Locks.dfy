/** The lock table, one transaction's lock sets, and the operations of the lock manager on them. */
module Locks {
  import opened HeapModel
  import opened Undo

  type TxId = nat

  datatype Mode = Shared | Exclusive

  datatype Request = Request(tx: TxId, mode: Mode, granted: bool)

  type Queue = seq<Request>
  type LockTable = map<RID, Queue>

  datatype TxState = Growing | Shrinking | Committed | Aborted

  datatype TxLocks = TxLocks(state: TxState, shared: set<RID>, exclusive: set<RID>)

  /** How the first half of a lock call ends; `Queued` waits on the condition variable. */
  datatype Outcome = Refused | Held | Granted | Queued

  datatype Locked = Locked(table: LockTable, locks: TxLocks, outcome: Outcome)

  function QueueOf(table: LockTable, rid: RID): Queue {
    if rid in table then table[rid] else []
  }

  function Without(q: Queue, t: TxId): (r: Queue)
    ensures forall x :: x in r <==> x in q && x.tx != t
  {
    if q == [] then [] else if q[0].tx == t then Without(q[1..], t) else [q[0]] + Without(q[1..], t)
  }

  predicate OneEach(q: Queue) {
    forall i, j :: 0 <= i < j < |q| ==> q[i].tx != q[j].tx
  }

  lemma {:induction false} WithoutOneEach(q: Queue, t: TxId)
    requires OneEach(q)
    ensures OneEach(Without(q, t))
  {
    if q != [] {
      WithoutOneEach(q[1..], t);
      assert forall x :: x in Without(q[1..], t) ==> x in q[1..] && x.tx != q[0].tx;
    }
  }

  predicate Compatible(a: Mode, b: Mode) {
    a.Shared? && b.Shared?
  }

  /** No other transaction holds the record in a conflicting mode. */
  predicate Grantable(q: Queue, t: TxId, mode: Mode) {
    forall r :: r in q && r.granted && r.tx != t ==> Compatible(mode, r.mode)
  }

  /** Nobody but `t` holds a lock here. */
  predicate HeldOnlyBy(q: Queue, t: TxId) {
    forall r :: r in q && r.granted ==> r.tx == t
  }

  /** Marks the transaction's request as granted. */
  function Grant(q: Queue, t: TxId): (r: Queue)
    ensures |r| == |q|
    ensures forall i :: 0 <= i < |q| ==> r[i] == if q[i].tx == t then q[i].(granted := true) else q[i]
  {
    seq(|q|, i requires 0 <= i < |q| => if q[i].tx == t then q[i].(granted := true) else q[i])
  }

  function AddLock(x: TxLocks, rid: RID, mode: Mode): TxLocks {
    if mode.Shared? then x.(shared := x.shared + {rid}) else x.(exclusive := x.exclusive + {rid})
  }

  /** Appends the request and grants it at once if no conflicting lock is held. */
  function Enqueue(table: LockTable, t: TxId, x: TxLocks, rid: RID, mode: Mode, q: Queue): Locked {
    var q' := q + [Request(t, mode, false)];
    if Grantable(q', t, mode) then Locked(table[rid := Grant(q', t)], AddLock(x, rid, mode), Granted)
    else Locked(table[rid := q'], x, Queued)
  }

  function LockShared(table: LockTable, t: TxId, x: TxLocks, rid: RID): Locked {
    if !x.state.Growing? then Locked(table, x, Refused)
    else if rid in x.shared || rid in x.exclusive then Locked(table, x, Held)
    else Enqueue(table, t, x, rid, Shared, QueueOf(table, rid))
  }

  /** An upgrade drops the shared lock before the exclusive request is queued. */
  function LockExclusive(table: LockTable, t: TxId, x: TxLocks, rid: RID): Locked {
    if !x.state.Growing? then Locked(table, x, Refused)
    else if rid in x.exclusive then Locked(table, x, Held)
    else if rid in x.shared then
      Enqueue(table, t, x.(shared := x.shared - {rid}), rid, Exclusive, Without(QueueOf(table, rid), t))
    else Enqueue(table, t, x, rid, Exclusive, QueueOf(table, rid))
  }

  /** A waiting request is granted when the predicate holds on wake-up. */
  function Wake(table: LockTable, t: TxId, x: TxLocks, rid: RID, mode: Mode): Locked {
    var q := QueueOf(table, rid);
    if Grantable(q, t, mode) then Locked(table[rid := Grant(q, t)], AddLock(x, rid, mode), Granted)
    else Locked(table, x, Queued)
  }

  /** A request still blocked when its time is up leaves the queue and dooms its transaction. */
  function TimeOut(table: LockTable, t: TxId, x: TxLocks, rid: RID): Locked {
    Locked(table[rid := Without(QueueOf(table, rid), t)], x.(state := Aborted), Refused)
  }

  function UnlockTable(table: LockTable, t: TxId, rids: set<RID>): LockTable {
    map rid | rid in table :: if rid in rids then Without(table[rid], t) else table[rid]
  }

  // ----- What a call leaves alone -----

  /** The requests of all transactions but `t` are what they were, on every record. */
  ghost predicate OnlyOwn(before: LockTable, after: LockTable, t: TxId) {
    forall rid, r: Request :: r.tx != t ==> (r in QueueOf(after, rid) <==> r in QueueOf(before, rid))
  }

  /** A transaction that does not wait has granted requests in the table for exactly what is in its lock sets. */
  ghost predicate Booked(table: LockTable, t: TxId, x: TxLocks) {
    forall rid, r: Request :: r.tx == t ==>
      (r in QueueOf(table, rid) <==> r.granted && rid in if r.mode.Shared? then x.shared else x.exclusive)
  }

  /** Granted requests of different transactions are all shared. */
  ghost predicate Compatibly(table: LockTable) {
    forall rid, a, b :: a in QueueOf(table, rid) && b in QueueOf(table, rid) && a.granted && b.granted && a.tx != b.tx ==>
                          Compatible(a.mode, b.mode)
  }

  /** The queue has a granted request of `t`, and of the others what it had; if it had none of `t`, that is all of it. */
  ghost predicate Granting(q: Queue, q': Queue, t: TxId, mode: Mode) {
    && Request(t, mode, true) in q' && (forall r: Request :: r.tx != t ==> (r in q' <==> r in q))
    && ((forall r :: r in q ==> r.tx != t) ==> forall r :: r in q' && r.tx == t ==> r == Request(t, mode, true))
  }

  lemma GrantMeans(q: Queue, t: TxId, mode: Mode)
    ensures Granting(q, Grant(q + [Request(t, mode, false)], t), t, mode)
  {
    var own, g := Request(t, mode, false), Grant(q + [Request(t, mode, false)], t);
    assert g[|q|] == Request(t, mode, true);
    forall r: Request | r.tx != t
      ensures r in g <==> r in q
    {
      if r in q {
        var i :| 0 <= i < |q| && q[i] == r;
        assert g[i] == r;
      }
      if r in g {
        var i :| 0 <= i < |g| && g[i] == r;
        assert i < |q| && q[i] == r;
      }
    }
    forall r | r in g && r.tx == t && forall o :: o in q ==> o.tx != t
      ensures r == Request(t, mode, true)
    {
      var i :| 0 <= i < |g| && g[i] == r;
      assert i < |q| ==> q[i] in q;
    }
  }

  /** A request that is appended is granted at once or waits; the others stay as they are either way. */
  lemma EnqueueMeans(table: LockTable, t: TxId, x: TxLocks, rid: RID, mode: Mode, q: Queue)
    ensures var l := Enqueue(table, t, x, rid, mode, q);
            && l.table == table[rid := QueueOf(l.table, rid)]
            && (l.outcome.Granted? || l.outcome.Queued?)
            && (l.outcome.Granted? <==> forall r :: r in q && r.granted && r.tx != t ==> mode.Shared? && r.mode.Shared?)
            && (l.outcome.Granted? ==> Granting(q, QueueOf(l.table, rid), t, mode) && l.locks == AddLock(x, rid, mode))
            && (l.outcome.Queued? ==> QueueOf(l.table, rid) == q + [Request(t, mode, false)] && l.locks == x)
  {
    var q' := q + [Request(t, mode, false)];
    assert forall r :: r in q' <==> r in q || r == Request(t, mode, false);
    GrantMeans(q, t, mode);
  }

  /** One queue was changed by a grant, or by taking the transaction out of it. */
  lemma OneQueue(before: LockTable, after: LockTable, t: TxId, rid: RID)
    requires after == before[rid := QueueOf(after, rid)]
    requires forall r: Request :: r.tx != t ==> (r in QueueOf(after, rid) <==> r in QueueOf(before, rid))
    ensures OnlyOwn(before, after, t)
    ensures forall r :: r != rid ==> QueueOf(after, r) == QueueOf(before, r)
  {
  }

  // ----- The classes -----

  class Transaction {
    const id: TxId
    var state: TxState
    var shared: set<RID>
    var exclusive: set<RID>
    var undoLog: seq<UndoRecord>

    constructor (id: TxId)
      ensures this.id == id && Locks() == TxLocks(Growing, {}, {}) && undoLog == []
    {
      this.id, state, shared, exclusive, undoLog := id, Growing, {}, {}, [];
    }

    method PushUndo(r: UndoRecord)
      modifies this`undoLog
      ensures undoLog == old(undoLog) + [r]
    {
      undoLog := undoLog + [r];
    }

    function Locks(): TxLocks
      reads this
    {
      TxLocks(state, shared, exclusive)
    }

    method SetState(s: TxState)
      modifies this`state
      ensures state == s
    {
      state := s;
    }
  }

  function Locking(tx: Transaction?): set<Transaction> {
    if tx == null then {} else {tx}
  }

  class LockManager {
    var table: LockTable

    constructor ()
      ensures table == map[]
    {
      table := map[];
    }

    static method CanGrant(q: Queue, t: TxId, mode: Mode) returns (ok: bool)
      ensures ok <==> Grantable(q, t, mode)
    {
      var i := 0;
      while i < |q|
        invariant 0 <= i <= |q|
        invariant forall k :: 0 <= k < i && q[k].granted && q[k].tx != t ==> Compatible(mode, q[k].mode)
      {
        if q[i].granted && q[i].tx != t {
          if mode.Exclusive? || q[i].mode.Exclusive? {
            return false;
          }
        }
        i := i + 1;
      }
      return true;
    }

    /** The shared part of both lock calls, from inserting the request to the first look at the predicate. */
    method Submit(tx: Transaction, rid: RID, mode: Mode) returns (outcome: Outcome)
      modifies this, tx`state, tx`shared, tx`exclusive
      ensures Locked(table, tx.Locks(), outcome) ==
              Enqueue(old(table), tx.id, old(tx.Locks()), rid, mode, QueueOf(old(table), rid))
    {
      var queue := QueueOf(table, rid) + [Request(tx.id, mode, false)];
      table := table[rid := queue];
      var ok := CanGrant(queue, tx.id, mode);
      if !ok {
        return Queued;
      }
      table := table[rid := Grant(queue, tx.id)];
      if mode.Shared? {
        tx.shared := tx.shared + {rid};
      } else {
        tx.exclusive := tx.exclusive + {rid};
      }
      return Granted;
    }

    method TryShared(tx: Transaction?, rid: RID) returns (outcome: Outcome)
      modifies this, Locking(tx)`state, Locking(tx)`shared, Locking(tx)`exclusive
      ensures tx == null ==> outcome == Refused && table == old(table)
      ensures tx != null ==>
                Locked(table, tx.Locks(), outcome) == LockShared(old(table), tx.id, old(tx.Locks()), rid)
    {
      if tx == null || !tx.state.Growing? {
        return Refused;
      }
      if rid in tx.shared || rid in tx.exclusive {
        return Held;
      }
      outcome := Submit(tx, rid, Shared);
    }

    method TryExclusive(tx: Transaction?, rid: RID) returns (outcome: Outcome)
      modifies this, Locking(tx)`state, Locking(tx)`shared, Locking(tx)`exclusive
      ensures tx == null ==> outcome == Refused && table == old(table)
      ensures tx != null ==>
                Locked(table, tx.Locks(), outcome) == LockExclusive(old(table), tx.id, old(tx.Locks()), rid)
    {
      if tx == null || !tx.state.Growing? {
        return Refused;
      }
      if rid in tx.exclusive {
        return Held;
      }
      if rid in tx.shared {
        table := table[rid := Without(QueueOf(table, rid), tx.id)];
        tx.shared := tx.shared - {rid};
        outcome := Submit(tx, rid, Exclusive);
        assert table == old(table)[rid := table[rid]];
      } else {
        outcome := Submit(tx, rid, Exclusive);
      }
    }

    /** Rechecks a waiting request, on a notification or when its time is up. */
    method Recheck(tx: Transaction, rid: RID, mode: Mode, expired: bool) returns (outcome: Outcome)
      modifies this, tx`state, tx`shared, tx`exclusive
      ensures var x := old(tx.Locks());
              Locked(table, tx.Locks(), outcome) ==
              if expired && !Grantable(QueueOf(old(table), rid), tx.id, mode) then TimeOut(old(table), tx.id, x, rid)
              else Wake(old(table), tx.id, x, rid, mode)
    {
      var queue := QueueOf(table, rid);
      var ok := CanGrant(queue, tx.id, mode);
      if ok {
        table := table[rid := Grant(queue, tx.id)];
        if mode.Shared? {
          tx.shared := tx.shared + {rid};
        } else {
          tx.exclusive := tx.exclusive + {rid};
        }
        return Granted;
      }
      if expired {
        table := table[rid := Without(queue, tx.id)];
        tx.SetState(Aborted);
        return Refused;
      }
      return Queued;
    }

    method RemoveAndNotify(rid: RID, t: TxId)
      modifies this
      ensures table == UnlockTable(old(table), t, {rid})
    {
      if rid !in table {
        return;
      }
      table := table[rid := Without(table[rid], t)];
    }

    method RemoveAll(rids: set<RID>, t: TxId)
      modifies this
      ensures table == UnlockTable(old(table), t, rids)
    {
      var todo := rids;
      while todo != {}
        invariant todo <= rids
        invariant table == UnlockTable(old(table), t, rids - todo)
        decreases todo
      {
        var rid :| rid in todo;
        RemoveAndNotify(rid, t);
        todo := todo - {rid};
      }
      assert rids - todo == rids;
    }

    method UnlockAll(tx: Transaction?)
      modifies this, Locking(tx)`state, Locking(tx)`shared, Locking(tx)`exclusive
      ensures tx == null ==> table == old(table)
      ensures tx != null ==>
                && tx.Locks() == TxLocks(old(tx.state), {}, {})
                && table == UnlockTable(old(table), tx.id, old(tx.shared + tx.exclusive))
    {
      if tx == null {
        return;
      }
      RemoveAll(tx.exclusive, tx.id);
      RemoveAll(tx.shared, tx.id);
      WithoutTwiceTable(old(table), tx.id, tx.exclusive, tx.shared);
      tx.exclusive := {};
      tx.shared := {};
    }
  }

  lemma {:induction false} WithoutTwice(q: Queue, t: TxId)
    ensures Without(Without(q, t), t) == Without(q, t)
  {
    if q != [] {
      WithoutTwice(q[1..], t);
    }
  }

  lemma WithoutTwiceTable(table: LockTable, t: TxId, a: set<RID>, b: set<RID>)
    ensures UnlockTable(UnlockTable(table, t, a), t, b) == UnlockTable(table, t, b + a)
  {
    forall rid | rid in table
      ensures Without(Without(table[rid], t), t) == Without(table[rid], t)
    {
      WithoutTwice(table[rid], t);
    }
  }
}
