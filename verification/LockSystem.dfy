/** All interleavings of the lock manager: every thread runs one transaction, and each step is one latched section. */
module LockSystem {
  import opened Bytes
  import opened HeapModel
  import opened Locks

  /** A read or a write of a record, the write possibly an undo, or the moment a transaction gives all its locks back. */
  datatype Event = Access(tx: TxId, rid: RID, mode: Mode, undo: bool) | Release(tx: TxId, commit: bool)

  /**
   * One transaction with its thread: what it waits for, which records its undo log names, whether it has
   * released its locks, on which records an upgrade gave its shared lock away and has not got a lock back,
   * and who wrote such a record meanwhile although this transaction had accessed it.
   */
  datatype Tx = Tx(
    locks: TxLocks, waiting: Option<(RID, Mode)>, logged: set<RID>, ending: Option<bool>, released: bool,
    lost: set<RID>, overtakers: set<TxId>)

  datatype Sys = Sys(table: LockTable, txs: map<TxId, Tx>, trace: seq<Event>)

  datatype Action =
    | Begin(t: TxId)
    | AskShared(t: TxId, rid: RID)
    | AskExclusive(t: TxId, rid: RID)
    | Notified(t: TxId, expired: bool)
    | Touch(t: TxId, rid: RID, mode: Mode)
    | Log(t: TxId, rid: RID)
    | End(t: TxId, commit: bool)
    | Undo(t: TxId, rid: RID)
    | UnlockAll(t: TxId)

  const EMPTY := Sys(map[], map[], [])

  predicate Holds(x: TxLocks, rid: RID, mode: Mode) {
    rid in x.exclusive || (mode.Shared? && rid in x.shared)
  }

  /** The thread of `t` runs: it is not blocked in a lock call. */
  predicate Runs(s: Sys, t: TxId) {
    t in s.txs && s.txs[t].waiting.None? && !s.txs[t].released
  }

  predicate Enabled(s: Sys, a: Action) {
    match a
    case Begin(t) => t !in s.txs
    case AskShared(t, rid) => Runs(s, t) && s.txs[t].ending.None?
    case AskExclusive(t, rid) => Runs(s, t) && s.txs[t].ending.None?
    case Notified(t, expired) => t in s.txs && s.txs[t].waiting.Some?
    case Touch(t, rid, mode) => Runs(s, t) && s.txs[t].locks.state.Growing? && Holds(s.txs[t].locks, rid, mode)
    case Log(t, rid) => Runs(s, t) && s.txs[t].locks.state.Growing? && rid in s.txs[t].locks.exclusive
    case End(t, commit) => Runs(s, t) && s.txs[t].ending.None?
    case Undo(t, rid) => Runs(s, t) && s.txs[t].ending == Some(false) && rid in s.txs[t].logged
    case UnlockAll(t) => Runs(s, t) && s.txs[t].ending.Some?
  }

  function Asked(x: Tx, r: Locked, rid: RID, mode: Mode, upgrade: bool): Tx {
    var y := x.(locks := r.locks);
    if r.outcome.Queued? then y.(waiting := Some((rid, mode)), lost := if upgrade then x.lost + {rid} else x.lost) else y
  }

  /** A waiting request comes to its grant; an upgrade has its lock back. */
  function Woken(x: Tx, r: Locked, rid: RID, mode: Mode): Tx {
    x.(locks := r.locks, waiting := None, lost := if mode.Exclusive? then x.lost - {rid} else x.lost)
  }

  predicate Accessed(trace: seq<Event>, t: TxId, rid: RID) {
    exists i :: 0 <= i < |trace| && trace[i].Access? && trace[i].tx == t && trace[i].rid == rid
  }

  /** Whether a write of `rid` by `t` slips in between an access of `u` and the lock `u` waits for. */
  predicate Overtakes(s: Sys, t: TxId, rid: RID, u: TxId) {
    u in s.txs && u != t && rid in s.txs[u].lost && Accessed(s.trace, u, rid)
  }

  /** An access is recorded, a write also with all it overtakes. */
  function Record(s: Sys, t: TxId, rid: RID, mode: Mode, undo: bool): Sys {
    var txs := map u | u in s.txs ::
      if mode.Exclusive? && Overtakes(s, t, rid, u) then s.txs[u].(overtakers := s.txs[u].overtakers + {t}) else s.txs[u];
    s.(txs := txs, trace := s.trace + [Access(t, rid, mode, undo)])
  }

  function Put(s: Sys, t: TxId, table: LockTable, x: Tx): Sys {
    s.(table := table, txs := s.txs[t := x])
  }

  function Next(s: Sys, a: Action): Sys
    requires Enabled(s, a)
  {
    match a
    case Begin(t) => s.(txs := s.txs[t := Tx(TxLocks(Growing, {}, {}), None, {}, None, false, {}, {})])
    case AskShared(t, rid) =>
      var r := LockShared(s.table, t, s.txs[t].locks, rid);
      Put(s, t, r.table, Asked(s.txs[t], r, rid, Shared, false))
    case AskExclusive(t, rid) =>
      var r := LockExclusive(s.table, t, s.txs[t].locks, rid);
      Put(s, t, r.table, Asked(s.txs[t], r, rid, Exclusive, rid in s.txs[t].locks.shared))
    case Notified(t, expired) =>
      var (rid, mode) := s.txs[t].waiting.value;
      var x := s.txs[t].locks;
      if Grantable(QueueOf(s.table, rid), t, mode) then
        var r := Wake(s.table, t, x, rid, mode);
        Put(s, t, r.table, Woken(s.txs[t], r, rid, mode))
      else if expired then
        var r := TimeOut(s.table, t, x, rid);
        Put(s, t, r.table, s.txs[t].(locks := r.locks, waiting := None))
      else s
    case Touch(t, rid, mode) => Record(s, t, rid, mode, false)
    case Log(t, rid) => Put(s, t, s.table, s.txs[t].(logged := s.txs[t].logged + {rid}))
    case End(t, commit) =>
      var x := s.txs[t];
      Put(s, t, s.table, x.(ending := Some(commit), locks := x.locks.(state := Shrinking)))
    case Undo(t, rid) => Record(s, t, rid, Exclusive, true)
    case UnlockAll(t) =>
      var x := s.txs[t];
      var state := if x.ending.value then Committed else Aborted;
      var s' := Put(s, t, UnlockTable(s.table, t, x.locks.shared + x.locks.exclusive),
                    x.(locks := TxLocks(state, {}, {}), released := true, lost := {}));
      s'.(trace := s.trace + [Release(t, x.ending.value)])
  }

  predicate Runnable(s: Sys, actions: seq<Action>)
    decreases |actions|
  {
    actions == [] || (Enabled(s, actions[0]) && Runnable(Next(s, actions[0]), actions[1..]))
  }

  function Run(s: Sys, actions: seq<Action>): Sys
    requires Runnable(s, actions)
    decreases |actions|
  {
    if actions == [] then s else Run(Next(s, actions[0]), actions[1..])
  }

  // ----- Lock safety and agreement -----

  /** At most one request per transaction, and granted requests of different transactions are all shared. */
  ghost predicate QueueOk(q: Queue) {
    && OneEach(q)
    && (forall a, b :: a in q && b in q && a.granted && b.granted && a.tx != b.tx ==> Compatible(a.mode, b.mode))
  }

  /** The queue and the transaction's own books tell the same story about `rid`. */
  ghost predicate Agree(q: Queue, t: TxId, x: Tx, rid: RID) {
    && (Request(t, Exclusive, true) in q <==> rid in x.locks.exclusive)
    && (Request(t, Shared, true) in q <==> rid in x.locks.shared)
    && (forall mode :: Request(t, mode, false) in q <==> x.waiting == Some((rid, mode)))
  }

  ghost predicate TxOk(x: Tx) {
    && (x.waiting.Some? ==> x.locks.state.Growing? && x.ending.None? && !x.released)
    && (x.ending.Some? ==> !x.locks.state.Growing?)
    && (x.released ==> x.ending.Some? && x.locks.shared == {} && x.locks.exclusive == {})
    && (!x.released ==> x.logged <= x.locks.exclusive)
    && (x.locks.state.Committed? ==> x.ending == Some(true))
  }

  ghost predicate LocksOk(s: Sys) {
    && (forall rid :: QueueOk(QueueOf(s.table, rid)))
    && (forall rid, r :: r in QueueOf(s.table, rid) ==> r.tx in s.txs)
    && (forall t, rid :: t in s.txs ==> Agree(QueueOf(s.table, rid), t, s.txs[t], rid))
    && (forall t :: t in s.txs ==> TxOk(s.txs[t]))
  }

  /** Only transaction `t` and, of its locks, only record `rid` are concerned. */
  ghost predicate OnlyAbout(x: Tx, y: Tx, rid: RID) {
    && (forall r :: r != rid ==> (r in y.locks.shared <==> r in x.locks.shared))
    && (forall r :: r != rid ==> (r in y.locks.exclusive <==> r in x.locks.exclusive))
    && (forall w :: x.waiting == Some(w) || y.waiting == Some(w) ==> w.0 == rid)
  }

  lemma QueueChange(s: Sys, t: TxId, rid: RID, q: Queue, y: Tx)
    requires LocksOk(s) && t in s.txs && OnlyAbout(s.txs[t], y, rid)
    requires QueueOk(q) && Agree(q, t, y, rid) && TxOk(y)
    requires forall r: Request :: r.tx != t ==> (r in q <==> r in QueueOf(s.table, rid))
    ensures LocksOk(Put(s, t, s.table[rid := q], y))
  {
    var s' := Put(s, t, s.table[rid := q], y);
    forall r: RID
      ensures QueueOf(s'.table, r) == if r == rid then q else QueueOf(s.table, r)
    {
    }
    forall r, x | x in QueueOf(s'.table, r)
      ensures x.tx in s'.txs
    {
      if r == rid && x.tx != t {
        assert x in QueueOf(s.table, rid);
      }
    }
    forall u, r | u in s'.txs
      ensures Agree(QueueOf(s'.table, r), u, s'.txs[u], r)
    {
      assert u in s.txs ==> Agree(QueueOf(s.table, r), u, s.txs[u], r);
    }
  }

  /** The same when no queue changes. */
  lemma BooksChange(s: Sys, t: TxId, y: Tx)
    requires LocksOk(s) && t in s.txs && TxOk(y)
    requires y.locks.shared == s.txs[t].locks.shared && y.locks.exclusive == s.txs[t].locks.exclusive
    requires y.waiting == s.txs[t].waiting
    ensures LocksOk(Put(s, t, s.table, y))
  {
    forall r
      ensures Agree(QueueOf(s.table, r), t, y, r)
    {
      assert Agree(QueueOf(s.table, r), t, s.txs[t], r);
    }
  }

  /** A transaction that does not wait has a request for `rid` exactly when it holds it. */
  lemma NoStranger(s: Sys, t: TxId, rid: RID, r: Request)
    requires LocksOk(s) && t in s.txs && s.txs[t].waiting.None?
    requires r in QueueOf(s.table, rid) && r.tx == t
    ensures r.granted && (if r.mode.Shared? then rid in s.txs[t].locks.shared else rid in s.txs[t].locks.exclusive)
  {
    assert Agree(QueueOf(s.table, rid), t, s.txs[t], rid);
  }

  /** Granting a request nobody else stands against keeps the queue compatible. */
  lemma GrantOk(q: Queue, t: TxId, mode: Mode)
    requires QueueOk(q) && Request(t, mode, false) in q && Grantable(q, t, mode)
    ensures QueueOk(Grant(q, t))
    ensures forall x :: x in Grant(q, t) <==> (x in q && x.tx != t) || x == Request(t, mode, true)
  {
    var g := Grant(q, t);
    var k :| 0 <= k < |q| && q[k] == Request(t, mode, false);
    assert g[k] == Request(t, mode, true);
    forall x | x in g
      ensures (x in q && x.tx != t) || x == Request(t, mode, true)
    {
      var i :| 0 <= i < |g| && g[i] == x;
      assert i != k ==> q[i].tx != t;
    }
    forall x | x in q && x.tx != t
      ensures x in g
    {
      var i :| 0 <= i < |q| && q[i] == x;
      assert g[i] == x;
    }
  }

  lemma AppendOk(q: Queue, t: TxId, mode: Mode)
    requires QueueOk(q) && forall x :: x in q ==> x.tx != t
    ensures QueueOk(q + [Request(t, mode, false)])
  {
  }

  /** Queueing a request of a transaction that has none for this record. */
  lemma EnqueueOk(s: Sys, t: TxId, rid: RID, mode: Mode, x: Tx, q: Queue, y: Tx)
    requires LocksOk(s) && t in s.txs && OnlyAbout(s.txs[t], x, rid) && TxOk(x)
    requires x.waiting.None? && x.locks.state.Growing? && x.ending.None?
    requires rid !in x.locks.shared && rid !in x.locks.exclusive
    requires QueueOk(q) && forall r: Request :: r in q <==> r in QueueOf(s.table, rid) && r.tx != t
    requires var r := Enqueue(s.table, t, x.locks, rid, mode, q);
             y.locks == r.locks && y.logged == x.logged && y.ending == x.ending && y.released == x.released
             && y.waiting == if r.outcome.Queued? then Some((rid, mode)) else None
    ensures LocksOk(Put(s, t, Enqueue(s.table, t, x.locks, rid, mode, q).table, y))
  {
    var q1 := q + [Request(t, mode, false)];
    AppendOk(q, t, mode);
    if Grantable(q1, t, mode) {
      GrantOk(q1, t, mode);
      QueueChange(s, t, rid, Grant(q1, t), y);
    } else {
      QueueChange(s, t, rid, q1, y);
    }
  }

  lemma AskSharedOk(s: Sys, t: TxId, rid: RID)
    requires LocksOk(s) && Enabled(s, AskShared(t, rid))
    ensures LocksOk(Next(s, AskShared(t, rid)))
  {
    var x := s.txs[t];
    var r := LockShared(s.table, t, x.locks, rid);
    if r.outcome.Refused? || r.outcome.Held? {
      BooksChange(s, t, x);
    } else {
      forall a | a in QueueOf(s.table, rid) && a.tx == t ensures false { NoStranger(s, t, rid, a); }
      EnqueueOk(s, t, rid, Shared, x, QueueOf(s.table, rid), Asked(x, r, rid, Shared, false));
    }
  }

  lemma AskExclusiveOk(s: Sys, t: TxId, rid: RID)
    requires LocksOk(s) && Enabled(s, AskExclusive(t, rid))
    ensures LocksOk(Next(s, AskExclusive(t, rid)))
  {
    var x := s.txs[t];
    var q := QueueOf(s.table, rid);
    var r := LockExclusive(s.table, t, x.locks, rid);
    var y := Asked(x, r, rid, Exclusive, rid in x.locks.shared);
    if r.outcome.Refused? || r.outcome.Held? {
      BooksChange(s, t, x);
    } else if rid in x.locks.shared {
      WithoutOneEach(q, t);
      EnqueueOk(s, t, rid, Exclusive, x.(locks := x.locks.(shared := x.locks.shared - {rid})), Without(q, t), y);
    } else {
      forall a | a in q && a.tx == t ensures false { NoStranger(s, t, rid, a); }
      EnqueueOk(s, t, rid, Exclusive, x, q, y);
    }
  }

  lemma WakeOk(s: Sys, t: TxId, rid: RID, mode: Mode)
    requires LocksOk(s) && t in s.txs && s.txs[t].waiting == Some((rid, mode))
    requires Grantable(QueueOf(s.table, rid), t, mode)
    ensures var r := Wake(s.table, t, s.txs[t].locks, rid, mode);
            LocksOk(Put(s, t, r.table, Woken(s.txs[t], r, rid, mode)))
  {
    var x, q := s.txs[t], QueueOf(s.table, rid);
    assert Agree(q, t, x, rid) && QueueOk(q);
    GrantOk(q, t, mode);
    OnlyRequest(q, t, mode);
    QueueChange(s, t, rid, Grant(q, t), Woken(x, Wake(s.table, t, x.locks, rid, mode), rid, mode));
  }

  lemma TimeOutOk(s: Sys, t: TxId, rid: RID, mode: Mode)
    requires LocksOk(s) && t in s.txs && s.txs[t].waiting == Some((rid, mode))
    ensures var r := TimeOut(s.table, t, s.txs[t].locks, rid);
            LocksOk(Put(s, t, r.table, s.txs[t].(locks := r.locks, waiting := None)))
  {
    var x, q := s.txs[t], QueueOf(s.table, rid);
    assert Agree(q, t, x, rid) && QueueOk(q);
    WithoutOneEach(q, t);
    OnlyRequest(q, t, mode);
    QueueChange(s, t, rid, Without(q, t), x.(locks := x.locks.(state := Aborted), waiting := None));
  }

  lemma NotifiedOk(s: Sys, t: TxId, expired: bool)
    requires LocksOk(s) && Enabled(s, Notified(t, expired))
    ensures LocksOk(Next(s, Notified(t, expired)))
  {
    hide LocksOk;
    var (rid, mode) := s.txs[t].waiting.value;
    if Grantable(QueueOf(s.table, rid), t, mode) {
      WakeOk(s, t, rid, mode);
    } else if expired {
      TimeOutOk(s, t, rid, mode);
    }
  }

  lemma OnlyRequest(q: Queue, t: TxId, mode: Mode)
    requires OneEach(q) && Request(t, mode, false) in q
    ensures forall x :: x in q && x.tx == t ==> x == Request(t, mode, false)
  {
  }

  lemma UnlockAllOk(s: Sys, t: TxId)
    requires LocksOk(s) && Enabled(s, UnlockAll(t))
    ensures LocksOk(Next(s, UnlockAll(t)))
    ensures forall rid, r :: r in QueueOf(Next(s, UnlockAll(t)).table, rid) ==> r.tx != t
  {
    var s' := Next(s, UnlockAll(t));
    var x := s.txs[t];
    forall rid: RID
      ensures forall r :: r in QueueOf(s'.table, rid) <==> r in QueueOf(s.table, rid) && r.tx != t
      ensures OneEach(QueueOf(s'.table, rid))
    {
      var q := QueueOf(s.table, rid);
      WithoutOneEach(q, t);
      forall r | r in q && r.tx == t ensures rid in x.locks.shared + x.locks.exclusive { NoStranger(s, t, rid, r); }
      assert QueueOk(q);
    }
    forall u, rid | u in s'.txs
      ensures Agree(QueueOf(s'.table, rid), u, s'.txs[u], rid)
    {
      assert Agree(QueueOf(s.table, rid), u, s.txs[u], rid);
    }
  }

  /** Recording an access changes no lock and no request. */
  lemma RecordOk(s: Sys, t: TxId, rid: RID, mode: Mode, undo: bool)
    requires LocksOk(s)
    ensures LocksOk(Record(s, t, rid, mode, undo))
  {
    var s' := Record(s, t, rid, mode, undo);
    forall u, r | u in s'.txs
      ensures Agree(QueueOf(s'.table, r), u, s'.txs[u], r) && TxOk(s'.txs[u])
    {
      assert Agree(QueueOf(s.table, r), u, s.txs[u], r) && TxOk(s.txs[u]);
    }
  }

  lemma BeginOk(s: Sys, t: TxId)
    requires LocksOk(s) && t !in s.txs
    ensures LocksOk(Next(s, Begin(t)))
  {
    var s' := Next(s, Begin(t));
    forall u, rid | u in s'.txs
      ensures Agree(QueueOf(s'.table, rid), u, s'.txs[u], rid)
    {
      assert u in s.txs ==> Agree(QueueOf(s.table, rid), u, s.txs[u], rid);
    }
  }

  /** Every step of every interleaving keeps the lock table safe and the books in agreement with it. */
  lemma StepKeepsLocks(s: Sys, a: Action)
    requires LocksOk(s) && Enabled(s, a)
    ensures LocksOk(Next(s, a))
  {
    match a
    case Begin(t) => BeginOk(s, t);
    case AskShared(t, rid) => AskSharedOk(s, t, rid);
    case AskExclusive(t, rid) => AskExclusiveOk(s, t, rid);
    case Notified(t, expired) => NotifiedOk(s, t, expired);
    case Touch(t, rid, mode) => RecordOk(s, t, rid, mode, false);
    case Log(t, rid) => BooksChange(s, t, Next(s, a).txs[t]);
    case End(t, commit) => BooksChange(s, t, Next(s, a).txs[t]);
    case Undo(t, rid) => RecordOk(s, t, rid, Exclusive, true);
    case UnlockAll(t) => UnlockAllOk(s, t);
  }
}
