/** Strict two-phase locking makes every interleaving of lock-protected accesses conflict-serializable. */
module Serializability {
  import opened Bytes
  import opened HeapModel
  import opened Locks
  import opened LockSystem

  predicate Conflict(a: Mode, b: Mode) {
    a.Exclusive? || b.Exclusive?
  }

  predicate IsRelease(e: Event, t: TxId) {
    e.Release? && e.tx == t
  }

  /** The transaction holds a lock for such accesses, or an upgrade of it gave the lock away and waits to have it back. */
  predicate Covers(x: Tx, rid: RID, mode: Mode) {
    Holds(x.locks, rid, mode) || (mode.Shared? && rid in x.lost)
  }

  /** Every access is still covered until its transaction releases its locks. */
  ghost predicate Covered(s: Sys) {
    && (forall i :: 0 <= i < |s.trace| && s.trace[i].Access? ==>
          var e := s.trace[i];
          e.tx in s.txs && (!s.txs[e.tx].released ==> Covers(s.txs[e.tx], e.rid, e.mode)))
    && (forall t :: t in s.txs && s.txs[t].released ==> s.txs[t].lost == {})
    && (forall i :: 0 <= i < |s.trace| && s.trace[i].Access? && s.trace[i].undo ==>
          s.trace[i].tx in s.txs && s.txs[s.trace[i].tx].ending == Some(false))
  }

  /** The trace records the release of exactly the released transactions, once, after all they did. */
  ghost predicate ReleasesLast(s: Sys) {
    && (forall i, j :: 0 <= i < j < |s.trace| && s.trace[i].Release? ==> s.trace[j].tx != s.trace[i].tx)
    && (forall i :: 0 <= i < |s.trace| && s.trace[i].Release? ==>
          var e := s.trace[i];
          e.tx in s.txs && s.txs[e.tx].released && (e.commit <==> s.txs[e.tx].locks.state.Committed?))
    && (forall t :: t in s.txs && s.txs[t].released ==> exists k :: 0 <= k < |s.trace| && IsRelease(s.trace[k], t))
  }

  ghost predicate ReleasedBetween(trace: seq<Event>, t: TxId, i: int, j: int)
    requires 0 <= i && j <= |trace|
  {
    exists k :: i < k < j && IsRelease(trace[k], t)
  }

  /** Between two conflicting accesses the first transaction has released its locks, unless the second overtook it. */
  ghost predicate Strict(s: Sys) {
    forall i, j | 0 <= i < j < |s.trace| && Conflicting(s.trace[i], s.trace[j]) ::
      ReleasedBetween(s.trace, s.trace[i].tx, i, j) || Ahead(s, s.trace[i], s.trace[j])
  }

  /** A write of a transaction that overtook the reader. */
  predicate Ahead(s: Sys, a: Event, b: Event)
    requires a.Access? && b.Access?
  {
    Overtook(s, b.tx, a.tx) && a.mode.Shared? && b.mode.Exclusive?
  }

  predicate Overtook(s: Sys, u: TxId, t: TxId) {
    t in s.txs && u in s.txs[t].overtakers
  }

  /** `u` wrote what `t` had read, before `t` released its locks. */
  ghost predicate Slipped(trace: seq<Event>, u: TxId, t: TxId) {
    exists i, j :: 0 <= i < j < |trace| && SlippedAt(trace, u, t, i, j)
  }

  ghost predicate SlippedAt(trace: seq<Event>, u: TxId, t: TxId, i: int, j: int)
    requires 0 <= i < j < |trace|
  {
    && Conflicting(trace[i], trace[j]) && trace[i].tx == t && trace[j].tx == u
    && trace[j].mode.Exclusive? && !ReleasedBetween(trace, t, i, j)
  }

  ghost predicate Founded(s: Sys) {
    forall t, u :: Overtook(s, u, t) ==> Slipped(s.trace, u, t)
  }

  predicate Conflicting(a: Event, b: Event) {
    a.Access? && b.Access? && a.tx != b.tx && a.rid == b.rid && Conflict(a.mode, b.mode)
  }

  ghost predicate TraceOk(s: Sys) {
    LocksOk(s) && Covered(s) && ReleasesLast(s) && Strict(s) && Founded(s)
  }

  /** Two transactions never hold conflicting locks on a record at once. */
  lemma Exclusion(s: Sys, t: TxId, u: TxId, rid: RID, m: Mode, n: Mode)
    requires LocksOk(s) && t in s.txs && u in s.txs && t != u
    requires Holds(s.txs[t].locks, rid, m) && Holds(s.txs[u].locks, rid, n)
    ensures !Conflict(m, n)
  {
    var q := QueueOf(s.table, rid);
    assert QueueOk(q) && Agree(q, t, s.txs[t], rid) && Agree(q, u, s.txs[u], rid);
  }

  /** A conflicting access behind an access of a transaction that still has its locks can only overtake it. */
  lemma OnlyOvertakes(s: Sys, t: TxId, rid: RID, mode: Mode, undo: bool, i: nat)
    requires TraceOk(s) && t in s.txs && !s.txs[t].released && Holds(s.txs[t].locks, rid, mode)
    requires i < |s.trace| && Conflicting(s.trace[i], Access(t, rid, mode, undo)) && !s.txs[s.trace[i].tx].released
    ensures mode.Exclusive? && s.trace[i].mode.Shared? && Overtakes(s, t, rid, s.trace[i].tx)
  {
    var e := s.trace[i];
    if Holds(s.txs[e.tx].locks, rid, e.mode) {
      Exclusion(s, e.tx, t, rid, e.mode, mode);
    }
    assert Accessed(s.trace, e.tx, rid);
  }

  lemma ReleasedAfter(s: Sys, t: TxId, i: nat)
    requires ReleasesLast(s) && t in s.txs && s.txs[t].released
    requires i < |s.trace| && s.trace[i].Access? && s.trace[i].tx == t
    ensures ReleasedBetween(s.trace, t, i, |s.trace|)
  {
    var k :| 0 <= k < |s.trace| && IsRelease(s.trace[k], t);
    assert k > i;
  }

  lemma ReleasedStill(trace: seq<Event>, e: Event, t: TxId, i: int, j: int)
    requires 0 <= i && j <= |trace|
    ensures ReleasedBetween(trace + [e], t, i, j) <==> ReleasedBetween(trace, t, i, j)
  {
    forall k | i < k < j
      ensures (trace + [e])[k] == trace[k]
    {
    }
    if ReleasedBetween(trace + [e], t, i, j) {
      var k :| i < k < j && IsRelease((trace + [e])[k], t);
      assert IsRelease(trace[k], t);
    }
    if ReleasedBetween(trace, t, i, j) {
      var k :| i < k < j && IsRelease(trace[k], t);
      assert IsRelease((trace + [e])[k], t);
    }
  }

  lemma SlippedStill(trace: seq<Event>, e: Event, u: TxId, t: TxId)
    requires Slipped(trace, u, t)
    ensures Slipped(trace + [e], u, t)
  {
    var i, j :| 0 <= i < j < |trace| && SlippedAt(trace, u, t, i, j);
    ReleasedStill(trace, e, t, i, j);
    assert (trace + [e])[i] == trace[i] && (trace + [e])[j] == trace[j];
    assert SlippedAt(trace + [e], u, t, i, j);
  }

  lemma JustSlipped(s: Sys, t: TxId, rid: RID, undo: bool, u: TxId)
    requires TraceOk(s) && Overtakes(s, t, rid, u)
    ensures Slipped(s.trace + [Access(t, rid, Exclusive, undo)], t, u)
  {
    var i :| 0 <= i < |s.trace| && s.trace[i].Access? && s.trace[i].tx == u && s.trace[i].rid == rid;
    var trace, n := s.trace + [Access(t, rid, Exclusive, undo)], |s.trace|;
    ReleasedStill(s.trace, trace[n], u, i, n);
    assert trace[i] == s.trace[i] && SlippedAt(trace, t, u, i, n);
  }

  lemma RecordKeepsReleases(s: Sys, t: TxId, rid: RID, mode: Mode, undo: bool)
    requires TraceOk(s) && t in s.txs && !s.txs[t].released
    ensures ReleasesLast(Record(s, t, rid, mode, undo))
  {
    var s' := Record(s, t, rid, mode, undo);
    forall u | u in s'.txs && s'.txs[u].released
      ensures exists k :: 0 <= k < |s'.trace| && IsRelease(s'.trace[k], u)
    {
      var k :| 0 <= k < |s.trace| && IsRelease(s.trace[k], u);
      assert IsRelease(s'.trace[k], u);
    }
  }

  lemma RecordKeepsStrict(s: Sys, t: TxId, rid: RID, mode: Mode, undo: bool)
    requires TraceOk(s) && t in s.txs && !s.txs[t].released && Holds(s.txs[t].locks, rid, mode)
    ensures Strict(Record(s, t, rid, mode, undo))
  {
    var s' := Record(s, t, rid, mode, undo);
    var n := |s.trace|;
    forall i, j | 0 <= i < j < |s'.trace| && Conflicting(s'.trace[i], s'.trace[j])
      ensures ReleasedBetween(s'.trace, s'.trace[i].tx, i, j) || Ahead(s', s'.trace[i], s'.trace[j])
    {
      var u := s.trace[i].tx;
      ReleasedStill(s.trace, s'.trace[n], u, i, j);
      if j < n {
        assert ReleasedBetween(s.trace, u, i, j) || Ahead(s, s.trace[i], s.trace[j]);
      } else if s.txs[u].released {
        ReleasedAfter(s, u, i);
      } else {
        OnlyOvertakes(s, t, rid, mode, undo, i);
      }
    }
  }

  lemma RecordKeepsTrace(s: Sys, t: TxId, rid: RID, mode: Mode, undo: bool)
    requires TraceOk(s) && t in s.txs && !s.txs[t].released && Holds(s.txs[t].locks, rid, mode)
    requires undo ==> s.txs[t].ending == Some(false)
    ensures TraceOk(Record(s, t, rid, mode, undo))
  {
    var s' := Record(s, t, rid, mode, undo);
    RecordOk(s, t, rid, mode, undo);
    RecordKeepsReleases(s, t, rid, mode, undo);
    RecordKeepsStrict(s, t, rid, mode, undo);
    hide LocksOk;
    hide ReleasesLast;
    hide Strict;
    forall v, u | Overtook(s', u, v)
      ensures Slipped(s'.trace, u, v)
    {
      if Overtook(s, u, v) {
        SlippedStill(s.trace, Access(t, rid, mode, undo), u, v);
      } else {
        JustSlipped(s, t, rid, undo, v);
      }
    }
  }

  /** What a step that adds no event may do to the transactions. */
  ghost predicate Advances(s: Sys, s': Sys) {
    && s'.trace == s.trace
    && (forall t :: t in s.txs ==>
          t in s'.txs && s'.txs[t].released == s.txs[t].released && s'.txs[t].overtakers == s.txs[t].overtakers)
    && (forall t :: t in s'.txs && t !in s.txs ==> !s'.txs[t].released && s'.txs[t].overtakers == {})
    && (forall t, rid, mode :: t in s.txs && Covers(s.txs[t], rid, mode) ==> Covers(s'.txs[t], rid, mode))
    && (forall t :: t in s'.txs && s'.txs[t].released ==> s'.txs[t].lost == {})
    && (forall t :: t in s.txs && s.txs[t].ending.Some? ==> s'.txs[t].ending == s.txs[t].ending)
    && (forall t :: t in s.txs && s.txs[t].released ==> s'.txs[t].locks.state == s.txs[t].locks.state)
  }

  lemma AdvanceKeepsTrace(s: Sys, s': Sys)
    requires TraceOk(s) && LocksOk(s') && Advances(s, s')
    ensures TraceOk(s')
  {
    hide LocksOk;
    hide Covers;
    forall t, u
      ensures Overtook(s', u, t) <==> Overtook(s, u, t)
    {
    }
    forall i, j | 0 <= i < j < |s'.trace| && Conflicting(s'.trace[i], s'.trace[j])
      ensures ReleasedBetween(s'.trace, s'.trace[i].tx, i, j) || Ahead(s', s'.trace[i], s'.trace[j])
    {
      assert ReleasedBetween(s.trace, s.trace[i].tx, i, j) || Ahead(s, s.trace[i], s.trace[j]);
    }
  }

  lemma ChangeAdvances(s: Sys, t: TxId, table: LockTable, y: Tx)
    requires Covered(s) && t in s.txs && y.released == s.txs[t].released && y.overtakers == s.txs[t].overtakers
    requires s.txs[t].locks.exclusive <= y.locks.exclusive && (y.released ==> y.lost == {})
    requires s.txs[t].locks.shared <= y.locks.shared + y.locks.exclusive + y.lost
    requires s.txs[t].lost <= y.lost + y.locks.exclusive
    requires s.txs[t].ending.Some? ==> y.ending == s.txs[t].ending
    requires !y.released
    ensures Advances(s, Put(s, t, table, y))
  {
  }

  /** Only an upgrade that waits gives a lock away before the end, and it remembers that. */
  lemma StepAdvances(s: Sys, a: Action)
    requires LocksOk(s) && Covered(s) && Enabled(s, a) && !a.Touch? && !a.Undo? && !a.UnlockAll?
    ensures Advances(s, Next(s, a))
  {
    hide Advances;
    hide Covered;
    hide LocksOk;
    if a.Begin? {
      BeginAdvances(s, a.t);
    } else {
      ItsLocks(s, a.t);
      assert !s.txs[a.t].released;
      ChangeAdvances(s, a.t, Next(s, a).table, Next(s, a).txs[a.t]);
      assert Next(s, a) == Put(s, a.t, Next(s, a).table, Next(s, a).txs[a.t]);
    }
  }

  lemma ItsLocks(s: Sys, t: TxId)
    requires LocksOk(s) && t in s.txs
    ensures TxOk(s.txs[t])
  {
  }

  lemma BeginAdvances(s: Sys, t: TxId)
    requires Covered(s) && t !in s.txs
    ensures Advances(s, Next(s, Begin(t)))
  {
  }

  lemma UnlockAllKeepsReleases(s: Sys, t: TxId)
    requires TraceOk(s) && Enabled(s, UnlockAll(t))
    ensures ReleasesLast(Next(s, UnlockAll(t)))
  {
    hide LocksOk;
    hide Strict;
    hide Founded;
    var s' := Next(s, UnlockAll(t));
    var n := |s.trace|;
    assert IsRelease(s'.trace[n], t);
    forall u | u in s'.txs && s'.txs[u].released
      ensures exists k :: 0 <= k < |s'.trace| && IsRelease(s'.trace[k], u)
    {
      if u != t {
        var k :| 0 <= k < n && IsRelease(s.trace[k], u);
        assert IsRelease(s'.trace[k], u);
      }
    }
  }

  lemma UnlockAllKeepsStrict(s: Sys, t: TxId)
    requires Strict(s) && Enabled(s, UnlockAll(t))
    ensures Strict(Next(s, UnlockAll(t)))
  {
    var s' := Next(s, UnlockAll(t));
    var n := |s.trace|;
    forall i, j | 0 <= i < j < |s'.trace| && Conflicting(s'.trace[i], s'.trace[j])
      ensures ReleasedBetween(s'.trace, s'.trace[i].tx, i, j) || Ahead(s', s'.trace[i], s'.trace[j])
    {
      ReleasedStill(s.trace, s'.trace[n], s.trace[i].tx, i, j);
      assert ReleasedBetween(s.trace, s.trace[i].tx, i, j) || Ahead(s, s.trace[i], s.trace[j]);
    }
  }

  lemma UnlockAllKeepsFounded(s: Sys, t: TxId)
    requires Founded(s) && Enabled(s, UnlockAll(t))
    ensures Founded(Next(s, UnlockAll(t)))
  {
    var s' := Next(s, UnlockAll(t));
    forall v, u | Overtook(s', u, v)
      ensures Slipped(s'.trace, u, v)
    {
      assert Overtook(s, u, v);
      SlippedStill(s.trace, s'.trace[|s.trace|], u, v);
    }
  }

  lemma UnlockAllKeepsTrace(s: Sys, t: TxId)
    requires TraceOk(s) && Enabled(s, UnlockAll(t))
    ensures TraceOk(Next(s, UnlockAll(t)))
  {
    hide LocksOk;
    hide ReleasesLast;
    hide Strict;
    hide Founded;
    UnlockAllOk(s, t);
    UnlockAllKeepsReleases(s, t);
    UnlockAllKeepsStrict(s, t);
    UnlockAllKeepsFounded(s, t);
  }

  lemma StepKeepsTrace(s: Sys, a: Action)
    requires TraceOk(s) && Enabled(s, a)
    ensures TraceOk(Next(s, a))
  {
    match a
    case Touch(t, rid, mode) => RecordKeepsTrace(s, t, rid, mode, false);
    case Undo(t, rid) =>
      assert TxOk(s.txs[t]);
      RecordKeepsTrace(s, t, rid, Exclusive, true);
    case UnlockAll(t) => UnlockAllKeepsTrace(s, t);
    case _ =>
      StepKeepsLocks(s, a);
      StepAdvances(s, a);
      AdvanceKeepsTrace(s, Next(s, a));
  }

  /** The invariants hold after every interleaving from the empty system. */
  lemma {:induction false} RunsKeepTrace(s: Sys, actions: seq<Action>)
    requires TraceOk(s) && Runnable(s, actions)
    ensures TraceOk(Run(s, actions))
    decreases |actions|
  {
    if actions != [] {
      StepKeepsTrace(s, actions[0]);
      RunsKeepTrace(Next(s, actions[0]), actions[1..]);
    }
  }

  lemma Reachable(actions: seq<Action>)
    requires Runnable(EMPTY, actions)
    ensures TraceOk(Run(EMPTY, actions))
  {
    RunsKeepTrace(EMPTY, actions);
  }

  /** One transaction overtakes another exactly when it writes what that one had read and still needs. */
  lemma OvertakingExactly(actions: seq<Action>, t: TxId, u: TxId)
    requires Runnable(EMPTY, actions)
    ensures var s := Run(EMPTY, actions);
            Overtook(s, u, t) <==> Slipped(s.trace, u, t)
  {
    Reachable(actions);
  }

  /** In no run does a transaction touch what another one wrote before that one has released its locks. */
  lemma NoDirtyAccess(actions: seq<Action>, i: nat, j: nat)
    requires Runnable(EMPTY, actions)
    requires i < j < |Run(EMPTY, actions).trace|
    requires var trace := Run(EMPTY, actions).trace; Conflicting(trace[i], trace[j]) && trace[i].mode.Exclusive?
    ensures var trace := Run(EMPTY, actions).trace; ReleasedBetween(trace, trace[i].tx, i, j)
  {
    Reachable(actions);
    var s := Run(EMPTY, actions);
    assert ReleasedBetween(s.trace, s.trace[i].tx, i, j) || Ahead(s, s.trace[i], s.trace[j]);
  }

  // ----- The conflict graph -----

  ghost predicate Edge(s: Sys, t: TxId, u: TxId) {
    exists i, j :: 0 <= i < j < |s.trace| && Conflicting(s.trace[i], s.trace[j]) && s.trace[i].tx == t && s.trace[j].tx == u
  }

  ghost predicate HasCommitted(s: Sys, t: TxId) {
    t in s.txs && s.txs[t].released && s.txs[t].locks.state.Committed?
  }

  /** Committed, and no committed transaction wrote what this one had read while an upgrade of it waited. */
  ghost predicate CommittedCleanly(s: Sys, t: TxId) {
    HasCommitted(s, t) && forall u :: Overtook(s, u, t) ==> !HasCommitted(s, u)
  }

  ghost function ReleaseAt(s: Sys, t: TxId): (k: nat)
    requires ReleasesLast(s) && t in s.txs && s.txs[t].released
    ensures k < |s.trace| && IsRelease(s.trace[k], t)
  {
    var k :| 0 <= k < |s.trace| && IsRelease(s.trace[k], t);
    k
  }

  /** Without overtaking, conflicts point forward in the order in which transactions release their locks. */
  lemma EdgeFollowsRelease(s: Sys, t: TxId, u: TxId)
    requires TraceOk(s) && Edge(s, t, u) && !Overtook(s, u, t)
    requires HasCommitted(s, t) && HasCommitted(s, u)
    ensures ReleaseAt(s, t) < ReleaseAt(s, u)
  {
    hide LocksOk;
    hide Covered;
    hide Founded;
    var i, j :| 0 <= i < j < |s.trace| && Conflicting(s.trace[i], s.trace[j]) && s.trace[i].tx == t && s.trace[j].tx == u;
    assert ReleasedBetween(s.trace, t, i, j) || Ahead(s, s.trace[i], s.trace[j]);
    var k :| i < k < j && IsRelease(s.trace[k], t);
    assert k == ReleaseAt(s, t);
    assert !(ReleaseAt(s, u) < j);
  }

  /** A path of conflicts among committed transactions. */
  ghost predicate IsPath(s: Sys, p: seq<TxId>) {
    && p != [] && (forall i :: 0 <= i < |p| ==> HasCommitted(s, p[i]))
    && (forall i :: 0 <= i < |p| - 1 ==> Edge(s, p[i], p[i + 1]))
  }

  ghost predicate IsCycle(s: Sys, p: seq<TxId>) {
    IsPath(s, p) && |p| >= 2 && p[0] == p[|p| - 1]
  }

  /** No transaction of the path was overtaken by the next one. */
  ghost predicate InOrder(s: Sys, p: seq<TxId>) {
    forall i :: 0 <= i < |p| - 1 ==> !Overtook(s, p[i + 1], p[i])
  }

  lemma PathSlice(s: Sys, p: seq<TxId>, from: nat, to: nat)
    requires IsPath(s, p) && from < to <= |p|
    ensures IsPath(s, p[from..to])
  {
    hide Edge;
    var q := p[from..to];
    forall i | 0 <= i < |q| - 1
      ensures Edge(s, q[i], q[i + 1])
    {
      assert q[i] == p[from + i] && q[i + 1] == p[from + i + 1];
    }
  }

  lemma PathJoin(s: Sys, p: seq<TxId>, q: seq<TxId>)
    requires IsPath(s, p) && IsPath(s, q) && p[|p| - 1] == q[0]
    ensures IsPath(s, p + q[1..])
  {
    hide Edge;
    var r := p + q[1..];
    forall i | 0 <= i < |r| - 1
      ensures Edge(s, r[i], r[i + 1])
    {
      if i < |p| - 1 {
        assert r[i] == p[i] && r[i + 1] == p[i + 1];
      } else {
        var k := i - |p| + 1;
        assert r[i] == q[k] && r[i + 1] == q[k + 1];
      }
    }
  }

  /** A path of conflicts without overtaking leads forward in release order, so it never closes. */
  lemma {:induction false} Acyclic(s: Sys, p: seq<TxId>)
    requires TraceOk(s) && IsPath(s, p) && InOrder(s, p) && |p| >= 2
    ensures ReleaseAt(s, p[0]) < ReleaseAt(s, p[|p| - 1]) && p[0] != p[|p| - 1]
    decreases |p|
  {
    hide Edge;
    hide LocksOk;
    hide Overtook;
    assert Edge(s, p[0], p[1]) && !Overtook(s, p[1], p[0]);
    EdgeFollowsRelease(s, p[0], p[1]);
    if |p| > 2 {
      PathSlice(s, p, 1, |p|);
      forall i | 0 <= i < |p[1..]| - 1
        ensures !Overtook(s, p[1..][i + 1], p[1..][i])
      {
        assert p[1..][i] == p[i + 1] && p[1..][i + 1] == p[i + 1 + 1];
      }
      Acyclic(s, p[1..]);
    }
  }

  /** Committed `u` overtook committed `t`, and conflicts lead from `u` back to `t`. */
  ghost predicate Caught(s: Sys, t: TxId, u: TxId, p: seq<TxId>) {
    Overtook(s, u, t) && IsPath(s, p) && p[0] == u && p[|p| - 1] == t
  }

  /**
   * Exactly when the conflict graph of the committed transactions has a cycle: a transaction was overtaken
   * while its upgrade waited, and conflicts lead back to it from the one that overtook it.
   */
  lemma CyclicExactly(actions: seq<Action>)
    requires Runnable(EMPTY, actions)
    ensures var s := Run(EMPTY, actions);
            (exists p :: IsCycle(s, p)) <==> (exists t, u, p :: Caught(s, t, u, p))
  {
    var s := Run(EMPTY, actions);
    Reachable(actions);
    if p :| IsCycle(s, p) {
      CycleIsCaught(s, p);
    }
    if t, u, p :| Caught(s, t, u, p) {
      CaughtIsCycle(s, t, u, p);
    }
  }

  lemma CycleIsCaught(s: Sys, p: seq<TxId>)
    requires TraceOk(s) && IsCycle(s, p)
    ensures exists t, u, q :: Caught(s, t, u, q)
  {
    hide TraceOk;
    hide IsPath;
    if InOrder(s, p) {
      Acyclic(s, p);
    }
    var k :| 0 <= k < |p| - 1 && Overtook(s, p[k + 1], p[k]);
    Rotate(s, p, k);
    assert Caught(s, p[k], p[k + 1], Rotated(p, k));
  }

  function Rotated(p: seq<TxId>, k: nat): seq<TxId>
    requires k + 1 < |p|
  {
    p[k + 1..] + p[..k + 1][1..]
  }

  lemma Rotate(s: Sys, p: seq<TxId>, k: nat)
    requires IsCycle(s, p) && k + 1 < |p|
    ensures IsPath(s, Rotated(p, k)) && Rotated(p, k)[0] == p[k + 1] && Rotated(p, k)[|Rotated(p, k)| - 1] == p[k]
  {
    hide IsPath;
    PathSlice(s, p, k + 1, |p|);
    PathSlice(s, p, 0, k + 1);
    assert p[k + 1..|p|] == p[k + 1..] && p[0..k + 1] == p[..k + 1];
    PathJoin(s, p[k + 1..], p[..k + 1]);
  }

  lemma CaughtIsCycle(s: Sys, t: TxId, u: TxId, p: seq<TxId>)
    requires TraceOk(s) && Caught(s, t, u, p)
    ensures exists q :: IsCycle(s, q)
  {
    OvertakingIsEdge(s, t, u);
    PathJoin(s, [t, u], p);
    assert IsCycle(s, [t, u] + p[1..]);
  }

  lemma OvertakingIsEdge(s: Sys, t: TxId, u: TxId)
    requires TraceOk(s) && Overtook(s, u, t)
    ensures Edge(s, t, u)
  {
    hide LocksOk;
    assert Slipped(s.trace, u, t);
    var i, j :| 0 <= i < j < |s.trace| && SlippedAt(s.trace, u, t, i, j);
    assert Conflicting(s.trace[i], s.trace[j]);
  }

  /** An overtaken transaction that goes on to use what was written ahead of it lies on a cycle with the writer. */
  lemma OvertakenOnCycle(s: Sys, t: TxId, u: TxId, j: nat, k: nat)
    requires TraceOk(s) && Overtook(s, u, t) && HasCommitted(s, t) && HasCommitted(s, u)
    requires j < k < |s.trace| && Conflicting(s.trace[j], s.trace[k]) && s.trace[j].tx == u && s.trace[k].tx == t
    ensures IsCycle(s, [t, u, t])
  {
    hide TraceOk;
    OvertakingIsEdge(s, t, u);
    assert Edge(s, u, t);
  }

  /** No committed transaction was overtaken by a committed one. */
  ghost predicate Undisturbed(s: Sys) {
    forall t, u :: HasCommitted(s, t) && HasCommitted(s, u) ==> !Overtook(s, u, t)
  }

  lemma UndisturbedIsAcyclic(s: Sys, p: seq<TxId>)
    requires TraceOk(s) && Undisturbed(s)
    ensures !IsCycle(s, p)
  {
    if IsCycle(s, p) {
      Acyclic(s, p);
    }
  }

  /**
   * Every committed transaction that a committed one overtook goes on to use what was written ahead of it, as the
   * table operations do: they read a record each time its lock is granted.
   */
  ghost predicate UsesAgain(s: Sys) {
    forall t, u :: HasCommitted(s, t) && HasCommitted(s, u) && Overtook(s, u, t) ==> Edge(s, u, t)
  }

  /** Then overtaking among committed transactions is exactly what closes their conflicts. */
  lemma DisturbedIsCyclic(actions: seq<Action>)
    requires Runnable(EMPTY, actions) && UsesAgain(Run(EMPTY, actions))
    ensures var s := Run(EMPTY, actions); (exists p :: IsCycle(s, p)) <==> !Undisturbed(s)
  {
    hide *;
    Reachable(actions);
    CyclicWhenUsed(Run(EMPTY, actions));
  }

  lemma CyclicWhenUsed(s: Sys)
    requires TraceOk(s) && UsesAgain(s)
    ensures (exists p :: IsCycle(s, p)) <==> !Undisturbed(s)
  {
    hide TraceOk;
    hide Edge;
    if p :| IsCycle(s, p) {
      NotBoth(s, p);
    }
    if !Undisturbed(s) {
      var t, u :| HasCommitted(s, t) && HasCommitted(s, u) && Overtook(s, u, t);
      OvertakingIsEdge(s, t, u);
      assert IsCycle(s, [t, u, t]);
    }
  }

  lemma NotBoth(s: Sys, p: seq<TxId>)
    requires TraceOk(s) && IsCycle(s, p)
    ensures !Undisturbed(s)
  {
    if Undisturbed(s) {
      UndisturbedIsAcyclic(s, p);
    }
  }
}
