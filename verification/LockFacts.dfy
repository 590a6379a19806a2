/** When locks are given away: undo under lock, growing only once, and the one hole left by upgrades. */
module LockFacts {
  import opened Bytes
  import opened HeapModel
  import opened Locks
  import opened LockSystem
  import opened Serializability
  import opened SerialExecution

  /** While a transaction can still roll back, it alone holds every record its undo log names. */
  lemma UndoUnderLock(actions: seq<Action>, t: TxId, rid: RID)
    requires Runnable(EMPTY, actions)
    requires var s := Run(EMPTY, actions); t in s.txs && !s.txs[t].released && rid in s.txs[t].logged
    ensures var s := Run(EMPTY, actions);
            && Request(t, Exclusive, true) in QueueOf(s.table, rid)
            && HeldOnlyBy(QueueOf(s.table, rid), t)
  {
    var s := Run(EMPTY, actions);
    Reachable(actions);
    assert TxOk(s.txs[t]) && Agree(QueueOf(s.table, rid), t, s.txs[t], rid) && QueueOk(QueueOf(s.table, rid));
  }

  /** Only releasing everything takes an exclusive lock or an undo record away. */
  lemma ExclusiveKept(s: Sys, a: Action, u: TxId)
    requires LocksOk(s) && Enabled(s, a) && u in s.txs && a != UnlockAll(u)
    ensures u in Next(s, a).txs && s.txs[u].logged <= Next(s, a).txs[u].logged
    ensures s.txs[u].locks.exclusive <= Next(s, a).txs[u].locks.exclusive
  {
    hide LocksOk;
    if a.t == u {
    }
  }

  /** A transaction that has left its growing phase never re-enters it and never gains a lock. */
  lemma GrowingOnce(s: Sys, a: Action, u: TxId)
    requires LocksOk(s) && Enabled(s, a) && u in s.txs && !s.txs[u].locks.state.Growing?
    ensures u in Next(s, a).txs && !Next(s, a).txs[u].locks.state.Growing?
    ensures Next(s, a).txs[u].locks.shared <= s.txs[u].locks.shared
    ensures Next(s, a).txs[u].locks.exclusive <= s.txs[u].locks.exclusive
  {
    assert TxOk(s.txs[u]);
    hide LocksOk;
  }

  /** An upgrade keeps the record locked throughout exactly when nobody else holds it. */
  lemma UpgradeKeepsLock(s: Sys, t: TxId, rid: RID)
    requires LocksOk(s) && Enabled(s, AskExclusive(t, rid))
    requires s.txs[t].locks.state.Growing? && rid in s.txs[t].locks.shared && rid !in s.txs[t].locks.exclusive
    ensures Holds(Next(s, AskExclusive(t, rid)).txs[t].locks, rid, Shared) <==>
            HeldOnlyBy(QueueOf(s.table, rid), t)
  {
    hide LocksOk;
    var q := Without(QueueOf(s.table, rid), t) + [Request(t, Exclusive, false)];
    if r :| r in QueueOf(s.table, rid) && r.granted && r.tx != t {
      assert r in q;
    }
  }

  lemma {:induction false} RunSnoc(s: Sys, actions: seq<Action>, a: Action)
    requires Runnable(s, actions) && Enabled(Run(s, actions), a)
    ensures Runnable(s, actions + [a]) && Run(s, actions + [a]) == Next(Run(s, actions), a)
    decreases |actions|
  {
    if actions != [] {
      assert (actions + [a])[1..] == actions[1..] + [a];
      RunSnoc(Next(s, actions[0]), actions[1..], a);
    }
  }

  // ----- None is stuck for good -----

  /** The transactions that have not given their locks back. */
  function Unended(s: Sys): set<TxId> {
    set t | t in s.txs && !s.txs[t].released
  }

  lemma {:induction false} RunConcat(s: Sys, front: seq<Action>, back: seq<Action>)
    requires Runnable(s, front) && Runnable(Run(s, front), back)
    ensures Runnable(s, front + back) && Run(s, front + back) == Run(Run(s, front), back)
    decreases |front|
  {
    if front == [] {
      assert front + back == back;
    } else {
      assert (front + back)[1..] == front[1..] + back;
      RunConcat(Next(s, front[0]), front[1..], back);
    }
  }

  lemma {:induction false} RunKeepsLocks(s: Sys, actions: seq<Action>)
    requires LocksOk(s) && Runnable(s, actions)
    ensures LocksOk(Run(s, actions))
    decreases |actions|
  {
    hide LocksOk;
    hide Next;
    if actions != [] {
      StepKeepsLocks(s, actions[0]);
      RunKeepsLocks(Next(s, actions[0]), actions[1..]);
    }
  }

  /** A transaction that waits can stop waiting, at the latest when its time is up. */
  lemma StopWaiting(s: Sys, t: TxId) returns (actions: seq<Action>)
    requires LocksOk(s) && t in Unended(s)
    ensures Runnable(s, actions) && Unended(Run(s, actions)) == Unended(s) && Runs(Run(s, actions), t)
  {
    hide LocksOk;
    actions := [];
    if s.txs[t].waiting.Some? {
      RunSnoc(s, [], Notified(t, true));
      actions := actions + [Notified(t, true)];
    }
  }

  /** One that runs can end. */
  lemma EndOne(s: Sys, t: TxId) returns (actions: seq<Action>)
    requires Runs(s, t)
    ensures Runnable(s, actions) && Unended(Run(s, actions)) == Unended(s) - {t}
  {
    actions := [];
    var s' := s;
    if s.txs[t].ending.None? {
      RunSnoc(s, [], End(t, false));
      actions := actions + [End(t, false)];
      s' := Next(s, End(t, false));
    }
    assert Unended(s') == Unended(s);
    RunSnoc(s, actions, UnlockAll(t));
    actions := actions + [UnlockAll(t)];
  }

  lemma {:induction false} EndThem(s: Sys) returns (actions: seq<Action>)
    requires LocksOk(s)
    ensures Runnable(s, actions) && Unended(Run(s, actions)) == {}
    decreases |Unended(s)|
  {
    hide LocksOk;
    actions := [];
    if t :| t in Unended(s) {
      var first := StopWaiting(s, t);
      var ended := EndOne(Run(s, first), t);
      RunConcat(s, first, ended);
      RunKeepsLocks(s, first + ended);
      var rest := EndThem(Run(s, first + ended));
      RunConcat(s, first + ended, rest);
      actions := first + ended + rest;
    }
  }

  /** With none left over, no request is left in any queue. */
  lemma NoneLeft(s: Sys, rid: RID)
    requires LocksOk(s) && Unended(s) == {}
    ensures QueueOf(s.table, rid) == []
  {
    var q := QueueOf(s.table, rid);
    if q != [] {
      var r := q[0];
      assert r in q && r.tx !in Unended(s);
      assert TxOk(s.txs[r.tx]) && Agree(q, r.tx, s.txs[r.tx], rid);
      assert r == Request(r.tx, r.mode, r.granted);
      match r.mode
      case Shared => assert false;
      case Exclusive => assert false;
    }
  }

  /** No deadlock lasts: every run goes on to one in which all transactions have ended and no request is left. */
  lemma NoneStuck(actions: seq<Action>) returns (rest: seq<Action>)
    requires Runnable(EMPTY, actions)
    ensures Runnable(EMPTY, actions + rest)
    ensures var s := Run(EMPTY, actions + rest);
            && (forall t :: t in s.txs ==> s.txs[t].released)
            && (forall rid :: QueueOf(s.table, rid) == [])
  {
    hide LocksOk;
    var s := Run(EMPTY, actions);
    Reachable(actions);
    rest := EndThem(s);
    RunConcat(EMPTY, actions, rest);
    RunKeepsLocks(s, rest);
    var s' := Run(s, rest);
    forall t | t in s'.txs
      ensures s'.txs[t].released
    {
      assert t !in Unended(s');
    }
    forall rid
      ensures QueueOf(s'.table, rid) == []
    {
      NoneLeft(s', rid);
    }
  }

  // ----- The lost update -----

  const RECORD := RID(1, 0)

  function Plain(state: TxState, shared: set<RID>, exclusive: set<RID>): Tx {
    Tx(TxLocks(state, shared, exclusive), None, {}, None, false, {}, {})
  }

  /** Waiting for an upgrade of the record, overtaken by `ahead`. */
  function Upgrading(ahead: set<TxId>): Tx {
    Plain(Growing, {}, {}).(waiting := Some((RECORD, Exclusive)), lost := {RECORD}, overtakers := ahead)
  }

  function Pair(q: Queue, x: Tx, y: Tx, trace: seq<Event>): Sys {
    Sys(map[RECORD := q], map[1 := x, 2 := y], trace)
  }

  lemma GrantLast(q: Queue, t: TxId, mode: Mode)
    requires forall r :: r in q ==> r.tx != t
    ensures Grant(q + [Request(t, mode, false)], t) == q + [Request(t, mode, true)]
  {
    assert forall i :: 0 <= i < |q| ==> q[i] in q;
  }

  lemma SetFacts()
    ensures var none: set<RID> := {}; none + {RECORD} == {RECORD} && {RECORD} - {RECORD} == none
  {
  }

  const READ_1 := Access(1, RECORD, Shared, false)
  const READ_2 := Access(2, RECORD, Shared, false)
  const WRITE_1 := Access(1, RECORD, Exclusive, false)
  const WRITE_2 := Access(2, RECORD, Exclusive, false)

  /** A shared request next to shared locks is granted at once. */
  lemma ReadLock(s: Sys, t: TxId, q: Queue)
    requires t in s.txs && s.txs[t] == Plain(Growing, {}, {}) && QueueOf(s.table, RECORD) == q
    requires forall r :: r in q ==> r.tx != t && r.mode.Shared?
    ensures Next(s, AskShared(t, RECORD)) ==
            Sys(s.table[RECORD := q + [Request(t, Shared, true)]], s.txs[t := Plain(Growing, {RECORD}, {})], s.trace)
  {
    SetFacts();
    GrantLast(q, t, Shared);
  }

  /** An upgrade from the only granted lock is granted at once. */
  lemma UpgradeGranted(s: Sys, t: TxId, q: Queue)
    requires t in s.txs && s.txs[t] == Plain(Growing, {RECORD}, {}) && Without(QueueOf(s.table, RECORD), t) == q
    requires forall r :: r in q ==> !r.granted
    ensures Next(s, AskExclusive(t, RECORD)) ==
            Sys(s.table[RECORD := q + [Request(t, Exclusive, true)]], s.txs[t := Plain(Growing, {}, {RECORD})], s.trace)
  {
    SetFacts();
    assert forall r :: r in q ==> r in QueueOf(s.table, RECORD) && r.tx != t;
    GrantLast(q, t, Exclusive);
  }

  /** An upgrade beside another shared lock waits, without the lock it had. */
  lemma UpgradeWaits(s: Sys, t: TxId, q: Queue, other: TxId)
    requires t in s.txs && s.txs[t] == Plain(Growing, {RECORD}, {}) && Without(QueueOf(s.table, RECORD), t) == q
    requires other != t && Request(other, Shared, true) in q
    ensures Next(s, AskExclusive(t, RECORD)) ==
            Sys(s.table[RECORD := q + [Request(t, Exclusive, false)]],
                s.txs[t := Upgrading({})], s.trace)
  {
    SetFacts();
    assert Request(other, Shared, true) in q + [Request(t, Exclusive, false)];
  }

  lemma FirstRead() returns (actions: seq<Action>)
    ensures Runnable(EMPTY, actions)
    ensures Run(EMPTY, actions) ==
            Pair([Request(1, Shared, true)], Plain(Growing, {RECORD}, {}), Plain(Growing, {}, {}), [READ_1])
  {
    var begun := [Begin(1), Begin(2)];
    RunSnoc(EMPTY, [], Begin(1));
    RunSnoc(EMPTY, [Begin(1)], Begin(2));
    assert [Begin(1)] + [Begin(2)] == begun && [] + [Begin(1)] == [Begin(1)];
    RunSnoc(EMPTY, begun, AskShared(1, RECORD));
    ReadLock(Run(EMPTY, begun), 1, []);
    actions := begun + [AskShared(1, RECORD)];
    RunSnoc(EMPTY, actions, Touch(1, RECORD, Shared));
    actions := actions + [Touch(1, RECORD, Shared)];
    var s := Run(EMPTY, actions);
    assert [] + [Request(1, Shared, true)] == [Request(1, Shared, true)];
    assert s.table == map[RECORD := [Request(1, Shared, true)]];
    assert s.txs == map[1 := Plain(Growing, {RECORD}, {}), 2 := Plain(Growing, {}, {})];
  }

  /** Both transactions read the record under shared locks. */
  lemma BothRead() returns (actions: seq<Action>)
    ensures Runnable(EMPTY, actions)
    ensures Run(EMPTY, actions) ==
            Pair([Request(1, Shared, true), Request(2, Shared, true)],
                 Plain(Growing, {RECORD}, {}), Plain(Growing, {RECORD}, {}), [READ_1, READ_2])
  {
    actions := FirstRead();
    RunSnoc(EMPTY, actions, AskShared(2, RECORD));
    ReadLock(Run(EMPTY, actions), 2, [Request(1, Shared, true)]);
    actions := actions + [AskShared(2, RECORD)];
    RunSnoc(EMPTY, actions, Touch(2, RECORD, Shared));
    actions := actions + [Touch(2, RECORD, Shared)];
    var s := Run(EMPTY, actions);
    assert s.table[RECORD] == [Request(1, Shared, true), Request(2, Shared, true)];
    assert s.table == map[RECORD := s.table[RECORD]];
    assert s.txs == map[1 := Plain(Growing, {RECORD}, {}), 2 := Plain(Growing, {RECORD}, {})];
  }

  /** The first upgrade waits; the second is granted. */
  lemma BothUpgrade() returns (actions: seq<Action>)
    ensures Runnable(EMPTY, actions)
    ensures Run(EMPTY, actions) ==
            Pair([Request(1, Exclusive, false), Request(2, Exclusive, true)],
               Upgrading({}), Plain(Growing, {}, {RECORD}), [READ_1, READ_2])
  {
    actions := BothRead();
    RunSnoc(EMPTY, actions, AskExclusive(1, RECORD));
    UpgradeWaits(Run(EMPTY, actions), 1, [Request(2, Shared, true)], 2);
    actions := actions + [AskExclusive(1, RECORD)];
    RunSnoc(EMPTY, actions, AskExclusive(2, RECORD));
    UpgradeGranted(Run(EMPTY, actions), 2, [Request(1, Exclusive, false)]);
    actions := actions + [AskExclusive(2, RECORD)];
    var s := Run(EMPTY, actions);
    assert s.table[RECORD] == [Request(1, Exclusive, false), Request(2, Exclusive, true)];
    assert s.table == map[RECORD := s.table[RECORD]];
    assert s.txs == map[1 := Upgrading({}), 2 := Plain(Growing, {}, {RECORD})];
  }

  /** The second transaction writes and so overtakes the first, which still waits. */
  lemma SecondWrites() returns (actions: seq<Action>)
    ensures Runnable(EMPTY, actions)
    ensures Run(EMPTY, actions) ==
            Pair([Request(1, Exclusive, false), Request(2, Exclusive, true)],
                 Upgrading({2}), Plain(Growing, {}, {RECORD}), [READ_1, READ_2, WRITE_2])
  {
    actions := BothUpgrade();
    var before := Run(EMPTY, actions);
    RunSnoc(EMPTY, actions, Touch(2, RECORD, Exclusive));
    actions := actions + [Touch(2, RECORD, Exclusive)];
    assert before.trace[0] == READ_1 && Overtakes(before, 2, RECORD, 1) && !Overtakes(before, 2, RECORD, 2);
    var none: set<TxId> := {};
    assert none + {2} == {2};
    assert Run(EMPTY, actions).txs == map[1 := Upgrading({2}), 2 := Plain(Growing, {}, {RECORD})];
  }

  /** The second transaction commits while the first still waits. */
  lemma SecondCommits() returns (actions: seq<Action>)
    ensures Runnable(EMPTY, actions)
    ensures var s := Run(EMPTY, actions);
            && s.table == map[RECORD := [Request(1, Exclusive, false)]]
            && s.trace == [READ_1, READ_2, WRITE_2, Release(2, true)]
            && 1 in s.txs && s.txs[1] == Upgrading({2}) && HasCommitted(s, 2)
  {
    actions := SecondWrites();
    RunSnoc(EMPTY, actions, End(2, true));
    actions := actions + [End(2, true)];
    RunSnoc(EMPTY, actions, UnlockAll(2));
    actions := actions + [UnlockAll(2)];
    assert Without([Request(1, Exclusive, false), Request(2, Exclusive, true)], 2) == [Request(1, Exclusive, false)];
  }

  /** The first transaction has its lock at last and writes. */
  lemma FirstWrites() returns (actions: seq<Action>)
    ensures Runnable(EMPTY, actions)
    ensures var s := Run(EMPTY, actions);
            && s.trace == [READ_1, READ_2, WRITE_2, Release(2, true), WRITE_1] && HasCommitted(s, 2)
            && 1 in s.txs && s.txs[1] == Plain(Growing, {}, {RECORD}).(overtakers := {2})
  {
    actions := SecondCommits();
    RunSnoc(EMPTY, actions, Notified(1, false));
    GrantLast([], 1, Exclusive);
    assert [] + [Request(1, Exclusive, false)] == [Request(1, Exclusive, false)];
    SetFacts();
    actions := actions + [Notified(1, false)];
    RunSnoc(EMPTY, actions, Touch(1, RECORD, Exclusive));
    actions := actions + [Touch(1, RECORD, Exclusive)];
  }

  /**
   * The lost update: the first transaction read a value that the second overwrote before the first one's own
   * write. Both commit, and each conflicts before the other.
   */
  lemma LostUpdate() returns (actions: seq<Action>)
    ensures Runnable(EMPTY, actions)
    ensures var s := Run(EMPTY, actions);
            && s.trace == [READ_1, READ_2, WRITE_2, Release(2, true), WRITE_1, Release(1, true)]
            && Overtook(s, 2, 1) && IsCycle(s, [1, 2, 1])
  {
    actions := FirstWrites();
    RunSnoc(EMPTY, actions, End(1, true));
    actions := actions + [End(1, true)];
    RunSnoc(EMPTY, actions, UnlockAll(1));
    actions := actions + [UnlockAll(1)];
    Reachable(actions);
    hide TraceOk;
    var s := Run(EMPTY, actions);
    assert Conflicting(s.trace[2], s.trace[4]);
    OvertakenOnCycle(s, 1, 2, 2, 4);
  }

  lemma FourSteps(w: World, a: Event, b: Event, c: Event, d: Event, f: Program)
    requires a.Access? && b.Access? && c.Access? && d.Access?
    ensures Exec(w, [a, b, c, d], f) == Do(Do(Do(Do(w, a, f), b, f), c, f), d, f)
  {
    hide Do;
    assert [] + [a] == [a] && [a] + [b] == [a, b] && [a, b] + [c] == [a, b, c] && [a, b, c] + [d] == [a, b, c, d];
    ExecSnoc(w, [], a, f);
    ExecSnoc(w, [a], b, f);
    ExecSnoc(w, [a, b], c, f);
    ExecSnoc(w, [a, b, c], d, f);
  }

  lemma InterleavedReads(f: Program)
    ensures var w := Exec(World(map[], map[]), [READ_1, READ_2, WRITE_2, WRITE_1], f);
            w.SeenBy(1)[..1] == [[]] && w.SeenBy(2) == [[], []]
  {
    FourSteps(World(map[], map[]), READ_1, READ_2, WRITE_2, WRITE_1, f);
  }

  lemma SerialReads(a: Event, b: Event, c: Event, d: Event, f: Program)
    requires a == Access(b.tx, RECORD, Shared, false) && b.Access? && b == Access(b.tx, RECORD, Exclusive, false)
    requires c == Access(d.tx, RECORD, Shared, false) && d.Access? && d == Access(d.tx, RECORD, Exclusive, false)
    requires b.tx != d.tx
    ensures var seen := Exec(World(map[], map[]), [a, b, c, d], f).SeenBy(d.tx);
            seen != [] && seen[0] == f(b.tx, [[], []])
  {
    FourSteps(World(map[], map[]), a, b, c, d, f);
    var w1 := Do(World(map[], map[]), a, f);
    assert w1.SeenBy(b.tx) == [[]] && w1.At(RECORD) == [];
    var w2 := Do(w1, b, f);
    var once: seq<Value> := [[]];
    assert once + [[]] == [[], []];
    assert w2.At(RECORD) == f(b.tx, [[], []]) && w2.SeenBy(d.tx) == [];
    var w3 := Do(w2, c, f);
    assert w3.SeenBy(d.tx) == [w2.At(RECORD)];
  }

  /** Whatever they write, as long as it is something: in no serial order does each read what it read there. */
  lemma LostUpdateValues(f: Program)
    requires f(1, [[], []]) != [] && f(2, [[], []]) != []
    ensures var w := World(map[], map[]);
            && Exec(w, [READ_1, READ_2, WRITE_2, WRITE_1], f) != Exec(w, [READ_1, WRITE_1, READ_2, WRITE_2], f)
            && Exec(w, [READ_1, READ_2, WRITE_2, WRITE_1], f) != Exec(w, [READ_2, WRITE_2, READ_1, WRITE_1], f)
  {
    InterleavedReads(f);
    SerialReads(READ_1, WRITE_1, READ_2, WRITE_2, f);
    SerialReads(READ_2, WRITE_2, READ_1, WRITE_1, f);
    hide Exec;
    hide Do;
  }
}
