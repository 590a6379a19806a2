/**
 * What serializability means for values: the interleaved accesses of the committed transactions leave the
 * same records, and let every transaction read the same values, as running them one after another.
 */
module SerialExecution {
  import opened Bytes
  import opened HeapModel
  import opened Locks
  import opened LockSystem
  import opened Serializability

  type Value = seq<byte>

  /** The records, and the values each transaction has read so far. */
  datatype World = World(db: map<RID, Value>, seen: map<TxId, seq<Value>>) {
    function At(rid: RID): Value { if rid in db then db[rid] else [] }
    function SeenBy(t: TxId): seq<Value> { if t in seen then seen[t] else [] }
  }

  /** What a transaction writes next is a function of what it has read. */
  type Program = (TxId, seq<Value>) -> Value

  function Do(w: World, e: Event, f: Program): World
    requires e.Access?
  {
    var seen := w.SeenBy(e.tx) + [w.At(e.rid)];
    World(if e.mode.Exclusive? then w.db[e.rid := f(e.tx, seen)] else w.db, w.seen[e.tx := seen])
  }

  predicate AllAccess(h: seq<Event>) {
    forall i :: 0 <= i < |h| ==> h[i].Access?
  }

  function Exec(w: World, h: seq<Event>, f: Program): World
    requires AllAccess(h)
  {
    if h == [] then w else Do(Exec(w, h[..|h| - 1], f), h[|h| - 1], f)
  }

  lemma {:induction false} ExecConcat(w: World, a: seq<Event>, b: seq<Event>, f: Program)
    requires AllAccess(a) && AllAccess(b)
    ensures Exec(w, a + b, f) == Exec(Exec(w, a, f), b, f)
  {
    if b == [] {
      assert a + b == a;
    } else {
      var n := |b| - 1;
      assert (a + b)[..|a + b| - 1] == a + b[..n];
      ExecConcat(w, a, b[..n], f);
    }
  }

  lemma UpdatesCommute<K, V>(m: map<K, V>, a: K, x: V, b: K, y: V)
    requires a != b
    ensures m[a := x][b := y] == m[b := y][a := x]
  {
  }

  lemma Commute(w: World, a: Event, b: Event, f: Program)
    requires a.Access? && b.Access? && a.tx != b.tx && !Conflicting(a, b)
    ensures Do(Do(w, a, f), b, f) == Do(Do(w, b, f), a, f)
  {
    var sa, sb := w.SeenBy(a.tx) + [w.At(a.rid)], w.SeenBy(b.tx) + [w.At(b.rid)];
    UpdatesCommute(w.seen, a.tx, sa, b.tx, sb);
    if a.mode.Exclusive? && b.mode.Exclusive? {
      UpdatesCommute(w.db, a.rid, f(a.tx, sa), b.rid, f(b.tx, sb));
    }
  }

  lemma ExecSnoc(w: World, h: seq<Event>, e: Event, f: Program)
    requires AllAccess(h) && e.Access?
    ensures AllAccess(h + [e]) && Exec(w, h + [e], f) == Do(Exec(w, h, f), e, f)
  {
    assert (h + [e])[..|h|] == h;
  }

  lemma {:induction false} CommuteMany(w: World, h: seq<Event>, e: Event, f: Program)
    requires AllAccess(h) && e.Access?
    requires forall x :: x in h ==> x.tx != e.tx && !Conflicting(x, e)
    ensures Exec(Do(w, e, f), h, f) == Do(Exec(w, h, f), e, f)
  {
    if h != [] {
      var n := |h| - 1;
      CommuteMany(w, h[..n], e, f);
      Commute(Exec(w, h[..n], f), h[n], e, f);
    }
  }

  function Of(h: seq<Event>, t: TxId): (r: seq<Event>)
    requires AllAccess(h)
    ensures AllAccess(r) && forall x :: x in r <==> x in h && x.tx == t
  {
    if h == [] then []
    else if h[|h| - 1].tx == t then Of(h[..|h| - 1], t) + [h[|h| - 1]]
    else Of(h[..|h| - 1], t)
  }

  function Others(h: seq<Event>, t: TxId): (r: seq<Event>)
    requires AllAccess(h)
    ensures AllAccess(r) && forall x :: x in r <==> x in h && x.tx != t
  {
    if h == [] then []
    else if h[|h| - 1].tx == t then Others(h[..|h| - 1], t)
    else Others(h[..|h| - 1], t) + [h[|h| - 1]]
  }

  /** Transaction by transaction, each with its own accesses in their own order. */
  function Serial(h: seq<Event>, order: seq<TxId>): (r: seq<Event>)
    requires AllAccess(h)
    ensures AllAccess(r)
    decreases |order|
  {
    if order == [] then [] else Of(h, order[0]) + Serial(Others(h, order[0]), order[1..])
  }

  /** Conflicting accesses follow each other in the order of their transactions' ranks. */
  ghost predicate Ranked(h: seq<Event>, rank: map<TxId, nat>)
    requires AllAccess(h)
    decreases |h|
  {
    h == [] ||
    var n := |h| - 1;
    && Ranked(h[..n], rank) && h[n].tx in rank
    && forall x :: x in h[..n] && Conflicting(x, h[n]) ==> x.tx in rank && rank[x.tx] < rank[h[n].tx]
  }

  lemma RankedSnoc(h: seq<Event>, e: Event, rank: map<TxId, nat>)
    requires AllAccess(h) && Ranked(h, rank) && e.Access? && e.tx in rank
    requires forall x :: x in h && Conflicting(x, e) ==> x.tx in rank && rank[x.tx] < rank[e.tx]
    ensures Ranked(h + [e], rank)
  {
    assert (h + [e])[..|h|] == h;
  }

  lemma {:induction false} OthersRanked(h: seq<Event>, t: TxId, rank: map<TxId, nat>)
    requires AllAccess(h) && Ranked(h, rank)
    ensures Ranked(Others(h, t), rank)
    decreases |h|
  {
    if h != [] {
      var n := |h| - 1;
      OthersRanked(h[..n], t, rank);
      if h[n].tx != t {
        RankedSnoc(Others(h[..n], t), h[n], rank);
      }
    }
  }

  /** The accesses of a transaction of least rank can all be moved to the front. */
  lemma {:induction false} MoveToFront(w: World, h: seq<Event>, t: TxId, rank: map<TxId, nat>, f: Program)
    requires AllAccess(h) && Ranked(h, rank) && t in rank
    requires forall x :: x in h ==> x.tx in rank && rank[t] <= rank[x.tx]
    ensures Exec(w, h, f) == Exec(Exec(w, Of(h, t), f), Others(h, t), f)
    decreases |h|
  {
    hide Do;
    hide Conflicting;
    if h != [] {
      var n := |h| - 1;
      var e, mine, rest := h[n], Of(h[..n], t), Others(h[..n], t);
      assert forall x :: x in h[..n] ==> x in h;
      MoveToFront(w, h[..n], t, rank, f);
      if e.tx == t {
        ExecSnoc(w, mine, e, f);
        CommuteMany(Exec(w, mine, f), rest, e, f);
        assert Others(h, t) == rest;
      } else {
        ExecSnoc(Exec(w, mine, f), rest, e, f);
        assert Of(h, t) == mine;
      }
    }
  }

  ghost predicate Increasing(order: seq<TxId>, rank: map<TxId, nat>) {
    && (forall i :: 0 <= i < |order| ==> order[i] in rank)
    && (forall i, j :: 0 <= i < j < |order| ==> rank[order[i]] < rank[order[j]])
  }

  lemma FirstIsMember(h: seq<Event>)
    ensures h == [] || h[0] in h
  {
  }

  lemma {:induction false} SerialEquivalent(w: World, h: seq<Event>, order: seq<TxId>, rank: map<TxId, nat>, f: Program)
    requires AllAccess(h) && Ranked(h, rank) && Increasing(order, rank)
    requires forall x :: x in h ==> x.tx in order
    ensures Exec(w, h, f) == Exec(w, Serial(h, order), f)
    decreases |order|
  {
    if order == [] {
      FirstIsMember(h);
    } else {
      var t, rest := order[0], Others(h, order[0]);
      MoveToFront(w, h, t, rank, f);
      OthersRanked(h, t, rank);
      SerialEquivalent(Exec(w, Of(h, t), f), rest, order[1..], rank, f);
      ExecConcat(w, Of(h, t), Serial(rest, order[1..]), f);
    }
  }

  // ----- The committed part of a run -----

  /** The accesses of the transactions that committed without being overtaken by a committed one, in the order they happened. */
  ghost function Kept(s: Sys, n: nat): (r: seq<Event>)
    requires n <= |s.trace|
    ensures AllAccess(r)
  {
    if n == 0 then []
    else
      var e := s.trace[n - 1];
      if e.Access? && CommittedCleanly(s, e.tx) then Kept(s, n - 1) + [e] else Kept(s, n - 1)
  }

  lemma {:induction false} KeptMember(s: Sys, n: nat, x: Event)
    requires n <= |s.trace| && x in Kept(s, n)
    ensures CommittedCleanly(s, x.tx) && exists i :: 0 <= i < n && s.trace[i] == x
  {
    if x in Kept(s, n - 1) {
      KeptMember(s, n - 1, x);
    }
  }

  /** Those transactions in the order in which they released their locks. */
  ghost function CommitOrder(s: Sys, n: nat): (r: seq<TxId>)
    requires ReleasesLast(s) && n <= |s.trace|
    ensures forall i :: 0 <= i < |r| ==> CommittedCleanly(s, r[i]) && ReleaseAt(s, r[i]) < n
    ensures forall i, j :: 0 <= i < j < |r| ==>
              CommittedCleanly(s, r[i]) && CommittedCleanly(s, r[j]) && ReleaseAt(s, r[i]) < ReleaseAt(s, r[j])
    ensures forall t :: CommittedCleanly(s, t) && ReleaseAt(s, t) < n ==> t in r
  {
    if n == 0 then []
    else
      var e := s.trace[n - 1];
      if e.Release? && CommittedCleanly(s, e.tx) then
        assert ReleaseAt(s, e.tx) == n - 1;
        CommitOrder(s, n - 1) + [e.tx]
      else CommitOrder(s, n - 1)
  }

  ghost function Ranks(s: Sys): map<TxId, nat>
    requires ReleasesLast(s)
  {
    map t | t in s.txs && CommittedCleanly(s, t) :: ReleaseAt(s, t)
  }

  lemma HasRank(s: Sys, t: TxId)
    requires ReleasesLast(s) && CommittedCleanly(s, t)
    ensures t in Ranks(s)
  {
  }

  lemma KeptBefore(s: Sys, n: nat, x: Event)
    requires TraceOk(s) && ReleasesLast(s) && n < |s.trace| && x in Kept(s, n) && Conflicting(x, s.trace[n])
    requires CommittedCleanly(s, s.trace[n].tx)
    ensures x.tx in Ranks(s) && s.trace[n].tx in Ranks(s) && Ranks(s)[x.tx] < Ranks(s)[s.trace[n].tx]
  {
    hide LocksOk;
    hide Covered;
    hide Strict;
    hide Conflicting;
    KeptMember(s, n, x);
    var i :| 0 <= i < n && s.trace[i] == x;
    assert Conflicting(s.trace[i], s.trace[n]);
    EdgeFollowsRelease(s, x.tx, s.trace[n].tx);
  }

  lemma {:induction false} KeptRanked(s: Sys, n: nat)
    requires TraceOk(s) && ReleasesLast(s) && n <= |s.trace|
    ensures Ranked(Kept(s, n), Ranks(s))
  {
    hide TraceOk;
    hide ReleasesLast;
    hide Ranks;
    hide CommittedCleanly;
    hide Conflicting;
    if n > 0 {
      KeptRanked(s, n - 1);
      var e, k := s.trace[n - 1], Kept(s, n - 1);
      if e.Access? && CommittedCleanly(s, e.tx) {
        HasRank(s, e.tx);
        forall x | x in k && Conflicting(x, e)
          ensures x.tx in Ranks(s) && Ranks(s)[x.tx] < Ranks(s)[e.tx]
        {
          KeptBefore(s, n - 1, x);
        }
        RankedSnoc(k, e, Ranks(s));
      }
    }
  }

  /**
   * Conflict serializability of every run: the accesses of the transactions that committed without being
   * overtaken by a committed one have the effect of the serial execution in the order of lock release,
   * on the records and on everything each transaction reads.
   */
  lemma Serializable(actions: seq<Action>, w: World, f: Program)
    requires Runnable(EMPTY, actions)
    ensures var s := Run(EMPTY, actions);
            && ReleasesLast(s)
            && var h := Kept(s, |s.trace|);
               Exec(w, h, f) == Exec(w, Serial(h, CommitOrder(s, |s.trace|)), f)
  {
    hide LocksOk;
    hide Covered;
    hide ReleasesLast;
    hide Strict;
    hide Founded;
    hide Run;
    hide Kept;
    hide CommitOrder;
    hide Exec;
    hide Serial;
    hide Ranked;
    var s := Run(EMPTY, actions);
    Reachable(actions);
    KeptRanked(s, |s.trace|);
    forall x | x in Kept(s, |s.trace|) ensures x.tx in CommitOrder(s, |s.trace|) { KeptMember(s, |s.trace|, x); }
    SerialEquivalent(w, Kept(s, |s.trace|), CommitOrder(s, |s.trace|), Ranks(s), f);
  }
}
