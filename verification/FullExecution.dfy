/**
 * Runs with aborts: transactions that roll back write and unwrite, and yet the committed ones read and leave
 * what a serial execution of them alone would.
 */
module FullExecution {
  import opened Bytes
  import opened HeapModel
  import opened Locks
  import opened LockSystem
  import opened Serializability
  import opened SerialExecution

  type Images = seq<(RID, Value)>

  /** The records and reads so far, and what each transaction overwrote, latest last. */
  datatype Live = Live(now: World, images: map<TxId, Images>) {
    function Of(t: TxId): Images { if t in images then images[t] else [] }
  }

  /** A write remembers what it overwrites; an undo puts the latest of that back. */
  function Step(l: Live, e: Event, f: Program): Live {
    if e.Release? then l
    else if e.undo then
      var st := l.Of(e.tx);
      if st == [] then l
      else
        var last := st[|st| - 1];
        Live(l.now.(db := l.now.db[last.0 := last.1]), l.images[e.tx := st[..|st| - 1]])
    else if e.mode.Exclusive? then
      Live(Do(l.now, e, f), l.images[e.tx := l.Of(e.tx) + [(e.rid, l.now.At(e.rid))]])
    else l.(now := Do(l.now, e, f))
  }

  /** Everything that happened, in the order it happened. */
  function Full(w: World, trace: seq<Event>, f: Program): Live {
    if trace == [] then Live(w, map[]) else Step(Full(w, trace[..|trace| - 1], f), trace[|trace| - 1], f)
  }

  /** Undo goes back write by write, and an abort releases its locks only after the last one. */
  predicate UndoesAll(w: World, trace: seq<Event>, f: Program)
    decreases |trace|
  {
    trace == [] ||
    var n := |trace| - 1;
    var st := Full(w, trace[..n], f).Of(trace[n].tx);
    && UndoesAll(w, trace[..n], f)
    && (trace[n].Access? && trace[n].undo ==> st != [] && st[|st| - 1].0 == trace[n].rid)
    && (trace[n].Release? && !trace[n].commit ==> st == [])
  }

  /** What the record was before the first of these writes to it. */
  function Original(st: Images, rid: RID): Option<Value> {
    if st == [] then None
    else
      var n := |st| - 1;
      var before := Original(st[..n], rid);
      if before.Some? then before else if st[n].0 == rid then Some(st[n].1) else None
  }

  lemma OriginalPush(st: Images, x: (RID, Value), rid: RID)
    ensures Original(st + [x], rid) ==
            if Original(st, rid).Some? then Original(st, rid) else if x.0 == rid then Some(x.1) else None
  {
    assert (st + [x])[..|st|] == st;
  }

  /** A transaction that does not commit has a write of the record outstanding. */
  ghost predicate Dirty(s: Sys, l: Live, t: TxId, rid: RID) {
    !HasCommitted(s, t) && Original(l.Of(t), rid).Some?
  }

  /** The record is as in `k`, or it is dirty, and what it was before the writes is as in `k`. */
  ghost predicate MatchesAt(s: Sys, l: Live, k: World, rid: RID) {
    && (forall t :: Dirty(s, l, t, rid) ==> Original(l.Of(t), rid).value == k.At(rid))
    && (l.now.At(rid) == k.At(rid) || exists t :: Dirty(s, l, t, rid))
  }

  /** The full state `l` and the state `k` of the committed accesses alone. */
  ghost predicate Matches(s: Sys, l: Live, k: World) {
    && (forall t :: HasCommitted(s, t) ==> l.now.SeenBy(t) == k.SeenBy(t))
    && (forall rid :: MatchesAt(s, l, k, rid))
  }

  ghost predicate Wrote(trace: seq<Event>, n: nat, t: TxId, rid: RID)
    requires n <= |trace|
  {
    exists i :: 0 <= i < n && trace[i].Access? && trace[i].tx == t && trace[i].rid == rid && trace[i].mode.Exclusive?
  }

  /** Outstanding writes happened, and are gone once their transaction has released its locks. */
  ghost predicate Rooted(s: Sys, l: Live, n: nat)
    requires n <= |s.trace|
  {
    forall t, rid :: Dirty(s, l, t, rid) ==>
      Wrote(s.trace, n, t, rid) && forall k :: 0 <= k < n ==> !IsRelease(s.trace[k], t)
  }

  /** A record somebody else touches next has been released by whoever wrote it. */
  lemma WriterReleased(s: Sys, n: nat, t: TxId)
    requires TraceOk(s) && n < |s.trace| && s.trace[n].Access? && t != s.trace[n].tx
    requires Wrote(s.trace, n, t, s.trace[n].rid)
    ensures exists k :: 0 <= k < n && IsRelease(s.trace[k], t)
  {
    hide LocksOk;
    var rid := s.trace[n].rid;
    var i :| 0 <= i < n && s.trace[i].Access? && s.trace[i].tx == t && s.trace[i].rid == rid && s.trace[i].mode.Exclusive?;
    assert Conflicting(s.trace[i], s.trace[n]);
    assert ReleasedBetween(s.trace, t, i, n) || Ahead(s, s.trace[i], s.trace[n]);
  }

  /** Nobody else touches a record with an outstanding write. */
  lemma OnlyWriter(s: Sys, l: Live, n: nat, t: TxId)
    requires TraceOk(s) && n < |s.trace| && Rooted(s, l, n) && s.trace[n].Access? && t != s.trace[n].tx
    ensures !Dirty(s, l, t, s.trace[n].rid)
  {
    hide TraceOk;
    if Dirty(s, l, t, s.trace[n].rid) {
      WriterReleased(s, n, t);
      assert false;
    }
  }

  // ----- One event -----

  lemma CommittedStepAt(s: Sys, l: Live, k: World, e: Event, f: Program, rid: RID)
    requires MatchesAt(s, l, k, rid) && e.Access? && !e.undo && HasCommitted(s, e.tx)
    requires l.now.SeenBy(e.tx) == k.SeenBy(e.tx) && l.now.At(e.rid) == k.At(e.rid)
    requires forall t :: !Dirty(s, l, t, e.rid)
    ensures MatchesAt(s, Step(l, e, f), Do(k, e, f), rid)
  {
    hide Original;
    hide HasCommitted;
    var l' := Step(l, e, f);
    forall t
      ensures Dirty(s, l', t, rid) <==> Dirty(s, l, t, rid)
      ensures Dirty(s, l, t, rid) ==> l'.Of(t) == l.Of(t)
    {
    }
  }

  lemma CommittedStep(s: Sys, l: Live, k: World, n: nat, f: Program)
    requires TraceOk(s) && n < |s.trace| && Rooted(s, l, n) && Matches(s, l, k)
    requires s.trace[n].Access? && HasCommitted(s, s.trace[n].tx)
    ensures !s.trace[n].undo && Matches(s, Step(l, s.trace[n], f), Do(k, s.trace[n], f))
  {
    var e := s.trace[n];
    assert TxOk(s.txs[e.tx]);
    forall t
      ensures !Dirty(s, l, t, e.rid)
    {
      if t != e.tx {
        OnlyWriter(s, l, n, t);
      }
    }
    hide TraceOk;
    hide Rooted;
    assert MatchesAt(s, l, k, e.rid);
    forall rid
      ensures MatchesAt(s, Step(l, e, f), Do(k, e, f), rid)
    {
      assert MatchesAt(s, l, k, rid);
      CommittedStepAt(s, l, k, e, f, rid);
    }
    hide MatchesAt;
  }

  /** A write of a transaction that will not commit. */
  lemma DoomedWriteAt(s: Sys, l: Live, k: World, e: Event, f: Program, rid: RID)
    requires MatchesAt(s, l, k, rid) && e.Access? && !e.undo && e.mode.Exclusive? && !HasCommitted(s, e.tx)
    requires forall t :: t != e.tx ==> !Dirty(s, l, t, e.rid)
    ensures MatchesAt(s, Step(l, e, f), k, rid)
  {
    hide Original;
    hide HasCommitted;
    var l' := Step(l, e, f);
    OriginalPush(l.Of(e.tx), (e.rid, l.now.At(e.rid)), rid);
    forall t | t != e.tx
      ensures l'.Of(t) == l.Of(t)
    {
    }
    assert rid == e.rid ==> Dirty(s, l', e.tx, rid);
    assert Dirty(s, l, e.tx, rid) ==> Dirty(s, l', e.tx, rid);
    forall t | Dirty(s, l, t, rid)
      ensures Dirty(s, l', t, rid)
    {
    }
  }

  /** An undo puts the image back that is the original unless an older one is outstanding. */
  lemma UndoStepAt(s: Sys, l: Live, k: World, e: Event, f: Program, rid: RID)
    requires MatchesAt(s, l, k, rid) && e.Access? && e.undo && !HasCommitted(s, e.tx)
    requires l.Of(e.tx) != []
    ensures MatchesAt(s, Step(l, e, f), k, rid)
  {
    hide HasCommitted;
    var l', st := Step(l, e, f), l.Of(e.tx);
    var n := |st| - 1;
    assert st == st[..n] + [st[n]];
    OriginalPush(st[..n], st[n], rid);
    hide Original;
    assert l'.Of(e.tx) == st[..n];
    forall t | t != e.tx
      ensures l'.Of(t) == l.Of(t)
    {
    }
    assert rid != st[n].0 ==> l'.now.At(rid) == l.now.At(rid);
    forall t | Dirty(s, l, t, rid) && t != e.tx
      ensures Dirty(s, l', t, rid)
    {
    }
    if Dirty(s, l, e.tx, rid) && !Dirty(s, l', e.tx, rid) {
      assert st[n].0 == rid && st[n].1 == k.At(rid);
    }
  }

  lemma DoomedReadAt(s: Sys, l: Live, k: World, e: Event, f: Program, rid: RID)
    requires MatchesAt(s, l, k, rid) && e.Access? && !e.undo && e.mode.Shared?
    ensures MatchesAt(s, Step(l, e, f), k, rid)
  {
    hide Original;
    hide HasCommitted;
    var l' := Step(l, e, f);
    forall t
      ensures Dirty(s, l', t, rid) <==> Dirty(s, l, t, rid)
      ensures l'.Of(t) == l.Of(t)
    {
    }
  }

  lemma DoomedStep(s: Sys, l: Live, k: World, n: nat, f: Program)
    requires TraceOk(s) && n < |s.trace| && Rooted(s, l, n) && Matches(s, l, k)
    requires s.trace[n].Access? && !HasCommitted(s, s.trace[n].tx) && (s.trace[n].undo ==> l.Of(s.trace[n].tx) != [])
    ensures Matches(s, Step(l, s.trace[n], f), k)
  {
    var e := s.trace[n];
    forall t | t != e.tx
      ensures !Dirty(s, l, t, e.rid)
    {
      OnlyWriter(s, l, n, t);
    }
    hide TraceOk;
    hide Rooted;
    forall rid
      ensures MatchesAt(s, Step(l, e, f), k, rid)
    {
      assert MatchesAt(s, l, k, rid);
      if e.undo {
        UndoStepAt(s, l, k, e, f, rid);
      } else if e.mode.Exclusive? {
        DoomedWriteAt(s, l, k, e, f, rid);
      } else {
        DoomedReadAt(s, l, k, e, f, rid);
      }
    }
    hide MatchesAt;
    forall t | HasCommitted(s, t)
      ensures Step(l, e, f).now.SeenBy(t) == l.now.SeenBy(t)
    {
    }
  }

  lemma NoReleaseBefore(s: Sys, n: nat)
    requires TraceOk(s) && n < |s.trace|
    ensures forall k :: 0 <= k < n ==> !IsRelease(s.trace[k], s.trace[n].tx)
  {
  }

  /** The release of a transaction that did not commit is marked so. */
  lemma AbortIsMarked(s: Sys, n: nat)
    requires TraceOk(s) && n < |s.trace| && s.trace[n].Release? && !HasCommitted(s, s.trace[n].tx)
    ensures !s.trace[n].commit
  {
  }

  /** An outstanding write after the event was outstanding before it, or is the event. */
  lemma DirtyStep(s: Sys, l: Live, e: Event, f: Program, t: TxId, rid: RID)
    requires Dirty(s, Step(l, e, f), t, rid)
    ensures Dirty(s, l, t, rid) || (e.Access? && e.tx == t && e.rid == rid && e.mode.Exclusive?)
  {
    hide HasCommitted;
    var st := l.Of(e.tx);
    if e.Access? && e.undo && st != [] {
      var n := |st| - 1;
      assert st == st[..n] + [st[n]];
      OriginalPush(st[..n], st[n], rid);
    } else if e.Access? && e.mode.Exclusive? {
      OriginalPush(st, (e.rid, l.now.At(e.rid)), rid);
    }
  }

  lemma RootedStep(s: Sys, w: World, n: nat, f: Program)
    requires TraceOk(s) && n < |s.trace| && UndoesAll(w, s.trace[..n + 1], f)
    requires Rooted(s, Full(w, s.trace[..n], f), n)
    ensures s.trace[..n + 1][..n] == s.trace[..n]
    ensures Rooted(s, Step(Full(w, s.trace[..n], f), s.trace[n], f), n + 1)
  {
    assert s.trace[..n + 1][..n] == s.trace[..n];
    var l, e := Full(w, s.trace[..n], f), s.trace[n];
    NoReleaseBefore(s, n);
    if e.Release? && !HasCommitted(s, e.tx) {
      AbortIsMarked(s, n);
      assert l.Of(e.tx) == [];
    }
    hide TraceOk;
    hide HasCommitted;
    forall t, rid | Dirty(s, Step(l, e, f), t, rid)
      ensures Wrote(s.trace, n + 1, t, rid) && forall k :: 0 <= k < n + 1 ==> !IsRelease(s.trace[k], t)
    {
      DirtyStep(s, l, e, f, t, rid);
      if e.Release? && e.tx == t {
        assert false;
      }
    }
  }

  // ----- Whole runs -----

  lemma KeptStep(s: Sys, n: nat, w: World, f: Program)
    requires Undisturbed(s) && n < |s.trace|
    ensures s.trace[n].Access? && HasCommitted(s, s.trace[n].tx) ==>
              Exec(w, Kept(s, n + 1), f) == Do(Exec(w, Kept(s, n), f), s.trace[n], f)
    ensures !(s.trace[n].Access? && HasCommitted(s, s.trace[n].tx)) ==> Kept(s, n + 1) == Kept(s, n)
  {
    hide HasCommitted;
    hide Do;
    var e := s.trace[n];
    if e.Access? && HasCommitted(s, e.tx) {
      assert CommittedCleanly(s, e.tx);
      ExecSnoc(w, Kept(s, n), e, f);
    }
  }

  lemma {:induction false} FullMatches(s: Sys, w: World, n: nat, f: Program)
    requires TraceOk(s) && Undisturbed(s) && n <= |s.trace| && UndoesAll(w, s.trace[..n], f)
    ensures Rooted(s, Full(w, s.trace[..n], f), n)
    ensures Matches(s, Full(w, s.trace[..n], f), Exec(w, Kept(s, n), f))
  {
    if n > 0 {
      var m := n - 1;
      assert s.trace[..n][..m] == s.trace[..m];
      FullMatches(s, w, m, f);
      RootedStep(s, w, m, f);
      KeptStep(s, m, w, f);
      var l, k, e := Full(w, s.trace[..m], f), Exec(w, Kept(s, m), f), s.trace[m];
      if e.Access? && HasCommitted(s, e.tx) {
        CommittedStep(s, l, k, m, f);
      } else if e.Access? {
        DoomedStep(s, l, k, m, f);
      }
    }
  }

  /** All transactions have released their locks. */
  ghost predicate Quiet(s: Sys) {
    forall t :: t in s.txs ==> s.txs[t].released
  }

  lemma WriterEnded(s: Sys, t: TxId, rid: RID)
    requires TraceOk(s) && Quiet(s) && Wrote(s.trace, |s.trace|, t, rid)
    ensures exists k :: 0 <= k < |s.trace| && IsRelease(s.trace[k], t)
  {
    hide LocksOk;
    var i :| 0 <= i < |s.trace| && s.trace[i].Access? && s.trace[i].tx == t && s.trace[i].rid == rid;
    ReleasedAfter(s, t, i);
  }

  lemma NothingDirty(s: Sys, l: Live, t: TxId, rid: RID)
    requires TraceOk(s) && Quiet(s) && Rooted(s, l, |s.trace|)
    ensures !Dirty(s, l, t, rid)
  {
    hide TraceOk;
    if Dirty(s, l, t, rid) {
      WriterEnded(s, t, rid);
      assert false;
    }
  }

  /**
   * Serializability of whole runs with aborts: when every abort undoes what it wrote and no committed
   * transaction was overtaken by a committed one, all that happened leaves the records, and showed every
   * committed transaction the values, of the committed transactions run one after another in release order.
   */
  lemma FullySerializable(actions: seq<Action>, w: World, f: Program)
    requires Runnable(EMPTY, actions)
    requires var s := Run(EMPTY, actions); Undisturbed(s) && Quiet(s) && UndoesAll(w, s.trace, f)
    ensures var s := Run(EMPTY, actions);
            && ReleasesLast(s)
            && var l, serial := Full(w, s.trace, f), Exec(w, Serial(Kept(s, |s.trace|), CommitOrder(s, |s.trace|)), f);
               && (forall rid :: l.now.At(rid) == serial.At(rid))
               && (forall t :: HasCommitted(s, t) ==> l.now.SeenBy(t) == serial.SeenBy(t))
  {
    var s := Run(EMPTY, actions);
    Reachable(actions);
    Serializable(actions, w, f);
    assert s.trace[..|s.trace|] == s.trace;
    FullMatches(s, w, |s.trace|, f);
    var l, k := Full(w, s.trace, f), Exec(w, Kept(s, |s.trace|), f);
    forall rid
      ensures l.now.At(rid) == k.At(rid)
    {
      forall t ensures !Dirty(s, l, t, rid) { NothingDirty(s, l, t, rid); }
      assert MatchesAt(s, l, k, rid);
    }
  }

  /** And every committed transaction is in that serial execution with all its accesses. */
  lemma NothingLeftOut(s: Sys, i: nat)
    requires Undisturbed(s) && i < |s.trace| && s.trace[i].Access? && HasCommitted(s, s.trace[i].tx)
    ensures s.trace[i] in Kept(s, |s.trace|)
  {
    KeptHas(s, |s.trace|, i);
  }

  lemma {:induction false} KeptHas(s: Sys, n: nat, i: nat)
    requires Undisturbed(s) && i < n <= |s.trace| && s.trace[i].Access? && HasCommitted(s, s.trace[i].tx)
    ensures s.trace[i] in Kept(s, n)
  {
    hide HasCommitted;
    if i == n - 1 {
      assert CommittedCleanly(s, s.trace[i].tx);
    } else {
      KeptHas(s, n - 1, i);
    }
  }
}
