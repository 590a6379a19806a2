/** The lock manager without its queues: what every call does to the locks transactions hold, told from these alone. */
module LockBooks {
  import opened Bytes
  import opened HeapModel
  import opened Locks
  import opened LockSystem
  import opened Serializability

  /** What a transaction holds, what it waits for, and how it is about to end. */
  datatype Book = Book(
    state: TxState, shared: set<RID>, exclusive: set<RID>, waiting: Option<(RID, Mode)>, ending: Option<bool>)

  type Books = map<TxId, Book>

  function BooksOf(s: Sys): Books {
    map t | t in s.txs ::
      var x := s.txs[t];
      Book(x.locks.state, x.locks.shared, x.locks.exclusive, x.waiting, x.ending)
  }

  /** No transaction but `t` may write the record; for a writer, no other may read it either. */
  predicate Free(books: Books, t: TxId, rid: RID, mode: Mode) {
    forall u :: u in books && u != t ==> rid !in books[u].exclusive && (mode == Exclusive ==> rid !in books[u].shared)
  }

  function Got(b: Book, rid: RID, mode: Mode): Book {
    match mode
    case Shared => b.(shared := b.shared + {rid}, waiting := None)
    case Exclusive => b.(exclusive := b.exclusive + {rid}, waiting := None)
  }

  /** What a call for a lock makes of the caller's book. */
  function Claimed(books: Books, t: TxId, rid: RID, mode: Mode): Book
    requires t in books
  {
    var b := books[t];
    if b.state != Growing || rid in b.exclusive || (mode == Shared && rid in b.shared) then b
    else if Free(books, t, rid, mode) then Got(b.(shared := b.shared - {rid}), rid, mode)
    else b.(shared := b.shared - {rid}, waiting := Some((rid, mode)))
  }

  /** The same when a waiting transaction looks again; one whose time is up is doomed and holds what it held. */
  function LookedAgain(books: Books, t: TxId, expired: bool): Book
    requires t in books && books[t].waiting.Some?
  {
    var b, (rid, mode) := books[t], books[t].waiting.value;
    if Free(books, t, rid, mode) then Got(b, rid, mode)
    else if expired then b.(state := Aborted, waiting := None)
    else b
  }

  predicate Timely(books: Books, a: Action) {
    match a
    case Begin(t) => true
    case Notified(t, _) => t in books && books[t].waiting.Some?
    case _ => a.t in books
  }

  /** One step, told from the books. */
  function Turned(books: Books, a: Action): Books
    requires Timely(books, a)
  {
    match a
    case Begin(t) => books[t := Book(Growing, {}, {}, None, None)]
    case AskShared(t, rid) => books[t := Claimed(books, t, rid, Shared)]
    case AskExclusive(t, rid) => books[t := Claimed(books, t, rid, Exclusive)]
    case Notified(t, expired) => books[t := LookedAgain(books, t, expired)]
    case End(t, commit) => books[t := books[t].(state := Shrinking, ending := Some(commit))]
    case UnlockAll(t) =>
      var state := if books[t].ending == Some(true) then Committed else Aborted;
      books[t := books[t].(state := state, shared := {}, exclusive := {})]
    case _ => books
  }

  /** A granted request of another transaction is one of the locks in its book. */
  lemma GrantableIsFree(s: Sys, t: TxId, rid: RID, mode: Mode)
    requires LocksOk(s)
    ensures Grantable(QueueOf(s.table, rid), t, mode) <==> Free(BooksOf(s), t, rid, mode)
  {
    var q, books := QueueOf(s.table, rid), BooksOf(s);
    forall u | u in s.txs && u != t
      ensures rid in books[u].exclusive <==> Request(u, Exclusive, true) in q
      ensures rid in books[u].shared <==> Request(u, Shared, true) in q
    {
      assert Agree(q, u, s.txs[u], rid);
    }
    if Free(books, t, rid, mode) {
      forall r | r in q && r.granted && r.tx != t
        ensures mode.Shared? && r.mode.Shared?
      {
        assert r.tx in s.txs && r == Request(r.tx, r.mode, true);
        assert r.mode.Shared? ==> rid in books[r.tx].shared;
      }
    }
  }

  /** A transaction's own requests do not stand in its way. */
  lemma OwnRequest(q: Queue, t: TxId, mode: Mode)
    ensures Grantable(q + [Request(t, mode, false)], t, mode) <==> Grantable(q, t, mode)
    ensures Grantable(Without(q, t) + [Request(t, mode, false)], t, mode) <==> Grantable(q, t, mode)
  {
    var own := Request(t, mode, false);
    assert forall r :: r in q + [own] <==> r in q || r == own;
    assert forall r :: r in Without(q, t) + [own] <==> (r in q && r.tx != t) || r == own;
  }

  lemma SharedByBooks(s: Sys, t: TxId, rid: RID)
    requires LocksOk(s) && Enabled(s, AskShared(t, rid))
    ensures BooksOf(Next(s, AskShared(t, rid))) == BooksOf(s)[t := Claimed(BooksOf(s), t, rid, Shared)]
  {
    hide LocksOk;
    hide Grantable;
    hide Free;
    OwnRequest(QueueOf(s.table, rid), t, Shared);
    GrantableIsFree(s, t, rid, Shared);
    var held := s.txs[t].locks.shared;
    assert rid !in held ==> held - {rid} == held;
  }

  lemma ExclusiveByBooks(s: Sys, t: TxId, rid: RID)
    requires LocksOk(s) && Enabled(s, AskExclusive(t, rid))
    ensures BooksOf(Next(s, AskExclusive(t, rid))) == BooksOf(s)[t := Claimed(BooksOf(s), t, rid, Exclusive)]
  {
    hide LocksOk;
    hide Grantable;
    hide Free;
    OwnRequest(QueueOf(s.table, rid), t, Exclusive);
    GrantableIsFree(s, t, rid, Exclusive);
    var held := s.txs[t].locks.shared;
    assert rid !in held ==> held - {rid} == held;
  }

  lemma NotifiedByBooks(s: Sys, t: TxId, expired: bool)
    requires LocksOk(s) && Enabled(s, Notified(t, expired))
    ensures BooksOf(Next(s, Notified(t, expired))) == BooksOf(s)[t := LookedAgain(BooksOf(s), t, expired)]
  {
    hide LocksOk;
    hide Grantable;
    hide Free;
    var (rid, mode) := s.txs[t].waiting.value;
    GrantableIsFree(s, t, rid, mode);
  }

  /** Every step of the lock manager is what the books say, for every transaction at once. */
  lemma StepByBooks(s: Sys, a: Action)
    requires LocksOk(s) && Enabled(s, a)
    ensures Timely(BooksOf(s), a)
    ensures BooksOf(Next(s, a)) == Turned(BooksOf(s), a)
  {
    hide LocksOk;
    hide Claimed;
    hide LookedAgain;
    match a
    case AskShared(t, rid) => SharedByBooks(s, t, rid);
    case AskExclusive(t, rid) => ExclusiveByBooks(s, t, rid);
    case Notified(t, expired) => NotifiedByBooks(s, t, expired);
    case _ =>
  }

  predicate AllTimely(books: Books, actions: seq<Action>)
    decreases |actions|
  {
    actions == [] || (Timely(books, actions[0]) && AllTimely(Turned(books, actions[0]), actions[1..]))
  }

  /** What the books say after a run. */
  function Kept(books: Books, actions: seq<Action>): Books
    requires AllTimely(books, actions)
    decreases |actions|
  {
    if actions == [] then books else Kept(Turned(books, actions[0]), actions[1..])
  }

  /** Whole runs of the lock manager, queues and all, are those of the books. */
  lemma {:induction false} RunByBooks(s: Sys, actions: seq<Action>)
    requires LocksOk(s) && Runnable(s, actions)
    ensures AllTimely(BooksOf(s), actions)
    ensures BooksOf(Run(s, actions)) == Kept(BooksOf(s), actions)
    decreases |actions|
  {
    hide LocksOk;
    hide Next;
    hide Turned;
    if actions != [] {
      StepByBooks(s, actions[0]);
      StepKeepsLocks(s, actions[0]);
      RunByBooks(Next(s, actions[0]), actions[1..]);
    }
  }

  // ----- Granted exactly when -----

  /** Nobody but `t` has the record in the set of its exclusive locks. */
  predicate NoOtherWriter(s: Sys, t: TxId, rid: RID) {
    forall u :: u in s.txs && u != t ==> rid !in s.txs[u].locks.exclusive
  }

  predicate NoOtherReader(s: Sys, t: TxId, rid: RID) {
    forall u :: u in s.txs && u != t ==> rid !in s.txs[u].locks.shared
  }

  lemma BooksMean(s: Sys, t: TxId, rid: RID)
    ensures Free(BooksOf(s), t, rid, Shared) <==> NoOtherWriter(s, t, rid)
    ensures Free(BooksOf(s), t, rid, Exclusive) <==> NoOtherWriter(s, t, rid) && NoOtherReader(s, t, rid)
  {
    if Free(BooksOf(s), t, rid, Shared) {
      forall u | u in s.txs && u != t
        ensures rid !in s.txs[u].locks.exclusive
      {
        assert u in BooksOf(s);
      }
    }
    if Free(BooksOf(s), t, rid, Exclusive) {
      forall u | u in s.txs && u != t
        ensures rid !in s.txs[u].locks.exclusive && rid !in s.txs[u].locks.shared
      {
        assert u in BooksOf(s);
      }
    }
  }

  /** In every reachable state a growing transaction gets to read a record at once if and only if no other may write it. */
  lemma ReadsExactly(actions: seq<Action>, t: TxId, rid: RID)
    requires Runnable(EMPTY, actions) && Enabled(Run(EMPTY, actions), AskShared(t, rid))
    requires var x := Run(EMPTY, actions).txs[t].locks; x.state == Growing && rid !in x.shared + x.exclusive
    ensures var s := Run(EMPTY, actions); var y := Next(s, AskShared(t, rid)).txs[t];
            && (rid in y.locks.shared <==> NoOtherWriter(s, t, rid))
            && y.waiting == if NoOtherWriter(s, t, rid) then None else Some((rid, Shared))
  {
    hide Run;
    hide LocksOk;
    hide Next;
    hide NoOtherWriter;
    hide NoOtherReader;
    Sound(actions);
    var s := Run(EMPTY, actions);
    SharedByBooks(s, t, rid);
    BooksMean(s, t, rid);
    InBooks(Next(s, AskShared(t, rid)), t);
    InBooks(s, t);
  }

  /** It gets to write it at once if and only if no other may read or write it. */
  lemma WritesExactly(actions: seq<Action>, t: TxId, rid: RID)
    requires Runnable(EMPTY, actions) && Enabled(Run(EMPTY, actions), AskExclusive(t, rid))
    requires var x := Run(EMPTY, actions).txs[t].locks; x.state == Growing && rid !in x.exclusive
    ensures var s := Run(EMPTY, actions); var y := Next(s, AskExclusive(t, rid)).txs[t];
            && (rid in y.locks.exclusive <==> NoOtherWriter(s, t, rid) && NoOtherReader(s, t, rid))
            && rid !in y.locks.shared
            && y.waiting == if rid in y.locks.exclusive then None else Some((rid, Exclusive))
  {
    hide Run;
    hide LocksOk;
    hide Next;
    hide NoOtherWriter;
    hide NoOtherReader;
    Sound(actions);
    var s := Run(EMPTY, actions);
    ExclusiveByBooks(s, t, rid);
    BooksMean(s, t, rid);
    InBooks(Next(s, AskExclusive(t, rid)), t);
    InBooks(s, t);
  }

  /** A transaction that waits and looks again: it has its lock by the same conditions, and is doomed if its time was up. */
  lemma WakesExactly(actions: seq<Action>, t: TxId, expired: bool)
    requires Runnable(EMPTY, actions) && Enabled(Run(EMPTY, actions), Notified(t, expired))
    ensures var s := Run(EMPTY, actions); var (rid, mode) := s.txs[t].waiting.value;
            var y := Next(s, Notified(t, expired)).txs[t];
            var free := NoOtherWriter(s, t, rid) && (mode == Exclusive ==> NoOtherReader(s, t, rid));
            && (rid in (if mode == Shared then y.locks.shared else y.locks.exclusive) <==> free)
            && (y.waiting.None? <==> free || expired)
            && y.locks.state == if expired && !free then Aborted else Growing
  {
    hide Run;
    hide LocksOk;
    hide Next;
    hide NoOtherWriter;
    hide NoOtherReader;
    Sound(actions);
    var s := Run(EMPTY, actions);
    var (rid, mode) := s.txs[t].waiting.value;
    Waits(s, t);
    NotifiedByBooks(s, t, expired);
    BooksMean(s, t, rid);
    InBooks(Next(s, Notified(t, expired)), t);
    InBooks(s, t);
  }

  lemma Sound(actions: seq<Action>)
    requires Runnable(EMPTY, actions)
    ensures LocksOk(Run(EMPTY, actions))
  {
    hide LocksOk;
    hide Run;
    Reachable(actions);
  }

  lemma InBooks(s: Sys, t: TxId)
    ensures t in BooksOf(s) <==> t in s.txs
    ensures t in s.txs ==>
              && BooksOf(s)[t].waiting == s.txs[t].waiting && BooksOf(s)[t].state == s.txs[t].locks.state
              && BooksOf(s)[t].shared == s.txs[t].locks.shared && BooksOf(s)[t].exclusive == s.txs[t].locks.exclusive
  {
  }

  /** Whoever waits for a record is growing and does not hold it so. */
  lemma Waits(s: Sys, t: TxId)
    requires LocksOk(s) && t in s.txs && s.txs[t].waiting.Some?
    ensures s.txs[t].locks.state == Growing
    ensures var (rid, mode) := s.txs[t].waiting.value;
            rid !in if mode == Shared then s.txs[t].locks.shared else s.txs[t].locks.exclusive
  {
    var (rid, mode) := s.txs[t].waiting.value;
    var q := QueueOf(s.table, rid);
    assert TxOk(s.txs[t]) && Agree(q, t, s.txs[t], rid) && QueueOk(q);
    assert Request(t, mode, false) in q;
  }
}
