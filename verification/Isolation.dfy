/** Several transactions on one table, taking turns: what one has written no other reads or writes before it ends. */
module Isolation {
  import opened Bytes
  import opened HeapModel
  import opened TableHeaps
  import opened Losses
  import opened Locks
  import opened Tables

  datatype Work = Read(rid: RID) | Put(tuple: seq<byte>) | Drop(rid: RID) | Set(rid: RID, tuple: seq<byte>)

  datatype Result = Nothing | Bytes(bytes: seq<byte>) | At(rid: RID) | Dropped

  /** The table agrees with the lock sets of both, and nobody holds conflicting locks. */
  ghost predicate Consistent(table: LockTable, t: TxId, x: TxLocks, u: TxId, y: TxLocks) {
    t != u && Compatibly(table) && Booked(table, t, x) && Booked(table, u, y)
  }

  /** A record one transaction has locked exclusively can be locked by no other. */
  lemma ShutOut(table: LockTable, t: TxId, x: TxLocks, u: TxId, y: TxLocks, rid: RID)
    requires Consistent(table, t, x, u, y) && rid in x.exclusive
    ensures rid !in y.shared + y.exclusive
    ensures !Readable(y, QueueOf(table, rid), u, rid) && !Lockable(y, QueueOf(table, rid), u, rid)
  {
    var q, mine := QueueOf(table, rid), Request(t, Exclusive, true);
    assert mine in q && mine.granted && mine.tx != u;
    assert rid in y.shared ==> Request(u, Shared, true) in q;
    assert rid in y.exclusive ==> Request(u, Exclusive, true) in q;
  }

  /** Once it has given its locks back, every growing transaction can lock it. */
  lemma LetIn(table: LockTable, t: TxId, x: TxLocks, u: TxId, y: TxLocks, rid: RID)
    requires Consistent(table, t, x, u, y) && rid in x.exclusive && y.state.Growing?
    ensures var q := QueueOf(UnlockTable(table, t, x.shared + x.exclusive), rid);
            Readable(y, q, u, rid) && Lockable(y, q, u, rid)
  {
    var q, mine := QueueOf(table, rid), Request(t, Exclusive, true);
    assert mine in q;
    var q' := QueueOf(UnlockTable(table, t, x.shared + x.exclusive), rid);
    assert forall r :: r in q' ==> r in q && r.tx != t;
  }

  /** A transaction whose id has no requests yet agrees with the table. */
  lemma BeginsBooked(table: LockTable, t: TxId)
    requires forall rid, r :: r in QueueOf(table, rid) ==> r.tx < t
    ensures Booked(table, t, TxLocks(Growing, {}, {}))
  {
  }

  /** The commit of the owner lets the others at its records. */
  method CommitLetsIn(manager: TransactionManager, owner: Transaction, other: Transaction, rid: RID)
    requires manager.Valid() && owner != other && other.state.Growing? && rid in owner.exclusive
    requires Consistent(manager.locks.table, owner.id, owner.Locks(), other.id, other.Locks())
    modifies manager, manager.locks, owner
    ensures Consistent(manager.locks.table, owner.id, owner.Locks(), other.id, other.Locks())
    ensures var q := QueueOf(manager.locks.table, rid);
            Readable(other.Locks(), q, other.id, rid) && Lockable(other.Locks(), q, other.id, rid)
  {
    hide Booked;
    hide Compatibly;
    hide Readable;
    hide Lockable;
    ghost var before := manager.locks.table;
    LetIn(before, owner.id, owner.Locks(), other.id, other.Locks(), rid);
    manager.Commit(owner);
    StaysBooked(before, manager.locks.table, owner.id, other.id, other.Locks());
  }

  /** So does its abort, when no assertion fires; else they stay shut out. */
  method AbortLetsIn(manager: TransactionManager, owner: Transaction, heap: TableHeap, ghost m: HeapMap, ghost k: Keeping,
                     other: Transaction, rid: RID) returns (ok: bool)
    requires manager.Valid() && heap.Ready() && owner != other && other.state.Growing? && rid in owner.exclusive
    requires forall r :: r in owner.undoLog ==> r.rid.page in heap.pages && (r.RestoreRecord? ==> |r.tuple| < 0x1_0000)
    requires Consistent(manager.locks.table, owner.id, owner.Locks(), other.id, other.Locks())
    modifies manager, manager.locks, owner, heap, heap.store
    ensures Consistent(manager.locks.table, owner.id, owner.Locks(), other.id, other.Locks())
    ensures var q := QueueOf(manager.locks.table, rid);
            && (Readable(other.Locks(), q, other.id, rid) <==> ok)
            && (Lockable(other.Locks(), q, other.id, rid) <==> ok)
  {
    hide Booked;
    hide Compatibly;
    hide Readable;
    hide Lockable;
    hide HeapModel.Rows;
    hide TableHeap.Ready;
    ghost var before := manager.locks.table;
    LetIn(before, owner.id, owner.Locks(), other.id, other.Locks(), rid);
    ShutOut(before, owner.id, owner.Locks(), other.id, other.Locks(), rid);
    ok := manager.Abort(owner, heap, m, k);
    StaysBooked(before, manager.locks.table, owner.id, other.id, other.Locks());
  }

  /** One operation on behalf of a transaction. */
  method Do(table: Table, tx: Transaction, w: Work) returns (r: Result)
    requires table.Ready() && table.heap.Settled() && table.heap.store.CanAllocate()
    requires !w.Put? ==> table.heap.Own(w.rid)
    requires w.Set? ==> |w.tuple| < 0x1_0000
    modifies table.heap, table.heap.store, table.locks, tx
    ensures table.Ready() && table.heap.Settled() && OnlyGrows(old(table.heap.pages), table.heap.pages)
    ensures Orderly(old(table.locks.table), old(LocksOf(tx)), table.locks.table, LocksOf(tx), tx)
    ensures !w.Put? && r != Nothing ==>
              old(Readable(tx.Locks(), QueueOf(table.locks.table, w.rid), tx.id, w.rid))
    ensures (w.Drop? || w.Set?) && r != Nothing ==>
              old(Lockable(tx.Locks(), QueueOf(table.locks.table, w.rid), tx.id, w.rid)) && w.rid in tx.exclusive
    ensures r.At? ==>
              && (w.Put? || w.Set?) && r.rid in tx.exclusive
              && r.rid in Rows(table.heap.pages) && Rows(table.heap.pages)[r.rid] == w.tuple
    ensures r.Dropped? ==> w.Drop? && w.rid !in Rows(table.heap.pages)
    ensures forall rid :: rid in Rows(old(table.heap.pages)) && !((w.Drop? || w.Set?) && rid == w.rid) ==>
              rid in Rows(table.heap.pages) && Rows(table.heap.pages)[rid] == Rows(old(table.heap.pages))[rid]
    ensures (w.Drop? || w.Set?) && !old(Lockable(tx.Locks(), QueueOf(table.locks.table, w.rid), tx.id, w.rid)) ==>
              Rows(table.heap.pages) == Rows(old(table.heap.pages))
  {
    hide HeapModel.Rows;
    hide TableHeap.Ready;
    hide TableHeap.Settled;
    hide OnlyGrows;
    hide Orderly;
    hide Table.GetsPlace;
    hide Table.FindsPlace;
    hide Table.NewRid;
    hide Table.MovedTo;
    hide WriteLocked;
    hide Readable;
    hide Lockable;
    match w {
      case Read(rid) =>
        OnlyGrowsRefl(table.heap.pages);
        var bytes := table.Get(rid, tx);
        r := if bytes.None? then Nothing else Bytes(bytes.value);
      case Put(t) =>
        var a := table.Insert(t, tx);
        r := if a.Row? then At(a.rid) else Nothing;
      case Drop(rid) =>
        LockableReadable(tx.Locks(), QueueOf(table.locks.table, rid), tx.id, rid);
        var ok := table.Delete(rid, tx);
        r := if ok then Dropped else Nothing;
      case Set(rid, t) =>
        LockableReadable(tx.Locks(), QueueOf(table.locks.table, rid), tx.id, rid);
        var a, torn := table.Update(rid, t, tx);
        r := if a.Row? then At(a.rid) else Nothing;
    }
  }

  lemma LockableReadable(x: TxLocks, q: Queue, t: TxId, rid: RID)
    ensures Lockable(x, q, t, rid) ==> Readable(x, q, t, rid)
  {
  }

  /** One operation of another transaction, while `owner` goes on holding what it holds. */
  method Beside(table: Table, ghost owner: Transaction, other: Transaction, w: Work) returns (r: Result)
    requires table.Ready() && table.heap.Settled() && table.heap.store.CanAllocate() && owner != other
    requires Consistent(table.locks.table, owner.id, owner.Locks(), other.id, other.Locks())
    requires !w.Put? ==> table.heap.Own(w.rid)
    requires w.Set? ==> |w.tuple| < 0x1_0000
    modifies table.heap, table.heap.store, table.locks, other
    ensures table.Ready() && table.heap.Settled() && OnlyGrows(old(table.heap.pages), table.heap.pages)
    ensures Consistent(table.locks.table, owner.id, owner.Locks(), other.id, other.Locks())
    ensures OnlyOwn(old(table.locks.table), table.locks.table, other.id)
    ensures Refused(w, r, owner.exclusive)
    ensures SameRecords(owner.exclusive, Rows(old(table.heap.pages)), Rows(table.heap.pages))
  {
    hide HeapModel.Rows;
    hide TableHeap.Ready;
    hide TableHeap.Settled;
    hide OnlyGrows;
    hide Readable;
    hide Lockable;
    hide Consistent;
    hide Orderly;
    hide OnlyOwn;
    ghost var before, x := table.locks.table, other.Locks();
    AllShutOut(before, owner, other);
    r := Do(table, other, w);
    OrderlyConsistent(before, x, table.locks.table, owner, other);
    AllShutOut(table.locks.table, owner, other);
  }

  lemma AllShutOut(table: LockTable, owner: Transaction, other: Transaction)
    requires Consistent(table, owner.id, owner.Locks(), other.id, other.Locks())
    ensures forall rid :: rid in owner.exclusive ==>
              && rid !in other.exclusive && !Readable(other.Locks(), QueueOf(table, rid), other.id, rid)
              && !Lockable(other.Locks(), QueueOf(table, rid), other.id, rid)
  {
    forall rid | rid in owner.exclusive
      ensures rid !in other.exclusive && !Readable(other.Locks(), QueueOf(table, rid), other.id, rid)
      ensures !Lockable(other.Locks(), QueueOf(table, rid), other.id, rid)
    {
      ShutOut(table, owner.id, owner.Locks(), other.id, other.Locks(), rid);
    }
  }

  lemma OrderlyConsistent(before: LockTable, x: TxLocks, after: LockTable, owner: Transaction, other: Transaction)
    requires Consistent(before, owner.id, owner.Locks(), other.id, x)
    requires Orderly(before, x, after, LocksOf(other), other)
    ensures Consistent(after, owner.id, owner.Locks(), other.id, other.Locks()) && OnlyOwn(before, after, other.id)
  {
    StaysBooked(before, after, other.id, owner.id, owner.Locks());
  }

  /** `owner` is consistent with each of the others, which are different transactions. */
  ghost predicate AllConsistent(table: LockTable, owner: Transaction, others: seq<Transaction>)
    reads owner, others
  {
    && (forall k :: 0 <= k < |others| ==> owner != others[k])
    && (forall j, k :: 0 <= j < k < |others| ==> others[j] != others[k] && others[j].id != others[k].id)
    && (forall k :: 0 <= k < |others| ==> Consistent(table, owner.id, owner.Locks(), others[k].id, others[k].Locks()))
  }

  lemma StaysBooked(before: LockTable, after: LockTable, t: TxId, u: TxId, y: TxLocks)
    requires OnlyOwn(before, after, t) && u != t && Booked(before, u, y)
    ensures Booked(after, u, y)
  {
  }

  /** After one of the others did something, the rest is as it was. */
  lemma StillConsistent(before: LockTable, after: LockTable, owner: Transaction, others: seq<Transaction>, books: seq<TxLocks>, k: nat)
    requires k < |others| == |books| && OnlyOwn(before, after, others[k].id)
    requires Consistent(after, owner.id, owner.Locks(), others[k].id, others[k].Locks())
    requires forall j :: 0 <= j < |others| ==> owner != others[j]
    requires forall i, j :: 0 <= i < j < |others| ==> others[i] != others[j] && others[i].id != others[j].id
    requires forall j :: 0 <= j < |others| ==> Consistent(before, owner.id, owner.Locks(), others[j].id, books[j])
    requires forall j :: 0 <= j < |others| && j != k ==> others[j].Locks() == books[j]
    ensures AllConsistent(after, owner, others)
  {
    hide OnlyOwn;
    hide Booked;
    hide Compatibly;
    forall j | 0 <= j < |others|
      ensures Consistent(after, owner.id, owner.Locks(), others[j].id, others[j].Locks())
    {
      if j != k {
        StaysBooked(before, after, others[k].id, others[j].id, books[j]);
      }
    }
  }

  ghost function AllLocks(others: seq<Transaction>): (r: seq<TxLocks>)
    reads others
    ensures |r| == |others| && forall j :: 0 <= j < |others| ==> r[j] == others[j].Locks()
  {
    if others == [] then []
    else
      var n := |others| - 1;
      AllLocks(others[..n]) + [others[n].Locks()]
  }

  /** A work on a locked record came to nothing, and no record handed out is a locked one. */
  predicate Refused(w: Work, r: Result, own: set<RID>) {
    (!w.Put? && w.rid in own ==> r == Nothing) && (r.At? ==> r.rid !in own)
  }

  ghost predicate SameRecords(own: set<RID>, m: HeapMap, m': HeapMap) {
    forall rid :: rid in own && rid in m ==> rid in m' && m'[rid] == m[rid]
  }

  lemma SameTwice(own: set<RID>, a: HeapMap, b: HeapMap, c: HeapMap)
    requires SameRecords(own, a, b) && SameRecords(own, b, c)
    ensures SameRecords(own, a, c)
  {
  }

  lemma SameRefl(own: set<RID>, m: HeapMap)
    ensures SameRecords(own, m, m)
  {
  }

  lemma GrowsTwice(a: Pages, b: Pages, c: Pages)
    requires OnlyGrows(a, b) && OnlyGrows(b, c)
    ensures OnlyGrows(a, c)
  {
  }

  lemma OnPage(table: Table, before: Pages, rid: RID)
    requires OnlyGrows(before, table.heap.pages) && rid.page in before
    ensures table.heap.Own(rid)
  {
  }

  /**
   * Whatever the others do in whatever order, none reads or writes a record `owner` has locked exclusively, and its
   * bytes stay what they are.
   */
  method Meanwhile(table: Table, ghost owner: Transaction, others: seq<Transaction>, works: seq<(nat, Work)>)
    returns (results: seq<Result>)
    requires table.Ready() && table.heap.Settled() && AllConsistent(table.locks.table, owner, others)
    requires forall w :: w in works ==>
               && w.0 < |others| && (w.1.Set? ==> |w.1.tuple| < 0x1_0000)
               && (!w.1.Put? ==> w.1.rid.page in table.heap.pages)
    modifies table.heap, table.heap.store, table.locks, others
    ensures table.Ready() && table.heap.Settled() && AllConsistent(table.locks.table, owner, others)
    ensures |results| <= |works| && (|results| < |works| ==> !table.heap.store.CanAllocate())
    ensures forall i :: 0 <= i < |results| ==> Refused(works[i].1, results[i], owner.exclusive)
    ensures SameRecords(owner.exclusive, Rows(old(table.heap.pages)), Rows(table.heap.pages))
  {
    hide *;
    results := [];
    SameRefl(owner.exclusive, Rows(table.heap.pages));
    OnlyGrowsRefl(table.heap.pages);
    while |results| < |works| && table.heap.store.CanAllocate()
      invariant |results| <= |works| && table.Ready() && table.heap.Settled()
      invariant AllConsistent(table.locks.table, owner, others)
      invariant OnlyGrows(old(table.heap.pages), table.heap.pages)
      invariant forall i :: 0 <= i < |results| ==> Refused(works[i].1, results[i], owner.exclusive)
      invariant SameRecords(owner.exclusive, Rows(old(table.heap.pages)), Rows(table.heap.pages))
    {
      var (k, w) := works[|results|];
      ghost var before, m := table.locks.table, Rows(table.heap.pages);
      assert works[|results|] in works;
      ghost var books, pages := AllLocks(others), table.heap.pages;
      Separate(before, owner, others);
      if !w.Put? {
        OnPage(table, old(table.heap.pages), w.rid);
      }
      var r := Beside(table, owner, others[k], w);
      StillConsistent(before, table.locks.table, owner, others, books, k);
      GrowsTwice(old(table.heap.pages), pages, table.heap.pages);
      SameTwice(owner.exclusive, Rows(old(table.heap.pages)), m, Rows(table.heap.pages));
      results := results + [r];
    }
  }

  /**
   * A transaction writes, then any number of others work on the table: none of them reads or writes the record
   * written, nor the one it was moved to, and what was written stays.
   */
  method WriteThenMeanwhile(table: Table, owner: Transaction, w: Work, others: seq<Transaction>, works: seq<(nat, Work)>)
    returns (r: Result, results: seq<Result>)
    requires table.Ready() && table.heap.Settled() && table.heap.store.CanAllocate()
    requires AllConsistent(table.locks.table, owner, others)
    requires (!w.Put? ==> w.rid.page in table.heap.pages) && (w.Set? ==> |w.tuple| < 0x1_0000)
    requires forall v :: v in works ==>
               && v.0 < |others| && (v.1.Set? ==> |v.1.tuple| < 0x1_0000)
               && (!v.1.Put? ==> v.1.rid.page in table.heap.pages)
    modifies table.heap, table.heap.store, table.locks, owner, others
    ensures |results| <= |works| && (|results| < |works| ==> !table.heap.store.CanAllocate())
    ensures r.At? ==>
              && (w.Put? || w.Set?) && r.rid in Rows(table.heap.pages) && Rows(table.heap.pages)[r.rid] == w.tuple
              && forall i :: 0 <= i < |results| ==>
                   Refused(works[i].1, results[i], {r.rid}) && (w.Set? ==> Refused(works[i].1, results[i], {w.rid}))
    ensures r.Dropped? ==> w.Drop? && forall i :: 0 <= i < |results| ==> Refused(works[i].1, results[i], {w.rid})
    ensures AllConsistent(table.locks.table, owner, others)
  {
    hide *;
    ghost var books, before, x, pages := AllLocks(others), table.locks.table, owner.Locks(), table.heap.pages;
    Separate(before, owner, others);
    LocksAre(owner);
    OnlyGrowsRefl(pages);
    if !w.Put? {
      OnPage(table, pages, w.rid);
    }
    r := Do(table, owner, w);
    OwnerMoved(before, x, books, table.locks.table, owner, others);
    OnPages(pages, table.heap.pages);
    ghost var now := Rows(table.heap.pages);
    results := Meanwhile(table, owner, others, works);
    if r.At? {
      Stayed(owner.exclusive, now, Rows(table.heap.pages), r.rid);
      FewerRefused(works, results, owner.exclusive, {r.rid});
      if w.Set? {
        FewerRefused(works, results, owner.exclusive, {w.rid});
      }
    } else if r.Dropped? {
      FewerRefused(works, results, owner.exclusive, {w.rid});
    }
  }

  lemma Separate(table: LockTable, owner: Transaction, others: seq<Transaction>)
    requires AllConsistent(table, owner, others)
    ensures forall j :: 0 <= j < |others| ==> owner != others[j]
    ensures forall i, j :: 0 <= i < j < |others| ==> others[i] != others[j] && others[i].id != others[j].id
    ensures forall j :: 0 <= j < |others| ==> Consistent(table, owner.id, owner.Locks(), others[j].id, others[j].Locks())
  {
  }

  /** After the owner did something, it is consistent with all others again. */
  lemma OwnerMoved(before: LockTable, x: TxLocks, books: seq<TxLocks>, after: LockTable, owner: Transaction,
                   others: seq<Transaction>)
    requires |books| == |others| && Orderly(before, x, after, LocksOf(owner), owner)
    requires forall j :: 0 <= j < |others| ==> owner != others[j] && others[j].Locks() == books[j]
    requires forall i, j :: 0 <= i < j < |others| ==> others[i] != others[j] && others[i].id != others[j].id
    requires forall j :: 0 <= j < |others| ==> Consistent(before, owner.id, x, others[j].id, books[j])
    ensures AllConsistent(after, owner, others)
  {
    hide OnlyOwn;
    hide Booked;
    hide Compatibly;
    forall j | 0 <= j < |others|
      ensures Consistent(after, owner.id, owner.Locks(), others[j].id, others[j].Locks())
    {
      StaysBooked(before, after, owner.id, others[j].id, books[j]);
    }
  }

  lemma LocksAre(tx: Transaction)
    ensures LocksOf(tx) == tx.Locks()
  {
  }

  lemma OnPages(h: Pages, h': Pages)
    requires OnlyGrows(h, h')
    ensures forall p :: p in h ==> p in h'
  {
  }

  lemma Stayed(own: set<RID>, m: HeapMap, m': HeapMap, rid: RID)
    requires SameRecords(own, m, m') && rid in own && rid in m
    ensures rid in m' && m'[rid] == m[rid]
  {
  }

  lemma FewerRefused(works: seq<(nat, Work)>, results: seq<Result>, own: set<RID>, own': set<RID>)
    requires own' <= own && |results| <= |works|
    requires forall i :: 0 <= i < |results| ==> Refused(works[i].1, results[i], own)
    ensures forall i :: 0 <= i < |results| ==> Refused(works[i].1, results[i], own')
  {
  }
}
