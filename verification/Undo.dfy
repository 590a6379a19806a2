/** Undo records and what replaying them in reverse does to the records of a table. */
module Undo {
  import opened Bytes
  import opened SlottedLayout
  import opened HeapModel

  datatype UndoRecord = DeleteRecord(rid: RID) | RestoreRecord(rid: RID, tuple: seq<byte>)

  /** What one logged table operation did to the records. */
  datatype Change =
    | Inserted(rid: RID, tuple: seq<byte>)
    | Deleted(rid: RID, old': seq<byte>)
    | Replaced(rid: RID, old': seq<byte>, now: RID, tuple: seq<byte>)

  /** The records an operation pushes, in the order in which it pushes them. */
  function LogOf(c: Change): seq<UndoRecord> {
    match c
    case Inserted(rid, _) => [DeleteRecord(rid)]
    case Deleted(rid, t) => [RestoreRecord(rid, t)]
    case Replaced(rid, t, now, _) => [RestoreRecord(rid, t), DeleteRecord(now)]
  }

  ghost predicate Performs(m: HeapMap, c: Change, m': HeapMap) {
    match c
    case Inserted(rid, t) => rid !in m && m' == m[rid := t]
    case Deleted(rid, t) => rid in m && m[rid] == t && m' == m - {rid}
    case Replaced(rid, t, now, t') =>
      rid in m && m[rid] == t && (now == rid || now !in m) && m' == (m - {rid})[now := t']
  }

  function Touched(c: Change): set<RID> {
    match c
    case Inserted(rid, _) => {rid}
    case Deleted(rid, _) => {rid}
    case Replaced(rid, _, now, _) => {rid, now}
  }

  // ----- Room -----

  /** Number of slots of each page; undo never changes it. */
  type Slots = map<nat, nat>

  /** Bytes held by the first `n` slots of page `p`. */
  ghost function HeldBytes(m: HeapMap, p: nat, n: nat): nat {
    if n == 0 then 0
    else HeldBytes(m, p, n - 1) + (if RID(p, n - 1) in m then |m[RID(p, n - 1)]| else 0)
  }

  /** Directory and records of page `p` fit on a page. */
  ghost predicate PageFits(m: HeapMap, slots: Slots, p: nat) {
    p in slots && HEADER_SIZE + SLOT_SIZE * slots[p] + HeldBytes(m, p, slots[p]) <= PAGE_SIZE
  }

  lemma {:induction false} HeldPut(m: HeapMap, rid: RID, t: seq<byte>, n: nat)
    requires rid !in m
    ensures HeldBytes(m[rid := t], rid.page, n) == HeldBytes(m, rid.page, n) + if rid.slot < n then |t| else 0
  {
    if n > 0 {
      HeldPut(m, rid, t, n - 1);
    }
  }

  // ----- Replay -----

  /** One undo step; none when one of the assertions in the restore fires. */
  ghost function ReplayOne(m: HeapMap, slots: Slots, r: UndoRecord): Option<HeapMap> {
    match r
    case DeleteRecord(rid) => Some(m - {rid})
    case RestoreRecord(rid, t) =>
      if && rid.page in slots && rid.slot < slots[rid.page] && rid !in m
         && HEADER_SIZE + SLOT_SIZE * slots[rid.page] + HeldBytes(m, rid.page, slots[rid.page]) + |t| <= PAGE_SIZE
      then Some(m[rid := t]) else None
  }

  ghost function Replay(m: HeapMap, slots: Slots, log: seq<UndoRecord>): Option<HeapMap>
    decreases |log|
  {
    if log == [] then Some(m)
    else
      var n := |log| - 1;
      var next := ReplayOne(m, slots, log[n]);
      if next.None? then None else Replay(next.value, slots, log[..n])
  }

  lemma {:induction false} ReplayConcat(m: HeapMap, slots: Slots, a: seq<UndoRecord>, b: seq<UndoRecord>)
    ensures Replay(m, slots, a + b) ==
            var r := Replay(m, slots, b); if r.None? then None else Replay(r.value, slots, a)
    decreases |b|
  {
    if b == [] {
      assert a + b == a;
    } else {
      var n := |b| - 1;
      assert (a + b)[..|a + b| - 1] == a + b[..n];
      var next := ReplayOne(m, slots, b[n]);
      if next.Some? {
        ReplayConcat(next.value, slots, a, b[..n]);
      }
    }
  }

  /** Undoing one operation brings its records back exactly when the page of a restored record still fits. */
  lemma UndoChange(m: HeapMap, c: Change, m': HeapMap, slots: Slots)
    requires Performs(m, c, m') && (!c.Inserted? ==> c.rid.page in slots && c.rid.slot < slots[c.rid.page])
    ensures Replay(m', slots, LogOf(c)) ==
            if c.Inserted? || PageFits(m, slots, c.rid.page) then Some(m) else None
  {
    match c
    case Inserted(rid, t) =>
      assert LogOf(c)[..0] == [];
      assert m' - {rid} == m;
    case Deleted(rid, t) =>
      HeldPut(m', rid, t, slots[rid.page]);
      assert LogOf(c)[..0] == [];
      assert m'[rid := t] == m;
    case Replaced(rid, t, now, t') =>
      var gone := m' - {now};
      assert gone == m - {rid};
      HeldPut(gone, rid, t, slots[rid.page]);
      var first := [RestoreRecord(rid, t)];
      assert gone[rid := t] == m && first[..0] == [];
      assert Replay(gone, slots, first) == if PageFits(m, slots, rid.page) then Some(m) else None;
      assert LogOf(c)[..1] == first;
  }

  // ----- Whole transactions -----

  /** What happens to the table from the transaction's begin on, by itself or by others. */
  datatype Step = Own(change: Change) | Foreign

  datatype History = Begin(now: HeapMap) | Then(before: History, step: Step, now: HeapMap)

  function Start(h: History): HeapMap {
    if h.Begin? then h.now else Start(h.before)
  }

  function Log(h: History): seq<UndoRecord> {
    if h.Begin? then [] else if h.step.Own? then Log(h.before) + LogOf(h.step.change) else Log(h.before)
  }

  ghost predicate SameOn(m: HeapMap, m': HeapMap, own: set<RID>) {
    forall r :: r in own ==> (r in m <==> r in m') && (r in m ==> m[r] == m'[r])
  }

  /** The transaction touches only `own`, which nobody else touches, and its records lie in existing slots. */
  ghost predicate Lawful(h: History, own: set<RID>, slots: Slots) {
    h.Begin? || (
      && Lawful(h.before, own, slots)
      && match h.step
         case Own(c) =>
           && Performs(h.before.now, c, h.now) && Touched(c) <= own
           && (!c.Inserted? ==> c.rid.page in slots && c.rid.slot < slots[c.rid.page])
         case Foreign => SameOn(h.before.now, h.now, own))
  }

  /** The records of `own` as in `m`, all others as in `final`. */
  ghost function Mixed(m: HeapMap, final: HeapMap, own: set<RID>): HeapMap {
    imap r: RID | (if r in own then r in m else r in final) :: if r in own then m[r] else final[r]
  }

  /** For every record to be restored, the page with the transaction's records as they then were still fits. */
  ghost predicate Fits(h: History, final: HeapMap, own: set<RID>, slots: Slots) {
    h.Begin? || (
      && Fits(h.before, final, own, slots)
      && (h.step.Own? && !h.step.change.Inserted? ==>
            PageFits(Mixed(h.before.now, final, own), slots, h.step.change.rid.page)))
  }

  lemma MixedPerforms(m: HeapMap, c: Change, m': HeapMap, final: HeapMap, own: set<RID>)
    requires Performs(m, c, m') && Touched(c) <= own
    ensures Performs(Mixed(m, final, own), c, Mixed(m', final, own))
  {
  }

  lemma MixedForeign(m: HeapMap, m': HeapMap, final: HeapMap, own: set<RID>)
    requires SameOn(m, m', own)
    ensures Mixed(m, final, own) == Mixed(m', final, own)
  {
  }

  lemma {:induction false} ReplayUndoes(h: History, final: HeapMap, own: set<RID>, slots: Slots)
    requires Lawful(h, own, slots)
    ensures Replay(Mixed(h.now, final, own), slots, Log(h)) ==
            if Fits(h, final, own, slots) then Some(Mixed(Start(h), final, own)) else None
  {
    if h.Then? {
      var before := Mixed(h.before.now, final, own);
      ReplayUndoes(h.before, final, own, slots);
      match h.step
      case Own(c) =>
        MixedPerforms(h.before.now, c, h.now, final, own);
        UndoChange(before, c, Mixed(h.now, final, own), slots);
        ReplayConcat(Mixed(h.now, final, own), slots, Log(h.before), LogOf(c));
      case Foreign =>
        MixedForeign(h.before.now, h.now, final, own);
    }
  }

  /**
   * Rollback is an inverse: replaying the log brings the transaction's records back to their values at its
   * begin and leaves all others alone, exactly when every restored record still finds room.
   */
  lemma Rollback(h: History, own: set<RID>, slots: Slots)
    requires Lawful(h, own, slots)
    ensures Replay(h.now, slots, Log(h)) ==
            if Fits(h, h.now, own, slots) then Some(Mixed(Start(h), h.now, own)) else None
  {
    assert Mixed(h.now, h.now, own) == h.now;
    ReplayUndoes(h, h.now, own, slots);
  }

  ghost predicate Alone(h: History) {
    h.Begin? || (h.step.Own? && Alone(h.before))
  }

  lemma {:induction false} AloneChangesOwn(h: History, own: set<RID>, slots: Slots)
    requires Lawful(h, own, slots) && Alone(h)
    ensures Mixed(Start(h), h.now, own) == Start(h)
  {
    if h.Then? {
      AloneChangesOwn(h.before, own, slots);
      assert forall r: RID :: r !in own ==> (r in h.now <==> r in h.before.now) && (r in h.now ==> h.now[r] == h.before.now[r]);
      assert forall r: RID :: r !in own ==> (r in Mixed(Start(h), h.before.now, own) <==> r in h.before.now);
    }
  }

  /** Without interference the whole table is as it was. */
  lemma RollbackAlone(h: History, own: set<RID>, slots: Slots)
    requires Lawful(h, own, slots) && Alone(h) && Fits(h, h.now, own, slots)
    ensures Replay(h.now, slots, Log(h)) == Some(Start(h))
  {
    Rollback(h, own, slots);
    AloneChangesOwn(h, own, slots);
  }

  /** A slot freed by a delete and taken by someone else cannot be restored. */
  lemma StolenSlot(m: HeapMap, rid: RID, t: seq<byte>, x: seq<byte>, slots: Slots)
    requires rid in m && m[rid] == t
    ensures Replay((m - {rid})[rid := x], slots, LogOf(Deleted(rid, t))) == None
  {
    assert LogOf(Deleted(rid, t))[0] == RestoreRecord(rid, t);
  }

  /**
   * The slots a transaction added itself can leave no room: it deletes the only record of a full page, inserts
   * two small ones, the second in a new slot, and cannot roll back.
   */
  lemma FullPageCannotRollBack(t: seq<byte>, a: seq<byte>, b: seq<byte>)
    requires |t| == PAGE_SIZE - HEADER_SIZE - SLOT_SIZE
    ensures var r, s := RID(1, 0), RID(1, 1);
            var m0: HeapMap := imap[r := t];
            var m1: HeapMap := imap[];
            var m2, m3 := m1[r := a], m1[r := a][s := b];
            var h := Then(Then(Then(Begin(m0), Own(Deleted(r, t)), m1), Own(Inserted(r, a)), m2), Own(Inserted(s, b)), m3);
            && Lawful(h, {r, s}, map[1 := 2]) && Alone(h)
            && Replay(h.now, map[1 := 2], Log(h)) == None
  {
    var r, s, own, slots := RID(1, 0), RID(1, 1), {RID(1, 0), RID(1, 1)}, map[1 := 2];
    var m0: HeapMap := imap[r := t];
    var m1: HeapMap := imap[];
    var h1 := Then(Begin(m0), Own(Deleted(r, t)), m1);
    var h2 := Then(h1, Own(Inserted(r, a)), m1[r := a]);
    var h3 := Then(h2, Own(Inserted(s, b)), m1[r := a][s := b]);
    assert m0 - {r} == m1 && Performs(m0, Deleted(r, t), m1);
    assert Lawful(Begin(m0), own, slots) && Touched(Deleted(r, t)) <= own;
    assert Lawful(h1, own, slots) && Lawful(h2, own, slots) && Lawful(h3, own, slots);
    assert Alone(h1) && Alone(h2);
    Rollback(h3, own, slots);
    var x := Mixed(m0, h3.now, own);
    assert r in x && x[r] == t;
    assert HeldBytes(x, 1, 2) >= HeldBytes(x, 1, 1) && HeldBytes(x, 1, 1) == HeldBytes(x, 1, 0) + |t|;
    assert !Fits(h1, h3.now, own, slots) && !Fits(h2, h3.now, own, slots);
  }
}
