/** What a rollback loses when pages with restored records leave the buffer pool before they are saved. */
module Losses {
  import opened Bytes
  import opened HeapModel
  import opened Undo

  // ----- What a rollback loses -----

  /**
   * A restored record is written into its page without the dirty mark. It is kept if the page is dirty already or
   * becomes dirty while it stays in its frame; otherwise the record is lost when the page leaves the frame.
   */
  datatype Keeping = Keeping(dirty: set<nat>, unsaved: set<RID>, lost: set<RID>)

  function On(rids: set<RID>, pages: set<nat>): set<RID> {
    set r | r in rids && r.page in pages
  }

  /** After the pages `gone` left their frames. */
  function Evicted(k: Keeping, gone: set<nat>): Keeping {
    Keeping(k.dirty - gone, k.unsaved - On(k.unsaved, gone), k.lost + On(k.unsaved, gone))
  }

  /** After one undo step that found its page and room on it; `m` has the lost records as well. */
  ghost function Undone(m: HeapMap, k: Keeping, r: UndoRecord): Keeping {
    match r
    case DeleteRecord(rid) =>
      if rid in m && rid !in k.lost then Keeping(k.dirty + {rid.page}, k.unsaved - On(k.unsaved, {rid.page}), k.lost)
      else k.(lost := k.lost - {rid})
    case RestoreRecord(rid, _) =>
      Keeping(k.dirty, if rid.page in k.dirty then k.unsaved else k.unsaved + {rid}, k.lost - {rid})
  }

  /** The step without regard to room. */
  ghost function RewoundOne(m: HeapMap, r: UndoRecord): HeapMap {
    match r
    case DeleteRecord(rid) => m - {rid}
    case RestoreRecord(rid, t) => m[rid := t]
  }

  /** What replaying the log in reverse makes of the records if none is lost. */
  ghost function Rewound(m: HeapMap, log: seq<UndoRecord>): HeapMap
    decreases |log|
  {
    if log == [] then m else Rewound(RewoundOne(m, log[|log| - 1]), log[..|log| - 1])
  }

  /** The pages call number `n` of a rollback throws out while it pins the page of `r`. */
  function GoneAt(evicts: nat -> set<nat>, n: nat, r: UndoRecord): set<nat> {
    evicts(n) - {r.rid.page}
  }

  ghost function Minus(m: HeapMap, rids: set<RID>): HeapMap {
    imap r | r in m && r !in rids :: m[r]
  }

  /**
   * The records a rollback loses, call number `n` being its first; nothing when a record to be restored finds its
   * slot taken or no room beside the records that are not lost.
   */
  ghost function Fate(m: HeapMap, slots: Slots, k: Keeping, log: seq<UndoRecord>, evicts: nat -> set<nat>, n: nat): Option<set<RID>>
    decreases |log|
  {
    if log == [] then Some(k.lost)
    else
      var r := log[|log| - 1];
      var before := Evicted(k, GoneAt(evicts, n, r));
      if ReplayOne(Minus(m, before.lost), slots, r).None? then None
      else Fate(RewoundOne(m, r), slots, Undone(m, before, r), log[..|log| - 1], evicts, n + 1)
  }

  /** Only records that the rollback was to leave in place can be lost. */
  lemma {:induction false} LostWereRestored(m: HeapMap, slots: Slots, k: Keeping, log: seq<UndoRecord>, evicts: nat -> set<nat>, n: nat)
    requires (forall r :: r in k.lost ==> r in m) && (forall r :: r in k.unsaved ==> r in m) && k.lost !! k.unsaved
    ensures var f := Fate(m, slots, k, log, evicts, n);
            f.Some? ==> forall r :: r in f.value ==> r in Rewound(m, log)
    decreases |log|
  {
    if log != [] {
      var r := log[|log| - 1];
      var before := Evicted(k, GoneAt(evicts, n, r));
      LostWereRestored(RewoundOne(m, r), slots, Undone(m, before, r), log[..|log| - 1], evicts, n + 1);
    }
  }

  // ----- The replay on pages that show one thing and keep another -----

  /** The records in `shown`, but in the pages `gone` those in `saved`. */
  ghost function Blend(shown: HeapMap, saved: HeapMap, gone: set<nat>): HeapMap {
    imap r: RID | (if r.page in gone then r in saved else r in shown) :: if r.page in gone then saved[r] else shown[r]
  }

  /** Pages show `m` without the lost records, and keep it without the unsaved ones as well. */
  ghost predicate Tied(shown: HeapMap, saved: HeapMap, m: HeapMap, k: Keeping) {
    && shown == Minus(m, k.lost) && saved == Minus(m, k.lost + k.unsaved)
    && k.lost !! k.unsaved && (forall r :: r in k.unsaved ==> r.page !in k.dirty && r in m) && (forall r :: r in k.lost ==> r in m)
  }

  lemma TiedStart(m: HeapMap, dirty: set<nat>)
    ensures Tied(m, m, m, Keeping(dirty, {}, {}))
  {
  }

  lemma TiedEvicted(shown: HeapMap, saved: HeapMap, m: HeapMap, k: Keeping, gone: set<nat>)
    requires Tied(shown, saved, m, k)
    ensures Tied(Blend(shown, saved, gone), saved, m, Evicted(k, gone))
  {
    var k' := Evicted(k, gone);
    assert k'.lost + k'.unsaved == k.lost + k.unsaved;
  }

  lemma TiedDeleted(shown: HeapMap, saved: HeapMap, m: HeapMap, k: Keeping, rid: RID)
    requires Tied(shown, saved, m, k) && rid in shown
    ensures Tied(shown - {rid}, Blend(saved, shown - {rid}, {rid.page}), m - {rid}, Undone(m, k, DeleteRecord(rid)))
  {
  }

  lemma TiedAbsent(shown: HeapMap, saved: HeapMap, m: HeapMap, k: Keeping, rid: RID)
    requires Tied(shown, saved, m, k) && rid !in shown
    ensures Tied(shown, saved, m - {rid}, Undone(m, k, DeleteRecord(rid)))
  {
  }

  lemma TiedRestored(shown: HeapMap, saved: HeapMap, m: HeapMap, k: Keeping, rid: RID, t: seq<byte>)
    requires Tied(shown, saved, m, k) && rid !in shown
    ensures var now := shown[rid := t];
            Tied(now, if rid.page in k.dirty then Blend(saved, now, {rid.page}) else saved, m[rid := t],
                 Undone(m, k, RestoreRecord(rid, t)))
  {
  }

  // ----- When nothing is lost -----

  /** Every deletion in the log finds its record. */
  ghost predicate Hits(m: HeapMap, log: seq<UndoRecord>)
    decreases |log|
  {
    log == [] || (
      var r := log[|log| - 1];
      (r.DeleteRecord? ==> r.rid in m) && Hits(RewoundOne(m, r), log[..|log| - 1]))
  }

  /**
   * No page is thrown out while a record restored on it is unsaved: `dirty` are the dirty pages, `open` those with
   * unsaved records. A deletion marks its page, and thereby saves what was restored on it.
   */
  ghost predicate Spared(log: seq<UndoRecord>, evicts: nat -> set<nat>, n: nat, dirty: set<nat>, open: set<nat>)
    decreases |log|
  {
    log == [] || (
      var r := log[|log| - 1];
      var p, left := r.rid.page, dirty - GoneAt(evicts, n, r);
      && GoneAt(evicts, n, r) !! open
      && if r.DeleteRecord? then Spared(log[..|log| - 1], evicts, n + 1, left + {p}, open - {p})
         else Spared(log[..|log| - 1], evicts, n + 1, left, if p in left then open else open + {p}))
  }

  function PagesOf(rids: set<RID>): set<nat> {
    set r | r in rids :: r.page
  }

  lemma PagesPlus(rids: set<RID>, r: RID)
    ensures PagesOf(rids + {r}) == PagesOf(rids) + {r.page}
  {
    assert forall p :: p in PagesOf(rids) + {r.page} ==> p in PagesOf(rids + {r}) by {
      forall p | p in PagesOf(rids) + {r.page}
        ensures p in PagesOf(rids + {r})
      {
        if p == r.page {
          assert r in rids + {r};
        } else {
          var u :| u in rids && u.page == p;
          assert u in rids + {r};
        }
      }
    }
  }

  lemma PagesLess(rids: set<RID>, p: nat)
    ensures PagesOf(rids - On(rids, {p})) == PagesOf(rids) - {p}
  {
    forall q | q in PagesOf(rids) - {p}
      ensures q in PagesOf(rids - On(rids, {p}))
    {
      var u :| u in rids && u.page == q;
      assert u in rids - On(rids, {p});
    }
  }

  lemma NoneOn(rids: set<RID>, gone: set<nat>)
    ensures gone !! PagesOf(rids) <==> On(rids, gone) == {}
  {
    if gone !! PagesOf(rids) {
      assert forall r :: r in rids ==> r.page in PagesOf(rids);
    } else {
      var p :| p in gone && p in PagesOf(rids);
      var r :| r in rids && r.page == p;
      assert r in On(rids, gone);
    }
  }

  /** One step in which nothing is lost. */
  lemma SparedStep(m: HeapMap, k: Keeping, r: UndoRecord, gone: set<nat>)
    requires k.lost == {} && gone !! PagesOf(k.unsaved) && r.rid.page !in gone && (r.DeleteRecord? ==> r.rid in m)
    ensures var before, p, left := Evicted(k, gone), r.rid.page, k.dirty - gone;
            var after := Undone(m, before, r);
            && before.lost == {} && Minus(m, before.lost) == m && after.lost == {}
            && after.dirty == (if r.DeleteRecord? then left + {p} else left)
            && PagesOf(after.unsaved) ==
               (if r.DeleteRecord? then PagesOf(k.unsaved) - {p}
                else if p in left then PagesOf(k.unsaved) else PagesOf(k.unsaved) + {p})
            && after.unsaved <= k.unsaved + {r.rid} && (r.DeleteRecord? ==> after.unsaved <= k.unsaved)
  {
    NoneOn(k.unsaved, gone);
    assert Evicted(k, gone) == Keeping(k.dirty - gone, k.unsaved, {});
    PagesPlus(k.unsaved, r.rid);
    PagesLess(k.unsaved, r.rid.page);
  }

  /** Then the rollback ends as the replay on plain records does. */
  lemma {:induction false} SparedFate(m: HeapMap, slots: Slots, k: Keeping, log: seq<UndoRecord>, evicts: nat -> set<nat>, n: nat)
    requires k.lost == {} && Hits(m, log) && Spared(log, evicts, n, k.dirty, PagesOf(k.unsaved))
    ensures Fate(m, slots, k, log, evicts, n) == if Replay(m, slots, log).Some? then Some({}) else None
    ensures Replay(m, slots, log).Some? ==> Replay(m, slots, log).value == Rewound(m, log)
    decreases |log|
  {
    if log != [] {
      var r := log[|log| - 1];
      var gone := GoneAt(evicts, n, r);
      SparedStep(m, k, r, gone);
      if ReplayOne(m, slots, r).Some? {
        SparedFate(RewoundOne(m, r), slots, Undone(m, Evicted(k, gone), r), log[..|log| - 1], evicts, n + 1);
      }
    }
  }

  // ----- When something is -----

  predicate Mentions(log: seq<UndoRecord>, rid: RID) {
    exists i :: 0 <= i < |log| && log[i].rid == rid
  }

  /** No record is deleted or replaced that an earlier operation in the log touched. */
  predicate FirstTouch(log: seq<UndoRecord>) {
    forall i :: 0 <= i < |log| && log[i].RestoreRecord? ==> !Mentions(log[..i], log[i].rid)
  }

  lemma {:induction false} LostStays(m: HeapMap, slots: Slots, k: Keeping, log: seq<UndoRecord>, evicts: nat -> set<nat>, n: nat, u: RID)
    requires u in k.lost && !Mentions(log, u)
    ensures var f := Fate(m, slots, k, log, evicts, n); f.Some? ==> u in f.value
    decreases |log|
  {
    if log != [] {
      var r := log[|log| - 1];
      assert r.rid != u;
      assert !Mentions(log[..|log| - 1], u);
      LostStays(RewoundOne(m, r), slots, Undone(m, Evicted(k, GoneAt(evicts, n, r)), r), log[..|log| - 1], evicts, n + 1, u);
    }
  }

  /** Where no restored record is touched again, one that is thrown out unsaved stays lost. */
  lemma {:induction false} NotSparedFate(m: HeapMap, slots: Slots, k: Keeping, log: seq<UndoRecord>, evicts: nat -> set<nat>, n: nat)
    requires k.lost == {} && Hits(m, log) && FirstTouch(log) && forall u :: u in k.unsaved ==> !Mentions(log, u)
    requires !Spared(log, evicts, n, k.dirty, PagesOf(k.unsaved))
    ensures Fate(m, slots, k, log, evicts, n) != Some({})
    decreases |log|
  {
    var l := |log| - 1;
    var r, rest := log[l], log[..l];
    var gone := GoneAt(evicts, n, r);
    var before := Evicted(k, gone);
    assert forall u :: !Mentions(log, u) ==> !Mentions(rest, u) && u != r.rid;
    NoneOn(k.unsaved, gone);
    if gone !! PagesOf(k.unsaved) {
      SparedStep(m, k, r, gone);
      assert r.RestoreRecord? ==> !Mentions(rest, r.rid);
      FirstTouchRest(log);
      NotSparedFate(RewoundOne(m, r), slots, Undone(m, before, r), rest, evicts, n + 1);
    } else {
      var u :| u in On(k.unsaved, gone);
      LostStays(RewoundOne(m, r), slots, Undone(m, before, r), rest, evicts, n + 1, u);
    }
  }

  lemma FirstTouchRest(log: seq<UndoRecord>)
    requires FirstTouch(log) && log != []
    ensures FirstTouch(log[..|log| - 1])
  {
    var rest := log[..|log| - 1];
    forall i | 0 <= i < |rest| && rest[i].RestoreRecord?
      ensures !Mentions(rest[..i], rest[i].rid)
    {
      assert rest[..i] == log[..i];
    }
  }

  // ----- Rollback of a history -----

  lemma {:induction false} RewoundConcat(m: HeapMap, a: seq<UndoRecord>, b: seq<UndoRecord>)
    ensures Rewound(m, a + b) == Rewound(Rewound(m, b), a)
    ensures Hits(m, a + b) <==> Hits(m, b) && Hits(Rewound(m, b), a)
    decreases |b|
  {
    if b == [] {
      assert a + b == a;
    } else {
      var n := |b| - 1;
      assert (a + b)[..|a + b| - 1] == a + b[..n];
      RewoundConcat(RewoundOne(m, b[n]), a, b[..n]);
    }
  }

  lemma RewoundChange(m: HeapMap, c: Change, m': HeapMap)
    requires Performs(m, c, m')
    ensures Rewound(m', LogOf(c)) == m && Hits(m', LogOf(c))
  {
    match c
    case Inserted(rid, t) =>
      assert LogOf(c)[..0] == [] && m' - {rid} == m;
    case Deleted(rid, t) =>
      assert LogOf(c)[..0] == [] && m'[rid := t] == m;
    case Replaced(rid, t, now, t') =>
      var first := [RestoreRecord(rid, t)];
      assert m' - {now} == m - {rid} && (m - {rid})[rid := t] == m;
      assert LogOf(c)[..1] == first && first[..0] == [];
      assert Rewound(m - {rid}, first) == m && Hits(m - {rid}, first);
  }

  /** The undo of a lawful history finds its records, and without losses ends where it began. */
  lemma {:induction false} HistoryRewound(h: History, final: HeapMap, own: set<RID>, slots: Slots)
    requires Lawful(h, own, slots)
    ensures Rewound(Mixed(h.now, final, own), Log(h)) == Mixed(Start(h), final, own)
    ensures Hits(Mixed(h.now, final, own), Log(h))
  {
    if h.Then? {
      HistoryRewound(h.before, final, own, slots);
      match h.step
      case Own(c) =>
        MixedPerforms(h.before.now, c, h.now, final, own);
        RewoundChange(Mixed(h.before.now, final, own), c, Mixed(h.now, final, own));
        RewoundConcat(Mixed(h.now, final, own), Log(h.before), LogOf(c));
      case Foreign =>
        MixedForeign(h.before.now, h.now, final, own);
    }
  }

  /** Everything saved at its start, the rollback of a history loses these records. */
  ghost function LostBy(h: History, slots: Slots, dirty: set<nat>, evicts: nat -> set<nat>, n: nat): Option<set<RID>> {
    Fate(h.now, slots, Keeping(dirty, {}, {}), Log(h), evicts, n)
  }

  lemma MinusNothing(m: HeapMap, lost: set<RID>)
    requires forall r :: r in lost ==> r in m
    ensures Minus(m, lost) == m <==> lost == {}
  {
    if lost != {} {
      var r :| r in lost;
      assert r in m && r !in Minus(m, lost);
    } else {
      assert Minus(m, lost) == m;
    }
  }

  /**
   * What a rollback through the buffer pool gives back. It ends with the transaction's records as they were at its
   * begin exactly when none is lost. That is so if every restored record finds room and no page is thrown out with
   * an unsaved one on it, and only then if no operation touched a record that another had touched before.
   */
  lemma {:induction false} RollbackKept(h: History, own: set<RID>, slots: Slots, dirty: set<nat>, evicts: nat -> set<nat>, n: nat)
    requires Lawful(h, own, slots)
    ensures var start, losses := Mixed(Start(h), h.now, own), LostBy(h, slots, dirty, evicts, n);
            && Rewound(h.now, Log(h)) == start
            && (losses.Some? ==> (Minus(start, losses.value) == start <==> losses.value == {}))
    ensures Spared(Log(h), evicts, n, dirty, {}) ==>
              LostBy(h, slots, dirty, evicts, n) == if Fits(h, h.now, own, slots) then Some({}) else None
    ensures FirstTouch(Log(h)) ==>
              (LostBy(h, slots, dirty, evicts, n) == Some({}) <==>
               Fits(h, h.now, own, slots) && Spared(Log(h), evicts, n, dirty, {}))
  {
    assert Mixed(h.now, h.now, own) == h.now;
    HistoryRewound(h, h.now, own, slots);
    Rollback(h, own, slots);
    var k := Keeping(dirty, {}, {});
    assert PagesOf(k.unsaved) == {};
    LostWereRestored(h.now, slots, k, Log(h), evicts, n);
    var losses := LostBy(h, slots, dirty, evicts, n);
    if losses.Some? {
      MinusNothing(Rewound(h.now, Log(h)), losses.value);
    }
    if Spared(Log(h), evicts, n, dirty, {}) {
      SparedFate(h.now, slots, k, Log(h), evicts, n);
    } else if FirstTouch(Log(h)) {
      NotSparedFate(h.now, slots, k, Log(h), evicts, n);
    }
  }

  /** Three records on three pages. */
  ghost function Three(ta: seq<byte>, tb: seq<byte>, tc: seq<byte>): HeapMap {
    imap[RID(1, 0) := ta, RID(2, 0) := tb, RID(3, 0) := tc]
  }

  /** A transaction deletes them in order. */
  ghost function DeletesThree(ta: seq<byte>, tb: seq<byte>, tc: seq<byte>): History {
    var m := Three(ta, tb, tc);
    var h1 := Then(Begin(m), Own(Deleted(RID(1, 0), ta)), m - {RID(1, 0)});
    var h2 := Then(h1, Own(Deleted(RID(2, 0), tb)), h1.now - {RID(2, 0)});
    Then(h2, Own(Deleted(RID(3, 0), tc)), h2.now - {RID(3, 0)})
  }

  lemma ThreeDeleted(ta: seq<byte>, tb: seq<byte>, tc: seq<byte>)
    requires |ta| <= 1000 && |tb| <= 1000 && |tc| <= 1000
    ensures var h, own, slots := DeletesThree(ta, tb, tc), {RID(1, 0), RID(2, 0), RID(3, 0)}, map[1 := 1, 2 := 1, 3 := 1];
            && Lawful(h, own, slots) && Alone(h) && Fits(h, h.now, own, slots) && h.now == imap[]
            && Log(h) == [RestoreRecord(RID(1, 0), ta), RestoreRecord(RID(2, 0), tb), RestoreRecord(RID(3, 0), tc)]
  {
    var h, own, slots := DeletesThree(ta, tb, tc), {RID(1, 0), RID(2, 0), RID(3, 0)}, map[1 := 1, 2 := 1, 3 := 1];
    var h2 := h.before;
    var h1 := h2.before;
    assert Lawful(h1.before, own, slots) && Alone(h1.before) && Fits(h1.before, h.now, own, slots) && Log(h1.before) == [];
    assert Lawful(h1, own, slots) && Alone(h1) && Log(h1) == [RestoreRecord(RID(1, 0), ta)];
    assert Lawful(h2, own, slots) && Alone(h2) && Log(h2) == Log(h1) + [RestoreRecord(RID(2, 0), tb)];
    OneRecordFits(Mixed(h1.before.now, h.now, own), slots, RID(1, 0));
    OneRecordFits(Mixed(h1.now, h.now, own), slots, RID(2, 0));
    OneRecordFits(Mixed(h2.now, h.now, own), slots, RID(3, 0));
    assert Fits(h1, h.now, own, slots) && Fits(h2, h.now, own, slots);
  }

  lemma OneRecordFits(m: HeapMap, slots: Slots, rid: RID)
    requires rid.page in slots && slots[rid.page] == 1 && rid.slot == 0 && (rid in m ==> |m[rid]| <= 1000)
    ensures HeldBytes(m, rid.page, 1) == if rid in m then |m[rid]| else 0
    ensures PageFits(m, slots, rid.page)
  {
    assert HeldBytes(m, rid.page, 0) == 0;
  }

  /**
   * A pool of one frame: the first call of the rollback finds page 3 in the frame, still dirty, and every call
   * throws the other pages out. Everything fits, and the second record is lost.
   */
  lemma OneFrameLoses(ta: seq<byte>, tb: seq<byte>, tc: seq<byte>, n: nat)
    requires |ta| <= 1000 && |tb| <= 1000 && |tc| <= 1000
    ensures var h, own, slots := DeletesThree(ta, tb, tc), {RID(1, 0), RID(2, 0), RID(3, 0)}, map[1 := 1, 2 := 1, 3 := 1];
            && Lawful(h, own, slots) && Alone(h) && Fits(h, h.now, own, slots) && FirstTouch(Log(h))
            && !Spared(Log(h), EvictsAll, n, {3}, {})
            && LostBy(h, slots, {3}, EvictsAll, n) == Some({RID(2, 0)})
  {
    var h, own, slots := DeletesThree(ta, tb, tc), {RID(1, 0), RID(2, 0), RID(3, 0)}, map[1 := 1, 2 := 1, 3 := 1];
    ThreeDeleted(ta, tb, tc);
    var a, b, c := RestoreRecord(RID(1, 0), ta), RestoreRecord(RID(2, 0), tb), RestoreRecord(RID(3, 0), tc);
    RollbackKept(h, own, slots, {3}, EvictsAll, n);
    ThreeLost(h.now, slots, a, b, c, n);
    hide *;
    AllFirst(a, b, c);
    LossesAre(h, slots, {3}, EvictsAll, n);
  }

  lemma LossesAre(h: History, slots: Slots, dirty: set<nat>, evicts: nat -> set<nat>, n: nat)
    ensures LostBy(h, slots, dirty, evicts, n) == Fate(h.now, slots, Keeping(dirty, {}, {}), Log(h), evicts, n)
  {
  }

  lemma AllFirst(a: UndoRecord, b: UndoRecord, c: UndoRecord)
    requires a.rid != b.rid && a.rid != c.rid && b.rid != c.rid
    ensures FirstTouch([a, b, c])
  {
  }

  lemma ThreeLost(m: HeapMap, slots: Slots, a: UndoRecord, b: UndoRecord, c: UndoRecord, n: nat)
    requires m == imap[] && slots == map[1 := 1, 2 := 1, 3 := 1]
    requires a.RestoreRecord? && a.rid == RID(1, 0) && |a.tuple| <= 1000
    requires b.RestoreRecord? && b.rid == RID(2, 0) && |b.tuple| <= 1000
    requires c.RestoreRecord? && c.rid == RID(3, 0) && |c.tuple| <= 1000
    ensures Fate(m, slots, Keeping({3}, {}, {}), [a, b, c], EvictsAll, n) == Some({b.rid})
  {
    var m1, m2 := m[c.rid := c.tuple], m[c.rid := c.tuple][b.rid := b.tuple];
    var k0, k1, k2 := Keeping({3}, {}, {}), Keeping({}, {b.rid}, {}), Keeping({}, {a.rid}, {b.rid});
    assert [a, b, c] == [a, b] + [c] && [a, b] == [a] + [b] && [a] == [] + [a];
    assert GoneAt(EvictsAll, n, c) == {1, 2} && GoneAt(EvictsAll, n + 1, b) == {1, 3} && GoneAt(EvictsAll, n + 2, a) == {2, 3};
    RestoreFinds(m, slots, c, {});
    RestoreFinds(m1, slots, b, {});
    RestoreFinds(m2, slots, a, {b.rid});
    assert Evicted(k0, {1, 2}) == k0 && Undone(m, k0, c) == k0;
    assert Evicted(k0, {1, 3}) == Keeping({}, {}, {}) && Undone(m1, Keeping({}, {}, {}), b) == k1;
    assert On(k1.unsaved, {2, 3}) == {b.rid};
    assert Evicted(k1, {2, 3}) == Keeping({}, {}, {b.rid}) && Undone(m2, Keeping({}, {}, {b.rid}), a) == k2;
    hide Undone;
    hide Evicted;
    hide GoneAt;
    hide ReplayOne;
    FateLast(m, slots, k0, [a, b], c, EvictsAll, n);
    FateLast(m1, slots, k0, [a], b, EvictsAll, n + 1);
    FateLast(m2, slots, k1, [], a, EvictsAll, n + 2);
  }

  lemma RestoreFinds(m: HeapMap, slots: Slots, r: UndoRecord, lost: set<RID>)
    requires r.RestoreRecord? && r.rid !in m && r.rid.slot == 0 && r.rid.page in slots && slots[r.rid.page] == 1
    requires |r.tuple| <= 1000
    ensures ReplayOne(Minus(m, lost), slots, r).Some?
  {
    OneRecordFits(Minus(m, lost), slots, r.rid);
  }

  lemma FateLast(m: HeapMap, slots: Slots, k: Keeping, rest: seq<UndoRecord>, r: UndoRecord, evicts: nat -> set<nat>, n: nat)
    ensures var before := Evicted(k, GoneAt(evicts, n, r));
            Fate(m, slots, k, rest + [r], evicts, n) ==
            if ReplayOne(Minus(m, before.lost), slots, r).None? then None
            else Fate(RewoundOne(m, r), slots, Undone(m, before, r), rest, evicts, n + 1)
  {
    assert (rest + [r])[..|rest|] == rest;
    hide Undone;
    hide Evicted;
    hide GoneAt;
    hide ReplayOne;
    hide RewoundOne;
  }

  function EvictsAll(n: nat): set<nat> { {1, 2, 3} }
}
