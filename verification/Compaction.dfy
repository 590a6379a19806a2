/** How much room a page has, and what compaction makes of it. */
module Compaction {
  import opened Bytes
  import opened SlottedLayout

  // ----- Room on a page -----

  /** Bytes held by the live tuples among the first `n` slots. */
  function LiveBytes(l: Layout, n: nat): nat
    requires n <= |l.slots|
  {
    if n == 0 then 0 else LiveBytes(l, n - 1) + (if Live(l, n - 1) then l.slots[n - 1].length else 0)
  }

  /** The same sum read off a page's contents. */
  function TotalBytes(m: map<nat, seq<byte>>, n: nat): nat {
    if n == 0 then 0 else TotalBytes(m, n - 1) + (if n - 1 in m then |m[n - 1]| else 0)
  }

  lemma {:induction false} LiveBytesOfTuples(l: Layout, p: Image, n: nat)
    requires Sound(l) && n <= |l.slots|
    ensures LiveBytes(l, n) == TotalBytes(Tuples(l, p), n)
  {
    if n > 0 {
      LiveBytesOfTuples(l, p, n - 1);
    }
  }

  ghost function Span(lo: int, hi: int): (r: set<int>)
    requires lo <= hi
    ensures forall x :: x in r <==> lo <= x < hi
    ensures |r| == hi - lo
    decreases hi - lo
  {
    if lo == hi then {} else Span(lo, hi - 1) + {hi - 1}
  }

  /** The byte positions taken by live tuples among the first `n` slots. */
  ghost function Covered(l: Layout, n: nat): set<int>
    requires Sound(l) && n <= |l.slots|
  {
    if n == 0 then {}
    else if Live(l, n - 1) then Covered(l, n - 1) + Span(l.slots[n - 1].offset, l.slots[n - 1].End())
    else Covered(l, n - 1)
  }

  lemma {:induction false} CoveredApart(l: Layout, n: nat, i: nat)
    requires Sound(l) && n <= i < |l.slots| && Live(l, i)
    ensures Covered(l, n) !! Span(l.slots[i].offset, l.slots[i].End())
  {
    if n > 0 {
      CoveredApart(l, n - 1, i);
      assert Live(l, n - 1) ==> Apart(l.slots[n - 1], l.slots[i]);
    }
  }

  lemma {:induction false} CoveredInside(l: Layout, n: nat)
    requires Sound(l) && n <= |l.slots|
    ensures Covered(l, n) <= Span(l.free, PAGE_SIZE)
  {
    if n > 0 {
      CoveredInside(l, n - 1);
    }
  }

  lemma {:induction false} CoveredSize(l: Layout, n: nat)
    requires Sound(l) && n <= |l.slots|
    ensures |Covered(l, n)| == LiveBytes(l, n)
  {
    if n > 0 {
      CoveredSize(l, n - 1);
      if Live(l, n - 1) {
        CoveredApart(l, n - 1, n - 1);
      }
    }
  }

  /** Disjoint live tuples never hold more bytes than lie above the free space. */
  lemma LiveBytesFit(l: Layout, n: nat)
    requires Sound(l) && n <= |l.slots|
    ensures LiveBytes(l, n) <= PAGE_SIZE - l.free
  {
    CoveredSize(l, n);
    CoveredInside(l, n);
    SubsetSize(Covered(l, n), Span(l.free, PAGE_SIZE));
  }

  lemma {:induction false} SubsetSize(a: set<int>, b: set<int>)
    requires a <= b
    ensures |a| <= |b|
  {
    assert b == a + (b - a);
  }

  /** A tuple of `n` bytes fits in an existing slot once the page is compacted. */
  ghost predicate HasRoom(p: Image, n: nat)
    requires Valid(p)
  {
    HEADER_SIZE + SLOT_SIZE * SlotCount(p) + TotalBytes(Contents(p), SlotCount(p)) + n <= PAGE_SIZE
  }

  lemma RoomIsEnough(p: Image, n: nat)
    requires Valid(p) && n <= FreeSpace(LayoutOf(p))
    ensures HasRoom(p, n)
  {
    LiveBytesFit(LayoutOf(p), SlotCount(p));
    LiveBytesOfTuples(LayoutOf(p), p, SlotCount(p));
  }

  // ----- What the compaction test computes -----

  /** Where the live slots among the first `n` end if they tile upwards from `start`, modulo 2^16. */
  function TileEnd(l: Layout, start: nat, n: nat): Option<nat>
    requires n <= |l.slots|
  {
    if n == 0 then Some(start)
    else
      var before := TileEnd(l, start, n - 1);
      if !Live(l, n - 1) then before
      else if before == Some(l.slots[n - 1].offset) then Some((before.value + l.slots[n - 1].length) % 0x1_0000)
      else None
  }

  lemma {:induction false} TileEndStops(l: Layout, start: nat, m: nat, n: nat)
    requires m <= n <= |l.slots| && TileEnd(l, start, m) == None
    ensures TileEnd(l, start, n) == None
    decreases n
  {
    if m < n {
      TileEndStops(l, start, m, n - 1);
    }
  }

  /** What the compaction test accepts. */
  predicate Tiled(l: Layout) {
    |l.slots| == 0 || TileEnd(l, l.slots[0].offset, |l.slots|) == Some(PAGE_SIZE)
  }

  /** Slot `j` is the next live slot after slot `i`. */
  ghost predicate NextLive(l: Layout, i: nat, j: nat) {
    i < j && Live(l, i) && Live(l, j) && forall k :: i < k < j ==> !Live(l, k)
  }

  ghost predicate LastLive(l: Layout, i: nat) {
    Live(l, i) && forall k :: i < k < |l.slots| ==> !Live(l, k)
  }

  /** The first slot is live, every live slot starts where the live slot before it ends, and the last one ends the page. */
  ghost predicate Seamless(l: Layout) {
    && Live(l, 0)
    && (forall i: nat, j: nat :: NextLive(l, i, j) ==> l.slots[j].offset == l.slots[i].offset + l.slots[i].length)
    && (forall i: nat :: LastLive(l, i) ==> l.slots[i].offset + l.slots[i].length == 8192)
  }

  /** The live slots among the first `n` join. */
  ghost predicate JoinedTo(l: Layout, n: nat) {
    forall i: nat, j: nat :: j < n && NextLive(l, i, j) ==> l.slots[j].offset == l.slots[i].offset + l.slots[i].length
  }

  ghost function LastBelow(l: Layout, n: nat): (i: nat)
    requires Live(l, 0) && 0 < n <= |l.slots|
    ensures i < n && Live(l, i) && forall k :: i < k < n ==> !Live(l, k)
  {
    if Live(l, n - 1) then n - 1 else LastBelow(l, n - 1)
  }

  lemma JoinsOne(l: Layout, n: nat)
    requires Live(l, 0) && 1 < n <= |l.slots|
    ensures JoinedTo(l, n) <==>
            && JoinedTo(l, n - 1)
            && (Live(l, n - 1) ==> var i := LastBelow(l, n - 1); l.slots[n - 1].offset == l.slots[i].offset + l.slots[i].length)
  {
    if Live(l, n - 1) {
      assert NextLive(l, LastBelow(l, n - 1), n - 1);
    }
  }

  lemma SlotsInside(l: Layout, i: nat)
    requires Sound(l)
    ensures Live(l, i) ==> l.slots[i].End() <= PAGE_SIZE
  {
  }

  lemma OneJoined(l: Layout)
    ensures JoinedTo(l, 1)
  {
  }

  lemma {:induction false} TileEndExactly(l: Layout, n: nat)
    requires Sound(l) && Live(l, 0) && 0 < n <= |l.slots|
    ensures TileEnd(l, l.slots[0].offset, n) ==
            if JoinedTo(l, n) then Some(l.slots[LastBelow(l, n)].End()) else None
    decreases n
  {
    hide JoinedTo;
    hide Sound;
    SlotsInside(l, n - 1);
    if n == 1 {
      assert TileEnd(l, l.slots[0].offset, 0) == Some(l.slots[0].offset);
      OneJoined(l);
    } else {
      TileEndExactly(l, n - 1);
      JoinsOne(l, n);
    }
  }

  lemma {:induction false} NoFirst(l: Layout, n: nat)
    requires Sound(l) && !Live(l, 0) && n <= |l.slots| && |l.slots| > 0
    ensures TileEnd(l, 0, n) == None || TileEnd(l, 0, n) == Some(0)
  {
    if n > 0 {
      NoFirst(l, n - 1);
    }
  }

  lemma AllJoin(l: Layout)
    ensures JoinedTo(l, |l.slots|) <==>
            forall i: nat, j: nat :: NextLive(l, i, j) ==> l.slots[j].offset == l.slots[i].offset + l.slots[i].length
  {
  }

  lemma OneLast(l: Layout)
    requires Live(l, 0)
    ensures forall i: nat :: LastLive(l, i) <==> i == LastBelow(l, |l.slots|)
  {
  }

  /** What the test accepts, by positions: nothing but an unbroken row of tuples from slot 0's on to the page end. */
  lemma TiledExactly(l: Layout)
    requires Sound(l) && |l.slots| > 0
    ensures Tiled(l) <==> Seamless(l)
  {
    hide Sound;
    hide JoinedTo;
    hide LastLive;
    hide NextLive;
    hide LastBelow;
    hide TileEnd;
    if Live(l, 0) {
      TileEndExactly(l, |l.slots|);
      AllJoin(l);
      OneLast(l);
    } else {
      NoFirst(l, |l.slots|);
    }
  }

  lemma {:induction false} JoinedBytes(l: Layout, n: nat)
    requires Sound(l) && Live(l, 0) && 0 < n <= |l.slots| && JoinedTo(l, n)
    ensures l.slots[0].offset + LiveBytes(l, n) == l.slots[LastBelow(l, n)].End()
    decreases n
  {
    if n > 1 {
      JoinsOne(l, n);
      JoinedBytes(l, n - 1);
    } else {
      assert LiveBytes(l, 0) == 0;
    }
  }

  /** On such a page the tuples hold exactly the bytes from slot 0's offset on. */
  lemma SeamlessBytes(l: Layout)
    requires Sound(l) && Seamless(l)
    ensures LiveBytes(l, |l.slots|) == 8192 - l.slots[0].offset
  {
    var n := |l.slots|;
    assert LastLive(l, LastBelow(l, n));
    JoinedBytes(l, n);
  }

  lemma SeamlessContents(p: Image)
    requires Valid(p)
    ensures var l := LayoutOf(p);
            && (Tiled(l) <==> l.slots == [] || Seamless(l))
            && (Seamless(l) ==> TotalBytes(Contents(p), |l.slots|) == 8192 - l.slots[0].offset)
  {
    hide Seamless;
    hide Tiled;
    var l := LayoutOf(p);
    if l.slots != [] {
      TiledExactly(l);
      if Seamless(l) {
        SeamlessBytes(l);
        LiveBytesOfTuples(l, p, |l.slots|);
      }
    } else {
      NoSlots(l);
    }
  }

  lemma NoSlots(l: Layout)
    requires l.slots == []
    ensures Tiled(l) && !Seamless(l)
  {
  }

  // ----- What compaction produces -----

  /** Where the next tuple ends after the first `n` slots are laid out downwards from the page end. */
  function Top(l: Layout, n: nat): int
    requires n <= |l.slots|
  {
    PAGE_SIZE - LiveBytes(l, n)
  }

  function CompactSlot(l: Layout, k: nat): Slot
    requires k < |l.slots| && LiveBytes(l, k + 1) <= PAGE_SIZE
  {
    if Live(l, k) then Slot(Top(l, k + 1), l.slots[k].length) else Slot(INVALID_SLOT_OFFSET, 0)
  }

  lemma {:induction false} LiveBytesMono(l: Layout, m: nat, n: nat)
    requires m <= n <= |l.slots|
    ensures LiveBytes(l, m) <= LiveBytes(l, n)
    decreases n
  {
    if m < n {
      LiveBytesMono(l, m, n - 1);
    }
  }

  ghost function CompactLayout(l: Layout): (r: Layout)
    requires Sound(l)
    ensures |r.slots| == |l.slots| && l.free <= r.free <= PAGE_SIZE && r.next == l.next
    ensures r.free == Top(l, |l.slots|)
    ensures forall k :: 0 <= k < |l.slots| ==> LiveBytes(l, k + 1) <= PAGE_SIZE && r.slots[k] == CompactSlot(l, k)
  {
    LiveBytesFit(l, |l.slots|);
    assert forall k :: 0 <= k <= |l.slots| ==> LiveBytes(l, k) <= PAGE_SIZE - l.free by {
      forall k | 0 <= k <= |l.slots| ensures LiveBytes(l, k) <= PAGE_SIZE - l.free { LiveBytesFit(l, k); }
    }
    Layout(l.next, Top(l, |l.slots|), seq(|l.slots|, k requires 0 <= k < |l.slots| => CompactSlot(l, k)))
  }

  /** The tuple bytes after compaction: later slots lie lower. */
  ghost function CompactData(l: Layout, p: Image, n: nat): (r: seq<byte>)
    requires Sound(l) && n <= |l.slots|
    ensures |r| == LiveBytes(l, n)
  {
    if n == 0 then []
    else if Live(l, n - 1) then TupleAt(p, l.slots[n - 1]) + CompactData(l, p, n - 1)
    else CompactData(l, p, n - 1)
  }

  lemma {:induction false} CompactByteAt(l: Layout, p: Image, n: nat, k: nat, x: nat)
    requires Sound(l) && k < n <= |l.slots| && Live(l, k) && x < l.slots[k].length
    ensures 0 <= LiveBytes(l, n) - LiveBytes(l, k + 1) <= LiveBytes(l, n) - l.slots[k].length
    ensures CompactData(l, p, n)[LiveBytes(l, n) - LiveBytes(l, k + 1) + x] == p[l.slots[k].offset + x]
    decreases n
  {
    if k < n - 1 {
      CompactByteAt(l, p, n - 1, k, x);
    }
  }

  /** `q` is, byte for byte, what compaction makes of `p`. */
  ghost predicate Compacted(p: Image, q: Image)
    requires Valid(p)
  {
    var l := LayoutOf(p);
    var e := HEADER_SIZE + SLOT_SIZE * |l.slots|;
    && SlotCount(q) <= MAX_SLOTS && LayoutOf(q) == CompactLayout(l)
    && (forall x :: e <= x < Top(l, |l.slots|) ==> q[x] == 0)
    && q[Top(l, |l.slots|)..] == CompactData(l, p, |l.slots|)
  }

  predicate Encodable(slots: seq<Slot>) {
    forall k :: 0 <= k < |slots| ==> slots[k].offset < 0x1_0000 && slots[k].length < 0x1_0000
  }

  lemma CompactSlotsEncodable(l: Layout)
    requires Sound(l)
    ensures Encodable(CompactLayout(l).slots)
  {
    forall k | 0 <= k < |l.slots|
      ensures Live(l, k) ==> l.slots[k].length <= PAGE_SIZE
    {
    }
  }

  lemma CompactLayoutSound(l: Layout)
    requires Sound(l)
    ensures Sound(CompactLayout(l))
    ensures forall i :: Live(CompactLayout(l), i) <==> Live(l, i)
  {
    var r := CompactLayout(l);
    forall i | 0 <= i < |l.slots|
      ensures Live(r, i) <==> Live(l, i)
      ensures Live(r, i) ==> r.free <= r.slots[i].offset && r.slots[i].End() == Top(l, i) <= PAGE_SIZE
    {
      LiveBytesMono(l, i + 1, |l.slots|);
    }
    forall i, j | Live(r, i) && Live(r, j) && i < j
      ensures Apart(r.slots[i], r.slots[j])
    {
      LiveBytesMono(l, i + 1, j);
    }
  }

  /** The live slots of `r` are those of `l`, from the page end down in this order. */
  ghost predicate LaidOut(l: Layout, r: Layout) {
    && |r.slots| == |l.slots| && r.free == Top(l, |l.slots|) && (forall i :: Live(r, i) <==> Live(l, i))
    && forall i: nat :: Live(r, i) ==>
                          && r.slots[i].End() == Top(l, i) && r.slots[i].offset == Top(l, i + 1)
                          && r.slots[i].length == l.slots[i].length
  }

  lemma IsLaidOut(l: Layout)
    requires Sound(l)
    ensures LaidOut(l, CompactLayout(l))
  {
    hide Sound;
    CompactLayoutSound(l);
    var r := CompactLayout(l);
    forall i: nat | Live(r, i)
      ensures r.slots[i].End() == Top(l, i) && r.slots[i].offset == Top(l, i + 1) && r.slots[i].length == l.slots[i].length
    {
      assert LiveBytes(l, i + 1) <= PAGE_SIZE && r.slots[i] == CompactSlot(l, i);
    }
  }

  lemma {:induction false} NoneBetween(l: Layout, m: nat, n: nat)
    requires m <= n <= |l.slots| && forall k :: m <= k < n ==> !Live(l, k)
    ensures Top(l, n) == Top(l, m)
    decreases n
  {
    if m < n {
      NoneBetween(l, m, n - 1);
    }
  }

  /** After compaction the tuples lie without a gap, later slots lower, from the page end down to the free space. */
  lemma CompactedPositions(l: Layout)
    requires Sound(l)
    ensures var r := CompactLayout(l);
            && (forall i: nat :: Live(r, i) && (forall k :: 0 <= k < i ==> !Live(r, k)) ==> r.slots[i].End() == 8192)
            && (forall i: nat, j: nat :: NextLive(r, i, j) ==> r.slots[j].End() == r.slots[i].offset)
            && (forall i: nat :: LastLive(r, i) ==> r.slots[i].offset == r.free)
            && (forall i: nat :: Live(r, i) ==> r.slots[i].length == l.slots[i].length)
  {
    hide *;
    IsLaidOut(l);
    LaidOutPositions(l, CompactLayout(l));
  }

  lemma LaidOutPositions(l: Layout, r: Layout)
    requires LaidOut(l, r)
    ensures forall i: nat :: Live(r, i) && (forall k :: 0 <= k < i ==> !Live(r, k)) ==> r.slots[i].End() == 8192
    ensures forall i: nat, j: nat :: NextLive(r, i, j) ==> r.slots[j].End() == r.slots[i].offset
    ensures forall i: nat :: LastLive(r, i) ==> r.slots[i].offset == r.free
    ensures forall i: nat :: Live(r, i) ==> r.slots[i].length == l.slots[i].length
  {
    forall i: nat | Live(r, i) && forall k :: 0 <= k < i ==> !Live(r, k)
      ensures Top(l, i) == PAGE_SIZE
    {
      NoneBetween(l, 0, i);
    }
    forall i: nat | LastLive(r, i)
      ensures Top(l, i + 1) == r.free
    {
      NoneBetween(l, i + 1, |l.slots|);
    }
    forall i: nat, j: nat | NextLive(r, i, j)
      ensures Top(l, j) == Top(l, i + 1)
    {
      NoneBetween(l, i + 1, j);
    }
  }

  /** Two directories with the same live slots over the same bytes mean the same. */
  lemma SameTuples(l: Layout, p: Image, l': Layout, q: Image)
    requires Sound(l) && Sound(l') && |l.slots| == |l'.slots|
    requires forall k :: Live(l', k) <==> Live(l, k)
    requires forall k :: Live(l, k) ==> TupleAt(q, l'.slots[k]) == TupleAt(p, l.slots[k])
    ensures Tuples(l', q) == Tuples(l, p)
  {
  }

  lemma CompactTuple(l: Layout, p: Image, q: Image, k: nat)
    requires Sound(l) && Live(l, k) && 0 <= Top(l, |l.slots|)
    requires q[Top(l, |l.slots|)..] == CompactData(l, p, |l.slots|)
    ensures LiveBytes(l, k + 1) <= PAGE_SIZE && CompactSlot(l, k).End() == Top(l, k) <= PAGE_SIZE
    ensures TupleAt(q, CompactSlot(l, k)) == TupleAt(p, l.slots[k])
  {
    var top, e := Top(l, |l.slots|), l.slots[k];
    LiveBytesMono(l, k + 1, |l.slots|);
    var now := TupleAt(q, CompactSlot(l, k));
    forall x | 0 <= x < e.length
      ensures now[x] == TupleAt(p, e)[x]
    {
      CompactByteAt(l, p, |l.slots|, k, x);
      assert now[x] == q[top..][Top(l, k + 1) - top + x];
    }
  }

  /** Compaction keeps slots, tuples and the link, and leaves exactly the bytes no slot or tuple needs. */
  lemma {:induction false} CompactionKeepsContents(p: Image, q: Image)
    requires Valid(p) && Compacted(p, q)
    ensures Valid(q) && Contents(q) == Contents(p)
    ensures SlotCount(q) == SlotCount(p) && LayoutOf(q).next == LayoutOf(p).next
    ensures FreeSpace(LayoutOf(q)) ==
            PAGE_SIZE - HEADER_SIZE - SLOT_SIZE * SlotCount(p) - TotalBytes(Contents(p), SlotCount(p))
  {
    var l, m := LayoutOf(p), LayoutOf(q);
    CompactLayoutSound(l);
    LiveBytesOfTuples(l, p, |l.slots|);
    forall k | Live(l, k)
      ensures TupleAt(q, m.slots[k]) == TupleAt(p, l.slots[k])
    {
      CompactTuple(l, p, q, k);
    }
    SameTuples(l, p, m, q);
  }

  /** Whether the page takes a tuple of `n` bytes, compacted first only if the test fails. */
  ghost predicate TakesAtLast(l: Layout, n: nat)
    requires Sound(l)
  {
    Takes(l, n) || (!Tiled(l) && Takes(CompactLayout(l), n))
  }

  lemma {:induction false} CompactLiveBytes(l: Layout, n: nat)
    requires Sound(l) && n <= |l.slots|
    ensures LiveBytes(CompactLayout(l), n) == LiveBytes(l, n)
    decreases n
  {
    if n > 0 {
      CompactLiveBytes(l, n - 1);
      CompactLayoutSound(l);
      assert CompactLayout(l).slots[n - 1] == CompactSlot(l, n - 1);
      assert Live(CompactLayout(l), n - 1) <==> Live(l, n - 1);
    }
  }

  /** Compaction that the test asked for makes no difference to what the page takes. */
  lemma CompactedTakes(l: Layout, n: nat)
    requires Sound(l) && !Tiled(l)
    ensures Sound(CompactLayout(l)) && TakesAtLast(CompactLayout(l), n) == TakesAtLast(l, n)
  {
    CompactLayoutSound(l);
    CompactLiveBytes(l, |l.slots|);
    var m := CompactLayout(l);
    SameEmpty(l, m);
    CompactLayoutSound(m);
    SameEmpty(m, CompactLayout(m));
    assert CompactLayout(m).free == Top(m, |m.slots|) == Top(l, |l.slots|) == m.free;
    assert FreeSpace(l) <= FreeSpace(m) == FreeSpace(CompactLayout(m));
    hide *;
    TakesMore(l, m, CompactLayout(m), n);
  }

  lemma TakesMore(l: Layout, m: Layout, k: Layout, n: nat)
    requires FreeSpace(l) <= FreeSpace(m) == FreeSpace(k)
    requires HasEmptySlot(l) == HasEmptySlot(m) == HasEmptySlot(k)
    requires Sound(l) && !Tiled(l) && Sound(m) && CompactLayout(l) == m && CompactLayout(m) == k
    ensures TakesAtLast(m, n) == TakesAtLast(l, n)
  {
    hide Sound;
    hide Tiled;
    hide HasEmptySlot;
    hide FreeSpace;
    hide CompactLayout;
  }

  lemma SameEmpty(l: Layout, m: Layout)
    requires |l.slots| == |m.slots| && forall i :: Live(m, i) <==> Live(l, i)
    ensures HasEmptySlot(l) == HasEmptySlot(m) && FirstEmpty(l) == FirstEmpty(m)
  {
    if HasEmptySlot(l) {
      var i :| 0 <= i < |l.slots| && !Live(l, i);
      assert !Live(m, i);
    }
    if HasEmptySlot(m) {
      var i :| 0 <= i < |m.slots| && !Live(m, i);
      assert !Live(l, i);
    }
  }

  /** A page is determined by its decoded directory and the bytes after it. */
  lemma SameImage(p: Image, q: Image)
    requires SlotCount(p) == SlotCount(q) <= MAX_SLOTS && LayoutOf(p) == LayoutOf(q)
    requires SameFrom(p, q, HEADER_SIZE + SLOT_SIZE * SlotCount(p))
    ensures p == q
  {
    forall k | 0 <= k < PAGE_SIZE
      ensures p[k] == q[k]
    {
      if HEADER_SIZE <= k < HEADER_SIZE + SLOT_SIZE * SlotCount(p) {
        var i := (k - HEADER_SIZE) / SLOT_SIZE;
        assert SlotAt(p, i) == LayoutOf(p).slots[i] == LayoutOf(q).slots[i] == SlotAt(q, i);
      }
    }
  }

  /** What compaction builds depends only on which slots are live and what they hold. */
  lemma {:induction false} SameCompactData(l: Layout, p: Image, m: Layout, q: Image, n: nat)
    requires Sound(l) && Sound(m) && |l.slots| == |m.slots| && n <= |l.slots|
    requires forall k :: Live(m, k) <==> Live(l, k)
    requires forall k :: Live(l, k) ==> TupleAt(q, m.slots[k]) == TupleAt(p, l.slots[k])
    ensures LiveBytes(m, n) == LiveBytes(l, n) && CompactData(m, q, n) == CompactData(l, p, n)
  {
    if n > 0 {
      SameCompactData(l, p, m, q, n - 1);
      if Live(l, n - 1) {
        assert |TupleAt(q, m.slots[n - 1])| == |TupleAt(p, l.slots[n - 1])|;
      }
    }
  }

  lemma SameCompactLayout(l: Layout, p: Image, m: Layout, q: Image)
    requires Sound(l) && Sound(m) && |l.slots| == |m.slots| && l.next == m.next
    requires forall k :: Live(m, k) <==> Live(l, k)
    requires forall k :: Live(l, k) ==> TupleAt(q, m.slots[k]) == TupleAt(p, l.slots[k])
    ensures CompactLayout(m) == CompactLayout(l)
  {
    forall k | 0 <= k < |l.slots|
      ensures CompactLayout(m).slots[k] == CompactLayout(l).slots[k]
    {
      SameCompactData(l, p, m, q, k);
      SameCompactData(l, p, m, q, k + 1);
    }
    SameCompactData(l, p, m, q, |l.slots|);
  }

  /** Compacting a compacted page changes no byte. */
  lemma {:induction false} CompactionIdempotent(p: Image, q: Image, r: Image)
    requires Valid(p) && Compacted(p, q)
    requires Valid(q) && Compacted(q, r)
    ensures r == q
  {
    var l, m, n := LayoutOf(p), LayoutOf(q), SlotCount(p);
    CompactLayoutSound(l);
    forall k | Live(l, k)
      ensures TupleAt(q, m.slots[k]) == TupleAt(p, l.slots[k])
    {
      CompactTuple(l, p, q, k);
    }
    SameCompactLayout(l, p, m, q);
    SameCompactData(l, p, m, q, n);
    SameRest(q, r, Top(l, n));
  }

  /** Equal directories, zeros up to `top` and equal bytes above it make equal pages. */
  lemma SameRest(q: Image, r: Image, top: nat)
    requires SlotCount(q) == SlotCount(r) <= MAX_SLOTS && LayoutOf(q) == LayoutOf(r)
    requires top <= PAGE_SIZE && q[top..] == r[top..]
    requires forall x :: HEADER_SIZE + SLOT_SIZE * SlotCount(q) <= x < top ==> q[x] == r[x] == 0
    ensures q == r
  {
    forall x | top <= x < PAGE_SIZE
      ensures r[x] == q[x]
    {
      assert r[x] == r[top..][x - top] && q[x] == q[top..][x - top];
    }
    SameImage(q, r);
  }
}
