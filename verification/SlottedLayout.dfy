/** The packed layout of a slotted page, and what a page image means. */
module SlottedLayout {
  import opened Bytes

  const HEADER_SIZE: nat := 8
  const SLOT_SIZE: nat := 4
  const MAX_SLOTS: nat := 2046
  const INVALID_SLOT_OFFSET: nat := 0

  type Image = p: seq<byte> | |p| == PAGE_SIZE witness Zeros(PAGE_SIZE)

  /** A directory entry; a slot is empty exactly when its offset is 0, whatever its length says. */
  datatype Slot = Slot(offset: nat, length: nat) {
    predicate Live() { offset != INVALID_SLOT_OFFSET }
    function End(): nat { offset + length }
  }

  /** The decoded header and directory of a page. */
  datatype Layout = Layout(next: nat, free: nat, slots: seq<Slot>)

  // ----- Packed fields -----

  function SlotCount(p: Image): nat { U16At(p, 4) }

  function SlotAt(p: Image, i: nat): Slot
    requires i < MAX_SLOTS
  {
    Slot(U16At(p, HEADER_SIZE + SLOT_SIZE * i), U16At(p, HEADER_SIZE + SLOT_SIZE * i + 2))
  }

  function LayoutOf(p: Image): (l: Layout)
    requires SlotCount(p) <= MAX_SLOTS
    ensures |l.slots| == SlotCount(p)
    ensures forall i :: 0 <= i < SlotCount(p) ==> l.slots[i] == SlotAt(p, i)
  {
    Layout(U32At(p, 0), U16At(p, 6), seq(SlotCount(p), i requires 0 <= i < SlotCount(p) => SlotAt(p, i)))
  }

  /** Where every field of a page is, low byte first: the link, the slot count, the free-space offset, then the slots. */
  lemma PageFormat(p: Image)
    requires SlotCount(p) <= MAX_SLOTS
    ensures var l := LayoutOf(p);
            && l.next == p[0] as int + 256 * p[1] as int + 0x1_0000 * p[2] as int + 0x100_0000 * p[3] as int
            && |l.slots| == p[4] as int + 256 * p[5] as int && l.free == p[6] as int + 256 * p[7] as int
            && (forall i :: 0 <= i < |l.slots| ==>
                  && l.slots[i].offset == p[8 + 4 * i] as int + 256 * p[9 + 4 * i] as int
                  && l.slots[i].length == p[10 + 4 * i] as int + 256 * p[11 + 4 * i] as int
                  && (l.slots[i].Live() <==> p[8 + 4 * i] != 0 || p[9 + 4 * i] != 0))
  {
  }

  // ----- Invariant and abstraction -----

  predicate Live(l: Layout, i: int) {
    0 <= i < |l.slots| && l.slots[i].Live()
  }

  predicate Apart(a: Slot, b: Slot) {
    a.End() <= b.offset || b.End() <= a.offset
  }

  /** Directory below the free space, live tuples above it and pairwise apart. */
  ghost predicate Sound(l: Layout) {
    && HEADER_SIZE + SLOT_SIZE * |l.slots| <= l.free <= PAGE_SIZE
    && (forall i :: Live(l, i) ==> l.free <= l.slots[i].offset && l.slots[i].End() <= PAGE_SIZE)
    && (forall i, j :: Live(l, i) && Live(l, j) && i != j ==> Apart(l.slots[i], l.slots[j]))
  }

  function TupleAt(p: Image, s: Slot): (t: seq<byte>)
    requires s.End() <= PAGE_SIZE
  {
    p[s.offset..s.End()]
  }

  ghost function Tuples(l: Layout, p: Image): map<nat, seq<byte>>
    requires Sound(l)
  {
    map i | 0 <= i < |l.slots| && Live(l, i) :: TupleAt(p, l.slots[i])
  }

  ghost predicate Valid(p: Image) {
    SlotCount(p) <= MAX_SLOTS && Sound(LayoutOf(p))
  }

  /** What the page means: the bytes stored under each live slot. */
  ghost function Contents(p: Image): map<nat, seq<byte>>
    requires Valid(p)
  {
    Tuples(LayoutOf(p), p)
  }

  function FreeSpace(l: Layout): int {
    l.free - (HEADER_SIZE + SLOT_SIZE * |l.slots|)
  }

  predicate HasEmptySlot(l: Layout) {
    exists i :: 0 <= i < |l.slots| && !Live(l, i)
  }

  /** The first empty slot, or the next new one. */
  function FirstEmpty(l: Layout): (r: nat)
    ensures r <= |l.slots| && !Live(l, r) && forall i :: 0 <= i < r ==> Live(l, i)
  {
    EmptyFrom(l, 0)
  }

  function EmptyFrom(l: Layout, i: nat): (r: nat)
    requires i <= |l.slots|
    ensures i <= r <= |l.slots| && !Live(l, r) && forall k :: i <= k < r ==> Live(l, k)
    decreases |l.slots| - i
  {
    if Live(l, i) then EmptyFrom(l, i + 1) else i
  }

  /** Whether the page takes a tuple of `n` bytes without compaction. */
  predicate Takes(l: Layout, n: nat) {
    n + (if HasEmptySlot(l) then 0 else SLOT_SIZE) <= FreeSpace(l)
  }

  /** The directory after placing a tuple of `n` bytes in slot `s`, an empty slot or the next new one. */
  function Placed(l: Layout, s: nat, n: nat): Layout
    requires s <= |l.slots| && n <= l.free
  {
    var entry := Slot(l.free - n, n);
    Layout(l.next, l.free - n, if s < |l.slots| then l.slots[s := entry] else l.slots + [entry])
  }

  /** The two images agree from position `e` on. */
  ghost predicate SameFrom(p: Image, q: Image, e: nat) {
    forall k :: e <= k < PAGE_SIZE ==> q[k] == p[k]
  }

  lemma PlacedIsSound(l: Layout, s: nat, n: nat)
    requires Sound(l) && s <= |l.slots| && !Live(l, s)
    requires n + (if s < |l.slots| then 0 else SLOT_SIZE) <= FreeSpace(l)
    ensures var l' := Placed(l, s, n);
            && Sound(l') && Live(l', s)
            && (forall i | i != s :: Live(l', i) <==> Live(l, i))
            && (forall i | i != s && Live(l, i) :: l'.slots[i] == l.slots[i])
  {
  }

  /** Only slot `s` changed its meaning, to `t`. */
  lemma UpdatedTuples(l: Layout, p: Image, l': Layout, q: Image, s: nat, t: seq<byte>)
    requires Sound(l) && Sound(l') && Live(l', s) && TupleAt(q, l'.slots[s]) == t
    requires forall i | i != s :: Live(l', i) <==> Live(l, i)
    requires forall i | i != s && Live(l, i) :: TupleAt(q, l'.slots[i]) == TupleAt(p, l.slots[i])
    ensures Tuples(l', q) == Tuples(l, p)[s := t]
  {
  }

  lemma PlacedTuples(l: Layout, p: Image, q: Image, s: nat, t: seq<byte>)
    requires Sound(l) && s <= |l.slots| && !Live(l, s)
    requires |t| + (if s < |l.slots| then 0 else SLOT_SIZE) <= FreeSpace(l)
    requires q[l.free - |t|..l.free] == t && SameFrom(p, q, l.free)
    ensures var l' := Placed(l, s, |t|);
            Sound(l') && s !in Tuples(l, p) && Tuples(l', q) == Tuples(l, p)[s := t]
  {
    PlacedIsSound(l, s, |t|);
    forall i | Live(l, i)
      ensures TupleAt(q, l.slots[i]) == TupleAt(p, l.slots[i])
    {
    }
    UpdatedTuples(l, p, Placed(l, s, |t|), q, s, t);
  }

  lemma ShrunkIsSound(l: Layout, s: nat, n: nat)
    requires Sound(l) && Live(l, s) && n <= l.slots[s].length
    ensures var l' := l.(slots := l.slots[s := Slot(l.slots[s].offset, n)]);
            Sound(l') && forall i :: Live(l', i) <==> Live(l, i)
  {
  }

  lemma ShrunkTuples(l: Layout, p: Image, q: Image, s: nat, t: seq<byte>)
    requires Sound(l) && Live(l, s) && |t| <= l.slots[s].length
    requires q[l.slots[s].offset..l.slots[s].offset + |t|] == t
    requires forall k | 0 <= k < PAGE_SIZE && !(l.slots[s].offset <= k < l.slots[s].End()) :: q[k] == p[k]
    ensures var l' := l.(slots := l.slots[s := Slot(l.slots[s].offset, |t|)]);
            Sound(l') && Tuples(l', q) == Tuples(l, p)[s := t]
  {
    ShrunkIsSound(l, s, |t|);
    forall i | Live(l, i) && i != s
      ensures TupleAt(q, l.slots[i]) == TupleAt(p, l.slots[i])
    {
      assert Apart(l.slots[i], l.slots[s]);
    }
    UpdatedTuples(l, p, l.(slots := l.slots[s := Slot(l.slots[s].offset, |t|)]), q, s, t);
  }

  lemma DroppedIsSound(l: Layout, s: nat)
    requires Sound(l) && Live(l, s)
    ensures var l' := l.(slots := l.slots[s := Slot(INVALID_SLOT_OFFSET, l.slots[s].length)]);
            Sound(l') && forall i :: Live(l', i) <==> Live(l, i) && i != s
  {
  }

  lemma DroppedTuples(l: Layout, p: Image, q: Image, s: nat)
    requires Sound(l) && Live(l, s) && SameFrom(p, q, l.free)
    ensures var l' := l.(slots := l.slots[s := Slot(INVALID_SLOT_OFFSET, l.slots[s].length)]);
            Sound(l') && Tuples(l', q) == Tuples(l, p) - {s}
  {
    DroppedIsSound(l, s);
    SameTail(l, p, q);
    var l' := l.(slots := l.slots[s := Slot(INVALID_SLOT_OFFSET, l.slots[s].length)]);
    assert forall i :: Live(l', i) ==> l'.slots[i] == l.slots[i];
  }

  lemma SameTail(l: Layout, q: Image, r: Image)
    requires Sound(l) && SameFrom(q, r, l.free)
    ensures Tuples(l, r) == Tuples(l, q)
  {
    forall i | Live(l, i)
      ensures TupleAt(r, l.slots[i]) == TupleAt(q, l.slots[i])
    {
    }
  }

  /** `q` decodes to `l` and differs from `p` only in the header and in `l`'s directory. */
  ghost predicate Redirected(p: Image, q: Image, l: Layout) {
    SlotCount(q) <= MAX_SLOTS && LayoutOf(q) == l && SameFrom(p, q, HEADER_SIZE + SLOT_SIZE * |l.slots|)
  }

  lemma RedirectedMeans(p: Image, q: Image, l: Layout)
    requires Redirected(p, q, l)
    ensures SlotCount(q) <= MAX_SLOTS && LayoutOf(q) == l && SlotCount(q) == |l.slots|
  {
  }

  lemma FieldsOf(p: Image)
    requires SlotCount(p) <= MAX_SLOTS
    ensures LayoutOf(p).free == U16At(p, 6) && |LayoutOf(p).slots| == SlotCount(p) && Redirected(p, p, LayoutOf(p))
  {
  }

  lemma RedirectedTwice(p: Image, q: Image, r: Image, l: Layout, l': Layout)
    requires Redirected(p, q, l) && Redirected(q, r, l') && |l.slots| <= |l'.slots|
    ensures Redirected(p, r, l')
  {
    assert forall k :: HEADER_SIZE + SLOT_SIZE * |l'.slots| <= k < PAGE_SIZE ==> r[k] == q[k] && q[k] == p[k];
  }
}
