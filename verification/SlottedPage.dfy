/** The slotted page: header, slot directory growing up, tuple bytes growing down. */
module SlottedPages {
  import opened Bytes
  import opened SlottedLayout
  import opened Compaction

  /** A view on the bytes of one frame; the tuples live in the shared buffer `data`. */
  class SlottedPage {
    const data: array<byte>

    constructor (data: array<byte>)
      requires data.Length == PAGE_SIZE
      ensures this.data == data
    {
      this.data := data;
    }

    ghost predicate Wf() {
      data.Length == PAGE_SIZE
    }

    ghost predicate Decodes()
      reads data
    {
      Wf() && SlotCount(data[..]) <= MAX_SLOTS
    }

    // ----- Field writes -----

    method PutU16(o: nat, v: nat)
      requires Wf() && o + 2 <= PAGE_SIZE && v < 0x1_0000
      modifies data
      ensures U16At(data[..], o) == v
      ensures forall k :: 0 <= k < PAGE_SIZE && k != o && k != o + 1 ==> data[k] == old(data[k])
    {
      data[o] := v % 256;
      data[o + 1] := v / 256;
    }

    method SetFree(v: nat)
      requires Decodes() && v < 0x1_0000
      modifies data
      ensures Redirected(old(data[..]), data[..], LayoutOf(old(data[..])).(free := v))
    {
      PutU16(6, v);
    }

    method SetSlot(i: nat, s: Slot)
      requires Decodes() && i < SlotCount(data[..]) && s.offset < 0x1_0000 && s.length < 0x1_0000
      modifies data
      ensures var l := LayoutOf(old(data[..]));
              Redirected(old(data[..]), data[..], l.(slots := l.slots[i := s]))
    {
      PutU16(HEADER_SIZE + SLOT_SIZE * i + 2, s.length);
      PutU16(HEADER_SIZE + SLOT_SIZE * i, s.offset);
    }

    /** Extends the directory by an empty slot, whose length field is whatever lay there. */
    method AllocateSlot() returns (i: nat)
      requires Decodes() && SlotCount(data[..]) < MAX_SLOTS
      modifies data
      ensures Decodes() && i == SlotCount(old(data[..]))
      ensures var l := LayoutOf(old(data[..])); var empty := Slot(INVALID_SLOT_OFFSET, SlotAt(data[..], i).length);
              Redirected(old(data[..]), data[..], l.(slots := l.slots + [empty]))
    {
      ghost var l := LayoutOf(data[..]);
      i := SlotCount(data[..]);
      PutU16(4, i + 1);
      PutU16(HEADER_SIZE + SLOT_SIZE * i, INVALID_SLOT_OFFSET);
      assert LayoutOf(data[..]).slots == l.slots + [SlotAt(data[..], i)];
    }

    method SetNextPage(v: nat)
      requires Decodes() && v <= INVALID_PAGE_ID
      modifies data
      ensures Redirected(old(data[..]), data[..], LayoutOf(old(data[..])).(next := v))
    {
      PutU16(0, v % 0x1_0000);
      PutU16(2, v / 0x1_0000);
    }

    method PutBytes(o: nat, t: seq<byte>)
      requires Decodes() && HEADER_SIZE + SLOT_SIZE * SlotCount(data[..]) <= o && o + |t| <= PAGE_SIZE
      modifies data
      ensures Decodes() && LayoutOf(data[..]) == LayoutOf(old(data[..]))
      ensures data[o..o + |t|] == t && SameFrom(old(data[..]), data[..], o + |t|)
      ensures forall k :: 0 <= k < o ==> data[k] == old(data[k])
    {
      forall k | 0 <= k < |t| {
        data[o + k] := t[k];
      }
    }

    // ----- Operations -----

    method Init()
      requires Wf()
      modifies data
      ensures Valid(data[..]) && LayoutOf(data[..]) == Layout(INVALID_PAGE_ID, PAGE_SIZE, [])
    {
      PutU16(4, 0);
      SetNextPage(INVALID_PAGE_ID);
      SetFree(PAGE_SIZE);
    }

    method FindEmptySlot() returns (r: Option<nat>)
      requires Decodes()
      ensures var l := LayoutOf(data[..]);
              && (r.None? <==> !HasEmptySlot(l))
              && (r.Some? ==> r.value < |l.slots| && !Live(l, r.value) && forall i :: 0 <= i < r.value ==> Live(l, i))
    {
      ghost var l := LayoutOf(data[..]);
      var i := 0;
      while i < SlotCount(data[..])
        invariant 0 <= i <= |l.slots|
        invariant forall k :: 0 <= k < i ==> Live(l, k)
      {
        if SlotAt(data[..], i).offset == INVALID_SLOT_OFFSET {
          assert !Live(l, i);
          return Some(i);
        }
        i := i + 1;
      }
      return None;
    }

    /** Enters `n` bytes under the free space in slot `i`, which is empty or just past the directory. */
    method EnterSlot(i: nat, n: nat)
      requires Decodes() && n <= LayoutOf(data[..]).free
      requires i < SlotCount(data[..]) || i == SlotCount(data[..]) < MAX_SLOTS
      modifies data
      ensures Redirected(old(data[..]), data[..], Placed(LayoutOf(old(data[..])), i, n))
    {
      hide LayoutOf;
      hide Redirected;
      hide SlotAt;
      hide U16At;
      hide SlotCount;
      ghost var p, l := data[..], LayoutOf(data[..]);
      FieldsOf(p);
      var free := U16At(data[..], 6);
      var entry := Slot(free - n, n);
      if i == SlotCount(data[..]) {
        var slot := AllocateSlot();
        RedirectedMeans(p, data[..], LayoutOf(data[..]));
        assert LayoutOf(data[..]).slots[i := entry] == l.slots + [entry];
      }
      ghost var q := data[..];
      SetSlot(i, entry);
      ghost var r := data[..];
      RedirectedMeans(q, r, LayoutOf(r));
      RedirectedTwice(p, q, r, LayoutOf(q), LayoutOf(r));
      SetFree(free - n);
      RedirectedMeans(r, data[..], LayoutOf(data[..]));
      RedirectedTwice(p, r, data[..], LayoutOf(r), Placed(l, i, n));
    }

    method Place(i: nat, t: seq<byte>)
      requires Wf() && Valid(data[..])
      requires var l := LayoutOf(data[..]);
               i <= |l.slots| && !Live(l, i) && |t| + (if i < |l.slots| then 0 else SLOT_SIZE) <= FreeSpace(l)
      modifies data
      ensures Valid(data[..]) && LayoutOf(data[..]) == Placed(LayoutOf(old(data[..])), i, |t|)
      ensures i !in Contents(old(data[..])) && Contents(data[..]) == Contents(old(data[..]))[i := t]
    {
      ghost var p := data[..];
      ghost var l := LayoutOf(p);
      var free := U16At(data[..], 6);
      EnterSlot(i, |t|);
      PutBytes(free - |t|, t);
      ghost var q := data[..];
      assert q[free - |t|..free] == t && SameFrom(p, q, free);
      PlacedTuples(l, p, q, i, t);
    }

    method Insert(t: seq<byte>, preferred: Option<nat>) returns (r: Option<nat>)
      requires Wf() && Valid(data[..]) && |t| < 0x1_0000
      modifies data
      ensures Valid(data[..])
      ensures r.Some? <==> Takes(LayoutOf(old(data[..])), |t|)
      ensures r.None? ==> data[..] == old(data[..])
      ensures r.Some? ==>
                var p := old(data[..]); var l := LayoutOf(p);
                && r.value <= |l.slots| && r.value !in Contents(p)
                && (r.value == |l.slots| <==> !HasEmptySlot(l))
                && LayoutOf(data[..]) == Placed(l, r.value, |t|)
                && Contents(data[..]) == Contents(p)[r.value := t]
                && (preferred.Some? && preferred.value < |l.slots| && !Live(l, preferred.value) ==>
                      r.value == preferred.value)
                && (preferred.None? ==> r.value == FirstEmpty(l))
    {
      ghost var l := LayoutOf(data[..]);
      var count := SlotCount(data[..]);
      var available := U16At(data[..], 6) - (HEADER_SIZE + SLOT_SIZE * count);
      if available < |t| {
        return None;
      }
      var slot: nat;
      if preferred.Some? && preferred.value < count && SlotAt(data[..], preferred.value).offset == INVALID_SLOT_OFFSET {
        slot := preferred.value;
        assert !Live(l, slot);
      } else {
        var empty := FindEmptySlot();
        if empty.Some? {
          slot := empty.value;
        } else {
          if available - |t| < SLOT_SIZE {
            return None;
          }
          slot := count;
        }
      }
      Place(slot, t);
      return Some(slot);
    }

    method Get(i: nat) returns (t: seq<byte>)
      requires Wf() && Valid(data[..])
      ensures t == if i in Contents(data[..]) then Contents(data[..])[i] else []
    {
      if i >= SlotCount(data[..]) {
        return [];
      }
      var slot := SlotAt(data[..], i);
      if slot.offset == INVALID_SLOT_OFFSET {
        return [];
      }
      assert Live(LayoutOf(data[..]), i);
      return data[slot.offset..slot.End()];
    }

    method HasSlot(i: nat) returns (r: bool)
      requires Wf() && Valid(data[..])
      ensures r <==> i in Contents(data[..])
    {
      r := i < SlotCount(data[..]) && SlotAt(data[..], i).offset != INVALID_SLOT_OFFSET;
    }

    /** Overwrites a tuple by one that is no longer. */
    method TryUpdateInPlace(i: nat, t: seq<byte>) returns (ok: bool)
      requires Wf() && Valid(data[..]) && |t| < 0x1_0000
      modifies data
      ensures Valid(data[..])
      ensures ok <==> i in Contents(old(data[..])) && |t| <= |Contents(old(data[..]))[i]|
      ensures !ok ==> data[..] == old(data[..])
      ensures ok ==>
                var l := LayoutOf(old(data[..]));
                && LayoutOf(data[..]) == l.(slots := l.slots[i := Slot(l.slots[i].offset, |t|)])
                && Contents(data[..]) == Contents(old(data[..]))[i := t]
    {
      ghost var p := data[..];
      ghost var l := LayoutOf(p);
      if i >= SlotCount(data[..]) {
        return false;
      }
      var slot := SlotAt(data[..], i);
      if slot.offset == INVALID_SLOT_OFFSET {
        return false;
      }
      assert Live(l, i);
      if |t| > slot.length {
        return false;
      }
      PutBytes(slot.offset, t);
      ghost var q := data[..];
      assert SlotCount(data[..]) == |l.slots| > i;
      SetSlot(i, Slot(slot.offset, |t|));
      ghost var r := data[..];
      assert SameFrom(q, r, l.free);
      ShrunkTuples(l, p, q, i, t);
      SameTail(l.(slots := l.slots[i := Slot(slot.offset, |t|)]), q, r);
      return true;
    }

    method Delete(i: nat) returns (ok: bool)
      requires Wf() && Valid(data[..])
      modifies data
      ensures Valid(data[..]) && (ok <==> i in Contents(old(data[..])))
      ensures Contents(data[..]) == Contents(old(data[..])) - {i}
      ensures !ok ==> data[..] == old(data[..])
      ensures ok ==>
                var l := LayoutOf(old(data[..]));
                LayoutOf(data[..]) == l.(slots := l.slots[i := Slot(INVALID_SLOT_OFFSET, l.slots[i].length)])
    {
      ghost var p := data[..];
      ghost var l := LayoutOf(p);
      if i >= SlotCount(data[..]) {
        return false;
      }
      var slot := SlotAt(data[..], i);
      if slot.offset == INVALID_SLOT_OFFSET {
        return false;
      }
      assert Live(l, i);
      SetSlot(i, Slot(INVALID_SLOT_OFFSET, slot.length));
      DroppedTuples(l, p, data[..], i);
      return true;
    }

    method NextPage() returns (r: nat)
      requires Wf() && Valid(data[..])
      ensures r == LayoutOf(data[..]).next
    {
      r := U32At(data[..], 0);
    }

    /** The first live slot after `i`; the increment wraps at 16 bits as in the source. */
    method NextOccupiedSlot(i: nat) returns (r: Option<nat>)
      requires Wf() && Valid(data[..]) && i < 0x1_0000
      ensures var l := LayoutOf(data[..]); var start := (i + 1) % 0x1_0000;
              && (r.None? ==> forall k :: start <= k ==> !Live(l, k))
              && (r.Some? ==> start <= r.value && Live(l, r.value) && forall k :: start <= k < r.value ==> !Live(l, k))
    {
      ghost var l := LayoutOf(data[..]);
      var k := (i + 1) % 0x1_0000;
      ghost var start := k;
      while k < SlotCount(data[..])
        invariant start <= k
        invariant forall j :: start <= j < k ==> !Live(l, j)
        decreases SlotCount(data[..]) - k
      {
        if SlotAt(data[..], k).offset != INVALID_SLOT_OFFSET {
          assert Live(l, k);
          return Some(k);
        }
        assert !Live(l, k);
        k := k + 1;
      }
      return None;
    }

    /** Tests whether the live tuples tile the page upwards from slot 0's offset, in 16-bit arithmetic. */
    method IsCompacted() returns (r: bool)
      requires Wf() && Valid(data[..])
      ensures var l := LayoutOf(data[..]);
              && (r <==> Tiled(l)) && (r <==> l.slots == [] || Seamless(l))
              && (r && l.slots != [] ==> TotalBytes(Contents(data[..]), |l.slots|) == 8192 - l.slots[0].offset)
    {
      hide Seamless;
      hide Contents;
      hide TotalBytes;
      ghost var l := LayoutOf(data[..]);
      SeamlessContents(data[..]);
      if SlotCount(data[..]) == 0 {
        return true;
      }
      var next := SlotAt(data[..], 0).offset;
      var i := 0;
      while i < SlotCount(data[..])
        invariant 0 <= i <= |l.slots|
        invariant TileEnd(l, l.slots[0].offset, i) == Some(next)
      {
        var slot := SlotAt(data[..], i);
        assert slot == l.slots[i];
        if slot.offset != INVALID_SLOT_OFFSET {
          if next != slot.offset {
            TileEndStops(l, l.slots[0].offset, i + 1, |l.slots|);
            return false;
          }
          next := (next + slot.length) % 0x1_0000;
        }
        i := i + 1;
      }
      return next == PAGE_SIZE;
    }

    /** Copies the live tuples into a scratch buffer from the top down, in slot order. */
    method LayOut() returns (slots: seq<Slot>, offset: nat, bytes: seq<byte>)
      requires Wf() && Valid(data[..])
      ensures var l := LayoutOf(data[..]);
              && Layout(l.next, offset, slots) == CompactLayout(l)
              && bytes == CompactData(l, data[..], |l.slots|)
    {
      ghost var l := LayoutOf(data[..]);
      ghost var target := CompactLayout(l);
      var compacted := new byte[PAGE_SIZE](i => 0);
      slots := [];
      offset := PAGE_SIZE;
      var i := 0;
      while i < SlotCount(data[..])
        invariant 0 <= i <= |l.slots|
        invariant offset == Top(l, i) <= PAGE_SIZE
        invariant |slots| == i && forall k :: 0 <= k < i ==> slots[k] == target.slots[k]
        invariant compacted[offset..] == CompactData(l, data[..], i)
      {
        var slot, top := LayOutSlot(i, offset, compacted);
        slots := slots + [slot];
        offset := top;
        i := i + 1;
      }
      bytes := compacted[offset..];
    }

    method LayOutSlot(i: nat, offset: nat, scratch: array<byte>) returns (slot: Slot, top: nat)
      requires Wf() && Valid(data[..]) && i < SlotCount(data[..])
      requires scratch != data && scratch.Length == PAGE_SIZE
      requires var l := LayoutOf(data[..]);
               offset == Top(l, i) <= PAGE_SIZE && scratch[offset..] == CompactData(l, data[..], i)
      modifies scratch
      ensures var l := LayoutOf(data[..]);
              && top == Top(l, i + 1) <= PAGE_SIZE && slot == CompactSlot(l, i)
              && scratch[top..] == CompactData(l, data[..], i + 1)
    {
      var entry := SlotAt(data[..], i);
      assert entry == LayoutOf(data[..]).slots[i];
      LiveBytesFit(LayoutOf(data[..]), i + 1);
      if entry.offset == INVALID_SLOT_OFFSET {
        return Slot(INVALID_SLOT_OFFSET, 0), offset;
      }
      assert Live(LayoutOf(data[..]), i);
      top := offset - entry.length;
      slot := Slot(top, entry.length);
      CopyInto(scratch, top, data[entry.offset..entry.End()]);
    }

    static method CopyInto(dst: array<byte>, o: nat, t: seq<byte>)
      requires o + |t| <= dst.Length
      modifies dst
      ensures dst[o..] == t + old(dst[o + |t|..])
    {
      forall k | 0 <= k < |t| {
        dst[o + k] := t[k];
      }
    }

    method Compact()
      requires Wf() && Valid(data[..])
      modifies data
      ensures Valid(data[..]) && Compacted(old(data[..]), data[..])
      ensures Contents(data[..]) == Contents(old(data[..])) && SlotCount(data[..]) == SlotCount(old(data[..]))
      ensures LayoutOf(data[..]).next == LayoutOf(old(data[..])).next
    {
      ghost var p := data[..];
      var next := U32At(data[..], 0);
      var slots, offset, bytes := LayOut();
      CompactSlotsEncodable(LayoutOf(p));
      Rewrite(next, slots, offset, bytes);
      CompactionKeepsContents(p, data[..]);
    }

    /** Clears the page and writes header, directory and tuple bytes back. */
    method Rewrite(next: nat, slots: seq<Slot>, free: nat, bytes: seq<byte>)
      requires Wf() && next <= INVALID_PAGE_ID && |bytes| == PAGE_SIZE - free
      requires HEADER_SIZE + SLOT_SIZE * |slots| <= free <= PAGE_SIZE
      requires Encodable(slots)
      modifies data
      ensures Decodes() && LayoutOf(data[..]) == Layout(next, free, slots)
      ensures forall x :: HEADER_SIZE + SLOT_SIZE * |slots| <= x < free ==> data[..][x] == 0
      ensures data[..][free..] == bytes
    {
      forall k | 0 <= k < PAGE_SIZE {
        data[k] := 0;
      }
      PutU16(4, |slots|);
      SetNextPage(next);
      SetFree(free);
      WriteSlots(slots);
      PutBytes(free, bytes);
    }

    method WriteSlots(slots: seq<Slot>)
      requires Decodes() && SlotCount(data[..]) == |slots| && Encodable(slots)
      modifies data
      ensures Redirected(old(data[..]), data[..], LayoutOf(old(data[..])).(slots := slots))
    {
      ghost var p, l := data[..], LayoutOf(data[..]);
      var i := 0;
      while i < |slots|
        invariant 0 <= i <= |slots| && Decodes() && SlotCount(data[..]) == |slots|
        invariant LayoutOf(data[..]).next == l.next && LayoutOf(data[..]).free == l.free
        invariant forall k :: 0 <= k < i ==> LayoutOf(data[..]).slots[k] == slots[k]
        invariant SameFrom(p, data[..], HEADER_SIZE + SLOT_SIZE * |slots|)
      {
        SetSlot(i, slots[i]);
        i := i + 1;
      }
      assert LayoutOf(data[..]).slots == slots;
    }

    /** Compacts when the free space in the middle is too small for `n` bytes. */
    method MakeRoom(n: nat)
      requires Wf() && Valid(data[..])
      modifies data
      ensures Valid(data[..]) && SlotCount(data[..]) == SlotCount(old(data[..]))
      ensures LayoutOf(data[..]).next == LayoutOf(old(data[..])).next
      ensures Contents(data[..]) == Contents(old(data[..]))
      ensures n <= FreeSpace(LayoutOf(data[..])) <==> HasRoom(old(data[..]), n)
      ensures if FreeSpace(LayoutOf(old(data[..]))) < n then Compacted(old(data[..]), data[..]) else data[..] == old(data[..])
    {
      ghost var p := data[..];
      if FreeSpace(LayoutOf(data[..])) < n {
        Compact();
        CompactionKeepsContents(p, data[..]);
      } else {
        RoomIsEnough(p, n);
      }
    }

    /** Puts a tuple back into its own, empty slot; false stands for one of the assertions firing. */
    method Restore(i: nat, t: seq<byte>) returns (ok: bool)
      requires Wf() && Valid(data[..]) && |t| < 0x1_0000
      modifies data
      ensures Valid(data[..]) && SlotCount(data[..]) == SlotCount(old(data[..]))
      ensures LayoutOf(data[..]).next == LayoutOf(old(data[..])).next
      ensures ok <==> i < SlotCount(old(data[..])) && i !in Contents(old(data[..])) && HasRoom(old(data[..]), |t|)
      ensures Contents(data[..]) == if ok then Contents(old(data[..]))[i := t] else Contents(old(data[..]))
    {
      if i >= SlotCount(data[..]) || SlotAt(data[..], i).offset != INVALID_SLOT_OFFSET {
        assert i < SlotCount(data[..]) ==> Live(LayoutOf(data[..]), i);
        return false;
      }
      assert !Live(LayoutOf(data[..]), i);
      assert i !in Contents(data[..]);
      MakeRoom(|t|);
      assert i !in Contents(data[..]);
      assert !Live(LayoutOf(data[..]), i);
      if |t| > FreeSpace(LayoutOf(data[..])) {
        return false;
      }
      var slot := Insert(t, Some(i));
      return true;
    }
  }
}
