/** The page cache: a fixed set of frames over the disk, each free or holding the one page the table maps to it. */
module BufferPool {
  import opened Bytes
  import opened SlottedLayout
  import opened Replacer
  import opened Disk

  type Table = map<nat, nat>

  /** Pin counts are 32-bit unsigned and wrap. */
  function Inc(pins: nat): (r: nat)
    ensures pins + 1 < 0x1_0000_0000 ==> r == pins + 1
    ensures pins == 0xFFFF_FFFF ==> r == 0
  {
    (pins + 1) % 0x1_0000_0000
  }

  function Dec(pins: nat): (r: nat)
    ensures 0 < pins < 0x1_0000_0000 ==> r == pins - 1
    ensures pins == 0 ==> r == 0xFFFF_FFFF
  {
    (pins + 0xFFFF_FFFF) % 0x1_0000_0000
  }

  const BLANK: Frame := Frame(INVALID_PAGE_ID, Zeros(PAGE_SIZE), 0, false)

  // ----- Frame accounting -----

  ghost predicate Mapped(frames: seq<Frame>, table: Table, f: nat) {
    f < |frames| && frames[f].id in table && table[frames[f].id] == f
  }

  /** Every frame in use is free once, set aside, or mapped by exactly the table entry whose id it stores. */
  ghost predicate Accounted(frames: seq<Frame>, table: Table, free: seq<nat>, size: nat, aside: Option<nat>) {
    && size <= |frames|
    && Distinct(free)
    && (forall i :: 0 <= i < |free| ==> free[i] < size && frames[free[i]] == BLANK && aside != Some(free[i]))
    && (forall f :: size <= f < |frames| ==> frames[f] == BLANK)
    && (forall p :: p in table ==>
          p != INVALID_PAGE_ID && table[p] < size && aside != Some(table[p]) && frames[table[p]].id == p)
    && (forall f :: 0 <= f < size ==> f in free || aside == Some(f) || Mapped(frames, table, f))
    && (aside.Some? ==> aside.value < size)
  }

  lemma PopFree(frames: seq<Frame>, table: Table, free: seq<nat>, size: nat)
    requires Accounted(frames, table, free, size, None) && free != []
    ensures var n := |free| - 1;
            free[n] < size && frames[free[n]] == BLANK && Accounted(frames, table, free[..n], size, Some(free[n]))
  {
    var n := |free| - 1;
    assert forall f :: f in free ==> f in free[..n] || f == free[n];
    assert forall p :: p in table && table[p] == free[n] ==> frames[free[n]].id == p;
  }

  /** With no frame free or unused, pages that cannot be evicted pin every frame. */
  lemma AllTaken(frames: seq<Frame>, table: Table, free: seq<nat>, size: nat)
    requires Accounted(frames, table, free, size, None) && free == [] && size == |frames|
    requires forall p :: p in table ==> !Evictable(frames, table, p)
    ensures AllPinned(frames)
  {
    forall f | 0 <= f < |frames|
      ensures frames[f].pins != 0
    {
      assert Mapped(frames, table, f);
    }
  }

  lemma SomeUnpinned(frames: seq<Frame>, table: Table, free: seq<nat>, size: nat)
    requires Accounted(frames, table, free, size, None)
    ensures free != [] || size < |frames| ==> !AllPinned(frames)
  {
    if free != [] {
      assert frames[free[0]] == BLANK;
    } else if size < |frames| {
      assert frames[size] == BLANK;
    }
  }

  /** And then there are as many pinned pages as frames. */
  lemma FullHouse(frames: seq<Frame>, table: Table, free: seq<nat>, size: nat)
    requires Accounted(frames, table, free, size, None) && AllPinned(frames)
    ensures |table| == |frames| && forall p :: p in table ==> Pins(frames, table, p) != 0
  {
    SomeUnpinned(frames, table, free, size);
    FramesConserved(frames, table, free, size);
  }

  lemma Grow(frames: seq<Frame>, table: Table, free: seq<nat>, size: nat)
    requires Accounted(frames, table, free, size, None) && size < |frames|
    ensures frames[size] == BLANK && Accounted(frames, table, free, size + 1, Some(size))
  {
  }

  lemma Unmap(frames: seq<Frame>, table: Table, free: seq<nat>, size: nat, p: nat)
    requires Accounted(frames, table, free, size, None) && p in table
    ensures Accounted(frames, table - {p}, free, size, Some(table[p]))
  {
    assert frames[table[p]] != BLANK;
    forall f | 0 <= f < size && f !in free && f != table[p]
      ensures Mapped(frames, table - {p}, f)
    {
      assert Mapped(frames, table, f);
    }
  }

  lemma Install(frames: seq<Frame>, table: Table, free: seq<nat>, size: nat, f: nat, frame: Frame)
    requires Accounted(frames, table, free, size, Some(f)) && frame.id !in table && frame.id != INVALID_PAGE_ID
    ensures Accounted(frames[f := frame], table[frame.id := f], free, size, None)
  {
    var frames', table' := frames[f := frame], table[frame.id := f];
    forall g | 0 <= g < size && g !in free
      ensures Mapped(frames', table', g)
    {
      assert g == f || Mapped(frames, table, g);
    }
  }

  lemma PutFree(frames: seq<Frame>, table: Table, free: seq<nat>, size: nat, f: nat)
    requires Accounted(frames, table, free, size, Some(f))
    ensures Accounted(frames[f := BLANK], table, free + [f], size, None)
  {
    var frames' := frames[f := BLANK];
    forall g | 0 <= g < size && g !in free + [f]
      ensures Mapped(frames', table, g)
    {
      assert g !in free && g != f && Mapped(frames, table, g);
    }
  }

  lemma Touch(frames: seq<Frame>, table: Table, free: seq<nat>, size: nat, p: nat, frame: Frame)
    requires Accounted(frames, table, free, size, None) && p in table && frame.id == p
    ensures Accounted(frames[table[p] := frame], table, free, size, None)
  {
    var frames' := frames[table[p] := frame];
    assert frames[table[p]] != BLANK;
    forall g | 0 <= g < size && g !in free
      ensures Mapped(frames', table, g)
    {
      assert Mapped(frames, table, g);
    }
  }

  lemma Entry(frames: seq<Frame>, table: Table, free: seq<nat>, size: nat, p: nat)
    requires Accounted(frames, table, free, size, None) && p in table
    ensures p != INVALID_PAGE_ID && table[p] < size <= |frames| && frames[table[p]].id == p
  {
  }

  ghost function Members(s: seq<nat>): (r: set<nat>)
    ensures forall x :: x in r <==> x in s
    ensures Distinct(s) ==> |r| == |s|
  {
    if s == [] then {} else
      var n := |s| - 1;
      assert Distinct(s) ==> s[n] !in s[..n];
      Members(s[..n]) + {s[n]}
  }

  ghost function Below(n: nat): (r: set<nat>)
    ensures |r| == n && forall x: nat :: x in r <==> x < n
  {
    if n == 0 then {} else Below(n - 1) + {n - 1}
  }

  /** An injective table has as many values as keys. */
  lemma {:induction false} InjectiveCount(table: Table, keys: set<nat>, values: set<nat>)
    requires forall p :: p in keys ==> p in table && table[p] in values
    requires forall p, q :: p in keys && q in keys && table[p] == table[q] ==> p == q
    requires forall f :: f in values ==> exists p :: p in keys && table[p] == f
    ensures |keys| == |values|
    decreases |keys|
  {
    if keys != {} {
      var p :| p in keys;
      forall f | f in values - {table[p]}
        ensures exists q :: q in keys - {p} && table[q] == f
      {
        var q :| q in keys && table[q] == f;
        assert q in keys - {p};
      }
      InjectiveCount(table, keys - {p}, values - {table[p]});
    } else {
      assert values == {};
    }
  }

  lemma InUse(frames: seq<Frame>, table: Table, free: seq<nat>, size: nat, f: nat)
    requires Accounted(frames, table, free, size, None)
    ensures f < size <==> f in table.Values || f in free
    ensures !(f in table.Values && f in free)
  {
    if f < size && f !in free {
      assert Mapped(frames, table, f) && frames[f].id in table && f in table.Values;
    }
    if f in table.Values {
      var p :| p in table && table[p] == f;
      assert frames[table[p]] != BLANK;
    }
  }

  /** Frames are conserved: those in use are the cached pages' and the free ones, none lost and none twice. */
  lemma FramesConserved(frames: seq<Frame>, table: Table, free: seq<nat>, size: nat)
    requires Accounted(frames, table, free, size, None)
    ensures |table| + |free| == size <= |frames|
  {
    hide Accounted;
    forall f: nat
      ensures f < size <==> f in table.Values || f in free
      ensures !(f in table.Values && f in free)
    {
      InUse(frames, table, free, size, f);
    }
    OneFrameEach(frames, table, free, size);
    assert Below(size) == table.Values + Members(free) && table.Values !! Members(free);
  }

  lemma OneFrameEach(frames: seq<Frame>, table: Table, free: seq<nat>, size: nat)
    requires Accounted(frames, table, free, size, None)
    ensures |table| == |table.Values| && Distinct(free) && size <= |frames|
  {
    InjectiveCount(table, table.Keys, table.Values);
    assert |table.Keys| == |table|;
  }

  // ----- What a page shows -----

  ghost function View(frames: seq<Frame>, table: Table, file: File, p: nat): Image {
    if p in table && table[p] < |frames| then frames[table[p]].data else PageAt(file, p)
  }

  /** What page `p` would show if it left its frame. */
  ghost function Keeps(frames: seq<Frame>, table: Table, file: File, p: nat): Image {
    if p in table && table[p] < |frames| && frames[table[p]].dirty then frames[table[p]].data else PageAt(file, p)
  }

  ghost predicate Marked(frames: seq<Frame>, table: Table, p: nat) {
    p in table && table[p] < |frames| && frames[table[p]].dirty
  }

  /** An unpinned page that is not marked dirty holds what the disk holds. */
  ghost predicate Clean(frame: Frame, file: File) {
    frame.pins == 0 && !frame.dirty ==> frame.data == PageAt(file, frame.id)
  }

  ghost predicate Coherent(frames: seq<Frame>, table: Table, file: File) {
    forall p :: p in table && table[p] < |frames| ==> Clean(frames[table[p]], file)
  }

  ghost predicate AllPinned(frames: seq<Frame>) {
    forall f :: 0 <= f < |frames| ==> frames[f].pins != 0
  }

  lemma TouchViews(frames: seq<Frame>, table: Table, free: seq<nat>, size: nat, p: nat, frame: Frame, file: File)
    requires Accounted(frames, table, free, size, None) && p in table && frame.id == p
    ensures var frames' := frames[table[p] := frame];
            && (forall q :: View(frames', table, file, q) == if q == p then frame.data else View(frames, table, file, q))
            && (Coherent(frames, table, file) ==> (Coherent(frames', table, file) <==> Clean(frame, file)))
  {
    var frames' := frames[table[p] := frame];
    forall q | q in table && q != p
      ensures table[q] != table[p] && frames'[table[q]] == frames[table[q]]
    {
    }
    assert Coherent(frames', table, file) ==> Clean(frames'[table[p]], file);
  }

  lemma TouchKeeps(frames: seq<Frame>, table: Table, free: seq<nat>, size: nat, p: nat, frame: Frame, file: File)
    requires Accounted(frames, table, free, size, None) && p in table && frame.id == p
    ensures var frames' := frames[table[p] := frame];
            && (forall q :: q != p ==> Keeps(frames', table, file, q) == Keeps(frames, table, file, q))
            && Keeps(frames', table, file, p) == (if frame.dirty then frame.data else PageAt(file, p))
            && (forall q :: q != p ==> (Marked(frames', table, q) <==> Marked(frames, table, q)))
            && (Marked(frames', table, p) <==> frame.dirty)
            && PinsHeld(frames, table, frames', table, p)
  {
    var frames' := frames[table[p] := frame];
    forall q | q in table && q != p
      ensures table[q] != table[p] && frames'[table[q]] == frames[table[q]]
    {
    }
  }

  /** How often page `p` is pinned. */
  ghost function Pins(frames: seq<Frame>, table: Table, p: nat): nat {
    if p in table && table[p] < |frames| then frames[table[p]].pins else 0
  }

  /** Pages other than `id` are pinned as often as they were, and those that are pinned stay where and as they are. */
  ghost predicate PinsHeld(frames: seq<Frame>, table: Table, frames': seq<Frame>, table': Table, id: nat) {
    |frames'| == |frames| &&
    (forall p :: p != id ==> Pins(frames', table', p) == Pins(frames, table, p)) &&
    forall p :: p in table && table[p] < |frames| && frames[table[p]].pins != 0 && p != id ==>
                  p in table' && table'[p] == table[p] && frames'[table[p]] == frames[table[p]]
  }

  /** Page `v`, held by frame `f` if any, gives way to `frame`; its bytes go to the file exactly when it is dirty. */
  ghost predicate Swapped(frames: seq<Frame>, table: Table, file: File, f: nat, frame: Frame,
                          frames': seq<Frame>, table': Table, file': File)
  {
    && f < |frames| && frames' == frames[f := frame] && table' == (table - {frames[f].id})[frame.id := f]
    && (frames[f] == BLANK || (frames[f].pins == 0 && Mapped(frames, table, f)))
    && (forall q :: PageAt(file', q) == if frames[f].dirty && q == frames[f].id then frames[f].data else PageAt(file, q))
  }

  /** An eviction keeps what the evicted page shows if and only if the page is dirty or as on the disk. */
  lemma SwappedViews(frames: seq<Frame>, table: Table, file: File, f: nat, frame: Frame,
                     frames': seq<Frame>, table': Table, file': File, free: seq<nat>, size: nat, q: nat)
    requires Accounted(frames, table, free, size, None) || Accounted(frames, table, free, size, Some(f))
    requires Swapped(frames, table, file, f, frame, frames', table', file') && frame.id !in table
    ensures View(frames', table', file', frame.id) == frame.data
    ensures q != frame.id ==>
              View(frames', table', file', q) ==
                if q in table && q == frames[f].id && !frames[f].dirty then PageAt(file, q) else View(frames, table, file, q)
    ensures q != frame.id && q in table && q == frames[f].id ==>
              (View(frames', table', file', q) == View(frames, table, file, q) <==>
               frames[f].dirty || frames[f].data == PageAt(file, q))
  {
    if q in table && q != frames[f].id {
      assert table[q] != f;
    }
  }

  lemma SwappedCoherent(frames: seq<Frame>, table: Table, file: File, f: nat, frame: Frame,
                        frames': seq<Frame>, table': Table, file': File, free: seq<nat>, size: nat)
    requires Accounted(frames, table, free, size, None) || Accounted(frames, table, free, size, Some(f))
    requires Swapped(frames, table, file, f, frame, frames', table', file') && frame.id !in table && frame.pins != 0
    requires Coherent(frames, table, file)
    ensures Coherent(frames', table', file')
  {
    forall p | p in table' && p != frame.id
      ensures Clean(frames'[table'[p]], file')
    {
      assert p in table && table[p] != f;
      assert Clean(frames[table[p]], file);
    }
  }

  /** With every change marked dirty, an eviction changes what no other page shows, and keeps it that way. */
  lemma SwappedKeeps(frames: seq<Frame>, table: Table, file: File, f: nat, frame: Frame,
                     frames': seq<Frame>, table': Table, file': File, free: seq<nat>, size: nat)
    requires Accounted(frames, table, free, size, None) || Accounted(frames, table, free, size, Some(f))
    requires Swapped(frames, table, file, f, frame, frames', table', file') && frame.id !in table && frame.pins != 0
    requires Coherent(frames, table, file)
    ensures Coherent(frames', table', file')
    ensures View(frames', table', file', frame.id) == frame.data
    ensures forall q :: q != frame.id ==> View(frames', table', file', q) == View(frames, table, file, q)
  {
    SwappedCoherent(frames, table, file, f, frame, frames', table', file', free, size);
    forall q
      ensures View(frames', table', file', frame.id) == frame.data
      ensures q != frame.id ==> View(frames', table', file', q) == View(frames, table, file, q)
    {
      SwappedViews(frames, table, file, f, frame, frames', table', file', free, size, q);
      if q in table && q == frames[f].id {
        assert Mapped(frames, table, f) && Clean(frames[table[q]], file);
      }
    }
  }

  lemma SwappedPinned(frames: seq<Frame>, table: Table, file: File, f: nat, frame: Frame,
                      frames': seq<Frame>, table': Table, file': File, free: seq<nat>, size: nat)
    requires Accounted(frames, table, free, size, None)
    requires Swapped(frames, table, file, f, frame, frames', table', file') && frame.id !in table
    ensures PinsHeld(frames, table, frames', table', frame.id)
  {
  }

  /** The page that makes way for another in frame `f`. */
  function Victim(frames: seq<Frame>, f: nat): set<nat>
    requires f < |frames|
  {
    if frames[f] == BLANK then {} else {frames[f].id}
  }

  /**
   * Only the page that made way shows anything else, namely what it kept, and it is not marked any more. What pages
   * keep does not change at all.
   */
  ghost predicate Fades(frames: seq<Frame>, table: Table, file: File, frames': seq<Frame>, table': Table, file': File,
                        gone: set<nat>, id: nat)
  {
    && id !in gone && (forall p :: p in gone ==> p in table && table[p] < |frames| && frames[table[p]].pins == 0)
    && (forall q :: q != id ==>
          View(frames', table', file', q) == if q in gone then Keeps(frames, table, file, q) else View(frames, table, file, q))
    && (forall q :: Keeps(frames', table', file', q) == Keeps(frames, table, file, q))
    && (forall q :: Marked(frames', table', q) <==> Marked(frames, table, q) && q !in gone)
  }

  lemma SwappedFades(frames: seq<Frame>, table: Table, file: File, f: nat, frame: Frame,
                     frames': seq<Frame>, table': Table, file': File, free: seq<nat>, size: nat)
    requires Accounted(frames, table, free, size, None)
    requires Swapped(frames, table, file, f, frame, frames', table', file') && frame.id !in table && !frame.dirty
    ensures Fades(frames, table, file, frames', table', file', Victim(frames, f), frame.id)
  {
    hide PageAt;
    hide Accounted;
    forall q
      ensures q != frame.id ==>
                View(frames', table', file', q) ==
                if q in Victim(frames, f) then Keeps(frames, table, file, q) else View(frames, table, file, q)
      ensures Keeps(frames', table', file', q) == Keeps(frames, table, file, q)
      ensures Marked(frames', table', q) <==> Marked(frames, table, q) && q !in Victim(frames, f)
    {
      SwappedOne(frames, table, file, f, frame, frames', table', file', free, size, q);
    }
  }

  lemma SwappedOne(frames: seq<Frame>, table: Table, file: File, f: nat, frame: Frame,
                   frames': seq<Frame>, table': Table, file': File, free: seq<nat>, size: nat, q: nat)
    requires Accounted(frames, table, free, size, None)
    requires Swapped(frames, table, file, f, frame, frames', table', file') && frame.id !in table && !frame.dirty
    ensures q != frame.id ==>
              View(frames', table', file', q) ==
              if q in Victim(frames, f) then Keeps(frames, table, file, q) else View(frames, table, file, q)
    ensures Keeps(frames', table', file', q) == Keeps(frames, table, file, q)
    ensures Marked(frames', table', q) <==> Marked(frames, table, q) && q !in Victim(frames, f)
    ensures frame.id !in Victim(frames, f)
  {
    hide PageAt;
    if q in table && q != frames[f].id {
      assert table[q] != f;
    }
  }

  lemma NothingFades(frames: seq<Frame>, table: Table, file: File, id: nat)
    ensures Fades(frames, table, file, frames, table, file, {}, id) && PinsHeld(frames, table, frames, table, id)
  {
    hide PageAt;
  }

  /** Another pin on a cached page. */
  lemma PinnedAgain(frames: seq<Frame>, table: Table, free: seq<nat>, size: nat, p: nat, frame: Frame, file: File)
    requires Accounted(frames, table, free, size, None) && p in table && table[p] < |frames| && frame.id == p
    requires frame.data == frames[table[p]].data && frame.dirty == frames[table[p]].dirty
    ensures Fades(frames, table, file, frames[table[p] := frame], table, file, {}, p)
    ensures PinsHeld(frames, table, frames[table[p] := frame], table, p)
  {
    hide PageAt;
    TouchViews(frames, table, free, size, p, frame, file);
    TouchKeeps(frames, table, free, size, p, frame, file);
    hide Accounted;
  }

  lemma Dropped(frames: seq<Frame>, table: Table, free: seq<nat>, size: nat, p: nat, file: File)
    requires Accounted(frames, table, free, size, None) && p in table
    ensures var frames' := frames[table[p] := BLANK];
            && (forall q :: q != p ==>
                  && View(frames', table - {p}, file, q) == View(frames, table, file, q)
                  && Keeps(frames', table - {p}, file, q) == Keeps(frames, table, file, q)
                  && (Marked(frames', table - {p}, q) <==> Marked(frames, table, q)))
            && PinsHeld(frames, table, frames', table - {p}, p)
            && (Coherent(frames, table, file) ==> Coherent(frames', table - {p}, file))
  {
    var frames' := frames[table[p] := BLANK];
    forall q | q in table && q != p
      ensures table[q] != table[p] && frames'[table[q]] == frames[table[q]]
    {
    }
  }

  /** The dirty frames below `i`, and only they, have been written over the pages of `file`. */
  ghost predicate Flushed(frames: seq<Frame>, table: Table, file: File, file': File, i: nat) {
    forall q :: PageAt(file', q) ==
      if q in table && table[q] < i <= |frames| && frames[table[q]].dirty then frames[table[q]].data else PageAt(file, q)
  }

  lemma FlushFrame(frames: seq<Frame>, table: Table, free: seq<nat>, size: nat, file: File, now: File, next: File, i: nat)
    requires Accounted(frames, table, free, size, None) && i < size && Flushed(frames, table, file, now, i)
    requires forall q :: PageAt(next, q) == if frames[i].dirty && q == frames[i].id then frames[i].data else PageAt(now, q)
    ensures Flushed(frames, table, file, next, i + 1)
  {
    hide PageAt;
    assert frames[i].dirty ==> Mapped(frames, table, i);
  }

  lemma NothingFlushed(frames: seq<Frame>, table: Table, file: File)
    ensures Flushed(frames, table, file, file, 0)
  {
  }

  lemma DirtyIsMapped(frames: seq<Frame>, table: Table, free: seq<nat>, size: nat, i: nat)
    requires Accounted(frames, table, free, size, None) && i < size && frames[i].dirty
    ensures Mapped(frames, table, i)
  {
  }

  lemma FlushedViews(frames: seq<Frame>, table: Table, free: seq<nat>, size: nat, file: File, file': File)
    requires Accounted(frames, table, free, size, None) && Flushed(frames, table, file, file', size)
    ensures forall q :: View(frames, table, file', q) == View(frames, table, file, q)
    ensures Coherent(frames, table, file) ==> Coherent(frames, table, file')
    ensures Coherent(frames, table, file) ==>
              forall q :: (q in table ==> frames[table[q]].pins == 0) ==> PageAt(file', q) == View(frames, table, file', q)
  {
    hide PageAt;
    forall p | p in table
      ensures Clean(frames[table[p]], file) ==> Clean(frames[table[p]], file')
      ensures Clean(frames[table[p]], file) && frames[table[p]].pins == 0 ==> PageAt(file', p) == frames[table[p]].data
    {
    }
  }

  lemma FlushedKeeps(frames: seq<Frame>, table: Table, free: seq<nat>, size: nat, file: File, file': File)
    requires Accounted(frames, table, free, size, None) && Flushed(frames, table, file, file', size)
    ensures forall q :: PageAt(file', q) == Keeps(frames, table, file, q)
    ensures (exists f :: 0 <= f < size && frames[f].dirty) <==> exists q :: Marked(frames, table, q)
  {
    hide PageAt;
    if f :| 0 <= f < size && frames[f].dirty {
      DirtyIsMapped(frames, table, free, size, f);
      assert Marked(frames, table, frames[f].id);
    }
  }

  datatype DeleteResult = Deleted | Pinned | Refused

  /** The cached, unpinned page with the oldest last use. */
  ghost predicate IsLru(frames: seq<Frame>, table: Table, h: seq<Event>, p: nat) {
    && Evictable(frames, table, p)
    && forall q :: q in table && Evictable(frames, table, q) && q != p ==> LastUse(h, p) < LastUse(h, q)
  }

  /** The history ends with a use of page `p`, after at most the removal of the page that made way. */
  ghost predicate Used(h: seq<Event>, h': seq<Event>, p: nat) {
    h' == h + [Recorded(p)] || exists q :: h' == h + [Removed(q)] + [Recorded(p)]
  }

  /** While a frame is free or was never used, such a one is taken and no page makes way; else the least recently used one does. */
  ghost predicate Chosen(frames: seq<Frame>, table: Table, free: seq<nat>, size: nat, h: seq<Event>, f: nat, gone: set<nat>) {
    && f < |frames| && frames[f].pins == 0
    && if free != [] || size < |frames| then frames[f] == BLANK && gone == {}
       else IsLru(frames, table, h, frames[f].id) && table[frames[f].id] == f && gone == {frames[f].id}
  }

  lemma IsChosen(frames: seq<Frame>, table: Table, free: seq<nat>, size: nat, h: seq<Event>, f: nat, gone: set<nat>)
    requires f < |frames| && gone == Victim(frames, f)
    requires frames[f] == BLANK || (frames[f].pins == 0 && Mapped(frames, table, f) && IsLru(frames, table, h, frames[f].id))
    requires frames[f] == BLANK <==> free != [] || size < |frames|
    ensures Chosen(frames, table, free, size, h, f, gone)
  {
    hide IsLru;
  }

  class BufferPoolManager {
    const disk: DiskManager
    const replacer: BufferReplacer
    const frames: array<Frame>
    var table: Table
    var free: seq<nat>
    var size: nat

    constructor (disk: DiskManager, capacity: nat)
      requires disk.Valid()
      ensures Valid() && this.disk == disk && frames.Length == capacity && table == map[] && fresh(frames) && fresh(replacer)
      ensures Coherent(frames[..], table, disk.file)
    {
      this.disk := disk;
      replacer := new BufferReplacer();
      frames := new Frame[capacity](i => BLANK);
      table, free, size := map[], [], 0;
    }

    /** Everything but the frame set aside is accounted for, and the replacer lists exactly the cached pages. */
    ghost predicate Sound(aside: Option<nat>)
      reads this, disk, replacer, frames
    {
      && disk.Valid() && replacer.Valid()
      && Accounted(frames[..], table, free, size, aside)
      && (forall p :: p in table <==> p in replacer.Order())
      && (forall p :: p in table ==> p in disk.live)
    }

    ghost predicate Valid()
      reads this, disk, replacer, frames
    {
      Sound(None)
    }

    /** The bytes page `p` has for every client: the frame's if cached, else the disk's. */
    ghost function Shows(p: nat): Image
      reads this, disk, frames
    {
      View(frames[..], table, disk.file, p)
    }

    /** The bytes page `p` would show if it left its frame. */
    ghost function Kept(p: nat): Image
      reads this, disk, frames
    {
      Keeps(frames[..], table, disk.file, p)
    }

    ghost predicate Dirty(p: nat)
      reads this, frames
    {
      Marked(frames[..], table, p)
    }

    /** Frame `f` is blank and set aside, or holds the least recently used page. */
    ghost predicate Offered(f: nat)
      reads this, disk, replacer, frames
    {
      f < frames.Length && (
        || (frames[f] == BLANK && Sound(Some(f)))
        || (Valid() && IsLru(frames[..], table, replacer.history, frames[f].id) && Mapped(frames[..], table, f)))
    }

    /** What an unpinned page shows is marked dirty or already on the disk. */
    ghost predicate Faithful()
      reads this, disk, frames
    {
      Coherent(frames[..], table, disk.file)
    }

    /** The page that makes way is the one unused the longest: after its last use every other one it could have been was used. */
    lemma LongestUnused(p: nat, q: nat)
      requires Valid() && IsLru(frames[..], table, replacer.history, p)
      requires q in table && table[q] < frames.Length && frames[table[q]].pins == 0 && q != p
      ensures var h := replacer.history;
              exists i :: 0 <= i < |h| && h[i] == Recorded(q) && forall j :: i <= j < |h| ==> h[j] != Recorded(p)
    {
      hide Accounted;
      hide DiskManager.Valid;
      hide BufferReplacer.Indexed;
      var h := replacer.history;
      assert p in replacer.Order() && q in replacer.Order();
      LastUseIs(h, p, LastUse(h, p));
      LastUseIs(h, q, LastUse(h, q));
      assert h[LastUse(h, q)] == Recorded(q);
    }

    /** A free frame, a frame never used, or the frame of the least recently used unpinned page. */
    method FindNextFrame() returns (r: Option<nat>)
      requires Valid()
      modifies this`free, this`size
      ensures r.None? <==> AllPinned(frames[..])
      ensures r.None? ==> Valid() && free == old(free) && size == old(size)
      ensures r.Some? ==> Offered(r.value) && (frames[r.value] == BLANK <==> old(free != [] || size < frames.Length))
      ensures old(free) != [] ==> r.Some? && free + [r.value] == old(free) && size == old(size)
      ensures old(free == [] && size < frames.Length) ==> r == Some(old(size)) && size == old(size) + 1 && free == []
    {
      hide Accounted;
      hide BufferReplacer.Valid;
      hide DiskManager.Valid;
      SizeFits();
      if free != [] {
        PopFree(frames[..], table, free, size);
        r := Some(free[|free| - 1]);
        free := free[..|free| - 1];
        return;
      }
      if size < frames.Length {
        Grow(frames[..], table, free, size);
        size := size + 1;
        return Some(size - 1);
      }
      var p := replacer.FindLru(frames, table);
      if p.Some? {
        Entry(frames[..], table, free, size, p.value);
        return Some(table[p.value]);
      }
      AllTaken(frames[..], table, free, size);
      return None;
    }

    lemma Cached(f: nat)
      requires Offered(f)
      ensures frames[f].id == INVALID_PAGE_ID <==> frames[f] == BLANK
      ensures frames[f] == BLANK ==> INVALID_PAGE_ID !in table && Sound(Some(f))
      ensures frames[f] != BLANK ==>
                frames[f].pins == 0 && frames[f].id < disk.capacity && Valid() && Mapped(frames[..], table, f)
    {
    }

    /** Takes the page out of frame `f`, writing it back if it is dirty. */
    method Vacate(f: nat)
      requires Offered(f)
      modifies this`table, replacer, disk`file
      ensures Sound(Some(f)) && table == old(table) - {frames[f].id}
      ensures disk.live == old(disk.live)
      ensures replacer.history ==
              if frames[f] == BLANK then old(replacer.history) else old(replacer.history) + [Removed(frames[f].id)]
      ensures forall q :: PageAt(disk.file, q) ==
                          if frames[f].dirty && q == frames[f].id then frames[f].data else PageAt(old(disk.file), q)
    {
      hide PageAt;
      hide Accounted;
      hide BufferReplacer.Valid;
      hide DiskManager.Valid;
      hide Without;
      Cached(f);
      var p := frames[f].id;
      if p != INVALID_PAGE_ID {
        Unmap(frames[..], table, free, size, p);
        WithoutMembers(replacer.Order(), p);
        table := table - {p};
        replacer.Remove(p);
      } else {
        assert table - {p} == table;
      }
      if frames[f].dirty {
        var ok := disk.WritePage(p, frames[f].data);
        assert ok;
      }
    }

    /** Maps page `id` to frame `f`, pinned once. */
    method Occupy(f: nat, id: nat, readFromDisk: bool)
      requires f < frames.Length && Sound(Some(f)) && id !in table && id in disk.live
      modifies this`table, replacer, frames
      ensures Valid() && table == old(table)[id := f]
      ensures var bytes := if readFromDisk then PageAt(disk.file, id) else Zeros(PAGE_SIZE);
              frames[..] == old(frames[..])[f := Frame(id, bytes, 1, false)]
      ensures replacer.history == old(replacer.history) + [Recorded(id)]
    {
      hide PageAt;
      hide Accounted;
      hide BufferReplacer.Valid;
      hide Without;
      ghost var before := frames[..];
      WithoutMembers(replacer.Order(), id);
      table := table[id := f];
      frames[f] := Frame(id, Zeros(PAGE_SIZE), 0, false);
      frames[f] := frames[f].(pins := Inc(frames[f].pins));
      replacer.Record(id);
      if readFromDisk {
        var page := disk.ReadPage(id);
        frames[f] := frames[f].(data := page.value);
      }
      assert frames[..] == before[f := frames[f]];
      Install(before, old(table), free, size, f, frames[f]);
    }

    /** Brings page `id` into a frame; null exactly when every frame is pinned, and then nothing has changed. */
    method SwapPage(id: nat, readFromDisk: bool) returns (f: Option<nat>)
      requires Valid() && id !in table && id in disk.live
      modifies this, replacer, frames, disk`file
      ensures Valid() && disk.live == old(disk.live)
      ensures f.None? <==> AllPinned(old(frames[..]))
      ensures f.None? ==> frames[..] == old(frames[..]) && table == old(table) && disk.file == old(disk.file)
      ensures f.None? ==> replacer.history == old(replacer.history)
      ensures f.Some? ==> Used(old(replacer.history), replacer.history, id)
      ensures f.Some? ==> f.value < frames.Length && Swapped(
          old(frames[..]), old(table), old(disk.file), f.value,
          Frame(id, if readFromDisk then PageAt(old(disk.file), id) else Zeros(PAGE_SIZE), 1, false),
          frames[..], table, disk.file)
      ensures f.Some? ==> (old(frames[..])[f.value] == BLANK <==> old(free != [] || size < frames.Length))
      ensures f.Some? && old(frames[..])[f.value] != BLANK ==>
          IsLru(old(frames[..]), old(table), old(replacer.history), old(frames[..])[f.value].id)
    {
      hide PageAt;
      hide Accounted;
      hide BufferReplacer.Valid;
      hide BufferReplacer.Order;
      hide DiskManager.Valid;
      hide IsLru;
      f := FindNextFrame();
      if f.None? {
        return;
      }
      Cached(f.value);
      Vacate(f.value);
      Occupy(f.value, id, readFromDisk);
    }

    /** Pins page `id` if it is cached. */
    method FindCachedPage(id: nat) returns (f: Option<nat>)
      requires Valid()
      modifies replacer, frames
      ensures Valid()
      ensures f == if id in table then Some(table[id]) else None
      ensures f.None? ==> frames[..] == old(frames[..]) && replacer.history == old(replacer.history)
      ensures f.Some? ==> replacer.history == old(replacer.history) + [Recorded(id)]
      ensures f.Some? ==>
                var frame := old(frames[..])[f.value];
                frames[..] == old(frames[..])[f.value := frame.(pins := Inc(frame.pins))]
    {
      hide Accounted;
      hide BufferReplacer.Valid;
      hide Without;
      if id !in table {
        return None;
      }
      Entry(frames[..], table, free, size, id);
      ghost var before := frames[..];
      f := Some(table[id]);
      frames[f.value] := frames[f.value].(pins := Inc(frames[f.value].pins));
      Touch(before, table, free, size, id, frames[f.value]);
      WithoutMembers(replacer.Order(), id);
      replacer.Record(id);
    }

    /**
     * Pins a page, cached or brought in. Null exactly when it is not cached and every frame is pinned. `gone` is the
     * page that made way, if any.
     */
    method FetchPage(id: nat) returns (f: Option<nat>, ghost gone: set<nat>)
      requires Valid() && id in disk.live
      modifies this, replacer, frames, disk`file
      ensures Valid() && disk.live == old(disk.live)
      ensures f.None? <==> id !in old(table) && AllPinned(old(frames[..]))
      ensures f.None? ==> table == old(table)
      ensures if f.Some? then Used(old(replacer.history), replacer.history, id)
              else replacer.history == old(replacer.history) && gone == {}
      ensures f.Some? ==> id in table && table[id] == f.value && f.value < frames.Length
      ensures f.Some? && id in old(table) ==> frames[f.value].pins == Inc(old(frames[table[id]].pins)) && gone == {}
      ensures f.Some? && id !in old(table) ==> frames[f.value].pins == 1
      ensures f.Some? && id !in old(table) ==>
                Chosen(old(frames[..]), old(table), old(free), old(size), old(replacer.history), f.value, gone)
      ensures frames[..] == if f.None? then old(frames[..]) else old(frames[..])[f.value := frames[f.value]]
      ensures PinsHeld(old(frames[..]), old(table), frames[..], table, id)
      ensures Fades(old(frames[..]), old(table), old(disk.file), frames[..], table, disk.file, gone, id)
      ensures Shows(id) == old(Shows(id)) && |gone| <= 1
      ensures old(Faithful()) ==> forall q :: Shows(q) == old(Shows(q))
      ensures old(Faithful()) && (f.Some? ==> frames[f.value].pins != 0) ==> Faithful()
    {
      hide Accounted;
      hide BufferReplacer.Valid;
      hide BufferReplacer.Order;
      hide DiskManager.Valid;
      hide IsLru;
      hide Chosen;
      hide PageAt;
      hide PinsHeld;
      hide Fades;
      hide Coherent;
      gone := {};
      f := FindCachedPage(id);
      if f.Some? {
        Entry(old(frames[..]), table, free, size, id);
        TouchViews(old(frames[..]), table, free, size, id, frames[f.value], disk.file);
        PinnedAgain(old(frames[..]), table, free, size, id, frames[f.value], disk.file);
        return;
      }
      NothingFades(frames[..], table, disk.file, id);
      f := SwapPage(id, true);
      if f.Some? {
        gone := Victim(old(frames[..]), f.value);
        IsChosen(old(frames[..]), old(table), old(free), old(size), old(replacer.history), f.value, gone);
        SwappedViews(old(frames[..]), old(table), old(disk.file), f.value, frames[f.value], frames[..], table, disk.file,
          old(free), old(size), id);
        SwappedFades(old(frames[..]), old(table), old(disk.file), f.value, frames[f.value], frames[..], table, disk.file,
          old(free), old(size));
        SwappedPinned(old(frames[..]), old(table), old(disk.file), f.value, frames[f.value], frames[..], table, disk.file,
          old(free), old(size));
      }
      if f.Some? && old(Faithful()) {
        SwappedKeeps(old(frames[..]), old(table), old(disk.file), f.value, frames[f.value], frames[..], table, disk.file,
          old(free), old(size));
      }
    }

    /** A zeroed, pinned page under an id no one holds; the id is spent even when every frame is pinned. */
    method NewPage() returns (id: nat, f: Option<nat>, ghost gone: set<nat>)
      requires Valid() && (disk.capacity < INVALID_PAGE_ID || disk.freeList != [])
      modifies this, replacer, frames, disk
      ensures Valid() && id !in old(disk.live) && disk.live == old(disk.live) + {id} && id < INVALID_PAGE_ID
      ensures f.None? <==> AllPinned(old(frames[..]))
      ensures id !in old(table) && (f.None? ==> table == old(table))
      ensures if f.Some? then Used(old(replacer.history), replacer.history, id)
              else replacer.history == old(replacer.history) && gone == {}
      ensures f.Some? ==> id in table && table[id] == f.value && f.value < frames.Length
      ensures f.Some? ==> frames[f.value].pins == 1 && Shows(id) == Zeros(PAGE_SIZE) && !Dirty(id)
      ensures f.Some? ==>
                Chosen(old(frames[..]), old(table), old(free), old(size), old(replacer.history), f.value, gone)
      ensures frames[..] == if f.None? then old(frames[..]) else old(frames[..])[f.value := frames[f.value]]
      ensures if old(disk.freeList) == [] then id == old(disk.capacity) && disk.capacity == id + 1 && disk.freeList == []
              else disk.freeList + [id] == old(disk.freeList) && disk.capacity == old(disk.capacity)
      ensures PinsHeld(old(frames[..]), old(table), frames[..], table, id)
      ensures Fades(old(frames[..]), old(table), old(disk.file), frames[..], table, disk.file, gone, id) && |gone| <= 1
      ensures old(Faithful()) ==> Faithful() && forall q :: q != id ==> Shows(q) == old(Shows(q))
    {
      hide Accounted;
      hide BufferReplacer.Valid;
      hide BufferReplacer.Order;
      hide DiskManager.Valid;
      hide IsLru;
      hide Chosen;
      hide PageAt;
      hide PinsHeld;
      hide Fades;
      hide Coherent;
      gone := {};
      LiveBelow();
      id := disk.AllocatePage();
      LiveBelow();
      NothingFades(frames[..], table, disk.file, id);
      f := SwapPage(id, false);
      if f.Some? {
        gone := Victim(old(frames[..]), f.value);
        IsChosen(old(frames[..]), old(table), old(free), old(size), old(replacer.history), f.value, gone);
        SwappedFades(old(frames[..]), old(table), old(disk.file), f.value, frames[f.value], frames[..], table, disk.file,
          old(free), old(size));
        SwappedPinned(old(frames[..]), old(table), old(disk.file), f.value, frames[f.value], frames[..], table, disk.file,
          old(free), old(size));
        SwappedViews(old(frames[..]), old(table), old(disk.file), f.value, frames[f.value], frames[..], table, disk.file,
          old(free), old(size), id);
        if old(Faithful()) {
          SwappedKeeps(old(frames[..]), old(table), old(disk.file), f.value, frames[f.value], frames[..], table, disk.file,
            old(free), old(size));
        }
      }
    }

    lemma LiveBelow()
      requires disk.Valid()
      ensures forall p :: p in disk.live ==> p < disk.capacity <= INVALID_PAGE_ID
    {
    }

    /** A client's change to the bytes of a page it holds pinned. */
    method Write(id: nat, image: Image)
      requires Valid() && id in table && frames[table[id]].pins != 0
      modifies frames
      ensures Valid() && (old(Faithful()) ==> Faithful())
      ensures forall q :: Shows(q) == if q == id then image else old(Shows(q))
      ensures frames[..] == old(frames[..])[table[id] := old(frames[table[id]]).(data := image)]
      ensures forall q :: Kept(q) == if q == id && Dirty(id) then image else old(Kept(q))
      ensures forall q :: Dirty(q) <==> old(Dirty(q))
      ensures PinsHeld(old(frames[..]), table, frames[..], table, id)
    {
      hide PageAt;
      hide Accounted;
      hide BufferReplacer.Valid;
      hide DiskManager.Valid;
      hide Coherent;
      Entry(frames[..], table, free, size, id);
      ghost var before := frames[..];
      var f := table[id];
      frames[f] := frames[f].(data := image);
      Touch(before, table, free, size, id, frames[f]);
      TouchViews(before, table, free, size, id, frames[f], disk.file);
      TouchKeeps(before, table, free, size, id, frames[f], disk.file);
    }

    /**
     * Drops one pin, marking the page dirty if it was changed. No page shows anything else;
     * but the last unpin of a changed page without the mark leaves the change to be lost.
     */
    method UnpinPage(id: nat, dirty: bool)
      requires Valid()
      modifies frames
      ensures Valid() && forall q :: Shows(q) == old(Shows(q))
      ensures id !in table ==> frames[..] == old(frames[..])
      ensures id in table ==>
                var frame := old(frames[table[id]]);
                frames[table[id]] == frame.(dirty := frame.dirty || dirty, pins := Dec(frame.pins))
      ensures id in table ==> frames[..] == old(frames[..])[table[id] := frames[table[id]]]
      ensures forall q :: Kept(q) == if q == id && id in table && dirty then Shows(id) else old(Kept(q))
      ensures forall q :: Dirty(q) <==> old(Dirty(q)) || (q == id && id in table && dirty)
      ensures PinsHeld(old(frames[..]), table, frames[..], table, id)
      ensures old(Faithful()) ==>
                (Faithful() <==> id in table ==>
                   frames[table[id]].pins != 0 || frames[table[id]].dirty || frames[table[id]].data == PageAt(disk.file, id))
    {
      hide PageAt;
      hide Accounted;
      hide BufferReplacer.Valid;
      hide DiskManager.Valid;
      hide Coherent;
      NothingFades(frames[..], table, disk.file, id);
      if id !in table {
        return;
      }
      Entry(frames[..], table, free, size, id);
      ghost var before := frames[..];
      var f := table[id];
      if dirty {
        frames[f] := frames[f].(dirty := true);
      }
      frames[f] := frames[f].(pins := Dec(frames[f].pins));
      assert frames[..] == before[f := frames[f]];
      Touch(before, table, free, size, id, frames[f]);
      TouchViews(before, table, free, size, id, frames[f], disk.file);
      TouchKeeps(before, table, free, size, id, frames[f], disk.file);
    }

    /** Drops an unpinned page and gives its id back to the disk. */
    method DeletePage(id: nat) returns (r: DeleteResult)
      requires Valid() && id in disk.live
      modifies this`table, this`free, replacer, frames, disk`freeList, disk`live
      ensures Valid()
      ensures r.Pinned? <==> id in old(table) && old(frames[table[id]].pins) != 0
      ensures r.Pinned? ==> frames[..] == old(frames[..]) && table == old(table) && disk.live == old(disk.live)
      ensures r.Refused? <==> id == 0 && !r.Pinned?
      ensures !r.Pinned? && id in old(table) ==> free == old(free) + [old(table)[id]]
      ensures !r.Pinned? && id in old(table) ==> frames[..] == old(frames[..])[old(table)[id] := BLANK]
      ensures !r.Pinned? && id !in old(table) ==> frames[..] == old(frames[..])
      ensures !r.Pinned? ==> table == old(table) - {id}
      ensures !r.Pinned? ==> disk.live == if id == 0 then old(disk.live) else old(disk.live) - {id}
      ensures disk.freeList ==
              if r.Deleted? && |old(disk.freeList)| <= FREE_LIST_LIMIT then old(disk.freeList) + [id] else old(disk.freeList)
      ensures forall q :: q != id ==> Shows(q) == old(Shows(q)) && Kept(q) == old(Kept(q)) && (Dirty(q) <==> old(Dirty(q)))
      ensures r.Pinned? ==> Shows(id) == old(Shows(id)) && Kept(id) == old(Kept(id)) && (Dirty(id) <==> old(Dirty(id)))
      ensures PinsHeld(old(frames[..]), old(table), frames[..], table, id)
      ensures old(Faithful()) ==> Faithful()
    {
      hide Accounted;
      hide BufferReplacer.Valid;
      hide PageAt;
      hide Without;
      hide PinsHeld;
      hide Fades;
      hide Coherent;
      hide View;
      hide Keeps;
      hide Marked;
      NothingFades(frames[..], table, disk.file, id);
      ghost var before := frames[..];
      if id in table {
        Entry(before, table, free, size, id);
        var f := table[id];
        if frames[f].pins > 0 {
          return Pinned;
        }
        Unmap(before, table, free, size, id);
        WithoutMembers(replacer.Order(), id);
        table := table - {id};
        replacer.Remove(id);
        frames[f] := BLANK;
        PutFree(before, table, free, size, f);
        free := free + [f];
        Dropped(before, old(table), old(free), size, id, disk.file);
      } else {
        assert table - {id} == table;
      }
      var ok := disk.DeallocatePage(id);
      r := if ok then Deleted else Refused;
    }

    /** Writes every dirty frame to the disk; the marks stay. */
    method FlushAll()
      requires Valid()
      modifies disk`file
      ensures Valid() && Flushed(frames[..], table, old(disk.file), disk.file, size)
      ensures forall q :: Shows(q) == old(Shows(q))
      ensures old(Faithful()) ==> Faithful()
      ensures old(Faithful()) ==>
                forall q :: (q in table ==> frames[table[q]].pins == 0) ==> PageAt(disk.file, q) == Shows(q)
      ensures forall q :: PageAt(disk.file, q) == old(Kept(q))
      ensures |disk.file| >= PAGE_SIZE <==> old(|disk.file| >= PAGE_SIZE || exists q :: Dirty(q))
    {
      hide PageAt;
      hide Accounted;
      hide BufferReplacer.Valid;
      hide DiskManager.Valid;
      hide Flushed;
      ghost var before := disk.file;
      SomeDirty();
      NothingFlushed(frames[..], table, before);
      SizeFits();
      var i := 0;
      while i < size
        invariant i <= size && Valid() && Flushed(frames[..], table, before, disk.file, i)
        invariant |disk.file| >= PAGE_SIZE <==> |before| >= PAGE_SIZE || exists f :: 0 <= f < i && frames[f].dirty
      {
        ghost var now := disk.file;
        if frames[i].dirty {
          DirtyIsMapped(frames[..], table, free, size, i);
          LiveBelow();
          var ok := disk.WritePage(frames[i].id, frames[i].data);
          assert ok;
        }
        FlushFrame(frames[..], table, free, size, before, now, disk.file, i);
        i := i + 1;
      }
      FlushedViews(frames[..], table, free, size, before, disk.file);
      FlushedKeeps(frames[..], table, free, size, before, disk.file);
    }

    lemma SomeDirty()
      ensures (exists q :: Dirty(q)) <==> exists q :: Marked(frames[..], table, q)
    {
      if q :| Marked(frames[..], table, q) {
        assert Dirty(q);
      }
    }

    lemma SizeFits()
      requires Valid()
      ensures size <= frames.Length
      ensures forall p :: p in table ==> table[p] < frames.Length && Mapped(frames[..], table, table[p])
    {
    }
  }
  /**
   * An orderly end and a new start: what the destructors of the pool and the disk manager write, and what their
   * constructors read. Every page shows what it kept, so an unpinned page shows what it showed; the allocator is
   * back exactly when the file has a whole page by then, or there was nothing to allocate.
   */
  method Shutdown(pool: BufferPoolManager, capacity: nat) returns (disk: DiskManager, next: BufferPoolManager)
    requires pool.Valid()
    modifies pool.disk`file
    ensures disk.Valid() && disk.accepted && next.Valid() && next.Faithful() && next.disk == disk
    ensures forall q :: q > 0 ==> next.Shows(q) == old(pool.Kept(q))
    ensures old(pool.Faithful()) ==>
              forall q :: q > 0 && (q in pool.table ==> pool.frames[pool.table[q]].pins == 0) ==> next.Shows(q) == old(pool.Shows(q))
    ensures (disk.capacity == pool.disk.capacity && disk.freeList == pool.disk.freeList) <==>
            old(|pool.disk.file| >= PAGE_SIZE || pool.disk.capacity == 1 || exists q :: pool.Dirty(q))
  {
    hide PageAt;
    hide Accounted;
    hide Coherent;
    hide BufferReplacer.Valid;
    hide DiskManager.Valid;
    pool.FlushAll();
    disk := Restart(pool.disk);
    next := new BufferPoolManager(disk, capacity);
  }
  lemma PinsAfter(frames: seq<Frame>, f: nat)
    requires f < |frames| && 0 < frames[f].pins < 0x1_0000_0000
    ensures forall frame: Frame :: frame.pins == Dec(frames[f].pins) ==>
              (AllPinned(frames[f := frame]) <==> AllPinned(frames) && frames[f].pins > 1)
  {
    forall frame: Frame | frame.pins == Dec(frames[f].pins) && AllPinned(frames[f := frame])
      ensures AllPinned(frames) && frames[f].pins > 1
    {
      assert frames[f := frame][f].pins != 0;
      forall g | 0 <= g < |frames|
        ensures frames[g].pins != 0
      {
        assert frames[f := frame][g].pins != 0;
      }
    }
  }

  /**
   * What a scan does when it moves on, and when it ends after it was refused: the page it held is given back twice.
   * It is refused only where others hold that page too, and then takes a pin of theirs: with one other holder the
   * page can be evicted while still in use, or, when that one lets go first (`early`), its frame is pinned for good.
   */
  method RefusedScan(pool: BufferPoolManager, held: nat, next: nat, early: bool) returns (refused: bool)
    requires pool.Valid() && held in pool.table && pool.table[held] < pool.frames.Length && next in pool.disk.live
    requires 0 < pool.frames[pool.table[held]].pins < 0x1_0000_0000
    modifies pool, pool.replacer, pool.frames, pool.disk`file
    ensures pool.Valid()
    ensures refused <==>
            next !in old(pool.table) && old(pool.frames[pool.table[held]].pins) > 1 && AllPinned(old(pool.frames[..]))
    ensures refused ==>
              && held in pool.table && pool.table[held] < pool.frames.Length
              && var pins := old(pool.frames[pool.table[held]].pins);
                 pool.frames[pool.table[held]].pins == if !early then pins - 2 else if pins > 2 then pins - 3 else 0xFFFF_FFFF
    ensures refused && old(pool.frames[pool.table[held]].pins) == 2 ==>
              (Evictable(pool.frames[..], pool.table, held) <==> !early)
  {
    hide Accounted;
    hide PageAt;
    hide Coherent;
    hide BufferReplacer.Valid;
    hide BufferPoolManager.Valid;
    hide PinsHeld;
    hide Fades;
    hide Chosen;
    PinsAfter(pool.frames[..], pool.table[held]);
    pool.UnpinPage(held, false);
    var frame, gone := pool.FetchPage(next);
    refused := frame.None?;
    if refused {
      if early {
        pool.UnpinPage(held, false);
      }
      pool.UnpinPage(held, false);
    }
  }
}
