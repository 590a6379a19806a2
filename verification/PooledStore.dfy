/** The buffer pool seen as the plain map of pages that heaps work on. */
module PooledStores {
  import opened Bytes
  import opened SlottedLayout
  import opened Replacer
  import opened Disk
  import opened BufferPool
  import opened PageStores

  ghost predicate AreIn(frames: seq<Frame>, table: Table, file: File, own: set<nat>, pages: View, kept: View,
                        dirty: set<nat>) {
    forall p :: p in own ==>
                  && p in pages && p in kept && BufferPool.View(frames, table, file, p) == pages[p]
                  && Keeps(frames, table, file, p) == kept[p] && (Marked(frames, table, p) <==> p in dirty)
  }

  /**
   * The methods do to what pages show and keep and to the dirty marks what those of the plain store do; a call is
   * refused when no frame is free, and `gone` is what it throws out: at most one page, and none that is held.
   */
  class PooledStore {
    const pool: BufferPoolManager
    /** The pages clients were given and have not deleted. */
    ghost var used: set<nat>

    constructor (pool: BufferPoolManager)
      requires pool.Valid()
      ensures Valid() && Pages() == map[] && this.pool == pool
    {
      this.pool, used := pool, {};
    }

    ghost predicate Valid()
      reads this, pool, pool.disk, pool.replacer, pool.frames
    {
      pool.Valid() && used <= pool.disk.live && 0 !in used
    }

    /** One image per page, wherever it is. */
    ghost function Pages(): (m: View)
      reads this, pool, pool.disk, pool.frames
      ensures m.Keys == used
    {
      map p | p in used :: pool.Shows(p)
    }

    /** What pages show once they left their frames. */
    ghost function Kept(): (m: View)
      reads this, pool, pool.disk, pool.frames
      ensures m.Keys == used
    {
      map p | p in used :: pool.Kept(p)
    }

    ghost function Dirty(): set<nat>
      reads this, pool, pool.frames
    {
      set p | p in used && pool.Dirty(p)
    }

    /** How often a page is held. */
    ghost function PinsOf(id: nat): nat
      reads pool, pool.frames
    {
      Pins(pool.frames[..], pool.table, id)
    }

    /** What every page shows and keeps, and whether it is marked. */
    ghost predicate Are(own: set<nat>, pages: View, kept: View, dirty: set<nat>)
      reads pool, pool.disk, pool.frames
    {
      forall p :: p in own ==>
                    && p in pages && p in kept && pool.Shows(p) == pages[p] && pool.Kept(p) == kept[p]
                    && (pool.Dirty(p) <==> p in dirty)
    }

    lemma TheyAre(pages: View, kept: View, dirty: set<nat>)
      requires Are(used, pages, kept, dirty) && pages.Keys == used && kept.Keys == used && dirty <= used
      ensures Pages() == pages && Kept() == kept && Dirty() == dirty
    {
    }

    lemma ShownOf(id: nat)
      requires id in used
      ensures Pages()[id] == pool.Shows(id)
    {
    }

    lemma AsTheyAre()
      ensures Are(used, Pages(), Kept(), Dirty()) && Dirty() <= used
    {
    }

    /** Pins a page and reads it; the page that makes way falls back to what it kept. */
    method Fetch(id: nat) returns (image: Option<Image>, ghost gone: set<nat>)
      requires Valid() && id in used && PinsOf(id) + 1 < 0x1_0000_0000
      modifies pool, pool.replacer, pool.frames, pool.disk`file
      ensures image.None? <==> id !in old(pool.table) && AllPinned(old(pool.frames[..]))
      ensures Pages() == Faded<Image>(old(Pages()), old(Kept()), gone)
      ensures Kept() == old(Kept()) && Dirty() == old(Dirty()) - gone
      ensures id !in gone && |gone| <= 1 && (image.None? ==> gone == {}) && forall p :: p in gone ==> old(PinsOf(p)) == 0
      ensures image.Some? ==> PinsOf(id) != 0 && image.value == Pages()[id]
      ensures forall p :: PinsOf(p) == old(PinsOf(p)) + if p == id && image.Some? then 1 else 0
      ensures Valid()
    {
      hide *;
      AsTheyAre();
      ghost var pages, kept, dirty := Pages(), Kept(), Dirty();
      var f;
      f, gone := Pin(id, pages, kept, dirty);
      TheyAre(Faded<Image>(pages, kept, gone), kept, dirty - gone);
      ShownOf(id);
      image := if f.None? then None else Some(pool.frames[f.value].data);
    }

    method Pin(id: nat, ghost pages: View, ghost kept: View, ghost dirty: set<nat>)
      returns (f: Option<nat>, ghost gone: set<nat>)
      requires Valid() && id in used && PinsOf(id) + 1 < 0x1_0000_0000
      requires Are(used, pages, kept, dirty) && pages.Keys == used && kept.Keys == used
      modifies pool, pool.replacer, pool.frames, pool.disk`file
      ensures f.None? <==> id !in old(pool.table) && AllPinned(old(pool.frames[..]))
      ensures id !in gone && |gone| <= 1 && (f.None? ==> gone == {}) && forall p :: p in gone ==> old(PinsOf(p)) == 0
      ensures Are(used, Faded<Image>(pages, kept, gone), kept, dirty - gone)
      ensures f.Some? ==>
                && f.value < pool.frames.Length && PinsOf(id) != 0 && id in used
                && pool.frames[f.value].data == pool.Shows(id)
      ensures forall p :: PinsOf(p) == old(PinsOf(p)) + if p == id && f.Some? then 1 else 0
      ensures Valid()
    {
      hide *;
      IsValid();
      CachedFits(id);
      ghost var frames, table, file := pool.frames[..], pool.table, pool.disk.file;
      AreIs(frames, table, file, pages, kept, dirty);
      f, gone := pool.FetchPage(id);
      StillAre(frames, table, file, gone, id, pages, kept, dirty);
      PinsIs(frames, table, id);
      PinsIs(pool.frames[..], pool.table, id);
      OneMorePin(frames, table, id, if f.None? then 0 else 1);
      IsValid();
    }

    lemma AreIs(frames: seq<Frame>, table: Table, file: File, pages: View, kept: View, dirty: set<nat>)
      requires frames == pool.frames[..] && table == pool.table && file == pool.disk.file
      ensures Are(used, pages, kept, dirty) <==> AreIn(frames, table, file, used, pages, kept, dirty)
      ensures forall p :: pool.Shows(p) == BufferPool.View(frames, table, file, p) && PinsOf(p) == Pins(frames, table, p)
    {
      hide BufferPool.View;
      hide Keeps;
      hide Marked;
    }

    lemma PinsIs(frames: seq<Frame>, table: Table, id: nat)
      ensures Pins(frames, table, id) == if id in table && table[id] < |frames| then frames[table[id]].pins else 0
      ensures frames == pool.frames[..] && table == pool.table ==> PinsOf(id) == Pins(frames, table, id)
      ensures id in pool.table && pool.table[id] < pool.frames.Length ==> pool.Shows(id) == pool.frames[pool.table[id]].data
    {
    }

    lemma StillAre(frames: seq<Frame>, table: Table, file: File, gone: set<nat>, id: nat, pages: View, kept: View,
                   dirty: set<nat>)
      requires AreIn(frames, table, file, used, pages, kept, dirty) && pages.Keys == used && kept.Keys == used && id in used
      requires Fades(frames, table, file, pool.frames[..], pool.table, pool.disk.file, gone, id)
      requires pool.Shows(id) == BufferPool.View(frames, table, file, id)
      ensures Are(used, Faded<Image>(pages, kept, gone), kept, dirty - gone)
      ensures id !in gone && forall p :: p in gone ==> Pins(frames, table, p) == 0
    {
      hide BufferPool.View;
      hide Keeps;
      hide Marked;
    }

    lemma OneMorePin(frames: seq<Frame>, table: Table, id: nat, more: nat)
      requires PinsHeld(frames, table, pool.frames[..], pool.table, id) && PinsOf(id) == Pins(frames, table, id) + more
      ensures forall p :: PinsOf(p) == Pins(frames, table, p) + if p == id then more else 0
    {
      hide Pins;
    }

    /** Writes the bytes of a held page and lets go of it, marked dirty. */
    method Unpin(id: nat, image: Image)
      requires Valid() && id in used && PinsOf(id) != 0
      modifies pool.frames
      ensures Pages() == old(Pages())[id := image] && Kept() == old(Kept())[id := image] && Dirty() == old(Dirty()) + {id}
      ensures forall p :: PinsOf(p) == if p == id then Dec(old(PinsOf(id))) else old(PinsOf(p))
      ensures Valid()
    {
      hide *;
      AsTheyAre();
      ghost var pages, kept, dirty := Pages(), Kept(), Dirty();
      LetGo(id, image, true, pages, kept, dirty);
      TheyAre(pages[id := image], kept[id := image], dirty + {id});
    }

    /** The same without the mark: the page shows the change, but keeps it only if the frame was marked before. */
    method UnpinUnmarked(id: nat, image: Image)
      requires Valid() && id in used && PinsOf(id) != 0
      modifies pool.frames
      ensures Pages() == old(Pages())[id := image] && Dirty() == old(Dirty())
      ensures Kept() == if id in Dirty() then old(Kept())[id := image] else old(Kept())
      ensures forall p :: PinsOf(p) == if p == id then Dec(old(PinsOf(id))) else old(PinsOf(p))
      ensures Valid()
    {
      hide *;
      AsTheyAre();
      ghost var pages, kept, dirty := Pages(), Kept(), Dirty();
      LetGo(id, image, false, pages, kept, dirty);
      TheyAre(pages[id := image], if id in dirty then kept[id := image] else kept, dirty);
    }

    method LetGo(id: nat, image: Image, mark: bool, ghost pages: View, ghost kept: View, ghost dirty: set<nat>)
      requires Valid() && id in used && PinsOf(id) != 0
      requires Are(used, pages, kept, dirty)
      modifies pool.frames
      ensures Are(used, pages[id := image], if mark || id in dirty then kept[id := image] else kept,
                  if mark then dirty + {id} else dirty)
      ensures forall p :: PinsOf(p) == if p == id then Dec(old(PinsOf(id))) else old(PinsOf(p))
      ensures Valid()
    {
      hide *;
      PutTwice(kept, id, image, image);
      PutAt(pages, id, image);
      Overwrite(id, image, pages, kept, dirty);
      DropPin(id, mark, pages[id := image], if id in dirty then kept[id := image] else kept, dirty);
    }

    method Overwrite(id: nat, image: Image, ghost pages: View, ghost kept: View, ghost dirty: set<nat>)
      requires Valid() && id in used && PinsOf(id) != 0 && Are(used, pages, kept, dirty)
      modifies pool.frames
      ensures Are(used, pages[id := image], if id in dirty then kept[id := image] else kept, dirty)
      ensures forall p :: PinsOf(p) == old(PinsOf(p))
      ensures Valid()
    {
      hide Accounted;
      hide Coherent;
      hide BufferPoolManager.Valid;
      hide BufferReplacer.Valid;
      hide BufferReplacer.Order;
      hide PageAt;
      CachedFits(id);
      pool.Write(id, image);
    }

    method DropPin(id: nat, mark: bool, ghost pages: View, ghost kept: View, ghost dirty: set<nat>)
      requires Valid() && id in used && PinsOf(id) != 0 && Are(used, pages, kept, dirty)
      modifies pool.frames
      ensures Are(used, pages, if mark then kept[id := pages[id]] else kept, if mark then dirty + {id} else dirty)
      ensures forall p :: PinsOf(p) == if p == id then Dec(old(PinsOf(id))) else old(PinsOf(p))
      ensures Valid()
    {
      hide Accounted;
      hide Coherent;
      hide BufferPoolManager.Valid;
      hide BufferReplacer.Valid;
      hide BufferReplacer.Order;
      hide PageAt;
      CachedFits(id);
      pool.UnpinPage(id, mark);
    }

    /** A zeroed page under an id no page has; without a frame nothing changes. */
    method NewPage() returns (id: nat, image: Option<Image>, ghost gone: set<nat>)
      requires Valid() && (pool.disk.capacity < INVALID_PAGE_ID || pool.disk.freeList != [])
      modifies this`used, pool, pool.replacer, pool.frames, pool.disk
      ensures id !in old(Pages()) && id < INVALID_PAGE_ID && used == if image.None? then old(used) else old(used) + {id}
      ensures image.None? <==> AllPinned(old(pool.frames[..]))
      ensures image.None? ==> gone == {} && Pages() == old(Pages()) && Kept() == old(Kept()) && Dirty() == old(Dirty())
      ensures |gone| <= 1 && forall p :: p in gone ==> old(PinsOf(p)) == 0
      ensures image.Some? ==> image.value == Zeros(PAGE_SIZE) && PinsOf(id) != 0
      ensures image.Some? ==> Pages() == Faded<Image>(old(Pages()), old(Kept()), gone)[id := Zeros(PAGE_SIZE)]
      ensures image.Some? ==> Kept() == old(Kept())[id := Kept()[id]] && Dirty() == old(Dirty()) - gone
      ensures if old(pool.disk.freeList) == []
              then id == old(pool.disk.capacity) && pool.disk.capacity == id + 1 && pool.disk.freeList == []
              else pool.disk.freeList + [id] == old(pool.disk.freeList) && pool.disk.capacity == old(pool.disk.capacity)
      ensures forall p :: PinsOf(p) == if p == id && image.Some? then 1 else old(PinsOf(p))
      ensures old(PinsOf(id)) == 0
      ensures Valid()
    {
      hide *;
      AsTheyAre();
      ghost var pages, kept, dirty := Pages(), Kept(), Dirty();
      var f;
      id, f, gone := Allocate(pages, kept, dirty);
      image := None;
      if f.Some? {
        image := Some(Zeros(PAGE_SIZE));
        OneMore(used, Faded<Image>(pages, kept, gone), kept, dirty - gone, id);
        used := used + {id};
        TheyAre(Faded<Image>(pages, kept, gone)[id := Zeros(PAGE_SIZE)], kept[id := pool.Kept(id)], dirty - gone);
      } else {
        NoneFaded(pages, kept);
        assert dirty - gone == dirty;
        TheyAre(pages, kept, dirty);
      }
      IsValid();
    }

    lemma NoneFaded(pages: View, kept: View)
      ensures Faded<Image>(pages, kept, {}) == pages
    {
    }

    lemma IsValid()
      ensures Valid() <==> pool.Valid() && used <= pool.disk.live && 0 !in used
    {
    }

    lemma OneMore(own: set<nat>, pages: View, kept: View, dirty: set<nat>, id: nat)
      requires Are(own, pages, kept, dirty) && pool.Shows(id) == Zeros(PAGE_SIZE) && !pool.Dirty(id) && id !in dirty
      ensures Are(own + {id}, pages[id := Zeros(PAGE_SIZE)], kept[id := pool.Kept(id)], dirty)
    {
    }

    /** The pool's new page, not yet counted among those in use. */
    method Allocate(ghost pages: View, ghost kept: View, ghost dirty: set<nat>)
      returns (id: nat, f: Option<nat>, ghost gone: set<nat>)
      requires Valid() && (pool.disk.capacity < INVALID_PAGE_ID || pool.disk.freeList != [])
      requires Are(used, pages, kept, dirty) && pages.Keys == used && kept.Keys == used && dirty <= used
      modifies pool, pool.replacer, pool.frames, pool.disk
      ensures id in pool.disk.live && id !in used && id < INVALID_PAGE_ID && id != 0
      ensures f.None? <==> AllPinned(old(pool.frames[..]))
      ensures |gone| <= 1 && (f.None? ==> gone == {}) && forall p :: p in gone ==> old(PinsOf(p)) == 0
      ensures f.Some? ==> PinsOf(id) != 0 && pool.Shows(id) == Zeros(PAGE_SIZE) && !pool.Dirty(id)
      ensures Are(used, Faded<Image>(pages, kept, gone), kept, dirty - gone)
      ensures if old(pool.disk.freeList) == []
              then id == old(pool.disk.capacity) && pool.disk.capacity == id + 1 && pool.disk.freeList == []
              else pool.disk.freeList + [id] == old(pool.disk.freeList) && pool.disk.capacity == old(pool.disk.capacity)
      ensures forall p :: PinsOf(p) == if p == id && f.Some? then 1 else old(PinsOf(p))
      ensures old(PinsOf(id)) == 0
      ensures Valid() && pool.Valid() && used <= pool.disk.live && 0 !in used
    {
      hide *;
      IsValid();
      ZeroIsLive();
      AllCachedFit();
      ghost var frames, table, file := pool.frames[..], pool.table, pool.disk.file;
      AreIs(frames, table, file, pages, kept, dirty);
      id, f, gone := pool.NewPage();
      OthersAre(frames, table, file, gone, id, pages, kept, dirty);
      PinsIs(frames, table, id);
      PinsIs(pool.frames[..], pool.table, id);
      OneMorePin(frames, table, id, if f.None? then 0 else 1);
      IsValid();
    }

    lemma OthersAre(frames: seq<Frame>, table: Table, file: File, gone: set<nat>, id: nat, pages: View, kept: View,
                    dirty: set<nat>)
      requires AreIn(frames, table, file, used, pages, kept, dirty) && pages.Keys == used && kept.Keys == used && id !in used
      requires Fades(frames, table, file, pool.frames[..], pool.table, pool.disk.file, gone, id) && dirty <= used
      ensures Are(used, Faded<Image>(pages, kept, gone), kept, dirty - gone)
      ensures forall p :: p in gone ==> Pins(frames, table, p) == 0
    {
      hide BufferPool.View;
      hide Keeps;
      hide Marked;
    }

    lemma ZeroIsLive()
      requires Valid()
      ensures 0 in pool.disk.live
    {
    }

    method DeletePage(id: nat) returns (ok: bool)
      requires Valid() && id in used
      modifies this`used, pool`table, pool`free, pool.replacer, pool.frames, pool.disk`freeList, pool.disk`live
      ensures ok <==> old(PinsOf(id)) == 0
      ensures Pages() == (if ok then old(Pages()) - {id} else old(Pages()))
      ensures Kept() == (if ok then old(Kept()) - {id} else old(Kept()))
      ensures Dirty() == (if ok then old(Dirty()) - {id} else old(Dirty()))
      ensures pool.disk.freeList ==
              if ok && |old(pool.disk.freeList)| <= FREE_LIST_LIMIT then old(pool.disk.freeList) + [id]
              else old(pool.disk.freeList)
      ensures forall p :: PinsOf(p) == old(PinsOf(p))
      ensures Valid()
    {
      hide *;
      AsTheyAre();
      ghost var pages, kept, dirty := Pages(), Kept(), Dirty();
      var r := Free(id, pages, kept, dirty);
      ok := !r.Pinned?;
      if ok {
        OneLess(used - {id}, pages, kept, dirty, id);
        used := used - {id};
        TheyAre(pages - {id}, kept - {id}, dirty - {id});
      } else {
        TheyAre(pages, kept, dirty);
      }
      IsValid();
    }

    lemma OneLess(own: set<nat>, pages: View, kept: View, dirty: set<nat>, id: nat)
      requires Are(own, pages, kept, dirty) && id !in own
      ensures Are(own, pages - {id}, kept - {id}, dirty - {id})
    {
    }

    /** The pool's deletion, the page still counted among those in use. */
    method Free(id: nat, ghost pages: View, ghost kept: View, ghost dirty: set<nat>) returns (r: DeleteResult)
      requires Valid() && id in used && Are(used, pages, kept, dirty)
      modifies pool`table, pool`free, pool.replacer, pool.frames, pool.disk`freeList, pool.disk`live
      ensures pool.Valid() && 0 !in used && (if r.Pinned? then used else used - {id}) <= pool.disk.live
      ensures r.Pinned? <==> old(PinsOf(id)) != 0
      ensures Are(used - {id}, pages, kept, dirty)
      ensures r.Pinned? ==> Are(used, pages, kept, dirty)
      ensures pool.disk.freeList ==
              if !r.Pinned? && |old(pool.disk.freeList)| <= FREE_LIST_LIMIT then old(pool.disk.freeList) + [id]
              else old(pool.disk.freeList)
      ensures forall p :: PinsOf(p) == old(PinsOf(p))
    {
      hide Accounted;
      hide BufferPoolManager.Valid;
      hide Coherent;
      hide PageAt;
      CachedFits(id);
      r := pool.DeletePage(id);
    }

    lemma CachedFits(id: nat)
      requires Valid()
      ensures pool.Valid()
      ensures id in pool.table ==> pool.table[id] < pool.frames.Length
    {
      pool.SizeFits();
    }

    lemma AllCachedFit()
      requires Valid()
      ensures forall p :: p in pool.table ==> pool.table[p] < pool.frames.Length
    {
      pool.SizeFits();
    }

    /**
     * The calls with which an insertion appends a page: the last page is held while a new one is created and given
     * back, then it is given back itself, linked to the new one. Neither call that may throw pages out touches it.
     */
    method Append(last: nat, empty: Image, link: (Image, nat) -> Image) returns (id: Option<nat>, ghost gone: set<nat>)
      requires Valid() && last in used && PinsOf(last) + 1 < 0x1_0000_0000
      requires pool.disk.capacity < INVALID_PAGE_ID || pool.disk.freeList != []
      modifies this`used, pool, pool.replacer, pool.frames, pool.disk
      ensures last !in gone && last in old(Pages()) && Kept().Keys == Pages().Keys
      ensures id.Some? ==>
                && id.value !in old(Pages()) && Dirty() == old(Dirty()) - gone + {id.value, last}
                && Pages() == Faded<Image>(old(Pages()), old(Kept()), gone)[id.value := empty][last := link(old(Pages())[last], id.value)]
                && Kept() == old(Kept())[id.value := empty][last := link(old(Pages())[last], id.value)]
      ensures id.None? ==>
                Pages() == Faded<Image>(old(Pages()), old(Kept()), gone) && Kept() == old(Kept()) && Dirty() == old(Dirty()) - gone
      ensures forall p :: PinsOf(p) == old(PinsOf(p))
      ensures Valid()
    {
      hide *;
      KeysAre();
      ghost var pages, kept := Pages(), Kept();
      var held;
      held, gone := Fetch(last);
      KeysAre();
      OnePinLess(old(PinsOf(last)));
      if held.None? {
        return None, gone;
      }
      FadedAt(pages, kept, gone, last);
      ghost var gone';
      id, gone' := AppendHeld(last, held.value, empty, link);
      FadedTwice(pages, kept, gone, gone');
      gone := gone + gone';
      NoneFaded(Faded<Image>(pages, kept, gone), kept);
    }

    /** The part of it after the last page was fetched. */
    method AppendHeld(last: nat, held: Image, empty: Image, link: (Image, nat) -> Image) returns (id: Option<nat>, ghost gone: set<nat>)
      requires Valid() && last in used && PinsOf(last) != 0 && held == Pages()[last]
      requires pool.disk.capacity < INVALID_PAGE_ID || pool.disk.freeList != []
      modifies this`used, pool, pool.replacer, pool.frames, pool.disk
      ensures last !in gone && Kept().Keys == Pages().Keys
      ensures id.Some? ==>
                && id.value !in old(Pages()) && Dirty() == old(Dirty()) - gone + {id.value, last}
                && Pages() == Faded<Image>(old(Pages()), old(Kept()), gone)[id.value := empty][last := link(held, id.value)]
                && Kept() == old(Kept())[id.value := empty][last := link(held, id.value)]
      ensures id.None? ==> gone == {} && Pages() == old(Pages()) && Kept() == old(Kept()) && Dirty() == old(Dirty())
      ensures forall p :: PinsOf(p) == if p == last then Dec(old(PinsOf(last))) else old(PinsOf(p))
      ensures Valid()
    {
      hide *;
      KeysAre();
      ghost var pages, kept := Pages(), Kept();
      var newId, image;
      newId, image, gone := NewPage();
      KeysAre();
      OnePinLess(0);
      if image.None? {
        if last in Dirty() {
          DirtyKept(last);
        }
        SameAt(Pages(), last);
        SameAt(Kept(), last);
        UnpinUnmarked(last, held);
        return None, gone;
      }
      PutTwice(Faded<Image>(pages, kept, gone), newId, Zeros(PAGE_SIZE), empty);
      PutTwice(kept, newId, Kept()[newId], empty);
      Unpin(newId, empty);
      Unpin(last, link(held, newId));
      id := Some(newId);
      KeysAre();
    }

    lemma OnePinLess(n: nat)
      requires n + 1 < 0x1_0000_0000
      ensures Dec(n + 1) == n
    {
    }

    lemma FadedAt(pages: View, kept: View, gone: set<nat>, id: nat)
      requires id in pages && id !in gone
      ensures Faded<Image>(pages, kept, gone)[id] == pages[id]
    {
    }

    lemma DirtyKept(id: nat)
      requires id in Dirty()
      ensures Pages()[id] == Kept()[id]
    {
    }

    lemma SameAt(m: View, id: nat)
      requires id in m
      ensures m[id := m[id]] == m
    {
    }

    lemma PutAt(m: View, id: nat, x: Image)
      ensures m[id := x][id] == x
    {
    }

    lemma PutTwice(m: View, id: nat, x: Image, y: Image)
      ensures m[id := x][id := y] == m[id := y]
    {
    }

    lemma KeysAre()
      requires Valid()
      ensures Pages().Keys == used == Kept().Keys
      ensures pool.disk.Valid() && 0 !in used
    {
    }

    lemma FadedTwice(pages: View, kept: View, gone: set<nat>, gone': set<nat>)
      requires kept.Keys == pages.Keys
      ensures Faded<Image>(Faded<Image>(pages, kept, gone), kept, gone') == Faded<Image>(pages, kept, gone + gone')
    {
    }
  }
}
