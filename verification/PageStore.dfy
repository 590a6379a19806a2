/** What the buffer pool shows its clients: one page image per allocated page id. */
module PageStores {
  import opened Bytes
  import opened SlottedLayout

  type View = map<nat, Image>

  /** What every page shows now, and what it would show if it left its frame. */
  datatype Views = Views(shown: View, kept: View)

  /** The entries of `now`, except that the keys in `gone` have fallen back to what was kept. */
  function Faded<T>(now: map<nat, T>, kept: map<nat, T>, gone: set<nat>): (r: map<nat, T>)
    ensures r.Keys == now.Keys
  {
    map id | id in now :: if id in gone && id in kept then kept[id] else now[id]
  }

  /**
   * Call number `n` is refused exactly when `starved(n)`: no free frame, or a page to delete that is pinned.
   * To pin a page it may throw the pages `evicts(n)` out of their frames; a page whose frame is not marked dirty
   * then falls back to what it was when last saved. Ids given back are handed out before new ones, and show
   * `leftover(n)` until they are first saved.
   */
  class PageStore {
    var pages: View
    var kept: View
    var dirty: set<nat>
    var nextId: nat
    var spare: seq<nat>
    var calls: nat
    const starved: nat -> bool
    const evicts: nat -> set<nat>
    const leftover: nat -> Image

    constructor (starved: nat -> bool, evicts: nat -> set<nat>, leftover: nat -> Image)
      ensures Valid() && pages == map[] && this.starved == starved && this.evicts == evicts
    {
      this.starved, this.evicts, this.leftover := starved, evicts, leftover;
      pages, kept, dirty, nextId, spare, calls := map[], map[], {}, 1, [], 0;
    }

    /** Over an allocator that has given ids out and back before. */
    constructor Over(nextId: nat, spare: seq<nat>, starved: nat -> bool, evicts: nat -> set<nat>, leftover: nat -> Image)
      requires nextId <= INVALID_PAGE_ID && Distinct(spare) && forall i :: 0 <= i < |spare| ==> spare[i] < nextId
      ensures Valid() && pages == map[] && kept == map[] && dirty == {} && calls == 0
      ensures this.nextId == nextId && this.spare == spare
      ensures this.starved == starved && this.evicts == evicts && this.leftover == leftover
    {
      this.starved, this.evicts, this.leftover := starved, evicts, leftover;
      pages, kept, dirty, this.nextId, this.spare, calls := map[], map[], {}, nextId, spare, 0;
    }

    ghost predicate Valid()
      reads this
    {
      && nextId <= INVALID_PAGE_ID && (forall id :: id in pages ==> id < nextId)
      && (forall i :: 0 <= i < |spare| ==> spare[i] < nextId && spare[i] !in pages)
      && (forall i, j :: 0 <= i < j < |spare| ==> spare[i] != spare[j])
      && kept.Keys == pages.Keys && (forall id :: id in dirty ==> id in pages && kept[id] == pages[id])
    }

    function Both(): Views
      reads this
    {
      Views(pages, kept)
    }

    /** The 32-bit page ids are not used up. */
    predicate CanAllocate()
      reads this
    {
      nextId < INVALID_PAGE_ID || spare != []
    }

    /** The id the next new page gets. */
    function NextNew(): nat
      reads this
    {
      if spare != [] then spare[|spare| - 1] else nextId
    }

    /** None of the `count` calls from number `from` on is refused. */
    predicate Serves(from: nat, count: nat) {
      forall n :: from <= n < from + count ==> !starved(n)
    }

    /** Of the calls from number `from` on, the first one refused is `n` calls behind it. */
    predicate FirstRefused(from: nat, n: nat) {
      Serves(from, n) && starved(from + n)
    }

    /** How many of the `count` calls from number `from` on go through before the first that is refused. */
    function Served(from: nat, count: nat): (r: nat)
      ensures r <= count && (r < count ==> starved(from + r)) && Serves(from, r)
      ensures r == count <==> Serves(from, count)
    {
      if count == 0 then 0
      else
        var r := Served(from, count - 1);
        if r < count - 1 || starved(from + count - 1) then r else count
    }

    lemma ServedIs(from: nat, count: nat, r: nat)
      requires r < count && FirstRefused(from, r)
      ensures Served(from, count) == r && !Serves(from, count)
    {
      hide Served;
    }

    /** No call from number `from` on found the pool full. */
    predicate NeverStarved(from: nat)
      reads this
    {
      forall n :: from <= n < calls ==> !starved(n)
    }

    /** The pages the next call throws out if it pins one, those in `held` being pinned. */
    function Gone(held: set<nat>): set<nat>
      reads this
    {
      if starved(calls) then {} else evicts(calls) - held
    }

    /** Throws pages out of their frames. */
    method Evict(gone: set<nat>)
      requires Valid()
      modifies this`pages, this`dirty
      ensures Valid() && pages == Faded<Image>(old(pages), kept, gone) && dirty == old(dirty) - gone
    {
      pages := Faded(pages, kept, gone);
      dirty := dirty - gone;
    }

    /** Null when no frame is free, or when the id was never allocated. */
    method Fetch(id: nat) returns (frame: array?<byte>)
      requires Valid()
      modifies this`calls, this`pages, this`dirty
      ensures Valid() && calls == old(calls) + 1
      ensures pages == Faded<Image>(old(pages), kept, old(Gone({id}))) && dirty == old(dirty) - old(Gone({id}))
      ensures frame == null <==> id !in pages || starved(old(calls))
      ensures frame != null ==> fresh(frame) && frame.Length == PAGE_SIZE && frame[..] == pages[id]
    {
      hide Faded;
      Evict(Gone({id}));
      calls := calls + 1;
      if id !in pages || starved(calls - 1) {
        return null;
      }
      frame := Look(id);
    }

    /** Reads a frame that is already pinned. */
    method Look(id: nat) returns (frame: array<byte>)
      requires id in pages
      ensures fresh(frame) && frame.Length == PAGE_SIZE && frame[..] == pages[id]
    {
      var image := pages[id];
      frame := new byte[PAGE_SIZE](k requires 0 <= k < PAGE_SIZE => image[k]);
      assert frame[..] == image;
    }

    /** Gives a frame back marked dirty: what was written into it is what the page shows from now on. */
    method Unpin(id: nat, frame: array<byte>)
      requires Valid() && id in pages && frame.Length == PAGE_SIZE
      modifies this`pages, this`kept, this`dirty
      ensures Valid() && pages == old(pages)[id := frame[..]] && kept == old(kept)[id := frame[..]]
      ensures dirty == old(dirty) + {id}
    {
      pages, kept, dirty := pages[id := frame[..]], kept[id := frame[..]], dirty + {id};
    }

    /** The same without the mark: the change is kept only if the frame was marked before. */
    method UnpinUnmarked(id: nat, frame: array<byte>)
      requires Valid() && id in pages && frame.Length == PAGE_SIZE
      modifies this`pages, this`kept
      ensures Valid() && pages == old(pages)[id := frame[..]]
      ensures kept == if id in dirty then old(kept)[id := frame[..]] else old(kept)
    {
      pages := pages[id := frame[..]];
      if id in dirty {
        kept := kept[id := frame[..]];
      }
    }

    /** A zeroed page under an id no page has, `held` being pinned; the id is spent even when no frame is free. */
    method NewPage(held: set<nat>) returns (id: nat, frame: array?<byte>)
      requires Valid() && CanAllocate()
      modifies this
      ensures Valid() && calls == old(calls) + 1 && id == old(NextNew()) && id !in old(pages) && id < INVALID_PAGE_ID
      ensures if old(spare) != [] then nextId == old(nextId) && spare == old(spare[..|spare| - 1])
              else nextId == old(nextId) + 1 && spare == []
      ensures frame == null <==> starved(old(calls))
      ensures frame == null ==> Both() == old(Both()) && dirty == old(dirty)
      ensures frame != null ==> fresh(frame) && frame.Length == PAGE_SIZE && frame[..] == Zeros(PAGE_SIZE)
      ensures frame != null ==> pages == Faded<Image>(old(pages), old(kept), old(Gone(held)))[id := Zeros(PAGE_SIZE)]
      ensures frame != null ==> kept == old(kept)[id := leftover(old(calls))] && dirty == old(dirty) - old(Gone(held))
    {
      hide Faded;
      var gone := Gone(held);
      id := TakeId();
      calls := calls + 1;
      if starved(calls - 1) {
        return id, null;
      }
      Evict(gone);
      frame := Enter(id, leftover(calls - 1));
    }

    method TakeId() returns (id: nat)
      requires Valid() && CanAllocate()
      modifies this`spare, this`nextId
      ensures Valid() && id == old(NextNew()) && id !in pages && id < nextId
      ensures if old(spare) != [] then nextId == old(nextId) && spare == old(spare[..|spare| - 1])
              else nextId == old(nextId) + 1 && spare == []
      ensures forall i :: 0 <= i < |spare| ==> spare[i] != id
    {
      id := NextNew();
      if spare != [] {
        spare := spare[..|spare| - 1];
      } else {
        nextId := nextId + 1;
      }
    }

    method Enter(id: nat, old': Image) returns (frame: array<byte>)
      requires Valid() && id !in pages && id < nextId && forall i :: 0 <= i < |spare| ==> spare[i] != id
      modifies this`pages, this`kept
      ensures Valid() && pages == old(pages)[id := Zeros(PAGE_SIZE)] && kept == old(kept)[id := old']
      ensures fresh(frame) && frame.Length == PAGE_SIZE && frame[..] == Zeros(PAGE_SIZE)
    {
      pages, kept := pages[id := Zeros(PAGE_SIZE)], kept[id := old'];
      frame := new byte[PAGE_SIZE](k => 0);
      assert frame[..] == Zeros(PAGE_SIZE);
    }

    /** Gives a page's id back, or fails while the page is pinned; a long list of spare ids takes no more. */
    method DeletePage(id: nat) returns (ok: bool)
      requires Valid() && id in pages
      modifies this
      ensures Valid() && calls == old(calls) + 1 && (ok <==> !starved(old(calls))) && nextId == old(nextId)
      ensures pages == if ok then old(pages) - {id} else old(pages)
      ensures kept == if ok then old(kept) - {id} else old(kept)
      ensures dirty == if ok then old(dirty) - {id} else old(dirty)
      ensures spare == if ok && |old(spare)| <= 1024 then old(spare) + [id] else old(spare)
    {
      calls := calls + 1;
      if starved(calls - 1) {
        return false;
      }
      pages, kept, dirty := pages - {id}, kept - {id}, dirty - {id};
      if |spare| <= 1024 {
        spare := spare + [id];
      }
      return true;
    }
  }
}
