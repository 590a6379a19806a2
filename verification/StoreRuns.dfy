/** Runs of calls on pages: every run through the pool is one of the plain store for some answers of it. */
module StoreRuns {
  import opened Bytes
  import opened SlottedLayout
  import opened Disk
  import opened BufferPool
  import opened PageStores
  import opened PooledStores

  /** What a store amounts to. */
  datatype Machine = Machine(pages: View, kept: View, dirty: set<nat>, nextId: nat, spare: seq<nat>)

  /** `Save` and `Release` give a held page back with new bytes, the latter without the mark. */
  datatype Call =
    | Fetch(id: nat)
    | Save(id: nat, image: Image)
    | Release(id: nat, image: Image)
    | Make(held: set<nat>)
    | Drop(id: nat)

  /** What the plain store leaves open about a call: whether it is refused, what it throws out, what a reused page kept. */
  datatype Answer = Answer(refused: bool, gone: set<nat>, leftover: Image)

  datatype Event = Event(call: Call, answer: Answer)

  const QUIET: Answer := Answer(false, {}, Zeros(PAGE_SIZE))

  predicate Asks(c: Call) {
    c.Fetch? || c.Make? || c.Drop?
  }

  function NewId(m: Machine): nat {
    if m.spare != [] then m.spare[|m.spare| - 1] else m.nextId
  }

  function Spent(m: Machine): Machine {
    if m.spare != [] then m.(spare := m.spare[..|m.spare| - 1]) else m.(nextId := m.nextId + 1)
  }

  function Evicted(m: Machine, gone: set<nat>): Machine {
    m.(pages := Faded<Image>(m.pages, m.kept, gone), dirty := m.dirty - gone)
  }

  /** What a call makes of the pages. */
  function Next(m: Machine, e: Event): Machine {
    match e.call
    case Fetch(id) => if e.answer.refused then m else Evicted(m, e.answer.gone - {id})
    case Save(id, image) => m.(pages := m.pages[id := image], kept := m.kept[id := image], dirty := m.dirty + {id})
    case Release(id, image) =>
      m.(pages := m.pages[id := image], kept := if id in m.dirty then m.kept[id := image] else m.kept)
    case Make(held) =>
      if e.answer.refused then Spent(m)
      else
        var id, n := NewId(m), Evicted(Spent(m), e.answer.gone - held);
        n.(pages := n.pages[id := Zeros(PAGE_SIZE)], kept := n.kept[id := e.answer.leftover])
    case Drop(id) =>
      if e.answer.refused then m
      else
        m.(pages := m.pages - {id}, kept := m.kept - {id}, dirty := m.dirty - {id},
           spare := if |m.spare| <= FREE_LIST_LIMIT then m.spare + [id] else m.spare)
  }

  function After(m: Machine, log: seq<Event>): Machine {
    if log == [] then m else Next(After(m, log[..|log| - 1]), log[|log| - 1])
  }

  predicate Allowed(m: Machine, c: Call) {
    match c
    case Fetch(id) => id in m.pages
    case Save(id, _) => id in m.pages
    case Release(id, _) => id in m.pages
    case Make(_) => m.nextId < INVALID_PAGE_ID || m.spare != []
    case Drop(id) => id in m.pages
  }

  ghost predicate Lawful(m: Machine, log: seq<Event>) {
    forall i :: 0 <= i < |log| ==> Allowed(After(m, log[..i]), log[i].call)
  }

  lemma OneMore(m: Machine, log: seq<Event>, e: Event)
    requires Lawful(m, log) && Allowed(After(m, log), e.call)
    ensures Lawful(m, log + [e]) && After(m, log + [e]) == Next(After(m, log), e)
  {
    hide Allowed;
    hide Next;
    var all := log + [e];
    assert all[..|log|] == log;
    forall i | 0 <= i < |all|
      ensures Allowed(After(m, all[..i]), all[i].call)
    {
      assert i < |log| ==> all[..i] == log[..i];
    }
  }

  lemma OneMoreHeld(m: multiset<nat>, id: nat)
    ensures forall p :: (m + multiset{id})[p] == m[p] + if p == id then 1 else 0
    ensures forall p :: p in m + multiset{id} <==> p in m || p == id
  {
  }

  lemma OneLessHeld(m: multiset<nat>, id: nat)
    requires id in m
    ensures forall p :: (m - multiset{id})[p] == m[p] - if p == id then 1 else 0
    ensures forall p :: p in m - multiset{id} ==> p in m
  {
  }

  lemma {:induction false} Elements(m: multiset<nat>, s: set<nat>)
    requires forall x :: x in s ==> x in m
    ensures |s| <= |m|
    decreases |s|
  {
    if x :| x in s {
      Elements(m - multiset{x}, s - {x});
    }
  }

  lemma {:induction false} Smaller(a: set<nat>, b: set<nat>)
    requires a <= b
    ensures |a| <= |b|
    decreases |a|
  {
    if x :| x in a {
      Smaller(a - {x}, b - {x});
    }
  }

  // ----- The plain store -----

  /** The answers a run of calls was given, in order. */
  function Answers(log: seq<Event>): seq<Answer> {
    if log == [] then []
    else
      var e := log[|log| - 1];
      Answers(log[..|log| - 1]) + (if Asks(e.call) then [e.answer] else [])
  }

  function Nth(log: seq<Event>, n: nat): Answer {
    if n < |Answers(log)| then Answers(log)[n] else QUIET
  }

  lemma {:induction false} AnswerOf(log: seq<Event>, i: nat)
    requires i < |log|
    ensures Answers(log[..i]) <= Answers(log)
    ensures Asks(log[i].call) ==> |Answers(log[..i])| < |Answers(log)| && Nth(log, |Answers(log[..i])|) == log[i].answer
    ensures |Answers(log[..i + 1])| == |Answers(log[..i])| + if Asks(log[i].call) then 1 else 0
    decreases |log|
  {
    var k := |log| - 1;
    assert log[..i + 1][..i] == log[..i] && log[..i + 1][i] == log[i];
    if i < k {
      AnswerOf(log[..k], i);
      assert log[..k][..i] == log[..i];
    } else {
      assert log[..k + 1] == log;
    }
  }

  function StateOf(s: PageStore): Machine
    reads s
  {
    Machine(s.pages, s.kept, s.dirty, s.nextId, s.spare)
  }

  /** One call on the plain store, which answers by the number of the call. */
  method Play(s: PageStore, c: Call)
    requires s.Valid() && Allowed(StateOf(s), c)
    modifies s
    ensures s.Valid() && s.calls == old(s.calls) + if Asks(c) then 1 else 0
    ensures var n := old(s.calls);
            StateOf(s) == Next(old(StateOf(s)), Event(c, Answer(s.starved(n), s.evicts(n), s.leftover(n))))
  {
    match c {
      case Fetch(id) => var frame := s.Fetch(id);
      case Save(id, image) =>
        var frame := FrameWith(image);
        s.Unpin(id, frame);
      case Release(id, image) =>
        var frame := FrameWith(image);
        s.UnpinUnmarked(id, frame);
      case Make(held) => var id, frame := s.NewPage(held);
      case Drop(id) => var ok := s.DeletePage(id);
    }
  }

  method FrameWith(image: Image) returns (frame: array<byte>)
    ensures fresh(frame) && frame.Length == PAGE_SIZE && frame[..] == image
  {
    frame := new byte[PAGE_SIZE](k requires 0 <= k < PAGE_SIZE => image[k]);
    assert frame[..] == image;
  }

  lemma AnswerMatters(m: Machine, c: Call, a: Answer, b: Answer)
    ensures !Asks(c) ==> Next(m, Event(c, a)) == Next(m, Event(c, b))
  {
  }

  /** No pages yet, and an allocator. */
  ghost predicate Startable(m: Machine) {
    && m == Machine(map[], map[], {}, m.nextId, m.spare) && m.nextId <= INVALID_PAGE_ID && Distinct(m.spare)
    && forall i :: 0 <= i < |m.spare| ==> m.spare[i] < m.nextId
  }

  /** A plain store with these answers goes through the same run. */
  method Replay(start: Machine, log: seq<Event>) returns (s: PageStore)
    requires Lawful(start, log) && Startable(start)
    ensures s.Valid() && StateOf(s) == After(start, log)
  {
    hide Next;
    hide Allowed;
    hide PageStore.Valid;
    s := new PageStore.Over(start.nextId, start.spare, (n: nat) => Nth(log, n).refused, (n: nat) => Nth(log, n).gone,
      (n: nat) => Nth(log, n).leftover);
    for i := 0 to |log|
      invariant s.Valid() && fresh(s) && StateOf(s) == After(start, log[..i]) && s.calls == |Answers(log[..i])|
      invariant forall n :: Answer(s.starved(n), s.evicts(n), s.leftover(n)) == Nth(log, n)
    {
      AnswerOf(log, i);
      assert log[..i + 1][..i] == log[..i];
      var e := log[i];
      ghost var m, a := After(start, log[..i]), Nth(log, s.calls);
      Play(s, e.call);
      AnswerMatters(m, e.call, a, e.answer);
    }
    assert log[..|log|] == log;
  }

  // ----- What each call of the pool is to the plain store -----

  lemma FetchNext(m: Machine, id: nat, refused: bool, gone: set<nat>)
    requires id !in gone && (refused ==> gone == {}) && id in m.pages
    ensures Allowed(m, Fetch(id))
    ensures Next(m, Event(Fetch(id), Answer(refused, gone, Zeros(PAGE_SIZE)))) ==
            Machine(Faded<Image>(m.pages, m.kept, gone), m.kept, m.dirty - gone, m.nextId, m.spare)
  {
    assert gone - {id} == gone && m.dirty - {} == m.dirty && Faded<Image>(m.pages, m.kept, {}) == m.pages;
  }

  lemma UnpinNext(m: Machine, id: nat, image: Image)
    requires id in m.pages
    ensures Allowed(m, Save(id, image)) && Allowed(m, Release(id, image))
    ensures Next(m, Event(Save(id, image), Answer(false, {}, Zeros(PAGE_SIZE)))) ==
            Machine(m.pages[id := image], m.kept[id := image], m.dirty + {id}, m.nextId, m.spare)
    ensures Next(m, Event(Release(id, image), Answer(false, {}, Zeros(PAGE_SIZE)))) ==
            Machine(m.pages[id := image], if id in m.dirty then m.kept[id := image] else m.kept, m.dirty, m.nextId, m.spare)
  {
  }

  lemma MakeNext(m: Machine, held: set<nat>, id: nat, refused: bool, gone: set<nat>, leftover: Image, nextId: nat,
                 spare: seq<nat>)
    requires m.nextId < INVALID_PAGE_ID || m.spare != []
    requires if m.spare == [] then id == m.nextId && nextId == id + 1 && spare == []
             else spare + [id] == m.spare && nextId == m.nextId
    requires gone !! held && (refused ==> gone == {})
    ensures Allowed(m, Make(held))
    ensures Next(m, Event(Make(held), Answer(refused, gone, leftover))) ==
            if refused then Machine(m.pages, m.kept, m.dirty, nextId, spare)
            else Machine(Faded<Image>(m.pages, m.kept, gone)[id := Zeros(PAGE_SIZE)], m.kept[id := leftover], m.dirty - gone,
                         nextId, spare)
  {
    assert gone - held == gone;
  }

  lemma DropNext(m: Machine, id: nat, refused: bool)
    requires id in m.pages
    ensures Allowed(m, Drop(id))
    ensures Next(m, Event(Drop(id), Answer(refused, {}, Zeros(PAGE_SIZE)))) ==
            if refused then m
            else Machine(m.pages - {id}, m.kept - {id}, m.dirty - {id}, m.nextId,
                         if |m.spare| <= FREE_LIST_LIMIT then m.spare + [id] else m.spare)
  {
  }

  // ----- A client of the pool -----

  /** Someone who works on pages through the pool; `mine` is what it holds, `others` what others hold all the while. */
  class Client {
    const store: PooledStore
    ghost const start: Machine
    ghost const others: map<nat, nat>
    ghost var log: seq<Event>
    ghost var mine: multiset<nat>

    ghost function State(): Machine
      reads store, store.pool, store.pool.disk, store.pool.frames
    {
      Machine(store.Pages(), store.Kept(), store.Dirty(), store.pool.disk.capacity, store.pool.disk.freeList)
    }

    /** Every pin is the client's or one of those it found. */
    ghost predicate Balanced()
      reads this`mine, store, store.pool, store.pool.frames
    {
      && (forall p :: store.PinsOf(p) == (if p in others then others[p] else 0) + mine[p] < 0x1_0000_0000)
      && (forall p :: p in mine ==> p in store.used)
      && (forall p :: p in others ==> others[p] != 0)
    }

    /** Whatever calls were made, the plain store gets to the same state with the answers in the log. */
    ghost predicate Valid()
      reads this, store, store.pool, store.pool.disk, store.pool.replacer, store.pool.frames
    {
      && store.Valid() && Balanced() && Lawful(start, log) && State() == After(start, log)
      && Startable(start)
    }

    constructor (store: PooledStore)
      requires store.Valid() && store.used == {} && forall p :: store.PinsOf(p) < 0x1_0000_0000
      ensures Valid() && this.store == store && log == [] && mine == multiset{}
    {
      this.store := store;
      others := map p | p in store.pool.table && store.PinsOf(p) != 0 :: store.PinsOf(p);
      start := Machine(map[], map[], {}, store.pool.disk.capacity, store.pool.disk.freeList);
      log, mine := [], multiset{};
    }

    ghost function Logged(was: seq<Event>, c: Call, refused: bool): bool
      reads this`log
    {
      && |log| == |was| + 1 && log[..|was|] == was && log[|was|].call == c && log[|was|].answer.refused == refused
    }

    /** Pins a page; with fewer pages held than there are frames that others do not hold, always. */
    method Fetch(id: nat) returns (image: Option<Image>)
      requires Valid() && id in store.used && store.PinsOf(id) + 1 < 0x1_0000_0000
      modifies this`log, this`mine, store.pool, store.pool.replacer, store.pool.frames, store.pool.disk`file
      ensures Logged(old(log), Call.Fetch(id), image.None?)
      ensures mine == if image.None? then old(mine) else old(mine) + multiset{id}
      ensures image.Some? ==> id in store.Pages() && image.value == store.Pages()[id]
      ensures old(|mine|) + |others| < store.pool.frames.Length ==> image.Some?
      ensures Valid()
    {
      hide *;
      Opened();
      StateIs();
      HeldFew();
      ghost var m := State();
      ghost var gone;
      image, gone := Take(id);
      StateIs();
      FetchNext(m, id, image.None?, gone);
      Note(m, Event(Call.Fetch(id), Answer(image.None?, gone, Zeros(PAGE_SIZE))));
    }

    method Take(id: nat) returns (image: Option<Image>, ghost gone: set<nat>)
      requires store.Valid() && Balanced() && id in store.used && store.PinsOf(id) + 1 < 0x1_0000_0000
      modifies this`mine, store.pool, store.pool.replacer, store.pool.frames, store.pool.disk`file
      ensures mine == if image.None? then old(mine) else old(mine) + multiset{id}
      ensures image.None? ==> AllPinned(old(store.pool.frames[..]))
      ensures id !in gone && (image.None? ==> gone == {})
      ensures store.Pages() == Faded<Image>(old(store.Pages()), old(store.Kept()), gone)
      ensures store.Kept() == old(store.Kept()) && store.Dirty() == old(store.Dirty()) - gone
      ensures image.Some? ==> id in store.Pages() && image.value == store.Pages()[id]
      ensures store.Valid() && Balanced()
    {
      hide *;
      BalancedMeans();
      StateIs();
      image, gone := store.Fetch(id);
      OneMoreHeld(mine, id);
      mine := if image.None? then mine else mine + multiset{id};
      BalancedMeans();
    }

    /** Gives a held page back with new bytes, marked dirty. */
    method Unpin(id: nat, image: Image)
      requires Valid() && id in mine
      modifies this`log, this`mine, store.pool.frames
      ensures Logged(old(log), Save(id, image), false) && mine == old(mine) - multiset{id}
      ensures Valid()
    {
      hide *;
      Opened();
      StateIs();
      ghost var m := State();
      Give(id, image);
      StateIs();
      UnpinNext(m, id, image);
      Note(m, Event(Save(id, image), Answer(false, {}, Zeros(PAGE_SIZE))));
    }

    /** Gives a held page back with new bytes, without the mark. */
    method UnpinUnmarked(id: nat, image: Image)
      requires Valid() && id in mine
      modifies this`log, this`mine, store.pool.frames
      ensures Logged(old(log), Release(id, image), false) && mine == old(mine) - multiset{id}
      ensures Valid()
    {
      hide *;
      Opened();
      StateIs();
      ghost var m := State();
      GiveUnmarked(id, image);
      StateIs();
      UnpinNext(m, id, image);
      Note(m, Event(Release(id, image), Answer(false, {}, Zeros(PAGE_SIZE))));
    }

    method Give(id: nat, image: Image)
      requires store.Valid() && Balanced() && id in mine
      modifies this`mine, store.pool.frames
      ensures mine == old(mine) - multiset{id} && id in store.used
      ensures store.Pages() == old(store.Pages())[id := image]
      ensures store.Kept() == old(store.Kept())[id := image]
      ensures store.Dirty() == old(store.Dirty()) + {id}
      ensures store.Valid() && Balanced()
    {
      hide *;
      BalancedMeans();
      store.Unpin(id, image);
      OneLessHeld(mine, id);
      mine := mine - multiset{id};
      BalancedMeans();
    }

    method GiveUnmarked(id: nat, image: Image)
      requires store.Valid() && Balanced() && id in mine
      modifies this`mine, store.pool.frames
      ensures mine == old(mine) - multiset{id} && id in store.used
      ensures store.Pages() == old(store.Pages())[id := image]
      ensures store.Kept() == if id in old(store.Dirty()) then old(store.Kept())[id := image] else old(store.Kept())
      ensures store.Dirty() == old(store.Dirty())
      ensures store.Valid() && Balanced()
    {
      hide *;
      BalancedMeans();
      store.UnpinUnmarked(id, image);
      OneLessHeld(mine, id);
      mine := mine - multiset{id};
      BalancedMeans();
    }

    /** A new page, held; with fewer pages held than there are frames that others do not hold, always. */
    method NewPage() returns (id: nat, image: Option<Image>)
      requires Valid() && (store.pool.disk.capacity < INVALID_PAGE_ID || store.pool.disk.freeList != [])
      modifies this`log, this`mine, store`used, store.pool, store.pool.replacer, store.pool.frames, store.pool.disk
      ensures Logged(old(log), Make(set p | p in old(mine)), image.None?)
      ensures mine == if image.None? then old(mine) else old(mine) + multiset{id}
      ensures old(|mine|) + |others| < store.pool.frames.Length ==> image.Some?
      ensures Valid()
    {
      hide *;
      Opened();
      ghost var m, held := State(), set p | p in mine;
      ghost var gone, leftover;
      id, image, gone, leftover := TakeNew(m, held);
      Note(m, Event(Make(held), Answer(image.None?, gone, leftover)));
    }

    /** Takes the page and keeps the balance. */
    method TakeNew(ghost m: Machine, ghost held: set<nat>)
      returns (id: nat, image: Option<Image>, ghost gone: set<nat>, ghost leftover: Image)
      requires store.Valid() && Balanced() && (store.pool.disk.capacity < INVALID_PAGE_ID || store.pool.disk.freeList != [])
      requires m == State() && held == set p | p in mine
      modifies this`mine, store`used, store.pool, store.pool.replacer, store.pool.frames, store.pool.disk
      ensures mine == if image.None? then old(mine) else old(mine) + multiset{id}
      ensures old(|mine|) + |others| < store.pool.frames.Length ==> image.Some?
      ensures Allowed(m, Make(held)) && State() == Next(m, Event(Make(held), Answer(image.None?, gone, leftover)))
      ensures store.Valid() && Balanced()
    {
      hide *;
      BalancedMeans();
      HeldFew();
      StateIs();
      id, image, gone := NewFor(held);
      leftover := if image.None? then Zeros(PAGE_SIZE) else store.Kept()[id];
      StateIs();
      MakeNext(m, held, id, image.None?, gone, leftover, store.pool.disk.capacity, store.pool.disk.freeList);
    }

    method NewFor(ghost held: set<nat>) returns (id: nat, image: Option<Image>, ghost gone: set<nat>)
      requires store.Valid() && Balanced() && (store.pool.disk.capacity < INVALID_PAGE_ID || store.pool.disk.freeList != [])
      requires held == set p | p in mine
      modifies this`mine, store`used, store.pool, store.pool.replacer, store.pool.frames, store.pool.disk
      ensures mine == if image.None? then old(mine) else old(mine) + multiset{id}
      ensures image.None? <==> AllPinned(old(store.pool.frames[..]))
      ensures if old(store.pool.disk.freeList) == [] then
                id == old(store.pool.disk.capacity) && store.pool.disk.capacity == id + 1 && store.pool.disk.freeList == []
              else
                && store.pool.disk.freeList + [id] == old(store.pool.disk.freeList)
                && store.pool.disk.capacity == old(store.pool.disk.capacity)
      ensures gone !! held && (image.None? ==> gone == {}) && (image.Some? ==> id in store.used)
      ensures store.Pages() ==
              if image.None? then old(store.Pages())
              else Faded<Image>(old(store.Pages()), old(store.Kept()), gone)[id := Zeros(PAGE_SIZE)]
      ensures image.Some? ==> id in store.Kept() && store.Kept() == old(store.Kept())[id := store.Kept()[id]]
      ensures image.None? ==> store.Kept() == old(store.Kept())
      ensures store.Dirty() == if image.None? then old(store.Dirty()) else old(store.Dirty()) - gone
      ensures store.Valid() && Balanced()
    {
      hide *;
      BalancedMeans();
      id, image, gone := store.NewPage();
      OneMoreHeld(mine, id);
      mine := if image.None? then mine else mine + multiset{id};
      BalancedMeans();
    }

    /** Deletes a page, unless somebody holds it. */
    method DeletePage(id: nat) returns (ok: bool)
      requires Valid() && id in store.used
      modifies this`log, store`used, store.pool`table, store.pool`free, store.pool.replacer, store.pool.frames,
        store.pool.disk`freeList, store.pool.disk`live
      ensures Logged(old(log), Drop(id), !ok) && (ok <==> id !in mine && id !in others)
      ensures Valid()
    {
      hide *;
      Opened();
      StateIs();
      BalancedMeans();
      ghost var m := State();
      ok := store.DeletePage(id);
      StateIs();
      BalancedMeans();
      DropNext(m, id, !ok);
      Note(m, Event(Drop(id), Answer(!ok, {}, Zeros(PAGE_SIZE))));
    }

    lemma Opened()
      ensures Valid() <==>
              && store.Valid() && Balanced() && Lawful(start, log) && State() == After(start, log) && Startable(start)
    {
    }

    lemma StateIs()
      ensures State() == Machine(store.Pages(), store.Kept(), store.Dirty(), store.pool.disk.capacity, store.pool.disk.freeList)
      ensures store.Pages().Keys == store.used == store.Kept().Keys
    {
    }

    lemma BalancedMeans()
      ensures Balanced() <==>
              && (forall p :: store.PinsOf(p) == (if p in others then others[p] else 0) + mine[p] < 0x1_0000_0000)
              && (forall p :: p in mine ==> p in store.used) && (forall p :: p in others ==> others[p] != 0)
    {
    }

    /** Enters a call into the log. */
    ghost method Note(m: Machine, e: Event)
      requires store.Valid() && Balanced() && Lawful(start, log) && Startable(start)
      requires m == After(start, log) && Allowed(m, e.call) && State() == Next(m, e)
      modifies this`log
      ensures Valid() && log == old(log) + [e] && Logged(old(log), e.call, e.answer.refused)
    {
      hide *;
      OneMore(start, log, e);
      log := log + [e];
      Opened();
      LoggedIs(log[..|log| - 1], e);
      assert log[..|log| - 1] == old(log);
    }

    lemma LoggedIs(was: seq<Event>, e: Event)
      requires log == was + [e]
      ensures Logged(was, e.call, e.answer.refused)
    {
    }

    /** The pages that are pinned are held by the client or by others, so a full pool is full of their pages. */
    lemma HeldFew()
      requires store.Valid() && Balanced()
      ensures AllPinned(store.pool.frames[..]) ==> store.pool.frames.Length <= |mine| + |others|
    {
      hide AllPinned;
      if AllPinned(store.pool.frames[..]) {
        FullHouse(store.pool.frames[..], store.pool.table, store.pool.free, store.pool.size);
        var ours := set p | p in mine;
        Elements(mine, ours);
        assert store.pool.table.Keys <= ours + others.Keys by {
          forall p | p in store.pool.table
            ensures p in ours + others.Keys
          {
            assert store.PinsOf(p) != 0;
          }
        }
        Smaller(store.pool.table.Keys, ours + others.Keys);
        assert |store.pool.table.Keys| == |store.pool.table| && |others.Keys| == |others|;
      }
    }
  }
}
