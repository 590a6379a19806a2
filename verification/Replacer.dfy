/** Least-recently-used replacement: a list of page ids with an index from each id to its own node. */
module Replacer {
  import opened Bytes
  import opened SlottedLayout

  /** Frames hold a page by value: its id, bytes, pin count and dirty flag. */
  datatype Frame = Frame(id: nat, data: Image, pins: nat, dirty: bool)

  datatype Event = Recorded(page: nat) | Removed(page: nat)

  /** A list node; its key plays the part of the iterator that stays valid while other nodes come and go. */
  datatype Node = Node(key: nat, page: nat)

  function Without(s: seq<nat>, p: nat): seq<nat> {
    if s == [] then [] else if s[0] == p then Without(s[1..], p) else [s[0]] + Without(s[1..], p)
  }

  /** The position in the history of the last event about `p` when it is a use, else -1. */
  function LastUse(h: seq<Event>, p: nat): int {
    if h == [] then -1
    else var e := h[|h| - 1];
      if e.page != p then LastUse(h[..|h| - 1], p)
      else if e.Recorded? then |h| - 1 else -1
  }

  /** The list is in order of use: each id's last use is before that of every later id. */
  ghost predicate ByUse(s: seq<nat>, h: seq<Event>) {
    && (forall p :: p in s <==> LastUse(h, p) >= 0)
    && Rising(s, h)
  }

  ghost predicate Rising(s: seq<nat>, h: seq<Event>) {
    forall i, j :: 0 <= i < j < |s| ==> LastUse(h, s[i]) < LastUse(h, s[j])
  }

  lemma {:induction false} LastUseBound(h: seq<Event>, p: nat)
    ensures -1 <= LastUse(h, p) < |h|
  {
    if h != [] {
      LastUseBound(h[..|h| - 1], p);
    }
  }

  /** The last event about `p` is the use at position `i`. */
  lemma {:induction false} LastUseIs(h: seq<Event>, p: nat, i: nat)
    ensures LastUse(h, p) == i <==> i < |h| && h[i] == Recorded(p) && forall j :: i < j < |h| ==> h[j].page != p
  {
    if h != [] {
      var n := |h| - 1;
      LastUseIs(h[..n], p, i);
      LastUseBound(h[..n], p);
      assert forall j :: 0 <= j < n ==> h[..n][j] == h[j];
    }
  }

  lemma {:induction false} WithoutMembers(s: seq<nat>, p: nat)
    ensures forall q :: q in Without(s, p) <==> q in s && q != p
    ensures p !in s ==> Without(s, p) == s
  {
    if s != [] {
      WithoutMembers(s[1..], p);
      assert s == [s[0]] + s[1..];
    }
  }

  lemma {:induction false} WithoutOrder(s: seq<nat>, p: nat, h: seq<Event>)
    requires Rising(s, h)
    ensures Rising(Without(s, p), h)
  {
    if s != [] {
      WithoutOrder(s[1..], p, h);
      WithoutMembers(s[1..], p);
      var t := Without(s[1..], p);
      forall j | 0 <= j < |t|
        ensures LastUse(h, s[0]) < LastUse(h, t[j])
      {
        assert t[j] in s[1..];
        var k :| 0 <= k < |s[1..]| && s[1..][k] == t[j];
        assert s[k + 1] == t[j];
      }
      assert Rising([s[0]] + t, h);
    }
  }

  lemma {:induction false} WithoutAt(s: seq<nat>, i: nat)
    requires i < |s| && s[i] !in s[..i] && s[i] !in s[i + 1..]
    ensures Without(s, s[i]) == s[..i] + s[i + 1..]
  {
    if i == 0 {
      WithoutMembers(s[1..], s[0]);
    } else {
      assert s[1..][..i - 1] == s[..i][1..] && s[1..][i..] == s[i + 1..];
      assert s[0] in s[..i];
      WithoutAt(s[1..], i - 1);
      assert s[..i] == [s[0]] + s[..i][1..];
    }
  }

  lemma UseOthers(h: seq<Event>, e: Event, q: nat)
    ensures LastUse(h + [e], q) == if e.page != q then LastUse(h, q) else if e.Recorded? then |h| else -1
  {
    assert (h + [e])[..|h|] == h;
  }

  lemma SameUse(t: seq<nat>, h: seq<Event>, h': seq<Event>)
    requires Rising(t, h) && forall p :: p in t ==> LastUse(h', p) == LastUse(h, p)
    ensures Rising(t, h')
  {
    forall i, j | 0 <= i < j < |t|
      ensures LastUse(h', t[i]) < LastUse(h', t[j])
    {
      assert t[i] in t && t[j] in t && LastUse(h, t[i]) < LastUse(h, t[j]);
    }
  }

  lemma Latest(t: seq<nat>, h: seq<Event>, p: nat)
    requires Rising(t, h) && forall q :: q in t ==> LastUse(h, q) < LastUse(h, p)
    ensures Rising(t + [p], h)
  {
    forall i | 0 <= i < |t|
      ensures LastUse(h, t[i]) < LastUse(h, p)
    {
      assert t[i] in t;
    }
  }

  /** One event moves its page to the back or takes it out, and the order of use is kept. */
  lemma EventKeepsOrder(s: seq<nat>, h: seq<Event>, e: Event)
    requires ByUse(s, h)
    ensures ByUse(if e.Recorded? then Without(s, e.page) + [e.page] else Without(s, e.page), h + [e])
  {
    var t := Without(s, e.page);
    WithoutMembers(s, e.page);
    WithoutOrder(s, e.page, h);
    forall q
      ensures LastUse(h + [e], q) == if e.page != q then LastUse(h, q) else if e.Recorded? then |h| else -1
      ensures LastUse(h, q) < |h|
    {
      UseOthers(h, e, q);
      LastUseBound(h, q);
    }
    SameUse(t, h, h + [e]);
    if e.Recorded? {
      Latest(t, h + [e], e.page);
    }
  }

  function Pages(nodes: seq<Node>): (s: seq<nat>)
    ensures |s| == |nodes| && forall i :: 0 <= i < |s| ==> s[i] == nodes[i].page
  {
    seq(|nodes|, i requires 0 <= i < |nodes| => nodes[i].page)
  }

  /** The index points each listed page at its own node, and no page is listed twice. */
  ghost predicate OwnNodes(nodes: seq<Node>, positions: map<nat, nat>, nextKey: nat) {
    && (forall p :: p in positions <==> p in Pages(nodes))
    && (forall i :: 0 <= i < |nodes| ==> nodes[i].page in positions && positions[nodes[i].page] == nodes[i].key)
    && (forall i :: 0 <= i < |nodes| ==> nodes[i].key < nextKey)
    && (forall i, j :: 0 <= i < j < |nodes| ==> nodes[i].key != nodes[j].key && nodes[i].page != nodes[j].page)
  }

  lemma OwnNode(nodes: seq<Node>, positions: map<nat, nat>, nextKey: nat, p: nat)
    requires OwnNodes(nodes, positions, nextKey) && p in positions
    ensures exists j :: 0 <= j < |nodes| && nodes[j].key == positions[p]
    ensures forall j :: 0 <= j < |nodes| && nodes[j].key == positions[p] ==> nodes[j].page == p
  {
    var j :| 0 <= j < |nodes| && Pages(nodes)[j] == p;
    assert nodes[j].page == p && nodes[j].key == positions[p];
  }

  lemma NotListed(nodes: seq<Node>, positions: map<nat, nat>, nextKey: nat, p: nat)
    requires OwnNodes(nodes, positions, nextKey) && p !in positions
    ensures p !in Pages(nodes)
  {
  }

  lemma PagesErased(nodes: seq<Node>, left: seq<Node>, i: nat)
    requires i < |nodes| && left == nodes[..i] + nodes[i + 1..]
    requires forall k, j :: 0 <= k < j < |nodes| ==> nodes[k].page != nodes[j].page
    ensures Pages(left) == Without(Pages(nodes), nodes[i].page)
  {
    var s := Pages(nodes);
    WithoutAt(s, i);
    assert Pages(left) == s[..i] + s[i + 1..];
  }

  /** Taking out node `i` and its index entry takes its page out of the list. */
  lemma NodeErased(nodes: seq<Node>, positions: map<nat, nat>, nextKey: nat, i: nat)
    requires OwnNodes(nodes, positions, nextKey) && i < |nodes|
    ensures var p := nodes[i].page;
            && OwnNodes(nodes[..i] + nodes[i + 1..], positions - {p}, nextKey)
            && Pages(nodes[..i] + nodes[i + 1..]) == Without(Pages(nodes), p)
  {
    hide Without;
    hide Pages;
    var left := nodes[..i] + nodes[i + 1..];
    PagesErased(nodes, left, i);
    WithoutMembers(Pages(nodes), nodes[i].page);
    Closed(nodes, left, i);
    StillApart(nodes, left, i);
  }

  lemma Closed(nodes: seq<Node>, left: seq<Node>, i: nat)
    requires i < |nodes| && left == nodes[..i] + nodes[i + 1..]
    ensures forall k :: 0 <= k < |left| ==> left[k] == nodes[if k < i then k else k + 1]
  {
  }

  lemma StillApart(nodes: seq<Node>, left: seq<Node>, i: nat)
    requires i < |nodes| && |left| == |nodes| - 1
    requires forall k :: 0 <= k < |left| ==> left[k] == nodes[if k < i then k else k + 1]
    requires forall k, j :: 0 <= k < j < |nodes| ==> nodes[k].key != nodes[j].key && nodes[k].page != nodes[j].page
    ensures forall k, j :: 0 <= k < j < |left| ==> left[k].key != left[j].key && left[k].page != left[j].page
  {
  }

  predicate Evictable(frames: seq<Frame>, table: map<nat, nat>, p: nat) {
    p in table && table[p] < |frames| && frames[table[p]].pins == 0
  }

  class BufferReplacer {
    var nodes: seq<Node>
    var positions: map<nat, nat>
    var nextKey: nat
    ghost var history: seq<Event>

    constructor ()
      ensures Valid() && Order() == [] && history == []
    {
      nodes, positions, nextKey, history := [], map[], 0, [];
    }

    /** The list, least recently used first. */
    function Order(): (s: seq<nat>)
      reads this
    {
      Pages(nodes)
    }

    ghost predicate Indexed()
      reads this
    {
      OwnNodes(nodes, positions, nextKey)
    }

    ghost predicate Valid()
      reads this
    {
      Indexed() && ByUse(Order(), history)
    }

    /** The list node with the given key. */
    method FindNode(key: nat) returns (i: nat)
      requires exists j :: 0 <= j < |nodes| && nodes[j].key == key
      ensures i < |nodes| && nodes[i].key == key
    {
      i := 0;
      while i < |nodes| && nodes[i].key != key
        invariant i <= |nodes| && forall j :: 0 <= j < i ==> nodes[j].key != key
      {
        i := i + 1;
      }
    }

    method Remove(p: nat)
      requires Valid()
      modifies this
      ensures Valid() && Order() == Without(old(Order()), p) && history == old(history) + [Removed(p)]
      ensures nextKey == old(nextKey)
    {
      hide ByUse;
      hide Without;
      Erase(p);
      EventKeepsOrder(old(Order()), history, Removed(p));
      history := history + [Removed(p)];
    }

    method Erase(p: nat)
      requires Indexed()
      modifies this`nodes, this`positions
      ensures Indexed() && Order() == Without(old(Order()), p)
    {
      hide Without;
      hide OwnNodes;
      if p in positions {
        OwnNode(nodes, positions, nextKey, p);
        var i := FindNode(positions[p]);
        NodeErased(nodes, positions, nextKey, i);
        nodes := nodes[..i] + nodes[i + 1..];
        positions := positions - {p};
      } else {
        NotListed(nodes, positions, nextKey, p);
        WithoutMembers(Order(), p);
      }
    }

    method Record(p: nat)
      requires Valid()
      modifies this
      ensures Valid() && Order() == Without(old(Order()), p) + [p] && history == old(history) + [Recorded(p)]
    {
      hide ByUse;
      hide Without;
      ghost var before := Order();
      EventKeepsOrder(before, history, Recorded(p));
      WithoutMembers(before, p);
      Erase(p);
      nodes := nodes + [Node(nextKey, p)];
      positions := positions[p := nextKey];
      nextKey := nextKey + 1;
      history := history + [Recorded(p)];
      assert Order() == Without(before, p) + [p];
    }

    /** The unpinned cached page whose last use is oldest; none exactly when every listed page is pinned or not cached. */
    method FindLru(frames: array<Frame>, table: map<nat, nat>) returns (r: Option<nat>)
      requires Valid() && forall p :: p in table ==> table[p] < frames.Length
      ensures r.None? <==> forall p :: p in Order() ==> !Evictable(frames[..], table, p)
      ensures r.Some? ==> r.value in Order() && Evictable(frames[..], table, r.value)
      ensures r.Some? ==> forall p :: p in Order() && Evictable(frames[..], table, p) && p != r.value ==>
                LastUse(history, r.value) < LastUse(history, p)
    {
      var i := 0;
      while i < |nodes|
        invariant i <= |nodes| && forall j :: 0 <= j < i ==> !Evictable(frames[..], table, Order()[j])
      {
        var p := nodes[i].page;
        if p in table {
          if frames[table[p]].pins == 0 {
            assert Order()[i] == p;
            return Some(p);
          }
        }
        i := i + 1;
      }
      return None;
    }
  }
}
