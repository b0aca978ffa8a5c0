/** The forward iterator on a set that does not change while it runs. */
module ForwardAtRest {
  import opened Basics
  import opened NodeOps
  import opened Flattening
  import opened ConcurrentState
  import opened Separation
  import opened Sequential
  import opened OrderedKeys
  import opened RestingSet
  import opened ForwardIter

  predicate Indexed(s: State, ks: seq<int>) {
    forall j :: 0 <= j < |ks| ==> ks[j] in s.index && s.index[ks[j]] in s.heap
  }

  /** The nodes in the order of their keys. */
  function InOrder(s: State, ks: seq<int>): (nodes: seq<Node>)
    requires Indexed(s, ks)
    ensures |nodes| == |ks| && forall i :: 0 <= i < |ks| ==> nodes[i] == NodeAt(s, ks[i])
  {
    seq(|ks|, i requires 0 <= i < |ks| => NodeAt(s, ks[i]))
  }

  ghost predicate Listing(s: State, ks: seq<int>) {
    Tight(s) && Lists(ks, s) && Indexed(s, ks)
  }

  /** A round sees the state s, and is told the first node, or the one after its own. */
  ghost predicate ToldInOrder(s: State, ks: seq<int>, it: Iter, g: Glimpse)
    requires Listing(s, ks)
  {
    && g.shared == s
    && (it.node.None? ==> g.told == IdAt(s, ks, 0))
    && forall j :: 0 <= j < |ks| && it.node == IdAt(s, ks, j) ==> g.told == IdAt(s, ks, j + 1)
  }

  function IdAt(s: State, ks: seq<int>, j: nat): Option<NodeId>
    requires Indexed(s, ks)
  {
    if j < |ks| then Some(s.index[ks[j]]) else None
  }

  /** The nodes of a tight set ascend with their keys. */
  lemma ListedAscend(s: State, ks: seq<int>)
    requires Listing(s, ks)
    ensures Ascend(InOrder(s, ks), ks)
  {
    hide Sorted;
    TightIsSeparate(s, ks);
    forall j | 0 <= j < |ks| ensures var n := InOrder(s, ks)[j]; n != [] && Sorted(n) && Max(n) == ks[j] {
      assert ks[j] in ks;
    }
    forall j, e: Pair | 0 < j < |ks| && e in InOrder(s, ks)[j] ensures ks[j - 1] < e.key {
      assert ks[j] in ks && ks[j - 1] in ks && Routes(s.index.Keys, ks[j], e.key);
    }
  }

  lemma NodesAreOrdered(s: State, ks: seq<int>)
    requires Listing(s, ks)
    ensures Sorted(Flatten(InOrder(s, ks)))
    ensures forall j :: 0 <= j < |ks| ==> InOrder(s, ks)[j] != []
    ensures forall e :: e in Flatten(InOrder(s, ks)) <==> Holds(s, e)
  {
    hide Flatten, Sorted, Ascend, Separated, Injective;
    var nodes := InOrder(s, ks);
    ListedAscend(s, ks);
    OrderedNodesAreSorted(nodes, ks);
    forall e ensures e in Flatten(nodes) <==> Holds(s, e) {
      MembersOfFlatten(nodes, e);
      if Holds(s, e) {
        var k :| k in s.index && e in NodeAt(s, k);
        assert k in ks;
        var j :| 0 <= j < |ks| && ks[j] == k;
        assert e in nodes[j];
      }
      if j :| 0 <= j < |nodes| && e in nodes[j] {
        assert ks[j] in ks && e in NodeAt(s, ks[j]);
      }
    }
  }

  lemma {:induction false} MembersOfFlatten(nodes: seq<Node>, e: Pair)
    ensures e in Flatten(nodes) <==> exists j :: 0 <= j < |nodes| && e in nodes[j]
  {
    if nodes != [] {
      MembersOfFlatten(nodes[1..], e);
      assert forall j :: 0 < j < |nodes| ==> nodes[j] == nodes[1..][j - 1];
      if j :| 0 <= j < |nodes| && e in nodes[j] {
        assert j == 0 || e in nodes[1..][j - 1];
      }
    }
  }

  /** No node is empty, each is sorted, has its key as maximum, and lies above the key before it. */
  ghost predicate Ascend(nodes: seq<Node>, ks: seq<int>)
    requires |nodes| == |ks|
  {
    && (forall j :: 0 <= j < |nodes| ==> nodes[j] != [] && Sorted(nodes[j]) && Max(nodes[j]) == ks[j])
    && forall j, e :: 0 < j < |nodes| && e in nodes[j] ==> ks[j - 1] < e.key
  }

  lemma WithoutTheLast(nodes: seq<Node>, ks: seq<int>)
    requires |nodes| == |ks| && Ascend(nodes, ks) && nodes != []
    ensures var (i, n) := (|nodes| - 1, nodes[|nodes| - 1]);
            && Ascend(nodes[..i], ks[..i]) && n != [] && Sorted(n) && Max(n) == ks[i]
            && (0 < i ==> forall e :: e in n ==> ks[i - 1] < e.key)
  {
    hide Sorted;
  }

  lemma {:induction false} OrderedNodesAreSorted(nodes: seq<Node>, ks: seq<int>)
    requires |nodes| == |ks| && Ascend(nodes, ks)
    ensures Sorted(Flatten(nodes))
    ensures nodes != [] ==> Flatten(nodes) != [] && Max(Flatten(nodes)) == ks[|ks| - 1]
  {
    hide Flatten, Sorted, Ascend;
    FlattenNothing<Pair>();
    SortedNothing();
    if nodes != [] {
      WithoutTheLast(nodes, ks);
      var most, last := nodes[..|nodes| - 1], nodes[|nodes| - 1];
      OrderedNodesAreSorted(most, ks[..|nodes| - 1]);
      assert nodes == most + [last];
      FlattenAppend(most, [last]);
      FlattenOne(last);
      SortedJoin(Flatten(most), last);
    }
  }

  lemma FlattenNothing<T>()
    ensures Flatten<T>([]) == []
  {
  }

  lemma SortedNothing()
    ensures Sorted([])
  {
  }

  lemma SortedJoin(a: Node, b: Node)
    requires Sorted(a) && Sorted(b) && (a != [] ==> forall e :: e in b ==> Max(a) < e.key)
    ensures Sorted(a + b)
  {
    forall i, j | 0 <= i < |a| && 0 <= j < |b| ensures a[i].key < b[j].key {
      assert b[j] in b && a[i].key <= a[|a| - 1].key;
    }
  }

  // ---------------------------------------------------------------- the walk

  /** Everything emitted so far. */
  function Collected(emitted: seq<Option<Pair>>): seq<Pair> {
    if emitted == [] then []
    else Collected(emitted[..|emitted| - 1]) + AsSeq(emitted[|emitted| - 1])
  }

  /** The key emitted last, from what has been emitted. */
  ghost predicate LastOf(done: seq<Pair>, last: Option<int>) {
    last == if done == [] then None else Some(done[|done| - 1].key)
  }

  /** The iterator is in node j, with `done` emitted: all before the node, and of the node what is
      no longer held. */
  ghost predicate InNode(s: State, ks: seq<int>, it: Iter, done: seq<Pair>, j: nat)
    requires Listing(s, ks)
  {
    && j < |ks| && it.node == IdAt(s, ks, j) && LastOf(done, it.last)
    && var before := Flatten(InOrder(s, ks)[..j]);
       if it.held.None? then done == before
       else done + it.held.value == before + InOrder(s, ks)[j]
  }

  /** Everything has been emitted; another walk would hold nothing. */
  ghost predicate Over(s: State, ks: seq<int>, it: Iter, done: seq<Pair>)
    requires Listing(s, ks)
  {
    && done == Flatten(InOrder(s, ks)) && LastOf(done, it.last)
    && (it.held.Some? ==> it.held.value == [])
    && (it.node.Some? ==> exists j: nat :: j < |ks| && it.node == IdAt(s, ks, j))
  }

  /** Rounds left at most, in node j: one for each entry to come, two for each node. */
  function RoundsIn(s: State, ks: seq<int>, it: Iter, done: seq<Pair>, j: int): int
    requires Indexed(s, ks)
  {
    2 * (|ks| - j) + |Flatten(InOrder(s, ks))| - |done| - if it.held.Some? then 1 else 0
  }

  /** The iterator has emitted `done` and needs m more rounds at most to emit the rest. */
  ghost predicate OnItsWay(s: State, ks: seq<int>, it: Iter, done: seq<Pair>, m: nat)
    requires Listing(s, ks)
  {
    || Over(s, ks, it, done)
    || exists j: nat :: InNode(s, ks, it, done, j) && RoundsIn(s, ks, it, done, j) <= m
  }

  /** The part of a sorted sequence above its own beginning is the rest of it. */
  lemma AboveTheDone(done: Node, n: Node, last: Option<int>)
    requires Sorted(done + n) && LastOf(done, last)
    ensures Above(n, last) == n && Sorted(n)
  {
    var whole := done + n;
    forall x, y | 0 <= x < y < |n| ensures n[x].key < n[y].key {
      assert whole[|done| + x] == n[x] && whole[|done| + y] == n[y];
    }
    if last.Some? {
      assert whole[|done| - 1] == done[|done| - 1];
      assert forall x :: 0 <= x < |n| ==> whole[|done| + x] == n[x] && whole[|done| - 1].key < whole[|done| + x].key;
      PointUnique(n, last.value + 1, 0);
    }
    AboveIsTail(n, last);
  }

  lemma NothingAbove(all: Node, n: Node, last: Option<int>)
    requires Sorted(all) && Sorted(n) && LastOf(all, last) && forall e :: e in n ==> e in all
    ensures Above(n, last) == []
  {
    AboveIsTail(n, last);
    if n != [] {
      assert n[0] in all && n[|n| - 1] in all;
      forall x | 0 <= x < |n| ensures n[x].key < last.value + 1 {
        assert n[x] in all;
      }
      PointUnique(n, last.value + 1, |n|);
    }
  }

  lemma NodeSplits(s: State, ks: seq<int>, j: nat)
    requires Listing(s, ks) && j < |ks|
    ensures var nodes := InOrder(s, ks);
            && Flatten(nodes[..j + 1]) == Flatten(nodes[..j]) + nodes[j]
            && Flatten(nodes) == Flatten(nodes[..j + 1]) + Flatten(nodes[j + 1..])
            && Sorted(Flatten(nodes[..j]) + nodes[j])
            && (forall e :: e in nodes[j] ==> e in Flatten(nodes))
  {
    var nodes := InOrder(s, ks);
    NodesAreOrdered(s, ks);
    FlattenAround(nodes, j);
    assert nodes[..j + 1] == nodes[..j] + [nodes[j]];
    FlattenAppend(nodes[..j], [nodes[j]]);
    FlattenOne(nodes[j]);
    var front := Flatten(nodes[..j]) + nodes[j];
    assert forall x :: 0 <= x < |front| ==> front[x] == Flatten(nodes)[x];
    assert Flatten(nodes) == front + Flatten(nodes[j + 1..]);
  }

  /** A round that exhausts node j. */
  lemma StepOut(s: State, ks: seq<int>, it: Iter, done: seq<Pair>, j: nat, g: Glimpse)
    requires Listing(s, ks) && InNode(s, ks, it, done, j) && it.held == Some([]) && g.told == IdAt(s, ks, j + 1)
    ensures var (it', emitted) := Round(it, g);
            && emitted == None
            && if j + 1 == |ks| then it'.node == None && Over(s, ks, it', done) else InNode(s, ks, it', done, j + 1)
  {
    hide Flatten;
    var nodes := InOrder(s, ks);
    NodeSplits(s, ks, j);
    assert done + [] == done;
    assert nodes[..|ks|] == nodes;
  }

  /** A round that stays in node j. */
  lemma StepWithin(s: State, ks: seq<int>, it: Iter, done: seq<Pair>, j: nat, g: Glimpse)
    requires Listing(s, ks) && InNode(s, ks, it, done, j) && it.held != Some([]) && g.shared == s
    ensures var (it', emitted) := Round(it, g);
            InNode(s, ks, it', done + AsSeq(emitted), j)
  {
    hide Flatten, Round, Listing;
    NodeOfListing(s, ks, j);
    var nodes := InOrder(s, ks);
    NodeSplits(s, ks, j);
    RoundMeaning(it, g);
    var (it', emitted) := Round(it, g);
    if it.held.None? { AboveTheDone(done, nodes[j], it.last); }
    assert (done + AsSeq(emitted)) + it'.held.value == done + (AsSeq(emitted) + it'.held.value);
  }

  lemma NodeOfListing(s: State, ks: seq<int>, j: nat)
    requires Listing(s, ks) && j < |ks|
    ensures Indexed(s, ks) && ks[j] in s.index && s.index[ks[j]] in s.heap && InOrder(s, ks)[j] == s.heap[s.index[ks[j]]]
    ensures Sorted(s.heap[s.index[ks[j]]]) && IdAt(s, ks, j) == Some(s.index[ks[j]])
  {
    assert ks[j] in ks;
  }

  /** A round from within node j. */
  lemma StepInNode(s: State, ks: seq<int>, it: Iter, done: seq<Pair>, j: nat, g: Glimpse)
    requires Listing(s, ks) && InNode(s, ks, it, done, j) && ToldInOrder(s, ks, it, g)
    ensures var (it', emitted) := Round(it, g);
            if it.held == Some([]) && j + 1 == |ks| then
              emitted == None && it'.node == None && Over(s, ks, it', done)
            else
              InNode(s, ks, it', done + AsSeq(emitted), if it.held == Some([]) then j + 1 else j)
  {
    hide Flatten, Round, Over;
    assert done + [] == done;
    assert g.told == IdAt(s, ks, j + 1);
    if it.held == Some([]) { StepOut(s, ks, it, done, j, g); } else { StepWithin(s, ks, it, done, j, g); }
  }

  /** A round after everything has been emitted. */
  lemma StepOver(s: State, ks: seq<int>, it: Iter, done: seq<Pair>, g: Glimpse)
    requires Listing(s, ks) && Over(s, ks, it, done) && ToldInOrder(s, ks, it, g)
    ensures var (it', emitted) := Round(it, g);
            emitted == None && Over(s, ks, it', done)
  {
    var nodes := InOrder(s, ks);
    NodesAreOrdered(s, ks);
    var (it', emitted) := Round(it, g);
    if it.node.Some? {
      var j: nat :| j < |ks| && it.node == IdAt(s, ks, j);
      assert ks[j] in ks;
      NodeSplits(s, ks, j);
      RoundMeaning(it, g);
      if it.held.None? { NothingAbove(done, nodes[j], it.last); }
      assert g.told == IdAt(s, ks, j + 1);
    } else if ks != [] {
      assert it'.node == IdAt(s, ks, 0);
    }
  }

  lemma StepOnItsWay(s: State, ks: seq<int>, it: Iter, done: seq<Pair>, m: nat, g: Glimpse)
    requires Listing(s, ks) && OnItsWay(s, ks, it, done, m) && ToldInOrder(s, ks, it, g)
    ensures var (it', emitted) := Round(it, g);
            OnItsWay(s, ks, it', done + AsSeq(emitted), if 0 < m then m - 1 else 0)
  {
    hide Round, InNode, Over, Flatten;
    assert done + [] == done;
    var (it', emitted) := Round(it, g);
    if Over(s, ks, it, done) {
      StepOver(s, ks, it, done, g);
    } else {
      var j: nat :| InNode(s, ks, it, done, j) && RoundsIn(s, ks, it, done, j) <= m;
      RoundsAreLeft(s, ks, it, done, j);
      StepInNode(s, ks, it, done, j, g);
      RoundTakesOne(s, ks, it, done, j, g);
    }
  }

  lemma RoundsAreLeft(s: State, ks: seq<int>, it: Iter, done: seq<Pair>, j: nat)
    requires Listing(s, ks) && InNode(s, ks, it, done, j)
    ensures 0 < RoundsIn(s, ks, it, done, j)
    ensures done <= Flatten(InOrder(s, ks))
  {
    NodeSplits(s, ks, j);
    var nodes := InOrder(s, ks);
    var whole := Flatten(nodes[..j]) + nodes[j];
    if it.held.Some? { assert done <= done + it.held.value; }
    assert done <= whole && whole <= Flatten(nodes);
  }

  lemma RoundTakesOne(s: State, ks: seq<int>, it: Iter, done: seq<Pair>, j: nat, g: Glimpse)
    requires Listing(s, ks) && InNode(s, ks, it, done, j)
    ensures var (it', emitted) := Round(it, g);
            && (it.held == Some([]) ==>
                  RoundsIn(s, ks, it', done + AsSeq(emitted), j + 1) < RoundsIn(s, ks, it, done, j))
            && (it.held != Some([]) ==>
                  RoundsIn(s, ks, it', done + AsSeq(emitted), j) < RoundsIn(s, ks, it, done, j))
  {
  }

  // ---------------------------------------------------------------- whole walks

  ghost predicate ToldThroughout(s: State, ks: seq<int>, its: seq<Iter>, glimpses: seq<Glimpse>)
    requires Listing(s, ks)
  {
    |glimpses| <= |its| && forall i :: 0 <= i < |glimpses| ==> ToldInOrder(s, ks, its[i], glimpses[i])
  }

  /** As created: at the first node, if there is one. */
  predicate IsFresh(s: State, ks: seq<int>, it: Iter)
    requires Indexed(s, ks)
  {
    it == Iter(IdAt(s, ks, 0), None, None)
  }

  lemma FreshIsOnItsWay(s: State, ks: seq<int>, it: Iter)
    requires Listing(s, ks) && IsFresh(s, ks, it)
    ensures OnItsWay(s, ks, it, [], 2 * |ks| + |Flatten(InOrder(s, ks))|)
  {
    var nodes := InOrder(s, ks);
    assert nodes[..0] == [];
    FlattenNothing<Pair>();
    if ks == [] {
      assert nodes == [] && Over(s, ks, it, []);
    } else {
      assert InNode(s, ks, it, [], 0);
    }
  }

  lemma {:induction false} WalkGoesOn(s: State, ks: seq<int>, its: seq<Iter>, emitted: seq<Option<Pair>>, glimpses: seq<Glimpse>, i: nat)
    requires Listing(s, ks) && IsIteration(its, emitted, glimpses) && ToldThroughout(s, ks, its, glimpses)
    requires IsFresh(s, ks, its[0]) && i <= |glimpses|
    ensures var bound := 2 * |ks| + |Flatten(InOrder(s, ks))|;
            OnItsWay(s, ks, its[i], Collected(emitted[..i]), if i < bound then bound - i else 0)
  {
    hide Round, OnItsWay, Flatten, ToldInOrder;
    var bound := 2 * |ks| + |Flatten(InOrder(s, ks))|;
    if i == 0 {
      FreshIsOnItsWay(s, ks, its[0]);
      assert emitted[..0] == [];
    } else {
      WalkGoesOn(s, ks, its, emitted, glimpses, i - 1);
      StepOnItsWay(s, ks, its[i - 1], Collected(emitted[..i - 1]), if i - 1 < bound then bound - (i - 1) else 0, glimpses[i - 1]);
      assert emitted[..i][..i - 1] == emitted[..i - 1];
      assert (its[i], emitted[i - 1]) == Round(its[i - 1], glimpses[i - 1]);
    }
  }

  lemma WhatIsEmitted(s: State, ks: seq<int>, it: Iter, done: seq<Pair>, m: nat)
    requires Listing(s, ks) && OnItsWay(s, ks, it, done, m)
    ensures done <= Flatten(InOrder(s, ks)) && (m == 0 ==> done == Flatten(InOrder(s, ks)))
  {
    hide InNode, Flatten;
    if !Over(s, ks, it, done) {
      var j: nat :| InNode(s, ks, it, done, j) && RoundsIn(s, ks, it, done, j) <= m;
      RoundsAreLeft(s, ks, it, done, j);
    }
  }

  /** On a set that does not change, what a forward iterator emits is at all times a beginning of the
      stored entries in ascending order, and after one round for each entry and two for each node it
      is all of them, each once. */
  lemma EmitsEveryEntryInOrder(s: State, ks: seq<int>, its: seq<Iter>, emitted: seq<Option<Pair>>, glimpses: seq<Glimpse>)
    requires Listing(s, ks) && IsIteration(its, emitted, glimpses) && ToldThroughout(s, ks, its, glimpses)
    requires IsFresh(s, ks, its[0])
    ensures var all := Flatten(InOrder(s, ks));
            && Sorted(all) && (forall e :: e in all <==> Holds(s, e))
            && Collected(emitted) <= all
            && (2 * |ks| + |all| <= |glimpses| ==> Collected(emitted) == all)
  {
    hide OnItsWay, Flatten, Sorted, ToldThroughout;
    NodesAreOrdered(s, ks);
    WalkGoesOn(s, ks, its, emitted, glimpses, |glimpses|);
    assert emitted[..|glimpses|] == emitted;
    var bound := 2 * |ks| + |Flatten(InOrder(s, ks))|;
    WhatIsEmitted(s, ks, its[|glimpses|], Collected(emitted), if |glimpses| < bound then bound - |glimpses| else 0);
  }
}
