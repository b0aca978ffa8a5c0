/**
 A forward-only iterator over the concurrent set while other calls run.

 Each round of the iterator's loop reads shared state at one moment at most: which node comes
 first or next, or the contents of the node it locks.  The node may be any at all, since the index
 is read without its lock; the contents are those of some state of the run.
 */
module ForwardIter {
  import opened Basics
  import opened NodeOps
  import opened ConcurrentState
  import opened Interleaving
  import opened SetSpec

  /** `held` is what is left of the locked node, `last` the key emitted last. */
  datatype Iter = Iter(node: Option<NodeId>, held: Option<Node>, last: Option<int>)

  /** What a round of the loop sees: the node that it is told comes first or next, and the shared
      state at the moment of locking. */
  datatype Glimpse = Glimpse(told: Option<NodeId>, shared: State)

  /** One round: the iterator afterwards, and the entry emitted if any.  The back node is known
      throughout, so a node is always locked by the branch that re-finds the place. */
  ghost function Round(it: Iter, g: Glimpse): (Iter, Option<Pair>) {
    if it.node.None? then
      (it.(node := g.told), None)
    else if it.held.Some? then
      if it.held.value != [] then
        (it.(held := Some(it.held.value[1..]), last := Some(it.held.value[0].key)), Some(it.held.value[0]))
      else
        (it.(node := g.told, held := None), None)
    else
      var n := if it.node.value in g.shared.heap then g.shared.heap[it.node.value] else [];
      if it.last.None? then (it.(held := Some(n)), None)
      else
        var skip := Point(n, it.last.value + 1);
        if skip == 0 then (it.(held := Some(n)), None)
        else if skip < |n| then (it.(held := Some(n[skip + 1..]), last := Some(n[skip].key)), Some(n[skip]))
        else (it.(held := Some([])), None)
  }

  /** Counting the keys below the successor of a key is skipping past the excluded key. */
  lemma SkipIsRank(n: Node, last: int)
    requires Sorted(n)
    ensures Skips(Keys(n), Excluded(last), true, Point(n, last + 1))
  {
    var p := Point(n, last + 1);
    forall i | 0 <= i < |n| ensures Before(Keys(n)[i], Excluded(last)) <==> i < p {
      if p < i { assert n[p].key < n[i].key; }
    }
  }

  /** What is held is sorted and lies above what has been emitted. */
  ghost predicate Ahead(it: Iter) {
    it.held.Some? ==>
      && Sorted(it.held.value)
      && forall i :: 0 <= i < |it.held.value| ==> it.last.None? || it.last.value < it.held.value[i].key
  }

  lemma RoundStaysAhead(it: Iter, g: Glimpse)
    requires Ahead(it) && forall id :: id in g.shared.heap ==> Sorted(g.shared.heap[id])
    ensures var (it', emitted) := Round(it, g);
            && Ahead(it')
            && (if emitted.Some?
                then it'.last == Some(emitted.value.key) && (it.last.Some? ==> it.last.value < emitted.value.key)
                else it'.last == it.last)
  {
    if it.node.Some? && it.held.None? {
      var n := if it.node.value in g.shared.heap then g.shared.heap[it.node.value] else [];
      if it.last.Some? { SkipIsRank(n, it.last.value); }
    }
  }

  function AsSeq(emitted: Option<Pair>): seq<Pair> {
    match emitted
    case Some(e) => [e]
    case None => []
  }

  /** The entries that a locked node has above the last key, in order. */
  ghost function Above(n: Node, last: Option<int>): Node {
    Filtered(n, (e: Pair) => last.None? || last.value < e.key)
  }

  lemma {:induction false} AboveIsTail(n: Node, last: Option<int>)
    requires Sorted(n)
    ensures Above(n, last) == if last.None? then n else n[Point(n, last.value + 1)..]
  {
    var f := (e: Pair) => last.None? || last.value < e.key;
    var skip := if last.None? then 0 else Point(n, last.value + 1);
    if skip < |n| && last.Some? {
      assert forall x :: skip <= x < |n| ==> n[skip].key <= n[x].key;
    }
    AllRejected(n, f, skip);
    FilteredSkipsKept(n[skip..], f, |n| - skip);
    assert n[skip..][|n| - skip..] == [] && n[skip..][..|n| - skip] == n[skip..];
  }

  lemma {:induction false} AllRejected(n: Node, f: Pair -> bool, skip: nat)
    requires skip <= |n| && forall x :: 0 <= x < skip ==> !f(n[x])
    ensures Filtered(n, f) == Filtered(n[skip..], f)
  {
    if skip == 0 {
      assert n[0..] == n;
    } else {
      AllRejected(n[1..], f, skip - 1);
      assert n[1..][skip - 1..] == n[skip..];
    }
  }

  /** A round on a held slice emits its first entry and keeps the rest; a round that locks a node
      emits and then holds, between them, exactly the node's entries above the last key, in order.
      Only a round without a node, or with an exhausted one, moves to the node it is told. */
  lemma RoundMeaning(it: Iter, g: Glimpse)
    requires it.node.Some? ==> it.node.value in g.shared.heap && Sorted(g.shared.heap[it.node.value])
    ensures var (it', emitted) := Round(it, g);
            if it.node.None? || it.held == Some([]) then
              emitted == None && it'.node == g.told && it'.last == it.last && (it.node.Some? ==> it'.held == None)
            else
              && it'.node == it.node && it'.held.Some?
              && AsSeq(emitted) + it'.held.value ==
                 (if it.held.Some? then it.held.value else Above(g.shared.heap[it.node.value], it.last))
              && (it.held.Some? ==> emitted.Some?)
              && it'.last == if emitted.Some? then Some(emitted.value.key) else it.last
  {
    if it.node.Some? && it.held.None? {
      AboveIsTail(g.shared.heap[it.node.value], it.last);
    }
  }

  /** The states of the iterator and what it emits, round by round. */
  ghost predicate IsIteration(its: seq<Iter>, emitted: seq<Option<Pair>>, glimpses: seq<Glimpse>) {
    && |its| == |glimpses| + 1 && |emitted| == |glimpses|
    && forall i :: 0 <= i < |glimpses| ==> (its[i + 1], emitted[i]) == Round(its[i], glimpses[i])
  }

  /** What is glimpsed are states of one run of the set. */
  ghost predicate During(glimpses: seq<Glimpse>, ms: seq<Machine>) {
    forall i :: 0 <= i < |glimpses| ==> exists j :: 0 <= j < |ms| && ms[j].shared == glimpses[i].shared
  }

  /** After round i everything emitted so far is at most the last key, which is at most whatever is
      emitted later. */
  lemma {:induction false} LastGrows(its: seq<Iter>, emitted: seq<Option<Pair>>, glimpses: seq<Glimpse>, i: nat, j: nat)
    requires IsIteration(its, emitted, glimpses) && i <= j <= |glimpses|
    requires Ahead(its[i])
    requires forall x, id :: 0 <= x < |glimpses| && id in glimpses[x].shared.heap ==> Sorted(glimpses[x].shared.heap[id])
    ensures Ahead(its[j])
    ensures its[i].last.Some? ==> its[j].last.Some? && its[i].last.value <= its[j].last.value
    decreases j - i
  {
    if i < j {
      RoundStaysAhead(its[i], glimpses[i]);
      LastGrows(its, emitted, glimpses, i + 1, j);
    }
  }

  /** An iterator that only moves forward, started on a set that is not empty, emits strictly
      increasing keys whatever puts, removes and splits run meanwhile. */
  lemma EmitsStrictlyIncreasing(
    its: seq<Iter>, emitted: seq<Option<Pair>>, glimpses: seq<Glimpse>, ms: seq<Machine>, steps: seq<Step>, i: nat, j: nat)
    requires IsRun(ms, steps) && During(glimpses, ms)
    requires IsIteration(its, emitted, glimpses) && its[0].held == None && its[0].last == None
    requires i < j < |emitted| && emitted[i].Some? && emitted[j].Some?
    ensures emitted[i].value.key < emitted[j].value.key
  {
    forall x, id | 0 <= x < |glimpses| && id in glimpses[x].shared.heap
      ensures Sorted(glimpses[x].shared.heap[id])
    {
      var y :| 0 <= y < |ms| && ms[y].shared == glimpses[x].shared;
      NodesStaySortedAndBounded(ms, steps, y);
    }
    LastGrows(its, emitted, glimpses, 0, i);
    RoundStaysAhead(its[i], glimpses[i]);
    LastGrows(its, emitted, glimpses, i + 1, j);
    RoundStaysAhead(its[j], glimpses[j]);
    assert (its[i + 1], emitted[i]) == Round(its[i], glimpses[i]);
    assert (its[j + 1], emitted[j]) == Round(its[j], glimpses[j]);
    assert its[i + 1].last == Some(emitted[i].value.key);
  }
}
