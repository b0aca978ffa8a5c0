/** The concurrent set's own states, at rest, are what the range cursor runs on. */
module RestingSet {
  import opened NodeOps
  import opened Flattening
  import opened OrderedKeys
  import opened ConcurrentState
  import opened Separation
  import opened Sequential
  import opened Interleaving
  import opened PutInterleaving
  import opened PutPartition
  import RangeCursor

  /** The index keys, in ascending order. */
  ghost predicate Lists(ks: seq<int>, s: State) {
    RangeCursor.Strict(ks) && forall k :: k in ks <==> k in s.index
  }

  /** The keys of the entries, node by node. */
  function NodesOf(s: State, ks: seq<int>): (nodes: seq<seq<int>>)
    requires forall k :: k in ks ==> k in s.index && s.index[k] in s.heap
    ensures |nodes| == |ks| && forall i :: 0 <= i < |ks| ==> nodes[i] == Keys(NodeAt(s, ks[i]))
  {
    seq(|ks|, i requires 0 <= i < |ks| => Keys(NodeAt(s, ks[i])))
  }

  lemma {:induction false} ListingExists(keys: set<int>) returns (ks: seq<int>)
    ensures RangeCursor.Strict(ks) && forall k :: k in ks <==> k in keys
    decreases keys
  {
    if keys == {} {
      ks := [];
    } else {
      var greatest := Greatest(keys);
      var most := ListingExists(keys - {greatest});
      ks := most + [greatest];
      forall i | 0 <= i < |most| ensures most[i] < greatest {
        assert most[i] in most;
      }
    }
  }

  /** Nodes that are strict, not empty, and each above the key before and with its own key last. */
  ghost predicate Separate(nodes: seq<seq<int>>, ks: seq<int>) {
    && |nodes| == |ks|
    && (forall i :: 0 <= i < |nodes| ==>
          nodes[i] != [] && RangeCursor.Strict(nodes[i]) && RangeCursor.Last(nodes[i]) == ks[i])
    && (forall i, x :: 0 < i < |nodes| && x in nodes[i] ==> ks[i - 1] < x)
  }

  lemma {:induction false} SeparateNodesAscend(nodes: seq<seq<int>>, ks: seq<int>)
    requires Separate(nodes, ks)
    ensures RangeCursor.Strict(Flatten(nodes))
    ensures nodes != [] ==> Flatten(nodes) != [] && RangeCursor.Last(Flatten(nodes)) == ks[|ks| - 1]
  {
    if nodes != [] {
      var most, last := nodes[..|nodes| - 1], nodes[|nodes| - 1];
      SeparateNodesAscend(most, ks[..|ks| - 1]);
      assert nodes == most + [last];
      FlattenAppend(most, [last]);
      FlattenOne(last);
      StrictJoin(Flatten(most), last);
    }
  }

  lemma StrictJoin(a: seq<int>, b: seq<int>)
    requires RangeCursor.Strict(a) && RangeCursor.Strict(b)
    requires a != [] ==> forall x :: x in b ==> RangeCursor.Last(a) < x
    ensures RangeCursor.Strict(a + b)
  {
    forall i, j | 0 <= i < |a| && 0 <= j < |b| ensures a[i] < b[j] {
      assert b[j] in b && a[i] <= a[|a| - 1];
    }
  }

  lemma {:induction false} FlattenMembers(nodes: seq<seq<int>>, x: int)
    ensures x in Flatten(nodes) <==> exists i :: 0 <= i < |nodes| && x in nodes[i]
  {
    if nodes != [] {
      FlattenMembers(nodes[1..], x);
      assert forall i :: 0 < i < |nodes| ==> nodes[i] == nodes[1..][i - 1];
      if i :| 0 <= i < |nodes| && x in nodes[i] {
        assert i == 0 || x in nodes[1..][i - 1];
      }
    }
  }

  lemma TightIsSeparate(s: State, ks: seq<int>)
    requires Tight(s) && Lists(ks, s)
    ensures forall k :: k in ks ==> k in s.index && s.index[k] in s.heap
    ensures Separate(NodesOf(s, ks), ks)
  {
    var nodes := NodesOf(s, ks);
    forall i | 0 <= i < |ks|
      ensures nodes[i] != [] && RangeCursor.Strict(nodes[i]) && RangeCursor.Last(nodes[i]) == ks[i]
    {
      assert ks[i] in ks;
      assert Max(NodeAt(s, ks[i])) == ks[i];
    }
    forall i, x | 0 < i < |ks| && x in nodes[i] ensures ks[i - 1] < x {
      assert ks[i] in ks && ks[i - 1] in ks;
      var j :| 0 <= j < |nodes[i]| && nodes[i][j] == x;
      var e := NodeAt(s, ks[i])[j];
      assert e in NodeAt(s, ks[i]) && Routes(s.index.Keys, ks[i], e.key);
    }
  }

  /** The nodes of a tight set, in the order of their keys, are a set at rest: the key of a node is
      its last element, and the elements are the keys of the entries. */
  lemma TightIsAtRest(s: State) returns (ks: seq<int>)
    requires Tight(s)
    ensures Lists(ks, s) && forall k :: k in ks ==> k in s.index && s.index[k] in s.heap
    ensures var nodes := NodesOf(s, ks);
            && RangeCursor.AtRest(nodes)
            && (forall i :: 0 <= i < |ks| ==> RangeCursor.Last(nodes[i]) == ks[i])
            && (forall x :: x in Flatten(nodes) <==> exists e :: Holds(s, e) && e.key == x)
  {
    ks := ListingExists(s.index.Keys);
    TightIsSeparate(s, ks);
    var nodes := NodesOf(s, ks);
    SeparateNodesAscend(nodes, ks);
    forall x ensures x in Flatten(nodes) <==> exists e :: Holds(s, e) && e.key == x {
      FlattenMembers(nodes, x);
      MembersAreKeys(s, ks, x);
    }
  }

  lemma MembersAreKeys(s: State, ks: seq<int>, x: int)
    requires WellFormed(s) && Lists(ks, s)
    ensures (exists i :: 0 <= i < |ks| && x in NodesOf(s, ks)[i]) <==> (exists e :: Holds(s, e) && e.key == x)
  {
    var nodes := NodesOf(s, ks);
    if i :| 0 <= i < |ks| && x in nodes[i] {
      var j :| 0 <= j < |nodes[i]| && nodes[i][j] == x;
      var e := NodeAt(s, ks[i])[j];
      assert ks[i] in ks && e in NodeAt(s, ks[i]);
      assert Holds(s, e);
    }
    if e :| Holds(s, e) && e.key == x {
      var k :| k in s.index && e in NodeAt(s, k);
      assert k in ks;
      var i :| 0 <= i < |ks| && ks[i] == k;
      var j :| 0 <= j < |NodeAt(s, k)| && NodeAt(s, k)[j] == e;
      assert nodes[i][j] == x;
    }
  }

  /** Once nothing is pending, the states that interleaved puts reach are tight. */
  lemma QuietIsTight(m: Machine)
    requires Partitioned(m) && forall t :: t in m.threads ==> !m.threads[t].Committing?
    ensures Tight(m.shared)
  {
    forall k | k in m.shared.index ensures Max(NodeAt(m.shared, k)) == k {
      assert !Awaited(m, m.shared.index[k], k);
    }
  }

  /** So after any interleaving of puts that kept the partition, a range over the quiet set is a
      range over exactly what is stored. */
  lemma QuietIsAtRest(ms: seq<Machine>, steps: seq<Step>, i: nat) returns (ks: seq<int>)
    requires IsRun(ms, steps) && OnlyPuts(steps) && SafelyPartitioned(ms[0]) && i < |ms|
    requires forall j :: 0 <= j < |steps| ==> OneSplitPerNode(ms[j])
    requires forall t :: t in ms[i].threads ==> !ms[i].threads[t].Committing?
    ensures Ok(ms[i]) && Lists(ks, ms[i].shared)
    ensures forall k :: k in ks ==> k in ms[i].shared.index && ms[i].shared.index[k] in ms[i].shared.heap
    ensures RangeCursor.AtRest(NodesOf(ms[i].shared, ks))
    ensures forall x :: x in Flatten(NodesOf(ms[i].shared, ks)) <==> exists e :: Holds(ms[i].shared, e) && e.key == x
  {
    PutsKeepThePartition(ms, steps, i);
    QuietIsTight(ms[i]);
    ks := TightIsAtRest(ms[i].shared);
  }
}
