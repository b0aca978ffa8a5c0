/**
 The single-threaded set: nodes, their measured lengths and a cached total, changed in place.

 `Contents` is the concatenation of the nodes.  Every method says what it does to that one
 sequence; `SetSpec` says what this means.
 */
module TreeSet {
  import opened Basics
  import opened NodeOps
  import opened Flattening
  import opened Spine
  import opened SetSpec
  import Fenwick
  import opened Retention

  const DEFAULT_INNER_SIZE: nat := 1024

  method PartitionPoint(n: Node, k: int) returns (p: nat)
    requires Sorted(n)
    ensures p == Point(n, k)
  {
    p := 0;
    while p < |n| && n[p].key < k
      invariant p <= |n| && forall x :: 0 <= x < p ==> n[x].key < k
    {
      p := p + 1;
    }
    PointUnique(n, k, p);
  }

  class BTreeSet {
    const nodeCapacity: nat
    var inner: seq<Node>
    var index: seq<nat>
    var len: nat

    ghost function Contents(): Node
      reads this
    {
      Flatten(inner)
    }

    ghost predicate Valid()
      reads this
    {
      && 2 <= nodeCapacity
      && Shape(inner)
      && Fenwick.Measures(index, inner)
      && len == |Contents()|
    }

    lemma ContentsAreSorted()
      requires Valid()
      ensures Sorted(Contents())
    {
    }

    ghost predicate WithinCapacity()
      reads this
    {
      forall i :: 0 <= i < |inner| ==> |inner[i]| <= nodeCapacity
    }

    constructor (maximumNodeSize: nat)
      requires 2 <= maximumNodeSize
      ensures Valid() && WithinCapacity() && Contents() == [] && nodeCapacity == maximumNodeSize
    {
      nodeCapacity := maximumNodeSize;
      inner := [[]];
      index := [0];
      len := 0;
      new;
      FlattenOne<Pair>([]);
    }

    method Clear()
      requires Valid()
      modifies this
      ensures Valid() && WithinCapacity()
      ensures Contents() == Applied(old(Contents()), Call.Clear)
    {
      inner := [[]];
      index := Fenwick.FromNodes(inner);
      len := 0;
      FlattenOne<Pair>([]);
    }

    // -------------------------------------------------------------- finding places

    /** The first node whose greatest entry is not below k, else the last node. */
    method LocateNode(k: int) returns (node: nat)
      requires Valid()
      ensures Home(inner, node, k)
      ensures node + 1 < |inner| ==> Point(inner[node], k) < |inner[node]|
    {
      hide Flatten, Fenwick.Measures;
      OffsetEnds(inner);
      node := 0;
      while node < |inner| && inner[node] != [] && Max(inner[node]) < k
        invariant node <= |inner| && Offset(inner, node) <= Point(Contents(), k)
      {
        FlattenAt(inner, node, |inner[node]| - 1);
        OffsetStep(inner, node);
        node := node + 1;
      }
      if node == |inner| {
        node := node - 1;
        OffsetStep(inner, node);
        OffsetMonotone(inner, node, node + 1);
      } else {
        OffsetStep(inner, node);
        if inner[node] != [] { FlattenAt(inner, node, |inner[node]| - 1); }
      }
      AtHome(inner, node, k);
    }

    method LocateValue(k: int) returns (node: nat, position: nat)
      requires Valid()
      ensures Home(inner, node, k) && position == Point(inner[node], k)
      ensures node + 1 < |inner| ==> position < |inner[node]|
      ensures Offset(inner, node) + position == Point(Contents(), k)
    {
      node := LocateNode(k);
      AtHome(inner, node, k);
      position := PartitionPoint(inner[node], k);
    }

    /** The place of the i-th entry; just past the last node when there is none. */
    method LocateIth(i: nat) returns (node: nat, position: nat)
      requires Valid()
      ensures i < |Contents()| ==> node < |inner| && position < |inner[node]| && Offset(inner, node) + position == i
      ensures i >= |Contents()| ==> node == |inner|
    {
      node := Fenwick.IndexOf(index, i);
      Fenwick.PrefixIsOffset(index, inner, node);
      var offset := 0;
      if node != 0 {
        offset := Fenwick.PrefixSum(index, node);
      }
      OffsetEnds(inner);
      position := i - offset;
      if node < |inner| {
        Fenwick.PrefixIsOffset(index, inner, node + 1);
        OffsetStep(inner, node);
        OffsetMonotone(inner, node + 1, |inner|);
        if position == |inner[node]| {
          node := node + 1;
          position := 0;
          if node < |inner| { FlattenAt(inner, node, 0); }
        } else {
          FlattenAt(inner, node, position);
        }
      }
    }

    // -------------------------------------------------------------- reading

    method GetIndex(i: nat) returns (r: Option<Pair>)
      requires Valid()
      ensures r == if i < |Contents()| then Some(Contents()[i]) else None
    {
      var node, position := LocateIth(i);
      if node < |inner| {
        FlattenAt(inner, node, position);
        return Some(inner[node][position]);
      }
      return None;
    }

    /** The first entry that is not below k. */
    method LowerBound(k: int) returns (r: Option<Pair>)
      requires Valid()
      ensures r.None? <==> forall e :: e in Contents() ==> e.key < k
      ensures r.Some? ==> r.value in Contents() && k <= r.value.key
      ensures r.Some? ==> forall e :: e in Contents() && k <= e.key ==> r.value.key <= e.key
    {
      var node, position := LocateValue(k);
      if position < |inner[node]| {
        FlattenAt(inner, node, position);
        return Some(inner[node][position]);
      }
      OffsetStep(inner, node);
      OffsetEnds(inner);
      return None;
    }

    method Contains(k: int) returns (found: bool)
      requires Valid()
      ensures found <==> k in KeySet(Contents())
    {
      var node, position := LocateValue(k);
      AtHome(inner, node, k);
      KeyOf(Contents(), k);
      if position < |inner[node]| {
        return inner[node][position].key == k;
      }
      return false;
    }

    /** How many entries are below k. */
    method Rank(k: int) returns (r: nat)
      requires Valid()
      ensures r == |Below(KeySet(Contents()), k)|
      ensures r == Point(Contents(), k)
    {
      var node, position := LocateValue(k);
      var offset := Fenwick.PrefixSum(index, node);
      Fenwick.PrefixIsOffset(index, inner, node);
      RankCounts(Contents(), k);
      r := offset + position;
    }

    // -------------------------------------------------------------- insertion

    method InsertAt(node: nat, value: Pair) returns (inserted: bool)
      requires Valid() && Home(inner, node, value.key)
      modifies this
      ensures Valid()
      ensures Contents() == Applied(old(Contents()), Call.Insert(value))
      ensures Added(inserted) == Reply(old(Contents()), Call.Insert(value))
      ensures old(WithinCapacity()) ==> WithinCapacity()
      ensures |inner| == |old(inner)| + if |old(inner)[node]| == nodeCapacity then 1 else 0
    {
      if |inner[node]| == nodeCapacity {
        var target := HalveNode(node, value);
        inserted := InsertInto(target, value);
        // The index is rebuilt even when the value was present already.
        index := Fenwick.FromNodes(inner);
        if inserted {
          len := len + 1;
        }
      } else {
        inserted := InsertInto(node, value);
        if inserted {
          index := index[node := index[node] + 1];
          len := len + 1;
        }
      }
    }

    /** Halves a full node; the result is the half to which the value belongs. */
    method HalveNode(node: nat, value: Pair) returns (target: nat)
      requires Valid() && Home(inner, node, value.key) && |inner[node]| == nodeCapacity
      modifies this`inner
      ensures Shape(inner) && Home(inner, target, value.key)
      ensures Contents() == old(Contents()) && |inner| == |old(inner)| + 1
      ensures old(WithinCapacity()) ==> WithinCapacity() && |inner[target]| < nodeCapacity
    {
      hide Flatten, Offset, Sorted;
      var lower, upper := Halve(inner[node]);
      target := node;
      if value.key >= upper[0].key {
        target := target + 1;
      }
      HalvedMeaning(inner, node, lower, upper);
      HomeInHalf(inner, node, lower, upper, value.key);
      inner := inner[node := lower];
      inner := inner[..node + 1] + [upper] + inner[node + 1..];
      assert inner == Halved(old(inner), node, lower, upper);
    }

    method InsertInto(node: nat, value: Pair) returns (inserted: bool)
      requires Shape(inner) && Home(inner, node, value.key)
      modifies this`inner
      ensures Shape(inner) && |inner| == |old(inner)|
      ensures Contents() == Applied(old(Contents()), Call.Insert(value))
      ensures inserted == !Has(old(Contents()), value.key)
      ensures |Contents()| == |old(Contents())| + if inserted then 1 else 0
      ensures forall x :: 0 <= x < |inner| ==> |inner[x]| == |old(inner)[x]| + if inserted && x == node then 1 else 0
    {
      hide Flatten, Offset, Sorted, Stored, Has;
      AtHome(inner, node, value.key);
      var n, isNew, _ := NodeOps.Insert(inner[node], value);
      if isNew {
        InsertAtHome(inner, node, value);
        StoredMeaning(inner[node], value);
        StoredMeaning(Contents(), value);
      }
      assert !isNew ==> inner[node := n] == inner;
      inner := inner[node := n];
      inserted := isNew;
    }

    method Insert(value: Pair) returns (inserted: bool)
      requires Valid()
      modifies this
      ensures Valid()
      ensures Contents() == Applied(old(Contents()), Call.Insert(value))
      ensures Added(inserted) == Reply(old(Contents()), Call.Insert(value))
      ensures old(WithinCapacity()) ==> WithinCapacity()
    {
      var node := LocateNode(value.key);
      inserted := InsertAt(node, value);
    }

    /** Swaps in an entry with the same key, in place. */
    method Overwrite(node: nat, position: nat, e: Pair)
      requires Valid() && Home(inner, node, e.key) && Has(inner[node], e.key) && position == Point(inner[node], e.key)
      requires Has(Contents(), e.key)
      modifies this`inner
      ensures Valid() && Contents() == Stored(old(Contents()), e)
      ensures old(WithinCapacity()) ==> WithinCapacity()
    {
      OverwriteAtHome(inner, node, e);
      StoredMeaning(Contents(), e);
      inner := inner[node := inner[node][position := e]];
    }

    // -------------------------------------------------------------- removal

    /** Removes the entry at a place, and its node if that is left empty and is not the only one. */
    method DeleteAt(node: nat, position: nat) returns (removal: Pair)
      requires Valid() && node < |inner| && position < |inner[node]|
      modifies this
      ensures Valid() && inner == Without(old(inner), node, position)
      ensures var at := Offset(old(inner), node) + position;
              && at < |old(Contents())| && removal == old(Contents())[at]
              && Contents() == Removed(old(Contents()), at)
      ensures old(WithinCapacity()) ==> WithinCapacity()
    {
      hide Shape, Flatten;
      WithoutMeaning(inner, node, position);
      FlattenAt(inner, node, position);
      removal := inner[node][position];
      inner := inner[node := Removed(inner[node], position)];
      var decreaseLength := false;
      if inner[node] == [] {
        if |inner| > 1 {
          inner := inner[..node] + inner[node + 1..];
          len := len - 1;
          index := Fenwick.FromNodes(inner);
        } else {
          decreaseLength := true;
        }
      } else {
        decreaseLength := true;
      }
      if decreaseLength {
        index := index[node := index[node] - 1];
        len := len - 1;
      }
      assert inner == Without(old(inner), node, position);
    }

    method Delete(k: int) returns (removal: Option<Pair>, removed: bool)
      requires Valid()
      modifies this
      ensures Valid()
      ensures Contents() == Applied(old(Contents()), Call.Take(k)) && Was(removal) == Reply(old(Contents()), Call.Take(k))
      ensures removed <==> Has(old(Contents()), k)
      ensures old(WithinCapacity()) ==> WithinCapacity()
    {
      removed := false;
      removal := None;
      var node, position := LocateValue(k);
      AtHome(inner, node, k);
      if position < |inner[node]| && inner[node][position].key == k {
        var e := DeleteAt(node, position);
        removal := Some(e);
        removed := true;
      }
    }

    method Take(k: int) returns (removal: Option<Pair>)
      requires Valid()
      modifies this
      ensures Valid()
      ensures Contents() == Applied(old(Contents()), Call.Take(k)) && Was(removal) == Reply(old(Contents()), Call.Take(k))
      ensures old(WithinCapacity()) ==> WithinCapacity()
    {
      var r, _ := Delete(k);
      removal := r;
    }

    /** Takes an equal entry out, then inserts. */
    method Replace(value: Pair) returns (replaced: Option<Pair>)
      requires Valid()
      modifies this
      ensures Valid()
      ensures Contents() == Applied(old(Contents()), Call.Replace(value))
      ensures Was(replaced) == Reply(old(Contents()), Call.Replace(value))
      ensures old(WithinCapacity()) ==> WithinCapacity()
    {
      TakeThenInsert(Contents(), value);
      replaced := Take(value.key);
      var _ := Insert(value);
    }

    method PopFirst() returns (r: Option<Pair>)
      requires Valid()
      modifies this
      ensures Valid()
      ensures Contents() == Applied(old(Contents()), Call.PopFirst) && Was(r) == Reply(old(Contents()), Call.PopFirst)
      ensures old(WithinCapacity()) ==> WithinCapacity()
    {
      if inner[0] != [] {
        FlattenAt(inner, 0, 0);
        var e := DeleteAt(0, 0);
        return Some(e);
      }
      FlattenOne<Pair>([]);
      assert inner == [[]];
      return None;
    }

    method PopLast() returns (r: Option<Pair>)
      requires Valid()
      modifies this
      ensures Valid()
      ensures Contents() == Applied(old(Contents()), Call.PopLast) && Was(r) == Reply(old(Contents()), Call.PopLast)
      ensures old(WithinCapacity()) ==> WithinCapacity()
    {
      hide Fenwick.Measures;
      var last := |inner| - 1;
      var position := if |inner[last]| == 0 then 0 else |inner[last]| - 1;
      OffsetStep(inner, last);
      OffsetEnds(inner);
      if position < |inner[last]| {
        var e := DeleteAt(last, position);
        return Some(e);
      }
      FlattenOne<Pair>([]);
      assert inner == [[]];
      return None;
    }

    /** Panics when there is no such entry. */
    method PopIndex(i: nat) returns (r: Pair)
      requires Valid() && i < |Contents()|
      modifies this
      ensures Valid()
      ensures Contents() == Applied(old(Contents()), Call.PopIndex(i)) && Was(Some(r)) == Reply(old(Contents()), Call.PopIndex(i))
      ensures old(WithinCapacity()) ==> WithinCapacity()
    {
      var node, position := LocateIth(i);
      r := DeleteAt(node, position);
    }

    // -------------------------------------------------------------- whole-set operations

    /** Keeps the entries that f accepts, when asked about all of them in order; f may have state. */
    method Retain<S>(f: (S, Pair) -> (S, bool), s: S)
      requires Valid()
      modifies this
      ensures Valid()
      ensures Contents() == Chosen(old(Contents()), Decide(old(Contents()), f, s).1)
      ensures old(WithinCapacity()) ==> WithinCapacity()
    {
      hide Shape, Deleting, Filtered, Without;
      ghost var before := inner;
      ContentsAreSorted();
      var places, kept := Rejected(inner, f, s);
      ghost var accepted := (e: Pair) => e in kept;
      FilteredIsChosen(Contents(), Decide(Contents(), f, s).1, accepted);
      DeletingStarts(inner, places, accepted);
      var m: nat := |places|;
      while m > 0
        invariant 0 <= m <= |places| && Valid() && Deleting(inner, before, places, accepted, m)
        invariant old(WithinCapacity()) ==> WithinCapacity()
      {
        DeletingNext(inner, before, places, accepted, m);
        m := m - 1;
        var _ := DeleteAt(places[m].node, places[m].position);
      }
      DeletingEnds(inner, before, places, accepted);
    }

    /** Splits at k: entries below k stay, the others go.  The new set has the default node size,
        whatever the node size of this one. */
    method SplitOff(k: int) returns (latter: BTreeSet)
      requires Valid()
      modifies this
      ensures Valid() && fresh(latter) && latter.Valid() && latter.nodeCapacity == DEFAULT_INNER_SIZE
      ensures Contents() == old(Contents())[..Point(old(Contents()), k)]
      ensures latter.Contents() == old(Contents())[Point(old(Contents()), k)..]
      ensures old(WithinCapacity()) ==> WithinCapacity()
      ensures old(WithinCapacity()) && nodeCapacity <= DEFAULT_INNER_SIZE ==> latter.WithinCapacity()
    {
      var node, position := LocateValue(k);
      CutAtHome(inner, node, k);
      if WithinCapacity() { PiecesAreNoLonger(inner, node, position, nodeCapacity); }
      latter := SplitAt(node, position);
    }

    method SplitAt(node: nat, position: nat) returns (latter: BTreeSet)
      requires Valid() && node < |inner| && position <= |inner[node]|
      requires Shape(Kept(inner, node, position)) && Shape(Cut(inner, node, position))
      modifies this
      ensures fresh(latter) && latter.nodeCapacity == DEFAULT_INNER_SIZE
      ensures latter.Valid() && latter.inner == Cut(old(inner), node, position)
      ensures Valid() && inner == Kept(old(inner), node, position)
    {
      var firstNode := inner[node][position..];
      var remaining := TearOff(node, position);
      remaining := [firstNode] + remaining;
      latter := new BTreeSet(DEFAULT_INNER_SIZE);
      latter.inner := remaining;
      latter.Recount();
      if inner[node] == [] && |inner| > 1 {
        inner := inner[..node] + inner[node + 1..];
      }
      assert inner == Kept(old(inner), node, position);
      Recount();
    }

    /** Cuts the node and pops every later node off the spine; these are returned in order. */
    method TearOff(node: nat, position: nat) returns (remaining: seq<Node>)
      requires node < |inner| && position <= |inner[node]|
      modifies this`inner
      ensures remaining == old(inner)[node + 1..]
      ensures inner == old(inner)[..node] + [old(inner)[node][..position]]
    {
      UpdatedParts(inner, node, inner[node][..position]);
      inner := inner[node := inner[node][..position]];
      ghost var cut := inner;
      var popped: seq<Node> := [];
      assert PoppedOff(cut, popped, inner);
      while |inner| > node + 1
        invariant node + 1 <= |inner| && PoppedOff(cut, popped, inner)
      {
        PopOne(cut, popped, inner);
        popped := popped + [inner[|inner| - 1]];
        inner := inner[..|inner| - 1];
      }
      remaining := Turned(popped);
      assert inner == cut[..node + 1] && remaining == cut[node + 1..];
    }

    /** Rebuilds the index and the total from the nodes. */
    method Recount()
      requires Shape(inner) && 2 <= nodeCapacity
      modifies this`index, this`len
      ensures Valid()
    {
      index := Fenwick.FromNodes(inner);
      len := Fenwick.PrefixSum(index, |index|);
      Fenwick.PrefixIsOffset(index, inner, |inner|);
      OffsetEnds(inner);
    }

    /** Moves every entry of the other set into this one, replacing equal entries. */
    method Append(other: BTreeSet)
      requires Valid() && other.Valid() && other != this
      modifies this, other
      ensures Valid() && other.Valid()
      ensures other.Contents() == []
      ensures Contents() == Absorbed(old(Contents()), old(other.Contents()))
      ensures old(WithinCapacity()) ==> WithinCapacity()
    {
      var value := other.PopFirst();
      while value.Some?
        invariant Valid() && other.Valid()
        invariant value.None? ==> other.Contents() == []
        invariant Absorbed(old(Contents()), old(other.Contents())) ==
                  Absorbed(Contents(), (if value.Some? then [value.value] else []) + other.Contents())
        invariant old(WithinCapacity()) ==> WithinCapacity()
        decreases |other.Contents()|, value.Some?
      {
        ghost var pending := [value.value] + other.Contents();
        assert pending[1..] == other.Contents();
        var _ := Replace(value.value);
        value := other.PopFirst();
      }
    }
  }

  /** Appending what was split off restores the set. */
  method SplitOffThenAppend(s: BTreeSet, k: int) returns (latter: BTreeSet)
    requires s.Valid()
    modifies s
    ensures s.Valid() && s.Contents() == old(s.Contents())
    ensures latter.Valid() && latter.Contents() == []
  {
    AbsorbedRestores(s.Contents(), Point(s.Contents(), k));
    latter := s.SplitOff(k);
    s.Append(latter);
  }
}
