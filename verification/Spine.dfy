/**
 The two-level sequence of the single-threaded tree: a non-empty list of nodes, none empty unless
 it is alone, whose concatenation is strictly ascending.  Every edit of a node is related here to
 an edit of the concatenation.
 */
module Spine {
  import opened Basics
  import opened NodeOps
  import opened Flattening

  ghost predicate Shape(ss: seq<Node>) {
    && ss != []
    && (|ss| > 1 ==> forall i :: 0 <= i < |ss| ==> ss[i] != [])
    && Sorted(Flatten(ss))
  }

  /** Node i is where key k is, or where it would have to go. */
  ghost predicate Home(ss: seq<Node>, i: nat, k: int) {
    && i < |ss|
    && Offset(ss, i) <= Point(Flatten(ss), k) <= Offset(ss, i + 1)
    && (Point(Flatten(ss), k) == Offset(ss, i + 1) ==> !Has(Flatten(ss), k))
  }

  lemma NodeIsSorted(ss: seq<Node>, i: nat)
    requires Sorted(Flatten(ss)) && i < |ss|
    ensures Sorted(ss[i])
  {
    forall x, y | 0 <= x < y < |ss[i]| ensures ss[i][x].key < ss[i][y].key {
      FlattenAt(ss, i, x);
      FlattenAt(ss, i, y);
    }
  }

  /** At home, searching the node is searching the whole. */
  lemma AtHome(ss: seq<Node>, i: nat, k: int)
    requires Sorted(Flatten(ss)) && Home(ss, i, k)
    ensures Sorted(ss[i])
    ensures Point(Flatten(ss), k) == Offset(ss, i) + Point(ss[i], k)
    ensures Has(ss[i], k) <==> Has(Flatten(ss), k)
  {
    NodeIsSorted(ss, i);
    FlattenAround(ss, i);
    var p := Point(Flatten(ss), k) - Offset(ss, i);
    forall x | 0 <= x < p ensures ss[i][x].key < k { FlattenAt(ss, i, x); }
    if p < |ss[i]| { FlattenAt(ss, i, p); }
    PointUnique(ss[i], k, p);
  }

  /** Replacing node i by some nodes replaces its stretch of the concatenation. */
  lemma FlattenSplice<T>(ss: seq<seq<T>>, i: nat, mid: seq<seq<T>>)
    requires i < |ss|
    ensures Flatten(ss[..i] + mid + ss[i + 1..]) == Flatten(ss[..i]) + Flatten(mid) + Flatten(ss[i + 1..])
  {
    hide Flatten;
    FlattenAppend(ss[..i] + mid, ss[i + 1..]);
    FlattenAppend(ss[..i], mid);
  }

  lemma FlattenUpdate<T>(ss: seq<seq<T>>, i: nat, s: seq<T>)
    requires i < |ss|
    ensures Flatten(ss[i := s]) == Flatten(ss[..i]) + s + Flatten(ss[i + 1..])
  {
    hide Flatten;
    assert ss[i := s] == ss[..i] + [s] + ss[i + 1..];
    FlattenSplice(ss, i, [s]);
    FlattenOne(s);
  }

  // ---------------------------------------------------------------- insertion

  lemma InsertedWithin(a: Node, n: Node, b: Node, j: nat, e: Pair)
    requires j <= |n|
    ensures a + Inserted(n, j, e) + b == Inserted(a + n + b, |a| + j, e)
  {
  }

  lemma InsertInNode(ss: seq<Node>, i: nat, j: nat, e: Pair)
    requires i < |ss| && j <= |ss[i]|
    ensures Offset(ss, i) + j <= |Flatten(ss)|
    ensures Flatten(ss[i := Inserted(ss[i], j, e)]) == Inserted(Flatten(ss), Offset(ss, i) + j, e)
  {
    hide Flatten;
    FlattenAround(ss, i);
    FlattenUpdate(ss, i, Inserted(ss[i], j, e));
    InsertedWithin(Flatten(ss[..i]), ss[i], Flatten(ss[i + 1..]), j, e);
  }

  /** Adding an absent key to its home node adds it to the whole. */
  lemma InsertAtHome(ss: seq<Node>, i: nat, e: Pair)
    requires Shape(ss) && Home(ss, i, e.key) && !Has(Flatten(ss), e.key)
    ensures !Has(ss[i], e.key)
    ensures var ss' := ss[i := Stored(ss[i], e)];
            Shape(ss') && Flatten(ss') == Stored(Flatten(ss), e)
  {
    hide Flatten, Offset, Sorted;
    AtHome(ss, i, e.key);
    InsertInNode(ss, i, Point(ss[i], e.key), e);
    StoredMeaning(Flatten(ss), e);
  }

  /** Putting two adjacent halves in the place of node i. */
  function Halved(ss: seq<Node>, i: nat, lower: Node, upper: Node): seq<Node>
    requires i < |ss|
  {
    ss[..i] + [lower, upper] + ss[i + 1..]
  }

  lemma HalvedOffsets(ss: seq<Node>, i: nat, lower: Node, upper: Node)
    requires i < |ss| && ss[i] == lower + upper
    ensures Offset(Halved(ss, i, lower, upper), i) == Offset(ss, i)
    ensures Offset(Halved(ss, i, lower, upper), i + 1) == Offset(ss, i) + |lower|
    ensures Offset(Halved(ss, i, lower, upper), i + 2) == Offset(ss, i + 1)
  {
    var ss' := Halved(ss, i, lower, upper);
    assert ss'[..i] == ss[..i];
    OffsetStep(ss', i);
    OffsetStep(ss', i + 1);
    OffsetStep(ss, i);
  }

  lemma HalvedFlatten(ss: seq<Node>, i: nat, lower: Node, upper: Node)
    requires i < |ss| && ss[i] == lower + upper
    ensures Flatten(Halved(ss, i, lower, upper)) == Flatten(ss)
  {
    FlattenSplice(ss, i, [lower, upper]);
    assert [lower, upper][1..] == [upper];
    FlattenOne(upper);
    FlattenAround(ss, i);
  }

  lemma HalvedMeaning(ss: seq<Node>, i: nat, lower: Node, upper: Node)
    requires Shape(ss) && i < |ss| && ss[i] == lower + upper && lower != [] && upper != []
    ensures Shape(Halved(ss, i, lower, upper)) && Flatten(Halved(ss, i, lower, upper)) == Flatten(ss)
  {
    HalvedFlatten(ss, i, lower, upper);
  }

  /** The half chosen by comparing with the least element of the upper half is the home. */
  lemma HomeInHalf(ss: seq<Node>, i: nat, lower: Node, upper: Node, k: int)
    requires Shape(ss) && Home(ss, i, k) && ss[i] == lower + upper && lower != [] && upper != []
    ensures Home(Halved(ss, i, lower, upper), if k >= upper[0].key then i + 1 else i, k)
  {
    HalvedFlatten(ss, i, lower, upper);
    HalvedOffsets(ss, i, lower, upper);
    FlattenAt(ss, i, |lower|);
  }

  // ---------------------------------------------------------------- removal

  lemma RemoveInNode(ss: seq<Node>, i: nat, j: nat)
    requires i < |ss| && j < |ss[i]|
    ensures Offset(ss, i) + j < |Flatten(ss)|
    ensures Flatten(ss[i := Removed(ss[i], j)]) == Removed(Flatten(ss), Offset(ss, i) + j)
  {
    hide Flatten;
    FlattenAround(ss, i);
    FlattenUpdate(ss, i, Removed(ss[i], j));
  }

  lemma DropEmpty<T>(ss: seq<seq<T>>, i: nat)
    requires i < |ss| && ss[i] == []
    ensures Flatten(ss[..i] + ss[i + 1..]) == Flatten(ss)
  {
    hide Flatten;
    FlattenAround(ss, i);
    FlattenAppend(ss[..i], ss[i + 1..]);
  }

  /** The nodes once the element at (i, j) is gone and, with it, its node if that is now empty and
      not the only one. */
  function Without(ss: seq<Node>, i: nat, j: nat): seq<Node>
    requires i < |ss| && j < |ss[i]|
  {
    if |ss[i]| == 1 && |ss| > 1 then ss[..i] + ss[i + 1..] else ss[i := Removed(ss[i], j)]
  }

  lemma WithoutFlatten(ss: seq<Node>, i: nat, j: nat)
    requires i < |ss| && j < |ss[i]|
    ensures Offset(ss, i) + j < |Flatten(ss)|
    ensures Flatten(Without(ss, i, j)) == Removed(Flatten(ss), Offset(ss, i) + j)
  {
    hide Flatten;
    RemoveInNode(ss, i, j);
    if |ss[i]| == 1 && |ss| > 1 {
      var t := ss[i := Removed(ss[i], j)];
      assert t[..i] == ss[..i] && t[i + 1..] == ss[i + 1..];
      DropEmpty(t, i);
    }
  }

  lemma WithoutMeaning(ss: seq<Node>, i: nat, j: nat)
    requires Shape(ss) && i < |ss| && j < |ss[i]|
    ensures Offset(ss, i) + j < |Flatten(ss)|
    ensures Shape(Without(ss, i, j)) && Flatten(Without(ss, i, j)) == Removed(Flatten(ss), Offset(ss, i) + j)
  {
    hide Flatten, Offset, Sorted;
    WithoutFlatten(ss, i, j);
    RemovedMeaning(Flatten(ss), Offset(ss, i) + j);
  }

  // ---------------------------------------------------------------- overwriting in place

  lemma OverwriteInNode(ss: seq<Node>, i: nat, j: nat, e: Pair)
    requires i < |ss| && j < |ss[i]|
    ensures Offset(ss, i) + j < |Flatten(ss)|
    ensures Flatten(ss[i := ss[i][j := e]]) == Flatten(ss)[Offset(ss, i) + j := e]
  {
    hide Flatten;
    FlattenAround(ss, i);
    FlattenUpdate(ss, i, ss[i][j := e]);
  }

  lemma OverwriteAtHome(ss: seq<Node>, i: nat, e: Pair)
    requires Shape(ss) && Home(ss, i, e.key) && Has(Flatten(ss), e.key)
    ensures Has(ss[i], e.key)
    ensures var ss' := ss[i := ss[i][Point(ss[i], e.key) := e]];
            Shape(ss') && Flatten(ss') == Stored(Flatten(ss), e)
  {
    hide Flatten, Offset, Sorted;
    AtHome(ss, i, e.key);
    OverwriteInNode(ss, i, Point(ss[i], e.key), e);
    StoredMeaning(Flatten(ss), e);
  }

  // ---------------------------------------------------------------- cutting in two

  /** The parts of a sequence on either side of one updated place. */
  lemma UpdatedParts<T>(ss: seq<T>, i: nat, x: T)
    requires i < |ss|
    ensures ss[i := x][..i + 1] == ss[..i] + [x] && ss[i := x][i + 1..] == ss[i + 1..]
  {
  }

  function Turned<T>(s: seq<T>): (t: seq<T>)
    ensures |t| == |s| && forall x :: 0 <= x < |s| ==> t[x] == s[|s| - 1 - x]
  {
    seq(|s|, x requires 0 <= x < |s| => s[|s| - 1 - x])
  }

  /** The last n elements of a sequence, in the order in which they are popped off. */
  ghost predicate PoppedOff<T>(ss: seq<T>, popped: seq<T>, left: seq<T>) {
    left + Turned(popped) == ss
  }

  lemma PopOne<T>(ss: seq<T>, popped: seq<T>, left: seq<T>)
    requires PoppedOff(ss, popped, left) && left != []
    ensures PoppedOff(ss, popped + [left[|left| - 1]], left[..|left| - 1])
  {
    var last := left[|left| - 1];
    assert Turned(popped + [last]) == [last] + Turned(popped);
    assert left == left[..|left| - 1] + [last];
  }

  /** What stays and what goes when the spine is cut inside node i, before position j. */
  function Kept(ss: seq<Node>, i: nat, j: nat): seq<Node>
    requires i < |ss| && j <= |ss[i]|
  {
    if j == 0 && i > 0 then ss[..i] else ss[..i] + [ss[i][..j]]
  }

  function Cut(ss: seq<Node>, i: nat, j: nat): seq<Node>
    requires i < |ss| && j <= |ss[i]|
  {
    [ss[i][j..]] + ss[i + 1..]
  }

  lemma CutMeetsKept(ss: seq<Node>, i: nat, j: nat)
    requires i < |ss| && j <= |ss[i]|
    ensures Flatten(Kept(ss, i, j)) == Flatten(ss[..i]) + ss[i][..j]
    ensures Flatten(Kept(ss, i, j)) + Flatten(Cut(ss, i, j)) == Flatten(ss)
  {
    hide Flatten;
    FlattenAppend(ss[..i], [ss[i][..j]]);
    FlattenOne(ss[i][..j]);
    FlattenAppend([ss[i][j..]], ss[i + 1..]);
    FlattenOne(ss[i][j..]);
    FlattenAround(ss, i);
    assert ss[i] == ss[i][..j] + ss[i][j..];
  }

  lemma CutAtHome(ss: seq<Node>, i: nat, k: int)
    requires Shape(ss) && Home(ss, i, k) && (i + 1 < |ss| ==> Point(ss[i], k) < |ss[i]|)
    ensures var j := Point(ss[i], k);
            var p := Point(Flatten(ss), k);
            && Shape(Kept(ss, i, j)) && Flatten(Kept(ss, i, j)) == Flatten(ss)[..p]
            && Shape(Cut(ss, i, j)) && Flatten(Cut(ss, i, j)) == Flatten(ss)[p..]
  {
    hide Flatten;
    var j := Point(ss[i], k);
    var p := Point(Flatten(ss), k);
    AtHome(ss, i, k);
    CutMeetsKept(ss, i, j);
    assert |Flatten(Kept(ss, i, j))| == p;
    CutMeaning(Flatten(ss), p);
  }

  lemma PiecesAreNoLonger(ss: seq<Node>, i: nat, j: nat, cap: nat)
    requires i < |ss| && j <= |ss[i]| && forall x :: 0 <= x < |ss| ==> |ss[x]| <= cap
    ensures forall x :: 0 <= x < |Kept(ss, i, j)| ==> |Kept(ss, i, j)[x]| <= cap
    ensures forall x :: 0 <= x < |Cut(ss, i, j)| ==> |Cut(ss, i, j)[x]| <= cap
  {
  }
}
