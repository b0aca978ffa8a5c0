/** The double-ended iterator of the single-threaded tree, also over a range of positions. */
module TreeIter {
  import opened Basics
  import opened NodeOps
  import opened Flattening
  import opened Spine
  import opened TreeSet
  import opened Spans
  import Fenwick

  function Slice(held: Option<seq<Pair>>): seq<Pair> {
    match held
    case Some(s) => s
    case None => []
  }

  /** The slice is the rest of a node, and the element after `idx` others comes next. */
  ghost predicate FrontAt(ss: seq<Node>, node: nat, idx: nat, slice: seq<Pair>) {
    if slice != [] then
      && node < |ss| && |slice| <= |ss[node]|
      && slice == ss[node][|ss[node]| - |slice|..]
      && idx + |slice| == Offset(ss, node + 1)
    else
      if node < |ss| then idx == Offset(ss, node + 1) else idx >= |Flatten(ss)|
  }

  /** The slice is the beginning of a node, and `hi` elements lie before its end. */
  ghost predicate BackAt(ss: seq<Node>, node: nat, hi: nat, slice: seq<Pair>) {
    && node <= |ss|
    && if slice != [] then
         && node < |ss| && |slice| <= |ss[node]|
         && slice == ss[node][..|slice|]
         && hi == Offset(ss, node) + |slice|
       else
         hi == Offset(ss, node)
  }

  lemma FrontTakes(ss: seq<Node>, node: nat, idx: nat, slice: seq<Pair>)
    requires FrontAt(ss, node, idx, slice) && slice != []
    ensures idx < |Flatten(ss)| && slice[0] == Flatten(ss)[idx]
    ensures FrontAt(ss, node, idx + 1, slice[1..])
  {
    FlattenAt(ss, node, |ss[node]| - |slice|);
    OffsetStep(ss, node);
  }

  lemma FrontAdvances(ss: seq<Node>, node: nat, idx: nat)
    requires Shape(ss) && FrontAt(ss, node, idx, [])
    ensures node + 1 < |ss| ==> FrontAt(ss, node + 1, idx, ss[node + 1])
    ensures node + 1 >= |ss| ==> FrontAt(ss, node + 1, idx, []) && idx >= |Flatten(ss)|
  {
    OffsetEnds(ss);
    if node + 1 < |ss| { OffsetStep(ss, node + 1); }
  }

  lemma BackTakes(ss: seq<Node>, node: nat, hi: nat, slice: seq<Pair>)
    requires BackAt(ss, node, hi, slice) && slice != []
    ensures 0 < hi <= |Flatten(ss)| && slice[|slice| - 1] == Flatten(ss)[hi - 1]
    ensures BackAt(ss, node, hi - 1, slice[..|slice| - 1])
  {
    FlattenAt(ss, node, |slice| - 1);
  }

  lemma BackAdvances(ss: seq<Node>, node: nat, hi: nat)
    requires BackAt(ss, node, hi, [])
    ensures node == 0 ==> hi == 0
    ensures 0 < node ==> BackAt(ss, node - 1, hi, ss[node - 1])
  {
    OffsetEnds(ss);
    if 0 < node { OffsetStep(ss, node - 1); }
  }

  /** The place of position i; just past the last node when there is none. */
  ghost predicate IsPlace(ss: seq<Node>, i: nat, node: nat, at: nat) {
    if i < |Flatten(ss)| then node < |ss| && at < |ss[node]| && Offset(ss, node) + at == i else node == |ss|
  }

  /** Both slices of a range are where they should be. */
  lemma RangeStarts(ss: seq<Node>, front: nat, fNode: nat, fAt: nat, back: nat, bNode: nat, bAt: nat)
    requires IsPlace(ss, front, fNode, fAt) && IsPlace(ss, back, bNode, bAt)
    ensures FrontAt(ss, fNode, front, if fNode < |ss| then ss[fNode][fAt..] else [])
    ensures BackAt(ss, bNode, if back < |Flatten(ss)| then back + 1 else |Flatten(ss)|, if bNode < |ss| then ss[bNode][..bAt + 1] else [])
  {
    OffsetEnds(ss);
    if fNode < |ss| { OffsetStep(ss, fNode); }
  }

  class Iter {
    const btree: BTreeSet
    var frontNode: nat
    var frontIdx: nat
    var backNode: nat
    var backIdx: nat
    var frontIter: Option<seq<Pair>>
    var backIter: Option<seq<Pair>>
    ghost const spare: nat

    ghost function Elements(): seq<Pair>
      reads this, btree
    {
      btree.Contents()
    }

    ghost predicate Valid()
      reads this, btree
    {
      && btree.Valid()
      && spare <= backIdx
      && FrontAt(btree.inner, frontNode, frontIdx, Slice(frontIter))
      && BackAt(btree.inner, backNode, backIdx - spare, Slice(backIter))
      && View().hi <= |Elements()|
    }

    ghost function View(): Span
      reads this
    {
      Span(frontIdx, if spare <= backIdx then backIdx - spare else 0, spare)
    }

    /** What is still to come, when the range ended within the elements. */
    ghost function Remaining(): seq<Pair>
      reads this, btree
      requires Valid() && spare == 0 && frontIdx <= backIdx
    {
      Elements()[frontIdx..backIdx]
    }

    /** Over all elements. */
    constructor (tree: BTreeSet)
      requires tree.Valid()
      ensures Valid() && btree == tree
      ensures View() == Span(0, |tree.Contents()|, 0)
      ensures Remaining() == tree.Contents()
    {
      btree := tree;
      frontNode := 0;
      frontIdx := 0;
      backNode := |tree.inner| - 1;
      backIdx := tree.len;
      frontIter := Some(tree.inner[0]);
      backIter := Some(tree.inner[|tree.inner| - 1]);
      spare := 0;
      new;
      OffsetStep(tree.inner, 0);
      OffsetStep(tree.inner, |tree.inner| - 1);
      OffsetEnds(tree.inner);
    }

    /** Over the positions of a range.  A position is not negative, and an end excluding position
        zero stops the program. */
    constructor RangeIdx(tree: BTreeSet, start: Bound, end: Bound)
      requires tree.Valid()
      requires 0 <= First(start) && 0 <= Last(end, |tree.Contents()|)
      ensures Valid() && btree == tree
      ensures View() == Ranging(First(start), Last(end, |tree.Contents()|), |tree.Contents()|)
      ensures EmitsExactly(View(), start, end, |tree.Contents()|) <==>
                |tree.Contents()| == 0 || WithinAndOrdered(start, end, |tree.Contents()|)
    {
      hide FrontAt, BackAt, BTreeSet.Valid, IsPlace, EmitsExactly, WithinAndOrdered, Flatten;
      var front, fNode, fAt, back, bNode, bAt := ResolveRange(tree, start, end);
      btree := tree;
      frontNode, frontIdx := fNode, front;
      backNode, backIdx := bNode, back + 1;
      frontIter := if fNode < |tree.inner| then Some(tree.inner[fNode][fAt..]) else None;
      backIter := if bNode < |tree.inner| then Some(tree.inner[bNode][..bAt + 1]) else None;
      spare := if back < |tree.Contents()| then 0 else back + 1 - |tree.Contents()|;
      new;
      RangeStarts(tree.inner, front, fNode, fAt, back, bNode, bAt);
      BoundsExactly(start, end, |tree.Contents()|);
    }

    /** The positions at both ends, and their places. */
    static method ResolveRange(tree: BTreeSet, start: Bound, end: Bound)
      returns (front: nat, fNode: nat, fAt: nat, back: nat, bNode: nat, bAt: nat)
      requires tree.Valid()
      requires 0 <= First(start) && 0 <= Last(end, |tree.Contents()|)
      ensures front == First(start) && back == Last(end, |tree.Contents()|)
      ensures IsPlace(tree.inner, front, fNode, fAt) && IsPlace(tree.inner, back, bNode, bAt)
    {
      front := 0;
      var total := Fenwick.PrefixSum(tree.index, |tree.inner|);
      Fenwick.PrefixIsOffset(tree.index, tree.inner, |tree.inner|);
      OffsetEnds(tree.inner);
      back := if total == 0 then 0 else total - 1;
      match start {
        case Included(i) => front := i;
        case Excluded(i) => front := i + 1;
        case Unbounded =>
      }
      match end {
        case Included(i) => back := i;
        case Excluded(i) => back := i - 1;
        case Unbounded =>
      }
      fNode, fAt := tree.LocateIth(front);
      bNode, bAt := tree.LocateIth(back);
    }

    method Next() returns (r: Option<Pair>)
      requires Valid()
      modifies this
      ensures Valid()
      ensures View() == FrontStep(old(View()), |Elements()|)
      ensures r == if FrontGives(old(View()), |Elements()|) then Some(Elements()[old(View()).lo]) else None
      decreases if frontNode < |btree.inner| then |btree.inner| - frontNode else 0
    {
      hide FrontAt, BackAt, BTreeSet.Valid;
      if frontIdx == backIdx {
        return None;
      }
      if frontIter.Some? && frontIter.value != [] {
        var value := TakeFront();
        return Some(value);
      }
      var more := AdvanceFront();
      if !more {
        return None;
      }
      r := Next();
    }

    /** Takes the first element of the front slice. */
    method TakeFront() returns (value: Pair)
      requires Valid() && frontIdx != backIdx && Slice(frontIter) != []
      modifies this`frontIter, this`frontIdx
      ensures Valid() && FrontGives(old(View()), |Elements()|) && View() == FrontStep(old(View()), |Elements()|)
      ensures value == Elements()[old(View()).lo]
    {
      hide Shape, FrontAt, BackAt, Flatten;
      FrontTakes(btree.inner, frontNode, frontIdx, frontIter.value);
      value := frontIter.value[0];
      frontIter := Some(frontIter.value[1..]);
      frontIdx := frontIdx + 1;
    }

    /** Leaves the exhausted front node, for the next one if there is one. */
    method AdvanceFront() returns (more: bool)
      requires Valid() && Slice(frontIter) == []
      modifies this`frontIter, this`frontNode
      ensures Valid() && frontNode == old(frontNode) + 1
      ensures View() == old(View())
      ensures more ==> frontNode < |btree.inner|
      ensures !more ==> !FrontGives(View(), |Elements()|)
    {
      FrontAdvances(btree.inner, frontNode, frontIdx);
      frontNode := frontNode + 1;
      if frontNode >= |btree.inner| {
        return false;
      }
      frontIter := Some(btree.inner[frontNode]);
      more := true;
    }

    method NextBack() returns (r: Option<Pair>)
      requires Valid()
      modifies this
      ensures Valid()
      ensures View() == BackStep(old(View()))
      ensures r == if BackGives(old(View())) then Some(Elements()[old(View()).hi - 1]) else None
      decreases backNode
    {
      hide FrontAt, BackAt, BTreeSet.Valid;
      if frontIdx == backIdx {
        return None;
      }
      if backIter.Some? && backIter.value != [] {
        var value := TakeBack();
        return Some(value);
      }
      var more := AdvanceBack();
      if !more {
        return None;
      }
      r := NextBack();
    }

    /** Takes the last element of the back slice. */
    method TakeBack() returns (value: Pair)
      requires Valid() && frontIdx != backIdx && Slice(backIter) != []
      modifies this`backIter, this`backIdx
      ensures Valid() && BackGives(old(View())) && View() == BackStep(old(View()))
      ensures old(View()).hi <= |Elements()| && value == Elements()[old(View()).hi - 1]
    {
      hide Shape, FrontAt, BackAt, Flatten;
      BackTakes(btree.inner, backNode, backIdx - spare, backIter.value);
      value := backIter.value[|backIter.value| - 1];
      backIter := Some(backIter.value[..|backIter.value| - 1]);
      backIdx := backIdx - 1;
    }

    /** Leaves the exhausted back node, for the previous one if there is one. */
    method AdvanceBack() returns (more: bool)
      requires Valid() && Slice(backIter) == []
      modifies this`backIter, this`backNode
      ensures Valid() && View() == old(View())
      ensures more ==> backNode == old(backNode) - 1
      ensures !more ==> !BackGives(View())
    {
      BackAdvances(btree.inner, backNode, backIdx - spare);
      if backNode == 0 {
        return false;
      }
      backNode := backNode - 1;
      backIter := Some(btree.inner[backNode]);
      assert BackAt(btree.inner, backNode, backIdx - spare, Slice(backIter));
      more := true;
    }
  }

  /** The first position a lower bound admits. */
  function First(start: Bound): int {
    match start
    case Included(i) => i
    case Excluded(i) => i + 1
    case Unbounded => 0
  }

  /** The last position an upper bound admits among n. */
  function Last(end: Bound, n: nat): int {
    match end
    case Included(i) => i
    case Excluded(i) => i - 1
    case Unbounded => if n == 0 then 0 else n - 1
  }

  /** Every position that two bounds name, of any kind, is where `First` and `Last` say. */
  lemma FirstToLast(start: Bound, end: Bound, n: nat, p: nat)
    requires 0 <= First(start) && p < n
    ensures First(start) <= p <= Last(end, n) <==> !Before(p, start) && !After(p, end)
  {
  }

  /** p lies after the range; without an upper bound the elements end the range. */
  predicate Past(p: int, end: Bound, n: nat) {
    After(p, end) || (end.Unbounded? && n <= p)
  }

  /** Nothing is ruled out at both ends, and nothing in the range lies beyond the elements. */
  ghost predicate WithinAndOrdered(start: Bound, end: Bound, n: nat) {
    && (forall p: int :: Before(p, start) ==> !Past(p, end, n))
    && (forall p: nat :: !Before(p, start) && !Past(p, end, n) ==> p < n)
  }

  /** Every mix of calls emits positions that both bounds admit, none twice, and given enough calls
      all of them. */
  ghost predicate EmitsExactly(v: Span, start: Bound, end: Bound, n: nat) {
    forall calls ::
      && (forall p :: p in Emitted(v, n, calls) ==> p < n && !Before(p, start) && !After(p, end))
      && Distinct(Emitted(v, n, calls))
      && (n <= |calls| ==>
            forall p: nat :: p < n && !Before(p, start) && !After(p, end) ==> p in Emitted(v, n, calls))
  }

  lemma OrderedMeans(start: Bound, end: Bound, n: nat)
    requires 0 <= First(start) && 0 <= Last(end, n) && 0 < n
    ensures var (a, b) := (First(start), Last(end, n));
            WithinAndOrdered(start, end, n) <==> a <= b < n || a == b + 1
  {
    var a, b := First(start), Last(end, n);
    forall p: int ensures (Before(p, start) <==> !start.Unbounded? && p < a) && (Past(p, end, n) <==> b < p) {}
    if b + 1 < a { assert Before(a - 1, start) && Past(a - 1, end, n); }
    if a <= b && n <= b { assert !Before(b, start) && !Past(b, end, n); }
  }

  lemma InRangeIsEmitted(start: Bound, end: Bound, n: nat, calls: seq<bool>)
    requires 0 <= First(start) && 0 <= Last(end, n) && n <= |calls|
    requires n == 0 || WithinAndOrdered(start, end, n)
    ensures forall p: nat :: p < n && !Before(p, start) && !After(p, end) ==>
              p in Emitted(Ranging(First(start), Last(end, n), n), n, calls)
  {
    forall p: nat | p < n && !Before(p, start) && !After(p, end)
      ensures p in Emitted(Ranging(First(start), Last(end, n), n), n, calls)
    {
      FirstToLast(start, end, n, p);
      OrderedMeans(start, end, n);
      EverythingIsEmitted(Ranging(First(start), Last(end, n), n), n, calls, p);
    }
  }

  lemma EmittedIsInRange(start: Bound, end: Bound, n: nat, calls: seq<bool>, p: nat)
    requires 0 <= First(start) && 0 <= Last(end, n) && Faithful(First(start), Last(end, n), n)
    requires p in Emitted(Ranging(First(start), Last(end, n), n), n, calls)
    ensures p < n && !Before(p, start) && !After(p, end)
  {
    var v := Ranging(First(start), Last(end, n), n);
    EmittedBelow(v, n, calls);
    assert First(start) <= p <= Last(end, n);
    FirstToLast(start, end, n, p);
  }

  /** For bounds of all kinds: any mix of calls emits exactly the positions that both bounds admit if
      and only if there are no elements, or nothing is ruled out at both ends and nothing in the range
      lies beyond the elements. */
  lemma BoundsExactly(start: Bound, end: Bound, n: nat)
    requires 0 <= First(start) && 0 <= Last(end, n)
    ensures EmitsExactly(Ranging(First(start), Last(end, n), n), start, end, n)
            <==> n == 0 || WithinAndOrdered(start, end, n)
  {
    var a, b := First(start), Last(end, n);
    var v := Ranging(a, b, n);
    FaithfulExactly(a, b, n);
    if 0 < n { OrderedMeans(start, end, n); }
    if n == 0 || WithinAndOrdered(start, end, n) {
      forall calls
        ensures Distinct(Emitted(v, n, calls))
        ensures forall p :: p in Emitted(v, n, calls) ==> p < n && !Before(p, start) && !After(p, end)
        ensures n <= |calls| ==>
                  forall p: nat :: p < n && !Before(p, start) && !After(p, end) ==> p in Emitted(v, n, calls)
      {
        forall p | p in Emitted(v, n, calls) ensures p < n && !Before(p, start) && !After(p, end) {
          EmittedIsInRange(start, end, n, calls, p);
        }
        if n <= |calls| { InRangeIsEmitted(start, end, n, calls); }
      }
    } else if EmitsExactly(v, start, end, n) {
      forall calls ensures (forall p :: p in Emitted(v, n, calls) ==> a <= p <= b) && Distinct(Emitted(v, n, calls)) {
        forall p | p in Emitted(v, n, calls) ensures a <= p <= b { FirstToLast(start, end, n, p); }
      }
      assert Faithful(a, b, n);
    }
  }
}
