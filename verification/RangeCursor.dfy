/**
 The double-ended cursor of the concurrent set, on a set at rest.

 The nodes are listed in key order and an entry of the index is a position in that list; the key
 of a node is its greatest element.  Elements are compared by their own order, range bounds by a
 borrowed form of the elements that may be coarser.  A held slice iterator is a span of positions
 in its node.
 */
module RangeCursor {
  import opened Basics
  import opened NodeOps
  import opened Flattening
  import opened CursorViews

  ghost predicate Strict(s: seq<int>) {
    forall i, j :: 0 <= i < j < |s| ==> s[i] < s[j]
  }

  /** A set at rest: no node is empty and all elements are in strictly ascending order. */
  ghost predicate AtRest(nodes: seq<seq<int>>) {
    && Strict(Flatten(nodes))
    && forall i :: 0 <= i < |nodes| ==> nodes[i] != []
  }

  /** The borrowed form follows the order of the elements. */
  ghost predicate Monotone(borrow: int -> int) {
    forall x, y :: x <= y ==> borrow(x) <= borrow(y)
  }

  datatype Span = Span(lo: nat, hi: nat)

  lemma NodeIsStrict(nodes: seq<seq<int>>, i: nat)
    requires AtRest(nodes) && i < |nodes|
    ensures Strict(nodes[i]) && Ascending(nodes[i])
  {
    forall a, b | 0 <= a < b < |nodes[i]| ensures nodes[i][a] < nodes[i][b] {
      FlattenAt(nodes, i, a);
      FlattenAt(nodes, i, b);
    }
  }

  /** A window of the elements. */
  ghost predicate Window(elements: seq<int>, n: seq<int>, offset: nat) {
    && offset + |n| <= |elements|
    && forall x :: 0 <= x < |n| ==> n[x] == elements[offset + x]
  }

  lemma NodeIsWindow(nodes: seq<seq<int>>, i: nat)
    requires i < |nodes|
    ensures Window(Flatten(nodes), nodes[i], Offset(nodes, i))
  {
    FlattenAround(nodes, i);
  }

  /** Re-finding the place from the last value at the front: as many elements of the window are
      skipped as lie before position p. */
  lemma SkipToPosition(elements: seq<int>, n: seq<int>, offset: nat, p: nat)
    requires Strict(elements) && Window(elements, n, offset) && 0 < p <= |elements|
    ensures Skips(n, Excluded(elements[p - 1]), true, if p <= offset then 0 else if p < offset + |n| then p - offset else |n|)
  {
    forall x | 0 <= x < |n| ensures n[x] <= elements[p - 1] <==> offset + x < p {
      assert n[x] == elements[offset + x];
    }
  }

  lemma SkipBackToPosition(elements: seq<int>, n: seq<int>, offset: nat, p: nat)
    requires Strict(elements) && Window(elements, n, offset) && p <= offset + |n| && p < |elements|
    ensures Skips(n, Excluded(elements[p]), false, if offset < p then offset + |n| - p else |n|)
  {
    forall x | 0 <= x < |n| ensures elements[p] <= n[x] <==> p <= offset + x {
      assert n[x] == elements[offset + x];
    }
  }

  // ---------------------------------------------------------------- finding the ends of a range

  function Borrowed(n: seq<int>, borrow: int -> int): (keys: seq<int>)
    ensures |keys| == |n| && forall i :: 0 <= i < |n| ==> keys[i] == borrow(n[i])
  {
    seq(|n|, i requires 0 <= i < |n| => borrow(n[i]))
  }

  lemma BorrowedAscends(n: seq<int>, borrow: int -> int)
    requires Strict(n) && Monotone(borrow)
    ensures Ascending(Borrowed(n, borrow))
  {
  }

  /** The elements that a start bound rules out are the first lo ones. */
  ghost predicate StartsAt(elements: seq<int>, borrow: int -> int, start: Bound, lo: nat) {
    && lo <= |elements|
    && forall i :: 0 <= i < |elements| ==> (Before(borrow(elements[i]), start) <==> i < lo)
  }

  /** The elements that an end bound rules out are those from position hi on. */
  ghost predicate EndsAt(elements: seq<int>, borrow: int -> int, end: Bound, hi: nat) {
    && hi <= |elements|
    && forall i :: 0 <= i < |elements| ==> (After(borrow(elements[i]), end) <==> hi <= i)
  }

  lemma {:induction false} StartExists(elements: seq<int>, borrow: int -> int, start: Bound) returns (lo: nat)
    requires Strict(elements) && Monotone(borrow)
    ensures StartsAt(elements, borrow, start, lo)
  {
    if elements == [] || !Before(borrow(elements[|elements| - 1]), start) {
      if elements == [] {
        lo := 0;
      } else {
        var most := elements[..|elements| - 1];
        lo := StartExists(most, borrow, start);
        assert forall i :: 0 <= i < |most| ==> elements[i] == most[i];
      }
    } else {
      lo := |elements|;
      forall i | 0 <= i < |elements| ensures Before(borrow(elements[i]), start) {
        assert elements[i] <= elements[|elements| - 1];
      }
    }
  }

  lemma {:induction false} EndExists(elements: seq<int>, borrow: int -> int, end: Bound) returns (hi: nat)
    requires Strict(elements) && Monotone(borrow)
    ensures EndsAt(elements, borrow, end, hi)
  {
    if elements == [] || !After(borrow(elements[|elements| - 1]), end) {
      hi := |elements|;
      forall i | 0 <= i < |elements| ensures !After(borrow(elements[i]), end) {
        assert elements[i] <= elements[|elements| - 1];
      }
    } else {
      var most := elements[..|elements| - 1];
      hi := EndExists(most, borrow, end);
      assert forall i :: 0 <= i < |most| ==> elements[i] == most[i];
    }
  }

  /** The bounds determine where the range starts and ends. */
  lemma EndsUnique(elements: seq<int>, borrow: int -> int, start: Bound, end: Bound, lo: nat, hi: nat)
    requires StartsAt(elements, borrow, start, lo) && EndsAt(elements, borrow, end, hi)
    ensures forall l: nat :: StartsAt(elements, borrow, start, l) ==> l == lo
    ensures forall h: nat :: EndsAt(elements, borrow, end, h) ==> h == hi
  {
    if elements != [] {
      forall l: nat | StartsAt(elements, borrow, start, l) ensures l == lo {
        var least := if l < lo then l else lo;
        assert least < |elements| ==> (Before(borrow(elements[least]), start) <==> least < l);
      }
      forall h: nat | EndsAt(elements, borrow, end, h) ensures h == hi {
        var least := if h < hi then h else hi;
        assert least < |elements| ==> (After(borrow(elements[least]), end) <==> h <= least);
      }
    }
  }

  function Last(n: seq<int>): int
    requires n != []
  {
    n[|n| - 1]
  }

  lemma LastOf(nodes: seq<seq<int>>, i: nat)
    requires AtRest(nodes) && i < |nodes|
    ensures 0 < Offset(nodes, i + 1) <= |Flatten(nodes)|
    ensures Flatten(nodes)[Offset(nodes, i + 1) - 1] == Last(nodes[i])
  {
    FlattenAround(nodes, i);
  }

  /** The first index key that a start bound admits. */
  method LowerBound(nodes: seq<seq<int>>, borrow: int -> int, start: Bound) returns (r: Option<nat>)
    requires AtRest(nodes)
    ensures r.Some? ==> r.value < |nodes| && !Before(borrow(Last(nodes[r.value])), start)
    ensures forall i :: 0 <= i < (if r.Some? then r.value else |nodes|) ==> Before(borrow(Last(nodes[i])), start)
  {
    for i := 0 to |nodes|
      invariant forall x :: 0 <= x < i ==> Before(borrow(Last(nodes[x])), start)
    {
      if !Before(borrow(Last(nodes[i])), start) {
        return Some(i);
      }
    }
    r := None;
  }

  /** The last index key that an end bound admits. */
  method UpperBound(nodes: seq<seq<int>>, borrow: int -> int, end: Bound) returns (r: Option<nat>)
    requires AtRest(nodes)
    ensures r.Some? ==> r.value < |nodes| && !After(borrow(Last(nodes[r.value])), end)
    ensures forall i :: (if r.Some? then r.value + 1 else 0) <= i < |nodes| ==> After(borrow(Last(nodes[i])), end)
  {
    var i := |nodes|;
    while 0 < i
      invariant 0 <= i <= |nodes|
      invariant forall x :: i <= x < |nodes| ==> After(borrow(Last(nodes[x])), end)
    {
      i := i - 1;
      if !After(borrow(Last(nodes[i])), end) {
        return Some(i);
      }
    }
    r := None;
  }

  lemma WindowSkips(elements: seq<int>, n: seq<int>, offset: nat, borrow: int -> int, start: Bound, lo: nat)
    requires Window(elements, n, offset) && StartsAt(elements, borrow, start, lo) && offset <= lo <= offset + |n|
    ensures Skips(Borrowed(n, borrow), start, true, lo - offset)
  {
    forall x | 0 <= x < |n| ensures Before(borrow(n[x]), start) <==> x < lo - offset {
      assert n[x] == elements[offset + x];
    }
  }

  lemma WindowSkipsBack(elements: seq<int>, n: seq<int>, offset: nat, borrow: int -> int, end: Bound, hi: nat)
    requires Window(elements, n, offset) && EndsAt(elements, borrow, end, hi) && offset <= hi <= offset + |n|
    ensures Skips(Borrowed(n, borrow), end, false, offset + |n| - hi)
  {
    forall x | 0 <= x < |n| ensures After(borrow(n[x]), end) <==> hi - offset <= x {
      assert n[x] == elements[offset + x];
    }
  }

  lemma FrontNodeHolds(nodes: seq<seq<int>>, borrow: int -> int, start: Bound, lo: nat, f: nat)
    requires AtRest(nodes) && StartsAt(Flatten(nodes), borrow, start, lo) && f <= |nodes|
    requires forall i :: 0 <= i < f ==> Before(borrow(Last(nodes[i])), start)
    requires f < |nodes| ==> !Before(borrow(Last(nodes[f])), start)
    ensures Offset(nodes, f) <= lo && (f < |nodes| ==> lo < Offset(nodes, f + 1))
  {
    hide Flatten, Strict;
    OffsetEnds(nodes);
    if f < |nodes| { LastOf(nodes, f); }
    if 0 < f { LastOf(nodes, f - 1); }
  }

  lemma BackNodeHolds(nodes: seq<seq<int>>, borrow: int -> int, end: Bound, hi: nat, g: nat)
    requires AtRest(nodes) && EndsAt(Flatten(nodes), borrow, end, hi) && g < |nodes|
    requires 0 < g ==> g == |nodes| - 1 || !After(borrow(Last(nodes[g - 1])), end)
    requires g < |nodes| - 1 ==> After(borrow(Last(nodes[g])), end)
    requires g == |nodes| - 1 ==> !After(borrow(Last(nodes[g])), end) || (0 < g ==> !After(borrow(Last(nodes[g - 1])), end))
    ensures Offset(nodes, g) <= hi <= Offset(nodes, g + 1)
  {
    OffsetEnds(nodes);
    LastOf(nodes, g);
    OffsetMonotone(nodes, g, g + 1);
    if 0 < g { LastOf(nodes, g - 1); }
  }

  /** The position of the first admitted element of a node, found by skipping from its start. */
  method SkipFront(nodes: seq<seq<int>>, f: nat, borrow: int -> int, start: Bound, ghost lo: nat) returns (rank: Option<nat>)
    requires AtRest(nodes) && Monotone(borrow) && StartsAt(Flatten(nodes), borrow, start, lo)
    requires f < |nodes| && Offset(nodes, f) <= lo <= Offset(nodes, f + 1)
    ensures rank == if lo == Offset(nodes, f) then None else Some(lo - Offset(nodes, f) - 1)
  {
    OffsetStep(nodes, f);
    NodeIsWindow(nodes, f);
    NodeIsStrict(nodes, f);
    BorrowedAscends(nodes[f], borrow);
    WindowSkips(Flatten(nodes), nodes[f], Offset(nodes, f), borrow, start, lo);
    rank := PositionsToSkip(Borrowed(nodes[f], borrow), start, true);
    SkipsUnique(Borrowed(nodes[f], borrow), start, true, if rank.None? then 0 else rank.value + 1, lo - Offset(nodes, f));
  }

  method SkipBack(nodes: seq<seq<int>>, g: nat, borrow: int -> int, end: Bound, ghost hi: nat) returns (rank: Option<nat>)
    requires AtRest(nodes) && Monotone(borrow) && EndsAt(Flatten(nodes), borrow, end, hi)
    requires g < |nodes| && Offset(nodes, g) <= hi <= Offset(nodes, g + 1)
    ensures rank == if hi == Offset(nodes, g + 1) then None else Some(Offset(nodes, g + 1) - hi - 1)
  {
    OffsetStep(nodes, g);
    NodeIsWindow(nodes, g);
    NodeIsStrict(nodes, g);
    BorrowedAscends(nodes[g], borrow);
    WindowSkipsBack(Flatten(nodes), nodes[g], Offset(nodes, g), borrow, end, hi);
    rank := PositionsToSkip(Borrowed(nodes[g], borrow), end, false);
    SkipsUnique(Borrowed(nodes[g], borrow), end, false, if rank.None? then 0 else rank.value + 1, Offset(nodes, g + 1) - hi);
  }

  /** The node holding the first admitted element, and the element before that one. */
  method LocateFront(nodes: seq<seq<int>>, borrow: int -> int, start: Bound, ghost lo: nat) returns (node: Option<nat>, value: Option<int>)
    requires AtRest(nodes) && Monotone(borrow) && StartsAt(Flatten(nodes), borrow, start, lo)
    ensures node.None? <==> lo == |Flatten(nodes)|
    ensures node.None? ==> value.None?
    ensures node.Some? ==> node.value < |nodes| && Offset(nodes, node.value) <= lo < Offset(nodes, node.value + 1)
    ensures node.Some? ==> value == if lo == 0 then None else Some(Flatten(nodes)[lo - 1])
  {
    node := LowerBound(nodes, borrow, start);
    value := None;
    OffsetEnds(nodes);
    FrontNodeHolds(nodes, borrow, start, lo, if node.None? then |nodes| else node.value);
    if node.None? {
      return;
    }
    var f := node.value;
    OffsetStep(nodes, f);
    OffsetMonotone(nodes, f + 1, |nodes|);
    var rank := SkipFront(nodes, f, borrow, start, lo);
    if rank.Some? {
      FlattenAt(nodes, f, rank.value);
      value := Some(nodes[f][rank.value]);
    } else if 0 < f {
      LastOf(nodes, f - 1);
      value := Some(Last(nodes[f - 1]));
    }
  }

  /** The node at the end of a range, and the element after the last admitted one. */
  method LocateBack(nodes: seq<seq<int>>, borrow: int -> int, end: Bound, ghost hi: nat) returns (node: Option<nat>, value: Option<int>)
    requires AtRest(nodes) && Monotone(borrow) && EndsAt(Flatten(nodes), borrow, end, hi)
    ensures node.None? <==> nodes == []
    ensures node.Some? ==> node.value < |nodes| && Offset(nodes, node.value) <= hi <= Offset(nodes, node.value + 1)
    ensures value == if hi == |Flatten(nodes)| then None else Some(Flatten(nodes)[hi])
  {
    value := None;
    OffsetEnds(nodes);
    var below := UpperBound(nodes, borrow, end);
    if nodes == [] {
      return None, None;
    }
    var g := if below.None? then 0 else if below.value + 1 < |nodes| then below.value + 1 else |nodes| - 1;
    node := Some(g);
    BackNodeHolds(nodes, borrow, end, hi, g);
    OffsetStep(nodes, g);
    OffsetMonotone(nodes, g + 1, |nodes|);
    var rank := SkipBack(nodes, g, borrow, end, hi);
    if rank.Some? {
      FlattenAt(nodes, g, |nodes[g]| - 1 - rank.value);
      value := Some(nodes[g][|nodes[g]| - 1 - rank.value]);
    } else if g + 1 < |nodes| {
      FlattenAt(nodes, g + 1, 0);
      value := Some(nodes[g + 1][0]);
    }
  }

  /** The documented condition on the ends of a range, but for two equal excluded ends. */
  predicate NotAbove(start: Bound, end: Bound) {
    start.Unbounded? || end.Unbounded? || start.at <= end.at
  }

  /** Both ends exclude the greatest element. */
  ghost predicate ExcludesGreatestTwice(elements: seq<int>, borrow: int -> int, start: Bound, end: Bound) {
    && start.Excluded? && end == start
    && elements != [] && borrow(Last(elements)) == start.at
  }

  /** When everything lies before the start, nothing lies after the end. */
  lemma AllBeforeStart(elements: seq<int>, borrow: int -> int, start: Bound, end: Bound, hi: nat)
    requires Strict(elements) && Monotone(borrow) && NotAbove(start, end) && elements != []
    requires StartsAt(elements, borrow, start, |elements|) && EndsAt(elements, borrow, end, hi)
    ensures hi == |elements| || ExcludesGreatestTwice(elements, borrow, start, end)
  {
    if hi < |elements| {
      assert elements[hi] <= Last(elements);
      assert borrow(elements[hi]) <= borrow(Last(elements));
      assert Before(borrow(Last(elements)), start) && After(borrow(elements[hi]), end);
    }
  }

  /** Whether a range with no element before it and none after it is empty after all. */
  method NothingWithin(nodes: seq<seq<int>>, borrow: int -> int, start: Bound, end: Bound,
                       fValue: Option<int>, bValue: Option<int>, ghost lo: nat, ghost hi: nat) returns (crossed: bool)
    requires AtRest(nodes) && Monotone(borrow) && NotAbove(start, end)
    requires StartsAt(Flatten(nodes), borrow, start, lo) && EndsAt(Flatten(nodes), borrow, end, hi)
    requires fValue.Some? ==> 0 < lo
    requires fValue.None? ==> lo == 0 || lo == |Flatten(nodes)|
    requires bValue.None? <==> hi == |Flatten(nodes)|
    ensures crossed ==> hi <= lo && !ExcludesGreatestTwice(Flatten(nodes), borrow, start, end)
    ensures ExcludesGreatestTwice(Flatten(nodes), borrow, start, end) ==> lo == |Flatten(nodes)|
    ensures !crossed && fValue.None? && !ExcludesGreatestTwice(Flatten(nodes), borrow, start, end) ==> lo == 0
  {
    crossed := false;
    if nodes == [] {
      return;
    }
    ghost var elements := Flatten(nodes);
    LastOf(nodes, |nodes| - 1);
    OffsetEnds(nodes);
    FlattenAt(nodes, 0, 0);
    var max, min := Last(nodes[|nodes| - 1]), nodes[0][0];
    assert max == Last(elements) && min == elements[0];
    assert After(borrow(max), end) <==> hi <= |elements| - 1;
    assert Before(borrow(max), start) <==> |elements| - 1 < lo;
    if lo == |elements| { AllBeforeStart(elements, borrow, start, end, hi); }
    if fValue.None? && bValue.None? && (!start.Unbounded? || !end.Unbounded?) {
      if Before(borrow(max), start) {
        crossed := true;
      }
      if After(borrow(min), end) {
        crossed := true;
      }
    }
  }

  /** The view that a fresh cursor has of a range. */
  ghost function StartView(elements: seq<int>, borrow: int -> int, start: Bound, end: Bound, lo: nat, hi: nat): View {
    if ExcludesGreatestTwice(elements, borrow, start, end) then View(0, hi, Lost(false)) else View(lo, hi, Placed)
  }

  /** Over every set and every range, any mix of calls from the two ends yields exactly the elements
      in the range if and only if the ends do not both exclude the greatest element. */
  lemma FaithfulExactly(elements: seq<int>, borrow: int -> int, start: Bound, end: Bound, lo: nat, hi: nat, single: bool)
    requires Strict(elements) && Monotone(borrow) && NotAbove(start, end)
    requires StartsAt(elements, borrow, start, lo) && EndsAt(elements, borrow, end, hi)
    ensures Faithful(StartView(elements, borrow, start, end, lo, hi), |elements|, single, lo, hi)
            <==> !ExcludesGreatestTwice(elements, borrow, start, end)
  {
    if ExcludesGreatestTwice(elements, borrow, start, end) {
      assert Before(borrow(elements[|elements| - 1]), start);
      LostIsWrong(hi, |elements|, single, lo);
    } else {
      forall calls ensures Replies(View(lo, hi, Placed), |elements|, single, calls) == Ideal(lo, hi, calls) {
        PlacedAnswers(lo, hi, |elements|, single, calls);
      }
    }
  }

  /** The elements at the positions of some answers. */
  function ValuesAt(elements: seq<int>, answers: seq<Option<nat>>): seq<Option<int>>
    requires forall p :: Some(p) in answers ==> p < |elements|
  {
    seq(|answers|, i requires 0 <= i < |answers| =>
      match answers[i] case None => None case Some(p) => assert Some(p) in answers; Some(elements[p]))
  }

  class Cursor {
    const nodes: seq<seq<int>>
    var frontNode: Option<nat>
    var frontIter: Option<Span>
    var backNode: Option<nat>
    var backIter: Option<Span>
    var frontValue: Option<int>
    var backValue: Option<int>
    var met: bool
    /** What is left to yield: the elements at positions front up to back. */
    ghost var front: nat
    ghost var back: nat

    ghost function Elements(): seq<int> {
      Flatten(nodes)
    }

    /** No place is known at the front, neither a node nor a value. */
    ghost predicate IsLost()
      reads this
    {
      !met && frontNode.None? && frontValue.None? && nodes != []
    }

    ghost function Now(): View
      reads this
    {
      View(front, back, if !IsLost() then Placed else if backNode.Some? then Lost(backIter.Some?) else Spent)
    }

    // -------------------------------------------------------------- representation

    /** The front value is the element before the front position.  The front node does not start
        after that position, unless the ends have met. */
    ghost predicate FrontPlaced()
      reads this
    {
      && front <= |Elements()|
      && (frontValue.None? ==> front == 0)
      && (frontValue.Some? ==> 0 < front && frontValue.value == Elements()[front - 1])
      && (frontNode.Some? ==> frontNode.value < |nodes|)
      && (frontNode.Some? ==> Offset(nodes, frontNode.value) <= front || AtMeeting(Offset(nodes, frontNode.value)))
      && (frontIter.Some? ==> frontNode.Some?)
    }

    /** Nothing is left, and whatever lies from p on the back has passed. */
    ghost predicate AtMeeting(p: nat)
      reads this
    {
      back <= front && back <= p
    }

    ghost predicate BackPlaced()
      reads this
    {
      && back <= |Elements()|
      && (backValue.None? ==> back == |Elements()|)
      && (backValue.Some? ==> back < |Elements()| && backValue.value == Elements()[back])
      && (backNode.Some? ==> backNode.value < |nodes| && back <= Offset(nodes, backNode.value + 1))
      && (backNode.None? ==> back == 0)
      && (backIter.Some? ==> backNode.Some?)
    }

    /** A held front iterator stands at the front position, or past it where the ends have met.  It
        reaches to the end of its node, or, when taken over from the back, to the back position. */
    ghost predicate FrontHeld()
      requires FrontPlaced()
      reads this
    {
      frontIter.Some? ==>
        var (f, span) := (frontNode.value, frontIter.value);
        && span.lo <= span.hi <= |nodes[f]|
        && (span.lo < span.hi ==> Offset(nodes, f) + span.lo == front || AtMeeting(Offset(nodes, f) + span.lo))
        && (span.lo == span.hi == |nodes[f]| ==> Offset(nodes, f + 1) <= front)
        && (span.hi < |nodes[f]| ==> f == 0 && span.lo == front && span.hi == back && backNode == Some(0))
    }

    ghost predicate BackHeld()
      requires BackPlaced()
      reads this
    {
      backIter.Some? ==>
        var (g, span) := (backNode.value, backIter.value);
        && 0 == span.lo <= span.hi <= |nodes[g]|
        && (span.lo < span.hi ==> Offset(nodes, g) + span.hi == back || front == |Elements()|)
        && (span.lo == span.hi ==> back <= Offset(nodes, g))
    }

    /** Without a front node the front has reached the end, or the back position within a node. */
    ghost predicate FrontGone()
      requires BackPlaced()
      reads this
    {
      || front == |Elements()|
      || (front == back && backNode.Some? && Offset(nodes, backNode.value) < back)
    }

    /** A lost cursor knows its place at the back only.  While it starts over its back value is that
        of the last time. */
    ghost predicate LostAtBack()
      reads this
    {
      && front == 0 && frontIter.None? && back <= |Elements()|
      && backValue.Some? && (back < |Elements()| ==> backValue.value == Elements()[back])
      && (backNode.Some? ==>
            && backNode.value < |nodes|
            && Offset(nodes, backNode.value) <= back <= Offset(nodes, backNode.value + 1))
      && (backNode.None? ==> back == 0 && backIter.None?)
      && (backIter.Some? ==>
            && 0 == backIter.value.lo <= backIter.value.hi <= |nodes[backNode.value]|
            && Offset(nodes, backNode.value) + backIter.value.hi == back)
      && (back == |Elements()| ==> backIter.Some?)
    }

    ghost predicate Valid()
      reads this
    {
      && AtRest(nodes)
      && (met ==> back <= front)
      && (!met ==>
            if IsLost() then LostAtBack() && back < |Elements()|
            else
              && FrontPlaced() && BackPlaced() && FrontHeld() && BackHeld()
              && (frontNode.None? ==> FrontGone() && backIter.None?)
              && (frontIter.Some? ==> 0 < front <= back)
              && (backIter.Some? ==> front <= back < |Elements()|))
    }

    // -------------------------------------------------------------- from the front

    /** What every round of the front loop keeps. */
    ghost predicate FrontLoop()
      reads this
    {
      && AtRest(nodes)
      && (met ==> back <= front)
      && (!met ==>
            if IsLost() then LostAtBack() && back < |Elements()|
            else
              && FrontPlaced() && BackPlaced() && FrontHeld()
              && (frontNode.None? ==> FrontGone() && backIter.None?)
              && (backIter.Some? ==> front <= back < |Elements()|))
    }

    ghost function FrontMeasure(): nat
      reads this
    {
      if frontNode.None? then 2 * |nodes| + 2
      else if frontNode.value < |nodes| then 2 * (|nodes| - frontNode.value) + (if frontIter.None? then 1 else 0)
      else 0
    }

    /** A held front iterator that yields nothing although nothing has been yielded before. */
    ghost predicate Barren()
      reads this
    {
      frontIter.Some? && frontIter.value.lo == frontIter.value.hi && frontValue.None?
    }

    /** Starts over at the first node. */
    method RewindFront() returns (ended: bool)
      requires FrontLoop() && !met && frontNode.None?
      modifies this`frontNode, this`frontIter, this`backIter
      ensures FrontLoop() && (ended ==> nodes == [] && Now() == old(Now()))
      ensures !ended ==> frontNode == Some(0)
      ensures !ended ==> (Barren() <==> old(Now().phase) == Lost(true) && back == 0)
    {
      hide Flatten, Strict;
      OffsetEnds(nodes);
      if nodes == [] {
        return true;
      }
      OffsetStep(nodes, 0);
      OffsetMonotone(nodes, 1, |nodes|);
      if backNode.Some? && 0 < backNode.value { OffsetMonotone(nodes, 1, backNode.value); }
      frontNode := Some(0);
      if backNode.Some? {
        if backNode.value == 0 {
          frontIter := backIter;
          backIter := None;
        }
      } else {
        frontIter := Some(Span(0, |nodes[0]|));
      }
      ended := false;
    }

    /** Emits a value unless the back has already passed it. */
    method EmitFront(value: int) returns (r: Option<int>)
      requires AtRest(nodes) && !met && FrontPlaced() && BackPlaced()
      requires |Elements()| > 0
      requires (front < |Elements()| && value == Elements()[front]) || (back <= front && back < |Elements()| && Elements()[back] <= value)
      modifies this`met, this`frontValue, this`front
      ensures met ==> r == None && back <= front && front == old(front)
      ensures !met ==> old(front) < back && front == old(front) + 1 && r == Some(Elements()[old(front)]) && frontValue == r
    {
      if backValue.Some? && backValue.value <= value {
        met := true;
        return None;
      }
      frontValue := Some(value);
      front := front + 1;
      r := Some(value);
    }

    /** Moves on to the node after a consumed one. */
    method AdvanceFront()
      requires FrontLoop() && !met && frontNode.Some? && frontIter.Some? && backIter.None?
      requires frontIter.value.lo == frontIter.value.hi
      modifies this`frontNode, this`frontIter, this`backIter
      ensures FrontLoop() && backIter.None? && back <= |Elements()|
      ensures frontNode.None? ==> back <= front && frontIter.None? && (IsLost() <==> old(Barren()) && |nodes| == 1)
      ensures old(Barren()) && |nodes| == 1 ==> frontNode.None? && IsLost() && backNode.Some?
      ensures frontNode.Some? ==> FrontMeasure() < old(FrontMeasure()) && !Barren()
    {
      hide Flatten, Strict;
      var f := frontNode.value;
      OffsetEnds(nodes);
      OffsetStep(nodes, f);
      frontIter := None;
      if f + 1 == |nodes| {
        frontNode := None;
        return;
      }
      frontNode := Some(f + 1);
      if backNode.Some? {
        if backNode.value == f + 1 {
          frontIter := backIter;
          backIter := None;
        }
      } else {
        frontIter := Some(Span(0, |nodes[f + 1]|));
      }
    }

    /** How many elements of node f lie before the front position, found from the last value. */
    method FrontSkip(f: nat) returns (skipped: nat)
      requires AtRest(nodes) && FrontPlaced() && frontValue.Some? && f < |nodes|
      ensures skipped == if front <= Offset(nodes, f) then 0
                         else if front < Offset(nodes, f + 1) then front - Offset(nodes, f) else |nodes[f]|
      ensures skipped <= |nodes[f]|
    {
      hide Flatten, Strict;
      NodeIsStrict(nodes, f);
      NodeIsWindow(nodes, f);
      OffsetStep(nodes, f);
      var rank := PositionsToSkip(nodes[f], Excluded(frontValue.value), true);
      skipped := if rank.None? then 0 else rank.value + 1;
      SkipToPosition(Elements(), nodes[f], Offset(nodes, f), front);
      SkipsUnique(nodes[f], Excluded(frontValue.value), true, skipped,
                  if front <= Offset(nodes, f) then 0
                  else if front < Offset(nodes, f + 1) then front - Offset(nodes, f) else |nodes[f]|);
    }

    /** The outcome of a round that ends the call. */
    twostate predicate FrontYields(new r: Option<int>)
      requires old(front) <= |Elements()| && old(back) <= |Elements()|
      reads this
    {
      && back == old(back)
      && if old(front) < old(back) then r == Some(Elements()[old(front)]) && front == old(front) + 1
         else r == None && front == old(front)
    }

    /** Locks the current node and re-finds the place from the last value. */
    method SeekFront() returns (r: Option<int>, ended: bool)
      requires FrontLoop() && !met && frontNode.Some? && frontIter.None? && backIter.None?
      modifies this`frontIter, this`met, this`frontValue, this`front
      ensures if ended then FrontYields(r) && Valid()
              else FrontLoop() && !met && front == old(front) && frontIter.Some? && r.None? && !Barren()
    {
      hide Flatten, Strict;
      var f := frontNode.value;
      var node := nodes[f];
      OffsetStep(nodes, f);
      if frontValue.None? {
        frontIter := Some(Span(0, |node|));
        return None, false;
      }
      var skipped := FrontSkip(f);
      if skipped == |node| || skipped == 0 {
        frontIter := Some(Span(skipped, |node|));
        return None, false;
      }
      FlattenAt(nodes, f, skipped);
      r := EmitFront(node[skipped]);
      frontIter := Some(Span(skipped + 1, |node|));
      ended := true;
    }

    /** Takes the next element of the held iterator. */
    method StepFront() returns (r: Option<int>)
      requires FrontLoop() && !met && frontNode.Some? && frontIter.Some? && backIter.None?
      requires frontIter.value.lo < frontIter.value.hi
      modifies this`frontIter, this`met, this`frontValue, this`front
      ensures FrontYields(r) && Valid()
    {
      hide Flatten;
      var f := frontNode.value;
      var span := frontIter.value;
      OffsetStep(nodes, f);
      FlattenAt(nodes, f, span.lo);
      r := EmitFront(nodes[f][span.lo]);
      frontIter := Some(Span(span.lo + 1, span.hi));
    }

    /** A round with a place at the front: steps, moves on or re-finds the place. */
    method FrontRound() returns (r: Option<int>, ended: bool)
      requires FrontLoop() && !met && frontNode.Some?
      modifies this
      ensures old(Barren()) && |nodes| == 1 ==> ended
      ensures if ended then
                && FrontYields(r) && Valid()
                && (if old(Barren()) && |nodes| == 1 then Now().phase == Lost(false) else !IsLost())
              else
                && FrontLoop() && front == old(front) && back == old(back)
                && !met && frontNode.Some? && !Barren() && FrontMeasure() < old(FrontMeasure())
    {
      hide Flatten, Strict;
      backIter := None;
      if frontIter.Some? {
        if frontIter.value.lo < frontIter.value.hi {
          r := StepFront();
          return r, true;
        }
        AdvanceFront();
        return None, frontNode.None?;
      }
      r, ended := SeekFront();
    }

    /** A cursor over everything. */
    constructor All(nodes: seq<seq<int>>)
      requires AtRest(nodes)
      ensures this.nodes == nodes && Valid() && Now() == View(0, |Elements()|, Placed)
    {
      this.nodes := nodes;
      frontNode := if nodes == [] then None else Some(0);
      backNode := if nodes == [] then None else Some(|nodes| - 1);
      frontIter, backIter, frontValue, backValue, met := None, None, None, None, false;
      front, back := 0, |Flatten(nodes)|;
      OffsetEnds(nodes);
    }

    /** A cursor over a range; the elements from lo up to hi are those within both bounds. */
    constructor Range(nodes: seq<seq<int>>, borrow: int -> int, start: Bound, end: Bound)
      requires AtRest(nodes) && Monotone(borrow) && NotAbove(start, end)
      ensures this.nodes == nodes && Valid()
      ensures forall lo: nat, hi: nat :: StartsAt(Elements(), borrow, start, lo) && EndsAt(Elements(), borrow, end, hi) ==>
                Now() == StartView(Elements(), borrow, start, end, lo, hi)
    {
      hide Strict;
      ghost var lo := StartExists(Flatten(nodes), borrow, start);
      ghost var hi := EndExists(Flatten(nodes), borrow, end);
      var fNode, fValue := LocateFront(nodes, borrow, start, lo);
      var bNode, bValue := LocateBack(nodes, borrow, end, hi);
      OffsetEnds(nodes);
      var crossed := NothingWithin(nodes, borrow, start, end, fValue, bValue, lo, hi);
      this.nodes := nodes;
      frontNode, frontValue, backNode, backValue, met := fNode, fValue, bNode, bValue, crossed;
      frontIter, backIter := None, None;
      front := if ExcludesGreatestTwice(Flatten(nodes), borrow, start, end) then 0 else lo;
      back := hi;
      EndsUnique(Flatten(nodes), borrow, start, end, lo, hi);
    }

    /** The next element from the front. */
    method Next() returns (r: Option<int>)
      requires Valid()
      modifies this
      ensures Valid() && Now() == FrontStep(old(Now()), |nodes| == 1)
      ensures FrontAnswer(old(Now())).Some? ==> FrontAnswer(old(Now())).value < |Elements()|
      ensures r == match FrontAnswer(old(Now())) case None => None case Some(p) => Some(Elements()[p])
    {
      hide Flatten, Strict, Offset;
      while true
        invariant FrontLoop() && front == old(front) && back == old(back)
        invariant frontNode.None? || met ==> Now() == old(Now())
        invariant frontNode.Some? && !met ==> (Barren() && |nodes| == 1 <==>
                    old(Now().phase) == Lost(true) && old(back) == 0 && |nodes| == 1)
        decreases FrontMeasure()
      {
        if met {
          return None;
        }
        if frontNode.None? {
          var nothing := RewindFront();
          if nothing {
            return None;
          }
          if backNode.Some? {
            continue;
          }
        }
        var ended;
        r, ended := FrontRound();
        if ended {
          return;
        }
      }
    }

    // -------------------------------------------------------------- from the back

    ghost predicate BackLoop()
      reads this
    {
      && AtRest(nodes)
      && (met ==> back <= front)
      && (!met ==>
            if IsLost() then LostAtBack()
            else
              && FrontPlaced() && BackPlaced() && BackHeld()
              && (frontNode.None? ==> FrontGone())
              && (frontIter.Some? ==> 0 < front <= back))
    }

    ghost function BackMeasure(): nat
      reads this
    {
      if backNode.None? then 2 * |nodes| + 2
      else 2 * backNode.value + (if backIter.None? then 1 else 0)
    }

    /** Starts over at the last node. */
    method RewindBack() returns (ended: bool)
      requires BackLoop() && !met && backNode.None?
      modifies this`backNode, this`backIter, this`frontIter, this`back
      ensures BackLoop() && (ended ==> nodes == [] && Now() == old(Now()))
      ensures IsLost() == old(IsLost())
      ensures !ended ==> backNode.Some? && backNode.value + 1 == |nodes|
      ensures back == if IsLost() then |Elements()| else old(back)
    {
      hide Flatten, Strict;
      OffsetEnds(nodes);
      if nodes == [] {
        return true;
      }
      var last := |nodes| - 1;
      OffsetStep(nodes, last);
      OffsetMonotone(nodes, 0, last + 1);
      backNode := Some(last);
      if frontNode.Some? {
        if frontNode.value == last {
          backIter := frontIter;
          frontIter := None;
        }
      } else {
        backIter := Some(Span(0, |nodes[last]|));
      }
      if IsLost() {
        back := |Elements()|;
      }
      ended := false;
    }

    /** Emits a value unless the front has already passed it. */
    method EmitBack(value: int) returns (r: Option<int>)
      requires AtRest(nodes) && !met && FrontPlaced() && back <= |Elements()|
      requires |Elements()| > 0
      requires (0 < back && value == Elements()[back - 1]) || (front == |Elements()| && value <= Elements()[front - 1])
      modifies this`met, this`backValue, this`back
      ensures met ==> r == None && back <= front && back == old(back) && frontValue.Some?
      ensures !met ==> front < old(back) && back == old(back) - 1 && r == Some(Elements()[back]) && backValue == r
    {
      if frontValue.Some? && value <= frontValue.value {
        met := true;
        return None;
      }
      backValue := Some(value);
      back := back - 1;
      r := Some(value);
    }

    /** Moves on to the node before a consumed one. */
    method AdvanceBack()
      requires BackLoop() && !met && backNode.Some? && backIter.Some? && frontIter.None?
      requires backIter.value.lo == backIter.value.hi
      modifies this`backNode, this`backIter, this`frontIter
      ensures BackLoop() && frontIter.None?
      ensures backNode.None? ==> back == 0 && backIter.None?
      ensures backNode.Some? ==> BackMeasure() < old(BackMeasure())
    {
      hide Flatten, Strict;
      var g := backNode.value;
      OffsetEnds(nodes);
      OffsetStep(nodes, g);
      OffsetMonotone(nodes, g + 1, |nodes|);
      if 0 < g { OffsetStep(nodes, g - 1); }
      backIter := None;
      if g == 0 {
        backNode := None;
        return;
      }
      backNode := Some(g - 1);
      if frontNode.Some? {
        if frontNode.value == g - 1 {
          backIter := frontIter;
          frontIter := None;
        }
      } else {
        backIter := Some(Span(0, |nodes[g - 1]|));
      }
    }

    /** How many elements of node g lie at or after the back position, found from the last value. */
    method BackSkip(g: nat) returns (skipped: nat)
      requires AtRest(nodes) && back < |Elements()| && backValue == Some(Elements()[back])
      requires g < |nodes| && back <= Offset(nodes, g + 1)
      ensures skipped == if Offset(nodes, g) < back then Offset(nodes, g + 1) - back else |nodes[g]|
      ensures skipped <= |nodes[g]|
    {
      NodeIsStrict(nodes, g);
      NodeIsWindow(nodes, g);
      OffsetStep(nodes, g);
      var rank := PositionsToSkip(nodes[g], Excluded(backValue.value), false);
      skipped := if rank.None? then 0 else rank.value + 1;
      SkipBackToPosition(Elements(), nodes[g], Offset(nodes, g), back);
      SkipsUnique(nodes[g], Excluded(backValue.value), false, skipped,
                  if Offset(nodes, g) < back then Offset(nodes, g + 1) - back else |nodes[g]|);
    }

    twostate predicate BackYields(new r: Option<int>)
      requires old(front) <= |Elements()| && old(back) <= |Elements()|
      reads this
    {
      && front == old(front)
      && if old(front) < old(back) then r == Some(Elements()[old(back) - 1]) && back == old(back) - 1
         else r == None && back == old(back)
    }

    method SeekBack() returns (r: Option<int>, ended: bool)
      requires BackLoop() && !met && backNode.Some? && backIter.None? && frontIter.None?
      modifies this`backIter, this`met, this`backValue, this`back
      ensures backIter.Some? && IsLost() == old(IsLost())
      ensures ended && IsLost() ==> r.Some?
      ensures if ended then BackYields(r) && Valid()
              else BackLoop() && !met && back == old(back) && r.None?
    {
      hide Flatten, Strict;
      var g := backNode.value;
      var node := nodes[g];
      OffsetStep(nodes, g);
      if backValue.None? {
        OffsetMonotone(nodes, g + 1, |nodes|);
        backIter := Some(Span(0, |node|));
        return None, false;
      }
      var skipped := BackSkip(g);
      if skipped == |node| || skipped == 0 {
        backIter := Some(Span(0, |node| - skipped));
        return None, false;
      }
      FlattenAt(nodes, g, |node| - skipped - 1);
      r := EmitBack(node[|node| - skipped - 1]);
      backIter := Some(Span(0, |node| - skipped - 1));
      ended := true;
    }

    method StepBack() returns (r: Option<int>)
      requires BackLoop() && !met && backNode.Some? && backIter.Some? && frontIter.None?
      requires backIter.value.lo < backIter.value.hi
      modifies this`backIter, this`met, this`backValue, this`back
      ensures backIter.Some? && IsLost() == old(IsLost()) && (IsLost() ==> r.Some?)
      ensures BackYields(r) && Valid()
    {
      hide Flatten;
      var g := backNode.value;
      var span := backIter.value;
      OffsetStep(nodes, g);
      FlattenAt(nodes, g, span.hi - 1);
      r := EmitBack(nodes[g][span.hi - 1]);
      backIter := Some(Span(span.lo, span.hi - 1));
    }

    /** A round with a place at the back: steps, moves on or re-finds the place. */
    method BackRound() returns (r: Option<int>, ended: bool)
      requires BackLoop() && !met && backNode.Some?
      modifies this
      ensures IsLost() == old(IsLost())
      ensures if ended then
                && BackYields(r) && Valid()
                && (IsLost() ==> if r.Some? then backNode.Some? && backIter.Some? else backNode.None?)
              else
                && BackLoop() && back == old(back) && front == old(front)
                && backNode.Some? && BackMeasure() < old(BackMeasure())
    {
      hide Flatten, Strict;
      frontIter := None;
      if backIter.Some? {
        if backIter.value.lo < backIter.value.hi {
          r := StepBack();
          return r, true;
        }
        AdvanceBack();
        return None, backNode.None?;
      }
      r, ended := SeekBack();
    }

    /** The next element from the back. */
    method NextBack() returns (r: Option<int>)
      requires Valid()
      modifies this
      ensures Valid() && Now() == BackStep(old(Now()), |Elements()|)
      ensures BackAnswer(old(Now()), |Elements()|).Some? ==> BackAnswer(old(Now()), |Elements()|).value < |Elements()|
      ensures r == match BackAnswer(old(Now()), |Elements()|) case None => None case Some(p) => Some(Elements()[p])
    {
      hide Flatten, Strict, Offset;
      while true
        invariant BackLoop() && front == old(front) && IsLost() == old(IsLost())
        invariant back == if old(Now().phase.Spent?) && backNode.Some? then |Elements()| else old(back)
        invariant backNode.None? ==> Now() == old(Now())
        decreases BackMeasure()
      {
        if met {
          return None;
        }
        if backNode.None? {
          var nothing := RewindBack();
          if nothing {
            return None;
          }
          if frontNode.Some? {
            continue;
          }
        }
        var ended;
        r, ended := BackRound();
        if ended {
          return;
        }
      }
    }

    /** Any mix of calls from the two ends. */
    method Mix(calls: seq<bool>) returns (answers: seq<Option<int>>)
      requires Valid()
      modifies this
      ensures Valid() && Now() == ViewAfter(old(Now()), |Elements()|, |nodes| == 1, calls)
      ensures var replies := Replies(old(Now()), |Elements()|, |nodes| == 1, calls);
              && (forall p :: Some(p) in replies ==> p < |Elements()|)
              && answers == ValuesAt(Elements(), replies)
    {
      hide Flatten, Strict, Offset, Valid, Replies, ViewAfter, FrontStep, BackStep, FrontAnswer, BackAnswer;
      answers := [];
      ghost var given: seq<Option<nat>> := [];
      assert calls[0..] == calls;
      for i := 0 to |calls|
        invariant Valid()
        invariant Replies(old(Now()), |Elements()|, |nodes| == 1, calls) ==
                  given + Replies(Now(), |Elements()|, |nodes| == 1, calls[i..])
        invariant ViewAfter(old(Now()), |Elements()|, |nodes| == 1, calls) ==
                  ViewAfter(Now(), |Elements()|, |nodes| == 1, calls[i..])
        invariant forall p :: Some(p) in given ==> p < |Elements()|
        invariant answers == ValuesAt(Elements(), given)
      {
        FirstReply(Now(), |Elements()|, |nodes| == 1, calls[i..]);
        assert calls[i..][1..] == calls[i + 1..];
        var r;
        if calls[i] {
          given := given + [FrontAnswer(Now())];
          r := Next();
        } else {
          given := given + [BackAnswer(Now(), |Elements()|)];
          r := NextBack();
        }
        answers := answers + [r];
      }
      assert calls[|calls|..] == [];
      NoReply(Now(), |Elements()|, |nodes| == 1);
    }
  }

  /** When both ends exclude the greatest element of a set with smaller ones, nothing is within the
      range, and yet the first call from the front yields the least element of the set. */
  method ExcludedTwiceYieldsTheLeast(nodes: seq<seq<int>>, borrow: int -> int, q: int) returns (r: Option<int>)
    requires AtRest(nodes) && Monotone(borrow) && Flatten(nodes) != []
    requires borrow(Flatten(nodes)[0]) < q == borrow(Last(Flatten(nodes)))
    ensures r == Some(Flatten(nodes)[0])
    ensures forall x :: x in Flatten(nodes) ==> Before(borrow(x), Excluded(q)) || After(borrow(x), Excluded(q))
  {
    hide Flatten, Strict, Offset;
    ghost var lo := StartExists(Flatten(nodes), borrow, Excluded(q));
    ghost var hi := EndExists(Flatten(nodes), borrow, Excluded(q));
    var cursor := new Cursor.Range(nodes, borrow, Excluded(q), Excluded(q));
    assert !After(borrow(Flatten(nodes)[0]), Excluded(q)) && 0 < hi;
    assert StartsAt(cursor.Elements(), borrow, Excluded(q), lo) && EndsAt(cursor.Elements(), borrow, Excluded(q), hi);
    r := cursor.Next();
  }

  /** When all elements have the key that both ends exclude, the first call from the back yields
      nothing, and the second the greatest element of the set. */
  method ExcludedTwiceStartsOver(nodes: seq<seq<int>>, borrow: int -> int, q: int) returns (r: Option<int>, s: Option<int>)
    requires AtRest(nodes) && Monotone(borrow) && Flatten(nodes) != []
    requires borrow(Flatten(nodes)[0]) == q == borrow(Last(Flatten(nodes)))
    ensures r == None && s == Some(Last(Flatten(nodes)))
  {
    hide Flatten, Strict, Offset;
    ghost var lo := StartExists(Flatten(nodes), borrow, Excluded(q));
    ghost var hi := EndExists(Flatten(nodes), borrow, Excluded(q));
    var cursor := new Cursor.Range(nodes, borrow, Excluded(q), Excluded(q));
    assert After(borrow(Flatten(nodes)[0]), Excluded(q));
    assert StartsAt(cursor.Elements(), borrow, Excluded(q), lo) && EndsAt(cursor.Elements(), borrow, Excluded(q), hi);
    r := cursor.NextBack();
    s := cursor.NextBack();
  }
}
