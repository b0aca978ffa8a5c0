/**
 What a double-ended cursor of the concurrent set answers, as a function of three things: the two
 positions between which elements are left, and whether the cursor knows its place at the front.

 A cursor whose front node was not found at creation is lost.  The front starts over at the first
 element when it is asked.  The back, once it has gone down to the first element, says nothing one
 time and then starts over at the greatest.
 */
module CursorViews {
  import opened Basics

  /** `held` tells a lost cursor that keeps its back node locked; a spent one has given it up. */
  datatype Phase = Placed | Lost(held: bool) | Spent

  /** Left are the positions from `front` up to, but not including, `back`. */
  datatype View = View(front: nat, back: nat, phase: Phase)

  function FrontAnswer(v: View): Option<nat> {
    if v.front < v.back then Some(v.front) else None
  }

  /** `single` tells whether the set has one node only. */
  function FrontStep(v: View, single: bool): View {
    if v.front < v.back then View(v.front + 1, v.back, Placed)
    else if v.phase == Lost(true) && single then v.(phase := Lost(false))
    else v.(phase := Placed)
  }

  function BackAnswer(v: View, n: nat): Option<nat> {
    if v.phase.Spent? && 0 < n then Some(n - 1)
    else if v.front < v.back then Some(v.back - 1)
    else None
  }

  function BackStep(v: View, n: nat): View {
    if v.phase.Spent? && 0 < n then View(v.front, n - 1, Lost(true))
    else if v.front < v.back then View(v.front, v.back - 1, if v.phase.Placed? then Placed else Lost(true))
    else if v.phase.Lost? then v.(phase := Spent)
    else v
  }

  /** The answers to a mix of calls, true meaning from the front. */
  function Replies(v: View, n: nat, single: bool, calls: seq<bool>): seq<Option<nat>>
    decreases |calls|
  {
    if calls == [] then []
    else if calls[0] then [FrontAnswer(v)] + Replies(FrontStep(v, single), n, single, calls[1..])
    else [BackAnswer(v, n)] + Replies(BackStep(v, n), n, single, calls[1..])
  }

  function ViewAfter(v: View, n: nat, single: bool, calls: seq<bool>): View
    decreases |calls|
  {
    if calls == [] then v
    else ViewAfter(if calls[0] then FrontStep(v, single) else BackStep(v, n), n, single, calls[1..])
  }

  /** The first call answers, and the rest go on from the view it leaves. */
  lemma FirstReply(v: View, n: nat, single: bool, calls: seq<bool>)
    requires calls != []
    ensures var (answer, next) := if calls[0] then (FrontAnswer(v), FrontStep(v, single)) else (BackAnswer(v, n), BackStep(v, n));
            && Replies(v, n, single, calls) == [answer] + Replies(next, n, single, calls[1..])
            && ViewAfter(v, n, single, calls) == ViewAfter(next, n, single, calls[1..])
  {
  }

  lemma NoReply(v: View, n: nat, single: bool)
    ensures Replies(v, n, single, []) == [] && ViewAfter(v, n, single, []) == v
  {
  }

  // ---------------------------------------------------------------- the reference

  /** What a range over positions lo to hi should answer: each position once, from either end. */
  function Ideal(lo: int, hi: int, calls: seq<bool>): seq<Option<nat>>
    requires 0 <= lo && 0 <= hi
    decreases |calls|
  {
    if calls == [] then []
    else if hi <= lo then [None] + Ideal(lo, hi, calls[1..])
    else if calls[0] then [Some(lo)] + Ideal(lo + 1, hi, calls[1..])
    else [Some(hi - 1)] + Ideal(lo, hi - 1, calls[1..])
  }

  /** The reference answers positions in range only, none twice, and all given enough calls. */
  lemma {:induction false} IdealMeaning(lo: nat, hi: nat, calls: seq<bool>)
    ensures |Ideal(lo, hi, calls)| == |calls|
    ensures forall i :: 0 <= i < |calls| ==> Ideal(lo, hi, calls)[i].Some? ==> lo <= Ideal(lo, hi, calls)[i].value < hi
    ensures forall i, j :: 0 <= i < j < |calls| ==>
              Ideal(lo, hi, calls)[i].Some? ==> Ideal(lo, hi, calls)[i] != Ideal(lo, hi, calls)[j]
    ensures hi - lo <= |calls| ==> forall p :: lo <= p < hi ==> Some(p) in Ideal(lo, hi, calls)
    decreases |calls|
  {
    if calls != [] {
      if hi <= lo {
        IdealMeaning(lo, hi, calls[1..]);
      } else {
        var (lo', hi') := if calls[0] then (lo + 1, hi) else (lo, hi - 1);
        IdealMeaning(lo', hi', calls[1..]);
        var rest := Ideal(lo', hi', calls[1..]);
        var first := if calls[0] then lo else hi - 1;
        assert Ideal(lo, hi, calls) == [Some(first)] + rest;
        forall p | lo <= p < hi && hi - lo <= |calls| ensures Some(p) in [Some(first)] + rest {
          if p != first { assert Some(p) in rest; }
        }
      }
    }
  }

  // ---------------------------------------------------------------- when a cursor is right

  ghost predicate Faithful(v: View, n: nat, single: bool, lo: nat, hi: nat) {
    forall calls :: Replies(v, n, single, calls) == Ideal(lo, hi, calls)
  }

  lemma {:induction false} PlacedAnswers(lo: nat, hi: nat, n: nat, single: bool, calls: seq<bool>)
    ensures Replies(View(lo, hi, Placed), n, single, calls) == Ideal(lo, hi, calls)
    decreases |calls|
  {
    if calls != [] {
      if hi <= lo {
        PlacedAnswers(lo, hi, n, single, calls[1..]);
      } else if calls[0] {
        PlacedAnswers(lo + 1, hi, n, single, calls[1..]);
      } else {
        PlacedAnswers(lo, hi - 1, n, single, calls[1..]);
      }
    }
  }

  /** A lost cursor is not right about an empty range: it yields the first element from the front,
      or, when that does not lie before its back, the greatest to the second call from the back. */
  lemma LostIsWrong(hi: nat, n: nat, single: bool, lo: nat)
    requires 0 < n && hi <= lo
    ensures !Faithful(View(0, hi, Lost(false)), n, single, lo, hi)
  {
    var v := View(0, hi, Lost(false));
    if 0 < hi {
      assert Replies(v, n, single, [true])[0] == Some(0) && Ideal(lo, hi, [true])[0] == None;
    } else {
      var calls := [false, false];
      assert calls[1..] == [false];
      assert BackStep(v, n) == View(0, 0, Spent);
      assert Replies(v, n, single, calls) == [None] + Replies(View(0, 0, Spent), n, single, [false]);
      assert Replies(View(0, 0, Spent), n, single, [false])[0] == Some(n - 1);
      assert Replies(v, n, single, calls)[1] == Some(n - 1);
      assert Ideal(lo, hi, calls) == [None] + Ideal(lo, hi, [false]);
      assert Ideal(lo, hi, calls)[1] == None;
    }
  }
}
