/**
 What is left of a double-ended iteration over positions 0..n of a sequence.

 The iterator of the single-threaded tree stops when its two counters meet.  When a range ends
 beyond the last element, the back counter starts `spare` above the element it refers to, and the
 counters meet that much too late.
 */
module Spans {

  /** Next from the front: position lo.  Next from the back: position hi - 1. */
  datatype Span = Span(lo: nat, hi: nat, spare: nat)

  predicate Met(s: Span) {
    s.lo == s.hi + s.spare
  }

  predicate FrontGives(s: Span, n: nat) {
    !Met(s) && s.lo < n
  }

  predicate BackGives(s: Span) {
    !Met(s) && 0 < s.hi
  }

  function FrontStep(s: Span, n: nat): Span {
    if FrontGives(s, n) then s.(lo := s.lo + 1) else s
  }

  function BackStep(s: Span): Span {
    if BackGives(s) then s.(hi := s.hi - 1) else s
  }

  /** The span of a..=b over n elements. */
  function Ranging(a: nat, b: nat, n: nat): Span {
    if b < n then Span(a, b + 1, 0) else Span(a, n, b + 1 - n)
  }

  /** Positions emitted by a mix of calls, true meaning from the front. */
  function Emitted(s: Span, n: nat, calls: seq<bool>): seq<nat>
    decreases |calls|
  {
    if calls == [] then []
    else if calls[0] then (if FrontGives(s, n) then [s.lo] else []) + Emitted(FrontStep(s, n), n, calls[1..])
    else (if BackGives(s) then [s.hi - 1] else []) + Emitted(BackStep(s), n, calls[1..])
  }

  ghost predicate Distinct(xs: seq<nat>) {
    forall i, j :: 0 <= i < j < |xs| ==> xs[i] != xs[j]
  }

  /** Whatever the calls, positions in range are emitted, and none twice. */
  ghost predicate Faithful(a: nat, b: nat, n: nat) {
    forall calls :: (forall p :: p in Emitted(Ranging(a, b, n), n, calls) ==> a <= p <= b)
                    && Distinct(Emitted(Ranging(a, b, n), n, calls))
  }

  lemma HeadIsNew(first: nat, rest: seq<nat>)
    requires first !in rest && Distinct(rest)
    ensures Distinct([first] + rest)
  {
    var all := [first] + rest;
    forall i, j | 0 <= i < j < |all| ensures all[i] != all[j] {
      assert all[j] == rest[j - 1] && rest[j - 1] in rest;
    }
  }

  /** Without spare, what is emitted lies between the counters, and nothing is emitted twice. */
  lemma {:induction false} EmittedWithin(s: Span, n: nat, calls: seq<bool>)
    requires s.spare == 0 && s.lo <= s.hi <= n
    ensures forall p :: p in Emitted(s, n, calls) ==> s.lo <= p < s.hi
    ensures Distinct(Emitted(s, n, calls))
    decreases |calls|
  {
    if calls != [] {
      var next := if calls[0] then FrontStep(s, n) else BackStep(s);
      EmittedWithin(next, n, calls[1..]);
      var rest, out := Emitted(next, n, calls[1..]), Emitted(s, n, calls);
      if out != rest {
        HeadIsNew(out[0], rest);
      }
    }
  }

  lemma {:induction false} EmittedBelow(s: Span, n: nat, calls: seq<bool>)
    requires s.hi <= n
    ensures forall p :: p in Emitted(s, n, calls) ==> p < n
    decreases |calls|
  {
    if calls != [] {
      EmittedBelow(if calls[0] then FrontStep(s, n) else BackStep(s), n, calls[1..]);
    }
  }

  /** Within the elements, enough calls of either kind emit every position. */
  lemma {:induction false} EverythingIsEmitted(s: Span, n: nat, calls: seq<bool>, p: nat)
    requires s.spare == 0 && s.lo <= p < s.hi <= n && s.hi - s.lo <= |calls|
    ensures p in Emitted(s, n, calls)
    decreases |calls|
  {
    var next := if calls[0] then FrontStep(s, n) else BackStep(s);
    if next.lo <= p < next.hi {
      EverythingIsEmitted(next, n, calls[1..], p);
    }
  }

  /** With no elements, or with the counters equal, nothing is emitted. */
  lemma {:induction false} EmptyEmitsNothing(s: Span, n: nat, calls: seq<bool>)
    requires Met(s) || (n == 0 && s.hi == 0)
    ensures Emitted(s, n, calls) == []
    decreases |calls|
  {
    if calls != [] {
      EmptyEmitsNothing(s, n, calls[1..]);
    }
  }

  function Backs(k: nat): seq<bool> {
    if k == 0 then [] else [false] + Backs(k - 1)
  }

  /** Calls from the back followed by others, while the counters stay apart. */
  lemma {:induction false} BacksEmit(s: Span, n: nat, k: nat, calls: seq<bool>)
    requires k <= s.hi && (s.lo <= s.hi - k + s.spare || s.hi + s.spare < s.lo)
    ensures |Emitted(s, n, Backs(k) + calls)| == k + |Emitted(s.(hi := s.hi - k), n, calls)|
    ensures forall i :: 0 <= i < k ==> Emitted(s, n, Backs(k) + calls)[i] == s.hi - 1 - i
    ensures Emitted(s, n, Backs(k) + calls)[k..] == Emitted(s.(hi := s.hi - k), n, calls)
    decreases k
  {
    if k == 0 {
      assert Backs(k) + calls == calls;
    } else {
      var all := Backs(k) + calls;
      assert s.lo != s.hi + s.spare;
      assert all[1..] == Backs(k - 1) + calls;
      BacksEmit(BackStep(s), n, k - 1, calls);
      var rest := Emitted(BackStep(s), n, all[1..]);
      assert Emitted(s, n, all) == [s.hi - 1] + rest;
      forall i | 0 <= i < k ensures Emitted(s, n, all)[i] == s.hi - 1 - i {
        if 0 < i { assert rest[i - 1] == s.hi - 2 - (i - 1); }
      }
      assert Emitted(s, n, all)[k..] == rest[k - 1..];
    }
  }

  /** A range that starts at the beginning and ends beyond the last element emits the first
      element once from the back and once more from the front. */
  lemma RepeatsTheFirst(b: nat, n: nat)
    requires 0 < n <= b
    ensures !Faithful(0, b, n)
  {
    var s := Ranging(0, b, n);
    BacksEmit(s, n, n, [true]);
    var out := Emitted(s, n, Backs(n) + [true]);
    assert Emitted(s.(hi := 0), n, [true]) == [0] by {
      assert [true][1..] == [];
    }
    assert out[n - 1] == 0 && out[n..][0] == 0 && out[n] == 0;
    assert !Distinct(out);
  }

  /** A later start is passed from the back by one element at least. */
  lemma PassesTheStart(a: nat, b: nat, n: nat)
    requires 0 < a <= b && 0 < n <= b
    ensures !Faithful(a, b, n)
  {
    var s := Ranging(a, b, n);
    var first := if a <= n then a else n;
    var k := n - first + 1;
    BacksEmit(s, n, k, []);
    var out := Emitted(s, n, Backs(k) + []);
    assert out[k - 1] == first - 1;
    assert first - 1 in out && !(a <= first - 1 <= b);
  }

  /** A range that ends before it starts by more than one never stops: its counters do not meet. */
  lemma NeverMeets(a: nat, b: nat, n: nat)
    requires b + 1 < a && 0 < n
    ensures !Faithful(a, b, n)
  {
    var s := Ranging(a, b, n);
    BacksEmit(s, n, 1, []);
    var out := Emitted(s, n, Backs(1) + []);
    assert out[0] == s.hi - 1;
    assert s.hi - 1 in out && !(a <= s.hi - 1 <= b);
  }

  /** A range over positions is faithful exactly when it lies within the elements, is empty by one
      place, or there are no elements at all. */
  lemma FaithfulExactly(a: nat, b: nat, n: nat)
    ensures Faithful(a, b, n) <==> a <= b < n || a == b + 1 || n == 0
  {
    if a <= b < n || a == b + 1 || n == 0 {
      forall calls ensures (forall p :: p in Emitted(Ranging(a, b, n), n, calls) ==> a <= p <= b)
                           && Distinct(Emitted(Ranging(a, b, n), n, calls))
      {
        if a <= b < n { EmittedWithin(Ranging(a, b, n), n, calls); } else { EmptyEmitsNothing(Ranging(a, b, n), n, calls); }
      }
    } else if b + 1 < a {
      NeverMeets(a, b, n);
    } else if a == 0 {
      RepeatsTheFirst(b, n);
    } else {
      PassesTheStart(a, b, n);
    }
  }

  // ---------------------------------------------------------------- from the front alone

  function Fronts(k: nat): seq<bool> {
    if k == 0 then [] else [true] + Fronts(k - 1)
  }

  /** The positions from lo up to, but not including, hi. */
  function Positions(lo: nat, hi: int): seq<nat> {
    seq(if lo < hi then hi - lo else 0, i requires 0 <= i => lo + i)
  }

  lemma {:induction false} FrontsEmit(s: Span, n: nat, k: nat)
    requires s.lo <= s.hi + s.spare && s.hi <= n && (0 < s.spare ==> s.hi == n)
    ensures Emitted(s, n, Fronts(k)) == Positions(s.lo, if s.lo + k < s.hi then s.lo + k else s.hi)
    decreases k
  {
    if 0 < k {
      assert Fronts(k)[1..] == Fronts(k - 1);
      FrontsEmit(FrontStep(s, n), n, k - 1);
      var hi := if s.lo + k < s.hi then s.lo + k else s.hi;
      assert s.lo < s.hi ==> Positions(s.lo, hi) == [s.lo] + Positions(s.lo + 1, hi);
    }
  }

  /** Calls from the front alone stop at the last element, wherever the range ends: they emit the
      positions from a to b, or to the last, in order and without gap. */
  lemma FrontsAlone(a: nat, b: nat, n: nat, k: nat)
    requires a <= b + 1
    ensures var top := if b < n then b + 1 else n;
            Emitted(Ranging(a, b, n), n, Fronts(k)) == Positions(a, if a + k < top then a + k else top)
  {
    FrontsEmit(Ranging(a, b, n), n, k);
  }
}
