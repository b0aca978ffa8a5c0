/** Walking two ascending sequences in step, and what the four set operations emit on the way. */
module Merging {
  import opened Basics
  import opened NodeOps
  import opened SetSpec

  datatype Kind = Union | Difference | SymmetricDifference | Intersection

  function Head(s: seq<Pair>): Option<Pair> {
    if s == [] then None else Some(s[0])
  }

  function Tail(s: seq<Pair>): seq<Pair> {
    if s == [] then [] else s[1..]
  }

  /** Drops the smaller head, or both when they are equal. */
  function Advance(l: seq<Pair>, r: seq<Pair>): (seq<Pair>, seq<Pair>) {
    if l == [] then (l, Tail(r))
    else if r == [] then (l[1..], r)
    else if l[0].key < r[0].key then (l[1..], r)
    else if l[0].key == r[0].key then (l[1..], r[1..])
    else (l, r[1..])
  }

  /** What an operation emits when these are the heads. */
  function Emit(kind: Kind, l: Option<Pair>, r: Option<Pair>): Option<Pair> {
    match (l, r)
    case (None, None) => None
    case (Some(a), None) => if kind.Intersection? then None else l
    case (None, Some(b)) => if kind.Union? || kind.SymmetricDifference? then r else None
    case (Some(a), Some(b)) =>
      if a.key < b.key then (if kind.Intersection? then None else l)
      else if a.key == b.key then (if kind.Union? || kind.Intersection? then l else None)
      else (if kind.Union? || kind.SymmetricDifference? then r else None)
  }

  function Merged(kind: Kind, l: seq<Pair>, r: seq<Pair>): seq<Pair>
    decreases |l| + |r|
  {
    if l == [] && r == [] then []
    else
      var (l', r') := Advance(l, r);
      var rest := Merged(kind, l', r');
      match Emit(kind, Head(l), Head(r))
      case Some(e) => [e] + rest
      case None => rest
  }

  lemma AdvanceShrinks(l: seq<Pair>, r: seq<Pair>)
    ensures l != [] || r != [] ==> |Advance(l, r).0| + |Advance(l, r).1| < |l| + |r|
    ensures l == [] && r == [] ==> Advance(l, r) == ([], [])
  {
  }

  /** One step of the walk, at the end too. */
  lemma MergedStep(kind: Kind, l: seq<Pair>, r: seq<Pair>)
    ensures Merged(kind, [], []) == []
    ensures var rest := Merged(kind, Advance(l, r).0, Advance(l, r).1);
            Merged(kind, l, r) ==
            match Emit(kind, Head(l), Head(r)) { case Some(e) => [e] + rest case None => rest }
  {
  }

  // ---------------------------------------------------------------- as set operations

  /** Membership in the result of each operation; on equal keys the left entry counts. */
  predicate Selected(kind: Kind, e: Pair, l: Node, r: Node) {
    match kind
    case Union => e in l || (e in r && e.key !in KeySet(l))
    case Difference => e in l && e.key !in KeySet(r)
    case SymmetricDifference => (e in l && e.key !in KeySet(r)) || (e in r && e.key !in KeySet(l))
    case Intersection => e in l && e.key in KeySet(r)
  }

  lemma BelowHeadIsAbsent(r: Node, k: int)
    requires Sorted(r) && (r != [] ==> k < r[0].key)
    ensures k !in KeySet(r)
  {
  }

  lemma SelectedStep(kind: Kind, e: Pair, l: Node, r: Node)
    requires Sorted(l) && Sorted(r) && (l != [] || r != [])
    ensures Sorted(Advance(l, r).0) && Sorted(Advance(l, r).1)
    ensures Selected(kind, e, l, r) <==>
            Emit(kind, Head(l), Head(r)) == Some(e) || Selected(kind, e, Advance(l, r).0, Advance(l, r).1)
  {
    if l != [] { HeadIsNew(l); }
    if r != [] { HeadIsNew(r); }
    if l != [] && (r == [] || l[0].key < r[0].key) { BelowHeadIsAbsent(r, l[0].key); }
    if r != [] && (l == [] || r[0].key < l[0].key) { BelowHeadIsAbsent(l, r[0].key); }
  }

  /** Every key still to come is above the key emitted. */
  lemma LaterIsAbove(kind: Kind, e: Pair, l: Node, r: Node)
    requires Sorted(l) && Sorted(r) && (l != [] || r != [])
    requires Emit(kind, Head(l), Head(r)).Some? && Selected(kind, e, Advance(l, r).0, Advance(l, r).1)
    ensures Emit(kind, Head(l), Head(r)).value.key < e.key
  {
    var (l', r') := Advance(l, r);
    if e in l' {
      var i :| 0 <= i < |l'| && l'[i] == e;
      assert i < |l| && (l[i] == e || (i + 1 < |l| && l[i + 1] == e));
    } else {
      var i :| 0 <= i < |r'| && r'[i] == e;
      assert i < |r| && (r[i] == e || (i + 1 < |r| && r[i + 1] == e));
    }
  }

  /** Each operation emits exactly its set, in ascending order. */
  lemma {:induction false} MergedMeaning(kind: Kind, l: Node, r: Node)
    requires Sorted(l) && Sorted(r)
    ensures Sorted(Merged(kind, l, r))
    ensures forall e :: e in Merged(kind, l, r) <==> Selected(kind, e, l, r)
    decreases |l| + |r|
  {
    if l != [] || r != [] {
      var (l', r') := Advance(l, r);
      forall e ensures Sorted(l') && Sorted(r')
                       && (Selected(kind, e, l, r) <==> Emit(kind, Head(l), Head(r)) == Some(e) || Selected(kind, e, l', r'))
      {
        SelectedStep(kind, e, l, r);
      }
      MergedMeaning(kind, l', r');
      var rest := Merged(kind, l', r');
      if Emit(kind, Head(l), Head(r)).Some? {
        var first := Emit(kind, Head(l), Head(r)).value;
        forall i | 0 <= i < |rest| ensures first.key < rest[i].key {
          assert rest[i] in rest;
          LaterIsAbove(kind, rest[i], l, r);
        }
        assert Merged(kind, l, r) == [first] + rest;
      }
    }
  }

  /** Once the left side is exhausted, difference and intersection emit no more; intersection
      neither once the right side is. */
  lemma {:induction false} NothingMore(kind: Kind, l: seq<Pair>, r: seq<Pair>)
    requires (kind.Difference? && l == []) || (kind.Intersection? && (l == [] || r == []))
    ensures Merged(kind, l, r) == []
    decreases |l| + |r|
  {
    if l != [] || r != [] {
      NothingMore(kind, Advance(l, r).0, Advance(l, r).1);
    }
  }

  /** An empty difference is inclusion, an empty intersection is disjointness. */
  lemma NothingEmitted(l: Node, r: Node)
    requires Sorted(l) && Sorted(r)
    ensures Merged(Difference, l, r) == [] <==> KeySet(l) <= KeySet(r)
    ensures Merged(Intersection, l, r) == [] <==> KeySet(l) !! KeySet(r)
  {
    MergedMeaning(Difference, l, r);
    MergedMeaning(Intersection, l, r);
    if Merged(Difference, l, r) != [] {
      var e := Merged(Difference, l, r)[0];
      assert Selected(Difference, e, l, r) && e.key in KeySet(l);
    }
    if Merged(Intersection, l, r) != [] {
      var e := Merged(Intersection, l, r)[0];
      assert Selected(Intersection, e, l, r) && e.key in KeySet(l);
    }
    forall e | e in l ensures Merged(Difference, l, r) == [] ==> e.key in KeySet(r)
                      ensures Merged(Intersection, l, r) == [] ==> e.key !in KeySet(r)
    {
      assert Selected(Difference, e, l, r) || Selected(Intersection, e, l, r);
    }
  }
}
