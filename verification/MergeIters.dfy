/** The merging iterator and the four set operations that run on it. */
module MergeIters {
  import opened Basics
  import opened SetSpec
  import opened Merging
  import opened TreeSet
  import opened TreeIter

  function AsSeq(current: Option<Pair>): seq<Pair> {
    match current
    case Some(e) => [e]
    case None => []
  }

  lemma NothingAhead(s: seq<Pair>)
    ensures AsSeq(None) + s == s
  {
  }

  lemma HeadAndTail(s: seq<Pair>)
    ensures AsSeq(Head(s)) + Tail(s) == s
    ensures Head(s) == None ==> Tail(s) == []
  {
  }

  /** What is dropped, by how the current elements compare. */
  lemma AdvanceByCurrent(cl: Option<Pair>, cr: Option<Pair>, ls: seq<Pair>, rs: seq<Pair>)
    requires cl == None ==> ls == []
    requires cr == None ==> rs == []
    ensures cl.Some? && (cr.None? || cl.value.key < cr.value.key) ==>
              Advance(AsSeq(cl) + ls, AsSeq(cr) + rs) == (ls, AsSeq(cr) + rs)
    ensures cr.Some? && (cl.None? || cr.value.key < cl.value.key) ==>
              Advance(AsSeq(cl) + ls, AsSeq(cr) + rs) == (AsSeq(cl) + ls, rs)
    ensures cl.Some? && cr.Some? && cl.value.key == cr.value.key ==>
              Advance(AsSeq(cl) + ls, AsSeq(cr) + rs) == (ls, rs)
    ensures Head(AsSeq(cl) + ls) == cl && Head(AsSeq(cr) + rs) == cr
  {
    if cl.Some? { assert ([cl.value] + ls)[1..] == ls; }
    if cr.Some? { assert ([cr.value] + rs)[1..] == rs; }
  }

  /** Each of the four operations of the original holds only this iterator; their `next` are
      methods here. */
  class MergeIter {
    var start: bool
    const left: Iter
    var currentLeft: Option<Pair>
    const right: Iter
    var currentRight: Option<Pair>

    ghost predicate Ready()
      reads this, left, right, left.btree, right.btree
    {
      && left != right
      && left.Valid() && right.Valid() && left.spare == 0 && right.spare == 0
      && left.frontIdx <= left.backIdx && right.frontIdx <= right.backIdx
    }

    ghost predicate Valid()
      reads this, left, right, left.btree, right.btree
    {
      && Ready()
      && (start ==> currentLeft == None && currentRight == None)
      && (!start && currentLeft == None ==> left.Remaining() == [])
      && (!start && currentRight == None ==> right.Remaining() == [])
    }

    ghost function Lefts(): seq<Pair>
      reads this, left, right, left.btree, right.btree
      requires Valid()
    {
      AsSeq(currentLeft) + left.Remaining()
    }

    ghost function Rights(): seq<Pair>
      reads this, left, right, left.btree, right.btree
      requires Valid()
    {
      AsSeq(currentRight) + right.Remaining()
    }

    /** The sequences whose heads the next step shows. */
    ghost function Ahead(): (seq<Pair>, seq<Pair>)
      reads this, left, right, left.btree, right.btree
      requires Valid()
    {
      if start then (Lefts(), Rights()) else Advance(Lefts(), Rights())
    }

    /** What is still to be emitted by an operation. */
    ghost function Output(kind: Kind): seq<Pair>
      reads this, left, right, left.btree, right.btree
      requires Valid()
    {
      Merged(kind, Ahead().0, Ahead().1)
    }

    constructor (l: BTreeSet, r: BTreeSet)
      requires l.Valid() && r.Valid()
      ensures Valid() && fresh(left) && fresh(right) && left.btree == l && right.btree == r
      ensures Ahead() == (l.Contents(), r.Contents())
    {
      hide Iter.Valid, BTreeSet.Valid;
      start := true;
      left := new Iter(l);
      right := new Iter(r);
      currentLeft := None;
      currentRight := None;
      new;
      NothingAhead(left.Remaining());
      NothingAhead(right.Remaining());
    }

    method FetchLeft()
      requires Ready()
      modifies this`currentLeft, left
      ensures Ready()
      ensures currentLeft == Head(old(left.Remaining())) && left.Remaining() == Tail(old(left.Remaining()))
      ensures AsSeq(currentLeft) + left.Remaining() == old(left.Remaining())
      ensures currentLeft == None ==> left.Remaining() == []
      ensures right.Remaining() == old(right.Remaining())
    {
      hide BTreeSet.Valid, FrontAt, BackAt;
      HeadAndTail(left.Remaining());
      currentLeft := left.Next();
    }

    method FetchRight()
      requires Ready()
      modifies this`currentRight, right
      ensures Ready()
      ensures currentRight == Head(old(right.Remaining())) && right.Remaining() == Tail(old(right.Remaining()))
      ensures AsSeq(currentRight) + right.Remaining() == old(right.Remaining())
      ensures currentRight == None ==> right.Remaining() == []
      ensures left.Remaining() == old(left.Remaining())
    {
      hide BTreeSet.Valid, FrontAt, BackAt;
      HeadAndTail(right.Remaining());
      currentRight := right.Next();
    }

    /** Fetches past the smaller current element, or past both. */
    method Step()
      requires Valid() && !start && (currentLeft.Some? || currentRight.Some?)
      modifies this`currentLeft, this`currentRight, left, right
      ensures Valid() && (Lefts(), Rights()) == old(Advance(Lefts(), Rights()))
    {
      hide Iter.Valid;
      AdvanceByCurrent(currentLeft, currentRight, left.Remaining(), right.Remaining());
      if currentLeft.Some? {
        if currentRight.Some? {
          var l, r := currentLeft.value, currentRight.value;
          if l.key < r.key {
            FetchLeft();
          } else if l.key == r.key {
            FetchLeft();
            FetchRight();
          } else {
            FetchRight();
          }
        } else {
          FetchLeft();
        }
      } else {
        FetchRight();
      }
    }

    method Next() returns (r: Option<(Option<Pair>, Option<Pair>)>)
      requires Valid()
      modifies this, left, right
      ensures Valid() && !start
      ensures (Lefts(), Rights()) == old(Ahead())
      ensures r.Some? ==> r.value == (Head(Lefts()), Head(Rights()))
      ensures r.None? ==> Lefts() == [] && Rights() == []
      ensures r.Some? ==> old(start) || old(Lefts()) != [] || old(Rights()) != []
    {
      hide Iter.Valid;
      if start || (currentLeft.None? && currentRight.None?) {
        NothingAhead(left.Remaining());
        NothingAhead(right.Remaining());
      }
      if !start {
        if currentLeft.None? && currentRight.None? {
          return None;
        }
        Step();
      } else {
        FetchLeft();
        FetchRight();
        start := false;
      }
      AdvanceByCurrent(currentLeft, currentRight, left.Remaining(), right.Remaining());
      r := Some((currentLeft, currentRight));
    }

    // -------------------------------------------------------------- the four operations

    /** What is left of the walk; it shrinks with every step that shows a head. */
    ghost function Length(): nat
      reads this, left, right, left.btree, right.btree
      requires Valid()
    {
      |Lefts()| + |Rights()| + if start then 1 else 0
    }

    /** The next step of the walk as every operation sees it. */
    method NextFor(ghost kind: Kind) returns (r: Option<(Option<Pair>, Option<Pair>)>, ghost emitted: Option<Pair>)
      requires Valid()
      modifies this, left, right
      ensures Valid()
      ensures r.Some? ==> emitted == Emit(kind, r.value.0, r.value.1)
      ensures r.Some? ==> Length() < old(Length())
      ensures emitted == None ==> Output(kind) == old(Output(kind))
      ensures emitted.Some? ==> old(Output(kind)) == [emitted.value] + Output(kind)
      ensures r.None? ==> emitted == None && Output(kind) == []
      ensures r.Some? ==> r.value == (Head(Lefts()), Head(Rights()))
    {
      hide Iter.Valid, BTreeSet.Valid, Iter.Remaining, Iter.Elements, Merged, Advance;
      AdvanceShrinks(Lefts(), Rights());
      MergedStep(kind, Ahead().0, Ahead().1);
      r := Next();
      emitted := Emit(kind, Head(Lefts()), Head(Rights()));
    }

    /** The answer of an operation's `next`: the first of what was left, or nothing for good. */
    twostate predicate Answers(kind: Kind, new r: Option<Pair>)
      reads this, left, right, left.btree, right.btree
      requires old(Valid()) && Valid()
    {
      r == Head(old(Output(kind))) && Output(kind) == Tail(old(Output(kind)))
    }

    method NextUnion() returns (r: Option<Pair>)
      requires Valid()
      modifies this, left, right
      ensures Valid() && Answers(Union, r)
    {
      hide Iter.Valid;
      var heads, _ := NextFor(Union);
      if heads.Some? {
        match heads.value {
          case (Some(l), Some(r')) => if r'.key < l.key { return Some(r'); } else { return Some(l); }
          case (Some(l), None) => return Some(l);
          case (None, Some(r')) => return Some(r');
          case (None, None) => return None;
        }
      }
      return None;
    }

    method NextDifference() returns (r: Option<Pair>)
      requires Valid()
      modifies this, left, right
      ensures Valid() && Answers(Difference, r)
    {
      hide Iter.Valid;
      while true
        invariant Valid() && Output(Difference) == old(Output(Difference))
        decreases Length()
      {
        var heads, _ := NextFor(Difference);
        if heads.None? {
          return None;
        }
        match heads.value {
          case (Some(l), Some(r')) => if l.key < r'.key { return Some(l); }
          case (Some(l), None) => return Some(l);
          case (None, _) =>
            NothingMore(Difference, Ahead().0, Ahead().1);
            return None;
        }
      }
    }

    method NextSymmetricDifference() returns (r: Option<Pair>)
      requires Valid()
      modifies this, left, right
      ensures Valid() && Answers(SymmetricDifference, r)
    {
      hide Iter.Valid;
      while true
        invariant Valid() && Output(SymmetricDifference) == old(Output(SymmetricDifference))
        decreases Length()
      {
        var heads, _ := NextFor(SymmetricDifference);
        if heads.None? {
          return None;
        }
        match heads.value {
          case (Some(l), Some(r')) =>
            if l.key < r'.key { return Some(l); } else if r'.key < l.key { return Some(r'); }
          case (Some(l), None) => return Some(l);
          case (None, Some(r')) => return Some(r');
          case (None, None) => return None;
        }
      }
    }

    method NextIntersection() returns (r: Option<Pair>)
      requires Valid()
      modifies this, left, right
      ensures Valid() && Answers(Intersection, r)
    {
      hide Iter.Valid;
      while true
        invariant Valid() && Output(Intersection) == old(Output(Intersection))
        decreases Length()
      {
        var heads, _ := NextFor(Intersection);
        if heads.None? {
          return None;
        }
        match heads.value {
          case (Some(l), Some(r')) => if l.key == r'.key { return Some(l); }
          case (None, _) =>
            NothingMore(Intersection, Ahead().0, Ahead().1);
            return None;
          case (_, None) =>
            NothingMore(Intersection, Ahead().0, Ahead().1);
            return None;
        }
      }
    }
  }

  // ---------------------------------------------------------------- comparing two sets

  method IsSubset(s: BTreeSet, other: BTreeSet) returns (b: bool)
    requires s.Valid() && other.Valid()
    ensures b <==> KeySet(s.Contents()) <= KeySet(other.Contents())
  {
    s.ContentsAreSorted();
    other.ContentsAreSorted();
    hide Iter.Valid, BTreeSet.Valid;
    var difference := new MergeIter(s, other);
    NothingEmitted(s.Contents(), other.Contents());
    var first := difference.NextDifference();
    b := first.None?;
  }

  method IsSuperset(s: BTreeSet, other: BTreeSet) returns (b: bool)
    requires s.Valid() && other.Valid()
    ensures b <==> KeySet(other.Contents()) <= KeySet(s.Contents())
  {
    b := IsSubset(other, s);
  }

  method IsDisjoint(s: BTreeSet, other: BTreeSet) returns (b: bool)
    requires s.Valid() && other.Valid()
    ensures b <==> KeySet(s.Contents()) !! KeySet(other.Contents())
  {
    s.ContentsAreSorted();
    other.ContentsAreSorted();
    hide Iter.Valid, BTreeSet.Valid;
    var intersection := new MergeIter(s, other);
    NothingEmitted(s.Contents(), other.Contents());
    var first := intersection.NextIntersection();
    b := first.None?;
  }
}
