/** Concatenating the nodes of a two-level sequence, and converting between the two ways of naming
    a position: (node, position within the node) and position in the concatenation. */
module Flattening {

  function Flatten<T>(ss: seq<seq<T>>): seq<T> {
    if ss == [] then [] else ss[0] + Flatten(ss[1..])
  }

  /** Where node i starts. */
  function Offset<T>(ss: seq<seq<T>>, i: nat): nat
    requires i <= |ss|
  {
    |Flatten(ss[..i])|
  }

  lemma {:induction false} FlattenAppend<T>(a: seq<seq<T>>, b: seq<seq<T>>)
    ensures Flatten(a + b) == Flatten(a) + Flatten(b)
  {
    if a == [] {
      assert a + b == b;
    } else {
      assert (a + b)[1..] == a[1..] + b;
      FlattenAppend(a[1..], b);
    }
  }

  lemma FlattenOne<T>(s: seq<T>)
    ensures Flatten([s]) == s
  {
    assert [s][1..] == [];
  }

  lemma OffsetStep<T>(ss: seq<seq<T>>, i: nat)
    requires i < |ss|
    ensures Offset(ss, i + 1) == Offset(ss, i) + |ss[i]|
  {
    assert ss[..i + 1] == ss[..i] + [ss[i]];
    FlattenAppend(ss[..i], [ss[i]]);
    FlattenOne(ss[i]);
  }

  /** The concatenation around node i. */
  lemma FlattenAround<T>(ss: seq<seq<T>>, i: nat)
    requires i < |ss|
    ensures Flatten(ss) == Flatten(ss[..i]) + ss[i] + Flatten(ss[i + 1..])
    ensures Offset(ss, i + 1) == Offset(ss, i) + |ss[i]| <= |Flatten(ss)|
  {
    assert ss[i..] == [ss[i]] + ss[i + 1..];
    FlattenAppend([ss[i]], ss[i + 1..]);
    FlattenOne(ss[i]);
    assert ss == ss[..i] + ss[i..];
    FlattenAppend(ss[..i], ss[i..]);
    OffsetStep(ss, i);
  }

  lemma OffsetEnds<T>(ss: seq<seq<T>>)
    ensures Offset(ss, 0) == 0 && Offset(ss, |ss|) == |Flatten(ss)|
  {
    assert ss[..|ss|] == ss;
  }

  lemma FlattenAt<T>(ss: seq<seq<T>>, i: nat, j: nat)
    requires i < |ss| && j < |ss[i]|
    ensures Offset(ss, i) + j < |Flatten(ss)| && Flatten(ss)[Offset(ss, i) + j] == ss[i][j]
  {
    FlattenAround(ss, i);
  }

  lemma {:induction false} OffsetMonotone<T>(ss: seq<seq<T>>, i: nat, j: nat)
    requires i <= j <= |ss|
    ensures Offset(ss, i) <= Offset(ss, j) <= |Flatten(ss)|
    decreases j - i
  {
    if i < j {
      FlattenAround(ss, i);
      OffsetMonotone(ss, i + 1, j);
    } else {
      assert ss == ss[..i] + ss[i..];
      FlattenAppend(ss[..i], ss[i..]);
    }
  }
}
