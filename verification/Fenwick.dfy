/**
 The index of the single-threaded tree: how many elements each node holds.

 The original keeps these counts in a Fenwick tree from another library.  Here they are a plain
 sequence; of the lookup only the guarantee is kept that the tree relies on, so whatever is proved
 holds for every lookup that meets it.
 */
module Fenwick {
  import opened Flattening

  function Prefix(counts: seq<nat>, n: nat): nat
    requires n <= |counts|
  {
    if n == 0 then 0 else Prefix(counts, n - 1) + counts[n - 1]
  }

  /** The counts are the lengths of the nodes. */
  ghost predicate Measures<T>(counts: seq<nat>, ss: seq<seq<T>>) {
    |counts| == |ss| && forall i :: 0 <= i < |ss| ==> counts[i] == |ss[i]|
  }

  lemma {:induction false} PrefixIsOffset<T>(counts: seq<nat>, ss: seq<seq<T>>, n: nat)
    requires Measures(counts, ss) && n <= |ss|
    ensures Prefix(counts, n) == Offset(ss, n)
  {
    if n == 0 {
      OffsetEnds(ss);
    } else {
      PrefixIsOffset(counts, ss, n - 1);
      OffsetStep(ss, n - 1);
    }
  }

  method FromNodes<T>(ss: seq<seq<T>>) returns (counts: seq<nat>)
    ensures Measures(counts, ss)
  {
    counts := [];
    for i := 0 to |ss|
      invariant |counts| == i && forall x :: 0 <= x < i ==> counts[x] == |ss[x]|
    {
      counts := counts + [|ss[i]|];
    }
  }

  method PrefixSum(counts: seq<nat>, n: nat) returns (sum: nat)
    requires n <= |counts|
    ensures sum == Prefix(counts, n)
  {
    sum := 0;
    for i := 0 to n
      invariant sum == Prefix(counts, i)
    {
      sum := sum + counts[i];
    }
  }

  ghost predicate Covers(counts: seq<nat>, n: nat, i: nat) {
    && n <= |counts|
    && Prefix(counts, n) <= i
    && (n < |counts| ==> i <= Prefix(counts, n + 1))
  }

  /** Some n with Prefix(n) <= i <= Prefix(n + 1); at a boundary either neighbour may be named. */
  method IndexOf(counts: seq<nat>, i: nat) returns (n: nat)
    ensures Covers(counts, n, i)
  {
    n := 0;
    var before := 0;
    while n < |counts| && before + counts[n] < i
      invariant n <= |counts| && before == Prefix(counts, n) <= i
    {
      before := before + counts[n];
      n := n + 1;
    }
  }
}
