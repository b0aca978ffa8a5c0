/**
 What the operations of the single-threaded tree do to one strictly ascending sequence, and what
 that means for the finite map which the sequence stands for.
 */
module SetSpec {
  import opened Basics
  import opened NodeOps

  datatype Call =
    | Insert(entry: Pair)
    | Replace(entry: Pair)
    | Take(key: int)
    | PopFirst
    | PopLast
    | PopIndex(at: nat)
    | Clear

  datatype Answer = Added(isNew: bool) | Was(entry: Option<Pair>) | Nothing

  /** The sequence after a call; an index out of range is refused and changes nothing. */
  ghost function Applied(n: Node, c: Call): Node {
    match c
    case Insert(e) => if Has(n, e.key) then n else Stored(n, e)
    case Replace(e) => Stored(n, e)
    case Take(k) => if Has(n, k) then Removed(n, Point(n, k)) else n
    case PopFirst => if n == [] then n else n[1..]
    case PopLast => if n == [] then n else n[..|n| - 1]
    case PopIndex(i) => if i < |n| then Removed(n, i) else n
    case Clear => []
  }

  ghost function Reply(n: Node, c: Call): Answer {
    match c
    case Insert(e) => Added(!Has(n, e.key))
    case Replace(e) => Was(Find(n, e.key))
    case Take(k) => Was(Find(n, k))
    case PopFirst => Was(if n == [] then None else Some(n[0]))
    case PopLast => Was(if n == [] then None else Some(n[|n| - 1]))
    case PopIndex(i) => Was(if i < |n| then Some(n[i]) else None)
    case Clear => Nothing
  }

  ghost function AppliedAll(n: Node, calls: seq<Call>): Node
    decreases |calls|
  {
    if calls == [] then n else AppliedAll(Applied(n, calls[0]), calls[1..])
  }

  ghost function Replies(n: Node, calls: seq<Call>): seq<Answer>
    decreases |calls|
  {
    if calls == [] then [] else [Reply(n, calls[0])] + Replies(Applied(n, calls[0]), calls[1..])
  }

  // ---------------------------------------------------------------- rank and select

  function KeySet(n: Node): set<int> {
    set e | e in n :: e.key
  }

  function Below(keys: set<int>, k: int): set<int> {
    set x | x in keys && x < k
  }

  lemma KeyOf(n: Node, k: int)
    requires Sorted(n)
    ensures k in KeySet(n) <==> Has(n, k)
  {
    FindMeaning(n, k);
    if Has(n, k) { assert n[Point(n, k)] in n; }
  }

  lemma {:induction false} KeysAreDistinct(n: Node)
    requires Sorted(n)
    ensures |KeySet(n)| == |n|
  {
    if n == [] {
      assert KeySet(n) == {};
    } else {
      var rest, last := n[..|n| - 1], n[|n| - 1];
      KeysAreDistinct(rest);
      assert forall e :: e in n <==> e in rest || e == last;
      assert KeySet(n) == KeySet(rest) + {last.key};
    }
  }

  /** The insertion point of a key counts the keys strictly below it. */
  lemma RankCounts(n: Node, k: int)
    requires Sorted(n)
    ensures Point(n, k) == |Below(KeySet(n), k)|
  {
    var p := Point(n, k);
    KeysAreDistinct(n[..p]);
    forall x ensures x in Below(KeySet(n), k) <==> x in KeySet(n[..p]) {
      if x in Below(KeySet(n), k) {
        var i :| 0 <= i < |n| && n[i].key == x;
        assert i < p && n[..p][i] == n[i];
      }
    }
    assert Below(KeySet(n), k) == KeySet(n[..p]);
  }

  /** Selecting and ranking undo each other. */
  lemma RankOfSelected(n: Node, i: nat)
    requires Sorted(n) && i < |n|
    ensures Point(n, n[i].key) == i && |Below(KeySet(n), n[i].key)| == i
  {
    PointUnique(n, n[i].key, i);
    RankCounts(n, n[i].key);
  }

  lemma SelectOfRank(n: Node, k: int)
    requires Sorted(n) && k in KeySet(n)
    ensures Point(n, k) < |n| && n[Point(n, k)].key == k
  {
    KeyOf(n, k);
  }

  // ---------------------------------------------------------------- refinement of a map

  ghost predicate Represents(n: Node, m: map<int, int>) {
    forall e :: e in n <==> Entry(m, e.key) == Some(e)
  }

  ghost predicate IsLeastOf(keys: set<int>, k: int) {
    k in keys && forall x :: x in keys ==> k <= x
  }

  ghost predicate IsGreatestOf(keys: set<int>, k: int) {
    k in keys && forall x :: x in keys ==> x <= k
  }

  ghost predicate HasRank(keys: set<int>, k: int, i: nat) {
    k in keys && |Below(keys, k)| == i
  }

  /** The finite map's view of the same calls: `m` becomes `m'` with answer `a`. */
  ghost predicate MapStep(m: map<int, int>, c: Call, m': map<int, int>, a: Answer) {
    match c
    case Insert(e) => a == Added(e.key !in m) && m' == if e.key in m then m else m[e.key := e.val]
    case Replace(e) => a == Was(Entry(m, e.key)) && m' == m[e.key := e.val]
    case Take(k) => a == Was(Entry(m, k)) && m' == m - {k}
    case PopFirst => if m == map[] then Ignored(m, m', a) else exists k :: IsLeastOf(m.Keys, k) && Pops(m, k, m', a)
    case PopLast => if m == map[] then Ignored(m, m', a) else exists k :: IsGreatestOf(m.Keys, k) && Pops(m, k, m', a)
    case PopIndex(i) => if |m| <= i then Ignored(m, m', a) else exists k :: HasRank(m.Keys, k, i) && Pops(m, k, m', a)
    case Clear => m' == map[] && a == Nothing
  }

  ghost predicate Ignored(m: map<int, int>, m': map<int, int>, a: Answer) {
    m' == m && a == Was(None)
  }

  ghost predicate Pops(m: map<int, int>, k: int, m': map<int, int>, a: Answer) {
    k in m && m' == m - {k} && a == Was(Some(Pair(k, m[k])))
  }

  lemma SameKey(n: Node, m: map<int, int>, k: int)
    requires Sorted(n) && Represents(n, m)
    ensures k in m <==> Has(n, k)
    ensures k in KeySet(n) <==> k in m
    ensures Find(n, k) == Entry(m, k)
  {
    KeyOf(n, k);
    FindMeaning(n, k);
    if k in m { assert Pair(k, m[k]) in n; }
  }

  lemma SameKeys(n: Node, m: map<int, int>)
    requires Sorted(n) && Represents(n, m)
    ensures KeySet(n) == m.Keys && |n| == |m|
  {
    forall k ensures k in KeySet(n) <==> k in m.Keys { SameKey(n, m, k); }
    KeysAreDistinct(n);
    assert KeySet(n) == m.Keys;
    assert |m| == |m.Keys|;
  }

  lemma RepresentsWithout(n: Node, m: map<int, int>, n': Node, k: int)
    requires Represents(n, m) && forall e :: e in n' <==> e in n && e.key != k
    ensures Represents(n', m - {k})
  {
  }

  lemma RepresentsWith(n: Node, m: map<int, int>, n': Node, p: Pair)
    requires Represents(n, m) && forall e :: e in n' <==> e == p || (e in n && e.key != p.key)
    ensures Represents(n', m[p.key := p.val])
  {
  }

  lemma RemovedPops(n: Node, m: map<int, int>, i: nat)
    requires Sorted(n) && Represents(n, m) && i < |n|
    ensures Sorted(Removed(n, i)) && Represents(Removed(n, i), m - {n[i].key})
    ensures Pops(m, n[i].key, m - {n[i].key}, Was(Some(n[i])))
  {
    RemovedMeaning(n, i);
    RepresentsWithout(n, m, Removed(n, i), n[i].key);
    assert n[i] in n;
  }

  lemma IndexIsRank(n: Node, m: map<int, int>, i: nat)
    requires Sorted(n) && Represents(n, m) && i < |n|
    ensures HasRank(m.Keys, n[i].key, i)
    ensures i == 0 ==> IsLeastOf(m.Keys, n[i].key)
    ensures i == |n| - 1 ==> IsGreatestOf(m.Keys, n[i].key)
  {
    SameKeys(n, m);
    RankOfSelected(n, i);
    assert n[i].key in KeySet(n) by { assert n[i] in n; }
  }

  lemma StoreRefines(n: Node, m: map<int, int>, e: Pair)
    requires Sorted(n) && Represents(n, m)
    ensures Sorted(Stored(n, e)) && Represents(Stored(n, e), m[e.key := e.val])
  {
    StoredMeaning(n, e);
    RepresentsWith(n, m, Stored(n, e), e);
  }

  lemma PopRefines(n: Node, m: map<int, int>, c: Call, i: nat) returns (m': map<int, int>)
    requires Sorted(n) && Represents(n, m)
    requires c == PopIndex(i) || (c == PopFirst && i == 0) || (c == PopLast && (n == [] || i == |n| - 1))
    ensures Sorted(Applied(n, c)) && Represents(Applied(n, c), m')
    ensures MapStep(m, c, m', Reply(n, c))
  {
    m' := m;
    SameKeys(n, m);
    if i < |n| {
      RemovedPops(n, m, i);
      IndexIsRank(n, m, i);
      m' := m - {n[i].key};
      assert Applied(n, c) == Removed(n, i);
    }
  }

  /** Each call on the sequence is the same call on the map. */
  lemma CallRefines(n: Node, m: map<int, int>, c: Call) returns (m': map<int, int>)
    requires Sorted(n) && Represents(n, m)
    ensures Sorted(Applied(n, c)) && Represents(Applied(n, c), m')
    ensures MapStep(m, c, m', Reply(n, c))
  {
    match c {
      case Insert(e) =>
        SameKey(n, m, e.key);
        StoreRefines(n, m, e);
        m' := if e.key in m then m else m[e.key := e.val];
      case Replace(e) =>
        SameKey(n, m, e.key);
        StoreRefines(n, m, e);
        m' := m[e.key := e.val];
      case Take(k) =>
        SameKey(n, m, k);
        m' := m - {k};
        if Has(n, k) { RemovedPops(n, m, Point(n, k)); }
      case PopFirst => m' := PopRefines(n, m, c, 0);
      case PopLast => m' := PopRefines(n, m, c, if n == [] then 0 else |n| - 1);
      case PopIndex(i) => m' := PopRefines(n, m, c, i);
      case Clear => m' := map[];
    }
  }

  /** A run of the map. */
  ghost predicate IsMapRun(ms: seq<map<int, int>>, calls: seq<Call>, answers: seq<Answer>) {
    && |ms| == |calls| + 1 && |answers| == |calls|
    && forall i :: 0 <= i < |calls| ==> MapStep(ms[i], calls[i], ms[i + 1], answers[i])
  }

  lemma RunExtends(m: map<int, int>, ms: seq<map<int, int>>, c: Call, calls: seq<Call>, a: Answer, answers: seq<Answer>)
    requires IsMapRun(ms, calls, answers) && MapStep(m, c, ms[0], a)
    ensures IsMapRun([m] + ms, [c] + calls, [a] + answers)
  {
    var all, cs, replies := [m] + ms, [c] + calls, [a] + answers;
    forall i | 0 <= i < |cs| ensures MapStep(all[i], cs[i], all[i + 1], replies[i]) {
      if 0 < i { assert MapStep(ms[i - 1], calls[i - 1], ms[i], answers[i - 1]); }
    }
  }

  /** Every sequence of calls gives the answers that the finite map gives, and ends at the
      sequence of its entries. */
  lemma {:induction false} CallsRefineAMap(n: Node, m: map<int, int>, calls: seq<Call>) returns (ms: seq<map<int, int>>)
    requires Sorted(n) && Represents(n, m)
    ensures IsMapRun(ms, calls, Replies(n, calls)) && ms[0] == m
    ensures Sorted(AppliedAll(n, calls)) && Represents(AppliedAll(n, calls), ms[|calls|])
    decreases |calls|
  {
    hide Sorted, Represents, MapStep, Applied, Reply;
    if calls == [] {
      ms := [m];
    } else {
      var m' := CallRefines(n, m, calls[0]);
      var rest := CallsRefineAMap(Applied(n, calls[0]), m', calls[1..]);
      RunExtends(m, rest, calls[0], calls[1..], Reply(n, calls[0]), Replies(Applied(n, calls[0]), calls[1..]));
      assert calls == [calls[0]] + calls[1..];
      ms := [m] + rest;
    }
  }

  // ---------------------------------------------------------------- taking and putting back

  /** Taking a key and inserting an entry with it is storing the entry. */
  lemma TakeThenInsert(n: Node, e: Pair)
    requires Sorted(n)
    ensures Applied(Applied(n, Take(e.key)), Insert(e)) == Applied(n, Replace(e))
  {
    if Has(n, e.key) {
      var i := Point(n, e.key);
      var r := Removed(n, i);
      RemovedMeaning(n, i);
      PointUnique(r, e.key, i);
      assert Inserted(r, i, e) == n[i := e];
    }
  }

  // ---------------------------------------------------------------- filtering

  ghost function Filtered(n: Node, f: Pair -> bool): Node {
    if n == [] then [] else (if f(n[0]) then [n[0]] else []) + Filtered(n[1..], f)
  }

  /** Filtering keeps exactly the chosen entries, in order. */
  lemma {:induction false} FilteredMeaning(n: Node, f: Pair -> bool)
    requires Sorted(n)
    ensures Sorted(Filtered(n, f))
    ensures forall e :: e in Filtered(n, f) <==> e in n && f(e)
  {
    if n != [] {
      HeadIsNew(n);
      FilteredMeaning(n[1..], f);
      var rest := Filtered(n[1..], f);
      forall j | 0 <= j < |rest| ensures n[0].key < rest[j].key {
        assert rest[j] in n[1..];
      }
      assert Filtered(n, f) == (if f(n[0]) then [n[0]] else []) + rest;
    }
  }

  /** What a predicate with state decides about the entries in turn, and its state afterwards. */
  function Decide<S>(n: Node, f: (S, Pair) -> (S, bool), s: S): (r: (S, seq<bool>))
    ensures |r.1| == |n|
  {
    if n == [] then (s, [])
    else
      var before := Decide(n[..|n| - 1], f, s);
      var (after, keep) := f(before.0, n[|n| - 1]);
      (after, before.1 + [keep])
  }

  /** The predicate is asked about one entry after the other, each time in the state it was left in. */
  lemma {:induction false} DecisionsAreInTurn<S>(n: Node, f: (S, Pair) -> (S, bool), s: S) returns (states: seq<S>)
    ensures |states| == |n| + 1 && states[0] == s && states[|n|] == Decide(n, f, s).0
    ensures forall i :: 0 <= i < |n| ==> f(states[i], n[i]) == (states[i + 1], Decide(n, f, s).1[i])
  {
    states := [s];
    if n != [] {
      var before := DecisionsAreInTurn(n[..|n| - 1], f, s);
      states := before + [Decide(n, f, s).0];
    }
  }

  function Chosen(n: Node, keep: seq<bool>): Node
    requires |keep| == |n|
  {
    if n == [] then [] else (if keep[0] then [n[0]] else []) + Chosen(n[1..], keep[1..])
  }

  lemma {:induction false} FilteredIsChosen(n: Node, keep: seq<bool>, g: Pair -> bool)
    requires |keep| == |n| && forall i :: 0 <= i < |n| ==> g(n[i]) == keep[i]
    ensures Filtered(n, g) == Chosen(n, keep)
  {
    if n != [] {
      FilteredIsChosen(n[1..], keep[1..], g);
    }
  }

  /** With a predicate that only looks at the entry, choosing is filtering. */
  lemma {:induction false} StatelessDecisions<S(!new)>(n: Node, f: (S, Pair) -> (S, bool), s: S, g: Pair -> bool)
    requires forall t, e :: f(t, e).1 == g(e)
    ensures forall i :: 0 <= i < |n| ==> Decide(n, f, s).1[i] == g(n[i])
    ensures Chosen(n, Decide(n, f, s).1) == Filtered(n, g)
  {
    if n != [] {
      StatelessDecisions(n[..|n| - 1], f, s, g);
    }
    FilteredIsChosen(n, Decide(n, f, s).1, g);
  }

  lemma {:induction false} FilteredSkipsKept(n: Node, f: Pair -> bool, i: nat)
    requires i <= |n| && forall x :: 0 <= x < i ==> f(n[x])
    ensures Filtered(n, f) == n[..i] + Filtered(n[i..], f)
  {
    if i == 0 {
      assert n[0..] == n;
    } else {
      FilteredSkipsKept(n[1..], f, i - 1);
      assert n[1..][i - 1..] == n[i..];
      assert n[..i] == [n[0]] + n[1..][..i - 1];
    }
  }

  // ---------------------------------------------------------------- appending

  /** Replacing, one after another, by the entries of `b`. */
  ghost function Absorbed(a: Node, b: Node): Node
    decreases |b|
  {
    if b == [] then a else Absorbed(Stored(a, b[0]), b[1..])
  }

  /** The first entry of a sorted node is not in the rest, nor is its key. */
  lemma HeadIsNew(b: Node)
    requires Sorted(b) && b != []
    ensures Sorted(b[1..]) && b[0].key !in KeySet(b[1..])
    ensures forall e :: e in b[1..] ==> b[0].key < e.key
    ensures forall e :: e in b <==> e == b[0] || e in b[1..]
    ensures KeySet(b) == {b[0].key} + KeySet(b[1..])
  {
    assert forall e :: e in b <==> e == b[0] || e in b[1..];
    forall e | e in b[1..] ensures b[0].key < e.key {
      var x :| 0 <= x < |b[1..]| && b[1..][x] == e;
      assert b[x + 1] == e;
    }
  }

  /** Appending is union, with the entries of the appended set winning. */
  lemma {:induction false} AbsorbedMeaning(a: Node, b: Node)
    requires Sorted(a) && Sorted(b)
    ensures Sorted(Absorbed(a, b))
    ensures forall e :: e in Absorbed(a, b) <==> e in b || (e in a && e.key !in KeySet(b))
    decreases |b|
  {
    if b != [] {
      HeadIsNew(b);
      StoredMeaning(a, b[0]);
      AbsorbedMeaning(Stored(a, b[0]), b[1..]);
      forall e ensures e in Absorbed(a, b) <==> e in b || (e in a && e.key !in KeySet(b)) {
        assert e in b ==> e.key in KeySet(b);
        assert e in Absorbed(a, b) <==> e in b[1..] || (e in Stored(a, b[0]) && e.key !in KeySet(b[1..]));
      }
    }
  }

  /** Appending what was cut off restores the whole. */
  lemma {:induction false} AbsorbedRestores(n: Node, p: nat)
    requires Sorted(n) && p <= |n|
    ensures Absorbed(n[..p], n[p..]) == n
    decreases |n| - p
  {
    if p == |n| {
      assert n[..p] == n;
    } else {
      var a := n[..p];
      PointUnique(a, n[p].key, p);
      assert Stored(a, n[p]) == n[..p + 1];
      assert n[p..][1..] == n[p + 1..];
      AbsorbedRestores(n, p + 1);
    }
  }
}
