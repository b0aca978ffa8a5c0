/**
 The primitives of one node, a growable array kept in strictly ascending key order.

 A node is a sequence of pairs.  Each primitive that changes a node in place is a method taking
 the node and returning its new contents, proved equal to a function that the rest of the
 development reasons with.
 */
module NodeOps {
  import opened Basics

  type Node = seq<Pair>

  ghost predicate Sorted(n: Node) {
    forall i, j :: 0 <= i < j < |n| ==> n[i].key < n[j].key
  }

  lemma {:induction false} PointExists(n: Node, k: int)
    ensures exists p: nat :: IsPoint(n, k, p)
  {
    if n == [] || k <= n[0].key {
      assert IsPoint(n, k, 0);
    } else {
      PointExists(n[1..], k);
      var p: nat :| IsPoint(n[1..], k, p);
      assert forall i :: 0 < i < |n| ==> n[i] == n[1..][i - 1];
      assert IsPoint(n, k, p + 1);
    }
  }

  ghost predicate IsPoint(n: Node, k: int, p: nat) {
    && p <= |n|
    && (forall i :: 0 <= i < p ==> n[i].key < k)
    && (p < |n| ==> k <= n[p].key)
  }

  /** How many leading entries have a key below k. */
  ghost function Point(n: Node, k: int): (p: nat)
    ensures IsPoint(n, k, p)
  {
    PointExists(n, k);
    var p: nat :| IsPoint(n, k, p);
    p
  }

  ghost predicate Has(n: Node, k: int) {
    Point(n, k) < |n| && n[Point(n, k)].key == k
  }

  function Max(n: Node): int
    requires n != []
  {
    n[|n| - 1].key
  }

  function Inserted(n: Node, i: nat, p: Pair): Node
    requires i <= |n|
  {
    n[..i] + [p] + n[i..]
  }

  function Removed(n: Node, i: nat): Node
    requires i < |n|
  {
    n[..i] + n[i + 1..]
  }

  /** The node after p is stored, in place of the entry with p's key if there is one. */
  ghost function Stored(n: Node, p: Pair): Node {
    var i := Point(n, p.key);
    if Has(n, p.key) then n[i := p] else Inserted(n, i, p)
  }

  /** The entry with key k, if any. */
  ghost function Find(n: Node, k: int): Option<Pair> {
    if Has(n, k) then Some(n[Point(n, k)]) else None
  }

  // ---------------------------------------------------------------- meaning of the functions

  /** In a sorted node the insertion point is the only position that separates smaller keys
      from the others. */
  lemma PointUnique(n: Node, k: int, p: nat)
    requires Sorted(n) && IsPoint(n, k, p)
    ensures p == Point(n, k)
  {
  }

  lemma FindIsMembership(n: Node, e: Pair)
    requires Sorted(n)
    ensures e in n <==> Find(n, e.key) == Some(e)
  {
    if e in n {
      var i :| 0 <= i < |n| && n[i] == e;
      PointUnique(n, e.key, i);
    }
  }

  /** `r` is the answer to a lookup of k among the entries satisfying `holds`. */
  ghost predicate Answers(r: Option<Pair>, holds: Pair -> bool, k: int) {
    match r
    case Some(e) => e.key == k && holds(e)
    case None => forall e: Pair :: e.key == k ==> !holds(e)
  }

  lemma FindMeaning(n: Node, k: int)
    requires Sorted(n)
    ensures Answers(Find(n, k), e => e in n, k)
    ensures Has(n, k) <==> Find(n, k).Some?
  {
    forall e | e in n && e.key == k ensures Find(n, k) == Some(e) { FindIsMembership(n, e); }
  }

  /** A node with the window [i, j) replaced by one entry, position by position. */
  lemma WindowAt(n: Node, i: nat, j: nat, p: Pair)
    requires i <= j <= |n|
    ensures var s := n[..i] + [p] + n[j..];
            && (forall x :: 0 <= x < i ==> s[x] == n[x]) && s[i] == p
            && (forall x :: i < x < |s| ==> s[x] == n[x - i - 1 + j])
  {
  }

  /** Replacing the window [i, j) of a sorted node by one fitting entry. */
  lemma WindowMeaning(n: Node, i: nat, j: nat, p: Pair)
    requires Sorted(n) && i <= j <= |n|
    requires forall x :: 0 <= x < i ==> n[x].key < p.key
    requires forall x :: j <= x < |n| ==> p.key < n[x].key
    requires forall x :: i <= x < j ==> n[x].key == p.key
    ensures Sorted(n[..i] + [p] + n[j..])
    ensures forall e :: e in n[..i] + [p] + n[j..] <==> e == p || (e in n && e.key != p.key)
  {
    WindowAt(n, i, j, p);
    var s := n[..i] + [p] + n[j..];
    forall e | e in n && e.key != p.key ensures e in s {
      var x :| 0 <= x < |n| && n[x] == e;
      assert s[if x < i then x else x - j + i + 1] == e;
    }
  }

  /** Storing keeps a node sorted and changes it, as a set of entries, at one key only. */
  lemma StoredMeaning(n: Node, p: Pair)
    requires Sorted(n)
    ensures Sorted(Stored(n, p))
    ensures forall e :: e in Stored(n, p) <==> e == p || (e in n && e.key != p.key)
    ensures |Stored(n, p)| == |n| + if Has(n, p.key) then 0 else 1
    ensures Max(Stored(n, p)) == if n == [] || Max(n) < p.key then p.key else Max(n)
  {
    var i := Point(n, p.key);
    var j := if Has(n, p.key) then i + 1 else i;
    var s := n[..i] + [p] + n[j..];
    assert Stored(n, p) == s;
    assert s[|s| - 1] == if j < |n| then n[|n| - 1] else p;
    WindowMeaning(n, i, j, p);
  }

  /** Removal keeps a node sorted and drops one entry. */
  lemma RemovedMeaning(n: Node, i: nat)
    requires Sorted(n) && i < |n|
    ensures Sorted(Removed(n, i))
    ensures forall e :: e in Removed(n, i) <==> e in n && e.key != n[i].key
    ensures Removed(n, i) != [] ==> Max(Removed(n, i)) <= Max(n)
  {
    var r := Removed(n, i);
    forall e | e in n && e.key != n[i].key ensures e in r {
      var x :| 0 <= x < |n| && n[x] == e;
      assert r[if x < i then x else x - 1] == e;
    }
  }

  lemma CutMeaning(n: Node, h: nat)
    requires Sorted(n) && h <= |n|
    ensures Sorted(n[..h]) && Sorted(n[h..])
    ensures forall e :: e in n <==> e in n[..h] || e in n[h..]
    ensures forall a, b :: a in n[..h] && b in n[h..] ==> a.key < b.key
  {
    assert n == n[..h] + n[h..];
  }

  lemma AtMostMax(n: Node, e: Pair)
    requires Sorted(n) && e in n
    ensures n != [] && e.key <= Max(n)
  {
  }

  // ---------------------------------------------------------------- the primitives themselves

  datatype Position = Found(at: nat) | Missing(at: nat)

  /** Borrowed keys of a haystack: never descending, but possibly repeating. */
  ghost predicate Ascending(keys: seq<int>) {
    forall i, j :: 0 <= i < j < |keys| ==> keys[i] <= keys[j]
  }

  /** Binary search: a matching position, or the only place where the needle fits. */
  method Search(keys: seq<int>, needle: int) returns (r: Position)
    requires Ascending(keys)
    ensures r.Found? ==> r.at < |keys| && keys[r.at] == needle
    ensures r.Missing? ==> r.at <= |keys|
    ensures r.Missing? ==> forall i :: 0 <= i < r.at ==> keys[i] < needle
    ensures r.Missing? ==> forall i :: r.at <= i < |keys| ==> needle < keys[i]
    ensures r.Found? <==> needle in keys
  {
    var j := |keys|;
    var i := 0;
    var m := j / 2;
    while i != j
      invariant 0 <= i <= j <= |keys|
      invariant m == (i + j) / 2
      invariant forall x :: 0 <= x < i ==> keys[x] < needle
      invariant forall x :: j <= x < |keys| ==> needle < keys[x]
      decreases j - i
    {
      if keys[m] == needle {
        return Found(m);
      } else if keys[m] < needle {
        i := m + 1;
        m := (i + j) / 2;
      } else {
        j := m;
        m := (i + j) / 2;
      }
    }
    r := Missing(i);
  }

  function Keys(n: Node): (ks: seq<int>)
    ensures |ks| == |n| && forall i :: 0 <= i < |n| ==> ks[i] == n[i].key
  {
    seq(|n|, i requires 0 <= i < |n| => n[i].key)
  }

  method SearchNode(n: Node, k: int) returns (r: Position)
    requires Sorted(n)
    ensures r == if Has(n, k) then Found(Point(n, k)) else Missing(Point(n, k))
  {
    r := Search(Keys(n), k);
    PointUnique(n, k, r.at);
  }

  /** Adds a value unless its key is present; reports whether and where. */
  method Insert(n: Node, p: Pair) returns (n': Node, inserted: bool, idx: nat)
    requires Sorted(n)
    ensures idx == Point(n, p.key) && inserted == !Has(n, p.key)
    ensures n' == if inserted then Stored(n, p) else n
  {
    var r := SearchNode(n, p.key);
    idx := r.at;
    if r.Found? {
      return n, false, idx;
    }
    n' := Inserted(n, idx, p);
    inserted := true;
  }

  method Delete(n: Node, k: int) returns (n': Node, removed: Option<(Pair, nat)>)
    requires Sorted(n)
    ensures removed.Some? <==> Has(n, k)
    ensures removed.Some? ==> removed.value == (n[Point(n, k)], Point(n, k)) && n' == Removed(n, Point(n, k))
    ensures removed.None? ==> n' == n
  {
    var r := SearchNode(n, k);
    if r.Missing? {
      return n, None;
    }
    removed := Some((n[r.at], r.at));
    n' := Removed(n, r.at);
  }

  /** Keeps the lower half in place and returns the upper half. */
  method Halve(n: Node) returns (lower: Node, upper: Node)
    ensures n == lower + upper && |lower| == |n| / 2
  {
    lower, upper := n[..|n| / 2], n[|n| / 2..];
  }

  method Replace(n: Node, idx: nat, p: Pair) returns (n': Node, prior: Option<Pair>)
    ensures idx < |n| ==> n' == n[idx := p] && prior == Some(n[idx])
    ensures idx >= |n| ==> n' == n && prior == None
  {
    if idx < |n| {
      return n[idx := p], Some(n[idx]);
    }
    return n, None;
  }

  // ---------------------------------------------------------------- skipping past a bound

  /** x lies before the first element that a lower bound admits. */
  predicate Before(x: int, b: Bound) {
    match b
    case Included(q) => x < q
    case Excluded(q) => x <= q
    case Unbounded => false
  }

  /** x lies after the last element that an upper bound admits. */
  predicate After(x: int, b: Bound) {
    match b
    case Included(q) => q < x
    case Excluded(q) => q <= x
    case Unbounded => false
  }

  /** How many elements at the chosen end a bound rules out. */
  ghost predicate Skips(keys: seq<int>, b: Bound, forward: bool, count: nat) {
    && count <= |keys|
    && (forward ==> forall i :: 0 <= i < |keys| ==> (Before(keys[i], b) <==> i < count))
    && (!forward ==> forall i :: 0 <= i < |keys| ==> (After(keys[i], b) <==> |keys| - count <= i))
  }

  /** One less than the number of elements to skip from the chosen end, or nothing when that
      number is zero; borrowed keys may repeat. */
  method PositionsToSkip(keys: seq<int>, bound: Bound, forward: bool) returns (r: Option<nat>)
    requires Ascending(keys)
    ensures Skips(keys, bound, forward, if r.None? then 0 else r.value + 1)
  {
    if bound.Unbounded? {
      return None;
    }
    var skipped := -1;
    if forward {
      var i := 0;
      while i < |keys|
        invariant 0 <= i <= |keys| && skipped == i - 1
        invariant forall x :: 0 <= x < i ==> Before(keys[x], bound)
      {
        if keys[i] < bound.at {
          skipped := skipped + 1;
        } else if keys[i] == bound.at {
          if bound.Included? { break; }
          skipped := skipped + 1;
        } else {
          break;
        }
        i := i + 1;
      }
      assert i < |keys| ==> !Before(keys[i], bound);
    } else {
      var i := |keys|;
      while i > 0
        invariant 0 <= i <= |keys| && skipped == |keys| - i - 1
        invariant forall x :: i <= x < |keys| ==> After(keys[x], bound)
      {
        if bound.at < keys[i - 1] {
          skipped := skipped + 1;
        } else if keys[i - 1] == bound.at {
          if bound.Included? { break; }
          skipped := skipped + 1;
        } else {
          break;
        }
        i := i - 1;
      }
      assert i > 0 ==> !After(keys[i - 1], bound);
    }
    assert Skips(keys, bound, forward, skipped + 1);
    r := if skipped >= 0 then Some(skipped) else None;
  }

  lemma SkipsUnique(keys: seq<int>, bound: Bound, forward: bool, c: nat, d: nat)
    requires Skips(keys, bound, forward, c) && Skips(keys, bound, forward, d)
    ensures c == d
  {
    if keys != [] {
      // The first and the last position on which the two counts could disagree.
      var least := if c < d then c else d;
      var front := keys[if least < |keys| then least else 0];
      var back := keys[if least < |keys| then |keys| - 1 - least else 0];
    }
  }
}
