/**
 When the nodes of the index partition the key space, and what each phase does to that partition
 and to the entries stored.  Nothing here depends on which thread runs a phase, so the facts
 serve both the sequential and the interleaved development.
 */
module Separation {
  import opened Basics
  import opened NodeOps
  import opened OrderedKeys
  import opened ConcurrentState

  /** e is stored in a node that the index reaches. */
  ghost predicate Holds(s: State, e: Pair)
    requires WellFormed(s)
  {
    exists k :: k in s.index && e in NodeAt(s, k)
  }

  /** Every stored entry lies in the one node to which its key is routed. */
  ghost predicate Separated(s: State)
    requires WellFormed(s)
  {
    forall k, e :: k in s.index && e in NodeAt(s, k) ==> Routes(s.index.Keys, k, e.key)
  }

  ghost predicate Injective(s: State) {
    forall j, k :: j in s.index && k in s.index && s.index[j] == s.index[k] ==> j == k
  }

  ghost predicate Sound(s: State) {
    && WellFormed(s) && Injective(s) && Separated(s)
    && forall k :: k in s.index ==> NodeAt(s, k) != []
  }

  /** Each index key is the key of some entry of its node. */
  ghost predicate KeysStored(s: State)
    requires WellFormed(s)
  {
    forall k :: k in s.index ==> exists e :: e in NodeAt(s, k) && e.key == k
  }

  /** The entries of t are those of s with v stored. */
  ghost predicate Puts(s: State, t: State, v: Pair)
    requires WellFormed(s) && WellFormed(t)
  {
    forall e :: Holds(t, e) <==> e == v || (Holds(s, e) && e.key != v.key)
  }

  ghost predicate Removes(s: State, t: State, key: int)
    requires WellFormed(s) && WellFormed(t)
  {
    forall e :: Holds(t, e) <==> Holds(s, e) && e.key != key
  }

  ghost predicate SameEntries(s: State, t: State)
    requires WellFormed(s) && WellFormed(t)
  {
    forall e :: Holds(t, e) <==> Holds(s, e)
  }

  /** What locating the node of a key and then searching it finds. */
  ghost function Lookup(s: State, key: int): Option<Pair>
    requires WellFormed(s)
  {
    if s.index == map[] then None else Find(NodeAt(s, Locate(s.index.Keys, key)), key)
  }

  /** Routing reaches every stored entry, and finds nothing else. */
  lemma LookupFindsExactlyTheStored(s: State, e: Pair)
    requires WellFormed(s) && Separated(s)
    ensures Lookup(s, e.key) == Some(e) <==> Holds(s, e)
  {
    if s.index != map[] {
      var k := Locate(s.index.Keys, e.key);
      FindIsMembership(NodeAt(s, k), e);
      forall j | j in s.index && e in NodeAt(s, j) ensures j == k {
        RoutesUnique(s.index.Keys, j, k, e.key);
      }
    }
  }

  lemma LookupAnswers(s: State, key: int)
    requires WellFormed(s) && Separated(s)
    ensures Answers(Lookup(s, key), e => Holds(s, e), key)
  {
    match Lookup(s, key) {
      case Some(e) =>
        FindMeaning(NodeAt(s, Locate(s.index.Keys, key)), key);
        LookupFindsExactlyTheStored(s, e);
      case None =>
        forall e: Pair | e.key == key ensures !Holds(s, e) { LookupFindsExactlyTheStored(s, e); }
    }
  }

  // ---------------------------------------------------------------- rewriting one node

  /** Rewriting the node at k within its own key range changes nothing elsewhere. */
  lemma NodeRewritten(s: State, t: State, k: int, n': Node)
    requires WellFormed(s) && Injective(s) && WellFormed(t)
    requires k in s.index && t.index == s.index && t.heap == s.heap[s.index[k] := n']
    ensures forall j :: j in t.index ==> NodeAt(t, j) == if j == k then n' else NodeAt(s, j)
  {
  }

  lemma EntryAt(s: State, k: int, j: int, e: Pair)
    requires WellFormed(s) && Separated(s)
    requires j in s.index && e in NodeAt(s, j) && Routes(s.index.Keys, k, e.key)
    ensures j == k
  {
    RoutesUnique(s.index.Keys, j, k, e.key);
  }

  /** Rewriting the node to which every new entry is routed keeps the partition. */
  lemma RewrittenStaysSound(s: State, t: State, k: int, n': Node)
    requires Sound(s) && WellFormed(t) && k in s.index
    requires t.index == s.index && t.heap == s.heap[s.index[k] := n']
    requires n' != [] && forall e :: e in n' ==> Routes(s.index.Keys, k, e.key)
    ensures Sound(t)
    ensures forall j :: j in t.index ==> NodeAt(t, j) == if j == k then n' else NodeAt(s, j)
  {
    NodeRewritten(s, t, k, n');
    forall j, x | j in t.index && x in NodeAt(t, j) ensures Routes(t.index.Keys, j, x.key) {
      if j != k { assert x in NodeAt(s, j); }
    }
  }

  lemma StoredKeepsKeys(s: State, t: State, k: int, v: Pair)
    requires WellFormed(s) && WellFormed(t) && KeysStored(s) && k in s.index && t.index == s.index
    requires forall j :: j in t.index && j != k ==> NodeAt(t, j) == NodeAt(s, j)
    requires forall e :: e in NodeAt(t, k) <==> e == v || (e in NodeAt(s, k) && e.key != v.key)
    ensures KeysStored(t)
  {
    forall j | j in t.index ensures exists x :: x in NodeAt(t, j) && x.key == j {
      var x :| x in NodeAt(s, j) && x.key == j;
      assert x in NodeAt(t, j) || v in NodeAt(t, j);
    }
  }

  /** The first phase of a put, when it does not ask for a split, is the put itself. */
  lemma EditForPutStores(s: State, v: Pair)
    requires Sound(s) && s.index != map[]
    ensures var (t, e) := EditForPut(s, v);
            && Sound(t)
            && (KeysStored(s) ==> KeysStored(t))
            && (if e.next.Some? && e.next.value.Split? then t == s
                else Puts(s, t, v) && Answers(e.result, x => Holds(s, x), v.key))
  {
    EditForPutKeeps(s, v);
    var (t, e) := EditForPut(s, v);
    var k := Locate(s.index.Keys, v.key);
    var n := NodeAt(s, k);
    if |n| < s.cap {
      StoredMeaning(n, v);
      FindMeaning(n, v.key);
      assert e.result == Find(n, v.key);
      AnswersAt(s, k, Find(n, v.key), v.key);
      RewrittenStaysSound(s, t, k, Stored(n, v));
      PutAt(s, t, k, Stored(n, v), v);
      if KeysStored(s) { StoredKeepsKeys(s, t, k, v); }
    }
  }

  lemma PutAt(s: State, t: State, k: int, n': Node, v: Pair)
    requires WellFormed(s) && WellFormed(t) && Separated(s) && t.index == s.index
    requires Routes(s.index.Keys, k, v.key)
    requires forall j :: j in t.index ==> NodeAt(t, j) == if j == k then n' else NodeAt(s, j)
    requires forall e :: e in n' <==> e == v || (e in NodeAt(s, k) && e.key != v.key)
    ensures Puts(s, t, v)
  {
    forall e ensures Holds(t, e) <==> e == v || (Holds(s, e) && e.key != v.key) {
      if Holds(t, e) {
        var j :| j in t.index && e in NodeAt(t, j);
        if j != k && e.key == v.key { EntryAt(s, k, j, e); }
      }
      if e == v { assert v in NodeAt(t, k); }
      if Holds(s, e) && e.key != v.key {
        var j :| j in s.index && e in NodeAt(s, j);
        assert e in NodeAt(t, j);
      }
    }
  }

  lemma AnswersAt(s: State, k: int, r: Option<Pair>, key: int)
    requires WellFormed(s) && Separated(s) && Routes(s.index.Keys, k, key)
    requires Answers(r, e => e in NodeAt(s, k), key)
    ensures Answers(r, e => Holds(s, e), key)
  {
    if r.None? {
      forall e: Pair | e.key == key && Holds(s, e) ensures false {
        var j :| j in s.index && e in NodeAt(s, j);
        EntryAt(s, k, j, e);
      }
    }
  }

  // ---------------------------------------------------------------- splitting

  /** v still belongs between the nodes on either side of k.  The commit of a split does not
      check this: it re-checks the key and the identity of the node only. */
  ghost predicate Fits(s: State, k: int, v: Pair)
    requires WellFormed(s)
  {
    forall j :: j in s.index ==>
      && (j < k ==> j < v.key)
      && (k < j ==> forall e :: e in NodeAt(s, j) ==> v.key < e.key)
  }

  /** A committed split of a value that still fits is the put itself. */
  lemma CommitSplitStores(s: State, id: NodeId, k: int, v: Pair)
    requires Sound(s) && KeysStored(s) && k in s.index && s.index[k] == id && Fits(s, k, v)
    ensures var (t, verdict) := CommitSplit(s, id, k, v);
            && verdict.Done? && Sound(t) && KeysStored(t) && Puts(s, t, v)
            && Answers(verdict.prior, e => Holds(s, e), v.key)
  {
    var (t, verdict) := CommitSplit(s, id, k, v);
    CommitKeeps(s, Split(id, k, v));
    var n := NodeAt(s, k);
    var p := CommitSplitShape(s, id, k, v);
    CommitSplitContents(n, v, p);
    forall e | e in p.left || e in p.right ensures Fits(s, k, e) {
      if e != v { OwnEntriesFit(s, k, e); }
    }
    SplitNeighbours(s, k, v, p, t);
    SplitStaysInjective(s, k, p, t);
    SplitSeparates(s, k, v, p, t);
    SplitPuts(s, k, v, p, t);
    SplitAnswers(s, k, v, p.prior);
  }

  /** The nodes of t are the two halves and all other nodes of s. */
  ghost predicate Splits(s: State, k: int, v: Pair, p: Halves, t: State)
    requires WellFormed(s) && WellFormed(t) && k in s.index
  {
    && p.right != []
    && t.index.Keys == s.index.Keys - {k} + {Max(p.right)} + (if p.left == [] then {} else {Max(p.left)})
    && (forall j :: j in t.index ==>
          NodeAt(t, j) ==
          (if j == Max(p.right) then p.right
           else if p.left != [] && j == Max(p.left) then p.left
           else if j in s.index then NodeAt(s, j) else []))
    && (forall j :: j in s.index && j != k ==>
          && j != Max(p.right)
          && (p.left != [] ==> j != Max(p.left)))
  }

  lemma OwnEntriesFit(s: State, k: int, e: Pair)
    requires Sound(s) && k in s.index && e in NodeAt(s, k)
    ensures Fits(s, k, e)
  {
    assert Routes(s.index.Keys, k, e.key);
    forall j, x | j in s.index && k < j && x in NodeAt(s, j) ensures e.key < x.key {
      assert Routes(s.index.Keys, j, x.key);
    }
  }

  /** A fitting entry is strictly between the neighbouring keys. */
  lemma FitsBetweenKeys(s: State, k: int, e: Pair, j: int)
    requires WellFormed(s) && KeysStored(s) && Fits(s, k, e) && j in s.index && j != k
    ensures if j < k then j < e.key else e.key < j
  {
    var x :| x in NodeAt(s, j) && x.key == j;
  }

  lemma SplitNeighbours(s: State, k: int, v: Pair, p: Halves, t: State)
    requires Sound(s) && KeysStored(s) && WellFormed(t) && k in s.index
    requires forall e :: e in p.left || e in p.right ==> Fits(s, k, e)
    requires p.right != [] && p.rightKey == Max(p.right) && Below(p.left, p.right)
    requires t.heap == s.heap[s.index[k] := p.left][s.nextNode := p.right]
    requires t.index == (if p.left == [] then s.index - {k} else (s.index - {k})[Max(p.left) := s.index[k]])[p.rightKey := s.nextNode]
    ensures Splits(s, k, v, p, t)
  {
    hide Separated, Fits, KeysStored, Sorted;
    var b := p.right[|p.right| - 1];
    assert b in p.right;
    forall j | j in s.index && j != k
      ensures j != b.key && (p.left != [] ==> j != Max(p.left))
    {
      FitsBetweenKeys(s, k, b, j);
      if p.left != [] {
        var a := p.left[|p.left| - 1];
        assert a in p.left;
        FitsBetweenKeys(s, k, a, j);
      }
    }
    if p.left != [] {
      assert p.left[|p.left| - 1] in p.left;
      assert Max(p.left) < b.key;
    }
  }

  lemma SplitStaysInjective(s: State, k: int, p: Halves, t: State)
    requires WellFormed(s) && Injective(s) && WellFormed(t) && k in s.index
    requires t.index == (if p.left == [] then s.index - {k} else (s.index - {k})[Max(p.left) := s.index[k]])[p.rightKey := s.nextNode]
    ensures Injective(t)
  {
  }

  /** The key of a half routes the entries of that half. */
  lemma HalfRoutes(s: State, k: int, v: Pair, p: Halves, t: State, half: Node, e: Pair)
    requires Sound(s) && KeysStored(s) && WellFormed(t) && k in s.index && Splits(s, k, v, p, t)
    requires forall x :: x in p.left || x in p.right ==> Fits(s, k, x)
    requires Below(p.left, p.right) && Sorted(half) && e in half
    requires half == p.left || half == p.right
    ensures Routes(t.index.Keys, Max(half), e.key)
  {
    hide Separated, Injective, Fits;
    AtMostMax(half, e);
    forall j | j in t.index && j < Max(half) ensures j < e.key {
      if j in s.index && j != k {
        FitsBetweenKeys(s, k, e, j);
        var m := half[|half| - 1];
        assert m in half;
        FitsBetweenKeys(s, k, m, j);
      } else if p.left != [] && j == Max(p.left) {
        assert p.left[|p.left| - 1] in p.left;
      }
    }
  }

  /** Exchanging one key for others that do not come between j and v leaves v with j. */
  lemma RoutesAround(keys: set<int>, k: int, added: set<int>, j: int, v: int)
    requires Routes(keys, j, v) && j != k
    requires forall i :: i in added ==> (i < j ==> i < v) && (j < i ==> j < k)
    requires k in keys
    ensures Routes(keys - {k} + added, j, v)
  {
  }

  /** The key of a half lies on the side of j where the split node's key was. */
  lemma HalfKeyBeside(s: State, k: int, half: Node, j: int, e: Pair)
    requires WellFormed(s) && KeysStored(s) && k in s.index && j in s.index && j != k && half != []
    requires Fits(s, k, half[|half| - 1]) && Routes(s.index.Keys, j, e.key) && e in NodeAt(s, j)
    ensures (Max(half) < j ==> Max(half) < e.key) && (j < Max(half) ==> j < k)
  {
    FitsBetweenKeys(s, k, half[|half| - 1], j);
  }

  /** An entry outside the halves is still routed to its own key. */
  lemma OthersRoute(s: State, k: int, v: Pair, p: Halves, t: State, j: int, e: Pair)
    requires Sound(s) && KeysStored(s) && WellFormed(t) && k in s.index && Splits(s, k, v, p, t)
    requires forall x :: x in p.left || x in p.right ==> Fits(s, k, x)
    requires j in s.index && j != k && e in NodeAt(s, j)
    ensures Routes(t.index.Keys, j, e.key)
  {
    assert Routes(s.index.Keys, j, e.key);
    hide Separated, Injective, Fits, Routes, Sorted, KeysStored;
    var added := {Max(p.right)} + (if p.left == [] then {} else {Max(p.left)});
    assert p.right[|p.right| - 1] in p.right;
    HalfKeyBeside(s, k, p.right, j, e);
    if p.left != [] {
      assert p.left[|p.left| - 1] in p.left;
      HalfKeyBeside(s, k, p.left, j, e);
    }
    RoutesAround(s.index.Keys, k, added, j, e.key);
    assert t.index.Keys == s.index.Keys - {k} + added;
  }

  lemma SplitSeparates(s: State, k: int, v: Pair, p: Halves, t: State)
    requires Sound(s) && KeysStored(s) && WellFormed(t) && k in s.index && Splits(s, k, v, p, t)
    requires Below(p.left, p.right) && Sorted(p.left) && Sorted(p.right)
    requires forall x :: x in p.left || x in p.right ==> Fits(s, k, x)
    ensures Separated(t) && KeysStored(t)
    ensures forall j :: j in t.index ==> NodeAt(t, j) != []
  {
    hide Fits, Sorted, Injective, Below;
    forall j, e | j in t.index && e in NodeAt(t, j) ensures Routes(t.index.Keys, j, e.key) {
      if j == Max(p.right) {
        HalfRoutes(s, k, v, p, t, p.right, e);
      } else if p.left != [] && j == Max(p.left) {
        HalfRoutes(s, k, v, p, t, p.left, e);
      } else {
        OthersRoute(s, k, v, p, t, j, e);
      }
    }
    forall j | j in t.index
      ensures NodeAt(t, j) != [] && exists e :: e in NodeAt(t, j) && e.key == j
    {
      if j == Max(p.right) {
        assert p.right[|p.right| - 1] in NodeAt(t, j);
      } else if p.left != [] && j == Max(p.left) {
        assert p.left[|p.left| - 1] in NodeAt(t, j);
      } else {
        var x :| x in NodeAt(s, j) && x.key == j;
        assert x in NodeAt(t, j);
      }
    }
  }

  lemma SplitPuts(s: State, k: int, v: Pair, p: Halves, t: State)
    requires Sound(s) && WellFormed(t) && k in s.index && Splits(s, k, v, p, t) && Fits(s, k, v)
    requires forall e :: e in p.left || e in p.right <==> e == v || (e in NodeAt(s, k) && e.key != v.key)
    requires p.left != [] ==> Max(p.left) < Max(p.right)
    ensures Puts(s, t, v)
  {
    forall e ensures Holds(t, e) <==> e == v || (Holds(s, e) && e.key != v.key) {
      if Holds(t, e) { HeldAfterSplit(s, k, v, p, t, e); }
      if e == v || (Holds(s, e) && e.key != v.key) { HeldThroughSplit(s, k, v, p, t, e); }
    }
  }

  lemma HeldAfterSplit(s: State, k: int, v: Pair, p: Halves, t: State, e: Pair)
    requires Sound(s) && WellFormed(t) && k in s.index && Splits(s, k, v, p, t) && Fits(s, k, v) && Holds(t, e)
    requires e in p.left || e in p.right <==> e == v || (e in NodeAt(s, k) && e.key != v.key)
    ensures e == v || (Holds(s, e) && e.key != v.key)
  {
    hide Separated, Fits;
    var j :| j in t.index && e in NodeAt(t, j);
    if !(e in p.left || e in p.right) {
      assert j in s.index && j != k && e in NodeAt(s, j);
      NotElsewhere(s, k, v, j, e);
    }
  }

  lemma HeldThroughSplit(s: State, k: int, v: Pair, p: Halves, t: State, e: Pair)
    requires WellFormed(s) && WellFormed(t) && k in s.index && Splits(s, k, v, p, t)
    requires p.left != [] ==> Max(p.left) < Max(p.right)
    requires e == v || (Holds(s, e) && e.key != v.key)
    requires e in p.left || e in p.right <==> e == v || (e in NodeAt(s, k) && e.key != v.key)
    ensures Holds(t, e)
  {
    if e in p.right {
      assert e in NodeAt(t, Max(p.right));
    } else if e in p.left {
      assert e in NodeAt(t, Max(p.left));
    } else {
      var j :| j in s.index && e in NodeAt(s, j);
      assert e in NodeAt(t, j);
    }
  }

  lemma NotElsewhere(s: State, k: int, v: Pair, j: int, e: Pair)
    requires Sound(s) && k in s.index && Fits(s, k, v)
    requires j in s.index && j != k && e in NodeAt(s, j)
    ensures e.key != v.key
  {
    assert Routes(s.index.Keys, j, e.key);
  }

  lemma SplitAnswers(s: State, k: int, v: Pair, r: Option<Pair>)
    requires Sound(s) && k in s.index && Fits(s, k, v)
    requires Answers(r, e => e in NodeAt(s, k), v.key)
    ensures Answers(r, e => Holds(s, e), v.key)
  {
    if r.None? {
      forall e: Pair | e.key == v.key && Holds(s, e) ensures false {
        var j :| j in s.index && e in NodeAt(s, j);
        NotElsewhere(s, k, v, j, e);
      }
    }
  }

  /** A value routed to a key fits between the neighbours of that key. */
  lemma RoutedFits(s: State, k: int, v: Pair)
    requires Sound(s) && Routes(s.index.Keys, k, v.key)
    ensures Fits(s, k, v)
  {
    forall j, e | j in s.index && k < j && e in NodeAt(s, j) ensures v.key < e.key {
      assert Routes(s.index.Keys, j, e.key);
    }
  }

  /** The halves are indexed by their maxima; all other nodes keep key and contents. */
  lemma SplitLeavesMaxima(s: State, id: NodeId, k: int, v: Pair)
    requires WellFormed(s) && Injective(s) && Accepted(s, id, k)
    ensures var s' := CommitSplit(s, id, k, v).0;
            && WellFormed(s') && s'.index != map[] && Injective(s')
            && forall j :: j in s'.index ==>
                 if j in s.index && s.index[j] == s'.index[j] && s.index[j] != id then NodeAt(s', j) == NodeAt(s, j)
                 else NodeAt(s', j) != [] && Max(NodeAt(s', j)) == j
  {
    hide CommitSplit, StoreInHalf, Sorted;
    CommitKeeps(s, Split(id, k, v));
    var p := CommitSplitShape(s, id, k, v);
    var s' := CommitSplit(s, id, k, v).0;
    assert p.rightKey in s'.index;
  }

  // ---------------------------------------------------------------- stale splits

  /** A value above a whole node goes to its upper half, next to the node's greatest entry. */
  lemma GreatestStaysRight(n: Node, v: Pair, p: Halves)
    requires Sorted(n) && n != [] && Max(n) < v.key
    requires p == StoreInHalf(n[..|n| / 2], n[|n| / 2..], v)
    ensures n[|n| - 1] in p.right && v in p.right
  {
    HalvesFit(n);
    var l, r := n[..|n| / 2], n[|n| / 2..];
    assert r[|r| - 1] in r && n[|n| - 1] == r[|r| - 1];
    assert l != [] ==> l[|l| - 1] in l;
    StoredMeaning(r, v);
  }

  /** What any accepted split does to the index, fitting or not. */
  ghost predicate Halved(s: State, k: int, v: Pair, p: Halves, t: State)
    requires WellFormed(s) && WellFormed(t) && k in s.index
  {
    && p.right != [] && Max(p.right) in t.index && NodeAt(t, Max(p.right)) == p.right
    && (p.left != [] ==> Max(p.left) in t.index && NodeAt(t, Max(p.left)) == p.left)
    && (forall j :: j in s.index && j != k ==> j in t.index)
    && (forall j :: j in s.index && j != k && j != Max(p.right) && (p.left == [] || j != Max(p.left)) ==>
          NodeAt(t, j) == NodeAt(s, j))
    && (forall e :: e in p.left || e in p.right <==> e == v || (e in NodeAt(s, k) && e.key != v.key))
  }

  lemma CommitSplitHalves(s: State, id: NodeId, k: int, v: Pair) returns (p: Halves)
    requires Sound(s) && k in s.index && s.index[k] == id
    ensures var (t, verdict) := CommitSplit(s, id, k, v);
            var n := NodeAt(s, k);
            && WellFormed(t) && verdict.Done? && verdict.prior == p.prior
            && Halved(s, k, v, p, t)
            && Answers(p.prior, e => e in n, v.key)
            && Max(p.right) == (if Max(n) < v.key then v.key else Max(n))
            && (p.left != [] ==> exists e :: e in n && e.key == Max(p.left))
            && (Max(n) < v.key ==> n[|n| - 1] in p.right)
  {
    hide CommitSplit, StoreInHalf, Separated, KeysStored, Sorted, Find;
    var n := NodeAt(s, k);
    CommitKeeps(s, Split(id, k, v));
    p := CommitSplitShape(s, id, k, v);
    CommitSplitContents(n, v, p);
    assert p.right[|p.right| - 1] in p.right;
    if p.left != [] {
      assert p.left[|p.left| - 1] in p.left;
      assert n[|n| / 2 - 1] in n;
    }
    if Max(n) < v.key { GreatestStaysRight(n, v, p); }
  }

  /** A value that is not above an earlier key ends up in a half whose key lies behind it. */
  lemma StaleBelow(s: State, k: int, v: Pair, p: Halves, t: State, j: int)
    requires Sound(s) && WellFormed(t) && k in s.index && Halved(s, k, v, p, t)
    requires Max(p.right) >= Max(NodeAt(s, k))
    requires p.left != [] ==> exists e :: e in NodeAt(s, k) && e.key == Max(p.left)
    requires j in s.index && j < k && v.key <= j
    ensures !Separated(t)
  {
    var n := NodeAt(s, k);
    var last := n[|n| - 1];
    assert last in n && Routes(s.index.Keys, k, last.key);
    var half := if v in p.left then p.left else p.right;
    if v in p.left {
      var e :| e in n && e.key == Max(p.left);
      assert Routes(s.index.Keys, k, e.key);
    }
    assert v in NodeAt(t, Max(half)) && !Routes(t.index.Keys, Max(half), v.key);
  }

  /** A value that is not below a later node either moves the split node past that node's entries
      or, when it equals that node's key, hides the entry it should have replaced. */
  lemma StaleAbove(s: State, k: int, v: Pair, p: Halves, t: State, j: int, e: Pair)
    requires Sound(s) && KeysStored(s) && WellFormed(t) && k in s.index && Halved(s, k, v, p, t)
    requires Answers(p.prior, x => x in NodeAt(s, k), v.key)
    requires Max(p.right) == (if Max(NodeAt(s, k)) < v.key then v.key else Max(NodeAt(s, k)))
    requires p.left != [] ==> exists x :: x in NodeAt(s, k) && x.key == Max(p.left)
    requires Max(NodeAt(s, k)) < v.key ==> NodeAt(s, k)[|NodeAt(s, k)| - 1] in p.right
    requires j in s.index && k < j && e in NodeAt(s, j) && e.key <= v.key
    ensures !(Separated(t) && Answers(p.prior, x => Holds(s, x), v.key))
  {
    var n := NodeAt(s, k);
    var last := n[|n| - 1];
    assert last in n && Routes(s.index.Keys, k, last.key);
    assert Routes(s.index.Keys, j, e.key);
    assert last in NodeAt(t, v.key);
    if j == v.key {
      var x :| x in NodeAt(s, j) && x.key == j;
      assert Holds(s, x);
      forall y | y in n ensures y.key < v.key { AtMostMax(n, y); }
      assert p.prior == None;
    } else if j < v.key {
      assert !Routes(t.index.Keys, v.key, last.key);
    } else {
      if p.left != [] {
        var x :| x in n && x.key == Max(p.left);
        AtMostMax(n, x);
      }
      assert e in NodeAt(t, j) && !Routes(t.index.Keys, j, e.key);
    }
  }

  /** A split whose value no longer fits is committed all the same, and then the call is not the
      put it was meant to be: entries are misplaced or the answer is wrong.  Together with
      `CommitSplitStores` this makes `Fits` the exact condition. */
  lemma SplitIsAPutExactlyWhenItFits(s: State, id: NodeId, k: int, v: Pair)
    requires Sound(s) && KeysStored(s) && k in s.index && s.index[k] == id
    ensures var (t, verdict) := CommitSplit(s, id, k, v);
            && verdict.Done? && WellFormed(t)
            && (Fits(s, k, v) <==> Separated(t) && Answers(verdict.prior, e => Holds(s, e), v.key))
            && (Fits(s, k, v) ==> Sound(t) && Puts(s, t, v))
  {
    if Fits(s, k, v) {
      CommitSplitStores(s, id, k, v);
    } else {
      var p := CommitSplitHalves(s, id, k, v);
      var t := CommitSplit(s, id, k, v).0;
      if j :| j in s.index && j < k && v.key <= j {
        StaleBelow(s, k, v, p, t, j);
      } else {
        var j, e :| j in s.index && k < j && e in NodeAt(s, j) && e.key <= v.key;
        StaleAbove(s, k, v, p, t, j, e);
      }
    }
  }

  // ---------------------------------------------------------------- the other commits

  /** Re-keying a node to its greatest entry moves no entry. */
  lemma CommitUpdateMaxKeeps(s: State, id: NodeId, k: int)
    requires Sound(s) && id in s.heap
    ensures var (t, verdict) := CommitUpdateMax(s, id, k);
            && Sound(t) && SameEntries(s, t) && (KeysStored(s) ==> KeysStored(t))
            && !verdict.Panicked?
            && t.heap == s.heap
  {
    var t := CommitUpdateMax(s, id, k).0;
    CommitKeeps(s, UpdateMax(id, k));
    var n := s.heap[id];
    if n != [] && k in s.index && s.index[k] == id && Max(n) != k {
      var m := n[|n| - 1];
      assert m in NodeAt(s, k) && Routes(s.index.Keys, k, m.key);
      assert t.index == (s.index - {k})[m.key := id];
      assert m.key !in s.index;
      forall j, e | j in t.index && e in NodeAt(t, j) ensures Routes(t.index.Keys, j, e.key) {
        var was := if j == m.key then k else j;
        assert e in NodeAt(s, was) && Routes(s.index.Keys, was, e.key);
        if j == m.key { AtMostMax(n, e); }
      }
      Rekeyed(s, t, k, m.key);
      if KeysStored(s) {
        forall j | j in t.index ensures exists x :: x in NodeAt(t, j) && x.key == j {
          if j != m.key {
            var x :| x in NodeAt(s, j) && x.key == j;
            assert x in NodeAt(t, j);
          }
        }
      }
    }
  }

  lemma Rekeyed(s: State, t: State, k: int, m: int)
    requires WellFormed(s) && WellFormed(t) && k in s.index && m !in s.index
    requires t == s.(index := (s.index - {k})[m := s.index[k]])
    ensures SameEntries(s, t)
  {
    forall e ensures Holds(t, e) <==> Holds(s, e) {
      if Holds(t, e) {
        var j :| j in t.index && e in NodeAt(t, j);
        assert e in NodeAt(s, if j == m then k else j);
      }
      if Holds(s, e) {
        var j :| j in s.index && e in NodeAt(s, j);
        assert e in NodeAt(t, if j == k then m else j);
      }
    }
  }
}
