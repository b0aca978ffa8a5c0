/**
 Replaying change events.

 A replica keeps node contents under their greatest keys and applies one event after another.
 `None` stands for a replica that would stop: an index out of range or an absent node.
 */
module ChangeLog {
  import opened Basics
  import opened NodeOps
  import opened OrderedKeys
  import opened ConcurrentState
  import opened Separation
  import opened MapView
  import opened Sequential

  type Replica = map<int, Node>

  function Persist(nodes: Replica, e: Event): Option<Replica> {
    match e
    case CreateNode(first) => Some(nodes[first.key := [first]])
    case RemoveNode(max) => Some(nodes - {max})
    case InsertAt(max, v, at) =>
      if max in nodes && |nodes[max]| < at then None
      else
        var stored := if max in nodes then nodes[max := Inserted(nodes[max], at, v)] else nodes;
        if v.key <= max then Some(stored)
        else if max !in stored then None
        else Some((stored - {max})[v.key := stored[max]])
    case RemoveAt(max, v, at) =>
      if max !in nodes then Some(nodes)
      else if |nodes[max]| <= at then None
      else
        var rest := Removed(nodes[max], at);
        if max != v.key then Some(nodes[max := rest])
        else if rest == [] then Some(nodes - {max})
        else Some((nodes - {max})[Max(rest) := rest])
    case SplitNode(max, at) =>
      if max !in nodes then Some(nodes)
      else if |nodes[max]| <= at || at == 0 then None
      else
        var lower, upper := nodes[max][..at], nodes[max][at..];
        Some((nodes - {max})[Max(upper) := upper][Max(lower) := lower])
  }

  /** The node that an event names; a first node is named by no event before it. */
  function Named(e: Event): Option<int> {
    match e
    case CreateNode(_) => None
    case RemoveNode(max) => Some(max)
    case InsertAt(max, _, _) => Some(max)
    case RemoveAt(max, _, _) => Some(max)
    case SplitNode(max, _) => Some(max)
  }

  /** An event that names an absent node changes nothing; it stops the replica exactly when it would
      move that node to the key of the inserted entry. */
  lemma AbsentNodeIsLeftAlone(nodes: Replica, e: Event)
    requires Named(e).Some? && Named(e).value !in nodes
    ensures Persist(nodes, e).None? <==> e.InsertAt? && e.max < e.value.key
    ensures Persist(nodes, e).Some? ==> Persist(nodes, e).value == nodes
  {
  }

  /** Any event leaves alone every node but the one it names, unless it gives some node its key. */
  lemma OtherNodesStay(nodes: Replica, e: Event, j: int)
    requires Persist(nodes, e).Some? && j in nodes && Named(e) != Some(j)
    ensures var r := Persist(nodes, e).value;
            || (j in r && r[j] == nodes[j])
            || (e.CreateNode? && e.first.key == j && r[j] == [e.first])
            || (e.InsertAt? && e.value.key == j && e.max in nodes && r[j] == Inserted(nodes[e.max], e.at, e.value))
            || (e.RemoveAt? && e.max in nodes && r[j] == Removed(nodes[e.max], e.at) && Max(r[j]) == j)
            || (e.SplitNode? && e.max in nodes && r[j] != [] && Max(r[j]) == j
                && (r[j] == nodes[e.max][..e.at] || r[j] == nodes[e.max][e.at..]))
  {
  }

  function Replay(nodes: Replica, events: seq<Event>): Option<Replica> {
    if events == [] then Some(nodes)
    else
      match Replay(nodes, events[..|events| - 1])
      case None => None
      case Some(r) => Persist(r, events[|events| - 1])
  }

  lemma {:induction false} ReplayAppend(nodes: Replica, xs: seq<Event>, ys: seq<Event>)
    requires Replay(nodes, xs).Some?
    ensures Replay(nodes, xs + ys) == Replay(Replay(nodes, xs).value, ys)
    decreases |ys|
  {
    if ys == [] {
      assert xs + ys == xs;
    } else {
      var last := |ys| - 1;
      assert (xs + ys)[..|xs + ys| - 1] == xs + ys[..last];
      ReplayAppend(nodes, xs, ys[..last]);
    }
  }

  lemma ReplayNothing(nodes: Replica)
    ensures Replay(nodes, []) == Some(nodes)
  {
  }

  lemma ReplayOne(nodes: Replica, x: Event)
    ensures Replay(nodes, [x]) == Persist(nodes, x)
  {
    assert [x][..0] == [];
  }

  lemma ReplayTwo(nodes: Replica, x: Event, y: Event)
    requires Persist(nodes, x).Some?
    ensures Replay(nodes, [x, y]) == Persist(Persist(nodes, x).value, y)
  {
    ReplayOne(nodes, x);
    assert [x, y][..1] == [x];
  }

  /** What a faithful replica holds. */
  function View(s: State): Replica
    requires forall k :: k in s.index ==> s.index[k] in s.heap
  {
    map k | k in s.index :: NodeAt(s, k)
  }

  // ---------------------------------------------------------------- one node at a time

  lemma InsertReplays(nodes: Replica, n: Node, v: Pair)
    requires Sorted(n) && n != [] && Max(n) in nodes && nodes[Max(n)] == n && !NodeOps.Has(n, v.key)
    ensures Replay(nodes, [InsertAt(Max(n), v, Point(n, v.key))]) ==
              Some((nodes - {Max(n)})[Max(Stored(n, v)) := Stored(n, v)])
  {
    StoredMeaning(n, v);
    ReplayOne(nodes, InsertAt(Max(n), v, Point(n, v.key)));
    MaxIsHeld(n);
    var n' := Stored(n, v);
    assert nodes[Max(n) := n'] == (nodes - {Max(n)})[Max(n) := n'];
    assert nodes[Max(n) := n'] - {Max(n)} == nodes - {Max(n)};
  }

  /** Replacing an entry other than the greatest. */
  lemma OverwriteReplays(nodes: Replica, n: Node, i: nat, v: Pair)
    requires Sorted(n) && i < |n| && n[i].key == v.key && v.key < Max(n)
    requires Max(n) in nodes && nodes[Max(n)] == n
    ensures Replay(nodes, [RemoveAt(Max(n), n[i], i), InsertAt(Max(n), v, i)]) == Some(nodes[Max(n) := n[i := v]])
  {
    ReplayTwo(nodes, RemoveAt(Max(n), n[i], i), InsertAt(Max(n), v, i));
    assert Inserted(Removed(n, i), i, v) == n[i := v];
    assert nodes[Max(n) := Removed(n, i)][Max(n) := n[i := v]] == nodes[Max(n) := n[i := v]];
  }

  /** Replacing the greatest entry under its own key: the node is re-keyed or dropped on removal,
      and the insertion no longer finds it. */
  lemma OverwriteOfGreatestIsLost(nodes: Replica, n: Node, i: nat, v: Pair)
    requires Sorted(n) && i < |n| && n[i].key == v.key == Max(n)
    requires Max(n) in nodes && nodes[Max(n)] == n
    ensures var r := Replay(nodes, [RemoveAt(Max(n), n[i], i), InsertAt(Max(n), v, i)]);
            r.Some? && Max(n) !in r.value
  {
    GreatestIsLast(n, i);
    ReplayTwo(nodes, RemoveAt(Max(n), n[i], i), InsertAt(Max(n), v, i));
  }

  /** The events of storing into a node move a replica of that node along, unless the entry
      stored replaces the node's greatest: then the replica loses sight of the node. */
  lemma StoreReplays(nodes: Replica, n: Node, v: Pair)
    requires Sorted(n) && n != [] && Max(n) in nodes && nodes[Max(n)] == n
    ensures var r := Replay(nodes, StoreEvents(n, v));
            if v.key == Max(n) then r.Some? && Max(n) !in r.value
            else r == Some((nodes - {Max(n)})[Max(Stored(n, v)) := Stored(n, v)])
  {
    var i := Point(n, v.key);
    MaxIsHeld(n);
    if NodeOps.Has(n, v.key) {
      assert StoreEvents(n, v) == [RemoveAt(Max(n), n[i], i), InsertAt(Max(n), v, i)];
      if v.key == Max(n) {
        OverwriteOfGreatestIsLost(nodes, n, i, v);
      } else {
        OverwriteReplays(nodes, n, i, v);
        assert nodes[Max(n) := Stored(n, v)] == (nodes - {Max(n)})[Max(n) := Stored(n, v)];
      }
    } else {
      assert StoreEvents(n, v) == [InsertAt(Max(n), v, i)];
      InsertReplays(nodes, n, v);
    }
  }

  lemma MaxIsHeld(n: Node)
    requires Sorted(n) && n != []
    ensures NodeOps.Has(n, Max(n))
  {
    PointUnique(n, Max(n), |n| - 1);
  }

  lemma GreatestIsLast(n: Node, i: nat)
    requires Sorted(n) && i < |n| && n[i].key == Max(n)
    ensures i == |n| - 1
    ensures Removed(n, i) != [] ==> Max(Removed(n, i)) < Max(n)
  {
  }

  /** The events of replacing an entry in place. */
  lemma ReplaceReplays(nodes: Replica, n: Node, v: Pair)
    requires Sorted(n) && NodeOps.Has(n, v.key) && Max(n) in nodes && nodes[Max(n)] == n
    requires forall e :: e in n && e.key in nodes ==> e.key == Max(n)
    ensures Replay(nodes, ReplaceEvents(n, v)) == Some(nodes[Max(n) := Stored(n, v)])
  {
    var i := Point(n, v.key);
    var k := Max(n);
    if |n| == 1 {
      ReplayTwo(nodes, RemoveNode(k), CreateNode(v));
      assert Stored(n, v) == [v];
      assert (nodes - {k})[k := [v]] == nodes[k := [v]];
    } else {
      var rest := Removed(n, i);
      assert Inserted(rest, i, v) == Stored(n, v);
      if i == |n| - 1 {
        var q := n[|n| - 2];
        assert q in n && Max(rest) == q.key && q.key !in nodes;
        ReplayTwo(nodes, RemoveAt(k, v, i), InsertAt(q.key, v, i));
        var mid := (nodes - {k})[q.key := rest];
        assert (mid[q.key := Stored(n, v)] - {q.key})[k := Stored(n, v)] == nodes[k := Stored(n, v)];
      } else {
        ReplayTwo(nodes, RemoveAt(k, v, i), InsertAt(k, v, i));
        assert nodes[k := rest][k := Stored(n, v)] == nodes[k := Stored(n, v)];
      }
    }
  }

  // ---------------------------------------------------------------- views of whole sets

  lemma ViewOfRewritten(s: State, t: State, k: int, n': Node)
    requires WellFormed(s) && Injective(s) && WellFormed(t) && k in s.index
    requires t.index == s.index && t.heap == s.heap[s.index[k] := n']
    ensures View(t) == View(s)[k := n']
  {
    NodeRewritten(s, t, k, n');
  }

  lemma ViewOfRekeyed(t: State, k: int)
    requires WellFormed(t) && k in t.index && NodeAt(t, k) != []
    ensures var u := CommitUpdateMax(t, t.index[k], k).0;
            && (forall j :: j in u.index ==> u.index[j] in u.heap)
            && View(u) == (View(t) - {k})[Max(NodeAt(t, k)) := NodeAt(t, k)]
  {
  }

  /** A put that splits a full node and replaces the greatest entry of the half it lands in. */
  ghost predicate ReplacesHalfMaximum(s: State, v: Pair)
    requires WellFormed(s)
  {
    s.index != map[] &&
    var n := NodeAt(s, Locate(s.index.Keys, v.key));
    && s.cap <= |n|
    && (v.key == n[|n| / 2 - 1].key || v.key == n[|n| - 1].key)
  }

  // ---------------------------------------------------------------- whole calls

  lemma MapRekeyed<T>(w: map<int, T>, k: int, x: T, m: int)
    ensures (w[k := x] - {k})[m := x] == (w - {k})[m := x]
    ensures w[k := x] == (w - {k})[k := x]
  {
  }

  /** Rewriting a node and then re-keying it if its maximum moved. */
  lemma ViewAfterRewrite(s: State, t: State, k: int, n': Node)
    requires WellFormed(s) && Injective(s) && k in s.index && n' != []
    requires WellFormed(t) && t.index == s.index && t.heap == s.heap[s.index[k] := n']
    ensures var u := if Max(n') == k then t else CommitUpdateMax(t, t.index[k], k).0;
            && (forall j :: j in u.index ==> u.index[j] in u.heap)
            && View(u) == (View(s) - {k})[Max(n') := n']
  {
    ViewOfRewritten(s, t, k, n');
    ViewOfRekeyed(t, k);
    MapRekeyed(View(s), k, n', Max(n'));
  }

  /** Storing a new key, with the re-keying that follows when it is the greatest. */
  lemma NewKeyReplays(s: State, t: State, k: int, v: Pair)
    requires Tight(s) && k in s.index && !NodeOps.Has(NodeAt(s, k), v.key)
    requires WellFormed(t) && t.index == s.index && t.heap == s.heap[s.index[k] := Stored(NodeAt(s, k), v)]
    ensures var n' := Stored(NodeAt(s, k), v);
            var u := if Max(n') == k then t else CommitUpdateMax(t, t.index[k], k).0;
            && (forall j :: j in u.index ==> u.index[j] in u.heap)
            && Replay(View(s), [InsertAt(k, v, Point(NodeAt(s, k), v.key))]) == Some(View(u))
  {
    InsertReplays(View(s), NodeAt(s, k), v);
    ViewAfterRewrite(s, t, k, Stored(NodeAt(s, k), v));
  }

  lemma OldKeyReplays(s: State, t: State, k: int, v: Pair)
    requires Tight(s) && k in s.index && NodeOps.Has(NodeAt(s, k), v.key)
    requires WellFormed(t) && t.index == s.index && t.heap == s.heap[s.index[k] := Stored(NodeAt(s, k), v)]
    ensures Replay(View(s), ReplaceEvents(NodeAt(s, k), v)) == Some(View(t))
  {
    var n := NodeAt(s, k);
    forall x | x in n && x.key in View(s) ensures x.key == k {
      assert Routes(s.index.Keys, k, x.key);
    }
    ReplaceReplays(View(s), n, v);
    ViewOfRewritten(s, t, k, Stored(n, v));
  }

  lemma EditReplays(s: State, v: Pair)
    requires Tight(s) && s.index != map[] && |NodeAt(s, Locate(s.index.Keys, v.key))| < s.cap
    ensures var o := PutCall(s, v);
            && (forall j :: j in o.after.index ==> o.after.index[j] in o.after.heap)
            && Replay(View(s), o.events) == Some(View(o.after))
  {
    EditForPutKeeps(s, v);
    EditForPutShape(s, v);
    var (t, e) := EditForPut(s, v);
    var k := Locate(s.index.Keys, v.key);
    assert PutCall(s, v).events == e.events;
    if NodeOps.Has(NodeAt(s, k), v.key) {
      OldKeyReplays(s, t, k, v);
      StoredMeaning(NodeAt(s, k), v);
    } else {
      NewKeyReplays(s, t, k, v);
      StoredMeaning(NodeAt(s, k), v);
    }
  }

  /** The view after a split: the two halves in place of the node. */
  lemma ViewOfHalves(s: State, u: State, k: int, left: Node, right: Node)
    requires WellFormed(s) && Injective(s) && k in s.index && left != [] && right != []
    requires u.heap == s.heap[s.index[k] := left][s.nextNode := right]
    requires u.index == (s.index - {k})[Max(left) := s.index[k]][Max(right) := s.nextNode]
    ensures (forall j :: j in u.index ==> u.index[j] in u.heap)
    ensures View(u) == (View(s) - {k})[Max(left) := left][Max(right) := right]
  {
    assert s.nextNode !in s.heap;
    forall j | j in u.index
      ensures u.index[j] in u.heap
      ensures NodeAt(u, j) == (if j == Max(right) then right else if j == Max(left) then left else NodeAt(s, j))
    {
    }
  }

  lemma ViewOfSplit(s: State, id: NodeId, k: int, v: Pair, p: Halves)
    requires WellFormed(s) && Injective(s) && Accepted(s, id, k) && 2 <= |NodeAt(s, k)|
    requires var n := NodeAt(s, k); p == StoreInHalf(n[..|n| / 2], n[|n| / 2..], v)
    ensures var u := CommitSplit(s, id, k, v).0;
            && (forall j :: j in u.index ==> u.index[j] in u.heap)
            && p.left != [] && p.right != []
            && View(u) == (View(s) - {k})[Max(p.left) := p.left][Max(p.right) := p.right]
  {
    var q := CommitSplitShape(s, id, k, v);
    ViewOfHalves(s, CommitSplit(s, id, k, v).0, k, p.left, p.right);
  }

  lemma CutReplays(nodes: Replica, n: Node)
    requires Sorted(n) && 2 <= |n| && Max(n) in nodes && nodes[Max(n)] == n
    ensures var h := |n| / 2;
            && Max(n[..h]) < Max(n) && Max(n[h..]) == Max(n) && Max(n[..h]) == n[h - 1].key
            && Replay(nodes, [SplitNode(Max(n), h)]) == Some(nodes[Max(n) := n[h..]][Max(n[..h]) := n[..h]])
  {
    var h := |n| / 2;
    ReplayOne(nodes, SplitNode(Max(n), h));
    assert (nodes - {Max(n)})[Max(n) := n[h..]] == nodes[Max(n) := n[h..]];
  }

  lemma MapHalves<T>(w: map<int, T>, a: int, b: int, l: T, r: T, l': T, r': T, m: int)
    requires a < b <= m
    ensures a in w[b := r][a := l] && w[b := r][a := l][a] == l
    ensures b in w[b := r][a := l] && w[b := r][a := l][b] == r
    ensures (w[b := r][a := l] - {a})[a := l'] == (w - {b})[a := l'][b := r]
    ensures (w[b := r][a := l] - {b})[m := r'] == (w - {b})[a := l][m := r']
  {
  }

  lemma LowerHalfReplays(nodes: Replica, l: Node, r: Node, v: Pair)
    requires Sorted(l) && Sorted(r) && l != [] && r != [] && v.key <= Max(l) < Max(r)
    ensures Replay(nodes[Max(r) := r][Max(l) := l], StoreEvents(l, v)) ==
              Some((nodes - {Max(r)})[Max(l) := Stored(l, v)][Max(r) := r])
            <==> v.key != Max(l)
  {
    MapHalves(nodes, Max(l), Max(r), l, r, Stored(l, v), r, Max(r));
    StoreReplays(nodes[Max(r) := r][Max(l) := l], l, v);
    StoredMeaning(l, v);
  }

  lemma UpperHalfReplays(nodes: Replica, l: Node, r: Node, v: Pair)
    requires Sorted(l) && Sorted(r) && l != [] && r != [] && Max(l) < v.key && Max(l) < Max(r)
    ensures Stored(r, v) != []
    ensures Replay(nodes[Max(r) := r][Max(l) := l], StoreEvents(r, v)) ==
              Some((nodes - {Max(r)})[Max(l) := l][Max(Stored(r, v)) := Stored(r, v)])
            <==> v.key != Max(r)
  {
    StoredMeaning(r, v);
    MapHalves(nodes, Max(l), Max(r), l, r, l, Stored(r, v), Max(Stored(r, v)));
    StoreReplays(nodes[Max(r) := r][Max(l) := l], r, v);
  }

  /** The halves of a replicated node, once one of them has been stored into. */
  lemma HalvesReplay(nodes: Replica, l: Node, r: Node, v: Pair)
    requires Sorted(l) && Sorted(r) && Below(l, r) && l != [] && r != []
    ensures var p := StoreInHalf(l, r, v);
            && p.left != [] && p.right != []
            && (Replay(nodes[Max(r) := r][Max(l) := l], p.events) ==
                Some((nodes - {Max(r)})[Max(p.left) := p.left][Max(p.right) := p.right])
                <==> v.key != Max(l) && v.key != Max(r))
  {
    assert l[|l| - 1] in l && r[|r| - 1] in r;
    if v.key <= Max(l) {
      LowerHalfReplays(nodes, l, r, v);
      StoredMeaning(l, v);
    } else {
      UpperHalfReplays(nodes, l, r, v);
    }
  }

  lemma SplitReplays(s: State, k: int, v: Pair)
    requires Tight(s) && k in s.index && 2 <= |NodeAt(s, k)|
    ensures var n := NodeAt(s, k);
            var (u, verdict) := CommitSplit(s, s.index[k], k, v);
            && verdict.Done?
            && (forall j :: j in u.index ==> u.index[j] in u.heap)
            && (Replay(View(s), verdict.events) == Some(View(u)) <==> v.key != n[|n| / 2 - 1].key && v.key != n[|n| - 1].key)
  {
    hide StoreInHalf, Replay, Separated, Sorted, StoreEvents;
    var n := NodeAt(s, k);
    var h := |n| / 2;
    HalvesFit(n);
    var p := StoreInHalf(n[..h], n[h..], v);
    ViewOfSplit(s, s.index[k], k, v, p);
    CutReplays(View(s), n);
    ReplayAppend(View(s), [SplitNode(k, h)], p.events);
    HalvesReplay(View(s), n[..h], n[h..], v);
  }

  lemma FirstPutReplays(s: State, v: Pair)
    requires WellFormed(s) && s.index == map[]
    ensures var o := PutCall(s, v);
            && (forall j :: j in o.after.index ==> o.after.index[j] in o.after.heap)
            && Replay(View(s), o.events) == Some(View(o.after))
  {
    ReplayOne(View(s), CreateNode(v));
    assert View(s)[v.key := [v]] == View(Install(s, v));
  }

  /** Replaying the events of a put on a faithful replica makes it faithful again exactly when the
      put is not one that splits a full node and replaces the greatest entry of a half. */
  lemma PutReplaysExactly(s: State, v: Pair)
    requires Tight(s)
    ensures var o := PutCall(s, v);
            && (forall j :: j in o.after.index ==> o.after.index[j] in o.after.heap)
            && (Replay(View(s), o.events) == Some(View(o.after)) <==> !ReplacesHalfMaximum(s, v))
  {
    hide Replay, View, Separated, Sorted, Injective, CommitSplit, EditForPut;
    if s.index == map[] {
      FirstPutReplays(s, v);
    } else if |NodeAt(s, Locate(s.index.Keys, v.key))| < s.cap {
      EditReplays(s, v);
    } else {
      SplitReplays(s, Locate(s.index.Keys, v.key), v);
      SplitCallIsCommit(s, v);
    }
  }

  lemma SplitCallIsCommit(s: State, v: Pair)
    requires Tight(s) && s.index != map[] && s.cap <= |NodeAt(s, Locate(s.index.Keys, v.key))|
    ensures var k := Locate(s.index.Keys, v.key);
            var (u, verdict) := CommitSplit(s, s.index[k], k, v);
            verdict.Done? && PutCall(s, v).after == u && PutCall(s, v).events == verdict.events
  {
    EditForPutKeeps(s, v);
    EditForPutShape(s, v);
  }

  lemma RemoveOneReplays(s: State, t: State, k: int, i: nat)
    requires Tight(s) && k in s.index && i < |NodeAt(s, k)| && 1 < |NodeAt(s, k)|
    requires WellFormed(t) && t.index == s.index && t.heap == s.heap[s.index[k] := Removed(NodeAt(s, k), i)]
    ensures var rest := Removed(NodeAt(s, k), i);
            var u := if Max(rest) == k then t else CommitUpdateMax(t, t.index[k], k).0;
            && (forall j :: j in u.index ==> u.index[j] in u.heap)
            && Replay(View(s), [RemoveAt(k, NodeAt(s, k)[i], i)]) == Some(View(u))
  {
    hide Sorted;
    var n := NodeAt(s, k);
    var rest := Removed(n, i);
    ViewAfterRewrite(s, t, k, rest);
    ReplayOne(View(s), RemoveAt(k, n[i], i));
    MapRekeyed(View(s), k, rest, k);
    if n[i].key == k {
      GreatestIsLast(n, i);
    } else {
      assert rest[|rest| - 1] == n[|n| - 1];
    }
  }

  lemma LastRemoval(s: State, k: int, key: int)
    requires Tight(s) && Ceiling(s.index.Keys, key) == Some(k) && NodeOps.Has(NodeAt(s, k), key) && |NodeAt(s, k)| == 1
    ensures var o := RemoveCall(s, key);
            && o.events == [RemoveNode(k)]
            && o.after.index == s.index - {k} && o.after.heap == s.heap[s.index[k] := []]
  {
    EditForRemoveKeeps(s, key);
    assert Removed(NodeAt(s, k), Point(NodeAt(s, k), key)) == [];
    assert [] + [RemoveNode(k)] == [RemoveNode(k)];
  }

  lemma DroppedReplays(s: State, u: State, k: int)
    requires WellFormed(s) && Injective(s) && k in s.index
    requires u.index == s.index - {k} && u.heap == s.heap[s.index[k] := []]
    ensures (forall j :: j in u.index ==> u.index[j] in u.heap)
    ensures Replay(View(s), [RemoveNode(k)]) == Some(View(u))
  {
    ReplayOne(View(s), RemoveNode(k));
    forall j | j in u.index ensures u.index[j] in u.heap && NodeAt(u, j) == NodeAt(s, j) {}
    assert View(u) == View(s) - {k};
  }

  lemma RemoveLastReplays(s: State, k: int, key: int)
    requires Tight(s) && Ceiling(s.index.Keys, key) == Some(k) && NodeOps.Has(NodeAt(s, k), key) && |NodeAt(s, k)| == 1
    ensures var o := RemoveCall(s, key);
            && (forall j :: j in o.after.index ==> o.after.index[j] in o.after.heap)
            && Replay(View(s), o.events) == Some(View(o.after))
  {
    LastRemoval(s, k, key);
    DroppedReplays(s, RemoveCall(s, key).after, k);
  }

  lemma RemoveManyReplays(s: State, k: int, key: int)
    requires Tight(s) && Ceiling(s.index.Keys, key) == Some(k) && NodeOps.Has(NodeAt(s, k), key) && 1 < |NodeAt(s, k)|
    ensures var o := RemoveCall(s, key);
            && (forall j :: j in o.after.index ==> o.after.index[j] in o.after.heap)
            && Replay(View(s), o.events) == Some(View(o.after))
  {
    EditForRemoveKeeps(s, key);
    var (t, e) := EditForRemove(s, key);
    var i := Point(NodeAt(s, k), key);
    RemoveOneReplays(s, t, k, i);
    assert RemoveCall(s, key).events == [RemoveAt(k, NodeAt(s, k)[i], i)];
  }

  lemma RemoveReplays(s: State, key: int)
    requires Tight(s)
    ensures var o := RemoveCall(s, key);
            && (forall j :: j in o.after.index ==> o.after.index[j] in o.after.heap)
            && Replay(View(s), o.events) == Some(View(o.after))
  {
    EditForRemoveKeeps(s, key);
    match Ceiling(s.index.Keys, key) {
      case None =>
      case Some(k) =>
        if NodeOps.Has(NodeAt(s, k), key) {
          if |NodeAt(s, k)| == 1 { RemoveLastReplays(s, k, key); } else { RemoveManyReplays(s, k, key); }
        }
    }
  }

  // ---------------------------------------------------------------- histories

  datatype Call = Put(value: Pair) | Remove(key: int)

  ghost function Run(s: State, c: Call): Outcome
    requires WellFormed(s)
  {
    match c
    case Put(v) => PutCall(s, v)
    case Remove(key) => RemoveCall(s, key)
  }

  /** The states of a history of calls, each run to completion before the next. */
  ghost predicate IsHistory(states: seq<State>, calls: seq<Call>) {
    && |states| == |calls| + 1
    && Tight(states[0])
    && forall i :: 0 <= i < |calls| ==> (WellFormed(states[i]) ==> states[i + 1] == Run(states[i], calls[i]).after)
  }

  /** The mathematical map after a call, and its answer. */
  function Apply(contents: map<int, int>, c: Call): map<int, int> {
    match c
    case Put(v) => contents[v.key := v.val]
    case Remove(key) => contents - {key}
  }

  function ApplyAll(contents: map<int, int>, calls: seq<Call>): map<int, int> {
    if calls == [] then contents else Apply(ApplyAll(contents, calls[..|calls| - 1]), calls[|calls| - 1])
  }

  ghost function EventsOf(states: seq<State>, calls: seq<Call>): seq<Event>
    requires |states| >= |calls| && forall i :: 0 <= i < |calls| ==> WellFormed(states[i])
  {
    if calls == [] then []
    else
      var last := |calls| - 1;
      EventsOf(states[..last], calls[..last]) + Run(states[last], calls[last]).events
  }

  /** Any history refines the mathematical map; every call answers as the map does and commits at
      the first attempt. */
  lemma {:induction false} HistoriesRefineAMap(states: seq<State>, calls: seq<Call>, i: nat)
    requires IsHistory(states, calls) && i <= |calls|
    ensures Tight(states[i])
    ensures Represents(states[i], ApplyAll(Contents(states[0]), calls[..i]))
    ensures i < |calls| ==>
              var o := Run(states[i], calls[i]);
              && o.committed
              && o.result == Entry(ApplyAll(Contents(states[0]), calls[..i]), if calls[i].Put? then calls[i].value.key else calls[i].key)
  {
    var contents := ApplyAll(Contents(states[0]), calls[..i]);
    if i == 0 {
      EveryPartitionIsAMap(states[0]);
    } else {
      HistoriesRefineAMap(states, calls, i - 1);
      CallRefines(states[i - 1], calls[i - 1], ApplyAll(Contents(states[0]), calls[..i - 1]));
      assert calls[..i][..i - 1] == calls[..i - 1];
    }
    if i < |calls| { CallRefines(states[i], calls[i], contents); }
  }

  lemma CallRefines(s: State, c: Call, contents: map<int, int>)
    requires Tight(s) && Represents(s, contents)
    ensures var o := Run(s, c);
            && o.committed && Tight(o.after)
            && o.result == Entry(contents, if c.Put? then c.value.key else c.key)
            && Represents(o.after, Apply(contents, c))
  {
    match c {
      case Put(v) => PutRefines(s, v, contents);
      case Remove(key) => RemoveRefines(s, key, contents);
    }
  }

  lemma CallReplays(s: State, c: Call)
    requires Tight(s) && (c.Put? ==> !ReplacesHalfMaximum(s, c.value))
    ensures Tight(Run(s, c).after) && Replay(View(s), Run(s, c).events) == Some(View(Run(s, c).after))
  {
    match c {
      case Put(v) =>
        PutReplaysExactly(s, v);
        if s.index == map[] { FirstPutTightens(s, v); } else { PutTightens(s, v); }
      case Remove(key) =>
        RemoveReplays(s, key);
        RemoveTightens(s, key);
    }
  }

  /** Replaying all events of a history rebuilds the index: the same keys, the same contents and
      the same splits. */
  lemma {:induction false} HistoriesReplay(states: seq<State>, calls: seq<Call>)
    requires IsHistory(states, calls)
    requires forall i :: 0 <= i < |calls| && calls[i].Put? ==>
               (WellFormed(states[i]) ==> !ReplacesHalfMaximum(states[i], calls[i].value))
    ensures forall i :: 0 <= i < |states| ==> Tight(states[i])
    ensures forall i :: 0 <= i < |calls| ==> WellFormed(states[..|calls|][i])
    ensures Replay(View(states[0]), EventsOf(states[..|calls|], calls)) == Some(View(states[|calls|]))
    decreases |calls|
  {
    hide Replay, PutCall, RemoveCall, ReplacesHalfMaximum;
    ReplayNothing(View(states[0]));
    assert forall i :: 0 <= i < |calls| ==> states[..|calls|][i] == states[i];
    if calls != [] {
      var last := |calls| - 1;
      assert forall i :: 0 <= i < last ==> calls[..last][i] == calls[i];
      HistoriesReplay(states[..|calls|], calls[..last]);
      CallReplays(states[last], calls[last]);
      assert states[..|calls|][..last] == states[..last];
      ReplayAppend(View(states[0]), EventsOf(states[..last], calls[..last]), Run(states[last], calls[last]).events);
    }
  }
}
