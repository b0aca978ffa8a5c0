/**
 The partition of the key space under interleaved puts.

 Every step keeps it except the commit of a split that has become stale; with at most one split
 pending per node no split ever becomes stale.
 */
module PutPartition {
  import opened Basics
  import opened NodeOps
  import opened OrderedKeys
  import opened ConcurrentState
  import opened Separation
  import opened Interleaving
  import opened PutInterleaving

  ghost predicate PendingSplit(m: Machine, t: ThreadId) {
    t in m.threads && m.threads[t].Committing? && m.threads[t].op.Split?
  }

  /** If the next step commits a split, its value still fits. */
  ghost predicate CommitsFitting(m: Machine, step: Step)
    requires Ok(m)
  {
    step.Run? && PendingSplit(m, step.thread) ==>
      var Split(id, k, v) := m.threads[step.thread].op;
      k in m.shared.index && m.shared.index[k] == id ==> Fits(m.shared, k, v)
  }

  ghost predicate Partitioned(m: Machine) {
    Keyed(m) && Sound(m.shared)
  }

  lemma NextKeepsPartition(m: Machine, step: Step)
    requires Partitioned(m) && Enabled(m, step) && (step.Invoke? ==> step.req.Put?)
    requires CommitsFitting(m, step)
    ensures Partitioned(Next(m, step))
  {
    NextKeepsKeyed(m, step);
    if step.Run? {
      match m.threads[step.thread] {
        case Calling(req) => EditForPutStores(m.shared, req.value);
        case Committing(_, op, _, _) =>
          match op {
            case Split(id, k, v) =>
              if k in m.shared.index && m.shared.index[k] == id { CommitSplitStores(m.shared, id, k, v); }
            case UpdateMax(id, k) => CommitUpdateMaxKeeps(m.shared, id, k);
          }
      }
    }
  }

  /** A run in which every committed split fits keeps the nodes disjoint, ordered and not empty,
      each within its separators, at every point. */
  lemma {:induction false} FittingRunsKeepThePartition(ms: seq<Machine>, steps: seq<Step>, i: nat)
    requires IsRun(ms, steps) && OnlyPuts(steps) && Partitioned(ms[0]) && i < |ms|
    requires forall j :: 0 <= j < |steps| ==> (Ok(ms[j]) ==> CommitsFitting(ms[j], steps[j]))
    ensures Partitioned(ms[i])
  {
    if i > 0 {
      FittingRunsKeepThePartition(ms, steps, i - 1);
      RunStep(ms, steps, i - 1);
      NextKeepsPartition(ms[i - 1], steps[i - 1]);
    }
  }

  // ---------------------------------------------------------------- one split per node

  /** No node has two splits pending. */
  ghost predicate OneSplitPerNode(m: Machine) {
    forall t, u :: PendingSplit(m, t) && PendingSplit(m, u) && m.threads[t].op.node == m.threads[u].op.node ==> t == u
  }

  /** The node of a pending split is full, still indexed, and under no smaller key; and while it
      has the key it had, the value is still routed to it. */
  ghost predicate Fresh(s: State, id: NodeId, k: int, v: Pair)
    requires WellFormed(s)
  {
    && id in s.heap && s.cap <= |s.heap[id]|
    && exists j :: j in s.index && s.index[j] == id && k <= j && (k == j ==> Routes(s.index.Keys, k, v.key))
  }

  ghost predicate SplitsFresh(m: Machine)
    requires Ok(m)
  {
    forall t :: PendingSplit(m, t) ==> Fresh(m.shared, m.threads[t].op.node, m.threads[t].op.oldMax, m.threads[t].op.value)
  }

  /** Storing into a node leaves pending splits fresh. */
  lemma EditKeepsFresh(s: State, w: Pair, id: NodeId, k: int, v: Pair)
    requires Sound(s) && s.index != map[] && Fresh(s, id, k, v)
    ensures WellFormed(EditForPut(s, w).0) && Fresh(EditForPut(s, w).0, id, k, v)
  {
    EditForPutKeeps(s, w);
    EditForPutShape(s, w);
    var t := EditForPut(s, w).0;
    var at := Locate(s.index.Keys, w.key);
    StoredMeaning(NodeAt(s, at), w);
    var j :| j in s.index && s.index[j] == id && k <= j && (k == j ==> Routes(s.index.Keys, k, v.key));
    assert j in t.index && t.index[j] == id;
  }

  /** The split that a first phase hands on is fresh. */
  lemma EditMakesFresh(s: State, v: Pair)
    requires Sound(s) && s.index != map[]
    ensures var (t, e) := EditForPut(s, v);
            e.next.Some? && e.next.value.Split? ==>
              WellFormed(t) && Fresh(t, e.next.value.node, e.next.value.oldMax, e.next.value.value)
  {
    EditForPutShape(s, v);
    var k := Locate(s.index.Keys, v.key);
    assert k in s.index && s.index[k] == s.index[k];
  }

  /** Replacing one key by keys within its range does not change what is routed to the others. */
  lemma RefinedKeysRoute(keys: set<int>, j: int, refined: set<int>, k: int, v: int)
    requires Routes(keys, k, v) && j in keys && j != k
    requires forall a :: a in refined ==> (k < j ==> k < a) && (j < k ==> a <= j)
    ensures Routes(keys - {j} + refined, k, v)
  {
  }

  /** Only the node with the greatest key can outgrow its key, and re-keying it moves that key up. */
  lemma RekeyedUp(s: State, n: NodeId, j: int) returns (m: int)
    requires Sound(s) && KeysStored(s) && n in s.heap && CommitUpdateMax(s, n, j).0 != s
    ensures j in s.index && s.index[j] == n && j < m && m !in s.index
    ensures forall i :: i in s.index ==> i <= j
    ensures CommitUpdateMax(s, n, j).0 == s.(index := (s.index - {j})[m := n])
  {
    var node := NodeAt(s, j);
    var e :| e in node && e.key == j;
    AtMostMax(node, e);
    var greatest := node[|node| - 1];
    assert greatest in node && Routes(s.index.Keys, j, greatest.key);
    m := greatest.key;
  }

  lemma UpdateMaxKeepsFresh(s: State, n: NodeId, j: int, id: NodeId, k: int, v: Pair)
    requires Sound(s) && KeysStored(s) && n in s.heap && Fresh(s, id, k, v)
    ensures WellFormed(CommitUpdateMax(s, n, j).0) && Fresh(CommitUpdateMax(s, n, j).0, id, k, v)
  {
    hide Separated, Injective, Sorted;
    CommitUpdateMaxKeeps(s, n, j);
    var t := CommitUpdateMax(s, n, j).0;
    var i :| i in s.index && s.index[i] == id && k <= i && (k == i ==> Routes(s.index.Keys, k, v.key));
    if t != s {
      var m := RekeyedUp(s, n, j);
      if i == j {
        assert t.index[m] == id;
      } else {
        assert t.index[i] == id;
        assert t.index.Keys == s.index.Keys - {j} + {m};
        if k == i { RefinedKeysRoute(s.index.Keys, j, {m}, k, v.key); }
      }
    } else {
      assert t.index[i] == id;
    }
  }

  /** A fresh split of another node leaves a pending split fresh. */
  lemma SplitKeepsFresh(s: State, n: NodeId, j: int, w: Pair, id: NodeId, k: int, v: Pair)
    requires Sound(s) && KeysStored(s) && j in s.index && s.index[j] == n && n != id
    requires Fresh(s, n, j, w) && Fresh(s, id, k, v)
    ensures WellFormed(CommitSplit(s, n, j, w).0) && Fresh(CommitSplit(s, n, j, w).0, id, k, v)
  {
    var t := CommitSplit(s, n, j, w).0;
    CommitKeeps(s, Split(n, j, w));
    var i :| i in s.index && s.index[i] == id && k <= i && (k == i ==> Routes(s.index.Keys, k, v.key));
    var refined := SplitRefines(s, n, j, w, i);
    assert i in t.index && t.index[i] == id && t.heap[id] == s.heap[id];
    if k == i { RefinedKeysRoute(s.index.Keys, j, refined, k, v.key); }
  }

  lemma SplitRefines(s: State, n: NodeId, j: int, w: Pair, i: int) returns (refined: set<int>)
    requires Sound(s) && j in s.index && s.index[j] == n && Fresh(s, n, j, w) && i in s.index && i != j
    ensures var t := CommitSplit(s, n, j, w).0;
            && t.index.Keys == s.index.Keys - {j} + refined
            && (forall a :: a in refined ==> (i < j ==> i < a) && (j < i ==> a <= j))
            && i in t.index && t.index[i] == s.index[i]
            && (forall x :: x in s.heap && x != n ==> x in t.heap && t.heap[x] == s.heap[x])
  {
    var p := CommitSplitShape(s, n, j, w);
    var node := NodeAt(s, j);
    NewKeyStaysInside(s, n, j, w, p.rightKey, i);
    refined := {p.rightKey};
    if p.left != [] {
      assert node[|node| / 2 - 1] in node;
      NewKeyStaysInside(s, n, j, w, Max(p.left), i);
      refined := {p.rightKey, Max(p.left)};
    }
  }

  /** Neither half is indexed outside the key range that the split node had. */
  lemma NewKeyStaysInside(s: State, n: NodeId, j: int, w: Pair, a: int, i: int)
    requires Sound(s) && j in s.index && s.index[j] == n && Fresh(s, n, j, w)
    requires i in s.index && i != j
    requires a == (if Max(NodeAt(s, j)) < w.key then w.key else Max(NodeAt(s, j))) || exists e :: e in NodeAt(s, j) && e.key == a
    ensures (i < j ==> i < a) && (j < i ==> a <= j)
  {
    var m := NodeAt(s, j)[|NodeAt(s, j)| - 1];
    assert m in NodeAt(s, j) && Routes(s.index.Keys, j, m.key);
    if e :| e in NodeAt(s, j) && e.key == a {
      assert Routes(s.index.Keys, j, e.key);
    }
  }

  ghost predicate SafelyPartitioned(m: Machine) {
    Partitioned(m) && SplitsFresh(m)
  }

  lemma NextKeepsFresh(m: Machine, step: Step)
    requires SafelyPartitioned(m) && OneSplitPerNode(m)
    requires Enabled(m, step) && (step.Invoke? ==> step.req.Put?)
    ensures CommitsFitting(m, step) && SafelyPartitioned(Next(m, step))
  {
    var t := step.thread;
    if step.Run? && PendingSplit(m, t) {
      var Split(id, k, v) := m.threads[t].op;
      if k in m.shared.index && m.shared.index[k] == id { RoutedFits(m.shared, k, v); }
    }
    NextKeepsPartition(m, step);
    var m' := Next(m, step);
    forall u | PendingSplit(m', u)
      ensures Fresh(m'.shared, m'.threads[u].op.node, m'.threads[u].op.oldMax, m'.threads[u].op.value)
    {
      if u == t { OwnSplitFresh(m, step); } else { OtherSplitFresh(m, step, u); }
    }
  }

  lemma OwnSplitFresh(m: Machine, step: Step)
    requires SafelyPartitioned(m) && Enabled(m, step)
    requires Ok(Next(m, step)) && PendingSplit(Next(m, step), step.thread)
    ensures var op := Next(m, step).threads[step.thread].op;
            Fresh(Next(m, step).shared, op.node, op.oldMax, op.value)
  {
    EditMakesFresh(m.shared, m.threads[step.thread].req.value);
  }

  lemma OtherSplitFresh(m: Machine, step: Step, u: ThreadId)
    requires SafelyPartitioned(m) && OneSplitPerNode(m) && Enabled(m, step) && u != step.thread
    requires Ok(Next(m, step)) && PendingSplit(Next(m, step), u)
    ensures var op := Next(m, step).threads[u].op;
            Fresh(Next(m, step).shared, op.node, op.oldMax, op.value)
  {
    hide Sound, Fresh;
    var Split(id, k, v) := Next(m, step).threads[u].op;
    assert PendingSplit(m, u) && m.threads[u].op == Split(id, k, v);
    if step.Run? {
      match m.threads[step.thread] {
        case Calling(req) => EditKeepsFresh(m.shared, req.value, id, k, v);
        case Committing(_, op, _, _) =>
          match op {
            case Split(n, j, w) =>
              assert PendingSplit(m, step.thread);
              if j in m.shared.index && m.shared.index[j] == n {
                SplitKeepsFresh(m.shared, n, j, w, id, k, v);
              }
            case UpdateMax(n, j) => UpdateMaxKeepsFresh(m.shared, n, j, id, k, v);
          }
      }
    }
  }

  /** In every interleaving of puts in which no node ever has two splits pending, the nodes stay
      disjoint, ordered and not empty: each node but the last lies within (previous key, own key],
      and only the last may run past its key. */
  lemma {:induction false} PutsKeepThePartition(ms: seq<Machine>, steps: seq<Step>, i: nat)
    requires IsRun(ms, steps) && OnlyPuts(steps) && SafelyPartitioned(ms[0]) && i < |ms|
    requires forall j :: 0 <= j < |steps| ==> OneSplitPerNode(ms[j])
    ensures SafelyPartitioned(ms[i])
  {
    if i > 0 {
      PutsKeepThePartition(ms, steps, i - 1);
      RunStep(ms, steps, i - 1);
      NextKeepsFresh(ms[i - 1], steps[i - 1]);
    }
  }

  /** What the partition means for two nodes and for a lookup. */
  lemma PartitionMeans(s: State, j: int, k: int, d: Pair, e: Pair)
    requires Sound(s) && j in s.index && k in s.index && d in NodeAt(s, j) && e in NodeAt(s, k)
    ensures j < k ==> d.key <= j < e.key
    ensures Lookup(s, e.key) == Some(e)
  {
    assert Routes(s.index.Keys, j, d.key) && Routes(s.index.Keys, k, e.key);
    assert Holds(s, e);
    LookupFindsExactlyTheStored(s, e);
  }
}
