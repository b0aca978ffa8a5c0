/**
 Interleaved puts, from a set that is not empty.

 Two invariants are kept.  `MaxOrPending` needs no hypothesis at all.  The partition of the key
 space (`Separation.Sound`) is kept by every step but the commit of a stale split, so it is kept
 by every run in which no node has two splits pending at once.
 */
module PutInterleaving {
  import opened Basics
  import opened NodeOps
  import opened OrderedKeys
  import opened ConcurrentState
  import opened Separation
  import opened Interleaving

  ghost predicate OnlyPuts(steps: seq<Step>) {
    forall i :: 0 <= i < |steps| && steps[i].Invoke? ==> steps[i].req.Put?
  }

  /** Every call under way is a put past node creation. */
  ghost predicate AllPuts(m: Machine) {
    forall t :: t in m.threads ==>
      match m.threads[t]
      case Calling(req) => req.Put?
      case Creating(_) => false
      case Committing(req, op, result, _) =>
        && req.Put? && !op.MakeUnreachable?
        && (op.Split? ==> op.value == req.value)
        && (op.UpdateMax? ==> result == None)
  }

  /** Some call is about to re-key exactly this node under exactly this key. */
  ghost predicate Awaited(m: Machine, id: NodeId, k: int) {
    exists t :: t in m.threads && m.threads[t].Committing? && m.threads[t].op == UpdateMax(id, k)
  }

  ghost predicate MaxOrPending(m: Machine)
    requires Ok(m)
  {
    forall k :: k in m.shared.index ==>
      && NodeAt(m.shared, k) != []
      && (Max(NodeAt(m.shared, k)) == k || Awaited(m, m.shared.index[k], k))
  }

  ghost predicate Keyed(m: Machine) {
    && Ok(m) && AllPuts(m) && m.shared.index != map[]
    && Injective(m.shared) && KeysStored(m.shared) && MaxOrPending(m)
  }

  // ---------------------------------------------------------------- keys and maxima

  /** Calls other than t's are where they were. */
  ghost predicate OthersStay(m: Machine, m': Machine, t: ThreadId) {
    && (forall u :: u in m.threads && u != t ==> u in m'.threads && m'.threads[u] == m.threads[u])
    && (forall u :: u in m'.threads && u != t ==> u in m.threads)
  }

  lemma StillAwaited(m: Machine, m': Machine, t: ThreadId)
    requires OthersStay(m, m', t)
    ensures forall i, j ::
              (Awaited(m, i, j) && !(t in m.threads && m.threads[t].Committing? && m.threads[t].op == UpdateMax(i, j)))
              ==> Awaited(m', i, j)
  {
    forall i, j | Awaited(m, i, j)
                  && !(t in m.threads && m.threads[t].Committing? && m.threads[t].op == UpdateMax(i, j))
      ensures Awaited(m', i, j)
    {
      var u :| u in m.threads && m.threads[u].Committing? && m.threads[u].op == UpdateMax(i, j);
      assert u in m'.threads && m'.threads[u] == m.threads[u];
    }
  }

  /** Rewriting one node keeps the claim if a moved maximum is awaited. */
  lemma StoredKeepsMaxOrPending(m: Machine, m': Machine, k: int, v: Pair)
    requires Keyed(m) && Ok(m') && k in m.shared.index
    requires m'.shared.index == m.shared.index
    requires m'.shared.heap == m.shared.heap[m.shared.index[k] := Stored(NodeAt(m.shared, k), v)]
    requires forall i, j :: Awaited(m, i, j) ==> Awaited(m', i, j)
    requires Max(Stored(NodeAt(m.shared, k), v)) != Max(NodeAt(m.shared, k)) ==>
               Awaited(m', m.shared.index[k], Max(NodeAt(m.shared, k)))
    ensures MaxOrPending(m') && KeysStored(m'.shared)
  {
    StoredMeaning(NodeAt(m.shared, k), v);
    NodeRewritten(m.shared, m'.shared, k, Stored(NodeAt(m.shared, k), v));
    StoredKeepsKeys(m.shared, m'.shared, k, v);
  }

  lemma EditKeepsMaxOrPending(m: Machine, m': Machine, t: ThreadId, v: Pair)
    requires Keyed(m) && Ok(m') && t in m.threads && m.threads[t] == Calling(Put(v))
    requires m'.shared == EditForPut(m.shared, v).0 && OthersStay(m, m', t)
    requires var next := EditForPut(m.shared, v).1.next;
             next.Some? ==> t in m'.threads && m'.threads[t].Committing? && m'.threads[t].op == next.value
    ensures m'.shared.index == m.shared.index && MaxOrPending(m') && KeysStored(m'.shared)
  {
    EditForPutKeeps(m.shared, v);
    EditForPutShape(m.shared, v);
    StillAwaited(m, m', t);
    var k := Locate(m.shared.index.Keys, v.key);
    var n := NodeAt(m.shared, k);
    if |n| < m.shared.cap {
      if Max(Stored(n, v)) != Max(n) {
        assert m'.threads[t].op == UpdateMax(m.shared.index[k], Max(n));
      }
      StoredKeepsMaxOrPending(m, m', k, v);
    }
  }

  lemma SplitKeepsMaxOrPending(m: Machine, m': Machine, t: ThreadId, id: NodeId, k: int, v: Pair)
    requires Keyed(m) && Ok(m') && Accepted(m.shared, id, k) && OthersStay(m, m', t)
    requires t in m.threads && m.threads[t].Committing? && m.threads[t].op.Split?
    requires m'.shared == CommitSplit(m.shared, id, k, v).0
    ensures m'.shared.index != map[] && Injective(m'.shared) && MaxOrPending(m') && KeysStored(m'.shared)
  {
    var s, s' := m.shared, m'.shared;
    StillAwaited(m, m', t);
    SplitLeavesMaxima(s, id, k, v);
    forall j | j in s'.index ensures exists e :: e in NodeAt(s', j) && e.key == j {
      if j in s.index && s.index[j] == s'.index[j] && s.index[j] != id {
        var x :| x in NodeAt(s, j) && x.key == j;
        assert x in NodeAt(s', j);
      } else {
        var n := NodeAt(s', j);
        assert n[|n| - 1] in n;
      }
    }
  }

  lemma UpdateMaxKeepsMaxOrPending(m: Machine, m': Machine, t: ThreadId, id: NodeId, k: int)
    requires Keyed(m) && Ok(m') && OthersStay(m, m', t)
    requires t in m.threads && m.threads[t].Committing? && m.threads[t].op == UpdateMax(id, k)
    requires m'.shared == CommitUpdateMax(m.shared, id, k).0
    ensures m'.shared.index != map[] && Injective(m'.shared) && MaxOrPending(m') && KeysStored(m'.shared)
  {
    var s, s' := m.shared, m'.shared;
    StillAwaited(m, m', t);
    assert s'.index != s.index ==> Max(s.heap[id]) in s'.index;
    forall j | j in s'.index
      ensures NodeAt(s', j) != [] && exists e :: e in NodeAt(s', j) && e.key == j
      ensures Max(NodeAt(s', j)) == j || Awaited(m', s'.index[j], j)
    {
      var n := NodeAt(s', j);
      if s'.index[j] == id && n != [] && j == Max(n) {
        assert n[|n| - 1] in n;
      } else {
        assert j in s.index && s.index[j] == s'.index[j];
        var x :| x in NodeAt(s, j) && x.key == j;
        assert x in n;
      }
    }
  }

  lemma EditKeepsKeyed(m: Machine, t: ThreadId, v: Pair)
    requires Keyed(m) && t in m.threads && m.threads[t] == Calling(Put(v))
    ensures Keyed(Next(m, Run(t)))
  {
    hide EditForPut, Sorted, KeysStored, MaxOrPending, Awaited;
    NextOk(m, Run(t));
    EditForPutKeeps(m.shared, v);
    EditForPutShape(m.shared, v);
    EditKeepsMaxOrPending(m, Next(m, Run(t)), t, v);
  }

  lemma CommitKeepsKeyed(m: Machine, t: ThreadId)
    requires Keyed(m) && t in m.threads && m.threads[t].Committing?
    ensures Keyed(Next(m, Run(t)))
  {
    var m' := Next(m, Run(t));
    NextOk(m, Run(t));
    match m.threads[t].op {
      case Split(id, k, v) =>
        if Accepted(m.shared, id, k) {
          SplitKeepsMaxOrPending(m, m', t, id, k, v);
        } else {
          StillAwaited(m, m', t);
        }
      case UpdateMax(id, k) => UpdateMaxKeepsMaxOrPending(m, m', t, id, k);
    }
  }

  lemma NextKeepsKeyed(m: Machine, step: Step)
    requires Keyed(m) && Enabled(m, step) && (step.Invoke? ==> step.req.Put?)
    ensures Keyed(Next(m, step))
  {
    match step {
      case Invoke(t, _) => StillAwaited(m, Next(m, step), t);
      case GiveUp(t) =>
      case Run(t) =>
        match m.threads[t] {
          case Calling(req) => EditKeepsKeyed(m, t, req.value);
          case Committing(_, _, _, _) => CommitKeepsKeyed(m, t);
        }
    }
  }

  /** In every interleaving of puts, with no limit on what is pending, each index key is its
      node's maximum or a re-keying of exactly that node and key is still to come. */
  lemma {:induction false} KeysAreMaximaOrPending(ms: seq<Machine>, steps: seq<Step>, i: nat)
    requires IsRun(ms, steps) && OnlyPuts(steps) && Keyed(ms[0]) && i < |ms|
    ensures Keyed(ms[i])
  {
    if i > 0 {
      KeysAreMaximaOrPending(ms, steps, i - 1);
      RunStep(ms, steps, i - 1);
      NextKeepsKeyed(ms[i - 1], steps[i - 1]);
    }
  }

  /** Once nothing is pending all index keys are maxima. */
  lemma KeysAreMaximaAtRest(ms: seq<Machine>, steps: seq<Step>, i: nat)
    requires IsRun(ms, steps) && OnlyPuts(steps) && Keyed(ms[0]) && i < |ms|
    requires forall t :: t in ms[i].threads ==> !ms[i].threads[t].Committing?
    ensures Ok(ms[i])
    ensures forall k :: k in ms[i].shared.index ==>
              NodeAt(ms[i].shared, k) != [] && Max(NodeAt(ms[i].shared, k)) == k
  {
    KeysAreMaximaOrPending(ms, steps, i);
  }
}
