/** Dropping a node whose greatest entry was removed: when it goes through, and what it costs. */
module LostPut {
  import opened Basics
  import opened NodeOps
  import opened OrderedKeys
  import opened ConcurrentState
  import opened Separation
  import opened Interleaving
  import opened SplitRace
  import opened SplitPanic

  /** With key and identity still matching, a node is dropped exactly when all its entries, if it has
      any, lie below its key; and then every entry stays held exactly when it has none. */
  lemma MakeUnreachableExactly(s: State, id: NodeId, k: int)
    requires WellFormed(s) && Separated(s) && Injective(s) && k in s.index && s.index[k] == id
    ensures var (t, verdict) := CommitMakeUnreachable(s, id, k);
            && (verdict.Done? <==> forall e :: e in NodeAt(s, k) ==> e.key < k)
            && (verdict.Done? ==>
                  && verdict == Done(None, [RemoveNode(k)]) && t.index == s.index - {k} && t.heap == s.heap
                  && WellFormed(t) && (SameEntries(s, t) <==> NodeAt(s, k) == [])
                  && forall e :: Holds(t, e) <==> Holds(s, e) && e !in NodeAt(s, k))
            && (!verdict.Done? ==> verdict == Rejected && t == s)
  {
    var n := NodeAt(s, k);
    var (t, verdict) := CommitMakeUnreachable(s, id, k);
    forall e | e in n ensures e.key <= Max(n) { AtMostMax(n, e); }
    if n != [] { assert n[|n| - 1] in n; }
    if verdict.Done? {
      forall e ensures Holds(t, e) <==> Holds(s, e) && e !in n { DroppedAreItsOwn(s, t, k, e); }
      if n != [] { assert Holds(s, n[|n| - 1]) && !Holds(t, n[|n| - 1]); }
    }
  }

  lemma DroppedAreItsOwn(s: State, t: State, k: int, e: Pair)
    requires WellFormed(s) && Separated(s) && k in s.index && WellFormed(t)
    requires t.index == s.index - {k} && t.heap == s.heap
    ensures Holds(t, e) <==> Holds(s, e) && e !in NodeAt(s, k)
  {
    if Holds(t, e) {
      var j :| j in t.index && e in NodeAt(t, j);
      assert e in NodeAt(s, j);
      if e in NodeAt(s, k) {
        assert Routes(s.index.Keys, k, e.key) && Routes(s.index.Keys, j, e.key);
        RoutesUnique(s.index.Keys, k, j, e.key);
      }
    }
    if Holds(s, e) && e !in NodeAt(s, k) {
      var j :| j in s.index && e in NodeAt(s, j);
      assert j in t.index && e in NodeAt(t, j);
    }
  }

  /** If key or identity no longer match, or the node has grown up to its key again, nothing happens. */
  lemma MakeUnreachableRejects(s: State, id: NodeId, k: int)
    requires id in s.heap && !(k in s.index && s.index[k] == id)
    ensures CommitMakeUnreachable(s, id, k) == (s, Rejected)
  {
  }

  /** Re-keying goes through exactly when the node is empty, or key and identity match; it changes the
      index only if the node has a maximum other than its key. */
  lemma UpdateMaxExactly(s: State, id: NodeId, k: int)
    requires WellFormed(s) && id in s.heap
    ensures var (t, verdict) := CommitUpdateMax(s, id, k);
            var matching := k in s.index && s.index[k] == id;
            && verdict == (if s.heap[id] == [] || matching then Done(None, []) else Rejected)
            && t.heap == s.heap && t.nextEvent == s.nextEvent
            && (t.index == s.index <==> s.heap[id] == [] || !matching || Max(s.heap[id]) == k)
            && (t.index != s.index ==>
                  && k !in t.index && Max(s.heap[id]) in t.index && t.index[Max(s.heap[id])] == id
                  && (forall j :: j != k && j != Max(s.heap[id]) ==> (j in t.index <==> j in s.index))
                  && (forall j :: j in s.index && j != k && j != Max(s.heap[id]) ==> t.index[j] == s.index[j]))
  {
    var t := CommitUpdateMax(s, id, k).0;
    assert s.heap[id] != [] && k in s.index && s.index[k] == id && Max(s.heap[id]) != k ==> k !in t.index;
  }

  // ---------------------------------------------------------------- a put that is lost

  /** The set after one put. */
  function Single(): State {
    State(map[5 := 0], map[0 := [P(5)]], 1, 1, 2)
  }

  function Vacated(): State {
    State(map[5 := 0], map[0 := []], 1, 1, 2)
  }

  function Refilled(): State {
    State(map[5 := 0], map[0 := [P(3)]], 1, 2, 2)
  }

  lemma RemoveTheOnly()
    ensures EditForRemove(Single(), 5) == (Vacated(), Edit(Some(P(5)), [], Some(MakeUnreachable(0, 5))))
  {
    var s, n := Single(), [P(5)];
    assert 5 in s.index && s.index.Keys == {5};
    assert Ceiling(s.index.Keys, 5) == Some(5);
    PointUnique(n, 5, 0);
    assert Removed(n, 0) == [];
    assert s.heap[0 := []] == Vacated().heap;
  }

  lemma PutIntoVacated()
    ensures 5 in Vacated().index
    ensures EditForPut(Vacated(), P(3)) == (Refilled(), Edit(None, [InsertAt(3, P(3), 0)], None))
  {
    var s := Vacated();
    var n: Node := [];
    assert 5 in s.index && s.index.Keys == {5};
    assert Locate(s.index.Keys, 3) == 5;
    assert NodeAt(s, 5) == n;
    PointUnique(n, 3, 0);
    assert Stored(n, P(3)) == [P(3)];
    assert s.heap[0 := [P(3)]] == Refilled().heap;
  }

  lemma SingleIsOk()
    ensures Single() == Install(Empty(2), P(5)) && Ok(Machine(Single(), map[], []))
  {
  }

  /** A put that returns after its first phase. */
  lemma CallAndReturn(m: Machine, t: ThreadId, v: Pair, s: State, e: Edit) returns (called: Machine, returned: Machine)
    requires Ok(m) && t !in m.threads && m.shared.index != map[]
    requires EditForPut(m.shared, v) == (s, e) && e.next == None
    ensures Ok(returned) && IsRun([m, called, returned], [Invoke(t, Put(v)), Run(t)])
    ensures returned == Machine(s, m.threads, m.returned + [Return(t, Put(v), e.result, Number(e.events, m.shared.nextEvent))])
  {
    hide EditForPut;
    called := Next(m, Invoke(t, Put(v)));
    NextOk(m, Invoke(t, Put(v)));
    returned := Next(called, Run(t));
    NextOk(called, Run(t));
    assert m.threads[t := Calling(Put(v))] - {t} == m.threads;
    Two(m, Invoke(t, Put(v)), called, Run(t), returned);
  }

  lemma DropRefilled(m: Machine) returns (m': Machine)
    requires Ok(m) && m.shared == Refilled()
    requires 1 in m.threads && m.threads[1] == Committing(Remove(5), MakeUnreachable(0, 5), Some(P(5)), [])
    ensures IsRun([m, m'], [Run(1)]) && Ok(m')
    ensures m'.shared.index == map[] && m'.threads == m.threads - {1}
    ensures m'.returned == m.returned + [Return(1, Remove(5), Some(P(5)), [Logged(2, RemoveNode(5))])]
  {
    m' := Next(m, Run(1));
    NextOk(m, Run(1));
    assert Refilled().index - {5} == map[];
    assert Number([RemoveNode(5)], 2) == [Logged(2, RemoveNode(5))];
    assert [] + [Logged(2, RemoveNode(5))] == [Logged(2, RemoveNode(5))];
  }

  /** A remove empties a node; before it drops the node a put refills it and returns; then the drop
      goes through, and the entry put is held by no indexed node although nobody removed it. */
  lemma AReturnedPutIsLost() returns (ms: seq<Machine>, steps: seq<Step>)
    ensures IsRun(ms, steps) && |steps| == 5 && ms[0] == Machine(Install(Empty(2), P(5)), map[], [])
    ensures forall i :: 0 <= i < |steps| && steps[i].Invoke? && steps[i].req.Remove? ==> steps[i].req.key == 5
    ensures Ok(ms[4]) && Holds(ms[4].shared, P(3))
    ensures ms[4].returned == [Return(2, Put(P(3)), None, [Logged(1, InsertAt(3, P(3), 0))])]
    ensures Ok(ms[5]) && !Holds(ms[5].shared, P(3)) && ms[5].threads == map[]
  {
    hide Next, IsRun, EditForPut, EditForRemove, Ok, Number;
    var m0 := Machine(Single(), map[], []);
    SingleIsOk();
    assert 5 in Single().index && 5 in Vacated().index;
    RemoveTheOnly();
    var m1, m2 := CallAndEdit(m0, 1, Remove(5), Vacated(), Edit(Some(P(5)), [], Some(MakeUnreachable(0, 5))));
    PutIntoVacated();
    var m3, m4 := CallAndReturn(m2, 2, P(3), Refilled(), Edit(None, [InsertAt(3, P(3), 0)], None));
    assert Number([InsertAt(3, P(3), 0)], 1) == [Logged(1, InsertAt(3, P(3), 0))];
    assert |Number([], 1)| == 0;
    var m5 := DropRefilled(m4);
    RefilledHolds();
    var a, b, c := [m0, m1, m2], [m2, m3, m4], [m4, m5];
    Meet(a, b, [Invoke(1, Remove(5)), Run(1)], [Invoke(2, Put(P(3))), Run(2)]);
    Meet(a + b[1..], c, [Invoke(1, Remove(5)), Run(1)] + [Invoke(2, Put(P(3))), Run(2)], [Run(1)]);
    ms := a + b[1..] + c[1..];
    steps := [Invoke(1, Remove(5)), Run(1)] + [Invoke(2, Put(P(3))), Run(2)] + [Run(1)];
  }

  lemma RefilledHolds()
    ensures WellFormed(Refilled()) && Holds(Refilled(), P(3))
  {
    assert 5 in Refilled().index && P(3) in NodeAt(Refilled(), 5);
  }
}
