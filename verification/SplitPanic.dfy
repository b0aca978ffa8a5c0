/** When the commit of a split meets an emptied node: never among puts alone, but among removes. */
module SplitPanic {
  import opened Basics
  import opened NodeOps
  import opened OrderedKeys
  import opened ConcurrentState
  import opened Interleaving
  import opened PutInterleaving
  import opened SplitRace

  /** The next step is a commit that fails the expectation of a node that is not empty. */
  ghost predicate Panics(m: Machine, step: Step)
    requires Ok(m) && Enabled(m, step)
  {
    && step.Run? && m.threads[step.thread].Committing?
    && Commit(m.shared, m.threads[step.thread].op).1.Panicked?
  }

  /** In no interleaving of puts, with no limit on what is pending, does a commit panic. */
  lemma PutsNeverPanic(ms: seq<Machine>, steps: seq<Step>, i: nat)
    requires IsRun(ms, steps) && OnlyPuts(steps) && Keyed(ms[0]) && i < |steps|
    ensures Ok(ms[i]) && Enabled(ms[i], steps[i]) && !Panics(ms[i], steps[i])
  {
    KeysAreMaximaOrPending(ms, steps, i);
    RunStep(ms, steps, i);
  }

  // ---------------------------------------------------------------- a run with removes

  /** A full node, indexed by its greatest key. */
  function FullNode(): State {
    State(map[5 := 0], map[0 := [P(1), P(5)]], 1, 0, 2)
  }

  function HalfEmpty(): State {
    State(map[5 := 0], map[0 := [P(1)]], 1, 1, 2)
  }

  function Emptied(): State {
    State(map[5 := 0], map[0 := []], 1, 1, 2)
  }

  lemma FullIsOk()
    ensures Ok(Machine(FullNode(), map[], []))
  {
  }

  lemma PutThree()
    ensures 5 in FullNode().index
    ensures EditForPut(FullNode(), P(3)) == (FullNode(), Edit(None, [], Some(Split(0, 5, P(3)))))
  {
    assert 5 in FullNode().index && FullNode().index.Keys == {5};
    assert Locate(FullNode().index.Keys, 3) == 5;
  }

  lemma RemoveFive()
    ensures EditForRemove(FullNode(), 5) ==
              (HalfEmpty(), Edit(Some(P(5)), [RemoveAt(5, P(5), 1)], Some(UpdateMax(0, 5))))
  {
    var s, n := FullNode(), [P(1), P(5)];
    assert 5 in s.index && s.index.Keys == {5};
    assert Ceiling(s.index.Keys, 5) == Some(5);
    PointUnique(n, 5, 1);
    assert Removed(n, 1) == [P(1)];
    assert s.heap[0 := [P(1)]] == HalfEmpty().heap;
  }

  /** The key lags, so the remaining entry is still looked for in the node. */
  lemma RemoveOne()
    ensures EditForRemove(HalfEmpty(), 1) ==
              (Emptied(), Edit(Some(P(1)), [], Some(MakeUnreachable(0, 1))))
  {
    var s, n := HalfEmpty(), [P(1)];
    assert 5 in s.index && s.index.Keys == {5};
    assert Ceiling(s.index.Keys, 1) == Some(5);
    PointUnique(n, 1, 0);
    assert Removed(n, 0) == [];
    assert s.heap[0 := []] == Emptied().heap;
  }

  /** A call and its first phase. */
  lemma CallAndEdit(m: Machine, t: ThreadId, req: Request, s: State, e: Edit) returns (called: Machine, edited: Machine)
    requires Ok(m) && t !in m.threads && m.shared.index != map[]
    requires match req { case Put(v) => EditForPut(m.shared, v) == (s, e) case Remove(k) => EditForRemove(m.shared, k) == (s, e) }
    requires e.next.Some?
    ensures Ok(edited) && IsRun([m, called, edited], [Invoke(t, req), Run(t)])
    ensures edited == Machine(s, m.threads[t := Committing(req, e.next.value, e.result, Number(e.events, m.shared.nextEvent))], m.returned)
  {
    hide EditForPut, EditForRemove;
    called := Next(m, Invoke(t, req));
    NextOk(m, Invoke(t, req));
    edited := Next(called, Run(t));
    NextOk(called, Run(t));
    Two(m, Invoke(t, req), called, Run(t), edited);
  }

  /** A put is about to split a full node; two removes empty the node, which stays indexed because
      both of their commits are still to come; the split then panics, and the put never returns. */
  lemma RemovesMakeASplitPanic() returns (ms: seq<Machine>, steps: seq<Step>)
    ensures IsRun(ms, steps) && |steps| == 7 && ms[0] == Machine(FullNode(), map[], [])
    ensures Ok(ms[6]) && Enabled(ms[6], steps[6]) && Panics(ms[6], steps[6])
    ensures 1 !in ms[7].threads && ms[7].returned == []
  {
    hide Next, IsRun, EditForPut, EditForRemove, Commit, Panics, Ok, Number;
    var m0 := Machine(FullNode(), map[], []);
    FullIsOk();
    PutThree();
    var m1, m2 := CallAndEdit(m0, 1, Put(P(3)), FullNode(), Edit(None, [], Some(Split(0, 5, P(3)))));
    RemoveFive();
    var m3, m4 := CallAndEdit(m2, 2, Remove(5), HalfEmpty(), Edit(Some(P(5)), [RemoveAt(5, P(5), 1)], Some(UpdateMax(0, 5))));
    RemoveOne();
    var m5, m6 := CallAndEdit(m4, 3, Remove(1), Emptied(), Edit(Some(P(1)), [], Some(MakeUnreachable(0, 1))));
    var m7 := EmptiedSplitPanics(m6);
    var first, second, third := [Invoke(1, Put(P(3))), Run(1)], [Invoke(2, Remove(5)), Run(2)], [Invoke(3, Remove(1)), Run(3)];
    var a, b, c, d := [m0, m1, m2], [m2, m3, m4], [m4, m5, m6], [m6, m7];
    Meet(a, b, first, second);
    Meet(c, d, third, [Run(1)]);
    Meet(a + b[1..], c + d[1..], first + second, third + [Run(1)]);
    ms := a + b[1..] + (c + d[1..])[1..];
    steps := first + second + (third + [Run(1)]);
  }

  lemma EmptiedSplitPanics(m: Machine) returns (m': Machine)
    requires Ok(m) && m.shared == Emptied() && m.returned == []
    requires 1 in m.threads && m.threads[1] == Committing(Put(P(3)), Split(0, 5, P(3)), None, [])
    ensures IsRun([m, m'], [Run(1)]) && Panics(m, Run(1))
    ensures 1 !in m'.threads && m'.returned == []
  {
    m' := Next(m, Run(1));
  }
}
