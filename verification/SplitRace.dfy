/** A run in which two splits pending on one node hide an entry from every lookup. */
module SplitRace {
  import opened Basics
  import opened NodeOps
  import opened OrderedKeys
  import opened ConcurrentState
  import opened Separation
  import opened Interleaving
  import opened PutInterleaving
  import opened PutPartition

  function P(key: int): Pair {
    Pair(key, 0)
  }

  /** One node, [1], and a capacity of two. */
  function Start(): Machine {
    Machine(State(map[1 := 0], map[0 := [P(1)]], 1, 0, 2), map[], [])
  }

  lemma StartIsSafe()
    ensures SafelyPartitioned(Start())
  {
    var s := Start().shared;
    assert NodeAt(s, 1) == [P(1)] && P(1) in NodeAt(s, 1);
    assert WellFormed(s);
    forall k, e | k in s.index && e in NodeAt(s, k) ensures Routes(s.index.Keys, k, e.key) {}
  }

  /** Putting 5 leaves the node full while its key lags behind at 1. */
  function Lagging(): State {
    State(map[1 := 0], map[0 := [P(1), P(5)]], 1, 1, 2)
  }

  lemma PutFive()
    ensures 1 in Start().shared.index
    ensures EditForPut(Start().shared, P(5)) ==
              (Lagging(), Edit(None, [InsertAt(1, P(5), 1)], Some(UpdateMax(0, 1))))
  {
    var s := Start().shared;
    var n := [P(1)];
    assert 1 in s.index && s.index.Keys == {1};
    assert Locate(s.index.Keys, 5) == 1;
    PointUnique(n, 5, 1);
    assert Stored(n, P(5)) == [P(1), P(5)];
    assert s.heap[0 := [P(1), P(5)]] == Lagging().heap;
  }

  /** Any later put is above the lagging key, and the node is full. */
  lemma PutAbove(v: Pair)
    requires 1 < v.key
    ensures 1 in Lagging().index
    ensures EditForPut(Lagging(), v) == (Lagging(), Edit(None, [], Some(Split(0, 1, v))))
  {
    assert Lagging().index.Keys == {1};
    assert Locate({1}, v.key) == 1;
  }

  function AfterFirst(): State {
    State(map[1 := 0, 7 := 1], map[0 := [P(1)], 1 := [P(5), P(7)]], 2, 3, 2)
  }

  lemma FirstSplit()
    ensures Commit(Lagging(), Split(0, 1, P(7))) ==
              (AfterFirst(), Done(None, [SplitNode(5, 1), InsertAt(5, P(7), 1)]))
  {
    var n := [P(1), P(5)];
    assert |n| / 2 == 1 && n[..1] == [P(1)] && n[1..] == [P(5)];
    PointUnique([P(5)], 7, 1);
    assert Stored([P(5)], P(7)) == [P(5), P(7)];
    assert StoreInHalf([P(1)], [P(5)], P(7)) == Halves([P(1)], [P(5), P(7)], 7, None, [InsertAt(5, P(7), 1)]);
    assert [SplitNode(5, 1)] + [InsertAt(5, P(7), 1)] == [SplitNode(5, 1), InsertAt(5, P(7), 1)];
    assert (Lagging().index - {1})[1 := 0][7 := 1] == AfterFirst().index;
    assert Lagging().heap[0 := [P(1)]][1 := [P(5), P(7)]] == AfterFirst().heap;
  }

  function AfterSecond(): State {
    State(map[7 := 1, 9 := 2], map[0 := [], 1 := [P(5), P(7)], 2 := [P(1), P(9)]], 3, 5, 2)
  }

  /** The lower half of the first split was indexed by 1 again, so the second split is accepted;
      9 joins the only entry left in it, behind the key 7. */
  lemma SecondSplit()
    ensures Commit(AfterFirst(), Split(0, 1, P(9))) ==
              (AfterSecond(), Done(None, [SplitNode(1, 0), InsertAt(1, P(9), 1)]))
  {
    var n := [P(1)];
    assert |n| / 2 == 0 && n[..0] == [] && n[0..] == n;
    PointUnique(n, 9, 1);
    assert Stored(n, P(9)) == [P(1), P(9)];
    assert StoreInHalf([], n, P(9)) == Halves([], [P(1), P(9)], 9, None, [InsertAt(1, P(9), 1)]);
    assert [SplitNode(1, 0)] + [InsertAt(1, P(9), 1)] == [SplitNode(1, 0), InsertAt(1, P(9), 1)];
    assert (AfterFirst().index - {1})[9 := 2] == AfterSecond().index;
    assert AfterFirst().heap[0 := []][2 := [P(1), P(9)]] == AfterSecond().heap;
  }

  /** The entry 1 is stored but looking it up finds nothing. */
  lemma OneIsHidden()
    ensures WellFormed(AfterSecond())
    ensures Holds(AfterSecond(), P(1)) && Lookup(AfterSecond(), 1) == None
  {
    var s := AfterSecond();
    assert NodeAt(s, 9) == [P(1), P(9)] && P(1) in NodeAt(s, 9);
    assert s.index.Keys == {7, 9};
    assert Locate({7, 9}, 1) == 7;
    PointUnique([P(5), P(7)], 1, 0);
  }

  function CallOf(t: ThreadId, v: Pair): seq<Step> {
    [Invoke(t, Put(v)), Run(t)]
  }

  function Steps(): seq<Step> {
    (CallOf(1, P(5)) + CallOf(2, P(7))) + (CallOf(3, P(9)) + [Run(2), Run(3)])
  }

  /** Three calls under way: 5 is stored and about to re-key the node, 7 and 9 are about to split it. */
  function Racing(): Machine {
    Machine(Lagging(),
            map[1 := Committing(Put(P(5)), UpdateMax(0, 1), None, [Logged(0, InsertAt(1, P(5), 1))]),
                2 := Committing(Put(P(7)), Split(0, 1, P(7)), None, []),
                3 := Committing(Put(P(9)), Split(0, 1, P(9)), None, [])],
            [])
  }

  ghost predicate Leads(m: Machine, step: Step, m': Machine) {
    Ok(m) && Enabled(m, step) && m' == Next(m, step)
  }

  lemma Two(m: Machine, x: Step, m': Machine, y: Step, m'': Machine)
    requires Leads(m, x, m') && Leads(m', y, m'')
    ensures IsRun([m, m', m''], [x, y])
  {
  }

  /** Two runs that meet make one. */
  lemma Meet(ms: seq<Machine>, ns: seq<Machine>, xs: seq<Step>, ys: seq<Step>)
    requires IsRun(ms, xs) && IsRun(ns, ys) && ms[|xs|] == ns[0]
    ensures IsRun(ms + ns[1..], xs + ys)
  {
    var all, steps := ms + ns[1..], xs + ys;
    forall i | 0 <= i < |steps|
      ensures Enabled(all[i], steps[i]) && (Ok(all[i]) ==> all[i + 1] == Next(all[i], steps[i]))
    {
      if i < |xs| {
      } else {
        assert all[i] == ns[i - |xs|] && all[i + 1] == ns[i - |xs| + 1] && steps[i] == ys[i - |xs|];
      }
    }
  }

  lemma Lag() returns (called: Machine, lagging: Machine)
    ensures Ok(lagging) && lagging == Machine(Lagging(), map[1 := Racing().threads[1]], [])
    ensures IsRun([Start(), called, lagging], CallOf(1, P(5)))
  {
    hide EditForPut;
    StartIsSafe();
    PutFive();
    called := Next(Start(), Invoke(1, Put(P(5))));
    NextOk(Start(), Invoke(1, Put(P(5))));
    lagging := Next(called, Run(1));
    NextOk(called, Run(1));
    assert Number([InsertAt(1, P(5), 1)], 0) == [Logged(0, InsertAt(1, P(5), 1))];
    Two(Start(), Invoke(1, Put(P(5))), called, Run(1), lagging);
  }

  /** Calling and routing a put above the lagging key queues one more split of the same node. */
  lemma Queue(m: Machine, t: ThreadId, v: Pair) returns (called: Machine, queued: Machine)
    requires Ok(m) && m.shared == Lagging() && t !in m.threads && 1 < v.key
    ensures Ok(queued)
    ensures queued == Machine(Lagging(), m.threads[t := Committing(Put(v), Split(0, 1, v), None, [])], m.returned)
    ensures IsRun([m, called, queued], CallOf(t, v))
  {
    PutAbove(v);
    called := Next(m, Invoke(t, Put(v)));
    NextOk(m, Invoke(t, Put(v)));
    queued := Next(called, Run(t));
    NextOk(called, Run(t));
    Two(m, Invoke(t, Put(v)), called, Run(t), queued);
  }

  lemma FinishRace() returns (m7: Machine, m8: Machine)
    requires Ok(Racing())
    ensures m8.shared == AfterSecond()
    ensures IsRun([Racing(), m7, m8], [Run(2), Run(3)])
  {
    FirstSplit();
    SecondSplit();
    m7 := Next(Racing(), Run(2));
    NextOk(Racing(), Run(2));
    m8 := Next(m7, Run(3));
    Two(Racing(), Run(2), m7, Run(3), m8);
  }

  lemma Race() returns (ms: seq<Machine>)
    ensures |ms| == 9 && ms[0] == Start() && ms[6] == Racing() && ms[8].shared == AfterSecond()
    ensures IsRun(ms, Steps())
  {
    var m1, m2 := Lag();
    var m3, m4 := Queue(m2, 2, P(7));
    var m5, m6 := Queue(m4, 3, P(9));
    assert m6 == Racing();
    var m7, m8 := FinishRace();
    var a, b, c, d := [Start(), m1, m2], [m2, m3, m4], [m4, m5, m6], [m6, m7, m8];
    Meet(a, b, CallOf(1, P(5)), CallOf(2, P(7)));
    Meet(c, d, CallOf(3, P(9)), [Run(2), Run(3)]);
    Meet(a + b[1..], c + d[1..], CallOf(1, P(5)) + CallOf(2, P(7)), CallOf(3, P(9)) + [Run(2), Run(3)]);
    ms := a + b[1..] + (c + d[1..])[1..];
  }

  lemma TwoArePending()
    ensures !OneSplitPerNode(Racing())
  {
    assert PendingSplit(Racing(), 2) && PendingSplit(Racing(), 3);
  }

  /** The hypothesis that no node has two splits pending cannot be dropped: from a well-formed set
      three interleaved puts reach a state in which a stored entry cannot be found. */
  lemma TwoPendingSplitsHideAnEntry() returns (ms: seq<Machine>)
    ensures IsRun(ms, Steps()) && OnlyPuts(Steps()) && SafelyPartitioned(ms[0])
    ensures !OneSplitPerNode(ms[6])
    ensures var last := ms[8].shared;
            WellFormed(last) && Holds(last, P(1)) && Lookup(last, 1) == None
  {
    hide Next, Holds, Lookup;
    StartIsSafe();
    OneIsHidden();
    TwoArePending();
    ms := Race();
  }
}
