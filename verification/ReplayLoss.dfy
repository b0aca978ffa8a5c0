/** A history after which the change log no longer describes the set. */
module ReplayLoss {
  import opened Basics
  import opened NodeOps
  import opened OrderedKeys
  import opened ConcurrentState
  import opened Separation
  import opened Sequential
  import opened ChangeLog

  function P(key: int): Pair {
    Pair(key, 0)
  }

  function One(): State {
    State(map[1 := 0], map[0 := [P(1)]], 1, 1, 2)
  }

  /** A full node, indexed by its greatest key. */
  function Full(): State {
    State(map[5 := 0], map[0 := [P(1), P(5)]], 1, 2, 2)
  }

  lemma PutOne()
    ensures WellFormed(Empty(2)) && Tight(Empty(2))
    ensures PutCall(Empty(2), P(1)).after == One() && Tight(One())
  {
    FirstPutTightens(Empty(2), P(1));
    assert map[][1 := 0] == map[1 := 0];
  }

  function Lagging(): State {
    State(map[1 := 0], map[0 := [P(1), P(5)]], 1, 2, 2)
  }

  lemma EditFive()
    ensures 1 in One().index
    ensures EditForPut(One(), P(5)) == (Lagging(), Edit(None, [InsertAt(1, P(5), 1)], Some(UpdateMax(0, 1))))
  {
    var s, n := One(), [P(1)];
    assert 1 in s.index && s.index.Keys == {1};
    assert Locate(s.index.Keys, 5) == 1;
    PointUnique(n, 5, 1);
    assert Stored(n, P(5)) == [P(1), P(5)];
    assert s.heap[0 := [P(1), P(5)]] == Lagging().heap;
  }

  lemma PutFive()
    ensures WellFormed(One()) && PutCall(One(), P(5)).after == Full() && Tight(Full())
  {
    hide EditForPut, Separated, Sorted, Puts;
    PutOne();
    EditFive();
    PutTightens(One(), P(5));
    assert (Lagging().index - {1})[5 := 0] == Full().index;
  }

  /** Neither of the two puts that fill the node is lost. */
  lemma FillingReplays(states: seq<State>, calls: seq<Call>)
    requires states == [Empty(2), One(), Full()] && calls == [Call.Put(P(1)), Call.Put(P(5))]
    ensures IsHistory(states, calls) && WellFormed(Empty(2)) && WellFormed(One()) && WellFormed(Full())
    ensures forall i :: 0 <= i < |calls| ==> WellFormed(states[..|calls|][i])
    ensures Replay(View(Empty(2)), EventsOf(states[..|calls|], calls)) == Some(View(Full()))
  {
    hide PutCall, EditForPut, WellFormed, Replay, EventsOf, View;
    PutOne();
    PutFive();
    forall i | 0 <= i < |calls| ensures states[i + 1] == Run(states[i], calls[i]).after {
      assert i == 0 || i == 1;
    }
    assert !ReplacesHalfMaximum(One(), P(5)) by {
      assert One().index.Keys == {1} && Locate({1}, 5) == 1;
    }
    HistoriesReplay(states, calls);
  }

  lemma GreatestOfFull()
    requires Tight(Full())
    ensures ReplacesHalfMaximum(Full(), Pair(5, 9))
  {
    assert 5 in Full().index && Full().index.Keys == {5};
    assert Locate(Full().index.Keys, 5) == 5;
  }

  /** Two puts fill a node of capacity two; replacing its greatest entry then splits the node, and
      a replica that was faithful so far is so no longer. */
  lemma ReplacingTheGreatestIsLost() returns (states: seq<State>, calls: seq<Call>, v: Pair)
    ensures IsHistory(states, calls) && |calls| == 2 && states[0] == Empty(2) && Tight(states[2])
    ensures forall i :: 0 <= i < |calls| ==> WellFormed(states[..|calls|][i])
    ensures Replay(View(states[0]), EventsOf(states[..|calls|], calls)) == Some(View(states[2]))
    ensures ReplacesHalfMaximum(states[2], v)
    ensures var o := PutCall(states[2], v);
            && (forall j :: j in o.after.index ==> o.after.index[j] in o.after.heap)
            && Replay(View(states[2]), o.events) != Some(View(o.after))
  {
    hide PutCall, Replay, EventsOf, View, IsHistory, Sound, ReplacesHalfMaximum;
    states, calls, v := [Empty(2), One(), Full()], [Call.Put(P(1)), Call.Put(P(5))], Pair(5, 9);
    FillingReplays(states, calls);
    PutFive();
    GreatestOfFull();
    PutReplaysExactly(Full(), v);
  }
}
