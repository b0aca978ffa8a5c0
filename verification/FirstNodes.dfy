/** Creating a first node: the index is not looked at again, so it need not be empty any more. */
module FirstNodes {
  import opened Basics
  import opened NodeOps
  import opened OrderedKeys
  import opened ConcurrentState
  import opened Separation
  import opened Interleaving
  import opened SplitRace
  import opened LostPut

  /** Nothing is where the new node goes: the node that v belongs to holds only greater keys, or, when
      v is above all index keys, none above its own key. */
  ghost predicate RoomForANode(s: State, v: Pair)
    requires Sound(s)
  {
    s.index == map[] ||
    var k := Locate(s.index.Keys, v.key);
    if k < v.key then Max(NodeAt(s, k)) <= k else k != v.key && v.key < NodeAt(s, k)[0].key
  }

  /** Creating a node is a put, with the right answer and into a partition, exactly when there is room. */
  lemma InstallIsAPutExactlyWhenThereIsRoom(s: State, v: Pair)
    requires Sound(s)
    ensures var t := Install(s, v);
            && WellFormed(t)
            && (Separated(t) && Puts(s, t, v) && Answers(None, e => Holds(s, e), v.key) <==> RoomForANode(s, v))
  {
    hide Separated, Puts, Sorted, Answers;
    if RoomForANode(s, v) {
      InstallKeepsApart(s, v);
      InstallPuts(s, v);
      NothingIsReplaced(s, v);
    } else {
      NoRoom(s, v);
    }
  }

  lemma InstalledNodes(s: State, v: Pair)
    requires Sound(s)
    ensures var t := Install(s, v);
            && WellFormed(t) && t.index.Keys == s.index.Keys + {v.key} && NodeAt(t, v.key) == [v]
            && forall k :: k in s.index && k != v.key ==> NodeAt(t, k) == NodeAt(s, k)
  {
    hide Separated;
  }

  /** Every entry of a node lies off the way of a new key. */
  lemma OffTheWay(s: State, v: Pair, k: int, e: Pair)
    requires Sound(s) && RoomForANode(s, v) && k in s.index && e in NodeAt(s, k)
    ensures k != v.key && e.key != v.key && (k < v.key ==> e.key <= k) && (v.key < k ==> v.key < e.key)
  {
    hide Sorted;
    var at := Locate(s.index.Keys, v.key);
    var n := NodeAt(s, at);
    assert Routes(s.index.Keys, k, e.key) && Routes(s.index.Keys, at, v.key);
    if k == at {
      FirstToMax(n, e);
    }
  }

  lemma FirstToMax(n: Node, e: Pair)
    requires Sorted(n) && e in n
    ensures n != [] && n[0].key <= e.key <= Max(n)
  {
  }

  lemma InstallKeepsApart(s: State, v: Pair)
    requires Sound(s) && RoomForANode(s, v)
    ensures WellFormed(Install(s, v)) && Separated(Install(s, v))
  {
    hide RoomForANode, Sorted;
    var t := Install(s, v);
    InstalledNodes(s, v);
    forall k, e | k in t.index && e in NodeAt(t, k) ensures Routes(t.index.Keys, k, e.key) {
      if k != v.key {
        assert Routes(s.index.Keys, k, e.key);
        OffTheWay(s, v, k, e);
      }
    }
  }

  lemma InstallPuts(s: State, v: Pair)
    requires Sound(s) && RoomForANode(s, v)
    ensures WellFormed(Install(s, v)) && Puts(s, Install(s, v), v)
  {
    hide RoomForANode, Sorted, Separated;
    var t := Install(s, v);
    InstalledNodes(s, v);
    forall e ensures Holds(t, e) <==> e == v || (Holds(s, e) && e.key != v.key) {
      if e == v { assert v.key in t.index && e in NodeAt(t, v.key); }
      if Holds(s, e) {
        var k :| k in s.index && e in NodeAt(s, k);
        OffTheWay(s, v, k, e);
        assert k in t.index && e in NodeAt(t, k);
      }
      if Holds(t, e) && e != v {
        var k :| k in t.index && e in NodeAt(t, k);
        assert k in s.index && e in NodeAt(s, k);
        OffTheWay(s, v, k, e);
      }
    }
  }

  lemma NothingIsReplaced(s: State, v: Pair)
    requires Sound(s) && RoomForANode(s, v)
    ensures Answers(None, e => Holds(s, e), v.key)
  {
    hide RoomForANode, Sorted, Separated;
    forall e: Pair | e.key == v.key ensures !Holds(s, e) {
      if Holds(s, e) {
        var k :| k in s.index && e in NodeAt(s, k);
        OffTheWay(s, v, k, e);
        assert false;
      }
    }
  }

  /** Without room an entry is dropped, replaced without being answered, or cut off by the new key. */
  lemma NoRoom(s: State, v: Pair)
    requires Sound(s) && !RoomForANode(s, v)
    ensures WellFormed(Install(s, v))
    ensures !(Separated(Install(s, v)) && Puts(s, Install(s, v), v) && Answers(None, e => Holds(s, e), v.key))
  {
    hide Sorted;
    var t := Install(s, v);
    InstalledNodes(s, v);
    var k := Locate(s.index.Keys, v.key);
    var n := NodeAt(s, k);
    var e := if k < v.key then n[|n| - 1] else n[0];
    assert e in n && Holds(s, e);
    if Separated(t) && Puts(s, t, v) && Answers(None, x => Holds(s, x), v.key) {
      assert e.key != v.key;
      assert Holds(t, e);
      var j :| j in t.index && e in NodeAt(t, j);
      assert Routes(t.index.Keys, j, e.key);
      assert j != v.key;
      EntryAt(s, k, j, e);
      assert false;
    }
  }

  // ---------------------------------------------------------------- two first nodes

  lemma CallAndCreate(m: Machine, t: ThreadId, v: Pair) returns (called: Machine, creating: Machine)
    requires Ok(m) && t !in m.threads && m.shared.index == map[]
    ensures Ok(creating) && IsRun([m, called, creating], [Invoke(t, Put(v)), Run(t)])
    ensures creating == m.(threads := m.threads[t := Creating(v)])
  {
    called := Next(m, Invoke(t, Put(v)));
    NextOk(m, Invoke(t, Put(v)));
    creating := Next(called, Run(t));
    NextOk(called, Run(t));
    Two(m, Invoke(t, Put(v)), called, Run(t), creating);
  }

  lemma Create(m: Machine, t: ThreadId, v: Pair) returns (m': Machine)
    requires Ok(m) && t in m.threads && m.threads[t] == Creating(v)
    ensures Ok(m') && IsRun([m, m'], [Run(t)])
    ensures m' == Machine(Install(m.shared, v), m.threads - {t},
                          m.returned + [Return(t, Put(v), None, [Logged(m.shared.nextEvent, CreateNode(v))])])
  {
    m' := Next(m, Run(t));
    NextOk(m, Run(t));
    assert Number([CreateNode(v)], m.shared.nextEvent) == [Logged(m.shared.nextEvent, CreateNode(v))];
  }

  function TwoEntries(): State {
    State(map[5 := 0], map[0 := [P(2), P(5)]], 1, 2, 2)
  }

  function TwoFirstNodes(): State {
    State(map[5 := 0, 3 := 1], map[0 := [P(2), P(5)], 1 := [P(3)]], 2, 3, 2)
  }

  lemma PutTwo()
    ensures 5 in Single().index
    ensures EditForPut(Single(), P(2)) == (TwoEntries(), Edit(None, [InsertAt(5, P(2), 0)], None))
  {
    var s, n := Single(), [P(5)];
    assert 5 in s.index && s.index.Keys == {5};
    assert Locate(s.index.Keys, 2) == 5;
    PointUnique(n, 2, 0);
    assert Stored(n, P(2)) == [P(2), P(5)];
    assert s.heap[0 := [P(2), P(5)]] == TwoEntries().heap;
  }

  lemma TwoIsHidden()
    ensures WellFormed(TwoFirstNodes())
    ensures Holds(TwoFirstNodes(), P(2)) && Lookup(TwoFirstNodes(), 2) == None
  {
    var s := TwoFirstNodes();
    assert 5 in s.index && NodeAt(s, 5) == [P(2), P(5)] && P(2) in NodeAt(s, 5);
    assert s.index.Keys == {3, 5};
    assert Locate({3, 5}, 2) == 3;
    PointUnique([P(3)], 2, 0);
  }

  /** Two threads find the empty set empty; a third stores 2 in the node that the first created; then
      the second creates its node, with the key 3, and 2 is looked for there. */
  lemma TwoFirstNodesHideAnEntry() returns (ms: seq<Machine>, steps: seq<Step>)
    ensures IsRun(ms, steps) && |steps| == 8 && ms[0] == Machine(Empty(2), map[], [])
    ensures forall i :: 0 <= i < |steps| && steps[i].Invoke? ==> steps[i].req.Put?
    ensures Ok(ms[8]) && ms[8].threads == map[] && |ms[8].returned| == 3
    ensures Holds(ms[8].shared, P(2)) && Lookup(ms[8].shared, 2) == None
  {
    hide Next, IsRun, EditForPut, Ok, Number, Holds, Lookup;
    var m0 := Machine(Empty(2), map[], []);
    SingleIsOk();
    EmptyIsOk();
    var m1, m2 := CallAndCreate(m0, 1, P(5));
    var m3, m4 := CallAndCreate(m2, 2, P(3));
    var m5 := Create(m4, 1, P(5));
    PutTwo();
    var m6, m7 := CallAndReturn(m5, 3, P(2), TwoEntries(), Edit(None, [InsertAt(5, P(2), 0)], None));
    var m8 := Create(m7, 2, P(3));
    assert m8.shared == TwoFirstNodes();
    TwoIsHidden();
    var xs := [[Invoke(1, Put(P(5))), Run(1)], [Invoke(2, Put(P(3))), Run(2)], [Run(1)], [Invoke(3, Put(P(2))), Run(3)], [Run(2)]];
    Meet([m0, m1, m2], [m2, m3, m4], xs[0], xs[1]);
    Meet([m0, m1, m2] + [m3, m4], [m4, m5], xs[0] + xs[1], xs[2]);
    Meet([m0, m1, m2] + [m3, m4] + [m5], [m5, m6, m7], xs[0] + xs[1] + xs[2], xs[3]);
    Meet([m0, m1, m2] + [m3, m4] + [m5] + [m6, m7], [m7, m8], xs[0] + xs[1] + xs[2] + xs[3], xs[4]);
    ms := [m0, m1, m2] + [m3, m4] + [m5] + [m6, m7] + [m8];
    steps := xs[0] + xs[1] + xs[2] + xs[3] + xs[4];
  }

  lemma EmptyIsOk()
    ensures Ok(Machine(Empty(2), map[], []))
  {
  }
}
