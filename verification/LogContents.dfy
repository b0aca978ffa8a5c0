/** What the logged events carry besides what a replica needs: the entries themselves. */
module LogContents {
  import opened Basics
  import opened NodeOps
  import opened OrderedKeys
  import opened ConcurrentState
  import opened Separation
  import opened Sequential
  import opened ChangeLog

  /** Every entry logged as removed is e. */
  ghost predicate RemovalsCarry(events: seq<Event>, e: Pair) {
    forall i :: 0 <= i < |events| && events[i].RemoveAt? ==> events[i].value == e
  }

  /** Every entry logged as inserted, alone in a new node or not, is v. */
  ghost predicate InsertionsCarry(events: seq<Event>, v: Pair) {
    forall i :: 0 <= i < |events| ==>
      && (events[i].InsertAt? ==> events[i].value == v)
      && (events[i].CreateNode? ==> events[i].first == v)
  }

  /** r holds an entry where a removal says it does. */
  predicate Names(r: Replica, e: Event)
    requires e.RemoveAt?
  {
    e.max in r && e.at < |r[e.max]| && r[e.max][e.at].key == e.value.key
  }

  /** Every removal names, in the replica at that moment, a node and the place of an entry with the
      key logged; unless `renewed`, the entry itself is the one logged. */
  ghost predicate RemovalsName(nodes: Replica, events: seq<Event>, renewed: bool) {
    forall i :: 0 <= i < |events| && events[i].RemoveAt? ==>
      var r := Replay(nodes, events[..i]);
      && r.Some? && Names(r.value, events[i])
      && (!renewed ==> r.value[events[i].max][events[i].at] == events[i].value)
  }

  /** An insertion right after a removal goes where the removal was. */
  ghost predicate InsertionsFollow(events: seq<Event>) {
    forall i :: 0 <= i && i + 1 < |events| && events[i].RemoveAt? && events[i + 1].InsertAt? ==>
      events[i + 1].max == events[i].max && events[i + 1].at == events[i].at
  }

  // ---------------------------------------------------------------- remove

  /** In any state the first phase of a remove logs what it takes out. */
  lemma RemovePhaseLogs(s: State, key: int)
    requires WellFormed(s)
    ensures var e := EditForRemove(s, key).1;
            && (e.result.None? ==> e.events == [] && e.next == None)
            && (e.result.Some? ==> e.result.value.key == key && RemovalsCarry(e.events, e.result.value))
            && forall i :: 0 <= i < |e.events| ==> e.events[i].RemoveAt?
  {
  }

  lemma RemoveFromManyLogs(s: State, k: int, key: int)
    requires Tight(s) && Ceiling(s.index.Keys, key) == Some(k) && NodeOps.Has(NodeAt(s, k), key) && 1 < |NodeAt(s, k)|
    ensures var (o, n) := (RemoveCall(s, key), NodeAt(s, k));
            o.events == [RemoveAt(k, n[Point(n, key)], Point(n, key))] && o.result == Some(n[Point(n, key)])
  {
    EditForRemoveKeeps(s, key);
    var n := NodeAt(s, k);
    var e := EditForRemove(s, key).1;
    assert e.events == [RemoveAt(k, n[Point(n, key)], Point(n, key))];
    assert e.events + [] == e.events;
  }

  /** A remove logs the entry that it answers, at its place in the replica, and logs no insertion; one
      that answers nothing logs nothing. */
  lemma RemoveLogsWhatItAnswers(s: State, key: int)
    requires Tight(s)
    ensures var o := RemoveCall(s, key);
            && (o.result.None? ==> o.events == [])
            && (o.result.Some? ==> RemovalsCarry(o.events, o.result.value) && o.result.value.key == key)
            && RemovalsName(View(s), o.events, false)
            && forall i :: 0 <= i < |o.events| ==> !o.events[i].InsertAt? && !o.events[i].CreateNode?
  {
    match Ceiling(s.index.Keys, key) {
      case None =>
      case Some(k) =>
        if NodeOps.Has(NodeAt(s, k), key) {
          if |NodeAt(s, k)| == 1 {
            LastRemoval(s, k, key);
            RemoveFromTightens(s, key, k);
          } else {
            RemoveFromManyLogs(s, k, key);
            assert RemoveCall(s, key).events[..0] == [];
            ReplayNothing(View(s));
          }
        }
    }
  }

  // ---------------------------------------------------------------- put

  /** In any state, storing into a half logs the prior entry, if any, and the value, at one place. */
  lemma StoreLogs(n: Node, v: Pair)
    requires Sorted(n) && n != []
    ensures var events := StoreEvents(n, v);
            && (if Find(n, v.key).Some? then
                  events == [RemoveAt(Max(n), Find(n, v.key).value, Point(n, v.key)), InsertAt(Max(n), v, Point(n, v.key))]
                else events == [InsertAt(Max(n), v, Point(n, v.key))])
            && InsertionsCarry(events, v) && InsertionsFollow(events)
  {
  }

  /** The half that a value is stored into. */
  function HalfOf(n: Node, v: Pair): Node
    requires n != []
  {
    var h := |n| / 2;
    if h != 0 && v.key <= n[h - 1].key then n[..h] else n[h..]
  }

  /** The events of a split are the cut and then those of storing into one half. */
  lemma SplitEvents(s: State, id: NodeId, k: int, v: Pair)
    requires WellFormed(s) && Accepted(s, id, k)
    ensures var (verdict, n) := (CommitSplit(s, id, k, v).1, NodeAt(s, k));
            && Sorted(HalfOf(n, v)) && HalfOf(n, v) != []
            && verdict == Done(Find(HalfOf(n, v), v.key), [SplitNode(Max(n), |n| / 2)] + StoreEvents(HalfOf(n, v), v))
  {
    hide Sorted, CommitSplit, StoreInHalf, StoreEvents, Find;
    HalvesFit(NodeAt(s, k));
    var p := CommitSplitShape(s, id, k, v);
    HalfStores(NodeAt(s, k), v);
  }

  lemma HalfStores(n: Node, v: Pair)
    requires n != []
    ensures var p := StoreInHalf(n[..|n| / 2], n[|n| / 2..], v);
            HalfOf(n, v) != [] && p.prior == Find(HalfOf(n, v), v.key) && p.events == StoreEvents(HalfOf(n, v), v)
  {
    hide Find, StoreEvents, Stored;
  }

  /** In any state an accepted split logs the entry that it answers as replaced, and the value put. */
  lemma SplitLogsWhatItAnswers(s: State, id: NodeId, k: int, v: Pair)
    requires WellFormed(s) && Accepted(s, id, k)
    ensures var verdict := CommitSplit(s, id, k, v).1;
            && verdict.Done?
            && (verdict.prior.Some? ==> RemovalsCarry(verdict.events, verdict.prior.value))
            && (verdict.prior.Some? <==> exists i :: 0 <= i < |verdict.events| && verdict.events[i].RemoveAt?)
            && (exists i :: 0 <= i < |verdict.events| && verdict.events[i].InsertAt?)
            && InsertionsCarry(verdict.events, v) && InsertionsFollow(verdict.events)
  {
    hide CommitSplit, Sorted, StoreEvents, Find, HalfOf, WellFormed;
    SplitEvents(s, id, k, v);
    StoreLogs(HalfOf(NodeAt(s, k), v), v);
    AfterTheCut(SplitNode(Max(NodeAt(s, k)), |NodeAt(s, k)| / 2), StoreEvents(HalfOf(NodeAt(s, k), v), v));
    var events := CommitSplit(s, id, k, v).1.events;
    if |events| == 3 {
      assert events[1].RemoveAt? && events[2].InsertAt?;
    } else {
      assert events[1].InsertAt?;
    }
  }

  lemma AfterTheCut(cut: Event, stored: seq<Event>)
    requires cut.SplitNode?
    ensures var events := [cut] + stored;
            && |events| == 1 + |stored| && events[0] == cut
            && forall i :: 0 < i < |events| ==> events[i] == stored[i - 1]
  {
  }

  lemma StoringNamesThePrior(nodes: Replica, cut: Event, r: Replica, half: Node, v: Pair)
    requires cut.SplitNode? && Replay(nodes, [cut]) == Some(r)
    requires half != [] && Sorted(half) && Max(half) in r && r[Max(half)] == half
    ensures RemovalsName(nodes, [cut] + StoreEvents(half, v), false)
  {
    hide Sorted, StoreEvents, Replay;
    StoreLogs(half, v);
    AfterTheCut(cut, StoreEvents(half, v));
    assert ([cut] + StoreEvents(half, v))[..1] == [cut];
  }

  /** A removal logged by a split names the prior entry at its place in the half, once the replica
      has cut the node. */
  lemma SplitNamesThePrior(s: State, k: int, v: Pair)
    requires Tight(s) && k in s.index && 2 <= |NodeAt(s, k)|
    ensures var verdict := CommitSplit(s, s.index[k], k, v).1;
            verdict.Done? && RemovalsName(View(s), verdict.events, false)
  {
    hide CommitSplit, Sorted, StoreEvents, Separated, Injective, Replay, RemovalsName, HalfOf;
    var n := NodeAt(s, k);
    var nodes, cut := View(s), SplitNode(k, |n| / 2);
    SplitEvents(s, s.index[k], k, v);
    CutReplays(nodes, n);
    HalfIsNamed(nodes, n, v);
    StoringNamesThePrior(nodes, cut, Replay(nodes, [cut]).value, HalfOf(n, v), v);
  }

  lemma HalfIsNamed(nodes: Replica, n: Node, v: Pair)
    requires Sorted(n) && 2 <= |n|
    ensures var (h, half) := (|n| / 2, HalfOf(n, v));
            && Max(n[..h]) == n[h - 1].key && Max(n[h..]) == Max(n) && Max(n[..h]) < Max(n) && half != []
            && var r := nodes[Max(n) := n[h..]][Max(n[..h]) := n[..h]];
               Max(half) in r && r[Max(half)] == half
  {
  }

  /** The log of a put, whatever the put does: the value put is logged as inserted.  A put that splits
      logs as removed the entry it answers, by name and place; one that replaces in place logs the new
      entry as removed, at the place of the old. */
  lemma PutLogsItsValue(s: State, v: Pair)
    requires Tight(s)
    ensures var o := PutCall(s, v);
            && InsertionsCarry(o.events, v)
            && (exists i :: 0 <= i < |o.events| && (o.events[i].InsertAt? || o.events[i].CreateNode?))
            && (SplitsAt(s, v) ==>
                  && (o.result.Some? ==> RemovalsCarry(o.events, o.result.value))
                  && RemovalsName(View(s), o.events, false) && InsertionsFollow(o.events))
            && (!SplitsAt(s, v) ==> RemovalsCarry(o.events, v) && RemovalsName(View(s), o.events, true))
  {
    if s.index == map[] {
      assert PutCall(s, v).events[0].CreateNode?;
    } else if SplitsAt(s, v) {
      var k := Locate(s.index.Keys, v.key);
      SplitCallAnswers(s, v);
      SplitLogsWhatItAnswers(s, s.index[k], k, v);
      SplitNamesThePrior(s, k, v);
    } else {
      StoringPutLogs(s, v);
    }
  }

  ghost predicate SplitsAt(s: State, v: Pair)
    requires WellFormed(s)
  {
    s.index != map[] && s.cap <= |NodeAt(s, Locate(s.index.Keys, v.key))|
  }

  lemma SplitCallAnswers(s: State, v: Pair)
    requires Tight(s) && SplitsAt(s, v)
    ensures var k := Locate(s.index.Keys, v.key);
            var verdict := CommitSplit(s, s.index[k], k, v).1;
            verdict.Done? && PutCall(s, v).events == verdict.events && PutCall(s, v).result == verdict.prior
  {
    SplitCallIsCommit(s, v);
    EditForPutKeeps(s, v);
    EditForPutShape(s, v);
  }

  lemma StoringPutLogs(s: State, v: Pair)
    requires Tight(s) && s.index != map[] && !SplitsAt(s, v)
    ensures var o := PutCall(s, v);
            && InsertionsCarry(o.events, v) && RemovalsCarry(o.events, v)
            && (exists i :: 0 <= i < |o.events| && (o.events[i].InsertAt? || o.events[i].CreateNode?))
            && RemovalsName(View(s), o.events, true)
  {
    hide Sorted, Separated, Injective, Find, Stored;
    EditForPutKeeps(s, v);
    var k := Locate(s.index.Keys, v.key);
    var n := NodeAt(s, k);
    var e := EditForPut(s, v).1;
    assert PutCall(s, v).events == e.events;
    ReplayNothing(View(s));
    assert e.events[..0] == [];
    if NodeOps.Has(n, v.key) {
      assert e.events == ReplaceEvents(n, v);
      assert e.events[1].InsertAt? || e.events[1].CreateNode?;
    } else {
      assert e.events[0].InsertAt?;
    }
  }

  /** A put into a node that a remove has emptied logs an insertion into a node of the put's own key, so
      a replica without such a node never sees the entry. */
  lemma PutIntoAnEmptiedNodeIsNotReplayed(s: State, v: Pair, nodes: Replica)
    requires WellFormed(s) && s.index != map[] && NodeAt(s, Locate(s.index.Keys, v.key)) == [] && v.key !in nodes
    ensures var (t, e) := EditForPut(s, v);
            && t.heap[s.index[Locate(s.index.Keys, v.key)]] == [v] && e.result == None && e.next == None
            && |e.events| == 1 && InsertionsCarry(e.events, v)
            && Replay(nodes, e.events) == Some(nodes)
  {
    PointUnique([], v.key, 0);
    var e := EditForPut(s, v).1;
    assert e.events == [InsertAt(v.key, v, 0)];
    assert Persist(nodes, e.events[0]) == Some(nodes);
    assert e.events[1..] == [];
  }
}
