/**
 Calls run to completion one after another.

 Between calls the set is tight: partitioned, with every index key the maximum of its node.  From
 a tight set every commit succeeds at the first attempt, and the calls refine a finite map.
 */
module Sequential {
  import opened Basics
  import opened NodeOps
  import opened OrderedKeys
  import opened ConcurrentState
  import opened Separation
  import opened MapView

  ghost predicate Tight(s: State) {
    Sound(s) && forall k :: k in s.index ==> Max(NodeAt(s, k)) == k
  }

  /** A whole call: its result, its events, and whether its commit went through. */
  datatype Outcome = Outcome(after: State, result: Option<Pair>, events: seq<Event>, committed: bool)

  ghost function Complete(s: State, e: Edit): Outcome
    requires e.next.Some? ==> e.next.value.node in s.heap
  {
    match e.next
    case None => Outcome(s, e.result, e.events, true)
    case Some(op) =>
      match Commit(s, op)
      case (t, Done(prior, events)) => Outcome(t, if op.Split? then prior else e.result, e.events + events, true)
      case (t, _) => Outcome(t, e.result, e.events, false)
  }

  ghost function PutCall(s: State, v: Pair): Outcome
    requires WellFormed(s)
  {
    if s.index == map[] then Outcome(Install(s, v), None, [CreateNode(v)], true)
    else
      EditForPutKeeps(s, v);
      var (t, e) := EditForPut(s, v);
      Complete(t, e)
  }

  ghost function RemoveCall(s: State, key: int): Outcome
    requires WellFormed(s)
  {
    EditForRemoveKeeps(s, key);
    var (t, e) := EditForRemove(s, key);
    Complete(t, e)
  }

  // ---------------------------------------------------------------- put

  lemma TightKeysStored(s: State)
    requires Tight(s)
    ensures KeysStored(s)
  {
    forall k | k in s.index ensures exists e :: e in NodeAt(s, k) && e.key == k {
      var n := NodeAt(s, k);
      assert n[|n| - 1] in n;
    }
  }

  /** Re-keying the one node whose maximum moved makes the set tight again. */
  lemma RekeyTightens(s: State, k: int)
    requires Sound(s) && k in s.index
    requires forall j :: j in s.index && j != k ==> Max(NodeAt(s, j)) == j
    ensures var (t, verdict) := CommitUpdateMax(s, s.index[k], k);
            verdict == Done(None, []) && Tight(t) && SameEntries(s, t) && t.nextEvent == s.nextEvent
  {
    CommitUpdateMaxKeeps(s, s.index[k], k);
  }

  lemma StoringPutTightens(s: State, v: Pair)
    requires Tight(s) && s.index != map[] && KeysStored(s)
    requires |NodeAt(s, Locate(s.index.Keys, v.key))| < s.cap
    ensures var o := PutCall(s, v);
            && o.committed && Tight(o.after) && Puts(s, o.after, v)
            && Answers(o.result, e => Holds(s, e), v.key)
  {
    hide Separated, Injective, Puts, Answers, Sorted;
    EditForPutKeeps(s, v);
    EditForPutShape(s, v);
    EditForPutStores(s, v);
    var (t, e) := EditForPut(s, v);
    var k := Locate(s.index.Keys, v.key);
    NodeRewritten(s, t, k, Stored(NodeAt(s, k), v));
    if e.next.Some? {
      RekeyTightens(t, k);
      SameThenPuts(s, t, PutCall(s, v).after, v);
    }
  }

  lemma SplittingPutTightens(s: State, v: Pair)
    requires Tight(s) && s.index != map[] && KeysStored(s)
    requires s.cap <= |NodeAt(s, Locate(s.index.Keys, v.key))|
    ensures var o := PutCall(s, v);
            && o.committed && Tight(o.after) && Puts(s, o.after, v)
            && Answers(o.result, e => Holds(s, e), v.key)
  {
    hide Separated, Injective, Puts, Answers, Sorted, CommitSplit;
    EditForPutKeeps(s, v);
    EditForPutShape(s, v);
    var k := Locate(s.index.Keys, v.key);
    RoutedFits(s, k, v);
    CommitSplitStores(s, s.index[k], k, v);
    SplitLeavesMaxima(s, s.index[k], k, v);
  }

  lemma PutTightens(s: State, v: Pair)
    requires Tight(s) && s.index != map[]
    ensures var o := PutCall(s, v);
            && o.committed && Tight(o.after) && Puts(s, o.after, v)
            && Answers(o.result, e => Holds(s, e), v.key)
  {
    hide PutCall, Puts, Answers, Separated, Sorted, Injective;
    TightKeysStored(s);
    if s.cap <= |NodeAt(s, Locate(s.index.Keys, v.key))| {
      SplittingPutTightens(s, v);
    } else {
      StoringPutTightens(s, v);
    }
  }

  lemma SameThenPuts(s: State, t: State, u: State, v: Pair)
    requires WellFormed(s) && WellFormed(t) && WellFormed(u) && Puts(s, t, v) && SameEntries(t, u)
    ensures Puts(s, u, v)
  {
  }

  lemma FirstPutTightens(s: State, v: Pair)
    requires Tight(s) && s.index == map[]
    ensures var t := Install(s, v);
            Tight(t) && Puts(s, t, v) && Answers(None, e => Holds(s, e), v.key)
  {
    var t := Install(s, v);
    assert t.index.Keys == {v.key} && NodeAt(t, v.key) == [v];
    forall e ensures Holds(t, e) <==> e == v {
      if e == v { assert e in NodeAt(t, v.key); }
    }
  }

  /** A put from a tight set succeeds without a retry, returns the entry it replaces, and leaves a
      tight set that differs at one key. */
  lemma PutRefines(s: State, v: Pair, contents: map<int, int>)
    requires Tight(s) && Represents(s, contents)
    ensures var o := PutCall(s, v);
            && o.committed && Tight(o.after)
            && o.result == Entry(contents, v.key)
            && Represents(o.after, contents[v.key := v.val])
  {
    if s.index == map[] {
      FirstPutTightens(s, v);
    } else {
      PutTightens(s, v);
    }
    AnswerIsEntry(s, contents, PutCall(s, v).result, v.key);
    PutsUpdate(s, PutCall(s, v).after, v, contents);
  }

  // ---------------------------------------------------------------- remove

  /** Entries are removed from the one node that can hold them. */
  lemma RemoveAtKey(s: State, t: State, k: int, key: int)
    requires WellFormed(s) && WellFormed(t) && Separated(s) && Routes(s.index.Keys, k, key)
    requires forall j :: j in t.index ==> j in s.index
    requires forall j, e :: j in s.index && j != k && e in NodeAt(s, j) ==> j in t.index && e in NodeAt(t, j)
    requires forall j, e :: j in t.index && j != k && e in NodeAt(t, j) ==> e in NodeAt(s, j)
    requires forall e :: e in NodeAt(s, k) && e.key != key ==> k in t.index && e in NodeAt(t, k)
    requires forall e :: k in t.index && e in NodeAt(t, k) ==> e in NodeAt(s, k) && e.key != key
    ensures Removes(s, t, key)
  {
    forall e ensures Holds(t, e) <==> Holds(s, e) && e.key != key {
      if Holds(t, e) {
        var j :| j in t.index && e in NodeAt(t, j);
        assert e in NodeAt(s, j);
        if j != k && e.key == key { EntryAt(s, k, j, e); }
      }
      if Holds(s, e) && e.key != key {
        var j :| j in s.index && e in NodeAt(s, j);
        assert j in t.index && e in NodeAt(t, j);
      }
    }
  }

  /** Removing the last entry of a node makes the node unreachable. */
  lemma RemoveLast(s: State, k: int, key: int)
    requires Tight(s) && Routes(s.index.Keys, k, key)
    requires Has(NodeAt(s, k), key) && |NodeAt(s, k)| == 1
    ensures var t := s.(heap := s.heap[s.index[k] := []]);
            var (u, verdict) := CommitMakeUnreachable(t, s.index[k], k);
            && verdict == Done(None, [RemoveNode(k)]) && Tight(u) && Removes(s, u, key)
            && u.index == s.index - {k}
  {
    hide Separated, Removes;
    var t := s.(heap := s.heap[s.index[k] := []]);
    var u := CommitMakeUnreachable(t, s.index[k], k).0;
    assert forall j :: j in u.index ==> NodeAt(u, j) == NodeAt(s, j);
    DroppingStaysSeparated(s, u, k);
    RemoveAtKey(s, u, k, key);
  }

  lemma DroppingStaysSeparated(s: State, u: State, k: int)
    requires WellFormed(s) && Separated(s) && WellFormed(u) && u.index == s.index - {k}
    requires forall j :: j in u.index ==> NodeAt(u, j) == NodeAt(s, j)
    ensures Separated(u)
  {
    forall j, e | j in u.index && e in NodeAt(u, j) ensures Routes(u.index.Keys, j, e.key) {
      assert Routes(s.index.Keys, j, e.key);
    }
  }

  /** Removing one of several entries, with the re-keying that follows when it was the greatest. */
  lemma RemoveOneOfMany(s: State, t: State, k: int, i: nat)
    requires Tight(s) && k in s.index && i < |NodeAt(s, k)| && 1 < |NodeAt(s, k)|
    requires Routes(s.index.Keys, k, NodeAt(s, k)[i].key)
    requires WellFormed(t) && t.index == s.index && t.heap == s.heap[s.index[k] := Removed(NodeAt(s, k), i)]
    ensures Sound(t) && Removes(s, t, NodeAt(s, k)[i].key)
    ensures forall j :: j in t.index && j != k ==> Max(NodeAt(t, j)) == j
  {
    RemovedMeaning(NodeAt(s, k), i);
    RewrittenStaysSound(s, t, k, Removed(NodeAt(s, k), i));
    RemoveAtKey(s, t, k, NodeAt(s, k)[i].key);
  }

  lemma RemoveFromTightens(s: State, key: int, k: int)
    requires Tight(s) && Ceiling(s.index.Keys, key) == Some(k) && Has(NodeAt(s, k), key)
    ensures var o := RemoveCall(s, key);
            && o.committed && Tight(o.after) && Removes(s, o.after, key)
            && o.result == Find(NodeAt(s, k), key)
  {
    EditForRemoveKeeps(s, key);
    var (t, e) := EditForRemove(s, key);
    var n := NodeAt(s, k);
    if |n| == 1 {
      assert Removed(n, Point(n, key)) == [];
      RemoveLast(s, k, key);
    } else {
      RemoveOneOfMany(s, t, k, Point(n, key));
      if e.next.Some? {
        RekeyTightens(t, k);
        SameThenRemoves(s, t, RemoveCall(s, key).after, key);
      }
    }
  }

  lemma RemoveAbsent(s: State, key: int, k: int)
    requires Tight(s) && Ceiling(s.index.Keys, key) == Some(k) && !Has(NodeAt(s, k), key)
    requires Answers(None, e => Holds(s, e), key)
    ensures RemoveCall(s, key) == Outcome(s, None, [], true) && Removes(s, s, key)
  {
  }

  lemma RemoveAtCeiling(s: State, key: int, k: int)
    requires Tight(s) && Ceiling(s.index.Keys, key) == Some(k)
    ensures var o := RemoveCall(s, key);
            && o.committed && Tight(o.after) && Removes(s, o.after, key)
            && Answers(o.result, e => Holds(s, e), key)
  {
    hide RemoveCall, Removes, Answers, Separated, Injective;
    FindMeaning(NodeAt(s, k), key);
    AnswersAt(s, k, Find(NodeAt(s, k), key), key);
    if Has(NodeAt(s, k), key) {
      RemoveFromTightens(s, key, k);
    } else {
      RemoveAbsent(s, key, k);
    }
  }

  lemma RemoveTightens(s: State, key: int)
    requires Tight(s)
    ensures var o := RemoveCall(s, key);
            && o.committed && Tight(o.after) && Removes(s, o.after, key)
            && Answers(o.result, e => Holds(s, e), key)
  {
    hide Separated, Injective;
    EditForRemoveKeeps(s, key);
    match Ceiling(s.index.Keys, key) {
      case None => NothingAbove(s, key);
      case Some(k) => RemoveAtCeiling(s, key, k);
    }
  }

  lemma SameThenRemoves(s: State, t: State, u: State, key: int)
    requires WellFormed(s) && WellFormed(t) && WellFormed(u) && Removes(s, t, key) && SameEntries(t, u)
    ensures Removes(s, u, key)
  {
  }

  /** Nothing is stored above the greatest key of a tight set. */
  lemma NothingAbove(s: State, key: int)
    requires Tight(s) && forall k :: k in s.index ==> k < key
    ensures forall e: Pair :: e.key == key ==> !Holds(s, e)
  {
    forall e: Pair | Holds(s, e) ensures e.key < key {
      var k :| k in s.index && e in NodeAt(s, k);
      AtMostMax(NodeAt(s, k), e);
    }
  }

  lemma RemoveRefines(s: State, key: int, contents: map<int, int>)
    requires Tight(s) && Represents(s, contents)
    ensures var o := RemoveCall(s, key);
            && o.committed && Tight(o.after)
            && o.result == Entry(contents, key)
            && Represents(o.after, contents - {key})
  {
    RemoveTightens(s, key);
    AnswerIsEntry(s, contents, RemoveCall(s, key).result, key);
    RemovesUpdate(s, RemoveCall(s, key).after, key, contents);
  }
}
