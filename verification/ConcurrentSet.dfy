/**
 The concurrent set as an object whose methods run the program's statements.

 Each method is proved equal to the transition functions of `ConcurrentState` and `Sequential`.
 The two calls are stated for a caller that is not interfered with; interference is the subject of
 `Interleaving`.
 */
module ConcurrentSet {
  import opened Basics
  import opened NodeOps
  import opened OrderedKeys
  import opened ConcurrentState
  import opened Separation
  import opened MapView
  import opened Sequential

  /** `Present` hands back the locked node when the key is already there, `Deferred` an operation
      to commit under the exclusive lock. */
  datatype Checked =
    | Settled(result: Option<Pair>, cdc: seq<Logged>)
    | Present(node: NodeId, at: nat, max: int)
    | Deferred(op: Op, cdc: seq<Logged>)

  class BTreeSet {
    var index: map<int, NodeId>
    var heap: map<NodeId, Node>
    var nextNode: nat
    var eventId: nat
    const nodeCapacity: nat
    /** The map that the set stands for between calls. */
    ghost var contents: map<int, int>

    ghost function Now(): State
      reads this
    {
      State(index, heap, nextNode, eventId, nodeCapacity)
    }

    ghost predicate Valid()
      reads this
    {
      Tight(Now()) && Represents(Now(), contents)
    }

    constructor (nodeCapacity: nat)
      requires 2 <= nodeCapacity
      ensures Valid() && Now() == Empty(nodeCapacity) && contents == map[]
    {
      index, heap, nextNode, eventId, contents := map[], map[], 0, 0, map[];
      this.nodeCapacity := nodeCapacity;
    }

    /** Takes ids for events from the shared counter. */
    method AssignIds(events: seq<Event>) returns (logged: seq<Logged>)
      modifies this`eventId
      ensures logged == Number(events, old(eventId)) && eventId == old(eventId) + |events|
    {
      logged := [];
      for i := 0 to |events|
        invariant eventId == old(eventId) + i && logged == Number(events[..i], old(eventId))
      {
        logged := logged + [Logged(eventId, events[i])];
        eventId := eventId + 1;
        assert events[..i + 1] == events[..i] + [events[i]];
      }
      assert events[..|events|] == events;
    }

    /** The second phase; ids are assigned by the caller. */
    method Commit(op: Op) returns (verdict: Verdict)
      requires WellFormed(Now()) && op.node in heap
      modifies this`index, this`heap, this`nextNode
      ensures var (s, v) := ConcurrentState.Commit(old(Now()), op);
              verdict == v && Now() == s.(nextEvent := old(eventId))
    {
      match op {
        case Split(node, oldMax, value) =>
          if oldMax in index && index[oldMax] == node {
            verdict := CommitSplit(node, oldMax, value);
            return;
          }
          return Rejected;
        case UpdateMax(node, oldMax) =>
          var guard := heap[node];
          if guard == [] {
            return Done(None, []);
          }
          var newMax := Max(guard);
          if oldMax in index && index[oldMax] == node {
            if newMax != oldMax {
              index := index - {oldMax};
              index := index[newMax := node];
            }
            return Done(None, []);
          }
          return Rejected;
        case MakeUnreachable(node, oldMax) =>
          var guard := heap[node];
          if oldMax in index && index[oldMax] == node {
            if guard == [] || Max(guard) < oldMax {
              index := index - {oldMax};
              return Done(None, [RemoveNode(oldMax)]);
            }
            return Rejected;
          }
          return Rejected;
      }
    }

    method CommitSplit(node: NodeId, oldMax: int, value: Pair) returns (verdict: Verdict)
      requires WellFormed(Now()) && node in heap && oldMax in index && index[oldMax] == node
      modifies this`index, this`heap, this`nextNode
      ensures var (s, v) := ConcurrentState.CommitSplit(old(Now()), node, oldMax, value);
              verdict == v && Now() == s.(nextEvent := old(eventId))
    {
      hide Below, Sorted, StoreInHalf;
      var guard := heap[node];
      if guard == [] {
        return Panicked;
      }
      var maxValue := Max(guard);
      index := index - {oldMax};
      var lower, upper := Halve(guard);
      ghost var h := |guard| / 2;
      assert lower == guard[..h] && upper == guard[h..];
      assert Sorted(lower) && Sorted(upper) by { CutMeaning(guard, h); }
      var p := StoreIntoHalf(lower, upper, value);
      if lower != [] {
        index := index[Max(lower) := node];
      }
      heap := heap[node := p.left][nextNode := p.right];
      index := index[p.rightKey := nextNode];
      nextNode := nextNode + 1;
      verdict := Done(p.prior, [SplitNode(maxValue, |lower|)] + p.events);
    }

    /** Tries the lower half first; the upper half only if the lower one was not attempted. */
    static method StoreIntoHalf(lower: Node, upper: Node, value: Pair) returns (p: Halves)
      requires Sorted(lower) && Sorted(upper) && upper != []
      ensures p == StoreInHalf(lower, upper, value)
    {
      var attempted := false;
      if lower != [] {
        if value.key <= Max(lower) {
          var lower', prior, events := StoreInto(lower, value);
          attempted := true;
          p := Halves(lower', upper, Max(upper), prior, events);
        }
      }
      if !attempted {
        var max := Max(upper);
        var upper', prior, events := StoreInto(upper, value);
        FindMeaning(upper, value.key);
        if prior.None? && max < value.key {
          max := value.key;
        }
        p := Halves(lower, upper', max, prior, events);
      }
    }

    /** Inserts the value or replaces the entry with its key, with the events of doing so. */
    static method StoreInto(n: Node, value: Pair) returns (n': Node, prior: Option<Pair>, events: seq<Event>)
      requires Sorted(n) && n != []
      ensures n' == Stored(n, value) && prior == Find(n, value.key) && events == StoreEvents(n, value)
    {
      var inserted, idx;
      n', inserted, idx := NodeOps.Insert(n, value);
      events := [];
      prior := None;
      if !inserted {
        n', prior := Replace(n', idx, value);
        events := [RemoveAt(Max(n), prior.value, idx)];
      }
      events := events + [InsertAt(Max(n), value, idx)];
    }

    /** Where a value belongs: the first key not below it, else the last key. */
    method LocateKey(value: int) returns (k: int)
      requires index != map[]
      ensures k == Locate(index.Keys, value)
    {
      var ceiling := LowerBound(index.Keys, value);
      if ceiling.Some? {
        return ceiling.value;
      }
      var last := Back(index.Keys);
      k := last.value;
    }

    /** Looks a key up by locating its node and searching it. */
    method Get(key: int) returns (r: Option<Pair>)
      requires WellFormed(Now())
      ensures r == Lookup(Now(), key)
      ensures Valid() ==> r == Entry(contents, key)
    {
      if Valid() {
        LookupAnswers(Now(), key);
        AnswerIsEntry(Now(), contents, Lookup(Now(), key), key);
      }
      if index == map[] {
        return None;
      }
      var k := LocateKey(key);
      var found := SearchNode(heap[index[k]], key);
      match found {
        case Found(at) => r := Some(heap[index[k]][at]);
        case Missing(_) => r := None;
      }
    }

    /** What the first phase of a put amounts to when it does not have to replace an entry. */
    static ghost function Settles(e: Edit, firstId: nat): Checked {
      match e.next
      case None => Settled(e.result, Number(e.events, firstId))
      case Some(op) => Deferred(op, Number(e.events, firstId))
    }

    /** The first phase of a put: route, lock the node and insert if there is room. */
    method PutPhase(value: Pair) returns (r: Checked)
      requires Sound(Now()) && index != map[]
      modifies this`heap, this`eventId
      ensures var s := old(Now());
              var k := Locate(s.index.Keys, value.key);
              var n := NodeAt(s, k);
              var (t, e) := EditForPut(s, value);
              if |n| < nodeCapacity && NodeOps.Has(n, value.key)
              then Now() == s && r == Present(s.index[k], Point(n, value.key), Max(n))
              else Now() == t && r == Settles(e, s.nextEvent)
    {
      ghost var s := Now();
      EditForPutShape(s, value);
      var k := LocateKey(value.key);
      var id := index[k];
      var guard := heap[id];
      if nodeCapacity <= |guard| {
        return Deferred(Split(id, k, value), []);
      }
      StoredMeaning(guard, value);
      var oldMax := Max(guard);
      var guard', inserted, idx := NodeOps.Insert(guard, value);
      if !inserted {
        return Present(id, idx, oldMax);
      }
      var cdc := AssignIds([InsertAt(oldMax, value, idx)]);
      heap := heap[id := guard'];
      if Max(guard') == oldMax {
        return Settled(None, cdc);
      }
      r := Deferred(UpdateMax(id, oldMax), cdc);
    }

    /** Replaces the entry that `PutPhase` found, with the events of doing so. */
    method ReplacePhase(value: Pair, node: NodeId, idx: nat, max: int) returns (result: Option<Pair>, cdc: seq<Logged>)
      requires Sound(Now()) && index != map[]
      requires var k := Locate(index.Keys, value.key);
               var n := NodeAt(Now(), k);
               && |n| < nodeCapacity && NodeOps.Has(n, value.key)
               && node == index[k] && idx == Point(n, value.key) && max == Max(n)
      modifies this`heap, this`eventId
      ensures var (t, e) := EditForPut(old(Now()), value);
              Now() == t && e.next == None && result == e.result && cdc == Number(e.events, old(eventId))
    {
      EditForPutShape(Now(), value);
      var guard := heap[node];
      StoredMeaning(guard, value);
      var events;
      if |guard| == 1 {
        events := [RemoveNode(max), CreateNode(value)];
      } else if idx == |guard| - 1 {
        events := [RemoveAt(max, value, idx), InsertAt(guard[|guard| - 2].key, value, idx)];
      } else {
        events := [RemoveAt(max, value, idx), InsertAt(max, value, idx)];
      }
      cdc := AssignIds(events);
      guard, result := Replace(guard, idx, value);
      heap := heap[node := guard];
    }

    method CreateFirst(value: Pair) returns (cdc: seq<Logged>)
      modifies this`index, this`heap, this`nextNode, this`eventId
      ensures Now() == Install(old(Now()), value) && cdc == Number([CreateNode(value)], old(eventId))
    {
      var node := [value];
      cdc := AssignIds([CreateNode(value)]);
      index := index[value.key := nextNode];
      heap := heap[nextNode := node];
      nextNode := nextNode + 1;
    }

    /** Commits under the exclusive lock and takes ids for the resulting events. */
    method CommitAndNumber(op: Op) returns (verdict: Verdict, cdc: seq<Logged>)
      requires WellFormed(Now()) && op.node in heap
      modifies this`index, this`heap, this`nextNode, this`eventId
      ensures (Now(), verdict) == ConcurrentState.Commit(old(Now()), op)
      ensures cdc == if verdict.Done? then Number(verdict.events, old(eventId)) else []
    {
      CommitKeeps(Now(), op);
      verdict := Commit(op);
      cdc := [];
      if verdict.Done? {
        cdc := AssignIds(verdict.events);
      }
    }

    /** What the checked insertion of a value does, as a whole. */
    twostate predicate InsertedOrFound(value: Pair, r: Checked)
      requires old(Tight(Now()))
      reads this
    {
      var s := old(Now());
      if r.Settled? then
        var o := PutCall(s, value);
        Now() == o.after && r == Settled(o.result, Number(o.events, s.nextEvent))
      else
        && s.index != map[] && Now() == s
        && var k := Locate(s.index.Keys, value.key);
           var n := NodeAt(s, k);
           && |n| < nodeCapacity && NodeOps.Has(n, value.key)
           && r == Present(s.index[k], Point(n, value.key), Max(n))
    }

    /** The second phase of a put that was handed on. */
    method CommitDeferred(value: Pair, first: Checked, ghost s: State) returns (r: Checked, again: bool)
      requires Tight(s) && s.index != map[] && first.Deferred?
      requires var (t, e) := EditForPut(s, value);
               Now() == t && WellFormed(t) && first == Settles(e, s.nextEvent)
      modifies this`index, this`heap, this`nextNode, this`eventId
      ensures var o := PutCall(s, value);
              !again && Now() == o.after && r == Settled(o.result, Number(o.events, s.nextEvent))
    {
      hide EditForPut, ConcurrentState.Commit, Separated, Injective, Sorted, Puts, Answers;
      PutTightens(s, value);
      EditForPutKeeps(s, value);
      ghost var e := EditForPut(s, value).1;
      CommitKeeps(Now(), first.op);
      r := first;
      var verdict, more := CommitAndNumber(first.op);
      if verdict.Done? {
        NumberAppend(e.events, verdict.events, s.nextEvent);
        r := Settled(verdict.prior, first.cdc + more);
      }
      again := verdict.Rejected?;
    }

    /** One round; `again` after a rejected split, which cannot happen without interference. */
    method PutRound(value: Pair) returns (r: Checked, again: bool)
      requires Tight(Now())
      modifies this`index, this`heap, this`nextNode, this`eventId
      ensures !again && InsertedOrFound(value, r)
    {
      hide Separated, Injective, Sorted;
      again := false;
      if index == map[] {
        var cdc := CreateFirst(value);
        return Settled(None, cdc), false;
      }
      ghost var s := Now();
      EditForPutKeeps(s, value);
      r := PutPhase(value);
      if r.Deferred? {
        r, again := CommitDeferred(value, r, s);
      }
    }

    /** Inserts a value whose key is absent, or hands back the node that has it. */
    method PutCdcChecked(value: Pair) returns (r: Checked)
      requires Tight(Now())
      modifies this`index, this`heap, this`nextNode, this`eventId
      ensures InsertedOrFound(value, r)
    {
      var again := true;
      r := Settled(None, []);
      while again
        invariant again ==> Now() == old(Now())
        invariant !again ==> InsertedOrFound(value, r)
        decreases again
      {
        r, again := PutRound(value);
      }
    }

    /** Stores a value and returns the entry it replaces. */
    method PutCdc(value: Pair) returns (result: Option<Pair>, cdc: seq<Logged>)
      requires Valid()
      modifies this
      ensures Valid() && contents == old(contents)[value.key := value.val]
      ensures result == Entry(old(contents), value.key)
      ensures var o := PutCall(old(Now()), value);
              Now() == o.after && cdc == Number(o.events, old(eventId))
    {
      PutRefines(Now(), value, contents);
      var r := PutCdcChecked(value);
      if r.Settled? {
        result, cdc := r.result, r.cdc;
      } else {
        EditForPutKeeps(Now(), value);
        result, cdc := ReplacePhase(value, r.node, r.at, r.max);
      }
      contents := contents[value.key := value.val];
    }

    /** The first phase of a remove. */
    method RemovePhase(key: int) returns (result: Option<Pair>, next: Option<Op>, cdc: seq<Logged>)
      requires Tight(Now())
      modifies this`heap, this`eventId
      ensures var (t, e) := EditForRemove(old(Now()), key);
              Now() == t && result == e.result && next == e.next && cdc == Number(e.events, old(eventId))
    {
      var k := LowerBound(index.Keys, key);
      if k.None? {
        return None, None, [];
      }
      var id := index[k.value];
      var guard := heap[id];
      var oldMax := Max(guard);
      var guard', deleted := NodeOps.Delete(guard, key);
      if deleted.None? {
        return None, None, [];
      }
      result := Some(deleted.value.0);
      heap := heap[id := guard'];
      if guard' == [] {
        return result, Some(MakeUnreachable(id, oldMax)), [];
      }
      cdc := AssignIds([RemoveAt(oldMax, deleted.value.0, deleted.value.1)]);
      next := if Max(guard') == oldMax then None else Some(UpdateMax(id, oldMax));
    }

    /** Both phases of a remove. */
    method RemovePhases(key: int) returns (result: Option<Pair>, cdc: seq<Logged>)
      requires Tight(Now())
      modifies this`index, this`heap, this`nextNode, this`eventId
      ensures var o := RemoveCall(old(Now()), key);
              Now() == o.after && result == o.result && cdc == Number(o.events, old(eventId))
    {
      hide EditForRemove, ConcurrentState.Commit, Separated, Injective, Sorted;
      ghost var s := Now();
      EditForRemoveKeeps(s, key);
      ghost var e := EditForRemove(s, key).1;
      var next;
      result, next, cdc := RemovePhase(key);
      if next.Some? {
        var verdict, more := CommitAndNumber(next.value);
        if verdict.Done? {
          NumberAppend(e.events, verdict.events, s.nextEvent);
        }
        cdc := cdc + more;
      }
    }

    /** Removes the entry with a key and returns it. */
    method RemoveCdc(key: int) returns (result: Option<Pair>, cdc: seq<Logged>)
      requires Valid()
      modifies this
      ensures Valid() && contents == old(contents) - {key}
      ensures result == Entry(old(contents), key)
      ensures var o := RemoveCall(old(Now()), key);
              Now() == o.after && cdc == Number(o.events, old(eventId))
    {
      RemoveRefines(Now(), key, contents);
      result, cdc := RemovePhases(key);
      contents := contents - {key};
    }
  }
}
