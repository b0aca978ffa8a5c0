/** The replica as an object that applies change events in place. */
module ReplicaObject {
  import opened Basics
  import opened NodeOps
  import opened ConcurrentState
  import opened ChangeLog

  class PersistedMap {
    var nodes: Replica

    constructor ()
      ensures nodes == map[]
    {
      nodes := map[];
    }

    /** Applies one event; `ok` is false where the program would stop. */
    method Persist(event: Event) returns (ok: bool)
      modifies this
      ensures var r := ChangeLog.Persist(old(nodes), event);
              ok == r.Some? && (ok ==> nodes == r.value)
    {
      ok := true;
      match event {
        case CreateNode(first) =>
          nodes := nodes[first.key := [first]];
        case RemoveNode(max) =>
          nodes := nodes - {max};
        case InsertAt(max, value, index) =>
          if max in nodes {
            if index > |nodes[max]| {
              return false;
            }
            nodes := nodes[max := Inserted(nodes[max], index, value)];
          }
          if max < value.key {
            if max !in nodes {
              return false;
            }
            var node := nodes[max];
            nodes := nodes - {max};
            nodes := nodes[value.key := node];
          }
        case RemoveAt(max, value, index) =>
          var maxRemoved := false;
          if max in nodes {
            if index >= |nodes[max]| {
              return false;
            }
            nodes := nodes[max := Removed(nodes[max], index)];
            maxRemoved := max == value.key;
          }
          if maxRemoved {
            var node := nodes[max];
            nodes := nodes - {max};
            if node != [] {
              nodes := nodes[Max(node) := node];
            }
          }
        case SplitNode(max, splitIndex) =>
          if max in nodes {
            var node := nodes[max];
            nodes := nodes - {max};
            if splitIndex == 0 || splitIndex >= |node| {
              return false;
            }
            var lower, upper := node[..splitIndex], node[splitIndex..];
            nodes := nodes[Max(upper) := upper];
            nodes := nodes[Max(lower) := lower];
          }
      }
    }

    /** Applies events in order. */
    method PersistAll(events: seq<Event>) returns (ok: bool)
      modifies this
      ensures var r := Replay(old(nodes), events);
              ok == r.Some? && (ok ==> nodes == r.value)
    {
      ok := true;
      for i := 0 to |events|
        invariant ok && Replay(old(nodes), events[..i]) == Some(nodes)
      {
        assert events[..i + 1][..i] == events[..i];
        assert events[..i + 1][i] == events[i];
        ok := Persist(events[i]);
        if !ok {
          StopsForGood(old(nodes), events, i + 1);
          return;
        }
      }
      assert events[..|events|] == events;
    }

    /** A replica that has stopped applies nothing more. */
    static lemma {:induction false} StopsForGood(start: Replica, events: seq<Event>, i: nat)
      requires i <= |events| && Replay(start, events[..i]).None?
      ensures Replay(start, events).None?
      decreases |events| - i
    {
      if i == |events| {
        assert events[..i] == events;
      } else {
        assert events[..i + 1][..i] == events[..i];
        StopsForGood(start, events, i + 1);
      }
    }
  }
}
