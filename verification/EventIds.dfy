/** Event ids: no gap, no duplicate, and every event handed to exactly one call. */
module EventIds {
  import opened ConcurrentState
  import opened Interleaving

  /** Who has an event: a call still under way, or one that has returned. */
  datatype Holder = Active(thread: ThreadId) | Past(call: nat)

  function EventsOf(m: Machine, h: Holder): seq<Logged> {
    match h
    case Active(t) => if t in m.threads && m.threads[t].Committing? then m.threads[t].events else []
    case Past(r) => if r < |m.returned| then m.returned[r].events else []
  }

  ghost predicate Has(m: Machine, h: Holder, i: int, id: int) {
    0 <= i < |EventsOf(m, h)| && EventsOf(m, h)[i].id == id
  }

  ghost predicate HandedOut(m: Machine, id: int) {
    exists h, i :: Has(m, h, i, id)
  }

  /** The ids handed out so far are 0 up to the counter, each at one place only. */
  ghost predicate Exact(m: Machine) {
    && (forall id :: HandedOut(m, id) <==> 0 <= id < m.shared.nextEvent)
    && (forall h, i, g, j, id :: Has(m, h, i, id) && Has(m, g, j, id) ==> h == g && i == j)
  }

  /** `after` is `before` with the events of one holder passed on and freshly numbered ones added. */
  ghost predicate Passes(before: Machine, after: Machine, from: Holder, to: Holder, events: seq<Event>) {
    && after.shared.nextEvent == before.shared.nextEvent + |events|
    && (from == to || EventsOf(before, to) == [])
    && EventsOf(after, to) == EventsOf(before, from) + Number(events, before.shared.nextEvent)
    && (from != to ==> EventsOf(after, from) == [])
    && (forall h :: h != from && h != to ==> EventsOf(after, h) == EventsOf(before, h))
  }

  lemma PassingKeepsExact(before: Machine, after: Machine, from: Holder, to: Holder, events: seq<Event>)
    requires Exact(before) && Passes(before, after, from, to, events)
    ensures Exact(after)
  {
    var n := before.shared.nextEvent;
    var kept := |EventsOf(before, from)|;
    forall h, i, id | Has(after, h, i, id)
      ensures if h == to && kept <= i then id == n + i - kept else Has(before, if h == to then from else h, i, id)
    {
    }
    forall id ensures HandedOut(after, id) <==> 0 <= id < after.shared.nextEvent {
      if HandedOut(after, id) {
        var h, i :| Has(after, h, i, id);
        assert (h == to && kept <= i) || HandedOut(before, id);
      }
      if 0 <= id < n {
        assert HandedOut(before, id);
        var h, i :| Has(before, h, i, id);
        assert Has(after, if h == from then to else h, i, id);
      } else if n <= id < after.shared.nextEvent {
        assert Has(after, to, kept + id - n, id);
      }
    }
    forall h, i, g, j, id | Has(after, h, i, id) && Has(after, g, j, id) ensures h == g && i == j {
      if !(h == to && kept <= i) {
        assert Has(before, if h == to then from else h, i, id) && HandedOut(before, id);
      }
      if !(g == to && kept <= j) {
        assert Has(before, if g == to then from else g, j, id) && HandedOut(before, id);
      }
    }
  }

  /** Where a step leaves the events of its call: with the call, or with what it returned. */
  ghost function Goes(m: Machine, step: Step): Holder
    requires Ok(m) && Enabled(m, step)
  {
    if |Next(m, step).returned| == |m.returned| then Active(step.thread) else Past(|m.returned|)
  }

  lemma CommitPasses(m: Machine, t: ThreadId) returns (to: Holder, events: seq<Event>)
    requires Ok(m) && t in m.threads && m.threads[t].Committing?
    ensures Passes(m, Next(m, Run(t)), Active(t), to, events) && to == Goes(m, Run(t))
  {
    hide Commit, WellFormed;
    var op := m.threads[t].op;
    CommitKeeps(m.shared, op);
    to, events := Active(t), [];
    var verdict := Commit(m.shared, op).1;
    if verdict.Done? {
      to, events := Past(|m.returned|), verdict.events;
    } else if verdict.Rejected? && !op.Split? {
      to := Past(|m.returned|);
    }
  }

  lemma EditPasses(m: Machine, t: ThreadId, req: Request, s: State, e: Edit) returns (to: Holder)
    requires t in m.threads && m.threads[t].Calling? && s.nextEvent == m.shared.nextEvent + |e.events|
    ensures Passes(m, AfterEdit(m, t, req, s, e), Active(t), to, e.events)
    ensures to == if |AfterEdit(m, t, req, s, e).returned| == |m.returned| then Active(t) else Past(|m.returned|)
  {
    to := if e.next.None? then Past(|m.returned|) else Active(t);
  }

  lemma NextPasses(m: Machine, step: Step) returns (from: Holder, to: Holder, events: seq<Event>)
    requires Ok(m) && Enabled(m, step)
    ensures Passes(m, Next(m, step), from, to, events)
    ensures from == Active(step.thread) && to == Goes(m, step)
  {
    hide EditForPut, EditForRemove, Commit, AfterEdit;
    var t := step.thread;
    from, to, events := Active(t), Active(t), [];
    if step.Run? {
      match m.threads[t] {
        case Calling(Put(v)) =>
          if m.shared.index != map[] {
            EditForPutKeeps(m.shared, v);
            var (s, e) := EditForPut(m.shared, v);
            to := EditPasses(m, t, Put(v), s, e);
            events := e.events;
          }
        case Calling(Remove(key)) =>
          EditForRemoveKeeps(m.shared, key);
          var (s, e) := EditForRemove(m.shared, key);
          to := EditPasses(m, t, Remove(key), s, e);
          events := e.events;
        case Creating(v) =>
          to, events := Past(|m.returned|), [CreateNode(v)];
        case Committing(_, _, _, _) =>
          to, events := CommitPasses(m, t);
      }
    }
  }

  /** In every interleaving of puts and removes, started with no event handed out, the ids handed
      out are exactly 0, 1, ..., n-1, and each belongs to one event of one call; a split that is
      rejected and tried again consumes none. */
  lemma {:induction false} IdsHaveNoGapsAndNoDuplicates(ms: seq<Machine>, steps: seq<Step>, i: nat)
    requires IsRun(ms, steps) && i < |ms| && Exact(ms[0])
    ensures Exact(ms[i])
  {
    if i > 0 {
      IdsHaveNoGapsAndNoDuplicates(ms, steps, i - 1);
      RunStep(ms, steps, i - 1);
      var from, to, events := NextPasses(ms[i - 1], steps[i - 1]);
      PassingKeepsExact(ms[i - 1], ms[i], from, to, events);
    }
  }

  // ---------------------------------------------------------------- ids taken one at a time

  /** The set together with the ids that the events of each holder have got so far, in the order of
      the events.  The ids that the machine itself hands out count for nothing here. */
  datatype Counting = Counting(m: Machine, taken: map<Holder, seq<nat>>, counter: nat)

  /** `TakeId` is one increment of the shared counter, by a call that has an event without an id. */
  datatype FineStep = Phase(step: Step) | TakeId(holder: Holder)

  function TakenBy(c: Counting, h: Holder): seq<nat> {
    if h in c.taken then c.taken[h] else []
  }

  ghost predicate FineEnabled(c: Counting, step: FineStep) {
    match step
    case Phase(s) => Enabled(c.m, s)
    case TakeId(h) => |TakenBy(c, h)| < |EventsOf(c.m, h)|
  }

  ghost function FineNext(c: Counting, step: FineStep): Counting
    requires Ok(c.m) && FineEnabled(c, step)
  {
    match step
    case Phase(s) =>
      var (from, to) := (Active(s.thread), Goes(c.m, s));
      Counting(Next(c.m, s), (c.taken - {from})[to := TakenBy(c, from)], c.counter)
    case TakeId(h) =>
      Counting(c.m, c.taken[h := TakenBy(c, h) + [c.counter]], c.counter + 1)
  }

  /** Event j of holder h has this id. */
  ghost predicate HasId(c: Counting, h: Holder, j: int, id: int) {
    0 <= j < |TakenBy(c, h)| && TakenBy(c, h)[j] == id
  }

  ghost predicate Given(c: Counting, id: int) {
    exists h, j :: HasId(c, h, j, id)
  }

  /** The ids given out are 0 up to the counter, each to one event, ascending within a call. */
  ghost predicate FineExact(c: Counting) {
    && Ok(c.m)
    && (forall h :: |TakenBy(c, h)| <= |EventsOf(c.m, h)|)
    && (forall id :: Given(c, id) <==> 0 <= id < c.counter)
    && (forall h, i, g, j, id :: HasId(c, h, i, id) && HasId(c, g, j, id) ==> h == g && i == j)
    && (forall h, i, j :: 0 <= i < j < |TakenBy(c, h)| ==> TakenBy(c, h)[i] < TakenBy(c, h)[j])
  }

  /** Passing a call's ids on changes who has them and nothing else. */
  lemma PhaseKeepsFine(c: Counting, step: Step)
    requires FineExact(c) && Enabled(c.m, step)
    ensures FineExact(FineNext(c, Phase(step)))
  {
    NextOk(c.m, step);
    var from, to, events := NextPasses(c.m, step);
    PassingKeepsFine(c, FineNext(c, Phase(step)), from, to, events);
  }

  lemma PassingKeepsFine(c: Counting, d: Counting, from: Holder, to: Holder, events: seq<Event>)
    requires FineExact(c) && Ok(d.m) && Passes(c.m, d.m, from, to, events)
    requires d.taken == (c.taken - {from})[to := TakenBy(c, from)] && d.counter == c.counter
    ensures FineExact(d)
  {
    hide Ok, EventsOf;
    assert from != to ==> TakenBy(c, to) == [];
    assert TakenBy(d, to) == TakenBy(c, from) && (from != to ==> TakenBy(d, from) == []);
    assert forall h :: h != from && h != to ==> TakenBy(d, h) == TakenBy(c, h);
    forall h, j, id | HasId(d, h, j, id) ensures HasId(c, if h == to then from else h, j, id) {}
    forall h, j, id | HasId(c, h, j, id) ensures HasId(d, if h == from then to else h, j, id) {}
    forall id ensures Given(d, id) <==> Given(c, id) {
      if h, j :| HasId(d, h, j, id) { assert HasId(c, if h == to then from else h, j, id); }
      if h, j :| HasId(c, h, j, id) { assert HasId(d, if h == from then to else h, j, id); }
    }
  }

  lemma TakingKeepsFine(c: Counting, h: Holder)
    requires FineExact(c) && FineEnabled(c, TakeId(h))
    ensures FineExact(FineNext(c, TakeId(h)))
  {
    hide Ok, EventsOf;
    var d := FineNext(c, TakeId(h));
    var count := |TakenBy(c, h)|;
    assert TakenBy(d, h) == TakenBy(c, h) + [c.counter];
    assert forall g :: g != h ==> TakenBy(d, g) == TakenBy(c, g);
    assert HasId(d, h, count, c.counter);
    forall g, j, id | HasId(d, g, j, id) ensures (g == h && j == count && id == c.counter) || HasId(c, g, j, id) {}
    forall g, j, id | HasId(c, g, j, id) ensures HasId(d, g, j, id) && Given(c, id) {}
    forall id ensures Given(d, id) <==> Given(c, id) || id == c.counter {
      if g, j :| HasId(d, g, j, id) { assert id == c.counter || HasId(c, g, j, id); }
      if g, j :| HasId(c, g, j, id) { assert HasId(d, g, j, id); }
    }
    forall i, j | 0 <= i < j < |TakenBy(d, h)| ensures TakenBy(d, h)[i] < TakenBy(d, h)[j] {
      assert HasId(c, h, i, TakenBy(c, h)[i]) && Given(c, TakenBy(c, h)[i]);
    }
  }

  ghost predicate IsFineRun(cs: seq<Counting>, steps: seq<FineStep>) {
    && |cs| == |steps| + 1
    && forall i :: 0 <= i < |steps| ==>
         FineEnabled(cs[i], steps[i]) && (Ok(cs[i].m) ==> cs[i + 1] == FineNext(cs[i], steps[i]))
  }

  /** Even when every id is taken by an increment of its own, at any moment between the steps of any
      calls, the ids given out are exactly 0, 1, ..., n-1, each to one event, and the events of a
      call get theirs in order. */
  lemma {:induction false} SeparateIncrementsStayExact(cs: seq<Counting>, steps: seq<FineStep>, i: nat)
    requires IsFineRun(cs, steps) && FineExact(cs[0]) && i < |cs|
    ensures FineExact(cs[i])
  {
    if i > 0 {
      SeparateIncrementsStayExact(cs, steps, i - 1);
      match steps[i - 1] {
        case Phase(s) => PhaseKeepsFine(cs[i - 1], s);
        case TakeId(h) => TakingKeepsFine(cs[i - 1], h);
      }
    }
  }
}
