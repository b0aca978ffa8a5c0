/**
 Any number of threads calling put and remove on one shared set, one atomic phase at a time.
 */
module Interleaving {
  import opened Basics
  import opened NodeOps
  import opened ConcurrentState

  type ThreadId = nat

  datatype Request = Put(value: Pair) | Remove(key: int)

  /** Where a call stands: before its first phase (again, after a rejected split), about to
      install a first node, or about to commit. */
  datatype Thread =
    | Calling(req: Request)
    | Creating(value: Pair)
    | Committing(req: Request, op: Op, result: Option<Pair>, events: seq<Logged>)

  datatype Return = Return(thread: ThreadId, req: Request, result: Option<Pair>, events: seq<Logged>)

  datatype Machine = Machine(shared: State, threads: map<ThreadId, Thread>, returned: seq<Return>)

  /** `GiveUp` is the failed attempt to lock the index for creating a first node. */
  datatype Step = Invoke(thread: ThreadId, req: Request) | Run(thread: ThreadId) | GiveUp(thread: ThreadId)

  ghost predicate Enabled(m: Machine, step: Step) {
    match step
    case Invoke(t, _) => t !in m.threads
    case Run(t) => t in m.threads
    case GiveUp(t) => t in m.threads && m.threads[t].Creating?
  }

  ghost function Answered(m: Machine, s: State, t: ThreadId, req: Request, result: Option<Pair>, events: seq<Logged>): Machine {
    Machine(s, m.threads - {t}, m.returned + [Return(t, req, result, events)])
  }

  ghost function AfterEdit(m: Machine, t: ThreadId, req: Request, s: State, e: Edit): Machine {
    var logged := Number(e.events, m.shared.nextEvent);
    match e.next
    case None => Answered(m, s, t, req, e.result, logged)
    case Some(op) => Machine(s, m.threads[t := Committing(req, op, e.result, logged)], m.returned)
  }

  ghost function AfterCommit(m: Machine, t: ThreadId, c: Thread, s: State, verdict: Verdict): Machine
    requires c.Committing?
  {
    match verdict
    case Done(prior, events) =>
      Answered(m, s, t, c.req, if c.op.Split? then prior else c.result, c.events + Number(events, m.shared.nextEvent))
    case Rejected =>
      if c.op.Split? then m.(threads := m.threads[t := Calling(c.req)])
      else Answered(m, s, t, c.req, c.result, c.events)
    case Panicked =>
      m.(threads := m.threads - {t})
  }

  /** Operations only name nodes that exist. */
  ghost predicate Ok(m: Machine) {
    && WellFormed(m.shared)
    && forall t :: t in m.threads && m.threads[t].Committing? ==>
         && m.threads[t].op.node in m.shared.heap
         && (m.threads[t].op.Split? ==> m.threads[t].events == [])
  }

  ghost function Next(m: Machine, step: Step): Machine
    requires Ok(m) && Enabled(m, step)
  {
    var t := step.thread;
    match step
    case Invoke(_, req) => m.(threads := m.threads[t := Calling(req)])
    case GiveUp(_) => m.(threads := m.threads[t := Calling(Put(m.threads[t].value))])
    case Run(_) =>
      match m.threads[t]
      case Calling(Put(v)) =>
        if m.shared.index == map[] then m.(threads := m.threads[t := Creating(v)])
        else
          var (s, e) := EditForPut(m.shared, v);
          AfterEdit(m, t, Put(v), s, e)
      case Calling(Remove(key)) =>
        var (s, e) := EditForRemove(m.shared, key);
        AfterEdit(m, t, Remove(key), s, e)
      case Creating(v) =>
        Answered(m, Install(m.shared, v), t, Put(v), None, Number([CreateNode(v)], m.shared.nextEvent))
      case Committing(_, op, _, _) =>
        var (s, verdict) := Commit(m.shared, op);
        AfterCommit(m, t, m.threads[t], s, verdict)
  }

  lemma PutOk(m: Machine, t: ThreadId, v: Pair)
    requires Ok(m) && t in m.threads && m.threads[t] == Calling(Put(v))
    ensures Ok(Next(m, Run(t))) && Next(m, Run(t)).shared.cap == m.shared.cap
  {
    hide Sorted;
    if m.shared.index != map[] { EditForPutKeeps(m.shared, v); }
  }

  lemma RemoveOk(m: Machine, t: ThreadId, key: int)
    requires Ok(m) && t in m.threads && m.threads[t] == Calling(Remove(key))
    ensures Ok(Next(m, Run(t))) && Next(m, Run(t)).shared.cap == m.shared.cap
  {
    hide Sorted;
    EditForRemoveKeeps(m.shared, key);
  }

  lemma NextOk(m: Machine, step: Step)
    requires Ok(m) && Enabled(m, step)
    ensures Ok(Next(m, step))
    ensures Next(m, step).shared.cap == m.shared.cap
  {
    hide EditForPut, EditForRemove, Commit;
    if step.Run? {
      match m.threads[step.thread] {
        case Calling(Put(v)) => PutOk(m, step.thread, v);
        case Calling(Remove(key)) => RemoveOk(m, step.thread, key);
        case Creating(v) =>
        case Committing(_, op, _, _) => CommitKeeps(m.shared, op);
      }
    }
  }

  // ---------------------------------------------------------------- runs

  /** The states a run passes through, `ms[0]` being the first. */
  ghost predicate IsRun(ms: seq<Machine>, steps: seq<Step>) {
    && |ms| == |steps| + 1
    && Ok(ms[0])
    && forall i :: 0 <= i < |steps| ==>
         Enabled(ms[i], steps[i]) && (Ok(ms[i]) ==> ms[i + 1] == Next(ms[i], steps[i]))
  }

  /** Under every interleaving of puts and removes every node stays strictly sorted and within
      the configured capacity. */
  lemma {:induction false} NodesStaySortedAndBounded(ms: seq<Machine>, steps: seq<Step>, i: nat)
    requires IsRun(ms, steps) && i < |ms|
    ensures Ok(ms[i]) && ms[i].shared.cap == ms[0].shared.cap
    ensures forall id :: id in ms[i].shared.heap ==>
              Sorted(ms[i].shared.heap[id]) && |ms[i].shared.heap[id]| <= ms[0].shared.cap
  {
    if i > 0 {
      NodesStaySortedAndBounded(ms, steps, i - 1);
      NextOk(ms[i - 1], steps[i - 1]);
    }
  }

  /** Consecutive states of a run. */
  lemma RunStep(ms: seq<Machine>, steps: seq<Step>, i: nat)
    requires IsRun(ms, steps) && i < |steps|
    ensures Ok(ms[i]) && Enabled(ms[i], steps[i]) && ms[i + 1] == Next(ms[i], steps[i])
  {
    NodesStaySortedAndBounded(ms, steps, i);
  }
}
