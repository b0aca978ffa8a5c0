/**
 Interleaved puts refine an atomic map.

 The specification is a map with threads that call, take effect at one instant, and reply.  Every
 run of puts without two splits pending on one node is matched by a run of the specification with
 the same calls, the same replies in the same order, and the same entries.
 */
module Linearizability {
  import opened Basics
  import opened NodeOps
  import opened ConcurrentState
  import opened Separation
  import opened MapView
  import opened Interleaving
  import opened PutInterleaving
  import opened PutPartition

  // ---------------------------------------------------------------- the atomic map

  datatype Caller = Waiting(value: Pair) | Served(value: Pair, result: Option<Pair>)

  datatype Reply = Reply(thread: ThreadId, value: Pair, result: Option<Pair>)

  datatype Atomic = Atomic(contents: map<int, int>, callers: map<ThreadId, Caller>, replies: seq<Reply>)

  datatype Action = Call(thread: ThreadId, value: Pair) | Serve(thread: ThreadId) | Finish(thread: ThreadId)

  /** Serving a caller stores its value and fixes its result, in one instant. */
  function Act(a: Atomic, action: Action): Option<Atomic> {
    var t := action.thread;
    match action
    case Call(_, v) =>
      if t in a.callers then None else Some(a.(callers := a.callers[t := Waiting(v)]))
    case Serve(_) =>
      if t !in a.callers || a.callers[t].Served? then None
      else
        var v := a.callers[t].value;
        Some(a.(contents := a.contents[v.key := v.val],
                callers := a.callers[t := Served(v, Entry(a.contents, v.key))]))
    case Finish(_) =>
      if t !in a.callers || a.callers[t].Waiting? then None
      else
        var c := a.callers[t];
        Some(a.(callers := a.callers - {t}, replies := a.replies + [Reply(t, c.value, c.result)]))
  }

  function ActAll(a: Atomic, actions: seq<Action>): Option<Atomic> {
    if actions == [] then Some(a)
    else
      match ActAll(a, actions[..|actions| - 1])
      case None => None
      case Some(b) => Act(b, actions[|actions| - 1])
  }

  lemma {:induction false} ActAllAppend(a: Atomic, xs: seq<Action>, ys: seq<Action>)
    requires ActAll(a, xs).Some?
    ensures ActAll(a, xs + ys) == ActAll(ActAll(a, xs).value, ys)
    decreases |ys|
  {
    if ys == [] {
      assert xs + ys == xs;
    } else {
      var last := |ys| - 1;
      assert (xs + ys)[..|xs + ys| - 1] == xs + ys[..last];
      ActAllAppend(a, xs, ys[..last]);
    }
  }

  // ---------------------------------------------------------------- correspondence

  ghost function CallerOf(c: Thread): Caller {
    match c
    case Calling(req) => Waiting(if req.Put? then req.value else Pair(0, 0))
    case Creating(v) => Waiting(v)
    case Committing(req, op, result, _) =>
      var v := if req.Put? then req.value else Pair(0, 0);
      if op.Split? then Waiting(v) else Served(v, result)
  }

  ghost predicate Corresponds(m: Machine, a: Atomic)
    requires Ok(m)
  {
    && Represents(m.shared, a.contents)
    && a.callers.Keys == m.threads.Keys
    && (forall t :: t in m.threads ==> a.callers[t] == CallerOf(m.threads[t]))
    && |a.replies| == |m.returned|
    && forall i :: 0 <= i < |m.returned| ==>
         && m.returned[i].req.Put?
         && a.replies[i] == Reply(m.returned[i].thread, m.returned[i].req.value, m.returned[i].result)
  }

  /** The actions of the specification that match a step. */
  ghost function Matching(m: Machine, step: Step): seq<Action>
    requires Ok(m) && Enabled(m, step)
  {
    var t := step.thread;
    match step
    case Invoke(_, req) => if req.Put? then [Call(t, req.value)] else []
    case GiveUp(_) => []
    case Run(_) =>
      match m.threads[t]
      case Calling(req) =>
        if req.Remove? || m.shared.index == map[] then []
        else
          var next := EditForPut(m.shared, req.value).1.next;
          if next.None? then [Serve(t), Finish(t)] else if next.value.Split? then [] else [Serve(t)]
      case Creating(_) => []
      case Committing(_, op, _, _) =>
        if !op.Split? then [Finish(t)]
        else if Commit(m.shared, op).1.Done? then [Serve(t), Finish(t)] else []
  }

  /** The history that matches the first i steps of a run, step by step. */
  ghost function History(ms: seq<Machine>, steps: seq<Step>, i: nat): seq<Action>
    requires IsRun(ms, steps) && i <= |steps|
  {
    if i == 0 then []
    else
      RunStep(ms, steps, i - 1);
      History(ms, steps, i - 1) + Matching(ms[i - 1], steps[i - 1])
  }

  // ---------------------------------------------------------------- simulation

  lemma ActTwo(a: Atomic, x: Action, y: Action)
    ensures ActAll(a, []) == Some(a) && ActAll(a, [x]) == Act(a, x)
    ensures Act(a, x).Some? ==> ActAll(a, [x, y]) == Act(Act(a, x).value, y)
  {
    assert [x][..0] == [] && [x, y][..1] == [x];
  }

  /** A call that takes effect and returns in one step. */
  lemma ServedAndReturned(m: Machine, m': Machine, a: Atomic, t: ThreadId, v: Pair, r: Option<Pair>, events: seq<Logged>)
    requires Ok(m) && Ok(m') && Corresponds(m, a) && t in m.threads && CallerOf(m.threads[t]) == Waiting(v)
    requires Puts(m.shared, m'.shared, v) && Answers(r, e => Holds(m.shared, e), v.key)
    requires m' == Answered(m, m'.shared, t, Put(v), r, events)
    ensures var b := ActAll(a, [Serve(t), Finish(t)]);
            b.Some? && Corresponds(m', b.value)
  {
    ActTwo(a, Serve(t), Finish(t));
    PutsUpdate(m.shared, m'.shared, v, a.contents);
    AnswerIsEntry(m.shared, a.contents, r, v.key);
  }

  /** A call that takes effect but has yet to re-key its node. */
  lemma ServedOnly(m: Machine, m': Machine, a: Atomic, t: ThreadId, v: Pair, c: Thread)
    requires Ok(m) && Ok(m') && Corresponds(m, a) && t in m.threads && CallerOf(m.threads[t]) == Waiting(v)
    requires CallerOf(c).Served? && CallerOf(c).value == v
    requires Puts(m.shared, m'.shared, v) && Answers(CallerOf(c).result, e => Holds(m.shared, e), v.key)
    requires m'.threads == m.threads[t := c] && m'.returned == m.returned
    ensures var b := ActAll(a, [Serve(t)]);
            b.Some? && Corresponds(m', b.value)
  {
    ActTwo(a, Serve(t), Finish(t));
    PutsUpdate(m.shared, m'.shared, v, a.contents);
    AnswerIsEntry(m.shared, a.contents, CallerOf(c).result, v.key);
  }

  lemma ReturnedOnly(m: Machine, m': Machine, a: Atomic, t: ThreadId, v: Pair, r: Option<Pair>, events: seq<Logged>)
    requires Ok(m) && Ok(m') && Corresponds(m, a) && t in m.threads && CallerOf(m.threads[t]) == Served(v, r)
    requires SameEntries(m.shared, m'.shared)
    requires m' == Answered(m, m'.shared, t, Put(v), r, events)
    ensures var b := ActAll(a, [Finish(t)]);
            b.Some? && Corresponds(m', b.value)
  {
    ActTwo(a, Finish(t), Finish(t));
  }

  lemma NothingVisible(m: Machine, m': Machine, a: Atomic, t: ThreadId, c: Thread)
    requires Ok(m) && Ok(m') && Corresponds(m, a) && t in m.threads && CallerOf(m.threads[t]) == CallerOf(c)
    requires m'.shared == m.shared && m'.threads == m.threads[t := c] && m'.returned == m.returned
    ensures var b := ActAll(a, []);
            b.Some? && Corresponds(m', b.value)
  {
  }

  /** A first phase with outcome e, in terms of what it does to the entries. */
  lemma PhaseCorresponds(m: Machine, m': Machine, a: Atomic, t: ThreadId, v: Pair, e: Edit)
    requires Ok(m) && Ok(m') && Corresponds(m, a) && t in m.threads && m.threads[t] == Calling(Put(v))
    requires m' == AfterEdit(m, t, Put(v), m'.shared, e)
    requires e.next.Some? && e.next.value.Split? ==> m'.shared == m.shared
    requires (e.next.Some? && e.next.value.Split?) ||
             (Puts(m.shared, m'.shared, v) && Answers(e.result, x => Holds(m.shared, x), v.key))
    ensures var b := ActAll(a, if e.next.None? then [Serve(t), Finish(t)] else if e.next.value.Split? then [] else [Serve(t)]);
            b.Some? && Corresponds(m', b.value)
  {
    if e.next.None? {
      ServedAndReturned(m, m', a, t, v, e.result, Number(e.events, m.shared.nextEvent));
    } else if e.next.value.Split? {
      NothingVisible(m, m', a, t, m'.threads[t]);
    } else {
      ServedOnly(m, m', a, t, v, m'.threads[t]);
    }
  }

  lemma EditCorresponds(m: Machine, a: Atomic, t: ThreadId, v: Pair)
    requires Partitioned(m) && Corresponds(m, a) && t in m.threads && m.threads[t] == Calling(Put(v))
    requires Partitioned(Next(m, Run(t)))
    ensures var b := ActAll(a, Matching(m, Run(t)));
            b.Some? && Corresponds(Next(m, Run(t)), b.value)
  {
    hide Corresponds, EditForPut, Separated, Sorted, Puts, Answers, KeysStored, ActAll;
    EditForPutStores(m.shared, v);
    PhaseCorresponds(m, Next(m, Run(t)), a, t, v, EditForPut(m.shared, v).1);
  }

  lemma CommitCorresponds(m: Machine, a: Atomic, t: ThreadId)
    requires Partitioned(m) && Corresponds(m, a) && t in m.threads && m.threads[t].Committing?
    requires CommitsFitting(m, Run(t)) && Partitioned(Next(m, Run(t)))
    ensures var b := ActAll(a, Matching(m, Run(t)));
            b.Some? && Corresponds(Next(m, Run(t)), b.value)
  {
    var m' := Next(m, Run(t));
    match m.threads[t].op {
      case Split(id, k, v) =>
        if k in m.shared.index && m.shared.index[k] == id {
          CommitSplitStores(m.shared, id, k, v);
          var r := m'.returned[|m.returned|];
          ServedAndReturned(m, m', a, t, v, r.result, r.events);
        } else {
          NothingVisible(m, m', a, t, m'.threads[t]);
        }
      case UpdateMax(id, k) =>
        CommitUpdateMaxKeeps(m.shared, id, k);
        var r := m'.returned[|m.returned|];
        ReturnedOnly(m, m', a, t, m.threads[t].req.value, None, r.events);
    }
  }

  lemma NextCorresponds(m: Machine, a: Atomic, step: Step)
    requires Partitioned(m) && Corresponds(m, a) && CommitsFitting(m, step)
    requires Enabled(m, step) && (step.Invoke? ==> step.req.Put?)
    ensures Partitioned(Next(m, step))
    ensures var b := ActAll(a, Matching(m, step));
            b.Some? && Corresponds(Next(m, step), b.value)
  {
    NextKeepsPartition(m, step);
    match step {
      case Invoke(t, req) => ActTwo(a, Call(t, req.value), Serve(t));
      case GiveUp(t) =>
      case Run(t) =>
        match m.threads[t] {
          case Calling(req) => EditCorresponds(m, a, t, req.value);
          case Committing(_, _, _, _) => CommitCorresponds(m, a, t);
        }
    }
  }

  /** Puts are linearizable as long as every committed split fits: the history is one of the
      atomic map, with the same calls, the same replies in the same order and the same entries,
      so no value that was put is lost. */
  lemma {:induction false} PutsAreLinearizable(ms: seq<Machine>, steps: seq<Step>, i: nat)
    requires IsRun(ms, steps) && OnlyPuts(steps) && i <= |steps|
    requires Partitioned(ms[0]) && ms[0].threads == map[] && ms[0].returned == []
    requires forall j :: 0 <= j < |steps| ==> (Ok(ms[j]) ==> CommitsFitting(ms[j], steps[j]))
    ensures Partitioned(ms[i])
    ensures var a := ActAll(Atomic(Contents(ms[0].shared), map[], []), History(ms, steps, i));
            a.Some? && Corresponds(ms[i], a.value)
  {
    if i == 0 {
      EveryPartitionIsAMap(ms[0].shared);
    } else {
      PutsAreLinearizable(ms, steps, i - 1);
      RunStep(ms, steps, i - 1);
      var start := Atomic(Contents(ms[0].shared), map[], []);
      var before := History(ms, steps, i - 1);
      NextCorresponds(ms[i - 1], ActAll(start, before).value, steps[i - 1]);
      ActAllAppend(start, before, Matching(ms[i - 1], steps[i - 1]));
    }
  }

  /** In particular they are while no node has two splits pending. */
  lemma OneSplitPerNodeSuffices(ms: seq<Machine>, steps: seq<Step>, i: nat)
    requires IsRun(ms, steps) && OnlyPuts(steps) && i <= |steps|
    requires Partitioned(ms[0]) && ms[0].threads == map[] && ms[0].returned == []
    requires forall j :: 0 <= j < |steps| ==> OneSplitPerNode(ms[j])
    ensures Partitioned(ms[i])
    ensures var a := ActAll(Atomic(Contents(ms[0].shared), map[], []), History(ms, steps, i));
            a.Some? && Corresponds(ms[i], a.value)
  {
    forall j | 0 <= j < |steps| ensures Ok(ms[j]) && CommitsFitting(ms[j], steps[j]) {
      PutsKeepThePartition(ms, steps, j);
      RunStep(ms, steps, j);
      NextKeepsFresh(ms[j], steps[j]);
    }
    PutsAreLinearizable(ms, steps, i);
  }
}
