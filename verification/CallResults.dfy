/**
 What the calls of an interleaved run return.

 The linearizability of puts needs hypotheses; the statements here hold of every run of puts and
 removes.
 */
module CallResults {
  import opened Basics
  import opened NodeOps
  import opened OrderedKeys
  import opened ConcurrentState
  import opened Separation
  import opened Sequential
  import opened Interleaving
  import opened SplitPanic

  /** A run that starts with no call under way and none returned. */
  ghost predicate FromRest(ms: seq<Machine>, steps: seq<Step>) {
    IsRun(ms, steps) && ms[0].threads == map[] && ms[0].returned == []
  }

  // ---------------------------------------------------------------- from invocation to return

  function RequestOf(c: Thread): Request {
    match c
    case Calling(req) => req
    case Creating(v) => Put(v)
    case Committing(req, _, _, _) => req
  }

  /** The call that t made at step w is under way, with its request, at all states up to i. */
  ghost predicate UnderWay(ms: seq<Machine>, steps: seq<Step>, t: ThreadId, req: Request, w: nat, i: nat) {
    && w < i < |ms| == |steps| + 1 && steps[w] == Invoke(t, req)
    && forall y :: w < y <= i ==> t in ms[y].threads && RequestOf(ms[y].threads[t]) == req
  }

  /** The j-th answer of a run was given at step z by a thread whose call was under way since w. */
  ghost predicate CallOf(ms: seq<Machine>, steps: seq<Step>, j: nat, r: Return, w: nat, z: nat) {
    && UnderWay(ms, steps, r.thread, r.req, w, z)
    && z < |steps| && steps[z] == Run(r.thread)
    && |ms[z].returned| == j && ms[z + 1].returned == ms[z].returned + [r]
  }

  /** What one step does to the calls other than its own, and to the answers. */
  lemma StepTouchesOneCall(m: Machine, step: Step)
    requires Ok(m) && Enabled(m, step)
    ensures var (m', t) := (Next(m, step), step.thread);
            && (forall u :: u != t ==> (u in m'.threads <==> u in m.threads) && (u in m.threads ==> m'.threads[u] == m.threads[u]))
            && (t in m'.threads ==> RequestOf(m'.threads[t]) == if step.Invoke? then step.req else RequestOf(m.threads[t]))
            && (m'.returned == m.returned ||
                (step.Run? && t !in m'.threads && |m'.returned| == |m.returned| + 1
                 && m'.returned == m.returned + [m'.returned[|m.returned|]]
                 && m'.returned[|m.returned|].thread == t && m'.returned[|m.returned|].req == RequestOf(m.threads[t])))
  {
    hide EditForPut, EditForRemove, Commit;
    if step.Run? {
      match m.threads[step.thread] {
        case Calling(Put(v)) => if m.shared.index != map[] { EditForPutKeeps(m.shared, v); }
        case Calling(Remove(key)) => EditForRemoveKeeps(m.shared, key);
        case Creating(v) =>
        case Committing(_, op, _, _) => CommitKeeps(m.shared, op);
      }
    }
  }

  ghost predicate Invoked(ms: seq<Machine>, steps: seq<Step>, t: ThreadId, req: Request, i: nat) {
    exists w: nat :: UnderWay(ms, steps, t, req, w, i)
  }

  ghost predicate AllInvoked(ms: seq<Machine>, steps: seq<Step>, i: nat)
    requires i < |ms|
  {
    forall t :: t in ms[i].threads ==> Invoked(ms, steps, t, RequestOf(ms[i].threads[t]), i)
  }

  ghost predicate Called(ms: seq<Machine>, steps: seq<Step>, j: nat, r: Return, i: nat) {
    exists w: nat, z: nat :: z < i && CallOf(ms, steps, j, r, w, z)
  }

  /** Every call under way was invoked with its request, and every answer is that of one call. */
  lemma {:induction false} CallsKeepTheirRequests(ms: seq<Machine>, steps: seq<Step>, i: nat)
    requires FromRest(ms, steps) && i < |ms|
    ensures AllInvoked(ms, steps, i)
    ensures forall j :: 0 <= j < |ms[i].returned| ==> Called(ms, steps, j, ms[i].returned[j], i)
  {
    hide Next, Ok;
    if 0 < i {
      CallsKeepTheirRequests(ms, steps, i - 1);
      RunStep(ms, steps, i - 1);
      var m, m', step := ms[i - 1], ms[i], steps[i - 1];
      StepTouchesOneCall(m, step);
      forall t | t in m'.threads ensures Invoked(ms, steps, t, RequestOf(m'.threads[t]), i) {
        if t == step.thread && step.Invoke? {
          assert UnderWay(ms, steps, t, step.req, i - 1, i);
        } else {
          assert Invoked(ms, steps, t, RequestOf(m.threads[t]), i - 1);
          var w: nat :| UnderWay(ms, steps, t, RequestOf(m.threads[t]), w, i - 1);
          assert UnderWay(ms, steps, t, RequestOf(m'.threads[t]), w, i);
        }
      }
      forall j | 0 <= j < |m'.returned| ensures Called(ms, steps, j, m'.returned[j], i) {
        AnswerIsCalled(ms, steps, i, j);
      }
    }
  }

  lemma AnswerIsCalled(ms: seq<Machine>, steps: seq<Step>, i: nat, j: nat)
    requires FromRest(ms, steps) && 0 < i < |ms| && Ok(ms[i - 1]) && j < |ms[i].returned|
    requires AllInvoked(ms, steps, i - 1)
    requires j < |ms[i - 1].returned| ==> Called(ms, steps, j, ms[i - 1].returned[j], i - 1)
    ensures Called(ms, steps, j, ms[i].returned[j], i)
  {
    hide Next, Ok, UnderWay;
    var m, m', t := ms[i - 1], ms[i], steps[i - 1].thread;
    RunStep(ms, steps, i - 1);
    StepTouchesOneCall(m, steps[i - 1]);
    var r := m'.returned[j];
    if j < |m.returned| {
      var w: nat, z: nat :| z < i - 1 && CallOf(ms, steps, j, r, w, z);
      assert CallOf(ms, steps, j, r, w, z);
    } else {
      assert Invoked(ms, steps, t, RequestOf(m.threads[t]), i - 1);
      var w: nat :| UnderWay(ms, steps, t, RequestOf(m.threads[t]), w, i - 1);
      assert CallOf(ms, steps, j, r, w, i - 1);
    }
  }

  // ---------------------------------------------------------------- from phases to answers

  /** The first phase of a request that finds the index as it needs it. */
  ghost predicate Begins(m: Machine, step: Step, t: ThreadId, req: Request) {
    && Ok(m) && step == Run(t) && t in m.threads && m.threads[t] == Calling(req)
    && (req.Put? ==> m.shared.index != map[])
  }

  ghost function Phase(s: State, req: Request): (State, Edit)
    requires WellFormed(s) && (req.Put? ==> s.index != map[])
  {
    match req
    case Put(v) => EditForPut(s, v)
    case Remove(key) => EditForRemove(s, key)
  }

  /** Since its first phase at step x the call of t waits to commit what that phase handed on. */
  ghost predicate WaitsSince(ms: seq<Machine>, steps: seq<Step>, t: ThreadId, req: Request, x: nat, i: nat) {
    && x < i < |ms| == |steps| + 1 && Begins(ms[x], steps[x], t, req)
    && var (s, e) := Phase(ms[x].shared, req);
       && ms[x + 1].shared == s && e.next.Some?
       && var waiting := Committing(req, e.next.value, e.result, Number(e.events, ms[x].shared.nextEvent));
          forall y :: x < y <= i ==> t in ms[y].threads && ms[y].threads[t] == waiting
  }

  ghost predicate Waits(ms: seq<Machine>, steps: seq<Step>, t: ThreadId, i: nat)
    requires i < |ms| && t in ms[i].threads
  {
    exists x: nat :: WaitsSince(ms, steps, t, RequestOf(ms[i].threads[t]), x, i)
  }

  ghost predicate AllWait(ms: seq<Machine>, steps: seq<Step>, i: nat)
    requires i < |ms|
  {
    forall t :: t in ms[i].threads && ms[i].threads[t].Committing? ==> Waits(ms, steps, t, i)
  }

  /** The first phase alone answers. */
  ghost predicate AtOnce(ms: seq<Machine>, steps: seq<Step>, r: Return, x: nat) {
    && x < |steps| < |ms| && Begins(ms[x], steps[x], r.thread, r.req)
    && var (s, e) := Phase(ms[x].shared, r.req);
       ms[x + 1].shared == s && e.next == None && r.result == e.result && r.events == Number(e.events, ms[x].shared.nextEvent)
  }

  /** A put that found the index empty answers when it has installed a first node. */
  ghost predicate ByCreation(ms: seq<Machine>, steps: seq<Step>, r: Return, z: nat) {
    && z < |steps| < |ms| && r.req.Put? && r.thread in ms[z].threads && ms[z].threads[r.thread] == Creating(r.req.value)
    && ms[z + 1].shared == Install(ms[z].shared, r.req.value)
    && r.result == None && r.events == [Logged(ms[z].shared.nextEvent, CreateNode(r.req.value))]
  }

  /** The commit at step z of what the first phase at step x handed on answers: with what a split
      replaced, else with what the first phase found; a rejected split does not answer. */
  ghost predicate ByCommit(ms: seq<Machine>, steps: seq<Step>, r: Return, x: nat, z: nat) {
    && z < |steps| && steps[z] == Run(r.thread)
    && WaitsSince(ms, steps, r.thread, r.req, x, z)
    && var e := Phase(ms[x].shared, r.req).1;
       && e.next.value.node in ms[z].shared.heap
       && var (s, verdict) := Commit(ms[z].shared, e.next.value);
          && ms[z + 1].shared == s
          && (verdict.Done? || (verdict.Rejected? && !e.next.value.Split?))
          && r.result == (if e.next.value.Split? then verdict.prior else e.result)
          && r.events == Number(e.events, ms[x].shared.nextEvent) +
                         (if verdict.Done? then Number(verdict.events, ms[z].shared.nextEvent) else [])
  }

  ghost predicate HasOrigin(ms: seq<Machine>, steps: seq<Step>, r: Return, x: nat, z: nat) {
    (x == z && (AtOnce(ms, steps, r, x) || ByCreation(ms, steps, r, z))) || ByCommit(ms, steps, r, x, z)
  }

  /** A thread waits after a step only because its first phase was that step, or it waited before. */
  lemma WaitingStep(m: Machine, step: Step, t: ThreadId)
    requires Ok(m) && Enabled(m, step)
    ensures var m' := Next(m, step);
            t in m'.threads && m'.threads[t].Committing? ==>
              var req := m'.threads[t].req;
              if step.thread != t then t in m.threads && m.threads[t] == m'.threads[t]
              else
                && Begins(m, step, t, req)
                && var (s, e) := Phase(m.shared, req);
                   && m'.shared == s && e.next.Some?
                   && m'.threads[t] == Committing(req, e.next.value, e.result, Number(e.events, m.shared.nextEvent))
  {
    hide EditForPut, EditForRemove, Commit, Number;
    if step.thread != t {
      StepTouchesOneCall(m, step);
    } else if step.Run? {
      match m.threads[t] {
        case Calling(req) =>
          var m' := Next(m, step);
          if t in m'.threads && m'.threads[t].Committing? {
            var (s, e) := Phase(m.shared, req);
            assert m' == AfterEdit(m, t, req, s, e);
          }
        case Creating(v) =>
        case Committing(_, op, _, _) => CommitKeeps(m.shared, op);
      }
    }
  }

  lemma {:induction false} EveryWaitHasAPhase(ms: seq<Machine>, steps: seq<Step>, i: nat)
    requires FromRest(ms, steps) && i < |ms|
    ensures AllWait(ms, steps, i)
  {
    hide Next, Ok, Phase, Number, Begins;
    if 0 < i {
      EveryWaitHasAPhase(ms, steps, i - 1);
      RunStep(ms, steps, i - 1);
      forall t | t in ms[i].threads && ms[i].threads[t].Committing? ensures Waits(ms, steps, t, i) {
        WaitingStep(ms[i - 1], steps[i - 1], t);
        var req := RequestOf(ms[i].threads[t]);
        if steps[i - 1].thread == t {
          assert WaitsSince(ms, steps, t, req, i - 1, i);
        } else {
          assert Waits(ms, steps, t, i - 1);
          var x: nat :| WaitsSince(ms, steps, t, req, x, i - 1);
          assert WaitsSince(ms, steps, t, req, x, i);
        }
      }
    }
  }

  lemma OriginOfAnswer(ms: seq<Machine>, steps: seq<Step>, r: Return, z: nat) returns (x: nat)
    requires IsRun(ms, steps) && z < |steps| && Ok(ms[z]) && AllWait(ms, steps, z)
    requires steps[z] == Run(r.thread) && ms[z + 1].returned == ms[z].returned + [r]
    ensures HasOrigin(ms, steps, r, x, z)
  {
    hide EditForPut, EditForRemove, Commit, Number;
    var m := ms[z];
    RunStep(ms, steps, z);
    assert ms[z + 1].returned[|m.returned|] == r;
    x := z;
    match m.threads[r.thread] {
      case Calling(Put(v)) => if m.shared.index != map[] { EditForPutKeeps(m.shared, v); }
      case Calling(Remove(key)) =>
      case Creating(v) => assert Number([CreateNode(v)], m.shared.nextEvent) == [Logged(m.shared.nextEvent, CreateNode(v))];
      case Committing(req, op, _, _) =>
        CommitKeeps(m.shared, op);
        assert Waits(ms, steps, r.thread, z);
        x :| WaitsSince(ms, steps, r.thread, req, x, z);
        assert ByCommit(ms, steps, r, x, z);
    }
  }

  /** Every answer of every run, from invocation (w) over first phase (x) to return (z). */
  lemma EveryAnswerHasAnOrigin(ms: seq<Machine>, steps: seq<Step>, i: nat, j: nat) returns (w: nat, x: nat, z: nat)
    requires FromRest(ms, steps) && i < |ms| && j < |ms[i].returned|
    ensures w < x <= z < i && CallOf(ms, steps, j, ms[i].returned[j], w, z) && HasOrigin(ms, steps, ms[i].returned[j], x, z)
  {
    hide Next, Ok, Phase, Number, Commit, ByCommit, AtOnce, ByCreation;
    var r := ms[i].returned[j];
    CallsKeepTheirRequests(ms, steps, i);
    assert Called(ms, steps, j, r, i);
    w, z :| z < i && CallOf(ms, steps, j, r, w, z);
    RunStep(ms, steps, z);
    EveryWaitHasAPhase(ms, steps, z);
    x := OriginOfAnswer(ms, steps, r, z);
    RunStep(ms, steps, w);
    if ByCommit(ms, steps, r, x, z) { CommitWaited(ms, steps, r, x, z); }
  }

  lemma CommitWaited(ms: seq<Machine>, steps: seq<Step>, r: Return, x: nat, z: nat)
    requires ByCommit(ms, steps, r, x, z)
    ensures steps[x] == Run(r.thread) && x < z < |ms| && forall y :: x < y <= z ==> r.thread in ms[y].threads
  {
    hide Phase, Commit, Number;
  }

  // ---------------------------------------------------------------- how calls end

  /** A call leaves the machine only in a step of its own, by answering or by a panic, and the panic is
      that of a split whose key and node still match and whose node is empty. */
  lemma CallsEndByAnswering(m: Machine, step: Step, t: ThreadId)
    requires Ok(m) && Enabled(m, step) && t in m.threads
    ensures var m' := Next(m, step);
            && (t !in m'.threads <==> step == Run(t) && (Panics(m, step) || |m'.returned| == |m.returned| + 1))
            && (Panics(m, step) <==>
                  && step.Run? && m.threads[step.thread].Committing? && m.threads[step.thread].op.Split?
                  && var op := m.threads[step.thread].op;
                     op.oldMax in m.shared.index && m.shared.index[op.oldMax] == op.node && m.shared.heap[op.node] == [])
            && (Panics(m, step) ==> m' == m.(threads := m.threads - {step.thread}))
  {
    hide EditForPut, EditForRemove, Commit;
    PanicsExactly(m, step);
    StepTouchesOneCall(m, step);
    if step == Run(t) {
      match m.threads[t] {
        case Calling(Put(v)) => if m.shared.index != map[] { EditForPutKeeps(m.shared, v); }
        case Calling(Remove(key)) => EditForRemoveKeeps(m.shared, key);
        case Creating(v) =>
        case Committing(_, op, _, _) => CommitKeeps(m.shared, op);
      }
    }
  }

  lemma PanicsExactly(m: Machine, step: Step)
    requires Ok(m) && Enabled(m, step)
    ensures Panics(m, step) <==>
              && step.Run? && m.threads[step.thread].Committing? && m.threads[step.thread].op.Split?
              && var op := m.threads[step.thread].op;
                 op.oldMax in m.shared.index && m.shared.index[op.oldMax] == op.node && m.shared.heap[op.node] == []
  {
    hide StoreInHalf;
  }

  /** A split whose key or node no longer match starts its call again, with nothing else changed. */
  lemma ARejectedSplitStartsAgain(m: Machine, t: ThreadId)
    requires Ok(m) && t in m.threads && m.threads[t].Committing? && m.threads[t].op.Split?
    requires var op := m.threads[t].op; !(op.oldMax in m.shared.index && m.shared.index[op.oldMax] == op.node)
    ensures Next(m, Run(t)) == m.(threads := m.threads[t := Calling(m.threads[t].req)])
  {
  }

  // ---------------------------------------------------------------- removes

  /** From s to t a remove took the entry with the key, if there is one, out of the node it was routed
      to, and touched nothing else; it found `found`. */
  ghost predicate TakesOut(s: State, t: State, key: int, found: Option<Pair>)
    requires WellFormed(s) && WellFormed(t) && t.heap.Keys == s.heap.Keys && t.index == s.index
  {
    match Ceiling(s.index.Keys, key)
    case None => t == s && found == None
    case Some(k) =>
      && Answers(found, e => e in NodeAt(s, k), key)
      && (forall e :: e in NodeAt(t, k) <==> e in NodeAt(s, k) && e.key != key)
      && forall id :: id in s.heap && id != s.index[k] ==> t.heap[id] == s.heap[id]
  }

  lemma RemovePhaseMeaning(s: State, key: int)
    requires WellFormed(s)
    ensures var (t, e) := EditForRemove(s, key);
            && WellFormed(t) && t.heap.Keys == s.heap.Keys && t.index == s.index
            && TakesOut(s, t, key, e.result)
            && (e.next.Some? ==> !e.next.value.Split?)
  {
    hide Sorted, Find;
    EditForRemoveKeeps(s, key);
    var c := Ceiling(s.index.Keys, key);
    if c.Some? {
      FindMeaning(NodeAt(s, c.value), key);
      if NodeOps.Has(NodeAt(s, c.value), key) {
        RemovedMeaning(NodeAt(s, c.value), Point(NodeAt(s, c.value), key));
      }
    }
  }

  /** In every run, a remove that returned answers exactly what the node it was routed to held for its
      key at the moment of its first phase, which took that entry out and touched nothing else. */
  lemma RemovesAnswerWhatTheyTookOut(ms: seq<Machine>, steps: seq<Step>, i: nat, j: nat) returns (w: nat, x: nat, z: nat)
    requires FromRest(ms, steps) && i < |ms| && j < |ms[i].returned| && ms[i].returned[j].req.Remove?
    ensures w < x <= z < i && CallOf(ms, steps, j, ms[i].returned[j], w, z)
    ensures var (r, s, t) := (ms[i].returned[j], ms[x].shared, ms[x + 1].shared);
            && steps[x] == Run(r.thread)
            && WellFormed(s) && WellFormed(t) && t.heap.Keys == s.heap.Keys && t.index == s.index
            && TakesOut(s, t, r.req.key, r.result)
  {
    hide CallOf, EditForRemove, Commit, Number, IsRun, WellFormed, TakesOut;
    w, x, z := EveryAnswerHasAnOrigin(ms, steps, i, j);
    var r := ms[i].returned[j];
    assert Begins(ms[x], steps[x], r.thread, r.req);
    RemovePhaseMeaning(ms[x].shared, r.req.key);
  }

  // ---------------------------------------------------------------- calls without interference

  ghost function Call(s: State, req: Request): Outcome
    requires WellFormed(s)
  {
    match req
    case Put(v) => PutCall(s, v)
    case Remove(key) => RemoveCall(s, key)
  }

  /** The steps of one call that nothing interferes with: two or three of them. */
  ghost function Undisturbed(m: Machine, t: ThreadId, req: Request): Machine
    requires Ok(m) && t !in m.threads
  {
    NextOk(m, Invoke(t, req));
    var called := Next(m, Invoke(t, req));
    NextOk(called, Run(t));
    var begun := Next(called, Run(t));
    if t in begun.threads then Next(begun, Run(t)) else begun
  }

  ghost function Concluded(m: Machine, t: ThreadId, req: Request, o: Outcome): Machine {
    Machine(o.after, m.threads, m.returned + [Return(t, req, o.result, Number(o.events, m.shared.nextEvent))])
  }

  /** From a tight shared state such a call has the effect, the answer and the numbered events of the
      call run in one piece, whatever other calls are under way. */
  lemma AnUndisturbedCallIsTheWholeCall(m: Machine, t: ThreadId, req: Request)
    requires Ok(m) && Tight(m.shared) && t !in m.threads
    ensures Undisturbed(m, t, req) == Concluded(m, t, req, Call(m.shared, req))
  {
    hide EditForPut, EditForRemove, Commit, Separated, Injective, Sorted, Number;
    match req {
      case Put(v) =>
        if m.shared.index == map[] {
          CreatingIsTheWholeCall(m, t, v);
        } else {
          EditForPutKeeps(m.shared, v);
          PutTightens(m.shared, v);
          EditIsTheWholeCall(m, t, req, EditForPut(m.shared, v).0, EditForPut(m.shared, v).1);
        }
      case Remove(key) =>
        EditForRemoveKeeps(m.shared, key);
        RemoveTightens(m.shared, key);
        EditIsTheWholeCall(m, t, req, EditForRemove(m.shared, key).0, EditForRemove(m.shared, key).1);
    }
  }

  lemma CreatingIsTheWholeCall(m: Machine, t: ThreadId, v: Pair)
    requires Ok(m) && t !in m.threads && m.shared.index == map[]
    ensures Undisturbed(m, t, Put(v)) == Concluded(m, t, Put(v), PutCall(m.shared, v))
  {
    assert m.threads[t := Calling(Put(v))][t := Creating(v)] - {t} == m.threads;
  }

  lemma EditIsTheWholeCall(m: Machine, t: ThreadId, req: Request, s: State, e: Edit)
    requires Ok(m) && t !in m.threads && (req.Put? ==> m.shared.index != map[]) && Phase(m.shared, req) == (s, e)
    requires WellFormed(s) && s.nextEvent == m.shared.nextEvent + |e.events|
    requires e.next.Some? ==> e.next.value.node in s.heap && (e.next.value.Split? ==> e.events == [])
    requires Complete(s, e).committed
    ensures Undisturbed(m, t, req) == Concluded(m, t, req, Complete(s, e))
  {
    hide EditForPut, EditForRemove, Commit, Number;
    var first := m.shared.nextEvent;
    match e.next {
      case None => assert m.threads[t := Calling(req)] - {t} == m.threads;
      case Some(op) =>
        var waiting := Committing(req, op, e.result, Number(e.events, first));
        assert m.threads[t := Calling(req)][t := waiting] - {t} == m.threads;
        var verdict := Commit(s, op).1;
        NumberAppend(e.events, verdict.events, first);
    }
  }
}
