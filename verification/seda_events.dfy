/** Which events the handlers get: over every run, the events of a stage reach its handlers one by one, in the
    order in which they were added, and each is handled once. */
module SedaEvents {
  import opened SedaStage
  import opened SedaWorkers
  import opened SedaPool
  import opened SedaInvariant
  import opened SedaPreservation
  import opened SedaTheorems
  import opened SedaProgress

  /** The event that the step adds to stage `s`: by a caller, by a handler, by `kill_threads`. */
  function Added(step: Step, s: StageId): seq<Event> {
    match step
    case CallerAdd(x, e) => if x == s then [e] else []
    case HandlerAdd(_, x, e) => if x == s then [e] else []
    case KillAdd(e) => if s == KILLER then [e] else []
    case _ => []
  }

  /** The event of stage `s` with which a worker starts its handler when it has removed one. */
  function Given(step: Step, after: System, s: StageId): seq<Event> {
    if step.Remove? && step.w < |after.workers| then EventOf(after.workers[step.w], s) else []
  }

  /** The event of stage `s` that the worker's handler has been given, if it has one. */
  function EventOf(w: Worker, s: StageId): seq<Event> {
    if (w.Handling? || w.Scheduling?) && w.stage == s then [w.event] else []
  }

  /** Whether with this step a handler of event `e` of stage `s` ends: the worker releases it, or leaves. */
  predicate Ends(step: Step, before: System, s: StageId, e: Event) {
    (step.Release? || step.ThreadKill?) && step.w < |before.workers| && InClass(before.workers[step.w], WorkingOn(s, e))
  }

  function AddedBy(steps: seq<Step>, s: StageId): seq<Event> {
    if steps == [] then [] else Added(steps[0], s) + AddedBy(steps[1..], s)
  }

  /** The events given to handlers, and those whose handlers have ended, in a run from `st`. */
  function GivenBy(st: System, steps: seq<Step>, s: StageId): seq<Event>
    requires WellFormed(st)
    decreases |steps|
  {
    if steps == [] || !Apply(st, steps[0]).Next? || !WellFormed(Apply(st, steps[0]).sys) then []
    else
      var t := Apply(st, steps[0]).sys;
      Given(steps[0], t, s) + GivenBy(t, steps[1..], s)
  }

  /** How many handlers of event `e` of stage `s` have ended in the run. */
  function EndedBy(st: System, steps: seq<Step>, s: StageId, e: Event): nat
    requires WellFormed(st)
    decreases |steps|
  {
    if steps == [] || !Apply(st, steps[0]).Next? || !WellFormed(Apply(st, steps[0]).sys) then 0
    else (if Ends(steps[0], st, s, e) then 1 else 0) + EndedBy(Apply(st, steps[0]).sys, steps[1..], s, e)
  }

  /** How many handlers are working on event `e` of stage `s`. */
  function InHand(ws: seq<Worker>, s: StageId, e: Event): nat {
    Count(ws, WorkingOn(s, e))
  }

  function Times(es: seq<Event>, e: Event): nat {
    multiset(es)[e]
  }

  // ----- The queue

  /** What is given to a handler leaves the front of the queue, what is added joins its end. */
  ghost predicate Queues(st: System, step: Step, t: System, s: StageId) {
    && s < |st.stages| == |t.stages|
    && Given(step, t, s) + t.stages[s].queue == st.stages[s].queue + Added(step, s)
    && t.stages[s].added == st.stages[s].added + Added(step, s)
  }

  /** Nothing is given or added. */
  lemma QueueStays(st: System, step: Step, t: System, s: StageId)
    requires s < |st.stages| == |t.stages| && t.stages[s].queue == st.stages[s].queue
    requires t.stages[s].added == st.stages[s].added && Given(step, t, s) == [] && Added(step, s) == []
    ensures Queues(st, step, t, s)
  {
    assert [] + t.stages[s].queue == st.stages[s].queue + [];
    assert st.stages[s].added + [] == st.stages[s].added;
  }

  lemma QueueGrows(st: System, step: Step, t: System, s: StageId, e: Event)
    requires s < |st.stages| == |t.stages| && t.stages[s].queue == st.stages[s].queue + [e]
    requires t.stages[s].added == st.stages[s].added + [e] && Given(step, t, s) == [] && Added(step, s) == [e]
    ensures Queues(st, step, t, s)
  {
    assert [] + t.stages[s].queue == st.stages[s].queue + [e];
  }

  /** A handler gets the event that leaves the queue, which is the oldest. */
  lemma RemoveQueues(st: System, w: nat, s: StageId)
    requires s < |st.stages| && RemoveStep(st, w).Next?
    ensures Queues(st, Remove(w), RemoveStep(st, w).sys, s)
  {
    var t := RemoveStep(st, w).sys;
    if st.workers[w].stage == s {
      var q := st.stages[s].queue;
      assert [q[0]] + q[1..] == q + [];
      assert st.stages[s].added + [] == st.stages[s].added;
    } else {
      QueueStays(st, Remove(w), t, s);
    }
  }

  lemma WorkerStepQueues(st: System, step: Step, s: StageId)
    requires WellFormed(st) && s < |st.stages| && !OfStage(step) && !OfKill(step) && Apply(st, step).Next?
    ensures Queues(st, step, Apply(st, step).sys, s)
  {
    hide Queues, Spawned, Signal;
    if step.Remove? {
      RemoveQueues(st, step.w, s);
    } else if step.HandlerAdd? && step.t == s {
      QueueGrows(st, step, Apply(st, step).sys, s, step.e);
    } else {
      QueueStays(st, step, Apply(st, step).sys, s);
    }
  }

  lemma StageStepQueues(st: System, step: Step, s: StageId)
    requires WellFormed(st) && s < |st.stages| && OfStage(step) && Apply(st, step).Next?
    ensures Queues(st, step, Apply(st, step).sys, s)
  {
    hide Queues, Signal;
    if step.CallerAdd? && step.s == s {
      QueueGrows(st, step, Apply(st, step).sys, s, step.e);
    } else {
      QueueStays(st, step, Apply(st, step).sys, s);
    }
  }

  lemma KillStepQueues(st: System, step: Step, s: StageId)
    requires WellFormed(st) && s < |st.stages| && OfKill(step) && Apply(st, step).Next?
    ensures Queues(st, step, Apply(st, step).sys, s)
  {
    hide Queues, Signal;
    if step.KillAdd? && s == KILLER {
      QueueGrows(st, step, Apply(st, step).sys, s, step.e);
    } else {
      QueueStays(st, step, Apply(st, step).sys, s);
    }
  }

  lemma StepQueues(st: System, step: Step, s: StageId)
    requires WellFormed(st) && s < |st.stages| && Apply(st, step).Next?
    ensures Queues(st, step, Apply(st, step).sys, s)
  {
    hide Apply, Queues;
    if OfStage(step) {
      StageStepQueues(st, step, s);
    } else if OfKill(step) {
      KillStepQueues(st, step, s);
    } else {
      WorkerStepQueues(st, step, s);
    }
  }

  lemma Chained(given: seq<Event>, rest: seq<Event>, last: seq<Event>, mid: seq<Event>, first: seq<Event>,
                added: seq<Event>, more: seq<Event>)
    requires rest + last == mid + more && given + mid == first + added
    ensures (given + rest) + last == first + (added + more)
  {
    assert (given + rest) + last == given + (rest + last) == (given + mid) + more;
  }

  lemma {:induction false} RunQueues(st: System, steps: seq<Step>, s: StageId)
    requires Inv(st) && s < |st.stages| && Run(st, steps).Next?
    ensures var t := Run(st, steps).sys;
      && s < |t.stages|
      && GivenBy(st, steps, s) + t.stages[s].queue == st.stages[s].queue + AddedBy(steps, s)
      && t.stages[s].added == st.stages[s].added + AddedBy(steps, s)
    decreases |steps|
  {
    if steps == [] {
      assert [] + st.stages[s].queue == st.stages[s].queue + [];
      assert st.stages[s].added + [] == st.stages[s].added;
    } else {
      var t := Apply(st, steps[0]).sys;
      InvIsWellFormed(st);
      StepQueues(st, steps[0], s);
      StepIsSafe(st, steps[0]);
      InvIsWellFormed(t);
      hide Apply, Inv, Given, Added;
      RunQueues(t, steps[1..], s);
      var last := Run(st, steps).sys.stages[s];
      Chained(Given(steps[0], t, s), GivenBy(t, steps[1..], s), last.queue, t.stages[s].queue, st.stages[s].queue,
        Added(steps[0], s), AddedBy(steps[1..], s));
      Chained([], [], last.added, t.stages[s].added, st.stages[s].added, Added(steps[0], s), AddedBy(steps[1..], s));
    }
  }

  // ----- The handlers

  lemma Moves(ws: seq<Worker>, i: nat, x: Worker, s: StageId, e: Event)
    requires i < |ws|
    ensures InHand(ws[i := x], s, e) == InHand(ws, s, e) - One(ws[i], WorkingOn(s, e)) + One(x, WorkingOn(s, e))
  {
    CountUpdate(ws, i, x);
  }

  /** Handlers of event `e` of the stage: one more when one is given it, one less when one ends. */
  ghost predicate Hands(st: System, step: Step, t: System, s: StageId, e: Event) {
    InHand(t.workers, s, e) + (if Ends(step, st, s, e) then 1 else 0)
    == InHand(st.workers, s, e) + Times(Given(step, t, s), e)
  }

  lemma ScheduleMoves(st: System, x: StageId, own: bool, wake: nat, s: StageId, e: Event)
    requires x < |st.stages| && Schedule(st, x, own, wake).Next?
    ensures InHand(Schedule(st, x, own, wake).sys.workers, s, e) == InHand(st.workers, s, e)
  {
    if wake < |st.workers| && st.workers[wake].Sleeping? {
      Moves(st.workers, wake, Woken, s, e);
    }
  }

  lemma LookHands(st: System, w: nat, s: StageId, e: Event)
    requires LookStep(st, w).Next?
    ensures Hands(st, Look(w), LookStep(st, w).sys, s, e)
  {
    Moves(st.workers, w, LookStep(st, w).sys.workers[w], s, e);
  }

  lemma SpuriousWakeHands(st: System, w: nat, s: StageId, e: Event)
    requires SpuriousWakeStep(st, w).Next?
    ensures Hands(st, SpuriousWake(w), SpuriousWakeStep(st, w).sys, s, e)
  {
    Moves(st.workers, w, Woken, s, e);
  }

  lemma RemoveHands(st: System, w: nat, s: StageId, e: Event)
    requires RemoveStep(st, w).Next?
    ensures Hands(st, Remove(w), RemoveStep(st, w).sys, s, e)
  {
    Moves(st.workers, w, RemoveStep(st, w).sys.workers[w], s, e);
  }

  lemma HandlerAddHands(st: System, w: nat, x: StageId, v: Event, s: StageId, e: Event)
    requires HandlerAddStep(st, w, x, v).Next?
    ensures Hands(st, HandlerAdd(w, x, v), HandlerAddStep(st, w, x, v).sys, s, e)
  {
    if st.stages[x].connected {
      Moves(st.workers, w, HandlerAddStep(st, w, x, v).sys.workers[w], s, e);
    }
  }

  lemma HandlerScheduleHands(st: System, w: nat, wake: nat, s: StageId, e: Event)
    requires HandlerScheduleStep(st, w, wake).Next?
    ensures Hands(st, HandlerSchedule(w, wake), HandlerScheduleStep(st, w, wake).sys, s, e)
  {
    var mid := HandlerSchedules(st, w);
    Moves(st.workers, w, mid.workers[w], s, e);
    hide Schedule, InHand;
    ScheduleMoves(mid, st.workers[w].target, true, wake, s, e);
  }

  lemma ReleaseHands(st: System, w: nat, s: StageId, e: Event)
    requires WellFormed(st) && ReleaseStep(st, w).Next?
    ensures Hands(st, Release(w), ReleaseStep(st, w).sys, s, e)
  {
    Moves(st.workers, w, AtLoop, s, e);
  }

  lemma ThreadKillHands(st: System, w: nat, s: StageId, e: Event)
    requires ThreadKillStep(st, w).Next?
    ensures Hands(st, ThreadKill(w), ThreadKillStep(st, w).sys, s, e)
  {
    Moves(st.workers, w, Leaving, s, e);
  }

  lemma ExitHands(st: System, w: nat, s: StageId, e: Event)
    requires WellFormed(st) && ExitStep(st, w).Next?
    ensures Hands(st, Exit(w), ExitStep(st, w).sys, s, e)
  {
    Moves(st.workers, w, Exited, s, e);
  }

  lemma AddThreadsHands(st: System, n: nat, s: StageId, e: Event)
    requires AddThreadsStep(st, n).Next?
    ensures Hands(st, AddThreads(n), AddThreadsStep(st, n).sys, s, e)
  {
    CountSpawn(st.workers, n);
  }

  lemma WorkerStepHands(st: System, step: Step, s: StageId, e: Event)
    requires WellFormed(st) && !OfStage(step) && !OfKill(step) && Apply(st, step).Next?
    ensures Hands(st, step, Apply(st, step).sys, s, e)
  {
    hide ConnectStep, ConnectScheduleStep, ConnectDoneStep, DisconnectStep, ResumeDisconnectStep,
      CallerAddStep, CallerScheduleStep, LookStep, SpuriousWakeStep, RemoveStep, HandlerAddStep,
      HandlerScheduleStep, ReleaseStep, ThreadKillStep, ExitStep, AddThreadsStep, KillThreadsStep,
      KillAddStep, KillScheduleStep, KillAwaitStep, KillResumeStep, KillReturnStep, Hands;
    match step {
      case Look(w) => LookHands(st, w, s, e);
      case SpuriousWake(w) => SpuriousWakeHands(st, w, s, e);
      case Remove(w) => RemoveHands(st, w, s, e);
      case HandlerAdd(w, x, v) => HandlerAddHands(st, w, x, v, s, e);
      case HandlerSchedule(w, wake) => HandlerScheduleHands(st, w, wake, s, e);
      case Release(w) => ReleaseHands(st, w, s, e);
      case ThreadKill(w) => ThreadKillHands(st, w, s, e);
      case Exit(w) => ExitHands(st, w, s, e);
      case AddThreads(n) => AddThreadsHands(st, n, s, e);
    }
  }

  lemma StageStepHands(st: System, step: Step, s: StageId, e: Event)
    requires WellFormed(st) && OfStage(step) && Apply(st, step).Next?
    ensures Hands(st, step, Apply(st, step).sys, s, e)
  {
    hide InHand, Schedule;
    if step.ConnectSchedule? {
      var mid := st.(ctl := st.ctl[step.s := Connecting(st.ctl[step.s].backlog - 1)]);
      ScheduleMoves(mid, step.s, false, step.wake, s, e);
    } else if step.CallerSchedule? {
      ScheduleMoves(st.(callers := st.callers - multiset{step.s}), step.s, false, step.wake, s, e);
    }
  }

  lemma KillStepHands(st: System, step: Step, s: StageId, e: Event)
    requires WellFormed(st) && OfKill(step) && Apply(st, step).Next?
    ensures Hands(st, step, Apply(st, step).sys, s, e)
  {
    hide InHand, Schedule;
    if step.KillSchedule? {
      ScheduleMoves(st.(killer := Generating(st.killer.target, st.killer.sent)), KILLER, false, step.wake, s, e);
    }
  }

  lemma StepHands(st: System, step: Step, s: StageId, e: Event)
    requires WellFormed(st) && Apply(st, step).Next?
    ensures Hands(st, step, Apply(st, step).sys, s, e)
  {
    hide Apply, Hands;
    if OfStage(step) {
      StageStepHands(st, step, s, e);
    } else if OfKill(step) {
      KillStepHands(st, step, s, e);
    } else {
      WorkerStepHands(st, step, s, e);
    }
  }

  lemma {:induction false} RunHands(st: System, steps: seq<Step>, s: StageId, e: Event)
    requires Inv(st) && Run(st, steps).Next?
    ensures InHand(Run(st, steps).sys.workers, s, e) + EndedBy(st, steps, s, e)
            == InHand(st.workers, s, e) + Times(GivenBy(st, steps, s), e)
    decreases |steps|
  {
    if steps != [] {
      var t := Apply(st, steps[0]).sys;
      InvIsWellFormed(st);
      StepHands(st, steps[0], s, e);
      StepIsSafe(st, steps[0]);
      InvIsWellFormed(t);
      hide Apply, Inv, Given, Ends, InHand;
      RunHands(t, steps[1..], s, e);
      assert Times(Given(steps[0], t, s) + GivenBy(t, steps[1..], s), e)
          == Times(Given(steps[0], t, s), e) + Times(GivenBy(t, steps[1..], s), e);
    }
  }

  // ----- The promise

  /** In every run of the pool, for every stage: the events given to handlers and then those in the queue are the
      events added, in their order, so no event is lost, doubled or overtaken. How often an event was given
      is how many handlers are working on it and how many have ended. */
  lemma EventsAreHandledOnce(m: nat, n: nat, steps: seq<Step>, s: StageId, e: Event)
    requires s <= m && Run(Initial(m, n), steps).Next?
    ensures var st, given := Run(Initial(m, n), steps).sys, GivenBy(Initial(m, n), steps, s);
      && s < |st.stages|
      && given + st.stages[s].queue == AddedBy(steps, s)
      && multiset(given)[e] == InHand(st.workers, s, e) + EndedBy(Initial(m, n), steps, s, e)
  {
    InitialInv(m, n);
    RunQueues(Initial(m, n), steps, s);
    RunHands(Initial(m, n), steps, s, e);
    NobodyStarts(m, n, s, e);
    hide Inv, Run, InHand, GivenBy, AddedBy, EndedBy, Initial;
    assert [] + AddedBy(steps, s) == AddedBy(steps, s);
  }

  lemma NobodyStarts(m: nat, n: nat, s: StageId, e: Event)
    requires s <= m
    ensures InHand(Initial(m, n).workers, s, e) == 0
    ensures s < |Initial(m, n).stages| && Initial(m, n).stages[s].queue == []
  {
    InitialCounts(n, WorkingOn(s, e));
    hide Count, Spawned;
  }

  /** The histories that a stage keeps are those of the events added and given. */
  lemma HistoriesAreReal(m: nat, n: nat, steps: seq<Step>, s: StageId)
    requires s <= m && Run(Initial(m, n), steps).Next?
    ensures var st := Run(Initial(m, n), steps).sys;
      && s < |st.stages| && st.stages[s].added == AddedBy(steps, s)
      && st.stages[s].removed == GivenBy(Initial(m, n), steps, s)
  {
    InitialInv(m, n);
    RunQueues(Initial(m, n), steps, s);
    RunKeepsInv(Initial(m, n), steps);
    assert [] + AddedBy(steps, s) == AddedBy(steps, s);
    var st := Run(Initial(m, n), steps).sys;
    AddedIsRemovedAndQueue(st, s);
    hide Inv, Run, GivenBy, AddedBy, Initial;
    SameFront(st.stages[s].removed, GivenBy(Initial(m, n), steps, s), st.stages[s].queue);
  }

  lemma AddedIsRemovedAndQueue(st: System, s: StageId)
    requires Inv(st) && s < |st.stages|
    ensures st.stages[s].added == st.stages[s].removed + st.stages[s].queue
  {
    assert StageInv(st, s);
  }

  lemma SameFront(a: seq<Event>, b: seq<Event>, q: seq<Event>)
    requires a + q == b + q
    ensures a == b
  {
    assert |a| == |b| && (a + q)[..|a|] == a && (b + q)[..|b|] == b;
  }
}
