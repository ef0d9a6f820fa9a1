/** No thread of the pool protocol is ever stuck: in every state of the invariant, and so in every reachable one,
    each of them can take its next step, unless it waits for what it has to wait for. */
module SedaCalls {
  import opened SedaStage
  import opened SedaWorkers
  import opened SedaPool
  import opened SedaInvariant
  import opened SedaPreservation
  import opened SedaTheorems
  import opened SedaProgress

  predicate Taken(st: System, step: Step)
    requires WellFormed(st)
  {
    Apply(st, step).Next?
  }

  /** `schedule` of the stage fails no assertion. */
  predicate CanSchedule(st: System, s: StageId) {
    s < |st.stages| && st.stages[s].hasPool && st.stages[s].queue != []
  }

  /** Whatever the choice of the worker that is woken up comes to, there is one. */
  lemma ScheduleIsTaken(st: System, s: StageId, own: bool) returns (wake: nat)
    requires CanSchedule(st, s)
    ensures Schedule(st, s, own, wake).Next?
  {
    wake := SomeWake(st.workers);
  }

  /** What is owed can be scheduled. */
  lemma OwedCanBeScheduled(st: System, s: StageId)
    requires Inv(st) && s < |st.stages| && InFlight(st, s) > 0
    ensures CanSchedule(st, s)
  {
    assert StageInv(st, s);
  }

  /** A caller can add an event to any stage but the killer, in any state of the stage, and make the schedule that
      it owes then. */
  lemma CallersGoOn(st: System, s: StageId, e: Event) returns (wake: nat)
    requires Inv(st) && 0 < s < |st.stages|
    ensures Taken(st, CallerAdd(s, e))
    ensures s in st.callers ==> Taken(st, CallerSchedule(s, wake))
  {
    wake := 0;
    if s in st.callers {
      OwedCanBeScheduled(st, s);
      var mid := st.(callers := st.callers - multiset{s});
      wake := ScheduleIsTaken(mid, s, false);
      CallerScheduleIs(st, s, wake);
    }
  }

  lemma CallerScheduleIs(st: System, s: StageId, wake: nat)
    requires WellFormed(st) && s in st.callers && s < |st.stages|
    ensures Apply(st, CallerSchedule(s, wake)) == Schedule(st.(callers := st.callers - multiset{s}), s, false, wake)
  {
    hide Schedule;
  }

  /** An idle stage can be connected, with its whole backlog to schedule, or disconnected; a `connect` under way
      can schedule the next event or return. */
  lemma ControllersGoOn(st: System, s: StageId) returns (wake: nat)
    requires Inv(st) && 0 < s < |st.stages|
    ensures st.ctl[s].Idle? && !st.stages[s].connected ==>
      Taken(st, Connect(s)) && Apply(st, Connect(s)).sys.ctl[s] == Connecting(|st.stages[s].queue|)
    ensures st.ctl[s].Idle? && st.stages[s].connected ==> Taken(st, Disconnect(s))
    ensures st.ctl[s] == Connecting(0) ==> Taken(st, ConnectDone(s))
    ensures st.ctl[s].Connecting? && st.ctl[s].backlog > 0 ==> Taken(st, ConnectSchedule(s, wake))
    ensures st.ctl[s].Waiting? || st.ctl[s].Signalled? ==> Taken(st, ResumeDisconnect(s))
  {
    wake := 0;
    if st.ctl[s].Connecting? && st.ctl[s].backlog > 0 {
      OwedCanBeScheduled(st, s);
      wake := ScheduleIsTaken(st.(ctl := st.ctl[s := Connecting(st.ctl[s].backlog - 1)]), s, false);
    }
    hide Inv, Schedule;
  }

  /** A worker that does not sleep goes on: it looks for a token, removes the event, handles it, adds events, makes
      its schedules, releases; and a killed one exits. Only `thread_kill` waits for a mutex. */
  lemma WorkersGoOn(st: System, w: nat, t: StageId, e: Event)
    requires Inv(st) && w < |st.workers| && 0 < t < |st.stages|
    ensures var me := st.workers[w];
      && (me.AtLoop? || me.Woken? ==> Taken(st, Look(w)))
      && (me.Holding? ==> Taken(st, Remove(w)))
      && (me.Handling? && me.stage != KILLER ==> Taken(st, Release(w)) && Taken(st, HandlerAdd(w, t, e)))
      && (me.Handling? && me.stage == KILLER && MutexFree(st) ==> Taken(st, ThreadKill(w)))
      && (me.Leaving? ==> Taken(st, Exit(w)))
  {
    assert NamesStage(st.workers[w], |st.stages|);
    WorkerSteps(st, w, t, e);
    RemoveFinds(st, w);
    InvIsWellFormed(st);
    hide Inv, Apply;
  }

  /** The steps by their names. */
  lemma WorkerSteps(st: System, w: nat, t: StageId, e: Event)
    requires WellFormed(st)
    ensures Apply(st, Look(w)) == LookStep(st, w) && Apply(st, Remove(w)) == RemoveStep(st, w)
    ensures Apply(st, Release(w)) == ReleaseStep(st, w) && Apply(st, HandlerAdd(w, t, e)) == HandlerAddStep(st, w, t, e)
    ensures Apply(st, ThreadKill(w)) == ThreadKillStep(st, w) && Apply(st, Exit(w)) == ExitStep(st, w)
  {
    hide LookStep, RemoveStep, ReleaseStep, HandlerAddStep, ThreadKillStep, ExitStep;
  }

  lemma WorkersSchedule(st: System, w: nat) returns (wake: nat)
    requires Inv(st) && w < |st.workers| && st.workers[w].Scheduling?
    ensures Taken(st, HandlerSchedule(w, wake))
  {
    wake := HandlerScheduleLightens(st, w);
    hide Inv, Apply;
  }

  /** `kill_threads` goes on: it connects the killer, posts its events one by one, waits, and when told to go on
      disconnects. */
  lemma KillerGoesOn(st: System, e: Event)
    requires Inv(st)
    ensures var killer, c := st.killer, st.ctl[KILLER];
      && (killer.Generating? && c.Connecting? ==> Taken(st, ConnectDone(KILLER)))
      && (killer.Generating? && c.Idle? && killer.sent < killer.target ==> Taken(st, KillAdd(e)))
      && (killer.Generating? && c.Idle? && killer.sent == killer.target ==> Taken(st, KillAwait))
      && (killer.Notified? ==> Taken(st, KillResume))
      && (killer.Closing? && c.Idle? ==> Taken(st, KillReturn))
      && (killer.Closing? && !c.Idle? ==> Taken(st, ResumeDisconnect(KILLER)))
  {
    KillerParts(st);
    KillSteps(st, e, 0);
    InvIsWellFormed(st);
    hide Apply, Inv, FinishDisconnect;
  }

  /** The steps by their names. */
  lemma KillSteps(st: System, e: Event, k: nat)
    requires WellFormed(st)
    ensures Apply(st, ConnectDone(KILLER)) == ConnectDoneStep(st, KILLER)
    ensures Apply(st, KillAdd(e)) == KillAddStep(st, e) && Apply(st, KillAwait) == KillAwaitStep(st)
    ensures Apply(st, KillResume) == KillResumeStep(st) && Apply(st, KillReturn) == KillReturnStep(st)
    ensures Apply(st, ResumeDisconnect(KILLER)) == ResumeDisconnectStep(st, KILLER)
    ensures Apply(st, AddThreads(k)) == AddThreadsStep(st, k) && Apply(st, KillThreads(k)) == KillThreadsStep(st, k)
  {
    hide ConnectDoneStep, KillAddStep, KillAwaitStep, KillResumeStep, KillReturnStep, ResumeDisconnectStep,
      AddThreadsStep, KillThreadsStep;
  }

  lemma KillerParts(st: System)
    requires Inv(st)
    ensures st.killer.Generating? ==> KillerOpen(st.stages[KILLER], st.ctl[KILLER])
    ensures st.killer.Notified? ==> st.stages[KILLER].connected
    ensures st.killer.Closing? ==> !st.ctl[KILLER].Connecting?
  {
    assert KillInv(st);
  }

  lemma KillerSchedules(st: System) returns (wake: nat)
    requires Inv(st) && st.killer.Posting?
    ensures Taken(st, KillSchedule(wake))
  {
    PostingIsOwed(st);
    OwedCanBeScheduled(st, KILLER);
    wake := ScheduleIsTaken(st.(killer := Generating(st.killer.target, st.killer.sent)), KILLER, false);
    hide Inv, Schedule;
  }

  lemma PostingIsOwed(st: System)
    requires WellFormed(st) && st.killer.Posting?
    ensures InFlight(st, KILLER) > 0
  {
  }

  /** `add_threads` and `kill_threads` get in whenever the mutex is free; a second `kill_threads` does so while kills
      are outstanding, and then changes nothing. */
  lemma OthersGetIn(st: System, k: nat)
    requires Inv(st) && MutexFree(st)
    ensures Taken(st, AddThreads(k))
    ensures st.killer.NoKill? ==> Taken(st, KillThreads(k)) && Apply(st, KillThreads(k)).sys.killer.Generating?
    ensures st.toKill > 0 ==> Apply(st, KillThreads(k)) == Next(st)
  {
    KillSteps(st, 0, k);
    EnrolledNotNegative(st);
    InvIsWellFormed(st);
    hide Apply, Inv, Opened, Spawned;
  }

  lemma EnrolledNotNegative(st: System)
    requires Inv(st)
    ensures st.nthreads >= 0
    ensures st.killer.NoKill? ==> st.toKill == 0 && !st.stages[KILLER].connected
  {
    assert PoolInv(st) && KillInv(st);
  }

  // ----- A `kill_threads` with something to kill can return, wherever it is

  lemma {:induction false} RunConcat(st: System, a: seq<Step>, b: seq<Step>)
    requires WellFormed(st) && Run(st, a).Next? && WellFormed(Run(st, a).sys)
    ensures Run(st, a + b) == Run(Run(st, a).sys, b)
    decreases |a|
  {
    if a == [] {
      assert a + b == b;
    } else {
      assert (a + b)[1..] == a[1..] + b;
      RunConcat(Apply(st, a[0]).sys, a[1..], b);
    }
  }

  /** The steps of the workers, and of the thread that kills once it has begun. */
  predicate OfTheKill(step: Step) {
    Working(step) || (OfKill(step) && !step.KillThreads?)
    || step == ConnectDone(KILLER) || step == ResumeDisconnect(KILLER)
  }

  /** What is left to do before `kill_threads` waits. */
  function Postings(st: System): int
    requires WellFormed(st) && (st.killer.Generating? || st.killer.Posting?)
  {
    3 * (st.killer.target - st.killer.sent) + (if st.killer.Posting? then 2 else 0)
    + if st.ctl[KILLER].Connecting? then 1 else 0
  }

  /** The next step on the way to the wait. */
  lemma PostingStep(st: System) returns (step: Step)
    requires Inv(st) && (st.killer.Generating? || st.killer.Posting?)
    requires st.killer.Generating? ==> st.ctl[KILLER].Connecting? || st.killer.sent < st.killer.target
    ensures OfTheKill(step) && Apply(st, step).Next?
    ensures var t := Apply(st, step).sys;
      && WellFormed(t) && (t.killer.Generating? || t.killer.Posting?)
      && t.killer.target == st.killer.target && Postings(t) < Postings(st)
  {
    KillerParts(st);
    PostsAtMost(st);
    KillSteps(st, 0, 0);
    InvIsWellFormed(st);
    if st.killer.Posting? {
      var wake := KillerSchedules(st);
      step := KillSchedule(wake);
      KillScheduleIs(st, wake);
      hide Inv, Apply;
    } else if st.ctl[KILLER].Connecting? {
      step := ConnectDone(KILLER);
      hide Inv, Apply;
    } else {
      step := KillAdd(0);
      hide Inv, Apply;
    }
  }

  lemma KillScheduleIs(st: System, wake: nat)
    requires WellFormed(st) && st.killer.Posting? && Apply(st, KillSchedule(wake)).Next?
    ensures var t := Apply(st, KillSchedule(wake)).sys;
      WellFormed(t) && t.killer == Generating(st.killer.target, st.killer.sent) && t.ctl == st.ctl
  {
    hide Signal, CanSignal;
  }

  lemma PostsAtMost(st: System)
    requires Inv(st)
    ensures st.killer.Generating? || st.killer.Posting? ==> st.killer.sent <= st.killer.target
    ensures st.killer.Posting? ==> KillerOpen(st.stages[KILLER], st.ctl[KILLER])
  {
    assert KillInv(st);
  }

  lemma {:induction false} KillPosts(st: System) returns (steps: seq<Step>)
    requires Inv(st) && (st.killer.Generating? || st.killer.Posting?)
    ensures Run(st, steps).Next? && Run(st, steps).sys.killer == Awaiting(st.killer.target)
    ensures forall step <- steps :: OfTheKill(step)
    decreases Postings(st)
  {
    InvIsWellFormed(st);
    PostsAtMost(st);
    var step;
    if st.killer.Generating? && !st.ctl[KILLER].Connecting? && st.killer.sent == st.killer.target {
      KillerParts(st);
      KillSteps(st, 0, 0);
      hide Inv, Apply;
      RunCons(st, KillAwait, []);
      steps := [KillAwait] + [];
    } else {
      step := PostingStep(st);
      StepIsSafe(st, step);
      hide Inv, Apply, Run, Postings;
      var rest := KillPosts(Apply(st, step).sys);
      RunCons(st, step, rest);
      steps := [step] + rest;
    }
  }

  lemma ClosedKiller(st: System)
    requires Inv(st) && st.killer.Closing?
    requires forall w :: 0 <= w < |st.workers| ==> !st.workers[w].Leaving?
    ensures st.stages[KILLER].ref == 0
  {
    assert StageInv(st, KILLER) && KillInv(st);
    CountSplits(st.workers);
    forall w | 0 <= w < |st.workers| && InClass(st.workers[w], BusyFor(KILLER))
      ensures InClass(st.workers[w], Dooming)
    {
      assert NamesStage(st.workers[w], |st.stages|);
    }
    if Count(st.workers, BusyFor(KILLER)) > 0 {
      var w := CountWitness(st.workers, BusyFor(KILLER));
      CountMember(st.workers, w, Dooming);
    }
  }

  /** Waiting for the killer stage: the killed workers exit, and `kill_threads` returns. */
  lemma {:induction false} ClosingReturns(st: System) returns (steps: seq<Step>)
    requires Inv(st) && st.killer.Closing?
    ensures Run(st, steps).Next? && Run(st, steps).sys.killer.NoKill?
    ensures forall step <- steps :: OfTheKill(step)
    decreases Work(st), if st.ctl[KILLER].Idle? then 0 else 1
  {
    InvIsWellFormed(st);
    KillerParts(st);
    KillSteps(st, 0, 0);
    if w :| 0 <= w < |st.workers| && st.workers[w].Leaving? {
      ExitLightens(st, w);
      StepIsSafe(st, Exit(w));
      hide Inv, Apply, Run, Work;
      var rest := ClosingReturns(Apply(st, Exit(w)).sys);
      RunCons(st, Exit(w), rest);
      steps := [Exit(w)] + rest;
    } else if st.ctl[KILLER].Idle? {
      hide Inv, Apply;
      RunCons(st, KillReturn, []);
      steps := [KillReturn] + [];
    } else {
      ClosedKiller(st);
      StepIsSafe(st, ResumeDisconnect(KILLER));
      hide Inv, Apply, Run;
      var rest := ClosingReturns(Apply(st, ResumeDisconnect(KILLER)).sys);
      RunCons(st, ResumeDisconnect(KILLER), rest);
      steps := [ResumeDisconnect(KILLER)] + rest;
    }
  }

  /** In every reachable state: a `kill_threads` with something to kill can return, wherever it is. */
  lemma KillCallReturns(m: nat, n: nat, st: System) returns (steps: seq<Step>)
    requires Reachable(m, n, st) && !st.killer.NoKill? && st.killer.target > 0
    ensures Run(st, steps).Next? && Run(st, steps).sys.killer.NoKill?
    ensures forall step <- steps :: OfTheKill(step)
  {
    ReachableInv(m, n, st);
    InvIsWellFormed(st);
    if st.killer.Closing? {
      steps := ClosingReturns(st);
    } else if InKill(st.killer) {
      steps := KillCanReturn(st);
    } else {
      var posting := KillPosts(st);
      RunKeepsInv(st, posting);
      var waiting := Run(st, posting).sys;
      InvIsWellFormed(waiting);
      hide Inv, Run;
      var rest := KillCanReturn(waiting);
      RunConcat(st, posting, rest);
      steps := posting + rest;
    }
  }
}
