/** `kill_threads` can always finish: from every state in which it waits, its pool's workers lead it out. */
module SedaProgress {
  import opened Common
  import opened SedaStage
  import opened SedaWorkers
  import opened SedaPool
  import opened SedaInvariant
  import opened SedaPreservation
  import opened SedaTheorems

  /** Steps that a worker has to take before it is back at the top of its loop or gone; a handler that
      is about to schedule also makes a token. */
  function Weight(w: Worker): nat {
    match w
    case Holding(_) => 4
    case Handling(_, _) => 3
    case Scheduling(_, _, _) => 9
    case Leaving => 1
    case _ => 0
  }

  function WeightTo(ws: seq<Worker>, n: nat): nat
    requires n <= |ws|
  {
    if n == 0 then 0 else WeightTo(ws, n - 1) + Weight(ws[n - 1])
  }

  /** The work that is left, in the pool and promised to it. */
  function Work(st: System): nat {
    6 * |st.callers| + 5 * |st.runQueue| + WeightTo(st.workers, |st.workers|)
  }

  lemma {:induction false} WeightToUpdate(ws: seq<Worker>, n: nat, i: nat, x: Worker)
    requires i < |ws| && n <= |ws|
    ensures WeightTo(ws[i := x], n) == WeightTo(ws, n) + if i < n then Weight(x) - Weight(ws[i]) else 0
  {
    if n > 0 {
      WeightToUpdate(ws, n - 1, i, x);
    }
  }

  lemma WeightUpdate(ws: seq<Worker>, i: nat, x: Worker)
    requires i < |ws|
    ensures WeightTo(ws[i := x], |ws|) == WeightTo(ws, |ws|) + Weight(x) - Weight(ws[i])
  {
    WeightToUpdate(ws, |ws|, i, x);
  }

  /** The thread that kills has been told to go on, or waits for kills that are still to come. */
  predicate InKill(k: Killer) {
    k.Notified? || (k.Awaiting? && k.target > 0)
  }

  /** A step of a worker that neither adds events nor goes to sleep. */
  predicate Working(step: Step) {
    step.Look? || step.Remove? || step.HandlerSchedule? || step.Release? || step.ThreadKill? || step.Exit?
  }

  /** The step can be taken and leaves less work. */
  ghost predicate Lightens(st: System, step: Step)
    requires WellFormed(st)
  {
    Working(step) && Apply(st, step).Next? && Work(Apply(st, step).sys) < Work(st)
  }

  ghost predicate LightensAlone(st: System, step: Step)
    requires WellFormed(st)
  {
    Lightens(st, step) && Apply(st, step).sys.killer == st.killer
  }

  lemma ExitLightens(st: System, w: nat)
    requires Inv(st) && w < |st.workers| && st.workers[w].Leaving?
    ensures LightensAlone(st, Exit(w))
  {
    WeightUpdate(st.workers, w, Exited);
  }

  lemma ThreadKillLightens(st: System, w: nat)
    requires Inv(st) && InKill(st.killer) && w < |st.workers|
    requires st.workers[w].Handling? && st.workers[w].stage == KILLER
    ensures Lightens(st, ThreadKill(w)) && InKill(Apply(st, ThreadKill(w)).sys.killer)
  {
    WeightUpdate(st.workers, w, Leaving);
  }

  lemma RemoveLightens(st: System, w: nat)
    requires Inv(st) && w < |st.workers| && st.workers[w].Holding?
    ensures LightensAlone(st, Remove(w))
  {
    KeepsRemove(st, w);
    assert NamesStage(st.workers[w], |st.stages|);
    hide Inv;
    var s := st.workers[w].stage;
    WeightUpdate(st.workers, w, Handling(s, st.stages[s].queue[0]));
  }

  lemma ReleaseLightens(st: System, w: nat)
    requires Inv(st) && w < |st.workers|
    requires st.workers[w].Handling? && st.workers[w].stage != KILLER
    ensures LightensAlone(st, Release(w))
  {
    assert NamesStage(st.workers[w], |st.stages|);
    WeightUpdate(st.workers, w, AtLoop);
  }

  /** A choice of the worker that a signal wakes up. */
  lemma SomeWake(ws: seq<Worker>) returns (wake: nat)
    ensures CanSignal(ws, wake)
  {
    wake := 0;
    if w :| 0 <= w < |ws| && ws[w].Sleeping? {
      wake := w;
    }
  }

  lemma SignalWeighsNothing(ws: seq<Worker>, wake: nat)
    ensures |Signal(ws, wake)| == |ws| && WeightTo(Signal(ws, wake), |ws|) == WeightTo(ws, |ws|)
  {
    if wake < |ws| && ws[wake].Sleeping? {
      WeightUpdate(ws, wake, Woken);
    }
  }

  /** A schedule that does not fail adds a token and at most a signal. */
  lemma ScheduleAddsToken(st: System, s: StageId, own: bool, wake: nat)
    requires s < |st.stages| && !Schedule(st, s, own, wake).Fault? && CanSignal(st.workers, wake)
    ensures Schedule(st, s, own, wake).Next?
    ensures var t := Schedule(st, s, own, wake).sys; Work(t) == Work(st) + 5 && t.killer == st.killer
  {
    SignalWeighsNothing(st.workers, wake);
    hide CanSignal, Signal, WeightTo;
  }

  lemma HandlerScheduleWeight(st: System, w: nat)
    requires w < |st.workers| && st.workers[w].Scheduling?
    ensures Work(HandlerSchedules(st, w)) == Work(st) - 6
  {
    WeightUpdate(st.workers, w, Handling(st.workers[w].stage, st.workers[w].event));
  }

  lemma HandlerScheduleApplied(st: System, w: nat, wake: nat)
    requires WellFormed(st) && w < |st.workers| && st.workers[w].Scheduling? && st.workers[w].target < |st.stages|
    ensures Apply(st, HandlerSchedule(w, wake))
            == Schedule(HandlerSchedules(st, w), st.workers[w].target, true, wake)
  {
    hide Schedule, ReleaseRef, FinishDisconnect, Opened;
    assert Apply(st, HandlerSchedule(w, wake)) == HandlerScheduleStep(st, w, wake) by {
      hide HandlerScheduleStep;
    }
  }

  lemma HandlerScheduleLightens(st: System, w: nat) returns (wake: nat)
    requires Inv(st) && w < |st.workers| && st.workers[w].Scheduling?
    ensures LightensAlone(st, HandlerSchedule(w, wake))
  {
    assert NamesStage(st.workers[w], |st.stages|);
    var back, t := HandlerSchedules(st, w), st.workers[w].target;
    wake := SomeWake(back.workers);
    HandlerScheduleWeight(st, w);
    StepIsSafe(st, HandlerSchedule(w, wake));
    HandlerScheduleApplied(st, w, wake);
    hide Apply, Inv, Work, CanSignal, Schedule;
    ScheduleAddsToken(back, t, true, wake);
  }

  lemma LookLightens(st: System, w: nat)
    requires Inv(st) && st.runQueue != []
    requires w < |st.workers| && (st.workers[w].AtLoop? || st.workers[w].Woken?)
    ensures LightensAlone(st, Look(w))
  {
    WeightUpdate(st.workers, w, Holding(st.runQueue[0]));
  }

  predicate Resting(w: Worker) {
    w.AtLoop? || w.Sleeping? || w.Woken? || w.Exited?
  }

  /** When no worker is on its way, a kill event is a token and a worker is awake to take it. */
  lemma RestingWorkerLooks(st: System) returns (w: nat)
    requires Inv(st) && st.killer.Awaiting? && st.killer.target > 0
    requires forall i :: 0 <= i < |st.workers| ==> Resting(st.workers[i])
    ensures st.runQueue != [] && w < |st.workers| && (st.workers[w].AtLoop? || st.workers[w].Woken?)
  {
    KillProgress(st);
    NobodyIn(st.workers, HoldingFor(KILLER));
    NobodyIn(st.workers, Dooming);
    w := CountWitness(st.workers, Ready);
  }

  lemma NobodyIn(ws: seq<Worker>, c: Class)
    requires forall i :: 0 <= i < |ws| ==> !InClass(ws[i], c)
    ensures Count(ws, c) == 0
  {
    if Count(ws, c) > 0 {
      var i := CountWitness(ws, c);
    }
  }

  /** The step leaves less work and stays within the kill. */
  ghost predicate Advances(st: System, step: Step)
    requires WellFormed(st)
  {
    Lightens(st, step) && InKill(Apply(st, step).sys.killer)
  }

  /** Until the kill has been told to go on and every killed worker is gone, some worker can go on. */
  lemma SomeWorkerAdvances(st: System) returns (step: Step)
    requires Inv(st) && InKill(st.killer)
    requires st.killer.Awaiting? || exists w :: 0 <= w < |st.workers| && st.workers[w].Leaving?
    ensures Advances(st, step)
  {
    hide Lightens, Inv, InKill;
    if w :| 0 <= w < |st.workers| && st.workers[w].Leaving? {
      ExitLightens(st, w);
      step := Exit(w);
    } else if w :| 0 <= w < |st.workers| && st.workers[w].Handling? {
      if st.workers[w].stage == KILLER {
        ThreadKillLightens(st, w);
        step := ThreadKill(w);
      } else {
        ReleaseLightens(st, w);
        step := Release(w);
      }
    } else if w :| 0 <= w < |st.workers| && st.workers[w].Holding? {
      RemoveLightens(st, w);
      step := Remove(w);
    } else if w :| 0 <= w < |st.workers| && st.workers[w].Scheduling? {
      var wake := HandlerScheduleLightens(st, w);
      step := HandlerSchedule(w, wake);
    } else {
      AwaitingInKill(st.killer);
      var w := RestingWorkerLooks(st);
      LookLightens(st, w);
      step := Look(w);
    }
  }

  lemma AwaitingInKill(k: Killer)
    requires InKill(k) && k.Awaiting?
    ensures k.target > 0
  {
  }

  /** The last two steps: nothing refers to the killer stage, so `disconnect` does not wait. */
  lemma KillFinishes(st: System)
    requires Inv(st) && st.killer.Notified?
    requires forall w :: 0 <= w < |st.workers| ==> !st.workers[w].Leaving?
    ensures KillResumeStep(st).Next? && KillReturnStep(KillResumeStep(st).sys).Next?
    ensures KillReturnStep(KillResumeStep(st).sys).sys.killer.NoKill?
  {
    assert StageInv(st, KILLER);
    CountSplits(st.workers);
    forall w | 0 <= w < |st.workers| && InClass(st.workers[w], BusyFor(KILLER))
      ensures InClass(st.workers[w], Dooming)
    {
      assert NamesStage(st.workers[w], |st.stages|);
    }
    if Count(st.workers, BusyFor(KILLER)) > 0 {
      var w := CountWitness(st.workers, BusyFor(KILLER));
      CountMember(st.workers, w, Dooming);
    }
  }

  lemma RunCons(st: System, step: Step, rest: seq<Step>)
    requires WellFormed(st) && Apply(st, step).Next? && WellFormed(Apply(st, step).sys)
    ensures Run(st, [step] + rest) == Run(Apply(st, step).sys, rest)
  {
    assert ([step] + rest)[1..] == rest;
  }

  lemma InvIsWellFormed(st: System)
    requires Inv(st)
    ensures WellFormed(st)
  {
  }

  lemma FinishingSteps(st: System)
    requires WellFormed(st)
    ensures Apply(st, KillResume) == KillResumeStep(st) && Apply(st, KillReturn) == KillReturnStep(st)
  {
  }

  lemma KillFinishingRun(st: System)
    requires Inv(st) && st.killer.Notified?
    requires forall w :: 0 <= w < |st.workers| ==> !st.workers[w].Leaving?
    ensures Run(st, [KillResume] + ([KillReturn] + [])).Next?
    ensures Run(st, [KillResume] + ([KillReturn] + [])).sys.killer.NoKill?
  {
    InvIsWellFormed(st);
    KillFinishes(st);
    FinishingSteps(st);
    StepIsSafe(st, KillResume);
    hide Inv, Apply, KillResumeStep, KillReturnStep;
    var closing := Apply(st, KillResume).sys;
    InvIsWellFormed(closing);
    FinishingSteps(closing);
    StepIsSafe(closing, KillReturn);
    InvIsWellFormed(Apply(closing, KillReturn).sys);
    RunCons(closing, KillReturn, []);
    RunCons(st, KillResume, [KillReturn] + []);
  }

  /** From every state of the protocol in which `kill_threads` waits with something to kill, steps of
      the pool's workers and then its own make it return; nothing else has to happen. */
  lemma {:induction false} KillCanReturn(st: System) returns (steps: seq<Step>)
    requires Inv(st) && InKill(st.killer)
    ensures Run(st, steps).Next? && Run(st, steps).sys.killer.NoKill?
    ensures forall step <- steps :: Working(step) || step.KillResume? || step.KillReturn?
    decreases Work(st)
  {
    InvIsWellFormed(st);
    if st.killer.Awaiting? || exists w :: 0 <= w < |st.workers| && st.workers[w].Leaving? {
      var step := SomeWorkerAdvances(st);
      StepIsSafe(st, step);
      InvIsWellFormed(Apply(st, step).sys);
      hide Inv, Apply, Run, Work;
      var rest := KillCanReturn(Apply(st, step).sys);
      RunCons(st, step, rest);
      steps := [step] + rest;
    } else {
      KillFinishingRun(st);
      steps := [KillResume] + ([KillReturn] + []);
    }
  }

  /** In every reachable state: a `kill_threads` that waits with something to kill can return. */
  lemma WaitingKillReturns(m: nat, n: nat, st: System) returns (steps: seq<Step>)
    requires Reachable(m, n, st) && st.killer.Awaiting? && st.killer.target > 0
    ensures Run(st, steps).Next? && Run(st, steps).sys.killer.NoKill?
    ensures forall step <- steps :: Working(step) || step.KillResume? || step.KillReturn?
  {
    ReachableInv(m, n, st);
    steps := KillCanReturn(st);
  }
}
