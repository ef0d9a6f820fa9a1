/** When a `disconnect` that waits can return. */
module SedaDisconnect {
  import opened Common
  import opened SedaStage
  import opened SedaWorkers
  import opened SedaPool
  import opened SedaInvariant
  import opened SedaPreservation
  import opened SedaTheorems
  import opened SedaProgress

  /** `disconnect` is in its wait loop. */
  predicate Waits(c: Control) {
    c.Waiting? || c.Signalled?
  }

  function Kills(q: seq<StageId>): nat {
    multiset(q)[KILLER]
  }

  /** The kill tokens in front of the last token of `s`. */
  function KillsBefore(q: seq<StageId>, s: StageId): nat {
    if q == [] then 0
    else if q[|q| - 1] == s then Kills(q[..|q| - 1])
    else KillsBefore(q[..|q| - 1], s)
  }

  /** Schedules of `s` that a thread outside the pool or a handler has promised. */
  function Owed(st: System, s: StageId): nat {
    st.callers[s] + Count(st.workers, PostingTo(s))
  }

  /** More workers are free than kill events come before the last token of the stage, wherever that is
      or will be. The kill stage itself needs no tokens to be run. */
  predicate Enough(st: System, s: StageId) {
    s != KILLER ==>
      && (Owed(st, s) > 0 ==> Kills(st.runQueue) < Count(st.workers, Free))
      && (s in st.runQueue ==> KillsBefore(st.runQueue, s) < Count(st.workers, Free))
  }

  // ----- What a step does to the workers and tokens of a stage

  lemma KillsSnoc(q: seq<StageId>, x: StageId, s: StageId)
    ensures Kills(q + [x]) == Kills(q) + if x == KILLER then 1 else 0
    ensures KillsBefore(q + [x], s) == if x == s then Kills(q) else KillsBefore(q, s)
  {
    assert (q + [x])[..|q|] == q;
  }

  lemma {:induction false} KillsBeforeFirst(q: seq<StageId>, s: StageId)
    requires q != [] && s != KILLER
    ensures s in q[1..] ==> KillsBefore(q, s) == KillsBefore(q[1..], s) + if q[0] == KILLER then 1 else 0
    ensures s !in q[1..] ==> KillsBefore(q, s) == 0
  {
    var n := |q| - 1;
    if n > 0 {
      assert q[..n][1..] == q[1..][..n - 1] && q[1..][n - 1] == q[n];
      TokenPopped(q[..n], KILLER);
      KillsBeforeFirst(q[..n], s);
    }
  }

  lemma {:induction false} NoneBefore(q: seq<StageId>, s: StageId)
    ensures KillsBefore(q, s) <= Kills(q)
    ensures s !in q ==> KillsBefore(q, s) == 0
  {
    if q != [] {
      var n := |q| - 1;
      assert q == q[..n] + [q[n]];
      NoneBefore(q[..n], s);
    }
  }

  /** Nothing about the stage's tokens has changed. */
  predicate Same(st: System, t: System, s: StageId) {
    && t.runQueue == st.runQueue && Count(t.workers, Free) == Count(st.workers, Free)
    && Owed(t, s) == Owed(st, s)
  }

  /** A free worker has taken the first token. */
  predicate Popped(st: System, t: System, s: StageId) {
    && st.runQueue != [] && t.runQueue == st.runQueue[1..] && Owed(t, s) == Owed(st, s)
    && Count(st.workers, Free) > 0
    && Count(t.workers, Free) == Count(st.workers, Free) - if st.runQueue[0] == KILLER then 1 else 0
  }

  /** A token of `x` has been added, which was promised if it is one of `s`. */
  predicate Posted(st: System, t: System, s: StageId, x: StageId) {
    && t.runQueue == st.runQueue + [x] && Count(t.workers, Free) == Count(st.workers, Free)
    && Owed(t, s) == Owed(st, s) - if x == s then 1 else 0
  }

  lemma SameKeeps(st: System, t: System, s: StageId)
    requires Same(st, t, s)
    ensures Enough(t, s) <==> Enough(st, s)
  {
  }

  lemma PoppedKeeps(st: System, t: System, s: StageId)
    requires Popped(st, t, s)
    ensures Enough(t, s) <==> Enough(st, s)
  {
    if s != KILLER {
      TokenPopped(st.runQueue, KILLER);
      KillsBeforeFirst(st.runQueue, s);
      assert st.runQueue == [st.runQueue[0]] + st.runQueue[1..];
    }
  }

  lemma PostedKeeps(st: System, t: System, s: StageId, x: StageId)
    requires Posted(st, t, s, x)
    ensures Enough(t, s) ==> Enough(st, s)
    ensures x != KILLER && Enough(st, s) ==> Enough(t, s)
  {
    KillsSnoc(st.runQueue, x, s);
    NoneBefore(st.runQueue, s);
  }

  // ----- The steps

  lemma Moved(ws: seq<Worker>, w: nat, x: Worker, s: StageId)
    requires w < |ws|
    ensures Count(ws[w := x], Free) == Count(ws, Free) - One(ws[w], Free) + One(x, Free)
    ensures Count(ws[w := x], PostingTo(s)) == Count(ws, PostingTo(s)) - One(ws[w], PostingTo(s)) + One(x, PostingTo(s))
  {
    CountUpdate(ws, w, x);
  }

  /** What the step does to the tokens of the stage: nothing, or it takes a token, or it adds one, and a
      kill token only when `kill_threads` does. */
  ghost predicate Fair(st: System, step: Step, t: System, s: StageId) {
    || Same(st, t, s) || Popped(st, t, s)
    || exists x :: Posted(st, t, s, x) && (x == KILLER ==> step.KillSchedule?)
  }

  lemma LookFair(st: System, w: nat, s: StageId)
    requires Inv(st) && LookStep(st, w).Next?
    ensures Fair(st, Look(w), LookStep(st, w).sys, s)
  {
    Moved(st.workers, w, LookStep(st, w).sys.workers[w], s);
    CountMember(st.workers, w, Free);
  }

  lemma SpuriousWakeFair(st: System, w: nat, s: StageId)
    requires Inv(st) && SpuriousWakeStep(st, w).Next?
    ensures Same(st, SpuriousWakeStep(st, w).sys, s)
  {
    Moved(st.workers, w, Woken, s);
  }

  lemma RemoveFair(st: System, w: nat, s: StageId)
    requires Inv(st) && RemoveStep(st, w).Next?
    ensures Same(st, RemoveStep(st, w).sys, s)
  {
    Moved(st.workers, w, RemoveStep(st, w).sys.workers[w], s);
  }

  /** A stage that is being disconnected takes no more schedules. */
  lemma WaitsClosed(st: System, s: StageId)
    requires Inv(st) && s < |st.stages| && Waits(st.ctl[s])
    ensures !st.stages[s].connected
  {
    assert StageInv(st, s);
  }

  lemma HandlerAddFair(st: System, w: nat, x: StageId, e: Event, s: StageId)
    requires Inv(st) && s < |st.stages| && Waits(st.ctl[s]) && HandlerAddStep(st, w, x, e).Next?
    ensures Same(st, HandlerAddStep(st, w, x, e).sys, s)
  {
    WaitsClosed(st, s);
    if st.stages[x].connected {
      Moved(st.workers, w, HandlerAddStep(st, w, x, e).sys.workers[w], s);
    }
  }

  lemma ReleaseFair(st: System, w: nat, s: StageId)
    requires Inv(st) && ReleaseStep(st, w).Next?
    ensures Same(st, ReleaseStep(st, w).sys, s)
  {
    Moved(st.workers, w, AtLoop, s);
  }

  lemma ThreadKillFair(st: System, w: nat, s: StageId)
    requires Inv(st) && ThreadKillStep(st, w).Next?
    ensures Same(st, ThreadKillStep(st, w).sys, s)
  {
    Moved(st.workers, w, Leaving, s);
  }

  lemma ExitFair(st: System, w: nat, s: StageId)
    requires Inv(st) && ExitStep(st, w).Next?
    ensures Same(st, ExitStep(st, w).sys, s)
  {
    Moved(st.workers, w, Exited, s);
  }

  /** `schedule`, in a state in which the promise is taken off. */
  lemma SchedulePosts(st: System, mid: System, s: StageId, x: StageId, own: bool, wake: nat)
    requires WellFormed(mid) && x < |mid.stages| && Schedule(mid, x, own, wake).Next?
    requires mid.runQueue == st.runQueue && Count(mid.workers, Free) == Count(st.workers, Free)
    requires Owed(mid, s) == Owed(st, s) - if x == s then 1 else 0
    ensures Posted(st, Schedule(mid, x, own, wake).sys, s, x)
  {
    if CanSignal(mid.workers, wake) {
      SignalCounts(mid.workers, wake);
    }
  }

  lemma HandlerScheduleFair(st: System, w: nat, wake: nat, s: StageId)
    requires Inv(st) && HandlerScheduleStep(st, w, wake).Next?
    ensures Fair(st, HandlerSchedule(w, wake), HandlerScheduleStep(st, w, wake).sys, s)
  {
    assert NamesStage(st.workers[w], |st.stages|);
    var mid, x := HandlerSchedules(st, w), st.workers[w].target;
    Moved(st.workers, w, mid.workers[w], s);
    CountMember(st.workers, w, PostingTo(x));
    hide Inv, Schedule;
    SchedulePosts(st, mid, s, x, true, wake);
  }

  lemma CallerScheduleFair(st: System, x: StageId, wake: nat, s: StageId)
    requires Inv(st) && CallerScheduleStep(st, x, wake).Next?
    ensures Fair(st, CallerSchedule(x, wake), CallerScheduleStep(st, x, wake).sys, s)
  {
    assert x != KILLER;
    hide Inv, Schedule;
    SchedulePosts(st, st.(callers := st.callers - multiset{x}), s, x, false, wake);
  }

  lemma ConnectScheduleFair(st: System, x: StageId, wake: nat, s: StageId)
    requires Inv(st) && s < |st.stages| && Waits(st.ctl[s]) && ConnectScheduleStep(st, x, wake).Next?
    ensures Fair(st, ConnectSchedule(x, wake), ConnectScheduleStep(st, x, wake).sys, s)
  {
    assert x != KILLER by {
      assert KillInv(st);
    }
    hide Inv, Schedule;
    SchedulePosts(st, st.(ctl := st.ctl[x := Connecting(st.ctl[x].backlog - 1)]), s, x, false, wake);
  }

  lemma KillScheduleFair(st: System, wake: nat, s: StageId)
    requires Inv(st) && s != KILLER && KillScheduleStep(st, wake).Next?
    ensures Fair(st, KillSchedule(wake), KillScheduleStep(st, wake).sys, s)
  {
    assert WellFormed(st);
    hide Inv, Schedule;
    SchedulePosts(st, st.(killer := Generating(st.killer.target, st.killer.sent)), s, KILLER, false, wake);
  }

  lemma StageStepFair(st: System, step: Step, s: StageId)
    requires Inv(st) && s < |st.stages| && Waits(st.ctl[s]) && OfStage(step) && Apply(st, step).Next?
    ensures Fair(st, step, Apply(st, step).sys, s)
  {
    WaitsClosed(st, s);
    assert WellFormed(st);
    hide Inv, ConnectScheduleStep, CallerScheduleStep, Schedule, LookStep, SpuriousWakeStep, RemoveStep,
      HandlerAddStep, HandlerScheduleStep, ReleaseStep, ThreadKillStep, ExitStep, AddThreadsStep,
      KillThreadsStep, KillAddStep, KillScheduleStep, KillAwaitStep, KillResumeStep, KillReturnStep;
    if step.ConnectSchedule? {
      ConnectScheduleFair(st, step.s, step.wake, s);
    } else if step.CallerSchedule? {
      CallerScheduleFair(st, step.s, step.wake, s);
    } else {
      assert Same(st, Apply(st, step).sys, s);
    }
  }

  lemma KillStepFair(st: System, step: Step, s: StageId)
    requires Inv(st) && s != KILLER && OfKill(step) && Apply(st, step).Next?
    ensures Fair(st, step, Apply(st, step).sys, s)
  {
    assert WellFormed(st);
    hide Inv, ConnectStep, ConnectScheduleStep, ConnectDoneStep, DisconnectStep, ResumeDisconnectStep,
      CallerAddStep, CallerScheduleStep, Schedule, LookStep, SpuriousWakeStep, RemoveStep, HandlerAddStep,
      HandlerScheduleStep, ReleaseStep, ThreadKillStep, ExitStep, AddThreadsStep, KillScheduleStep;
    if step.KillSchedule? {
      KillScheduleFair(st, step.wake, s);
    } else {
      assert Same(st, Apply(st, step).sys, s);
    }
  }

  lemma WorkerStepFair(st: System, step: Step, s: StageId)
    requires Inv(st) && s < |st.stages| && Waits(st.ctl[s]) && Apply(st, step).Next?
    requires !OfStage(step) && !OfKill(step) && !step.AddThreads?
    ensures Fair(st, step, Apply(st, step).sys, s)
  {
    assert WellFormed(st);
    hide Inv, ConnectStep, ConnectScheduleStep, ConnectDoneStep, DisconnectStep, ResumeDisconnectStep,
      CallerAddStep, CallerScheduleStep, LookStep, SpuriousWakeStep, RemoveStep, HandlerAddStep,
      HandlerScheduleStep, ReleaseStep, ThreadKillStep, ExitStep, AddThreadsStep, KillThreadsStep,
      KillAddStep, KillScheduleStep, KillAwaitStep, KillResumeStep, KillReturnStep, Same, Popped, Posted;
    match step {
      case Look(w) => LookFair(st, w, s);
      case SpuriousWake(w) => SpuriousWakeFair(st, w, s);
      case Remove(w) => RemoveFair(st, w, s);
      case HandlerAdd(w, x, e) => HandlerAddFair(st, w, x, e, s);
      case HandlerSchedule(w, wake) => HandlerScheduleFair(st, w, wake, s);
      case Release(w) => ReleaseFair(st, w, s);
      case ThreadKill(w) => ThreadKillFair(st, w, s);
      case Exit(w) => ExitFair(st, w, s);
    }
  }

  /** No step but the creation of threads gives the stage the workers that it lacks, and only a further kill
      event takes them away. */
  lemma StepKeepsEnough(st: System, step: Step, s: StageId)
    requires Inv(st) && s < |st.stages| && Waits(st.ctl[s]) && Apply(st, step).Next? && !step.AddThreads?
    ensures Enough(Apply(st, step).sys, s) ==> Enough(st, s)
    ensures !step.KillSchedule? && Enough(st, s) ==> Enough(Apply(st, step).sys, s)
  {
    var t := Apply(st, step).sys;
    hide Inv, Apply, Enough;
    if s == KILLER {
      KillerHasEnough(st);
      KillerHasEnough(t);
    } else {
      if OfStage(step) {
        StageStepFair(st, step, s);
      } else if OfKill(step) {
        KillStepFair(st, step, s);
      } else {
        WorkerStepFair(st, step, s);
      }
      FairKeeps(st, step, t, s);
    }
  }

  lemma KillerHasEnough(st: System)
    ensures Enough(st, KILLER)
  {
  }

  lemma FairKeeps(st: System, step: Step, t: System, s: StageId)
    requires Fair(st, step, t, s)
    ensures Enough(t, s) ==> Enough(st, s)
    ensures !step.KillSchedule? && Enough(st, s) ==> Enough(t, s)
  {
    hide Enough, Posted, Same, Popped;
    if Same(st, t, s) {
      SameKeeps(st, t, s);
    } else if Popped(st, t, s) {
      PoppedKeeps(st, t, s);
    } else {
      var x :| Posted(st, t, s, x) && (x == KILLER ==> step.KillSchedule?);
      PostedKeeps(st, t, s, x);
    }
  }

  // ----- Without enough workers `disconnect` waits for ever

  /** A stage without enough workers has scheduled events. */
  lemma StillOut(st: System, s: StageId)
    requires Inv(st) && s < |st.stages| && Waits(st.ctl[s]) && !Enough(st, s)
    ensures st.stages[s].ref > 0
  {
    assert StageInv(st, s);
  }

  predicate WaitsIn(o: Outcome, s: StageId) {
    o.Next? ==> WellFormed(o.sys) && s < |o.sys.stages| && Waits(o.sys.ctl[s])
  }

  lemma WorkersLetWait(st: System, step: Step, s: StageId)
    requires Inv(st) && s < |st.stages| && Waits(st.ctl[s]) && !OfStage(step) && !OfKill(step)
    ensures WaitsIn(Apply(st, step), s)
  {
    assert WellFormed(st);
    hide Inv;
  }

  lemma StagesLetWait(st: System, step: Step, s: StageId)
    requires Inv(st) && s < |st.stages| && Waits(st.ctl[s]) && st.stages[s].ref > 0 && OfStage(step)
    ensures WaitsIn(Apply(st, step), s)
  {
    assert WellFormed(st);
    hide Inv;
  }

  lemma KillsLetWait(st: System, step: Step, s: StageId)
    requires Inv(st) && s < |st.stages| && Waits(st.ctl[s]) && OfKill(step)
    ensures WaitsIn(Apply(st, step), s)
  {
    assert KillInv(st);
    assert WellFormed(st);
    hide StagesInv, PoolInv, NamesInv;
  }

  lemma StaysWaiting(st: System, step: Step, s: StageId)
    requires Inv(st) && s < |st.stages| && Waits(st.ctl[s]) && st.stages[s].ref > 0 && Apply(st, step).Next?
    ensures var t := Apply(st, step).sys; WellFormed(t) && s < |t.stages| && Waits(t.ctl[s])
  {
    hide Inv, Apply, OfStage, OfKill;
    if OfStage(step) {
      StagesLetWait(st, step, s);
    } else if OfKill(step) {
      KillsLetWait(st, step, s);
    } else {
      WorkersLetWait(st, step, s);
    }
  }

  predicate NoNewThreads(steps: seq<Step>) {
    forall step <- steps :: !step.AddThreads?
  }

  lemma {:induction false} NotEnoughHangs(st: System, s: StageId, steps: seq<Step>)
    requires Inv(st) && s < |st.stages| && Waits(st.ctl[s]) && !Enough(st, s)
    requires NoNewThreads(steps)
    ensures var o := Run(st, steps); o.Next? ==> s < |o.sys.stages| == |o.sys.ctl| && Waits(o.sys.ctl[s])
    decreases |steps|
  {
    if steps != [] && Apply(st, steps[0]).Next? {
      StillOut(st, s);
      StaysWaiting(st, steps[0], s);
      StepKeepsEnough(st, steps[0], s);
      StepIsSafe(st, steps[0]);
      hide Inv, Apply, Enough;
      NotEnoughHangs(Apply(st, steps[0]).sys, s, steps[1..]);
    }
  }

  // ----- With enough workers it can return

  /** The steps of workers and of threads that owe a schedule. */
  predicate Running(step: Step) {
    Working(step) || step.CallerSchedule?
  }

  ghost predicate Goes(st: System, step: Step)
    requires WellFormed(st)
  {
    Running(step) && Apply(st, step).Next? && Work(Apply(st, step).sys) < Work(st)
  }

  lemma CallerScheduleGoes(st: System, s: StageId) returns (wake: nat)
    requires Inv(st) && s in st.callers && s < |st.stages|
    ensures Goes(st, CallerSchedule(s, wake))
  {
    wake := SomeWake(st.workers);
    var mid := st.(callers := st.callers - multiset{s});
    KeepsCallerSchedule(st, s, wake);
    hide Inv, Schedule, CanSignal;
    ScheduleAddsToken(mid, s, false, wake);
    CallerScheduleApplied(st, s, wake);
  }

  lemma CallerScheduleApplied(st: System, s: StageId, wake: nat)
    requires WellFormed(st) && s in st.callers && s < |st.stages|
    ensures Apply(st, CallerSchedule(s, wake)) == Schedule(st.(callers := st.callers - multiset{s}), s, false, wake)
  {
    hide Schedule;
  }

  /** The worker cannot go on by itself: it waits for a token, or it has run a kill event. */
  predicate Settled(w: Worker) {
    Resting(w) || (w.Handling? && w.stage == KILLER)
  }

  /** When nobody is on his way, there is a token of the stage and somebody to take the first one. */
  lemma SettledWorkerLooks(st: System, s: StageId) returns (w: nat)
    requires Inv(st) && s < |st.stages| && Waits(st.ctl[s]) && Enough(st, s) && st.stages[s].ref > 0
    requires s !in st.callers && forall i :: 0 <= i < |st.workers| ==> Settled(st.workers[i])
    ensures st.runQueue != [] && w < |st.workers| && (st.workers[w].AtLoop? || st.workers[w].Woken?)
  {
    assert StageInv(st, s);
    assert KillInv(st);
    NobodyIn(st.workers, HoldingFor(s));
    NobodyIn(st.workers, PostingTo(s));
    if s == KILLER {
      OnlyDooming(st.workers);
      assert false;
    } else {
      NobodyIn(st.workers, BusyFor(s));
    }
    assert multiset(st.runQueue)[s] > 0;
    assert s in st.runQueue;
    w := CountWitness(st.workers, Ready);
  }

  lemma OnlyDooming(ws: seq<Worker>)
    requires forall i :: 0 <= i < |ws| ==> Settled(ws[i])
    ensures Count(ws, BusyFor(KILLER)) == Count(ws, Dooming)
  {
    OnlyDoomingTo(ws, |ws|);
  }

  lemma {:induction false} OnlyDoomingTo(ws: seq<Worker>, n: nat)
    requires n <= |ws| && forall i :: 0 <= i < |ws| ==> Settled(ws[i])
    ensures CountTo(ws, n, BusyFor(KILLER)) == CountTo(ws, n, Dooming)
  {
    if n > 0 {
      OnlyDoomingTo(ws, n - 1);
      assert Settled(ws[n - 1]);
    }
  }

  /** While an event of the stage is not released, somebody can go on. */
  lemma SomebodyGoes(st: System, s: StageId) returns (step: Step)
    requires Inv(st) && s < |st.stages| && Waits(st.ctl[s]) && Enough(st, s) && st.stages[s].ref > 0
    ensures Goes(st, step)
  {
    hide Inv, Enough, Waits, Apply, Work;
    if w :| 0 <= w < |st.workers| && st.workers[w].Leaving? {
      ExitLightens(st, w);
      step := Exit(w);
    } else if w :| 0 <= w < |st.workers| && st.workers[w].Handling? && st.workers[w].stage != KILLER {
      ReleaseLightens(st, w);
      step := Release(w);
    } else if w :| 0 <= w < |st.workers| && st.workers[w].Holding? {
      RemoveLightens(st, w);
      step := Remove(w);
    } else if w :| 0 <= w < |st.workers| && st.workers[w].Scheduling? {
      var wake := HandlerScheduleLightens(st, w);
      step := HandlerSchedule(w, wake);
    } else if s in st.callers {
      var wake := CallerScheduleGoes(st, s);
      step := CallerSchedule(s, wake);
    } else {
      var w := SettledWorkerLooks(st, s);
      LookLightens(st, w);
      step := Look(w);
    }
  }

  lemma LastStep(st: System, s: StageId)
    requires Inv(st) && s < |st.stages| && Waits(st.ctl[s]) && st.stages[s].ref == 0
    ensures var o := Apply(st, ResumeDisconnect(s));
      o.Next? && WellFormed(o.sys) && s < |o.sys.stages| && o.sys.ctl[s].Idle? && !o.sys.stages[s].hasPool
  {
  }

  lemma RefNotNegative(st: System, s: StageId)
    requires Inv(st) && s < |st.stages|
    ensures st.stages[s].ref >= 0
  {
    assert StageInv(st, s);
  }

  /** `disconnect` of stage `s` has returned, and the stage has let go of the pool. */
  predicate Detached(o: Outcome, s: StageId) {
    o.Next? && s < |o.sys.stages| == |o.sys.ctl| && o.sys.ctl[s].Idle? && !o.sys.stages[s].hasPool
  }

  lemma {:induction false} EnoughReturns(st: System, s: StageId) returns (steps: seq<Step>)
    requires Inv(st) && s < |st.stages| && Waits(st.ctl[s]) && Enough(st, s)
    ensures Detached(Run(st, steps), s)
    ensures forall step <- steps :: Running(step) || step == ResumeDisconnect(s)
    decreases Work(st)
  {
    InvIsWellFormed(st);
    RefNotNegative(st, s);
    if st.stages[s].ref == 0 {
      LastStep(st, s);
      hide Inv, Apply;
      RunCons(st, ResumeDisconnect(s), []);
      steps := [ResumeDisconnect(s)] + [];
    } else {
      var step := SomebodyGoes(st, s);
      StepIsSafe(st, step);
      StaysWaiting(st, step, s);
      StepKeepsEnough(st, step, s);
      hide Inv, Apply, Run, Work, Enough, Waits, Detached;
      var rest := EnoughReturns(Apply(st, step).sys, s);
      RunCons(st, step, rest);
      steps := [step] + rest;
    }
  }

  /** In every reachable state in which `disconnect` waits: it can return without new threads if and only if
      enough workers are free. */
  lemma DisconnectCanReturn(m: nat, n: nat, st: System, s: StageId)
    requires Reachable(m, n, st) && s < |st.stages| && Waits(st.ctl[s])
    ensures (exists steps :: NoNewThreads(steps) && Detached(Run(st, steps), s)) <==> Enough(st, s)
  {
    ReachableInv(m, n, st);
    if Enough(st, s) {
      var steps := EnoughReturns(st, s);
      assert Detached(Run(st, steps), s);
    } else {
      forall steps | NoNewThreads(steps) ensures !Detached(Run(st, steps), s) {
        NotEnoughHangs(st, s, steps);
      }
    }
  }

  /** The only worker is killed before it comes to the event of stage 1. */
  const STARVED: seq<Step> := [
    Connect(1), ConnectDone(1), KillThreads(1), ConnectDone(KILLER), KillAdd(7), KillSchedule(0),
    KillAwait, CallerAdd(1, 9), CallerSchedule(1, 0), Disconnect(1)]

  /** The states that `STARVED` goes through. */
  function StarvedState(i: nat): System
    requires i <= 10
  {
    var open := StageState([], true, 0, true, [], [], 0, []);
    var posted := StageState([7], true, 1, true, [7], [], 0, []);
    var added := StageState([9], true, 1, true, [9], [], 0, []);
    var closed := StageState([9], false, 1, true, [9], [], 0, []);
    var ask := Request(1, 1, 0);
    var none := multiset{};
    var one := [AtLoop];
    match i
    case 0 => System([FRESH, FRESH], [Idle, Idle], none, [], 0, one, 1, 0, NoKill, Request(0, 0, 0))
    case 1 => System([FRESH, open], [Idle, Connecting(0)], none, [], 0, one, 1, 0, NoKill, Request(0, 0, 0))
    case 2 => System([FRESH, open], [Idle, Idle], none, [], 0, one, 1, 0, NoKill, Request(0, 0, 0))
    case 3 => System([open, open], [Connecting(0), Idle], none, [], 0, one, 1, 0, Generating(1, 0), ask)
    case 4 => System([open, open], [Idle, Idle], none, [], 0, one, 1, 0, Generating(1, 0), ask)
    case 5 => System([posted, open], [Idle, Idle], none, [], 0, one, 1, 0, Posting(1, 1), ask)
    case 6 => System([posted, open], [Idle, Idle], none, [KILLER], 0, one, 1, 0, Generating(1, 1), ask)
    case 7 => System([posted, open], [Idle, Idle], none, [KILLER], 0, one, 1, 1, Awaiting(1), ask)
    case 8 => System([posted, added], [Idle, Idle], multiset{1}, [KILLER], 0, one, 1, 1, Awaiting(1), ask)
    case 9 => System([posted, added], [Idle, Idle], none, [KILLER, 1], 0, one, 1, 1, Awaiting(1), ask)
    case 10 => System([posted, closed], [Idle, Waiting], none, [KILLER, 1], 0, one, 1, 1, Awaiting(1), ask)
  }

  lemma StarvedStepEarly(i: nat)
    requires i < 5
    ensures WellFormed(StarvedState(i)) && Apply(StarvedState(i), STARVED[i]) == Next(StarvedState(i + 1))
  {
    assert [] + [7] == [7];
    assert Count([AtLoop], Gone) == 0;
  }

  lemma StarvedStepLate(i: nat)
    requires 5 <= i < 10
    ensures WellFormed(StarvedState(i)) && Apply(StarvedState(i), STARVED[i]) == Next(StarvedState(i + 1))
  {
    assert [] + [KILLER] == [KILLER] && [KILLER] + [1] == [KILLER, 1] && [] + [9] == [9];
  }

  lemma {:induction false} StarvedRun(i: nat)
    requires i <= 10
    ensures WellFormed(StarvedState(i)) && Run(StarvedState(i), STARVED[i..]) == Next(StarvedState(10))
    decreases 10 - i
  {
    if i < 10 {
      StarvedRun(i + 1);
      if i < 5 { StarvedStepEarly(i); } else { StarvedStepLate(i); }
      assert STARVED[i..][0] == STARVED[i] && STARVED[i..][1..] == STARVED[i + 1..];
    } else {
      assert STARVED[10..] == [];
    }
  }

  /** Without enough workers does happen: a kill event overtakes an event of stage 1, whose `disconnect` then
      waits until threads are added. */
  lemma StarvedHappens()
    ensures var st := StarvedState(10);
      Reachable(1, 1, st) && Waits(st.ctl[1]) && !Enough(st, 1)
  {
    var st := StarvedState(10);
    assert Initial(1, 1) == StarvedState(0) by {
      assert Initial(1, 1).workers == [AtLoop] && Initial(1, 1).ctl == [Idle, Idle];
      assert Initial(1, 1).stages == [FRESH, FRESH];
    }
    StarvedRun(0);
    assert STARVED[0..] == STARVED;
    assert Run(Initial(1, 1), STARVED) == Next(st);
    KillsSnoc([KILLER], 1, 1);
    assert [KILLER] + [1] == [KILLER, 1];
    assert Count([AtLoop], Free) == 1;
  }
}
