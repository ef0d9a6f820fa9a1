/** What holds after every run of stages, pool and `kill_threads`. */
module SedaTheorems {
  import opened Common
  import opened SedaStage
  import opened SedaWorkers
  import opened SedaPool
  import opened SedaInvariant
  import opened SedaPreservation

  /** The threads take these steps, in this order. */
  function Run(st: System, steps: seq<Step>): Outcome
    requires WellFormed(st)
    decreases |steps|
  {
    if steps == [] then Next(st)
    else
      match Apply(st, steps[0])
      case Next(t) => if WellFormed(t) then Run(t, steps[1..]) else Blocked
      case o => o
  }

  /** A second `kill_threads` gets past the guard `threads_to_kill_ > 0` while the first one has
      not disconnected the killer stage yet. */
  predicate OverlappingKill(st: System, step: Step) {
    step.KillThreads? && MutexFree(st) && !st.killer.NoKill? && st.toKill == 0
  }

  lemma KillThreadsIsSafe(st: System, k: nat)
    requires Inv(st)
    ensures KillThreadsStep(st, k).Fault? <==> OverlappingKill(st, KillThreads(k))
    ensures KillThreadsStep(st, k).Fault? ==> KillThreadsStep(st, k).site == KillerStillConnected
    ensures KillThreadsStep(st, k).Next? ==> Inv(KillThreadsStep(st, k).sys)
  {
    if KillThreadsStep(st, k).Next? {
      KeepsKillThreads(st, k);
    }
  }

  ghost predicate Safe(st: System, step: Step, o: Outcome) {
    && (o.Next? ==> Inv(o.sys))
    && (o.Fault? <==> OverlappingKill(st, step))
    && (o.Fault? ==> o.site == KillerStillConnected)
  }

  predicate OfStage(step: Step) {
    step.Connect? || step.ConnectSchedule? || step.ConnectDone? || step.Disconnect? || step.ResumeDisconnect?
    || step.CallerAdd? || step.CallerSchedule?
  }

  predicate OfKill(step: Step) {
    step.KillThreads? || step.KillAdd? || step.KillSchedule? || step.KillAwait? || step.KillResume? || step.KillReturn?
  }

  lemma StageStepIsSafe(st: System, step: Step)
    requires Inv(st) && OfStage(step)
    ensures Safe(st, step, Apply(st, step))
  {
    assert WellFormed(st);
    hide Inv, ConnectStep, ConnectScheduleStep, ConnectDoneStep, DisconnectStep, ResumeDisconnectStep,
      CallerAddStep, CallerScheduleStep, LookStep, SpuriousWakeStep, RemoveStep, HandlerAddStep,
      HandlerScheduleStep, ReleaseStep, ThreadKillStep, ExitStep, AddThreadsStep, KillThreadsStep,
      KillAddStep, KillScheduleStep, KillAwaitStep, KillResumeStep, KillReturnStep;
    match step {
      case Connect(s) => KeepsConnect(st, s);
      case ConnectSchedule(s, wake) => KeepsConnectSchedule(st, s, wake);
      case ConnectDone(s) => KeepsConnectDone(st, s);
      case Disconnect(s) => KeepsDisconnect(st, s);
      case ResumeDisconnect(s) => KeepsResume(st, s);
      case CallerAdd(s, e) => KeepsCallerAdd(st, s, e);
      case CallerSchedule(s, wake) => KeepsCallerSchedule(st, s, wake);
    }
  }

  lemma WorkerStepIsSafe(st: System, step: Step)
    requires Inv(st) && !OfStage(step) && !OfKill(step)
    ensures Safe(st, step, Apply(st, step))
  {
    assert WellFormed(st);
    hide Inv, ConnectStep, ConnectScheduleStep, ConnectDoneStep, DisconnectStep, ResumeDisconnectStep,
      CallerAddStep, CallerScheduleStep, LookStep, SpuriousWakeStep, RemoveStep, HandlerAddStep,
      HandlerScheduleStep, ReleaseStep, ThreadKillStep, ExitStep, AddThreadsStep, KillThreadsStep,
      KillAddStep, KillScheduleStep, KillAwaitStep, KillResumeStep, KillReturnStep;
    match step {
      case Look(w) => KeepsLook(st, w);
      case SpuriousWake(w) => KeepsSpuriousWake(st, w);
      case Remove(w) => KeepsRemove(st, w);
      case HandlerAdd(w, t, e) => KeepsHandlerAdd(st, w, t, e);
      case HandlerSchedule(w, wake) => KeepsHandlerSchedule(st, w, wake);
      case Release(w) => KeepsRelease(st, w);
      case ThreadKill(w) => KeepsThreadKill(st, w);
      case Exit(w) => KeepsExit(st, w);
      case AddThreads(n) => KeepsAddThreads(st, n);
    }
  }

  lemma KillStepIsSafe(st: System, step: Step)
    requires Inv(st) && OfKill(step)
    ensures Safe(st, step, Apply(st, step))
  {
    assert WellFormed(st);
    hide Inv, ConnectStep, ConnectScheduleStep, ConnectDoneStep, DisconnectStep, ResumeDisconnectStep,
      CallerAddStep, CallerScheduleStep, LookStep, SpuriousWakeStep, RemoveStep, HandlerAddStep,
      HandlerScheduleStep, ReleaseStep, ThreadKillStep, ExitStep, AddThreadsStep, KillThreadsStep,
      KillAddStep, KillScheduleStep, KillAwaitStep, KillResumeStep, KillReturnStep;
    match step {
      case KillThreads(k) => KillThreadsIsSafe(st, k);
      case KillAdd(e) => KeepsKillAdd(st, e);
      case KillSchedule(wake) => KeepsKillSchedule(st, wake);
      case KillAwait => KeepsKillAwait(st);
      case KillResume => KeepsKillResume(st);
      case KillReturn => KeepsKillReturn(st);
    }
  }

  /** Every step from a state of the invariant keeps the invariant, and the only assertion that
      can fail is the one `connect` makes on the killer stage, exactly when kills overlap. */
  lemma StepIsSafe(st: System, step: Step)
    requires Inv(st)
    ensures Apply(st, step).Next? ==> Inv(Apply(st, step).sys)
    ensures Apply(st, step).Fault? <==> OverlappingKill(st, step)
    ensures Apply(st, step).Fault? ==> Apply(st, step).site == KillerStillConnected
  {
    hide Apply, Inv, OverlappingKill;
    if OfStage(step) {
      StageStepIsSafe(st, step);
    } else if OfKill(step) {
      KillStepIsSafe(st, step);
    } else {
      WorkerStepIsSafe(st, step);
    }
  }

  lemma {:induction false} RunKeepsInv(st: System, steps: seq<Step>)
    requires Inv(st)
    ensures Run(st, steps).Next? ==> Inv(Run(st, steps).sys)
    ensures Run(st, steps).Fault? ==> Run(st, steps).site == KillerStillConnected
    decreases |steps|
  {
    if steps != [] {
      StepIsSafe(st, steps[0]);
      if Apply(st, steps[0]).Next? {
        RunKeepsInv(Apply(st, steps[0]).sys, steps[1..]);
      }
    }
  }

  /** The states that some run from `m` stages and `n` workers reaches. */
  ghost predicate Reachable(m: nat, n: nat, st: System) {
    WellFormed(st) && exists steps :: Run(Initial(m, n), steps) == Next(st)
  }

  lemma ReachableInv(m: nat, n: nat, st: System)
    requires Reachable(m, n, st)
    ensures Inv(st)
  {
    var steps :| Run(Initial(m, n), steps) == Next(st);
    InitialInv(m, n);
    RunKeepsInv(Initial(m, n), steps);
  }

  // ----- Stages

  /** Token accounting: the scheduled events of a stage are matched one to one by promised
      schedules, run-queue tokens and workers holding a token; they are the oldest events of the
      queue, the rest was added while the stage was disconnected, and events leave in the order
      in which they came. */
  lemma TokenAccounting(m: nat, n: nat, st: System, s: StageId)
    requires Reachable(m, n, st) && s < |st.stages|
    ensures var r := st.stages[s];
      var scheduled := Promised(st.callers, st.ctl[s], st.killer, s) + Count(st.workers, PostingTo(s))
                       + multiset(st.runQueue)[s] + Count(st.workers, HoldingFor(s));
      && 0 <= scheduled <= |r.queue|
      && r.queue[scheduled..] == r.late && (r.connected ==> r.late == [])
      && r.added == r.removed + r.queue
  {
    ReachableInv(m, n, st);
    assert StageInv(st, s);
  }

  /** The reference count is the scheduled events plus the events being handled, it is never
      negative, and every removed event has been released once or is still being handled. */
  lemma ReferenceAccounting(m: nat, n: nat, st: System, s: StageId)
    requires Reachable(m, n, st) && s < |st.stages|
    ensures var r := st.stages[s];
      && r.ref == InFlight(st, s) + Count(st.workers, BusyFor(s)) && r.ref >= 0
      && |r.removed| == r.released + Count(st.workers, BusyFor(s))
  {
    ReachableInv(m, n, st);
    assert StageInv(st, s);
  }

  /** Worker `w` still needs stage `s`. */
  predicate RefersTo(w: Worker, s: StageId) {
    InClass(w, HoldingFor(s)) || InClass(w, PostingTo(s)) || InClass(w, BusyFor(s))
  }

  /** Safe disconnect: once the stage has lost its pool, no caller, token or worker refers to it.
      So `th_pool_` is not null at any call of `schedule`. */
  lemma DetachedStageIsUnused(m: nat, n: nat, st: System, s: StageId)
    requires Reachable(m, n, st) && s < |st.stages| && !st.stages[s].hasPool
    ensures s !in st.callers && s !in st.runQueue && !st.ctl[s].Connecting?
    ensures forall w :: 0 <= w < |st.workers| ==> !RefersTo(st.workers[w], s)
  {
    ReachableInv(m, n, st);
    assert StageInv(st, s);
    assert InFlight(st, s) == 0 && Count(st.workers, BusyFor(s)) == 0;
    assert multiset(st.runQueue)[s] == 0;
    forall w | 0 <= w < |st.workers| ensures !RefersTo(st.workers[w], s) {
      CountMember(st.workers, w, HoldingFor(s));
      CountMember(st.workers, w, PostingTo(s));
      CountMember(st.workers, w, BusyFor(s));
    }
  }

  /** `disconnect` never waits for a signal that will not come: while it waits without a signal,
      a reference is still out. */
  lemma DisconnectIsWokenUp(m: nat, n: nat, st: System, s: StageId)
    requires Reachable(m, n, st) && s < |st.stages| && st.ctl[s].Waiting?
    ensures InFlight(st, s) + Count(st.workers, BusyFor(s)) > 0
  {
    ReachableInv(m, n, st);
    assert StageInv(st, s);
  }

  // ----- Workers

  /** No lost wake-up, in numbers: at least as many workers are awake and not running a kill
      event as there are tokens, or workers to run them. */
  lemma NoLostWakeUp(m: nat, n: nat, st: System)
    requires Reachable(m, n, st)
    ensures var held := Count(st.workers, HoldingFor(KILLER));
      Count(st.workers, Ready) + held >= Min(|st.runQueue|, Count(st.workers, Free) + held)
  {
    ReachableInv(m, n, st);
  }

  /** No lost wake-up, in one worker: a token never waits while every worker that could take it
      sleeps without a signal. */
  lemma TokenFindsAwakeWorker(m: nat, n: nat, st: System, f: nat) returns (w: nat)
    requires Reachable(m, n, st) && st.runQueue != []
    requires f < |st.workers| && IsFree(st.workers[f])
    ensures w < |st.workers| && IsFree(st.workers[w]) && !st.workers[w].Sleeping?
  {
    ReachableInv(m, n, st);
    CountMember(st.workers, f, Free);
    w := CountWitness(st.workers, Ready);
  }

  /** Every worker is asleep or gone and nobody outside is about to schedule. */
  ghost predicate Quiet(st: System) {
    && st.callers == multiset{} && !st.killer.Posting?
    && (forall s :: 0 <= s < |st.ctl| ==> st.ctl[s].Connecting? ==> st.ctl[s].backlog == 0)
    && (forall w :: 0 <= w < |st.workers| ==> st.workers[w].Sleeping? || st.workers[w].Exited?)
  }

  lemma QuietCounts(st: System, c: Class)
    requires Quiet(st) && (c.Ready? || c.HoldingFor? || c.PostingTo? || c.BusyFor?)
    ensures Count(st.workers, c) == 0
  {
    if Count(st.workers, c) > 0 {
      var w := CountWitness(st.workers, c);
      assert false;
    }
  }

  /** When everything is quiet and a worker is left, all work is done: no token is queued, and
      every event a connected stage ever got has been removed and released. */
  lemma QuietMeansDone(m: nat, n: nat, st: System, s: StageId, w: nat)
    requires Reachable(m, n, st) && Quiet(st) && s < |st.stages|
    requires w < |st.workers| && st.workers[w].Sleeping?
    ensures st.runQueue == []
    ensures st.stages[s].connected ==>
      && st.stages[s].queue == [] && st.stages[s].ref == 0
      && st.stages[s].removed == st.stages[s].added
      && st.stages[s].released == |st.stages[s].added|
  {
    ReachableInv(m, n, st);
    CountMember(st.workers, w, Free);
    QuietCounts(st, Ready);
    assert st.runQueue == [];
    QuietCounts(st, HoldingFor(s));
    QuietCounts(st, PostingTo(s));
    QuietCounts(st, BusyFor(s));
    assert StageInv(st, s);
    assert InFlight(st, s) == 0;
  }

  // ----- kill_threads

  /** When `kill_threads(k)` returns, exactly min(k, threads at its start) workers have exited
      since it began, nothing of the transaction is left, and `nthreads_` counts the others. */
  lemma KillThreadsReturns(m: nat, n: nat, st: System)
    requires Reachable(m, n, st) && KillReturnStep(st).Next?
    ensures Count(st.workers, Gone) == st.request.gone + Min(st.request.asked, st.request.before)
    ensures st.toKill == 0 && KILLER !in st.runQueue && st.stages[KILLER].queue == []
    ensures forall w :: 0 <= w < |st.workers| ==> !RefersTo(st.workers[w], KILLER)
    ensures st.nthreads == Count(st.workers, Free)
  {
    ReachableInv(m, n, st);
    assert StageInv(st, KILLER);
    DetachedStageIsUnused(m, n, st, KILLER);
    CountSplits(st.workers);
  }

  lemma NobodyPostsKills(ws: seq<Worker>, n: nat)
    requires AllName(ws, n)
    ensures Count(ws, PostingTo(KILLER)) == 0
  {
    if Count(ws, PostingTo(KILLER)) > 0 {
      var w := CountWitness(ws, PostingTo(KILLER));
      assert false;
    }
  }

  /** While `kill_threads` waits with kills to come, every one of them is a token or on its way to a
      worker, and if there are only tokens, a worker is awake. */
  lemma KillProgress(st: System)
    requires Inv(st) && st.killer.Awaiting? && st.killer.target > 0
    ensures multiset(st.runQueue)[KILLER] + Count(st.workers, HoldingFor(KILLER))
            + Count(st.workers, Dooming) == st.toKill > 0
    ensures KILLER in st.runQueue ==> Count(st.workers, Ready) > 0
  {
    assert StageInv(st, KILLER);
    CountSplits(st.workers);
    NobodyPostsKills(st.workers, |st.stages|);
  }

  /** With nothing to kill, because `k` is 0 or the pool is empty, `kill_threads` never returns:
      no run leads out of its wait. */
  lemma {:induction false} KillNothingHangs(st: System, steps: seq<Step>)
    requires Inv(st) && st.killer == Awaiting(0)
    ensures Run(st, steps).Next? ==> Run(st, steps).sys.killer == Awaiting(0)
    decreases |steps|
  {
    if steps != [] {
      var step := steps[0];
      StepIsSafe(st, step);
      if Apply(st, step).Next? {
        StaysAwaiting(st, step);
        KillNothingHangs(Apply(st, step).sys, steps[1..]);
      }
    }
  }

  lemma StaysAwaiting(st: System, step: Step)
    requires Inv(st) && st.killer == Awaiting(0) && Apply(st, step).Next?
    ensures Apply(st, step).sys.killer == Awaiting(0)
  {
    if step.ThreadKill? {
      CountMember(st.workers, step.w, Dooming);
      assert StageInv(st, KILLER);
    }
  }

  /** The target of a transaction is 0 exactly when nothing was asked for or nobody was there. */
  lemma KillTargetZero(st: System, k: nat)
    requires Inv(st) && st.killer.NoKill? && KillThreadsStep(st, k).Next?
    ensures KillThreadsStep(st, k).sys.killer == Generating(0, 0) <==> k == 0 || st.nthreads == 0
  {
  }

  const OVERLAP: seq<Step> := [
    KillThreads(1), ConnectDone(KILLER), KillAdd(7), KillSchedule(0), KillAwait,
    Look(0), Remove(0), ThreadKill(0), KillThreads(1)]

  /** The states that `OVERLAP` goes through. */
  function OverlapState(i: nat): System
    requires i <= 8
  {
    var open := StageState([], true, 0, true, [], [], 0, []);
    var posted := StageState([7], true, 1, true, [7], [], 0, []);
    var taken := StageState([], true, 1, true, [7], [7], 0, []);
    var ask := Request(1, 1, 0);
    var none := multiset{};
    match i
    case 0 => System([FRESH], [Idle], none, [], 0, [AtLoop], 1, 0, NoKill, Request(0, 0, 0))
    case 1 => System([open], [Connecting(0)], none, [], 0, [AtLoop], 1, 0, Generating(1, 0), ask)
    case 2 => System([open], [Idle], none, [], 0, [AtLoop], 1, 0, Generating(1, 0), ask)
    case 3 => System([posted], [Idle], none, [], 0, [AtLoop], 1, 0, Posting(1, 1), ask)
    case 4 => System([posted], [Idle], none, [KILLER], 0, [AtLoop], 1, 0, Generating(1, 1), ask)
    case 5 => System([posted], [Idle], none, [KILLER], 0, [AtLoop], 1, 1, Awaiting(1), ask)
    case 6 => System([posted], [Idle], none, [], 0, [Holding(KILLER)], 1, 1, Awaiting(1), ask)
    case 7 => System([taken], [Idle], none, [], 0, [Handling(KILLER, 7)], 1, 1, Awaiting(1), ask)
    case 8 => System([taken], [Idle], none, [], 0, [Leaving], 0, 0, Notified(1), ask)
  }

  lemma OverlapStepEarly(i: nat)
    requires i < 4
    ensures WellFormed(OverlapState(i)) && Apply(OverlapState(i), OVERLAP[i]) == Next(OverlapState(i + 1))
  {
    assert [] + [7] == [7];
    assert [] + [KILLER] == [KILLER];
  }

  lemma OverlapStepLate(i: nat)
    requires 4 <= i < 8
    ensures WellFormed(OverlapState(i)) && Apply(OverlapState(i), OVERLAP[i]) == Next(OverlapState(i + 1))
  {
    assert [] + [7] == [7] && [7][1..] == [];
    assert [KILLER][1..] == [];
  }

  lemma {:induction false} OverlapRun(i: nat)
    requires i <= 8
    ensures WellFormed(OverlapState(i))
    ensures Run(OverlapState(i), OVERLAP[i..]) == Fault(KillerStillConnected)
    decreases 8 - i
  {
    if i < 8 {
      OverlapRun(i + 1);
      if i < 4 { OverlapStepEarly(i); } else { OverlapStepLate(i); }
      assert OVERLAP[i..][0] == OVERLAP[i] && OVERLAP[i..][1..] == OVERLAP[i + 1..];
    } else {
      assert OVERLAP[8..] == [KillThreads(1)];
    }
  }

  /** Overlapping kills do happen: the last worker has signalled the first caller, and a second
      caller takes the mutex before it. */
  lemma OverlapHappens()
    ensures Run(Initial(0, 1), OVERLAP) == Fault(KillerStillConnected)
  {
    assert Initial(0, 1) == OverlapState(0) by {
      assert Initial(0, 1).workers == [AtLoop] && Initial(0, 1).stages == [FRESH] && Initial(0, 1).ctl == [Idle];
    }
    OverlapRun(0);
    assert OVERLAP[0..] == OVERLAP;
  }
}
