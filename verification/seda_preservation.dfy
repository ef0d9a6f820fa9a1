/** Every step keeps the invariant. */
module SedaPreservation {
  import opened Common
  import opened SedaStage
  import opened SedaWorkers
  import opened SedaPool
  import opened SedaInvariant

  /** No assertion fails, and the next state satisfies the invariant. */
  ghost predicate Kept(o: Outcome) {
    !o.Fault? && (o.Next? ==> Inv(o.sys))
  }

  /** Nothing about the kill transaction changes. */
  lemma KillFrame(a: System, b: System)
    requires WellFormed(a) && WellFormed(b) && KillInv(a)
    requires b.killer == a.killer && b.request == a.request && b.toKill == a.toKill
    requires b.nthreads >= a.nthreads && Unkilled(b) == Unkilled(a) && Killed(b) == Killed(a)
    requires b.stages[KILLER].connected == a.stages[KILLER].connected
    requires b.ctl[KILLER] == a.ctl[KILLER]
    ensures KillInv(b)
  {
  }

  lemma NamesAfterMove(ws: seq<Worker>, w: nat, x: Worker, n: nat)
    requires AllName(ws, n) && w < |ws| && NamesStage(x, n)
    ensures AllName(ws[w := x], n)
  {
  }

  /** What moving worker `w` to `x` does to the accounts of stage `s`. */
  lemma MoveFlight(ws: seq<Worker>, w: nat, x: Worker, s: StageId)
    requires w < |ws|
    ensures Carried(ws[w := x], s)
            == Carried(ws, s) - One(ws[w], PostingTo(s)) - One(ws[w], HoldingFor(s))
               + One(x, PostingTo(s)) + One(x, HoldingFor(s))
    ensures Count(ws[w := x], BusyFor(s)) == Count(ws, BusyFor(s)) - One(ws[w], BusyFor(s)) + One(x, BusyFor(s))
  {
    CountUpdate(ws, w, x);
  }

  lemma MovePool(ws: seq<Worker>, w: nat, x: Worker)
    requires w < |ws|
    ensures Count(ws[w := x], Enrolled) == Count(ws, Enrolled) - One(ws[w], Enrolled) + One(x, Enrolled)
    ensures Count(ws[w := x], Idling) == Count(ws, Idling) - One(ws[w], Idling) + One(x, Idling)
    ensures Count(ws[w := x], Free) == Count(ws, Free) - One(ws[w], Free) + One(x, Free)
    ensures Count(ws[w := x], Ready) == Count(ws, Ready) - One(ws[w], Ready) + One(x, Ready)
    ensures Count(ws[w := x], Dooming) == Count(ws, Dooming) - One(ws[w], Dooming) + One(x, Dooming)
    ensures Count(ws[w := x], Gone) == Count(ws, Gone) - One(ws[w], Gone) + One(x, Gone)
  {
    CountUpdate(ws, w, x);
  }

  lemma KeepsConnect(st: System, s: StageId)
    requires Inv(st)
    ensures Kept(ConnectStep(st, s))
  {
    if ConnectStep(st, s).Next? {
      var st' := ConnectStep(st, s).sys;
      assert StageInv(st, s);
      OkAttach(st.stages[s], st.ctl[s], Count(st.workers, BusyFor(s)), false);
      forall x | 0 <= x < |st.stages| ensures StageInv(st', x) {
        assert StageInv(st, x);
      }
      assert InFlight(st', KILLER) == InFlight(st, KILLER);
    }
  }

  lemma KeepsConnectDone(st: System, s: StageId)
    requires Inv(st)
    ensures Kept(ConnectDoneStep(st, s))
  {
    if ConnectDoneStep(st, s).Next? {
      var st' := ConnectDoneStep(st, s).sys;
      forall x | 0 <= x < |st.stages| ensures StageInv(st', x) {
        assert StageInv(st, x);
      }
      assert InFlight(st', KILLER) == InFlight(st, KILLER);
    }
  }

  /** `disconnect` of a closed stage that nobody is connecting keeps the accounts of every stage. */
  lemma FinishKeepsStages(st: System, s: StageId)
    requires WellFormed(st) && s < |st.stages| && !st.ctl[s].Connecting? && !st.stages[s].connected
    requires forall x :: 0 <= x < |st.stages| && x != s ==> StageInv(st, x)
    requires StageOk(st.stages[s], Signalled, InFlight(st, s), Count(st.workers, BusyFor(s)), s == KILLER)
    ensures StagesInv(FinishDisconnect(st, s))
    ensures forall x :: 0 <= x < |st.stages| ==> InFlight(FinishDisconnect(st, s), x) == InFlight(st, x)
  {
    var st' := FinishDisconnect(st, s);
    forall x | 0 <= x < |st.stages| ensures InFlight(st', x) == InFlight(st, x) && StageInv(st', x) {
      if x != s {
        assert StageInv(st, x);
      }
    }
  }

  lemma KeepsDisconnect(st: System, s: StageId)
    requires Inv(st)
    ensures Kept(DisconnectStep(st, s))
  {
    if DisconnectStep(st, s).Next? {
      var closed := st.(stages := st.stages[s := Close(st.stages[s])]);
      forall x | 0 <= x < |st.stages| ensures InFlight(closed, x) == InFlight(st, x) {}
      forall x | 0 <= x < |st.stages| && x != s ensures StageInv(closed, x) {
        assert StageInv(st, x);
      }
      assert StageInv(st, s);
      FinishKeepsStages(closed, s);
      var st' := FinishDisconnect(closed, s);
      assert InFlight(st', KILLER) == InFlight(st, KILLER);
      assert st'.workers == st.workers && st'.stages[KILLER] == st.stages[KILLER];
    }
  }

  lemma KeepsResume(st: System, s: StageId)
    requires Inv(st)
    ensures Kept(ResumeDisconnectStep(st, s))
  {
    if ResumeDisconnectStep(st, s).Next? {
      assert StageInv(st, s);
      FinishKeepsStages(st, s);
      var st' := FinishDisconnect(st, s);
      assert InFlight(st', KILLER) == InFlight(st, KILLER);
    }
  }

  lemma CallerAddFlight(st: System, s: StageId, e: Event, x: StageId)
    requires WellFormed(st) && x < |st.stages| && CallerAddStep(st, s, e).Next?
    ensures InFlight(CallerAddStep(st, s, e).sys, x)
            == InFlight(st, x) + if x == s && st.stages[s].connected then 1 else 0
  {
  }

  lemma CallerAddStage(st: System, s: StageId, e: Event, x: StageId)
    requires WellFormed(st) && x < |st.stages| && StageInv(st, x) && CallerAddStep(st, s, e).Next?
    ensures StageInv(CallerAddStep(st, s, e).sys, x)
  {
    CallerAddFlight(st, s, e, x);
    if x == s {
      OkPush(st.stages[s], st.ctl[s], InFlight(st, s), Count(st.workers, BusyFor(s)), false, e);
    }
  }

  lemma KeepsCallerAdd(st: System, s: StageId, e: Event)
    requires Inv(st)
    ensures Kept(CallerAddStep(st, s, e))
  {
    if CallerAddStep(st, s, e).Next? {
      var st' := CallerAddStep(st, s, e).sys;
      forall x | 0 <= x < |st.stages| ensures StageInv(st', x) {
        assert StageInv(st, x);
        CallerAddStage(st, s, e, x);
      }
      CallerAddFlight(st, s, e, KILLER);
      KillFrame(st, st');
    }
  }

  // ----- schedule

  lemma TokenPopped(q: seq<StageId>, x: StageId)
    requires q != []
    ensures multiset(q)[x] == multiset(q[1..])[x] + if x == q[0] then 1 else 0
  {
    assert q == [q[0]] + q[1..];
  }

  lemma SignalCounts(ws: seq<Worker>, wake: nat)
    requires CanSignal(ws, wake)
    ensures forall c: Class :: !c.Asleep? && !c.Ready? ==> Count(Signal(ws, wake), c) == Count(ws, c)
    ensures Count(Signal(ws, wake), Ready) == Count(ws, Ready) + Min(1, Count(ws, Asleep))
  {
    if wake < |ws| && ws[wake].Sleeping? {
      CountUpdate(ws, wake, Woken);
      CountMember(ws, wake, Asleep);
    } else if Count(ws, Asleep) > 0 {
      var i := CountWitness(ws, Asleep);
      assert false;
    }
  }

  lemma ScheduleFlight(st: System, s: StageId, own: bool, wake: nat, x: StageId)
    requires WellFormed(st) && s < |st.stages| && x < |st.stages|
    requires Schedule(st, s, own, wake).Next?
    ensures var st' := Schedule(st, s, own, wake).sys;
            && st' == st.(runQueue := st'.runQueue, workers := st'.workers)
            && InFlight(st', x) == InFlight(st, x) + (if x == s then 1 else 0)
            && forall c: Class :: !c.Asleep? && !c.Ready? ==> Count(st'.workers, c) == Count(st.workers, c)
  {
    if CanSignal(st.workers, wake) {
      SignalCounts(st.workers, wake);
    }
  }

  /** `schedule` wakes somebody whenever somebody has to be woken. */
  lemma ScheduleWakes(st: System, s: StageId, own: bool, wake: nat)
    requires WellFormed(st) && PoolInv(st) && s < |st.stages|
    requires Schedule(st, s, own, wake).Next?
    requires own ==> Count(st.workers, Ready) > 0
    ensures PoolInv(Schedule(st, s, own, wake).sys)
  {
    CountSplits(st.workers);
    var st' := Schedule(st, s, own, wake).sys;
    ScheduleFlight(st, s, own, wake, s);
    if CanSignal(st.workers, wake) {
      SignalCounts(st.workers, wake);
    }
  }

  /** A sleeping worker is woken up exactly if there is one, unless a worker of the pool schedules into an empty
      run queue: it will look there itself. */
  lemma ScheduleSignals(st: System, s: StageId, own: bool, wake: nat)
    requires PoolInv(st) && s < |st.stages| && Schedule(st, s, own, wake).Next?
    ensures var ws := Schedule(st, s, own, wake).sys.workers;
      if (own && st.runQueue == []) || forall w :: 0 <= w < |st.workers| ==> !st.workers[w].Sleeping?
      then ws == st.workers
      else wake < |st.workers| && st.workers[wake].Sleeping? && ws == st.workers[wake := Woken]
  {
    if w :| 0 <= w < |st.workers| && st.workers[w].Sleeping? {
      CountMember(st.workers, w, Idling);
    }
  }

  lemma NamesAfterSignal(ws: seq<Worker>, wake: nat, n: nat)
    requires AllName(ws, n)
    ensures AllName(Signal(ws, wake), n)
  {
  }

  lemma ScheduleKeepsKill(st: System, s: StageId, own: bool, wake: nat)
    requires DebtInv(st, s) && Schedule(st, s, own, wake).Next?
    ensures KillInv(Schedule(st, s, own, wake).sys)
  {
    var st' := Schedule(st, s, own, wake).sys;
    ScheduleFlight(st, s, own, wake, KILLER);
    assert Unkilled(st') == Unkilled(st) + if s == KILLER then 1 else 0;
    assert Killed(st') == Killed(st);
    assert KillInvAt(st', Unkilled(st'));
  }

  lemma ScheduleKeepsStage(st: System, s: StageId, own: bool, wake: nat, x: StageId)
    requires DebtInv(st, s) && Schedule(st, s, own, wake).Next? && x < |st.stages|
    ensures StageInv(Schedule(st, s, own, wake).sys, x)
  {
    assert StageDebt(st, s, x);
    ScheduleFlight(st, s, own, wake, x);
  }

  lemma ScheduleKeepsNames(st: System, s: StageId, own: bool, wake: nat)
    requires NamesInv(st) && WellFormed(st) && s < |st.stages| && Schedule(st, s, own, wake).Next?
    ensures NamesInv(Schedule(st, s, own, wake).sys)
  {
    NamesAfterSignal(st.workers, wake, |st.stages|);
  }

  lemma ScheduleFinds(st: System, s: StageId, own: bool, wake: nat)
    requires DebtInv(st, s)
    ensures !Schedule(st, s, own, wake).Fault?
  {
    assert StageDebt(st, s, s);
  }

  /** A schedule that is owed can be made: the stage still has a pool and a queued event, and
      afterwards the accounts are settled. */
  lemma ScheduleKeeps(st: System, s: StageId, own: bool, wake: nat)
    requires DebtInv(st, s)
    requires own ==> Count(st.workers, Ready) > 0
    ensures !Schedule(st, s, own, wake).Fault?
    ensures Schedule(st, s, own, wake).Next? ==> Inv(Schedule(st, s, own, wake).sys)
  {
    ScheduleFinds(st, s, own, wake);
    if Schedule(st, s, own, wake).Next? {
      var st' := Schedule(st, s, own, wake).sys;
      ScheduleFlight(st, s, own, wake, s);
      hide Schedule, StageInv, PoolInv, NamesInv, KillInv;
      forall x | 0 <= x < |st.stages| ensures StageInv(st', x) {
        ScheduleKeepsStage(st, s, own, wake, x);
      }
      ScheduleWakes(st, s, own, wake);
      ScheduleKeepsKill(st, s, own, wake);
      ScheduleKeepsNames(st, s, own, wake);
    }
  }

  lemma ConnectScheduleDebt(st: System, s: StageId)
    requires Inv(st) && s < |st.stages| && st.ctl[s].Connecting? && st.ctl[s].backlog > 0
    ensures DebtInv(st.(ctl := st.ctl[s := Connecting(st.ctl[s].backlog - 1)]), s)
  {
    var mid := st.(ctl := st.ctl[s := Connecting(st.ctl[s].backlog - 1)]);
    assert s != KILLER by {
      assert KillInv(st);
    }
    forall x | 0 <= x < |st.stages| ensures StageDebt(mid, s, x) {
      hide KillInv, PoolInv, NamesInv;
      assert StageInv(st, x);
      assert InFlight(mid, x) == InFlight(st, x) - if x == s then 1 else 0;
    }
    hide StagesInv, StageInv, StageDebt;
    assert KillInvAt(mid, Unkilled(mid)) by {
      hide PoolInv, NamesInv;
      assert InFlight(mid, KILLER) == InFlight(st, KILLER);
    }
  }

  lemma KeepsConnectSchedule(st: System, s: StageId, wake: nat)
    requires Inv(st)
    ensures Kept(ConnectScheduleStep(st, s, wake))
  {
    if s < |st.stages| && st.ctl[s].Connecting? && st.ctl[s].backlog > 0 {
      ConnectScheduleDebt(st, s);
      hide Inv, DebtInv, Schedule;
      ScheduleKeeps(st.(ctl := st.ctl[s := Connecting(st.ctl[s].backlog - 1)]), s, false, wake);
    }
  }

  lemma KeepsCallerSchedule(st: System, s: StageId, wake: nat)
    requires Inv(st)
    ensures Kept(CallerScheduleStep(st, s, wake))
  {
    if s in st.callers && s < |st.stages| {
      var mid := st.(callers := st.callers - multiset{s});
      forall x | 0 <= x < |st.stages|
        ensures InFlight(mid, x) == InFlight(st, x) - (if x == s then 1 else 0)
        ensures StageDebt(mid, s, x)
      {
        assert StageInv(st, x);
      }
      assert InFlight(mid, KILLER) == InFlight(st, KILLER);
      ScheduleKeeps(mid, s, false, wake);
    }
  }

  lemma KeepsKillSchedule(st: System, wake: nat)
    requires Inv(st)
    ensures Kept(KillScheduleStep(st, wake))
  {
    if st.killer.Posting? {
      var mid := st.(killer := Generating(st.killer.target, st.killer.sent));
      forall x | 0 <= x < |st.stages|
        ensures InFlight(mid, x) == InFlight(st, x) - (if x == KILLER then 1 else 0)
        ensures StageDebt(mid, KILLER, x)
      {
        assert StageInv(st, x);
      }
      assert InFlight(mid, KILLER) == InFlight(st, KILLER) - 1;
      ScheduleKeeps(mid, KILLER, false, wake);
    }
  }

  /** The state in which the handler of `w` makes the schedule it promised. */
  function HandlerSchedules(st: System, w: nat): System
    requires w < |st.workers| && st.workers[w].Scheduling?
  {
    st.(workers := st.workers[w := Handling(st.workers[w].stage, st.workers[w].event)])
  }

  lemma HandlerScheduleFlight(st: System, w: nat, x: StageId)
    requires Inv(st) && w < |st.workers| && st.workers[w].Scheduling? && x < |st.stages|
    ensures InFlight(HandlerSchedules(st, w), x)
            == InFlight(st, x) - (if x == st.workers[w].target then 1 else 0)
    ensures Count(HandlerSchedules(st, w).workers, BusyFor(x)) == Count(st.workers, BusyFor(x))
  {
    MoveFlight(st.workers, w, HandlerSchedules(st, w).workers[w], x);
  }

  lemma HandlerScheduleDebt(st: System, w: nat)
    requires Inv(st) && w < |st.workers| && st.workers[w].Scheduling?
    ensures DebtInv(HandlerSchedules(st, w), st.workers[w].target)
    ensures Count(HandlerSchedules(st, w).workers, Ready) > 0
  {
    var mid, t := HandlerSchedules(st, w), st.workers[w].target;
    assert NamesStage(st.workers[w], |st.stages|);
    forall x | 0 <= x < |st.stages| ensures StageDebt(mid, t, x) {
      assert StageInv(st, x);
      HandlerScheduleFlight(st, w, x);
    }
    NamesAfterMove(st.workers, w, mid.workers[w], |st.stages|);
    HandlerScheduleFlight(st, w, KILLER);
    MovePool(st.workers, w, mid.workers[w]);
    CountMember(mid.workers, w, Ready);
    KillFrame(st, mid);
  }

  lemma KeepsHandlerSchedule(st: System, w: nat, wake: nat)
    requires Inv(st)
    ensures Kept(HandlerScheduleStep(st, w, wake))
  {
    if w < |st.workers| && st.workers[w].Scheduling? && st.workers[w].target < |st.stages| {
      HandlerScheduleDebt(st, w);
      ScheduleKeeps(HandlerSchedules(st, w), st.workers[w].target, true, wake);
    }
  }

  // ----- The workers

  lemma LookFlight(st: System, w: nat, x: StageId)
    requires WellFormed(st) && x < |st.stages| && LookStep(st, w).Next?
    ensures InFlight(LookStep(st, w).sys, x) == InFlight(st, x)
    ensures Count(LookStep(st, w).sys.workers, BusyFor(x)) == Count(st.workers, BusyFor(x))
  {
    MoveFlight(st.workers, w, LookStep(st, w).sys.workers[w], x);
    if st.runQueue != [] {
      TokenPopped(st.runQueue, x);
    }
  }

  lemma LookPool(st: System, w: nat)
    requires PoolInv(st) && LookStep(st, w).Next?
    ensures PoolInv(LookStep(st, w).sys)
    ensures Count(LookStep(st, w).sys.workers, Dooming) == Count(st.workers, Dooming)
    ensures Count(LookStep(st, w).sys.workers, Gone) == Count(st.workers, Gone)
  {
    MovePool(st.workers, w, LookStep(st, w).sys.workers[w]);
    CountSplits(st.workers);
  }

  lemma KeepsLook(st: System, w: nat)
    requires Inv(st)
    ensures Kept(LookStep(st, w))
  {
    if LookStep(st, w).Next? {
      var st' := LookStep(st, w).sys;
      forall x | 0 <= x < |st.stages| ensures StageInv(st', x) {
        LookFlight(st, w, x);
        assert StageInv(st, x);
      }
      LookPool(st, w);
      LookFlight(st, w, KILLER);
      KillFrame(st, st');
      NamesAfterMove(st.workers, w, st'.workers[w], |st.stages|);
    }
  }

  lemma WakeFlight(st: System, w: nat, x: StageId)
    requires WellFormed(st) && x < |st.stages| && SpuriousWakeStep(st, w).Next?
    ensures InFlight(SpuriousWakeStep(st, w).sys, x) == InFlight(st, x)
    ensures Count(SpuriousWakeStep(st, w).sys.workers, BusyFor(x)) == Count(st.workers, BusyFor(x))
  {
    MoveFlight(st.workers, w, Woken, x);
  }

  lemma WakePool(st: System, w: nat)
    requires PoolInv(st) && SpuriousWakeStep(st, w).Next?
    ensures PoolInv(SpuriousWakeStep(st, w).sys)
    ensures Count(SpuriousWakeStep(st, w).sys.workers, Dooming) == Count(st.workers, Dooming)
    ensures Count(SpuriousWakeStep(st, w).sys.workers, Gone) == Count(st.workers, Gone)
  {
    MovePool(st.workers, w, Woken);
  }

  lemma KeepsSpuriousWake(st: System, w: nat)
    requires Inv(st)
    ensures Kept(SpuriousWakeStep(st, w))
  {
    if SpuriousWakeStep(st, w).Next? {
      var st' := SpuriousWakeStep(st, w).sys;
      forall x | 0 <= x < |st.stages| ensures StageInv(st', x) {
        assert StageInv(st, x);
        WakeFlight(st, w, x);
      }
      WakeFlight(st, w, KILLER);
      WakePool(st, w);
      NamesAfterMove(st.workers, w, Woken, |st.stages|);
      KillFrame(st, st');
    }
  }

  lemma RemoveFlight(st: System, w: nat, x: StageId)
    requires WellFormed(st) && x < |st.stages| && RemoveStep(st, w).Next?
    ensures InFlight(RemoveStep(st, w).sys, x) == InFlight(st, x) - One(st.workers[w], HoldingFor(x))
    ensures Count(RemoveStep(st, w).sys.workers, BusyFor(x))
            == Count(st.workers, BusyFor(x)) + One(st.workers[w], HoldingFor(x))
  {
    MoveFlight(st.workers, w, RemoveStep(st, w).sys.workers[w], x);
  }

  lemma RemoveStage(st: System, w: nat, x: StageId)
    requires WellFormed(st) && x < |st.stages| && StageInv(st, x) && RemoveStep(st, w).Next?
    ensures StageInv(RemoveStep(st, w).sys, x)
  {
    RemoveFlight(st, w, x);
    if x == st.workers[w].stage {
      CountMember(st.workers, w, HoldingFor(x));
      OkPop(st.stages[x], st.ctl[x], InFlight(st, x), Count(st.workers, BusyFor(x)), x == KILLER);
    }
  }

  /** A worker that holds a token finds an event. */
  lemma RemoveFinds(st: System, w: nat)
    requires Inv(st)
    ensures !RemoveStep(st, w).Fault?
  {
    if w < |st.workers| && st.workers[w].Holding? {
      var s := st.workers[w].stage;
      assert NamesStage(st.workers[w], |st.stages|);
      assert StageInv(st, s);
      CountMember(st.workers, w, HoldingFor(s));
    }
  }

  lemma RemovePool(st: System, w: nat)
    requires PoolInv(st) && RemoveStep(st, w).Next?
    ensures PoolInv(RemoveStep(st, w).sys)
    ensures Count(RemoveStep(st, w).sys.workers, Dooming)
            == Count(st.workers, Dooming) + One(st.workers[w], HoldingFor(KILLER))
    ensures Count(RemoveStep(st, w).sys.workers, Gone) == Count(st.workers, Gone)
  {
    MovePool(st.workers, w, RemoveStep(st, w).sys.workers[w]);
  }

  lemma KeepsRemove(st: System, w: nat)
    requires Inv(st)
    ensures Kept(RemoveStep(st, w))
  {
    RemoveFinds(st, w);
    if RemoveStep(st, w).Next? {
      var st' := RemoveStep(st, w).sys;
      forall x | 0 <= x < |st.stages| ensures StageInv(st', x) {
        assert StageInv(st, x);
        RemoveStage(st, w, x);
      }
      RemoveFlight(st, w, KILLER);
      RemovePool(st, w);
      NamesAfterMove(st.workers, w, st'.workers[w], |st.stages|);
      KillFrame(st, st');
    }
  }

  lemma HandlerAddFlight(st: System, w: nat, t: StageId, e: Event, x: StageId)
    requires WellFormed(st) && x < |st.stages| && HandlerAddStep(st, w, t, e).Next?
    ensures InFlight(HandlerAddStep(st, w, t, e).sys, x)
            == InFlight(st, x) + if x == t && st.stages[t].connected then 1 else 0
    ensures Count(HandlerAddStep(st, w, t, e).sys.workers, BusyFor(x)) == Count(st.workers, BusyFor(x))
  {
    if st.stages[t].connected {
      MoveFlight(st.workers, w, HandlerAddStep(st, w, t, e).sys.workers[w], x);
    }
  }

  lemma HandlerAddStage(st: System, w: nat, t: StageId, e: Event, x: StageId)
    requires WellFormed(st) && x < |st.stages| && StageInv(st, x) && HandlerAddStep(st, w, t, e).Next?
    ensures StageInv(HandlerAddStep(st, w, t, e).sys, x)
  {
    HandlerAddFlight(st, w, t, e, x);
    if x == t {
      OkPush(st.stages[t], st.ctl[t], InFlight(st, t), Count(st.workers, BusyFor(t)), false, e);
    }
  }

  lemma HandlerAddPool(st: System, w: nat, t: StageId, e: Event)
    requires PoolInv(st) && HandlerAddStep(st, w, t, e).Next?
    ensures PoolInv(HandlerAddStep(st, w, t, e).sys)
    ensures Count(HandlerAddStep(st, w, t, e).sys.workers, Dooming) == Count(st.workers, Dooming)
    ensures Count(HandlerAddStep(st, w, t, e).sys.workers, Gone) == Count(st.workers, Gone)
  {
    if st.stages[t].connected {
      MovePool(st.workers, w, HandlerAddStep(st, w, t, e).sys.workers[w]);
    }
  }

  lemma KeepsHandlerAdd(st: System, w: nat, t: StageId, e: Event)
    requires Inv(st)
    ensures Kept(HandlerAddStep(st, w, t, e))
  {
    if HandlerAddStep(st, w, t, e).Next? {
      var st' := HandlerAddStep(st, w, t, e).sys;
      forall x | 0 <= x < |st.stages| ensures StageInv(st', x) {
        assert StageInv(st, x);
        HandlerAddStage(st, w, t, e, x);
      }
      HandlerAddFlight(st, w, t, e, KILLER);
      HandlerAddPool(st, w, t, e);
      assert NamesStage(st.workers[w], |st.stages|);
      NamesAfterMove(st.workers, w, st'.workers[w], |st.stages|);
      KillFrame(st, st');
    }
  }

  lemma ReleaseFlight(st: System, w: nat, x: StageId)
    requires WellFormed(st) && x < |st.stages| && ReleaseStep(st, w).Next?
    ensures InFlight(ReleaseStep(st, w).sys, x) == InFlight(st, x)
    ensures Count(ReleaseStep(st, w).sys.workers, BusyFor(x))
            == Count(st.workers, BusyFor(x)) - if x == st.workers[w].stage then 1 else 0
  {
    MoveFlight(st.workers, w, AtLoop, x);
  }

  lemma ReleaseStage(st: System, w: nat, x: StageId)
    requires WellFormed(st) && x < |st.stages| && StageInv(st, x) && ReleaseStep(st, w).Next?
    ensures StageInv(ReleaseStep(st, w).sys, x)
  {
    ReleaseFlight(st, w, x);
    if x == st.workers[w].stage {
      CountMember(st.workers, w, BusyFor(x));
      OkUnref(st.stages[x], st.ctl[x], InFlight(st, x), Count(st.workers, BusyFor(x)), false);
    }
  }

  lemma ReleasePool(st: System, w: nat)
    requires PoolInv(st) && WellFormed(st) && ReleaseStep(st, w).Next?
    ensures PoolInv(ReleaseStep(st, w).sys)
    ensures Count(ReleaseStep(st, w).sys.workers, Dooming) == Count(st.workers, Dooming)
    ensures Count(ReleaseStep(st, w).sys.workers, Gone) == Count(st.workers, Gone)
  {
    MovePool(st.workers, w, AtLoop);
  }

  lemma KeepsRelease(st: System, w: nat)
    requires Inv(st)
    ensures Kept(ReleaseStep(st, w))
  {
    if ReleaseStep(st, w).Next? {
      var st' := ReleaseStep(st, w).sys;
      forall x | 0 <= x < |st.stages| ensures StageInv(st', x) {
        assert StageInv(st, x);
        ReleaseStage(st, w, x);
      }
      ReleaseFlight(st, w, KILLER);
      ReleasePool(st, w);
      NamesAfterMove(st.workers, w, AtLoop, |st.stages|);
      KillFrame(st, st');
    }
  }

  lemma ThreadKillFlight(st: System, w: nat, x: StageId)
    requires WellFormed(st) && x < |st.stages| && ThreadKillStep(st, w).Next?
    ensures InFlight(ThreadKillStep(st, w).sys, x)
            == InFlight(st, x) - Promised(st.callers, st.ctl[x], st.killer, x)
               + Promised(st.callers, st.ctl[x], ThreadKillStep(st, w).sys.killer, x)
    ensures Count(ThreadKillStep(st, w).sys.workers, BusyFor(x)) == Count(st.workers, BusyFor(x))
  {
    MoveFlight(st.workers, w, Leaving, x);
  }

  lemma ThreadKillPool(st: System, w: nat)
    requires PoolInv(st) && ThreadKillStep(st, w).Next?
    ensures PoolInv(ThreadKillStep(st, w).sys)
    ensures Count(ThreadKillStep(st, w).sys.workers, Dooming) == Count(st.workers, Dooming) - 1
    ensures Count(ThreadKillStep(st, w).sys.workers, Gone) == Count(st.workers, Gone)
  {
    MovePool(st.workers, w, Leaving);
  }

  lemma ThreadKillTransaction(st: System, w: nat)
    requires Inv(st) && ThreadKillStep(st, w).Next?
    ensures KillInv(ThreadKillStep(st, w).sys)
  {
    var st' := ThreadKillStep(st, w).sys;
    ThreadKillFlight(st, w, KILLER);
    ThreadKillPool(st, w);
    CountMember(st.workers, w, Dooming);
    CountSplits(st.workers);
    assert StageInv(st, KILLER);
    assert Unkilled(st') == Unkilled(st) - 1 && Killed(st') == Killed(st) + 1;
  }

  lemma KeepsThreadKill(st: System, w: nat)
    requires Inv(st)
    ensures Kept(ThreadKillStep(st, w))
  {
    if ThreadKillStep(st, w).Next? {
      var st' := ThreadKillStep(st, w).sys;
      forall x | 0 <= x < |st.stages| ensures StageInv(st', x) {
        assert StageInv(st, x);
        ThreadKillFlight(st, w, x);
      }
      ThreadKillPool(st, w);
      ThreadKillTransaction(st, w);
      NamesAfterMove(st.workers, w, Leaving, |st.stages|);
    }
  }

  lemma ExitFlight(st: System, w: nat, x: StageId)
    requires WellFormed(st) && x < |st.stages| && ExitStep(st, w).Next?
    ensures InFlight(ExitStep(st, w).sys, x) == InFlight(st, x)
    ensures Count(ExitStep(st, w).sys.workers, BusyFor(x))
            == Count(st.workers, BusyFor(x)) - if x == KILLER then 1 else 0
  {
    MoveFlight(st.workers, w, Exited, x);
  }

  lemma ExitPool(st: System, w: nat)
    requires PoolInv(st) && WellFormed(st) && ExitStep(st, w).Next?
    ensures PoolInv(ExitStep(st, w).sys)
    ensures Count(ExitStep(st, w).sys.workers, Dooming) == Count(st.workers, Dooming)
    ensures Count(ExitStep(st, w).sys.workers, Gone) == Count(st.workers, Gone) + 1
  {
    MovePool(st.workers, w, Exited);
  }

  lemma KeepsExit(st: System, w: nat)
    requires Inv(st)
    ensures Kept(ExitStep(st, w))
  {
    if ExitStep(st, w).Next? {
      var st' := ExitStep(st, w).sys;
      forall x | 0 <= x < |st.stages| ensures StageInv(st', x) {
        assert StageInv(st, x);
        ExitFlight(st, w, x);
        if x == KILLER {
          CountMember(st.workers, w, BusyFor(KILLER));
          OkUnref(st.stages[x], st.ctl[x], InFlight(st, x), Count(st.workers, BusyFor(x)), true);
        }
      }
      ExitFlight(st, w, KILLER);
      ExitPool(st, w);
      NamesAfterMove(st.workers, w, Exited, |st.stages|);
      assert StageInv(st, KILLER);
      assert Unkilled(st') == Unkilled(st) && Killed(st') == Killed(st);
      assert KillInv(st');
    }
  }

  lemma AddThreadsFlight(st: System, n: nat, x: StageId)
    requires WellFormed(st) && x < |st.stages| && AddThreadsStep(st, n).Next?
    ensures InFlight(AddThreadsStep(st, n).sys, x) == InFlight(st, x)
    ensures Count(AddThreadsStep(st, n).sys.workers, BusyFor(x)) == Count(st.workers, BusyFor(x))
  {
    CountSpawn(st.workers, n);
  }

  lemma AddThreadsPool(st: System, n: nat)
    requires PoolInv(st) && AddThreadsStep(st, n).Next?
    ensures PoolInv(AddThreadsStep(st, n).sys)
    ensures Count(AddThreadsStep(st, n).sys.workers, Dooming) == Count(st.workers, Dooming)
    ensures Count(AddThreadsStep(st, n).sys.workers, Gone) == Count(st.workers, Gone)
  {
    CountSpawn(st.workers, n);
  }

  lemma KeepsAddThreads(st: System, n: nat)
    requires Inv(st)
    ensures Kept(AddThreadsStep(st, n))
  {
    if AddThreadsStep(st, n).Next? {
      var st' := AddThreadsStep(st, n).sys;
      forall x | 0 <= x < |st.stages| ensures StageInv(st', x) {
        assert StageInv(st, x);
        AddThreadsFlight(st, n, x);
      }
      AddThreadsFlight(st, n, KILLER);
      AddThreadsPool(st, n);
      KillFrame(st, st');
    }
  }

  // ----- kill_threads

  lemma KeepsKillThreads(st: System, k: nat)
    requires Inv(st) && KillThreadsStep(st, k).Next?
    ensures Inv(KillThreadsStep(st, k).sys)
  {
    var st' := KillThreadsStep(st, k).sys;
    assert StageInv(st, KILLER);
    CountSplits(st.workers);
    if st.toKill == 0 {
      OkAttach(st.stages[KILLER], st.ctl[KILLER], Count(st.workers, BusyFor(KILLER)), true);
      forall x | 0 <= x < |st.stages| ensures StageInv(st', x) {
        assert StageInv(st, x);
      }
      assert KillInv(st');
    }
  }

  lemma KillAddFlight(st: System, e: Event, x: StageId)
    requires WellFormed(st) && x < |st.stages| && KillAddStep(st, e).Next? && st.stages[KILLER].connected
    ensures InFlight(KillAddStep(st, e).sys, x) == InFlight(st, x) + if x == KILLER then 1 else 0
  {
  }

  lemma KeepsKillAdd(st: System, e: Event)
    requires Inv(st)
    ensures Kept(KillAddStep(st, e))
  {
    if KillAddStep(st, e).Next? {
      var st' := KillAddStep(st, e).sys;
      forall x | 0 <= x < |st.stages| ensures StageInv(st', x) {
        assert StageInv(st, x);
        KillAddFlight(st, e, x);
        if x == KILLER {
          OkPush(st.stages[x], st.ctl[x], InFlight(st, x), Count(st.workers, BusyFor(x)), true, e);
        }
      }
      KillAddFlight(st, e, KILLER);
      assert KillInv(st');
    }
  }

  lemma KeepsKillAwait(st: System)
    requires Inv(st)
    ensures Kept(KillAwaitStep(st))
  {
    if KillAwaitStep(st).Next? {
      var st' := KillAwaitStep(st).sys;
      forall x | 0 <= x < |st.stages| ensures StageInv(st', x) {
        assert StageInv(st, x);
      }
      assert InFlight(st', KILLER) == InFlight(st, KILLER);
    }
  }

  lemma KeepsKillResume(st: System)
    requires Inv(st)
    ensures Kept(KillResumeStep(st))
  {
    if st.killer.Notified? {
      assert StageInv(st, KILLER);
      ResumeKeepsStages(st);
      ResumeKeepsKill(st);
      hide StagesInv, StageInv, KillInv;
    }
  }

  lemma ResumeKeepsStages(st: System)
    requires Inv(st) && KillResumeStep(st).Next?
    ensures StagesInv(KillResumeStep(st).sys)
    ensures InFlight(KillResumeStep(st).sys, KILLER) == InFlight(st, KILLER)
  {
    var closed := st.(killer := Closing(st.killer.target),
                      stages := st.stages[KILLER := Close(st.stages[KILLER])]);
    forall x | 0 <= x < |st.stages| ensures InFlight(closed, x) == InFlight(st, x) {}
    forall x | 0 <= x < |st.stages| && x != KILLER ensures StageInv(closed, x) {
      assert StageInv(st, x);
    }
    assert StageInv(st, KILLER);
    FinishKeepsStages(closed, KILLER);
  }

  lemma ResumeKeepsKill(st: System)
    requires Inv(st) && KillResumeStep(st).Next?
    requires InFlight(KillResumeStep(st).sys, KILLER) == InFlight(st, KILLER)
    ensures KillInv(KillResumeStep(st).sys)
  {
    hide StagesInv, InFlight;
  }

  lemma KeepsKillReturn(st: System)
    requires Inv(st)
    ensures Kept(KillReturnStep(st))
  {
    if KillReturnStep(st).Next? {
      var st' := KillReturnStep(st).sys;
      forall x | 0 <= x < |st.stages| ensures StageInv(st', x) {
        assert StageInv(st, x);
      }
      assert InFlight(st', KILLER) == InFlight(st, KILLER);
    }
  }
}
