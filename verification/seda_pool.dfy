/** deps/common/seda/thread_pool.cpp, deps/common/seda/kill_thread.cpp.

    The pool, its workers, the callers of its stages and the thread that runs `kill_threads`, as
    one state machine. A step is one region that some thread executes while it holds a mutex;
    the gap between leaving `list_mutex_` and entering `schedule` is a state of its own. */
module SedaPool {
  import opened SedaStage
  import opened SedaWorkers

  /** Where the thread that connects or disconnects a stage is. */
  datatype Control =
    | Idle
    | Connecting(backlog: nat)  // `connect` still has to schedule this many events
    | Waiting                   // `disconnect` sleeps on disconnect_cond_
    | Signalled                 // the same, after a signal

  /** Where the thread running `kill_threads` is. */
  datatype Killer =
    | NoKill
    | Generating(target: nat, sent: nat)  // holds thread_mutex_, in gen_kill_thread_events
    | Posting(target: nat, sent: nat)     // the same, between add_event's unlock and schedule
    | Awaiting(target: nat)               // in COND_WAIT on thread_cond_, thread_mutex_ free
    | Notified(target: nat)               // signalled, thread_mutex_ still free
    | Closing(target: nat)                // holds thread_mutex_, in killer_.disconnect()

  /** What was asked of the last `kill_threads`, how many threads there were then, and how many
      workers had already exited (history). */
  datatype Request = Request(asked: nat, before: int, gone: nat)

  datatype System = System(
    stages: seq<StageState>,
    ctl: seq<Control>,
    callers: multiset<StageId>,  // outside threads between add_event's unlock and schedule
    runQueue: seq<StageId>,
    idles: int,
    workers: seq<Worker>,
    nthreads: int,
    toKill: int,
    killer: Killer,
    request: Request)

  /** The assertions of the code that a step can fail. */
  datatype Site = EmptyAtSchedule | NullPoolAtSchedule | EmptyAtRemove | KillerStillConnected | KillerNotConnected

  datatype Outcome = Next(sys: System) | Blocked | Fault(site: Site)

  datatype Step =
    | Connect(s: StageId)
    | ConnectSchedule(s: StageId, wake: nat)
    | ConnectDone(s: StageId)
    | Disconnect(s: StageId)
    | ResumeDisconnect(s: StageId)
    | CallerAdd(s: StageId, e: Event)
    | CallerSchedule(s: StageId, wake: nat)
    | Look(w: nat)
    | SpuriousWake(w: nat)
    | Remove(w: nat)
    | HandlerAdd(w: nat, t: StageId, e: Event)
    | HandlerSchedule(w: nat, wake: nat)
    | Release(w: nat)
    | ThreadKill(w: nat)
    | Exit(w: nat)
    | AddThreads(n: nat)
    | KillThreads(k: nat)
    | KillAdd(e: Event)
    | KillSchedule(wake: nat)
    | KillAwait
    | KillResume
    | KillReturn

  predicate WellFormed(st: System) {
    0 < |st.stages| == |st.ctl|
  }

  /** `thread_mutex_` can be taken. */
  predicate MutexFree(st: System) {
    st.killer.NoKill? || st.killer.Awaiting? || st.killer.Notified?
  }

  predicate CanSignal(ws: seq<Worker>, wake: nat) {
    (wake < |ws| && ws[wake].Sleeping?) || forall w :: 0 <= w < |ws| ==> !ws[w].Sleeping?
  }

  /** COND_SIGNAL(&run_cond_): one sleeper, the choice `wake`, leaves the wait; without a sleeper
      nothing happens. */
  function Signal(ws: seq<Worker>, wake: nat): seq<Worker> {
    if wake < |ws| && ws[wake].Sleeping? then ws[wake := Woken] else ws
  }

  /** `schedule(stage)`. `own` says that the caller is a worker of this pool. */
  function Schedule(st: System, s: StageId, own: bool, wake: nat): Outcome
    requires s < |st.stages|
  {
    if !st.stages[s].hasPool then Fault(NullPoolAtSchedule)
    else if st.stages[s].queue == [] then Fault(EmptyAtSchedule)
    else
      var wasEmpty := st.runQueue == [];
      var pushed := st.(runQueue := st.runQueue + [s]);
      if (!wasEmpty || !own) && st.idles > 0 then
        if CanSignal(st.workers, wake) then Next(pushed.(workers := Signal(st.workers, wake)))
        else Blocked
      else Next(pushed)
  }

  /** `disconnect` of stage `s`, from its wait loop on. */
  function FinishDisconnect(st: System, s: StageId): System
    requires s < |st.stages| == |st.ctl|
  {
    if st.stages[s].ref > 0 then st.(ctl := st.ctl[s := Waiting])
    else st.(ctl := st.ctl[s := Idle], stages := st.stages[s := Detach(st.stages[s])])
  }

  /** `release_event` on stage `s`, with its signal to a waiting `disconnect`. */
  function ReleaseRef(st: System, s: StageId): System
    requires s < |st.stages| == |st.ctl|
  {
    var r := Unref(st.stages[s]);
    st.(stages := st.stages[s := r],
        ctl := if !r.connected && r.ref == 0 && st.ctl[s].Waiting? then st.ctl[s := Signalled] else st.ctl)
  }

  // ----- The steps. `Blocked` means that no thread can take the step now: it is not there, it
  // waits for a mutex, or the caller would break the documented precondition of the call.

  function ConnectStep(st: System, s: StageId): Outcome
    requires WellFormed(st)
  {
    if s == KILLER || s >= |st.stages| || !st.ctl[s].Idle? || st.stages[s].connected then Blocked
    else Next(Opened(st, s))
  }

  /** The locked part of `connect`; the loop that schedules the backlog is still to run. */
  function Opened(st: System, s: StageId): System
    requires s < |st.stages| == |st.ctl|
  {
    st.(stages := st.stages[s := Attach(st.stages[s])],
        ctl := st.ctl[s := Connecting(|st.stages[s].queue|)])
  }

  function ConnectScheduleStep(st: System, s: StageId, wake: nat): Outcome
    requires WellFormed(st)
  {
    if s >= |st.stages| || !st.ctl[s].Connecting? || st.ctl[s].backlog == 0 then Blocked
    else Schedule(st.(ctl := st.ctl[s := Connecting(st.ctl[s].backlog - 1)]), s, false, wake)
  }

  function ConnectDoneStep(st: System, s: StageId): Outcome
    requires WellFormed(st)
  {
    if s >= |st.stages| || st.ctl[s] != Connecting(0) then Blocked
    else Next(st.(ctl := st.ctl[s := Idle]))
  }

  function DisconnectStep(st: System, s: StageId): Outcome
    requires WellFormed(st)
  {
    if s == KILLER || s >= |st.stages| || !st.ctl[s].Idle? || !st.stages[s].connected then Blocked
    else Next(FinishDisconnect(st.(stages := st.stages[s := Close(st.stages[s])]), s))
  }

  /** `disconnect` wakes up, signalled or not, and tests its condition again. */
  function ResumeDisconnectStep(st: System, s: StageId): Outcome
    requires WellFormed(st)
  {
    if s >= |st.stages| || !(st.ctl[s].Waiting? || st.ctl[s].Signalled?) then Blocked
    else Next(FinishDisconnect(st, s))
  }

  /** A thread outside the pool adds an event. */
  function CallerAddStep(st: System, s: StageId, e: Event): Outcome
    requires WellFormed(st)
  {
    if s == KILLER || s >= |st.stages| then Blocked
    else Next(st.(stages := st.stages[s := Push(st.stages[s], e)],
                  callers := if st.stages[s].connected then st.callers + multiset{s} else st.callers))
  }

  function CallerScheduleStep(st: System, s: StageId, wake: nat): Outcome
    requires WellFormed(st)
  {
    if s !in st.callers || s >= |st.stages| then Blocked
    else Schedule(st.(callers := st.callers - multiset{s}), s, false, wake)
  }

  /** A worker takes run_mutex_ and pops a token, or goes to sleep. */
  function LookStep(st: System, w: nat): Outcome {
    if w >= |st.workers| || !(st.workers[w].AtLoop? || st.workers[w].Woken?) then Blocked
    else
      var idles := if st.workers[w].Woken? then st.idles - 1 else st.idles;
      if st.runQueue == [] then Next(st.(idles := idles + 1, workers := st.workers[w := Sleeping]))
      else Next(st.(idles := idles,
                    workers := st.workers[w := Holding(st.runQueue[0])],
                    runQueue := st.runQueue[1..]))
  }

  function SpuriousWakeStep(st: System, w: nat): Outcome {
    if w >= |st.workers| || !st.workers[w].Sleeping? then Blocked
    else Next(st.(workers := st.workers[w := Woken]))
  }

  function RemoveStep(st: System, w: nat): Outcome {
    if w >= |st.workers| || !st.workers[w].Holding? || st.workers[w].stage >= |st.stages| then Blocked
    else
      var s := st.workers[w].stage;
      if st.stages[s].queue == [] then Fault(EmptyAtRemove)
      else Next(st.(stages := st.stages[s := Pop(st.stages[s])],
                    workers := st.workers[w := Handling(s, st.stages[s].queue[0])]))
  }

  /** The handler that worker `w` runs adds an event to stage `t`. */
  function HandlerAddStep(st: System, w: nat, t: StageId, e: Event): Outcome {
    if w >= |st.workers| || !st.workers[w].Handling? || st.workers[w].stage == KILLER
       || t == KILLER || t >= |st.stages| then Blocked
    else
      var Handling(s, ev) := st.workers[w];
      Next(st.(stages := st.stages[t := Push(st.stages[t], e)],
               workers := if st.stages[t].connected then st.workers[w := Scheduling(s, ev, t)]
                          else st.workers))
  }

  function HandlerScheduleStep(st: System, w: nat, wake: nat): Outcome {
    if w >= |st.workers| || !st.workers[w].Scheduling? || st.workers[w].target >= |st.stages| then Blocked
    else
      var Scheduling(s, ev, t) := st.workers[w];
      Schedule(st.(workers := st.workers[w := Handling(s, ev)]), t, true, wake)
  }

  /** The handler returns and the worker releases its reference. */
  function ReleaseStep(st: System, w: nat): Outcome
    requires WellFormed(st)
  {
    if w >= |st.workers| || !st.workers[w].Handling? || st.workers[w].stage == KILLER
       || st.workers[w].stage >= |st.stages| then Blocked
    else Next(ReleaseRef(st, st.workers[w].stage).(workers := st.workers[w := AtLoop]))
  }

  /** The kill handler calls `thread_kill`. */
  function ThreadKillStep(st: System, w: nat): Outcome {
    if w >= |st.workers| || !st.workers[w].Handling? || st.workers[w].stage != KILLER
       || !MutexFree(st) then Blocked
    else
      var left := st.toKill - 1;
      Next(st.(nthreads := st.nthreads - 1, toKill := left, workers := st.workers[w := Leaving],
               killer := if left == 0 && st.killer.Awaiting? then Notified(st.killer.target)
                         else st.killer))
  }

  /** The kill handler releases the reference itself and ends the thread. */
  function ExitStep(st: System, w: nat): Outcome
    requires WellFormed(st)
  {
    if w >= |st.workers| || !st.workers[w].Leaving? then Blocked
    else Next(ReleaseRef(st, KILLER).(workers := st.workers[w := Exited]))
  }

  function AddThreadsStep(st: System, n: nat): Outcome {
    if !MutexFree(st) then Blocked
    else Next(st.(nthreads := st.nthreads + n, workers := st.workers + Spawned(n)))
  }

  /** `kill_threads(k)` up to the loop that posts the kill events. */
  function KillThreadsStep(st: System, k: nat): Outcome
    requires WellFormed(st)
  {
    if !MutexFree(st) then Blocked
    else if st.toKill > 0 then Next(st)  // a transaction is under way: return 0
    else if st.stages[KILLER].connected then Fault(KillerStillConnected)
    else if st.nthreads < 0 then Blocked
    else
      Next(Opened(st, KILLER).(
             killer := Generating(if k > st.nthreads then st.nthreads else k, 0),
             request := Request(k, st.nthreads, Count(st.workers, Gone))))
  }

  function KillAddStep(st: System, e: Event): Outcome
    requires WellFormed(st)
  {
    if !st.killer.Generating? || st.killer.sent >= st.killer.target || !st.ctl[KILLER].Idle? then Blocked
    else Next(st.(stages := st.stages[KILLER := Push(st.stages[KILLER], e)],
                  killer := if st.stages[KILLER].connected
                            then Posting(st.killer.target, st.killer.sent + 1)
                            else Generating(st.killer.target, st.killer.sent + 1)))
  }

  function KillScheduleStep(st: System, wake: nat): Outcome
    requires WellFormed(st)
  {
    if !st.killer.Posting? then Blocked
    else Schedule(st.(killer := Generating(st.killer.target, st.killer.sent)), KILLER, false, wake)
  }

  /** `threads_to_kill_` is set and `kill_threads` waits. */
  function KillAwaitStep(st: System): Outcome
    requires WellFormed(st)
  {
    if !st.killer.Generating? || st.killer.sent < st.killer.target || !st.ctl[KILLER].Idle? then Blocked
    else Next(st.(toKill := st.killer.sent, killer := Awaiting(st.killer.target)))
  }

  function KillResumeStep(st: System): Outcome
    requires WellFormed(st)
  {
    if !st.killer.Notified? then Blocked
    else if !st.stages[KILLER].connected then Fault(KillerNotConnected)
    else Next(FinishDisconnect(st.(killer := Closing(st.killer.target),
                                   stages := st.stages[KILLER := Close(st.stages[KILLER])]), KILLER))
  }

  function KillReturnStep(st: System): Outcome
    requires WellFormed(st)
  {
    if !st.killer.Closing? || !st.ctl[KILLER].Idle? then Blocked
    else Next(st.(killer := NoKill))
  }

  /** One step of one thread. */
  function Apply(st: System, step: Step): Outcome
    requires WellFormed(st)
  {
    match step
    case Connect(s) => ConnectStep(st, s)
    case ConnectSchedule(s, wake) => ConnectScheduleStep(st, s, wake)
    case ConnectDone(s) => ConnectDoneStep(st, s)
    case Disconnect(s) => DisconnectStep(st, s)
    case ResumeDisconnect(s) => ResumeDisconnectStep(st, s)
    case CallerAdd(s, e) => CallerAddStep(st, s, e)
    case CallerSchedule(s, wake) => CallerScheduleStep(st, s, wake)
    case Look(w) => LookStep(st, w)
    case SpuriousWake(w) => SpuriousWakeStep(st, w)
    case Remove(w) => RemoveStep(st, w)
    case HandlerAdd(w, t, e) => HandlerAddStep(st, w, t, e)
    case HandlerSchedule(w, wake) => HandlerScheduleStep(st, w, wake)
    case Release(w) => ReleaseStep(st, w)
    case ThreadKill(w) => ThreadKillStep(st, w)
    case Exit(w) => ExitStep(st, w)
    case AddThreads(n) => AddThreadsStep(st, n)
    case KillThreads(k) => KillThreadsStep(st, k)
    case KillAdd(e) => KillAddStep(st, e)
    case KillSchedule(wake) => KillScheduleStep(st, wake)
    case KillAwait => KillAwaitStep(st)
    case KillResume => KillResumeStep(st)
    case KillReturn => KillReturnStep(st)
  }
}
