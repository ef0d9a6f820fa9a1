/** What every step of the pool protocol keeps. */
module SedaInvariant {
  import opened Common
  import opened SedaStage
  import opened SedaWorkers
  import opened SedaPool

  /** Workers that have promised to schedule `s` or hold a token of `s`. */
  function Carried(ws: seq<Worker>, s: StageId): int {
    Count(ws, PostingTo(s)) + Count(ws, HoldingFor(s))
  }

  /** Schedules of `s` that threads outside the pool have promised and not yet made. */
  function Promised(callers: multiset<StageId>, c: Control, k: Killer, s: StageId): int {
    callers[s] + (if c.Connecting? then c.backlog else 0) + (if k.Posting? && s == KILLER then 1 else 0)
  }

  /** Scheduled events of `s` that nobody has removed yet: promised schedules, tokens in the run
      queue, and workers that hold a token. */
  function InFlight(st: System, s: StageId): int
    requires WellFormed(st) && s < |st.stages|
  {
    Promised(st.callers, st.ctl[s], st.killer, s) + multiset(st.runQueue)[s] + Carried(st.workers, s)
  }

  /** The accounts of one stage that has `flight` events scheduled and not removed and `busy`
      events removed and not released. */
  ghost predicate StageOk(r: StageState, c: Control, flight: int, busy: int, killer: bool) {
    && r.ref == flight + busy
    && 0 <= flight <= |r.queue| && r.late == r.queue[flight..] && 0 <= busy
    && r.added == r.removed + r.queue
    && |r.removed| == r.released + busy
    && (r.connected || killer ==> r.late == [])
    && (r.connected || r.ref > 0 ==> r.hasPool)
    && match c
       case Idle => !r.connected ==> r.ref == 0 && !r.hasPool
       case Connecting(_) => r.connected
       case Waiting => !r.connected && r.hasPool && r.ref > 0
       case Signalled => !r.connected && r.hasPool
  }

  // ----- What the operations of one stage do to its accounts.

  lemma OkAttach(r: StageState, c: Control, busy: int, killer: bool)
    requires StageOk(r, c, 0, busy, killer) && c.Idle? && !r.connected
    ensures StageOk(Attach(r), Connecting(|r.queue|), |r.queue|, busy, killer)
  {
    assert r.queue[|r.queue|..] == [];
  }

  lemma OkPush(r: StageState, c: Control, flight: int, busy: int, killer: bool, e: Event)
    requires StageOk(r, c, flight, busy, killer) && (killer ==> r.connected)
    ensures StageOk(Push(r, e), c, if r.connected then flight + 1 else flight, busy, killer)
    ensures Push(r, e).connected == r.connected
  {
    assert r.removed + (r.queue + [e]) == (r.removed + r.queue) + [e];
    assert (r.queue + [e])[flight..] == r.queue[flight..] + [e];
    if r.connected {
      assert (r.queue + [e])[flight + 1..] == [];
    }
  }

  /** A scheduled event is there to be removed, and it is the oldest one. */
  lemma OkPop(r: StageState, c: Control, flight: int, busy: int, killer: bool)
    requires StageOk(r, c, flight, busy, killer) && flight > 0
    ensures r.queue != [] && StageOk(Pop(r), c, flight - 1, busy + 1, killer)
  {
    assert r.removed + r.queue == (r.removed + [r.queue[0]]) + r.queue[1..];
    assert r.queue[1..][flight - 1..] == r.queue[flight..];
  }

  lemma OkUnref(r: StageState, c: Control, flight: int, busy: int, killer: bool)
    requires StageOk(r, c, flight, busy, killer) && busy > 0
    ensures StageOk(Unref(r), if !r.connected && r.ref == 1 && c.Waiting? then Signalled else c,
                    flight, busy - 1, killer)
  {
  }

  ghost predicate StageInv(st: System, s: StageId)
    requires WellFormed(st) && s < |st.stages|
  {
    StageOk(st.stages[s], st.ctl[s], InFlight(st, s), Count(st.workers, BusyFor(s)), s == KILLER)
  }

  ghost predicate StagesInv(st: System)
    requires WellFormed(st)
  {
    forall s :: 0 <= s < |st.stages| ==> StageInv(st, s)
  }

  ghost predicate PoolInv(st: System) {
    && st.nthreads == Count(st.workers, Enrolled)
    && st.idles == Count(st.workers, Idling)
    && Count(st.workers, Ready) >= Min(|st.runQueue|, Count(st.workers, Free))
  }

  /** Every stage named anywhere exists, and nobody but `kill_threads` adds to the killer. */
  ghost predicate NamesInv(st: System) {
    && (forall s <- st.callers :: s != KILLER && s < |st.stages|)
    && (forall i :: 0 <= i < |st.runQueue| ==> st.runQueue[i] < |st.stages|)
    && AllName(st.workers, |st.stages|)
  }

  predicate AllName(ws: seq<Worker>, n: nat) {
    forall i :: 0 <= i < |ws| ==> NamesStage(ws[i], n)
  }

  predicate NamesStage(w: Worker, n: nat) {
    && (w.Holding? || w.Handling? || w.Scheduling? ==> w.stage < n)
    && (w.Scheduling? ==> w.target != KILLER && w.target < n && w.stage != KILLER)
  }

  /** Kill events posted whose worker has not called `thread_kill` yet. */
  function Unkilled(st: System): int
    requires WellFormed(st)
  {
    InFlight(st, KILLER) + Count(st.workers, Dooming)
  }

  /** Workers that the current transaction has brought past `thread_kill`. */
  function Killed(st: System): int
    requires WellFormed(st)
  {
    Count(st.workers, BusyFor(KILLER)) - Count(st.workers, Dooming)
    + Count(st.workers, Gone) - st.request.gone
  }

  ghost predicate KillInv(st: System)
    requires WellFormed(st)
  {
    KillInvAt(st, Unkilled(st))
  }

  /** The kill transaction, with `u` kills posted and not carried out. */
  ghost predicate KillInvAt(st: System, u: int)
    requires WellFormed(st)
  {
    var r, c := st.stages[KILLER], st.ctl[KILLER];
    && (!st.killer.NoKill? ==> st.killer.target == Min(st.request.asked, st.request.before)
                               && Killed(st) == st.killer.target - TargetLeft(st))
    && u <= st.nthreads
    && match st.killer
       case NoKill => c.Idle? && !r.connected && st.toKill == 0
       case Generating(t, i) =>
         KillerOpen(r, c) && u == i && i <= t <= st.nthreads && st.toKill == 0
       case Posting(t, i) =>
         KillerOpen(r, c) && u == i && i <= t <= st.nthreads && st.toKill == 0
       case Awaiting(t) =>
         KillerOpen(r, c) && c.Idle? && u == st.toKill <= t && (u > 0 || t == 0)
       case Notified(t) => KillerOpen(r, c) && c.Idle? && u == 0 && st.toKill == 0
       case Closing(t) => !r.connected && u == 0 && st.toKill == 0 && !c.Connecting?
  }

  ghost predicate KillerOpen(r: StageState, c: Control) {
    r.connected && (c.Idle? || c == Connecting(0))
  }

  /** How many of the target's kills are still to come. */
  function TargetLeft(st: System): int
    requires WellFormed(st) && !st.killer.NoKill?
  {
    if st.killer.Generating? || st.killer.Posting? then st.killer.target else st.toKill
  }

  ghost predicate Inv(st: System) {
    && WellFormed(st)
    && StagesInv(st) && PoolInv(st) && NamesInv(st) && KillInv(st)
  }

  /** The invariant, but for one schedule of stage `s` that is being made. */
  ghost predicate DebtInv(st: System, s: StageId) {
    && WellFormed(st) && s < |st.stages|
    && (forall x :: 0 <= x < |st.stages| ==> StageDebt(st, s, x))
    && PoolInv(st) && NamesInv(st)
    && KillInvAt(st, Unkilled(st) + if s == KILLER then 1 else 0)
  }

  ghost predicate StageDebt(st: System, s: StageId, x: StageId)
    requires WellFormed(st) && x < |st.stages|
  {
    StageOk(st.stages[x], st.ctl[x], InFlight(st, x) + if x == s then 1 else 0,
            Count(st.workers, BusyFor(x)), x == KILLER)
  }

  /** `n` workers, `m` stages besides the killer, nothing connected. */
  function Initial(m: nat, n: nat): System {
    System(seq(m + 1, _ => FRESH), seq(m + 1, _ => Idle), multiset{}, [], 0, Spawned(n),
           n, 0, NoKill, Request(0, 0, 0))
  }

  lemma InitialCounts(n: nat, c: Class)
    ensures Count(Spawned(n), c) == if c.Enrolled? || c.Free? || c.Ready? then n else 0
  {
    CountSpawn([], n);
    assert [] + Spawned(n) == Spawned(n);
    assert Count([], c) == 0;
  }

  lemma InitialStages(m: nat, n: nat)
    ensures StagesInv(Initial(m, n))
  {
    hide Count, Spawned;
    var st := Initial(m, n);
    forall s | 0 <= s < |st.stages| ensures StageInv(st, s) {
      InitialCounts(n, PostingTo(s));
      InitialCounts(n, HoldingFor(s));
      InitialCounts(n, BusyFor(s));
      assert InFlight(st, s) == 0;
    }
  }

  lemma InitialInv(m: nat, n: nat)
    ensures Inv(Initial(m, n))
  {
    InitialStages(m, n);
    hide StagesInv, Count;
    var st := Initial(m, n);
    forall c: Class ensures Count(Spawned(n), c) == if c.Enrolled? || c.Free? || c.Ready? then n else 0 {
      InitialCounts(n, c);
    }
    assert PoolInv(st);
    assert NamesInv(st) by {
      SpawnedName(n, |st.stages|);
    }
    assert KillInv(st);
  }

  lemma SpawnedName(n: nat, stages: nat)
    ensures AllName(Spawned(n), stages)
  {
  }
}
