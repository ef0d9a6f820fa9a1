/** The workers of a pool (deps/common/seda/thread_pool.cpp, `run_thread`) and how many of them
    are in a given situation. */
module SedaWorkers {
  import opened SedaStage

  type StageId = nat

  /** `killer_`, the stage whose events end a worker. */
  const KILLER: StageId := 0

  /** Where a pool worker is in `run_thread`. */
  datatype Worker =
    | AtLoop                                                      // about to lock run_mutex_
    | Sleeping                                                    // in COND_WAIT on run_cond_
    | Woken                                                       // signalled, not yet running
    | Holding(stage: StageId)                                     // token popped, event not yet
    | Handling(stage: StageId, event: Event)                      // in the handler
    | Scheduling(stage: StageId, event: Event, target: StageId)   // handler inside add_event
    | Leaving                                                     // kill handler, after thread_kill
    | Exited

  /** The situations that matter to the protocol. */
  datatype Class =
    | Asleep                // waits for a signal on run_cond_
    | Idling                // counted in n_idles_
    | Enrolled              // counted in nthreads_
    | Free                  // alive and not on its way to run a kill event
    | Ready                 // free and awake
    | Dooming               // has a kill event and has not called thread_kill yet
    | Gone
    | HoldingFor(s: StageId)  // between popping a token of s and remove_event
    | PostingTo(s: StageId)   // its handler is between add_event's unlock on s and schedule
    | BusyFor(s: StageId)     // between remove_event on s and release_event
    | WorkingOn(s: StageId, e: Event)  // its handler has been given this event of s

  predicate InClass(w: Worker, c: Class) {
    match c
    case Asleep => w.Sleeping?
    case Idling => w.Sleeping? || w.Woken?
    case Enrolled => !w.Leaving? && !w.Exited?
    case Free => IsFree(w)
    case Ready => IsFree(w) && !w.Sleeping?
    case Dooming => w.Handling? && w.stage == KILLER
    case Gone => w.Exited?
    case HoldingFor(s) => w == Holding(s)
    case PostingTo(s) => w.Scheduling? && w.target == s
    case BusyFor(s) => ((w.Handling? || w.Scheduling?) && w.stage == s) || (w.Leaving? && s == KILLER)
    case WorkingOn(s, e) => (w.Handling? || w.Scheduling?) && w.stage == s && w.event == e
  }

  predicate IsFree(w: Worker) {
    !w.Leaving? && !w.Exited? && ((w.Holding? || w.Handling?) ==> w.stage != KILLER)
  }

  function One(w: Worker, c: Class): nat {
    if InClass(w, c) then 1 else 0
  }

  /** The number of workers in class `c`. */
  function Count(ws: seq<Worker>, c: Class): nat {
    CountTo(ws, |ws|, c)
  }

  /** The number of the first `n` workers in class `c`. */
  function CountTo(ws: seq<Worker>, n: nat, c: Class): nat
    requires n <= |ws|
  {
    if n == 0 then 0 else CountTo(ws, n - 1, c) + One(ws[n - 1], c)
  }

  lemma {:induction false} CountToUpdate(ws: seq<Worker>, n: nat, i: nat, x: Worker, c: Class)
    requires i < |ws| && n <= |ws|
    ensures CountTo(ws[i := x], n, c)
            == CountTo(ws, n, c) + if i < n then One(x, c) - One(ws[i], c) else 0
  {
    if n > 0 {
      CountToUpdate(ws, n - 1, i, x, c);
    }
  }

  /** Moving one worker changes every count by what that worker was and what it becomes. */
  lemma CountUpdate(ws: seq<Worker>, i: nat, x: Worker)
    requires i < |ws|
    ensures forall c: Class :: Count(ws[i := x], c) == Count(ws, c) - One(ws[i], c) + One(x, c)
  {
    forall c
      ensures Count(ws[i := x], c) == Count(ws, c) - One(ws[i], c) + One(x, c)
    {
      CountToUpdate(ws, |ws|, i, x, c);
    }
  }

  lemma {:induction false} CountToMember(ws: seq<Worker>, n: nat, i: nat, c: Class)
    requires i < n <= |ws|
    ensures CountTo(ws, n, c) >= One(ws[i], c)
  {
    if i < n - 1 {
      CountToMember(ws, n - 1, i, c);
    }
  }

  lemma CountMember(ws: seq<Worker>, i: nat, c: Class)
    requires i < |ws|
    ensures Count(ws, c) >= One(ws[i], c)
  {
    CountToMember(ws, |ws|, i, c);
  }

  lemma {:induction false} CountToWitness(ws: seq<Worker>, n: nat, c: Class) returns (i: nat)
    requires n <= |ws| && CountTo(ws, n, c) > 0
    ensures i < |ws| && InClass(ws[i], c)
  {
    if InClass(ws[n - 1], c) {
      i := n - 1;
    } else {
      i := CountToWitness(ws, n - 1, c);
    }
  }

  /** A positive count has a witness. */
  lemma CountWitness(ws: seq<Worker>, c: Class) returns (i: nat)
    requires Count(ws, c) > 0
    ensures i < |ws| && InClass(ws[i], c)
  {
    i := CountToWitness(ws, |ws|, c);
  }

  lemma {:induction false} CountToSplits(ws: seq<Worker>, n: nat)
    requires n <= |ws|
    ensures CountTo(ws, n, Free) == CountTo(ws, n, Ready) + CountTo(ws, n, Asleep)
    ensures CountTo(ws, n, Asleep) <= CountTo(ws, n, Idling)
    ensures CountTo(ws, n, Dooming) <= CountTo(ws, n, BusyFor(KILLER))
    ensures CountTo(ws, n, Enrolled)
            == CountTo(ws, n, Free) + CountTo(ws, n, HoldingFor(KILLER)) + CountTo(ws, n, Dooming)
  {
    if n > 0 {
      CountToSplits(ws, n - 1);
    }
  }

  /** A free worker is ready or asleep, a sleeper is idling, and an enrolled worker is free or
      about to run a kill event. */
  lemma CountSplits(ws: seq<Worker>)
    ensures Count(ws, Free) == Count(ws, Ready) + Count(ws, Asleep)
    ensures Count(ws, Asleep) <= Count(ws, Idling)
    ensures Count(ws, Dooming) <= Count(ws, BusyFor(KILLER))
    ensures Count(ws, Enrolled) == Count(ws, Free) + Count(ws, HoldingFor(KILLER)) + Count(ws, Dooming)
  {
    CountToSplits(ws, |ws|);
  }

  /** `n` new threads. */
  function Spawned(n: nat): seq<Worker> {
    seq(n, _ => AtLoop)
  }

  lemma {:induction false} CountToSpawn(ws: seq<Worker>, n: nat, k: nat, c: Class)
    requires k <= |ws| + n
    ensures CountTo(ws + Spawned(n), k, c)
            == if k <= |ws| then CountTo(ws, k, c)
               else Count(ws, c) + if c.Enrolled? || c.Free? || c.Ready? then k - |ws| else 0
  {
    if k > 0 {
      CountToSpawn(ws, n, k - 1, c);
    }
  }

  /** Workers that start at the top of the loop are enrolled, free and ready, nothing else. */
  lemma CountSpawn(ws: seq<Worker>, n: nat)
    ensures forall c: Class :: Count(ws + Spawned(n), c)
                        == Count(ws, c) + if c.Enrolled? || c.Free? || c.Ready? then n else 0
  {
    forall c
      ensures Count(ws + Spawned(n), c)
              == Count(ws, c) + if c.Enrolled? || c.Free? || c.Ready? then n else 0
    {
      CountToSpawn(ws, n, |ws| + n, c);
    }
  }
}
