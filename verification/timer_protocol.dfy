/** deps/common/seda/timer_stage.cpp: callers, the timer thread and the condition variable. */
module TimerProtocol {
  import opened TimerQueues

  /** The timer thread: it owns or waits for the mutex, sleeps on `timer_condv_` until a time or
      for good, or has left `check_timer`. */
  datatype Thread = Awake | Asleep(until: Time) | AsleepForGood | Left

  /** A timer that became done in a check at time `at`. */
  datatype Firing = Firing(entry: Entry, at: Time)

  datatype System = System(
    queue: seq<Entry>,
    numEvents: int,
    shutdown: bool,
    thread: Thread,
    nonce: nat,                 // `nonce_cntr`
    arriving: set<Entry>,       // tokens made by `register_timer`, the mutex not yet taken
    triggers: nat,              // callers that still have to signal
    clock: Time,                // CLOCK_MONOTONIC at the last check
    inserted: seq<Entry>,       // history: every registered timer
    fired: seq<Firing>,         // history
    cancelled: seq<Entry>)      // history

  datatype Outcome = Next(sys: System) | Blocked | TokenNotUnique

  /** One critical region each, and what happens outside of them. */
  datatype Step =
    | OtherToken                      // a default-constructed TimerToken
    | MakeToken(time: Time, cb: Event)
    | Register(entry: Entry)
    | Trigger
    | Cancel(token: Token)
    | WakeUp                          // the deadline passes, or a spurious wake-up
    | Check(now: Time)
    | Shutdown

  function Signalled(t: Thread): Thread {
    if t.Asleep? || t.AsleepForGood? then Awake else t
  }

  function RegisterStep(st: System, e: Entry): Outcome {
    if e !in st.arriving then Blocked
    else if Has(st.queue, e.token) then TokenNotUnique
    else
      var q := Insert(st.queue, e);
      Next(st.(arriving := st.arriving - {e}, queue := q, numEvents := st.numEvents + 1,
               triggers := st.triggers + if q[0] == e then 1 else 0, inserted := st.inserted + [e]))
  }

  /** The timers with this token, of which there is at most one. */
  function Found(q: seq<Entry>, t: Token): (f: seq<Entry>)
    ensures |f| <= 1 && |Erase(q, t)| == |q| - |f|
    ensures forall e <- f :: e.token == t
  {
    if q == [] then [] else if q[0].token == t then [q[0]] else Found(q[1..], t)
  }

  function CancelStep(st: System, t: Token): System {
    var found := Found(st.queue, t);
    st.(queue := Erase(st.queue, t), numEvents := st.numEvents - |found|, cancelled := st.cancelled + found)
  }

  function Firings(q: seq<Entry>, now: Time): (f: seq<Firing>)
    ensures |f| == |q|
  {
    seq(|q|, i requires 0 <= i < |q| => Firing(q[i], now))
  }

  function CheckStep(st: System, now: Time): Outcome {
    if !st.thread.Awake? || Before(now, st.clock) then Blocked
    else
      var due, later := Due(st.queue, now), Later(st.queue, now);
      Next(st.(queue := later, numEvents := st.numEvents - |due|, clock := now,
               fired := st.fired + Firings(due, now),
               thread := if st.shutdown then Left
                         else if later == [] then AsleepForGood
                         else Asleep(later[0].token.time)))
  }

  function Apply(st: System, step: Step): Outcome {
    match step
    case OtherToken => Next(st.(nonce := st.nonce + 1))
    case MakeToken(time, cb) =>
      Next(st.(arriving := st.arriving + {Entry(Token(time, st.nonce), cb)}, nonce := st.nonce + 1))
    case Register(e) => RegisterStep(st, e)
    case Trigger =>
      if st.triggers == 0 then Blocked
      else Next(st.(triggers := st.triggers - 1, thread := Signalled(st.thread)))
    case Cancel(t) => Next(CancelStep(st, t))
    case WakeUp =>
      if st.thread.Asleep? || st.thread.AsleepForGood? then Next(st.(thread := Awake)) else Blocked
    case Check(now) => CheckStep(st, now)
    case Shutdown => Next(st.(shutdown := true, thread := Signalled(st.thread)))
  }

  function Run(st: System, steps: seq<Step>): Outcome
    decreases |steps|
  {
    if steps == [] then Next(st)
    else
      match Apply(st, steps[0])
      case Next(t) => Run(t, steps[1..])
      case o => o
  }

  function Initial(clock: Time): System {
    System([], 0, false, Awake, 0, {}, 0, clock, [], [], [])
  }

  // ----- The invariant

  function Entries(fired: seq<Firing>): (q: seq<Entry>)
    ensures |q| == |fired|
  {
    seq(|fired|, i requires 0 <= i < |fired| => fired[i].entry)
  }

  /** No two timers share a nonce, and none has one that is still to come. */
  ghost predicate NonceInv(arriving: set<Entry>, inserted: seq<Entry>, nonce: nat) {
    && (forall e <- arriving :: e.token.nonce < nonce)
    && (forall e <- inserted :: e.token.nonce < nonce)
    && (forall e <- arriving, f <- inserted :: e.token.nonce != f.token.nonce)
    && (forall e <- arriving, f <- arriving :: e.token.nonce == f.token.nonce ==> e == f)
    && (forall i, j :: 0 <= i < j < |inserted| ==> inserted[i].token.nonce != inserted[j].token.nonce)
  }

  /** Every registered timer is pending, fired or cancelled, once. */
  ghost predicate AccountInv(st: System) {
    multiset(st.inserted) == multiset(st.queue) + multiset(Entries(st.fired)) + multiset(st.cancelled)
  }

  ghost predicate OnTime(fired: seq<Firing>, clock: Time) {
    forall f <- fired :: !Before(f.at, f.entry.token.time) && !Before(clock, f.at)
  }

  /** A thread that sleeps wakes up for the earliest timer, or somebody is about to signal it. */
  ghost predicate SleepInv(st: System) {
    match st.thread
    case Awake => true
    case Asleep(until) =>
      !st.shutdown && (st.triggers > 0 || forall e <- st.queue :: !Before(e.token.time, until))
    case AsleepForGood => !st.shutdown && (st.triggers > 0 || st.queue == [])
    case Left => st.shutdown
  }

  ghost predicate Inv(st: System) {
    && Sorted(st.queue) && st.numEvents == |st.queue|
    && NonceInv(st.arriving, st.inserted, st.nonce)
    && AccountInv(st) && OnTime(st.fired, st.clock) && SleepInv(st)
  }

  lemma PendingIsInserted(st: System, e: Entry)
    requires AccountInv(st) && e in st.queue
    ensures e in st.inserted
  {
    assert e in multiset(st.queue);
    assert e in multiset(st.inserted);
  }

  /** A new token is in nobody's queue. */
  lemma NewTokenIsUnique(st: System, e: Entry)
    requires Inv(st) && e in st.arriving
    ensures !Has(st.queue, e.token)
  {
    if Has(st.queue, e.token) {
      var i :| 0 <= i < |st.queue| && st.queue[i].token == e.token;
      PendingIsInserted(st, st.queue[i]);
      assert false;
    }
  }

  lemma NonceRegister(arriving: set<Entry>, inserted: seq<Entry>, nonce: nat, e: Entry)
    requires NonceInv(arriving, inserted, nonce) && e in arriving
    ensures NonceInv(arriving - {e}, inserted + [e], nonce)
  {
    forall i | 0 <= i < |inserted| ensures inserted[i].token.nonce != e.token.nonce {
      assert inserted[i] in inserted;
    }
  }

  lemma NonceMake(arriving: set<Entry>, inserted: seq<Entry>, nonce: nat, e: Entry)
    requires NonceInv(arriving, inserted, nonce) && e.token.nonce == nonce
    ensures NonceInv(arriving + {e}, inserted, nonce + 1)
  {
  }

  lemma KeepsRegister(st: System, e: Entry)
    requires Inv(st)
    ensures RegisterStep(st, e) != TokenNotUnique
    ensures RegisterStep(st, e).Next? ==> Inv(RegisterStep(st, e).sys)
  {
    if e in st.arriving {
      NewTokenIsUnique(st, e);
      InsertSorted(st.queue, e);
      InsertMembers(st.queue, e);
      NonceRegister(st.arriving, st.inserted, st.nonce, e);
      SleepRegister(st, e);
      hide Sorted, NonceInv, OnTime, SleepInv, Insert, Less;
      var t := RegisterStep(st, e).sys;
      assert |t.queue| == |multiset(t.queue)|;
      assert multiset(st.inserted + [e]) == multiset(st.inserted) + multiset{e};
    }
  }

  /** A timer that is not put at the head of the queue does not come before the head. */
  lemma SleepRegister(st: System, e: Entry)
    requires SleepInv(st) && Sorted(st.queue)
    ensures var q := Insert(st.queue, e);
      SleepInv(st.(arriving := st.arriving - {e}, queue := q, numEvents := st.numEvents + 1,
                   triggers := st.triggers + if q[0] == e then 1 else 0, inserted := st.inserted + [e]))
  {
    var q := Insert(st.queue, e);
    InsertMembers(st.queue, e);
    if st.thread.Asleep? && q[0] != e {
      assert st.queue != [] && !Less(e.token, st.queue[0].token);
      forall f <- q ensures f == e || f in st.queue {
        assert f in multiset(q);
      }
      assert st.queue[0] in st.queue;
    }
  }

  lemma HasCons(q: seq<Entry>, t: Token)
    requires q != []
    ensures Has(q, t) <==> q[0].token == t || Has(q[1..], t)
  {
    assert forall i :: 0 < i < |q| ==> q[i] == q[1..][i - 1];
    assert forall i :: 0 <= i < |q| - 1 ==> q[1..][i] == q[i + 1];
  }

  lemma {:induction false} FoundExact(q: seq<Entry>, t: Token)
    ensures multiset(q) == multiset(Erase(q, t)) + multiset(Found(q, t))
    ensures Found(q, t) != [] <==> Has(q, t)
  {
    if q != [] {
      HasCons(q, t);
      hide Has;
      assert q == [q[0]] + q[1..];
      if q[0].token != t {
        FoundExact(q[1..], t);
      }
    } else {
      assert !Has(q, t);
    }
  }

  lemma EraseSorted(q: seq<Entry>, t: Token)
    requires Sorted(q)
    ensures Sorted(Erase(q, t))
  {
    if Has(q, t) {
      var i :| 0 <= i < |q| && q[i].token == t;
      EraseExact(q, i);
    } else {
      EraseAbsent(q, t);
    }
  }

  lemma ErasedIsPart(q: seq<Entry>, t: Token)
    ensures forall e <- Erase(q, t) :: e in q
  {
    FoundExact(q, t);
    forall e <- Erase(q, t) ensures e in q {
      assert e in multiset(Erase(q, t));
      assert e in multiset(q);
    }
  }

  lemma SleepCancel(st: System, t: Token)
    requires SleepInv(st)
    ensures SleepInv(CancelStep(st, t))
  {
    ErasedIsPart(st.queue, t);
    assert st.queue == [] ==> Erase(st.queue, t) == [];
    hide Erase, Found, Before;
  }

  lemma AccountMoves(inserted: multiset<Entry>, from: seq<Entry>, to: seq<Entry>, moved: seq<Entry>,
                     others: multiset<Entry>, gone: seq<Entry>)
    requires inserted == multiset(from) + others + multiset(gone)
    requires multiset(from) == multiset(to) + multiset(moved)
    ensures inserted == multiset(to) + others + multiset(gone + moved)
  {
    assert multiset(gone + moved) == multiset(gone) + multiset(moved);
  }

  lemma KeepsCancel(st: System, t: Token)
    requires Inv(st)
    ensures Inv(CancelStep(st, t))
  {
    EraseSorted(st.queue, t);
    FoundExact(st.queue, t);
    SleepCancel(st, t);
    hide Sorted, NonceInv, OnTime, Erase, Found, Has, Before, Entries, SleepInv;
    AccountMoves(multiset(st.inserted), st.queue, Erase(st.queue, t), Found(st.queue, t),
      multiset(Entries(st.fired)), st.cancelled);
  }

  lemma EntriesConcat(f: seq<Firing>, q: seq<Entry>, now: Time)
    ensures Entries(f + Firings(q, now)) == Entries(f) + q
  {
  }

  lemma CheckOnTime(fired: seq<Firing>, clock: Time, q: seq<Entry>, now: Time)
    requires OnTime(fired, clock) && !Before(now, clock) && Sorted(q)
    ensures OnTime(fired + Firings(Due(q, now), now), now)
  {
    DueExact(q, now);
    var due := Due(q, now);
    forall f <- fired + Firings(due, now) ensures !Before(f.at, f.entry.token.time) && !Before(now, f.at) {
      if f !in fired {
        var i :| 0 <= i < |due| && Firings(due, now)[i] == f;
        assert due[i] == q[i];
      }
    }
  }

  lemma SleepCheck(st: System, now: Time)
    requires Sorted(st.queue) && CheckStep(st, now).Next?
    ensures SleepInv(CheckStep(st, now).sys)
  {
    DueExact(st.queue, now);
    HeadIsFirst(Later(st.queue, now));
    hide Due, Later, Sorted, Before, Firings;
  }

  lemma KeepsCheck(st: System, now: Time)
    requires Inv(st)
    ensures CheckStep(st, now) != TokenNotUnique
    ensures CheckStep(st, now).Next? ==> Inv(CheckStep(st, now).sys)
  {
    if CheckStep(st, now).Next? {
      DueExact(st.queue, now);
      CheckOnTime(st.fired, st.clock, st.queue, now);
      SleepCheck(st, now);
      var due, later := Due(st.queue, now), Later(st.queue, now);
      EntriesConcat(st.fired, due, now);
      hide NonceInv, OnTime, SleepInv, Sorted, Due, Later, Entries, Firings;
      assert st.queue == due + later;
      AccountMoves(multiset(st.inserted), st.queue, later, due, multiset(st.cancelled), Entries(st.fired));
    }
  }

  lemma HeadIsFirst(q: seq<Entry>)
    requires Sorted(q)
    ensures q != [] ==> forall e <- q :: !Before(e.token.time, q[0].token.time)
  {
    forall e | q != [] && e in q ensures !Before(e.token.time, q[0].token.time) {
      var i :| 0 <= i < |q| && q[i] == e;
      assert i == 0 || Less(q[0].token, q[i].token);
    }
  }

  /** Every step keeps the invariant, and the assertion of `register_timer` never fails. */
  lemma StepKeepsInv(st: System, step: Step)
    requires Inv(st)
    ensures Apply(st, step) != TokenNotUnique
    ensures Apply(st, step).Next? ==> Inv(Apply(st, step).sys)
  {
    hide Sorted, OnTime, RegisterStep, CancelStep, CheckStep;
    match step {
      case Register(e) => KeepsRegister(st, e);
      case Cancel(t) => KeepsCancel(st, t);
      case Check(now) => KeepsCheck(st, now);
      case MakeToken(time, cb) => NonceMake(st.arriving, st.inserted, st.nonce, Entry(Token(time, st.nonce), cb));
      case _ =>
    }
  }

  lemma {:induction false} RunKeepsInv(st: System, steps: seq<Step>)
    requires Inv(st)
    ensures Run(st, steps) != TokenNotUnique
    ensures Run(st, steps).Next? ==> Inv(Run(st, steps).sys)
    decreases |steps|
  {
    if steps != [] {
      StepKeepsInv(st, steps[0]);
      if Apply(st, steps[0]).Next? {
        RunKeepsInv(Apply(st, steps[0]).sys, steps[1..]);
      }
    }
  }

  ghost predicate Reachable(st: System) {
    exists clock, steps :: Run(Initial(clock), steps) == Next(st)
  }

  lemma ReachableInv(st: System)
    requires Reachable(st)
    ensures Inv(st)
  {
    var clock, steps :| Run(Initial(clock), steps) == Next(st);
    assert Inv(Initial(clock));
    RunKeepsInv(Initial(clock), steps);
  }

  // ----- The protocol's promises, in every reachable state

  /** Every registered timer is pending, fired or cancelled, and only one of these, once; and
      `num_events_` counts the pending ones. */
  lemma ExactlyOneFate(st: System, e: Entry)
    requires Reachable(st)
    ensures multiset(st.queue)[e] + multiset(Entries(st.fired))[e] + multiset(st.cancelled)[e]
            == if e in st.inserted then 1 else 0
    ensures st.numEvents == |st.queue|
  {
    ReachableInv(st);
    assert multiset(st.inserted)[e] == if e in st.inserted then 1 else 0 by {
      NoncesDistinct(st.inserted, e);
    }
  }

  lemma {:induction false} NoncesDistinct(s: seq<Entry>, e: Entry)
    requires forall i, j :: 0 <= i < j < |s| ==> s[i].token.nonce != s[j].token.nonce
    ensures multiset(s)[e] == if e in s then 1 else 0
  {
    if s != [] {
      assert s == [s[0]] + s[1..];
      NoncesDistinct(s[1..], e);
      assert s[0] !in s[1..];
    }
  }

  /** No timer fires before its time. */
  lemma NoneFiresEarly(st: System, i: nat)
    requires Reachable(st) && i < |st.fired|
    ensures !Before(st.fired[i].at, st.fired[i].entry.token.time)
  {
    ReachableInv(st);
    assert st.fired[i] in st.fired;
  }

  /** A check fires, in the order of time and nonce, exactly the pending timers whose time has come. */
  lemma CheckFiresAllDue(st: System, now: Time)
    requires Reachable(st) && CheckStep(st, now).Next?
    ensures
      var t, due := CheckStep(st, now).sys, Due(st.queue, now);
      && t.fired == st.fired + Firings(due, now) && Sorted(due)
      && (forall e <- st.queue :: e in due <==> !Before(now, e.token.time))
      && (forall e <- t.queue :: Before(now, e.token.time)) && st.queue == due + t.queue
  {
    ReachableInv(st);
    DueExact(st.queue, now);
    DueMembers(st.queue, now);
  }

  lemma DueMembers(q: seq<Entry>, now: Time)
    requires Sorted(q)
    ensures forall e <- q :: e in Due(q, now) <==> !Before(now, e.token.time)
    ensures forall e <- Later(q, now) :: Before(now, e.token.time)
  {
    DueExact(q, now);
    DueAreDue(q, now);
    LaterAreNot(q, now);
    hide Sorted, Before;
    forall e <- q ensures e in Due(q, now) <==> !Before(now, e.token.time) {
      var i :| 0 <= i < |q| && q[i] == e;
      assert i < |Due(q, now)| ==> Due(q, now)[i] == e;
    }
  }

  lemma DueAreDue(q: seq<Entry>, now: Time)
    requires Sorted(q)
    ensures forall e <- Due(q, now) :: !Before(now, e.token.time)
  {
    DueExact(q, now);
    var due := Due(q, now);
    hide Due, Sorted, Before;
    forall e <- due ensures !Before(now, e.token.time) {
      var j :| 0 <= j < |due| && due[j] == e;
      assert q[j] == e;
    }
  }

  lemma LaterAreNot(q: seq<Entry>, now: Time)
    requires Sorted(q)
    ensures forall e <- Later(q, now) :: Before(now, e.token.time)
  {
    DueExact(q, now);
    var n, later := |Due(q, now)|, Later(q, now);
    assert later == q[n..];
    hide Due, Later, Sorted, Before;
    forall e <- later ensures Before(now, e.token.time) {
      var i :| 0 <= i < |later| && later[i] == e;
      assert q[n + i] == e;
    }
  }

  /** For a pending timer the thread is awake, or a signal is on its way, or the wait ends at the
      time of the timer at the latest; unless the thread has been shut down. */
  lemma NoOversleeping(st: System, e: Entry)
    requires Reachable(st) && e in st.queue
    ensures st.thread.Awake? || st.triggers > 0 || st.shutdown
            || (st.thread.Asleep? && !Before(e.token.time, st.thread.until))
  {
    ReachableInv(st);
  }

  /** After the shutdown signal the thread does not sleep, and its next check is the last. */
  lemma ShutdownIsSeen(st: System, now: Time)
    requires Reachable(st) && st.shutdown
    ensures st.thread.Awake? || st.thread.Left?
    ensures CheckStep(st, now).Next? ==> CheckStep(st, now).sys.thread.Left?
  {
    ReachableInv(st);
  }

  /** `cancel_timer` reports success exactly for a pending timer, and then it is the one that is
      cancelled. */
  lemma CancelIsExact(st: System, e: Entry)
    requires Reachable(st) && e in st.inserted
    ensures var t := CancelStep(st, e.token);
      if e in st.queue then t.cancelled == st.cancelled + [e] && e !in t.queue
      else t == st
  {
    ExactlyOneFate(st, e);
    TokenNamesTimer(st, e);
    hide Reachable;
    if e in st.queue {
      var i :| 0 <= i < |st.queue| && st.queue[i] == e;
      FoundIsThere(st.queue, e.token);
      assert Found(st.queue, e.token) == [e];
      FoundExact(st.queue, e.token);
      hide Found, Erase, Has;
      assert multiset(Erase(st.queue, e.token))[e] == 0;
    } else {
      assert !Has(st.queue, e.token);
      EraseAbsent(st.queue, e.token);
      FoundExact(st.queue, e.token);
      assert st.cancelled + [] == st.cancelled;
    }
  }

  lemma TokenNamesTimer(st: System, e: Entry)
    requires Reachable(st) && e in st.inserted
    ensures forall f <- st.queue :: f.token == e.token ==> f == e
  {
    ReachableInv(st);
    forall f <- st.queue | f.token == e.token ensures f == e {
      PendingIsInserted(st, f);
    }
  }

  lemma FoundIsThere(q: seq<Entry>, t: Token)
    requires Has(q, t)
    ensures var f := Found(q, t); f != [] && f == [f[0]] && f[0] in q && f[0].token == t
  {
    FoundExact(q, t);
    hide Has, Found;
    assert Found(q, t)[0] in multiset(q);
  }

  /** What is cancelled or fired stays so, and is never pending again. */
  lemma {:induction false} FateIsFinal(st: System, steps: seq<Step>, e: Entry)
    requires Inv(st) && Run(st, steps).Next?
    ensures var t := Run(st, steps).sys;
      && (e in st.cancelled ==> e in t.cancelled)
      && (e in Entries(st.fired) ==> e in Entries(t.fired))
    decreases |steps|
  {
    if steps != [] {
      StepKeepsInv(st, steps[0]);
      var t := Apply(st, steps[0]).sys;
      OneStepKeepsFate(st, steps[0], e);
      FateIsFinal(t, steps[1..], e);
    }
  }

  lemma OneStepKeepsFate(st: System, step: Step, e: Entry)
    requires Apply(st, step).Next?
    ensures var t := Apply(st, step).sys;
      && (e in st.cancelled ==> e in t.cancelled)
      && (e in Entries(st.fired) ==> e in Entries(t.fired))
  {
    if step.Check? {
      EntriesConcat(st.fired, Due(st.queue, step.now), step.now);
    }
  }

  /** After a check the thread sleeps until the time of a pending timer that no pending timer is before; without
      timers for good; after the shutdown not at all. */
  lemma SleepsUntilEarliest(st: System, now: Time)
    requires Reachable(st) && CheckStep(st, now).Next?
    ensures var t := CheckStep(st, now).sys;
      && (t.thread.Left? <==> st.shutdown)
      && (t.thread.AsleepForGood? <==> !st.shutdown && t.queue == [])
      && (t.thread.Asleep? <==> !st.shutdown && t.queue != [])
      && (t.thread.Asleep? ==>
            && (exists e <- t.queue :: e.token.time == t.thread.until)
            && (forall e <- t.queue :: !Before(e.token.time, t.thread.until)))
  {
    ReachableInv(st);
    DueExact(st.queue, now);
    HeadIsFirst(Later(st.queue, now));
    hide Inv, Reachable, Due, Later, Sorted, Before;
    var t := CheckStep(st, now).sys;
    if t.thread.Asleep? {
      assert t.queue[0] in t.queue;
    }
  }

  /** A timer can always be registered: its token is new, and it is pending then. */
  lemma TimersAreTaken(st: System, time: Time, cb: Event)
    requires Reachable(st)
    ensures
      var e := Entry(Token(time, st.nonce), cb);
      var o := Run(st, [MakeToken(time, cb), Register(e)]);
      o.Next? && e in o.sys.queue && o.sys.inserted == st.inserted + [e]
  {
    var e := Entry(Token(time, st.nonce), cb);
    ReachableInv(st);
    StepKeepsInv(st, MakeToken(time, cb));
    var made := Apply(st, MakeToken(time, cb)).sys;
    NewTokenIsUnique(made, e);
    InsertMembers(made.queue, e);
    assert e in multiset(Insert(made.queue, e));
    hide Inv, Reachable, Insert, Has;
    assert [MakeToken(time, cb), Register(e)][1..] == [Register(e)] && [Register(e)][1..] == [];
    assert Run(made, [Register(e)]) == Apply(made, Register(e));
  }

  /** A pending timer can fire, unless the thread has left: it wakes up, if it sleeps, and checks when the time has
      come. */
  lemma PendingCanFire(st: System, e: Entry, now: Time) returns (steps: seq<Step>)
    requires Reachable(st) && e in st.queue && !st.thread.Left?
    requires !Before(now, st.clock) && !Before(now, e.token.time)
    ensures steps == if st.thread.Awake? then [Check(now)] else [WakeUp, Check(now)]
    ensures Run(st, steps).Next? && Firing(e, now) in Run(st, steps).sys.fired
  {
    ReachableInv(st);
    DueMembers(st.queue, now);
    var due := Due(st.queue, now);
    var i :| 0 <= i < |due| && due[i] == e;
    assert Firings(due, now)[i] == Firing(e, now);
    hide Inv, Reachable, Due, Later, Firings, Before;
    steps := if st.thread.Awake? then [Check(now)] else [WakeUp, Check(now)];
    assert [Check(now)][1..] == [] && [WakeUp, Check(now)][1..] == [Check(now)];
    var awake := if st.thread.Awake? then st else st.(thread := Awake);
    assert Apply(awake, Check(now)) == CheckStep(awake, now);
    assert Run(awake, [Check(now)]) == Run(CheckStep(awake, now).sys, []);
    assert Firing(e, now) in st.fired + Firings(due, now);
  }

  /** Pending timers are in the order of their times, and of two with the same time the one whose token was made
      first comes first. */
  lemma PendingInOrder(st: System, i: nat, j: nat)
    requires Reachable(st) && i < j < |st.queue|
    ensures var a, b := st.queue[i].token, st.queue[j].token;
      Before(a.time, b.time) || (a.time == b.time && a.nonce < b.nonce)
  {
    ReachableInv(st);
    assert Less(st.queue[i].token, st.queue[j].token);
  }

  /** Registering a timer calls for a signal exactly if the timer comes before all that are pending. */
  lemma RegisterTriggers(st: System, e: Entry)
    requires Reachable(st) && e in st.arriving
    ensures RegisterStep(st, e).Next?
    ensures RegisterStep(st, e).sys.triggers
            == st.triggers + if forall i :: 0 <= i < |st.queue| ==> Less(e.token, st.queue[i].token) then 1 else 0
  {
    ReachableInv(st);
    NewTokenIsUnique(st, e);
    InsertSorted(st.queue, e);
    var q := st.queue;
    if q != [] {
      forall i | 0 <= i < |q| && Less(e.token, q[0].token) ensures Less(e.token, q[i].token) {
        LessIsTotalOrder(e.token, q[0].token, q[i].token);
      }
      assert q[0].token != e.token;
    }
    hide Inv, Reachable, Insert, Less;
  }
}
