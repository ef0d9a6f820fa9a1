/** deps/common/lang/mutex.cpp: `RecursiveSharedMutex`, a reader/writer lock that a writer can take
    again. Threads, its two condition variables and the lock as one state machine. */
module SharedMutexes {
  import opened Common

  type Tid = nat

  /** The four counters. */
  datatype Lock = Lock(shared: int, exclusive: int, owner: Option<Tid>, recursive: int)

  const UNLOCKED := Lock(0, 0, None, 0)

  // ----- What one turn through the mutex does to the counters

  /** `lock_shared`, one turn of its loop: entered, or it has to wait. */
  function EnterShared(l: Lock): (Lock, bool) {
    if l.exclusive > 0 then (l, false) else (l.(shared := l.shared + 1), true)
  }

  /** `unlock_shared`: whether a writer is notified. */
  function LeaveShared(l: Lock): (Lock, bool) {
    (l.(shared := l.shared - 1), l.shared == 1)
  }

  /** `lock`, one turn of its loop. */
  function Enter(l: Lock, t: Tid): (Lock, bool) {
    if l.shared > 0 || l.exclusive > 0 then
      if l.owner == Some(t) then (l.(recursive := l.recursive + 1), true) else (l, false)
    else (Lock(l.shared, l.exclusive + 1, Some(t), 1), true)
  }

  /** `unlock`: whether all readers and a writer are notified. */
  function Leave(l: Lock, t: Tid): (Lock, bool) {
    if l.owner == Some(t) && l.recursive > 1 then (l.(recursive := l.recursive - 1), false)
    else (Lock(l.shared, l.exclusive - 1, None, 0), l.exclusive == 1)
  }

  class RecursiveSharedMutex {
    var sharedLockCount: int
    var exclusiveLockCount: int
    var recursiveOwner: Option<Tid>
    var recursiveCount: int

    function View(): Lock
      reads this
    {
      Lock(sharedLockCount, exclusiveLockCount, recursiveOwner, recursiveCount)
    }

    constructor ()
      ensures View() == UNLOCKED
    {
      sharedLockCount, exclusiveLockCount, recursiveOwner, recursiveCount := 0, 0, None, 0;
    }

    /** One turn of `lock_shared`, and `try_lock_shared`. */
    method TurnShared() returns (entered: bool)
      modifies this
      ensures (View(), entered) == EnterShared(old(View()))
    {
      if exclusiveLockCount > 0 {
        return false;
      }
      sharedLockCount := sharedLockCount + 1;
      return true;
    }

    method UnlockShared() returns (notifyOne: bool)
      modifies this
      ensures (View(), notifyOne) == LeaveShared(old(View()))
    {
      sharedLockCount := sharedLockCount - 1;
      notifyOne := sharedLockCount == 0;
    }

    method Turn(me: Tid) returns (entered: bool)
      modifies this
      ensures (View(), entered) == Enter(old(View()), me)
    {
      if sharedLockCount > 0 || exclusiveLockCount > 0 {
        if recursiveOwner == Some(me) {
          recursiveCount := recursiveCount + 1;
          return true;
        }
        return false;
      }
      recursiveOwner := Some(me);
      recursiveCount := 1;
      exclusiveLockCount := exclusiveLockCount + 1;
      return true;
    }

    method Unlock(me: Tid) returns (notify: bool)
      modifies this
      ensures (View(), notify) == Leave(old(View()), me)
    {
      notify := false;
      if recursiveOwner == Some(me) && recursiveCount > 1 {
        recursiveCount := recursiveCount - 1;
      } else {
        recursiveOwner := None;
        recursiveCount := 0;
        exclusiveLockCount := exclusiveLockCount - 1;
        notify := exclusiveLockCount == 0;
      }
    }
  }

  // ----- The threads

  /** Outside the lock's methods; on one of the condition variables; or notified there. */
  datatype Phase = Free | ReaderAsleep | ReaderWoken | WriterAsleep | WriterWoken

  /** `readLocks` and `writeLocks` count the read and write locks the thread has taken and not released. */
  datatype Thread = Thread(phase: Phase, readLocks: nat, writeLocks: nat)

  datatype System = System(lock: Lock, threads: seq<Thread>)

  datatype Step =
    | LockShared(t: Tid)          // from the call or after a wake-up
    | TryLockShared(t: Tid)
    | UnlockShared(t: Tid, wake: Tid)
    | LockExclusive(t: Tid)       // from the call or after a wake-up
    | UnlockExclusive(t: Tid, wake: Tid)
    | SpuriousWake(t: Tid)

  datatype Outcome = Next(sys: System) | Blocked

  predicate NoWriterAsleep(ts: seq<Thread>) {
    forall w :: 0 <= w < |ts| ==> !ts[w].phase.WriterAsleep?
  }

  /** `exclusive_lock_cv_.notify_one`: one sleeping writer, the choice `wake`, if there is any. */
  predicate CanNotify(ts: seq<Thread>, wake: Tid) {
    (wake < |ts| && ts[wake].phase.WriterAsleep?) || NoWriterAsleep(ts)
  }

  function NotifyOne(ts: seq<Thread>, wake: Tid): (r: seq<Thread>)
    ensures |r| == |ts|
  {
    if wake < |ts| && ts[wake].phase.WriterAsleep? then ts[wake := ts[wake].(phase := WriterWoken)] else ts
  }

  /** `shared_lock_cv_.notify_all`. */
  function NotifyAll(ts: seq<Thread>): (r: seq<Thread>)
    ensures |r| == |ts|
  {
    seq(|ts|, i requires 0 <= i < |ts| =>
      if ts[i].phase.ReaderAsleep? then ts[i].(phase := ReaderWoken) else ts[i])
  }

  function Apply(st: System, step: Step): Outcome {
    var ts := st.threads;
    if step.t >= |ts| then Blocked
    else
      var t, th := step.t, ts[step.t];
      match step
      case LockShared(_) =>
        if !th.phase.Free? && !th.phase.ReaderWoken? then Blocked
        else
          var (l, entered) := EnterShared(st.lock);
          Next(System(l, ts[t := if entered then Thread(Free, th.readLocks + 1, th.writeLocks)
                                 else th.(phase := ReaderAsleep)]))
      case TryLockShared(_) =>
        if !th.phase.Free? then Blocked
        else
          var (l, entered) := EnterShared(st.lock);
          Next(System(l, ts[t := if entered then th.(readLocks := th.readLocks + 1) else th]))
      case UnlockShared(_, wake) =>
        if !th.phase.Free? || th.readLocks == 0 then Blocked
        else
          var (l, notify) := LeaveShared(st.lock);
          var left := ts[t := th.(readLocks := th.readLocks - 1)];
          if !notify then Next(System(l, left))
          else if CanNotify(left, wake) then Next(System(l, NotifyOne(left, wake)))
          else Blocked
      case LockExclusive(_) =>
        if !th.phase.Free? && !th.phase.WriterWoken? then Blocked
        else
          var (l, entered) := Enter(st.lock, t);
          Next(System(l, ts[t := if entered then Thread(Free, th.readLocks, th.writeLocks + 1)
                                 else th.(phase := WriterAsleep)]))
      case UnlockExclusive(_, wake) =>
        if !th.phase.Free? || th.writeLocks == 0 then Blocked
        else
          var (l, notify) := Leave(st.lock, t);
          var left := ts[t := th.(writeLocks := th.writeLocks - 1)];
          if !notify then Next(System(l, left))
          else if CanNotify(NotifyAll(left), wake) then Next(System(l, NotifyOne(NotifyAll(left), wake)))
          else Blocked
      case SpuriousWake(_) =>
        if th.phase.ReaderAsleep? then Next(st.(threads := ts[t := th.(phase := ReaderWoken)]))
        else if th.phase.WriterAsleep? then Next(st.(threads := ts[t := th.(phase := WriterWoken)]))
        else Blocked
  }

  function Run(st: System, steps: seq<Step>): Outcome
    decreases |steps|
  {
    if steps == [] then Next(st)
    else
      match Apply(st, steps[0])
      case Next(u) => Run(u, steps[1..])
      case Blocked => Blocked
  }

  function Initial(n: nat): System {
    System(UNLOCKED, seq(n, _ => Thread(Free, 0, 0)))
  }

  // ----- The invariant

  function Reads(ts: seq<Thread>): (r: nat)
    ensures forall t :: 0 <= t < |ts| ==> ts[t].readLocks <= r
  {
    if ts == [] then 0
    else
      var rest := Reads(ts[1..]);
      assert forall t :: 0 < t < |ts| ==> ts[t] == ts[1..][t - 1];
      ts[0].readLocks + rest
  }

  lemma {:induction false} ReadsUpdate(ts: seq<Thread>, t: Tid, th: Thread)
    requires t < |ts|
    ensures Reads(ts[t := th]) == Reads(ts) - ts[t].readLocks + th.readLocks
  {
    if t == 0 {
      assert ts[0 := th][1..] == ts[1..];
    } else {
      ReadsUpdate(ts[1..], t - 1, th);
      assert ts[t := th][1..] == ts[1..][t - 1 := th];
    }
  }

  lemma {:induction false} ReadsSame(ts: seq<Thread>, us: seq<Thread>)
    requires |ts| == |us| && forall t :: 0 <= t < |ts| ==> ts[t].readLocks == us[t].readLocks
    ensures Reads(ts) == Reads(us)
  {
    if ts != [] {
      assert forall t :: 0 <= t < |ts| - 1 ==> ts[1..][t] == ts[t + 1] && us[1..][t] == us[t + 1];
      ReadsSame(ts[1..], us[1..]);
    }
  }

  /** The counters count the locks that the threads hold. */
  ghost predicate CountInv(l: Lock, ts: seq<Thread>) {
    && l.shared == Reads(ts)
    && (l.exclusive == 0 || (l.exclusive == 1 && l.shared == 0))
    && (l.exclusive == 0 <==> l.owner.None?)
    && (l.owner.Some? ==> l.owner.value < |ts| && l.recursive >= 1)
    && (forall t {:trigger ts[t].writeLocks} :: 0 <= t < |ts| ==>
          ts[t].writeLocks == if l.owner == Some(t) then l.recursive else 0)
  }

  /** Whoever can go on has been notified. */
  ghost predicate WakeInv(l: Lock, ts: seq<Thread>) {
    && (l.exclusive == 0 ==> forall t :: 0 <= t < |ts| ==> !ts[t].phase.ReaderAsleep?)
    && (l.exclusive == 0 && l.shared == 0 ==>
          NoWriterAsleep(ts) || exists t :: 0 <= t < |ts| && ts[t].phase.WriterWoken?)
  }

  ghost predicate Inv(st: System) {
    CountInv(st.lock, st.threads) && WakeInv(st.lock, st.threads)
  }

  lemma CountNotified(l: Lock, ts: seq<Thread>, us: seq<Thread>)
    requires CountInv(l, ts) && |us| == |ts|
    requires forall t :: 0 <= t < |ts| ==> us[t].readLocks == ts[t].readLocks && us[t].writeLocks == ts[t].writeLocks
    ensures CountInv(l, us)
  {
    ReadsSame(ts, us);
    hide Reads;
    forall t | 0 <= t < |us| ensures us[t].writeLocks == if l.owner == Some(t) then l.recursive else 0 {
      assert ts[t].writeLocks == us[t].writeLocks;
    }
  }

  lemma CountShared(l: Lock, ts: seq<Thread>, t: Tid, th: Thread)
    requires CountInv(l, ts) && t < |ts| && th.writeLocks == ts[t].writeLocks && l.exclusive == 0
    ensures CountInv(l.(shared := l.shared + th.readLocks - ts[t].readLocks), ts[t := th])
  {
    ReadsUpdate(ts, t, th);
    hide Reads;
  }

  lemma NoReads(ts: seq<Thread>, t: Tid)
    requires Reads(ts) == 0 && t < |ts|
    ensures ts[t].readLocks == 0
  {
  }

  lemma KeepsSharedSteps(st: System, step: Step)
    requires Inv(st) && (step.LockShared? || step.TryLockShared?) && Apply(st, step).Next?
    ensures Inv(Apply(st, step).sys)
  {
    var th := st.threads[step.t];
    var u := Apply(st, step).sys;
    if st.lock.exclusive == 0 {
      CountShared(st.lock, st.threads, step.t, Thread(Free, th.readLocks + 1, th.writeLocks));
    } else {
      CountNotified(st.lock, st.threads, u.threads);
    }
    hide CountInv;
  }

  lemma KeepsUnlockShared(st: System, t: Tid, wake: Tid)
    requires Inv(st) && Apply(st, UnlockShared(t, wake)).Next?
    ensures Inv(Apply(st, UnlockShared(t, wake)).sys)
  {
    var th := st.threads[t];
    var left := st.threads[t := th.(readLocks := th.readLocks - 1)];
    var u := Apply(st, UnlockShared(t, wake)).sys;
    CountShared(st.lock, st.threads, t, th.(readLocks := th.readLocks - 1));
    CountNotified(u.lock, left, u.threads);
    hide CountInv;
    if wake < |left| && left[wake].phase.WriterAsleep? && u.lock.shared == 0 {
      assert u.threads[wake].phase.WriterWoken?;
    }
  }

  lemma KeepsLock(st: System, t: Tid)
    requires Inv(st) && Apply(st, LockExclusive(t)).Next?
    ensures Inv(Apply(st, LockExclusive(t)).sys)
  {
    var u := Apply(st, LockExclusive(t)).sys;
    ReadsSame(st.threads, u.threads);
    hide Reads;
    assert st.threads[t].writeLocks == if st.lock.owner == Some(t) then st.lock.recursive else 0;
  }

  lemma KeepsUnlock(st: System, t: Tid, wake: Tid)
    requires Inv(st) && Apply(st, UnlockExclusive(t, wake)).Next?
    ensures Inv(Apply(st, UnlockExclusive(t, wake)).sys)
  {
    var u := Apply(st, UnlockExclusive(t, wake)).sys;
    var th := st.threads[t];
    var left := st.threads[t := th.(writeLocks := th.writeLocks - 1)];
    assert th.writeLocks == if st.lock.owner == Some(t) then st.lock.recursive else 0;
    CountUnlock(st.lock, st.threads, t);
    CountNotified(u.lock, left, u.threads);
    hide CountInv;
    var all := NotifyAll(left);
    if wake < |all| && all[wake].phase.WriterAsleep? && u.lock.exclusive == 0 {
      assert u.threads[wake].phase.WriterWoken?;
    }
  }

  lemma CountUnlock(l: Lock, ts: seq<Thread>, t: Tid)
    requires CountInv(l, ts) && t < |ts| && l.owner == Some(t)
    ensures ts[t].writeLocks > 0 && CountInv(Leave(l, t).0, ts[t := ts[t].(writeLocks := ts[t].writeLocks - 1)])
  {
    assert ts[t].writeLocks == l.recursive;
    var us := ts[t := ts[t].(writeLocks := ts[t].writeLocks - 1)];
    ReadsSame(ts, us);
    hide Reads;
  }

  lemma KeepsSpurious(st: System, t: Tid)
    requires Inv(st) && Apply(st, SpuriousWake(t)).Next?
    ensures Inv(Apply(st, SpuriousWake(t)).sys)
  {
    var u := Apply(st, SpuriousWake(t)).sys;
    CountNotified(st.lock, st.threads, u.threads);
    hide CountInv;
    assert st.threads[t].phase.WriterAsleep? ==> u.threads[t].phase.WriterWoken?;
    assert forall w :: 0 <= w < |u.threads| && w != t ==> u.threads[w] == st.threads[w];
  }

  lemma StepKeepsInv(st: System, step: Step)
    requires Inv(st) && Apply(st, step).Next?
    ensures Inv(Apply(st, step).sys)
  {
    hide Inv, Apply;
    match step
    case LockShared(_) => KeepsSharedSteps(st, step);
    case TryLockShared(_) => KeepsSharedSteps(st, step);
    case UnlockShared(t, wake) => KeepsUnlockShared(st, t, wake);
    case LockExclusive(t) => KeepsLock(st, t);
    case UnlockExclusive(t, wake) => KeepsUnlock(st, t, wake);
    case SpuriousWake(t) => KeepsSpurious(st, t);
  }

  lemma {:induction false} RunKeepsInv(st: System, steps: seq<Step>)
    requires Inv(st) && Run(st, steps).Next?
    ensures Inv(Run(st, steps).sys)
    decreases |steps|
  {
    if steps != [] {
      StepKeepsInv(st, steps[0]);
      RunKeepsInv(Apply(st, steps[0]).sys, steps[1..]);
    }
  }

  ghost predicate Reachable(st: System) {
    exists n, steps :: Run(Initial(n), steps) == Next(st)
  }

  lemma {:induction false} NobodyReads(ts: seq<Thread>)
    requires forall t :: 0 <= t < |ts| ==> ts[t].readLocks == 0
    ensures Reads(ts) == 0
  {
    if ts != [] {
      NobodyReads(ts[1..]);
    }
  }

  lemma ReachableInv(st: System)
    requires Reachable(st)
    ensures Inv(st)
  {
    var n, steps :| Run(Initial(n), steps) == Next(st);
    NobodyReads(Initial(n).threads);
    hide Reads;
    assert Inv(Initial(n));
    RunKeepsInv(Initial(n), steps);
  }

  // ----- What the lock promises, in every reachable state

  /** While a thread holds the write lock, nobody else holds any lock and it has no read lock; the
      counters are right. */
  lemma WriterIsAlone(st: System, w: Tid)
    requires Reachable(st) && w < |st.threads| && st.threads[w].writeLocks > 0
    ensures forall t :: 0 <= t < |st.threads| ==>
      st.threads[t].readLocks == 0 && (t != w ==> st.threads[t].writeLocks == 0)
    ensures st.lock == Lock(0, 1, Some(w), st.threads[w].writeLocks)
  {
    ReachableInv(st);
    forall t | 0 <= t < |st.threads| ensures st.threads[t].readLocks == 0 {
      NoReads(st.threads, t);
    }
  }

  lemma OwnerWrites(l: Lock, ts: seq<Thread>)
    requires CountInv(l, ts)
    ensures l.owner.Some? ==> ts[l.owner.value].writeLocks >= 1
  {
  }

  /** Otherwise the counters show the readers only. */
  lemma ReadersCounted(st: System)
    requires Reachable(st) && forall t :: 0 <= t < |st.threads| ==> st.threads[t].writeLocks == 0
    ensures st.lock.exclusive == 0 && st.lock.owner == None && st.lock.shared == Reads(st.threads)
  {
    ReachableInv(st);
    OwnerWrites(st.lock, st.threads);
  }

  /** Nobody sleeps through the chance to go on: without a writer no reader sleeps, and a reader that
      has been notified gets in; when the lock is free and writers wait, one of them has been
      notified and gets in. */
  lemma NobodyIsForgotten(st: System)
    requires Reachable(st) && st.lock.exclusive == 0
    ensures forall t :: 0 <= t < |st.threads| ==> !st.threads[t].phase.ReaderAsleep?
    ensures forall t: Tid :: t < |st.threads| && st.threads[t].phase.ReaderWoken? ==>
      Apply(st, LockShared(t)).Next? && Apply(st, LockShared(t)).sys.threads[t].readLocks == st.threads[t].readLocks + 1
    ensures st.lock.shared == 0 && !NoWriterAsleep(st.threads) ==>
      exists t: Tid :: t < |st.threads| && st.threads[t].phase.WriterWoken?
        && Apply(st, LockExclusive(t)).Next? && Apply(st, LockExclusive(t)).sys.threads[t].writeLocks == 1
  {
    ReachableInv(st);
    if st.lock.shared == 0 && !NoWriterAsleep(st.threads) {
      var t :| 0 <= t < |st.threads| && st.threads[t].phase.WriterWoken?;
      assert st.threads[t].writeLocks == 0;
      assert Apply(st, LockExclusive(t)).Next?;
    }
  }

  // ----- Who gets in, and who is woken up, by the locks that the threads hold

  predicate HoldsNothing(th: Thread) {
    th.readLocks == 0 && th.writeLocks == 0
  }

  predicate LockIsFree(ts: seq<Thread>) {
    forall x :: 0 <= x < |ts| ==> HoldsNothing(ts[x])
  }

  predicate NobodyWrites(ts: seq<Thread>) {
    forall x :: 0 <= x < |ts| ==> ts[x].writeLocks == 0
  }

  lemma {:induction false} SomebodyReads(ts: seq<Thread>)
    requires Reads(ts) > 0
    ensures exists x :: 0 <= x < |ts| && ts[x].readLocks > 0
  {
    if forall x :: 0 <= x < |ts| ==> ts[x].readLocks == 0 {
      NobodyReads(ts);
      assert false;
    }
  }

  lemma FreeMeansZero(l: Lock, ts: seq<Thread>)
    requires CountInv(l, ts)
    ensures LockIsFree(ts) <==> l.shared == 0 && l.exclusive == 0
    ensures NobodyWrites(ts) <==> l.exclusive == 0
    ensures l.owner.Some? ==> l == Lock(0, 1, l.owner, ts[l.owner.value].writeLocks)
  {
    if l.owner.Some? {
      assert !HoldsNothing(ts[l.owner.value]);
    } else if l.shared > 0 {
      SomebodyReads(ts);
      var x :| 0 <= x < |ts| && ts[x].readLocks > 0;
      assert !HoldsNothing(ts[x]);
    } else {
      forall x | 0 <= x < |ts| ensures HoldsNothing(ts[x]) {
        NoReads(ts, x);
        assert ts[x].writeLocks == 0;
      }
    }
  }

  /** `lock` gets in exactly if the thread holds a write lock already or no thread holds any lock; otherwise it
      sleeps as a writer. Taken again by its holder, only the recursion count changes. */
  lemma LockGetsIn(st: System, t: Tid)
    requires Reachable(st) && t < |st.threads|
    requires st.threads[t].phase.Free? || st.threads[t].phase.WriterWoken?
    ensures
      var o, th := Apply(st, LockExclusive(t)), st.threads[t];
      var entered := Thread(Free, th.readLocks, th.writeLocks + 1);
      && o.Next?
      && (o.sys.threads == st.threads[t := entered] <==> th.writeLocks > 0 || LockIsFree(st.threads))
      && (o.sys.threads != st.threads[t := entered] ==>
            o.sys == st.(threads := st.threads[t := th.(phase := WriterAsleep)]))
      && (th.writeLocks > 0 ==> o.sys.lock == st.lock.(recursive := st.lock.recursive + 1))
      && (LockIsFree(st.threads) ==> o.sys.lock == Lock(0, 1, Some(t), 1))
  {
    ReachableInv(st);
    FreeMeansZero(st.lock, st.threads);
    hide Reads, LockIsFree;
    var o, th := Apply(st, LockExclusive(t)), st.threads[t];
    assert th.writeLocks == if st.lock.owner == Some(t) then st.lock.recursive else 0;
    assert o.sys.threads[t].writeLocks == th.writeLocks + 1 <==> th.writeLocks > 0 || LockIsFree(st.threads);
  }

  /** `lock_shared` and `try_lock_shared` get in exactly if no thread holds a write lock, the caller included;
      otherwise the first sleeps as a reader and the second changes nothing. */
  lemma LockSharedGetsIn(st: System, t: Tid, try: bool)
    requires Reachable(st) && t < |st.threads|
    requires st.threads[t].phase.Free? || (st.threads[t].phase.ReaderWoken? && !try)
    ensures
      var o, th := Apply(st, if try then TryLockShared(t) else LockShared(t)), st.threads[t];
      var entered := Thread(Free, th.readLocks + 1, th.writeLocks);
      && o.Next?
      && (o.sys.threads == st.threads[t := entered] <==> NobodyWrites(st.threads))
      && (o.sys.threads != st.threads[t := entered] ==>
            o.sys == if try then st else st.(threads := st.threads[t := th.(phase := ReaderAsleep)]))
  {
    ReachableInv(st);
    FreeMeansZero(st.lock, st.threads);
    hide Reads, LockIsFree, NobodyWrites;
    var o, th := Apply(st, if try then TryLockShared(t) else LockShared(t)), st.threads[t];
    assert o.sys.threads[t].readLocks == th.readLocks + 1 <==> NobodyWrites(st.threads);
    assert st.threads[t := th] == st.threads;
  }

  /** The thread gives back a lock, and `all` says whether the sleeping readers are woken up and `one` which
      sleeping writer is. */
  predicate Woken(ts: seq<Thread>, us: seq<Thread>, t: Tid, mine: Thread, all: bool, one: Option<Tid>) {
    |us| == |ts| && forall x :: 0 <= x < |ts| ==>
      us[x] == if x == t then mine
               else if all && ts[x].phase.ReaderAsleep? then ts[x].(phase := ReaderWoken)
               else if one == Some(x) && ts[x].phase.WriterAsleep? then ts[x].(phase := WriterWoken)
               else ts[x]
  }

  /** `unlock` of a nested lock wakes nobody up; the last one wakes all sleeping readers and a sleeping writer, if
      there is any, and frees the lock. */
  lemma UnlockWakes(st: System, t: Tid, wake: Tid)
    requires Reachable(st) && t < |st.threads| && st.threads[t].phase.Free? && st.threads[t].writeLocks > 0
    requires CanNotify(st.threads, wake)
    ensures
      var o, th := Apply(st, UnlockExclusive(t, wake)), st.threads[t];
      var last := th.writeLocks == 1;
      && o.Next?
      && Woken(st.threads, o.sys.threads, t, th.(writeLocks := th.writeLocks - 1), last,
               if last then Some(wake) else None)
      && (last ==> LockIsFree(o.sys.threads) && o.sys.lock == UNLOCKED)
  {
    ReachableInv(st);
    assert Apply(st, UnlockExclusive(t, wake)).Next? by {
      hide Inv, Reads;
      StillNotifies(st.threads, t, wake);
    }
    StepKeepsInv(st, UnlockExclusive(t, wake));
    var o, th := Apply(st, UnlockExclusive(t, wake)), st.threads[t];
    assert th.writeLocks == if st.lock.owner == Some(t) then st.lock.recursive else 0;
    FreeMeansZero(st.lock, st.threads);
    FreeMeansZero(o.sys.lock, o.sys.threads);
    hide Reads, LockIsFree, NobodyWrites, CanNotify;
  }

  lemma StillNotifies(ts: seq<Thread>, t: Tid, wake: Tid)
    requires t < |ts| && ts[t].phase.Free? && CanNotify(ts, wake)
    ensures forall th: Thread :: th.phase.Free? ==>
      CanNotify(NotifyAll(ts[t := th]), wake) && CanNotify(ts[t := th], wake)
  {
  }

  /** The last `unlock_shared` wakes a sleeping writer, if there is any; another one wakes nobody up. */
  lemma UnlockSharedWakes(st: System, t: Tid, wake: Tid)
    requires Reachable(st) && t < |st.threads| && st.threads[t].phase.Free? && st.threads[t].readLocks > 0
    requires CanNotify(st.threads, wake)
    ensures
      var o, th := Apply(st, UnlockShared(t, wake)), st.threads[t];
      && o.Next?
      && Woken(st.threads, o.sys.threads, t, th.(readLocks := th.readLocks - 1), false,
               if LockIsFree(o.sys.threads) then Some(wake) else None)
  {
    ReachableInv(st);
    StillNotifies(st.threads, t, wake);
    StepKeepsInv(st, UnlockShared(t, wake));
    var o := Apply(st, UnlockShared(t, wake));
    NoWriteLocks(st.lock, st.threads, t);
    FreeMeansZero(o.sys.lock, o.sys.threads);
    hide Reads, LockIsFree, CanNotify;
  }

  /** While somebody reads, there is no writer. */
  lemma NoWriteLocks(l: Lock, ts: seq<Thread>, t: Tid)
    requires CountInv(l, ts) && t < |ts| && ts[t].readLocks > 0
    ensures l.exclusive == 0
  {
  }
}
