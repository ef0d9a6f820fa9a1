/** deps/common/lang/mutex.cpp: `LockTrace`, which reports deadlocks before a thread blocks. */
module LockTraces {
  import opened Common

  type Tid = nat
  type Mutex = nat

  /** The maps that `mMapMutex` guards, `mEnableRecurisives` and `mMaxBlockTids`. */
  datatype Trace = Trace(
    locks: map<Mutex, Tid>,
    waits: map<Tid, Mutex>,
    owns: map<Tid, set<Mutex>>,
    times: map<Mutex, int>,
    recursives: set<Mutex>,
    limit: int)

  function Fresh(recursives: set<Mutex>, limit: int): Trace {
    Trace(map[], map[], map[], map[], recursives, limit)
  }

  function Owned(tr: Trace, t: Tid): set<Mutex> {
    if t in tr.owns then tr.owns[t] else {}
  }

  /** `mLocks` and `mOwnLocks` say the same. */
  ghost predicate Consistent(tr: Trace) {
    forall t: Tid, m: Mutex :: m in Owned(tr, t) <==> m in tr.locks && tr.locks[m] == t
  }

  // ----- The reference: following the chain of waits

  /** The thread at hop `n` of the chain from mutex `m`: its holder, the holder of the mutex that one
      waits for, and so on. */
  function Hop(tr: Trace, m: Mutex, n: nat): Option<Tid>
    requires n >= 1
    decreases n
  {
    if m !in tr.locks then None
    else if n == 1 then Some(tr.locks[m])
    else if tr.locks[m] in tr.waits then Hop(tr, tr.waits[tr.locks[m]], n - 1)
    else None
  }

  /** Within `limit` hops the chain from `m` comes to thread `t`. */
  ghost predicate ComesTo(tr: Trace, m: Mutex, t: Tid, limit: int) {
    exists n: nat :: 1 <= n <= limit && Hop(tr, m, n) == Some(t)
  }

  /** What the detector is to report when thread `t` is about to lock `m`. */
  ghost predicate Deadlock(tr: Trace, m: Mutex, t: Tid) {
    m in tr.locks &&
    if tr.locks[m] == t then m !in tr.recursives else ComesTo(tr, m, t, tr.limit)
  }

  lemma ComesToUnroll(tr: Trace, m: Mutex, t: Tid, limit: int)
    requires m in tr.locks && tr.locks[m] != t
    ensures ComesTo(tr, m, t, limit) <==>
            tr.locks[m] in tr.waits && ComesTo(tr, tr.waits[tr.locks[m]], t, limit - 1)
  {
    if tr.locks[m] in tr.waits {
      var m' := tr.waits[tr.locks[m]];
      if ComesTo(tr, m, t, limit) {
        var n: nat :| 1 <= n <= limit && Hop(tr, m, n) == Some(t);
        assert Hop(tr, m', n - 1) == Some(t);
      }
      if ComesTo(tr, m', t, limit - 1) {
        var n: nat :| 1 <= n <= limit - 1 && Hop(tr, m', n) == Some(t);
        assert Hop(tr, m, n + 1) == Some(t);
      }
    }
  }

  lemma ComesToFirst(tr: Trace, m: Mutex, t: Tid, limit: int)
    requires m in tr.locks && tr.locks[m] == t
    ensures ComesTo(tr, m, t, limit) <==> limit >= 1
  {
    if limit >= 1 {
      assert Hop(tr, m, 1) == Some(t);
    }
  }

  /** A thread that holds nothing is at no hop. */
  lemma {:induction false} HopHolds(tr: Trace, m: Mutex, n: nat)
    requires Consistent(tr) && n >= 1 && Hop(tr, m, n).Some?
    ensures Owned(tr, Hop(tr, m, n).value) != {}
    decreases n
  {
    if n == 1 {
      assert m in Owned(tr, tr.locks[m]);
    } else {
      HopHolds(tr, tr.waits[tr.locks[m]], n - 1);
    }
  }

  /** A mutex that nobody holds ends the chain. */
  lemma HopOfFree(tr: Trace, m: Mutex, t: Tid, limit: int)
    requires m !in tr.locks
    ensures !ComesTo(tr, m, t, limit)
  {
  }

  // ----- The operations on the maps

  function Waiting(tr: Trace, m: Mutex, t: Tid): Trace {
    tr.(waits := tr.waits[t := m])
  }

  /** A check finds at least `limit` waits counted for a mutex that is not on record as held. */
  predicate Crowded(tr: Trace, m: Mutex) {
    m in tr.times && tr.times[m] >= tr.limit && m !in tr.locks
  }

  /** `checkLockTimes`: one more wait is counted. Its warning reads `mLocks[mutex]`, which makes an entry
      for thread 0 when there is none. */
  function Counted(tr: Trace, m: Mutex): Trace {
    tr.(times := tr.times[m := if m in tr.times then tr.times[m] + 1 else 1],
        locks := if Crowded(tr, m) then tr.locks[m := 0] else tr.locks)
  }

  function Inserted(tr: Trace, m: Mutex, t: Tid): Trace {
    tr.(locks := if m in tr.locks then tr.locks else tr.locks[m := t],
        waits := tr.waits - {t},
        owns := tr.owns[t := Owned(tr, t) + {m}],
        times := if m in tr.times then tr.times[m := tr.times[m] - 1] else tr.times)
  }

  function Unlocked(tr: Trace, m: Mutex, t: Tid): Trace {
    tr.(locks := tr.locks - {m}, owns := tr.owns[t := Owned(tr, t) - {m}])
  }

  /** `check` keeps the two maps consistent exactly if the mutex is not crowded. */
  lemma CountKeepsConsistent(tr: Trace, m: Mutex)
    requires Consistent(tr)
    ensures Consistent(Counted(tr, m)) <==> !Crowded(tr, m)
  {
    var tr' := Counted(tr, m);
    assert forall u: Tid :: Owned(tr', u) == Owned(tr, u);
    if Crowded(tr, m) {
      assert m in tr'.locks && tr'.locks[m] == 0 && m !in Owned(tr, 0);
    }
  }

  /** `insertLock` keeps the two maps consistent exactly if no other thread is on record as the
      holder. */
  lemma InsertKeepsConsistent(tr: Trace, m: Mutex, t: Tid)
    requires Consistent(tr)
    ensures Consistent(Inserted(tr, m, t)) <==> m !in tr.locks || tr.locks[m] == t
  {
    var tr' := Inserted(tr, m, t);
    if m !in tr.locks || tr.locks[m] == t {
      forall u: Tid, k: Mutex ensures k in Owned(tr', u) <==> k in tr'.locks && tr'.locks[k] == u {
        assert k in Owned(tr, u) <==> k in tr.locks && tr.locks[k] == u;
      }
    } else {
      assert m in Owned(tr', t) && tr'.locks[m] != t;
    }
  }

  /** `unlock` does exactly if no other thread is on record as the holder. */
  lemma UnlockKeepsConsistent(tr: Trace, m: Mutex, t: Tid)
    requires Consistent(tr)
    ensures Consistent(Unlocked(tr, m, t)) <==> m !in tr.locks || tr.locks[m] == t
  {
    var tr' := Unlocked(tr, m, t);
    if m !in tr.locks || tr.locks[m] == t {
      forall u: Tid, k: Mutex ensures k in Owned(tr', u) <==> k in tr'.locks && tr'.locks[k] == u {
        assert k in Owned(tr, u) <==> k in tr.locks && tr.locks[k] == u;
      }
    } else {
      var u := tr.locks[m];
      assert m in Owned(tr, u);
      assert m in Owned(tr', u) && m !in tr'.locks;
    }
  }

  class LockTrace {
    var mLocks: map<Mutex, Tid>
    var mWaitLocks: map<Tid, Mutex>
    var mOwnLocks: map<Tid, set<Mutex>>
    var mWaitTimes: map<Mutex, int>
    var mEnableRecursives: set<Mutex>
    var mMaxBlockTids: int

    constructor ()
      ensures View() == Fresh({}, 8)
    {
      mLocks, mWaitLocks, mOwnLocks, mWaitTimes := map[], map[], map[], map[];
      mEnableRecursives, mMaxBlockTids := {}, 8;
    }

    function View(): Trace
      reads this
    {
      Trace(mLocks, mWaitLocks, mOwnLocks, mWaitTimes, mEnableRecursives, mMaxBlockTids)
    }

    /** The recursive `deadlockCheck`: does the chain from what `other` waits for come to a mutex of
        the caller in the hops that are left? */
    method DeadlockCheckFrom(current: Tid, ownMutexs: set<Mutex>, other: Tid, recusiveNum: int)
      returns (found: bool)
      requires Consistent(View()) && ownMutexs == Owned(View(), current)
      ensures found <==>
        other in mWaitLocks && ComesTo(View(), mWaitLocks[other], current, mMaxBlockTids - recusiveNum)
      decreases mMaxBlockTids - recusiveNum
    {
      if recusiveNum >= mMaxBlockTids {
        return false;
      }
      if other !in mWaitLocks {
        return false;
      }
      var otherWaitMutex := mWaitLocks[other];
      if otherWaitMutex in ownMutexs {
        ComesToFirst(View(), otherWaitMutex, current, mMaxBlockTids - recusiveNum);
        return true;
      }
      if otherWaitMutex !in mLocks {
        HopOfFree(View(), otherWaitMutex, current, mMaxBlockTids - recusiveNum);
        return false;
      }
      ComesToUnroll(View(), otherWaitMutex, current, mMaxBlockTids - recusiveNum);
      found := DeadlockCheckFrom(current, ownMutexs, mLocks[otherWaitMutex], recusiveNum + 1);
    }

    /** `deadlockCheck`: it records the wait and reports a deadlock exactly if the caller locks its
        own mutex again and that is not recursive, or the chain of waits comes back to it within
        mMaxBlockTids hops. */
    method DeadlockCheck(mutex: Mutex, threadId: Tid) returns (found: bool)
      requires Consistent(View())
      modifies this`mWaitLocks
      ensures View() == Waiting(old(View()), mutex, threadId)
      ensures found <==> Deadlock(View(), mutex, threadId)
    {
      OnlyWaits(View(), mutex, threadId);
      mWaitLocks := mWaitLocks[threadId := mutex];
      if mutex !in mLocks {
        return false;
      }
      var other := mLocks[mutex];
      if threadId == other {
        return mutex !in mEnableRecursives;
      }
      if threadId !in mOwnLocks || mOwnLocks[threadId] == {} {
        NobodyComesToIdle(View(), mutex, threadId, mMaxBlockTids);
        return false;
      }
      ComesToUnroll(View(), mutex, threadId, mMaxBlockTids);
      found := DeadlockCheckFrom(threadId, mOwnLocks[threadId], other, 1);
    }

    /** Whether many threads wait for the mutex, by the count before. */
    method CheckLockTimes(mutex: Mutex) returns (many: bool)
      modifies this`mWaitTimes, this`mLocks
      ensures View() == Counted(old(View()), mutex)
      ensures many <==> mutex in old(mWaitTimes) && old(mWaitTimes)[mutex] >= mMaxBlockTids
    {
      if mutex !in mWaitTimes {
        mWaitTimes := mWaitTimes[mutex := 1];
        return false;
      }
      var lockTimes := mWaitTimes[mutex];
      mWaitTimes := mWaitTimes[mutex := lockTimes + 1];
      if lockTimes >= mMaxBlockTids {
        if mutex !in mLocks {
          mLocks := mLocks[mutex := 0];
        }
        return true;
      } else {
        return false;
      }
    }

    /** `check`, before a thread blocks. */
    method Check(mutex: Mutex, threadId: Tid) returns (found: bool)
      requires Consistent(View())
      modifies this`mWaitLocks, this`mWaitTimes, this`mLocks
      ensures View() == Counted(Waiting(old(View()), mutex, threadId), mutex)
      ensures found <==> Deadlock(Waiting(old(View()), mutex, threadId), mutex, threadId)
    {
      found := DeadlockCheck(mutex, threadId);
      var _ := CheckLockTimes(mutex);
    }

    method InsertLock(mutex: Mutex, threadId: Tid)
      modifies this
      ensures View() == Inserted(old(View()), mutex, threadId)
    {
      if mutex !in mLocks {
        mLocks := mLocks[mutex := threadId];
      }
      mWaitLocks := mWaitLocks - {threadId};
      if threadId !in mOwnLocks {
        mOwnLocks := mOwnLocks[threadId := {}];
      }
      mOwnLocks := mOwnLocks[threadId := mOwnLocks[threadId] + {mutex}];
      if mutex in mWaitTimes {
        mWaitTimes := mWaitTimes[mutex := mWaitTimes[mutex] - 1];
      }
    }

    method TryLock(mutex: Mutex, threadId: Tid)
      modifies this
      ensures View() == if mutex in old(mLocks) then old(View()) else Inserted(old(View()), mutex, threadId)
    {
      if mutex in mLocks {
        return;
      }
      InsertLock(mutex, threadId);
    }

    method Unlock(mutex: Mutex, threadId: Tid)
      modifies this
      ensures View() == Unlocked(old(View()), mutex, threadId)
    {
      mLocks := mLocks - {mutex};
      if threadId !in mOwnLocks {
        mOwnLocks := mOwnLocks[threadId := {}];
      }
      mOwnLocks := mOwnLocks[threadId := mOwnLocks[threadId] - {mutex}];
    }
  }

  lemma NobodyComesToIdle(tr: Trace, m: Mutex, t: Tid, limit: int)
    requires Consistent(tr) && Owned(tr, t) == {}
    ensures !ComesTo(tr, m, t, limit)
  {
    forall n: nat | 1 <= n <= limit ensures Hop(tr, m, n) != Some(t) {
      if Hop(tr, m, n) == Some(t) {
        HopHolds(tr, m, n);
      }
    }
  }

  // ----- Histories of the traced mutexes

  datatype Op =
    | Wait(t: Tid, m: Mutex)     // MUTEX_LOCK: the check, after which the thread blocks
    | Try(t: Tid, m: Mutex)      // MUTEX_TRYLOCK: the check; nothing follows if the mutex is busy
    | Got(t: Tid, m: Mutex)      // either of them has locked the mutex, and `lock` records it
    | Release(t: Tid, m: Mutex)  // MUTEX_UNLOCK

  function After(tr: Trace, op: Op): Trace {
    match op
    case Wait(t, m) => Counted(Waiting(tr, m, t), m)
    case Try(t, m) => Counted(Waiting(tr, m, t), m)
    case Got(t, m) => Inserted(tr, m, t)
    case Release(t, m) => Unlocked(tr, m, t)
  }

  function Run(start: Trace, ops: seq<Op>): Trace {
    if ops == [] then start else After(Run(start, ops[..|ops| - 1]), ops[|ops| - 1])
  }

  /** Nobody else is on record as the holder of a mutex that is locked or unlocked, and a check does not
      find its mutex crowded. */
  predicate Fitting(tr: Trace, op: Op) {
    match op
    case Wait(_, m) => !Crowded(tr, m)
    case Try(_, m) => !Crowded(tr, m)
    case _ => op.m !in tr.locks || tr.locks[op.m] == op.t
  }

  lemma StepKeepsConsistent(tr: Trace, op: Op)
    requires Consistent(tr)
    ensures Consistent(After(tr, op)) <==> Fitting(tr, op)
  {
    match op {
      case Got(t, m) => InsertKeepsConsistent(tr, m, t);
      case Release(t, m) => UnlockKeepsConsistent(tr, m, t);
      case _ =>
        OnlyWaits(tr, op.m, op.t);
        CountKeepsConsistent(Waiting(tr, op.m, op.t), op.m);
    }
  }

  predicate WellOrdered(start: Trace, ops: seq<Op>) {
    ops == [] || (
      WellOrdered(start, ops[..|ops| - 1]) && Fitting(Run(start, ops[..|ops| - 1]), ops[|ops| - 1]))
  }

  /** The maps agree after every part of the history. */
  ghost predicate AlwaysConsistent(start: Trace, ops: seq<Op>) {
    forall n :: 0 <= n <= |ops| ==> Consistent(Run(start, ops[..n]))
  }

  lemma AlwaysSnoc(start: Trace, ops: seq<Op>, op: Op)
    ensures AlwaysConsistent(start, ops + [op])
            <==> AlwaysConsistent(start, ops) && Consistent(Run(start, ops + [op]))
  {
    var all := ops + [op];
    hide Run, Consistent;
    assert all[..|all|] == all;
    forall n | 0 <= n <= |ops| ensures all[..n] == ops[..n] {
    }
    if AlwaysConsistent(start, all) {
      forall n | 0 <= n <= |ops| ensures Consistent(Run(start, ops[..n])) {
        assert Consistent(Run(start, all[..n]));
      }
    }
  }

  /** The maps agree throughout a history if and only if it is well ordered. */
  lemma {:induction false} HistoryIsConsistent(start: Trace, ops: seq<Op>)
    requires Consistent(start)
    ensures AlwaysConsistent(start, ops) <==> WellOrdered(start, ops)
  {
    if ops == [] {
      assert forall n :: 0 <= n <= 0 ==> ops[..n] == [];
    } else {
      var before, op := ops[..|ops| - 1], ops[|ops| - 1];
      HistoryIsConsistent(start, before);
      assert ops == before + [op];
      AlwaysSnoc(start, before, op);
      if AlwaysConsistent(start, before) {
        assert before[..|before|] == before;
        assert Consistent(Run(start, before));
        StepKeepsConsistent(Run(start, before), op);
      }
    }
  }

  lemma OnlyWaits(tr: Trace, m: Mutex, t: Tid)
    requires Consistent(tr)
    ensures Consistent(Waiting(tr, m, t))
  {
    forall u: Tid, k: Mutex ensures k in Owned(Waiting(tr, m, t), u) <==> k in tr.locks && tr.locks[k] == u {
      assert Owned(Waiting(tr, m, t), u) == Owned(tr, u);
    }
  }

  // ----- Recorded waits and blocked threads

  /** The threads that are in a blocking lock call, and for which mutex. */
  function Blocked(ops: seq<Op>): map<Tid, Mutex> {
    if ops == [] then map[]
    else
      var before := Blocked(ops[..|ops| - 1]);
      match ops[|ops| - 1]
      case Wait(t, m) => before[t := m]
      case Got(t, _) => before - {t}
      case _ => before
  }

  /** A blocked thread does nothing until it gets its mutex. */
  predicate Patient(ops: seq<Op>) {
    ops == [] || (
      var blocked, op := Blocked(ops[..|ops| - 1]), ops[|ops| - 1];
      Patient(ops[..|ops| - 1]) && (op.t in blocked ==> op == Got(op.t, blocked[op.t])))
  }

  /** The thread's last operation that is not a release. */
  function LastTry(ops: seq<Op>, t: Tid): Option<Op> {
    if ops == [] then None
    else
      var op := ops[|ops| - 1];
      if op.t == t && !op.Release? then Some(op) else LastTry(ops[..|ops| - 1], t)
  }

  /** The thread's last try to get a mutex is a try-lock that has not got it. */
  predicate Stale(ops: seq<Op>, t: Tid) {
    LastTry(ops, t).Some? && LastTry(ops, t).value.Try?
  }

  /** The wait recorded for a thread: the mutex it is blocked on, unless its last try was a try-lock in
      vain; then there is one although it is not blocked. */
  lemma {:induction false} WaitOf(start: Trace, ops: seq<Op>, t: Tid)
    requires start.waits == map[] && Patient(ops)
    ensures var waits, blocked := Run(start, ops).waits, Blocked(ops);
      if Stale(ops, t) then t in waits && t !in blocked
      else (t in waits <==> t in blocked) && (t in waits ==> waits[t] == blocked[t])
  {
    if ops != [] {
      WaitOf(start, ops[..|ops| - 1], t);
    }
  }

  /** The recorded waits are exactly the blocked threads if and only if no thread's last try to get a
      mutex is a try-lock in vain. */
  lemma WaitsAreBlocked(start: Trace, ops: seq<Op>)
    requires start.waits == map[] && Patient(ops)
    ensures Run(start, ops).waits == Blocked(ops) <==> forall t :: !Stale(ops, t)
  {
    var waits, blocked := Run(start, ops).waits, Blocked(ops);
    if t: Tid :| Stale(ops, t) {
      WaitOf(start, ops, t);
    } else {
      forall t: Tid ensures (t in waits <==> t in blocked) && (t in waits ==> waits[t] == blocked[t]) {
        assert !Stale(ops, t);
        WaitOf(start, ops, t);
      }
      assert waits == blocked;
    }
  }

  /** The threads whose waits lead from `m` to hop `n`. */
  function Chain(tr: Trace, m: Mutex, n: nat): seq<Tid>
    decreases n
  {
    if n <= 1 || m !in tr.locks then []
    else [tr.locks[m]] + if tr.locks[m] in tr.waits then Chain(tr, tr.waits[tr.locks[m]], n - 1) else []
  }

  predicate NoneStale(ops: seq<Op>, ts: seq<Tid>) {
    forall u <- ts :: !Stale(ops, u)
  }

  lemma NoneStaleCons(ops: seq<Op>, t: Tid, ts: seq<Tid>)
    ensures NoneStale(ops, [t] + ts) <==> !Stale(ops, t) && NoneStale(ops, ts)
  {
    assert t in [t] + ts;
    forall u <- ts ensures u in [t] + ts {
    }
  }

  /** The same hop is reached through really blocked threads if and only if no wait on the way is
      stale. */
  lemma {:induction false} HopIsReal(start: Trace, ops: seq<Op>, tr: Trace, m: Mutex, n: nat)
    requires start.waits == map[] && Patient(ops) && tr.waits == Run(start, ops).waits && n >= 1
    ensures forall t: Tid ::
      Hop(tr.(waits := Blocked(ops)), m, n) == Some(t)
      <==> Hop(tr, m, n) == Some(t) && NoneStale(ops, Chain(tr, m, n))
    decreases n
  {
    if m in tr.locks && n > 1 {
      var h := tr.locks[m];
      WaitOf(start, ops, h);
      if h in tr.waits {
        var rest := Chain(tr, tr.waits[h], n - 1);
        var really := tr.(waits := Blocked(ops));
        HopIsReal(start, ops, tr, tr.waits[h], n - 1);
        assert Hop(tr, m, n) == Hop(tr, tr.waits[h], n - 1);
        assert Hop(really, m, n) == if Stale(ops, h) then None else Hop(really, tr.waits[h], n - 1);
        assert Chain(tr, m, n) == [h] + rest;
        NoneStaleCons(ops, h, rest);
      }
    }
  }

  /** Within `limit` hops the chain comes to thread `t` without a stale wait on the way. */
  ghost predicate ComesToReally(ops: seq<Op>, tr: Trace, m: Mutex, t: Tid, limit: int) {
    exists n: nat :: 1 <= n <= limit && Hop(tr, m, n) == Some(t) && NoneStale(ops, Chain(tr, m, n))
  }

  lemma ComesToIsReal(start: Trace, ops: seq<Op>, tr: Trace, m: Mutex, t: Tid, limit: int)
    requires start.waits == map[] && Patient(ops) && tr.waits == Run(start, ops).waits
    ensures ComesTo(tr.(waits := Blocked(ops)), m, t, limit) <==> ComesToReally(ops, tr, m, t, limit)
  {
    var really := tr.(waits := Blocked(ops));
    if ComesTo(really, m, t, limit) {
      var n: nat :| 1 <= n <= limit && Hop(really, m, n) == Some(t);
      HopIsReal(start, ops, tr, m, n);
      assert Hop(tr, m, n) == Some(t);
    }
    if n: nat :| 1 <= n <= limit && Hop(tr, m, n) == Some(t) && NoneStale(ops, Chain(tr, m, n)) {
      HopIsReal(start, ops, tr, m, n);
      assert Hop(really, m, n) == Some(t);
    }
  }

  /** A report about other threads is about threads that are really blocked if and only if the chain
      comes back to the caller without a stale wait on the way. */
  lemma ReportIsReal(start: Trace, ops: seq<Op>, m: Mutex, t: Tid)
    requires start.waits == map[] && Patient(ops + [Wait(t, m)])
    requires m in Run(start, ops).locks && Run(start, ops).locks[m] != t
    ensures
      var tr, all := Waiting(Run(start, ops), m, t), ops + [Wait(t, m)];
      Deadlock(tr.(waits := Blocked(all)), m, t) <==> ComesToReally(all, tr, m, t, tr.limit)
  {
    var tr, all := Waiting(Run(start, ops), m, t), ops + [Wait(t, m)];
    assert all[..|all| - 1] == ops;
    assert Run(start, all).waits == tr.waits;
    hide Run, Blocked, Patient, ComesTo, ComesToReally;
    ComesToIsReal(start, all, tr, m, t, tr.limit);
  }

  /** A thread locks a mutex that nobody else has on record. */
  function Locking(ops: seq<Op>, t: Tid, m: Mutex): seq<Op> {
    ops + [Wait(t, m)] + [Got(t, m)]
  }

  lemma LockingSteps(start: Trace, ops: seq<Op>, t: Tid, m: Mutex)
    requires WellOrdered(start, ops) && Patient(ops) && t !in Blocked(ops)
    requires var tr := Run(start, ops); (m !in tr.locks || tr.locks[m] == t) && !Crowded(tr, m)
    ensures var all, tr := Locking(ops, t, m), Run(start, ops);
      && WellOrdered(start, all) && Patient(all) && Blocked(all) == Blocked(ops)
      && Run(start, all) == Inserted(Counted(Waiting(tr, m, t), m), m, t)
  {
    var waiting, all := ops + [Wait(t, m)], Locking(ops, t, m);
    assert waiting[..|waiting| - 1] == ops && all[..|all| - 1] == waiting;
    RunSnoc(start, ops, Wait(t, m));
    RunSnoc(start, waiting, Got(t, m));
    hide Run;
    assert WellOrdered(start, waiting) && Patient(waiting) && Blocked(waiting) == Blocked(ops)[t := m];
    assert Blocked(all) == Blocked(waiting) - {t};
    assert Blocked(ops)[t := m] - {t} == Blocked(ops);
  }

  /** For example: thread 1 holds mutex 10, thread 2 holds mutex 20 and only tries mutex 10; when thread 1
      then locks mutex 20, a deadlock is reported although nobody is blocked. */
  lemma StaleWait()
    ensures
      var start, ops := Fresh({}, 8), Locking(Locking([], 1, 10), 2, 20) + [Try(2, 10)];
      && WellOrdered(start, ops) && Patient(ops) && Stale(ops, 2) && Blocked(ops) == map[]
      && Deadlock(Waiting(Run(start, ops), 20, 1), 20, 1)
  {
    var start, one := Fresh({}, 8), Locking([], 1, 10);
    var both := Locking(one, 2, 20);
    var ops := both + [Try(2, 10)];
    LockingSteps(start, [], 1, 10);
    LockingSteps(start, one, 2, 20);
    RunSnoc(start, both, Try(2, 10));
    assert ops[..|ops| - 1] == both;
    hide Run, Locking;
    var tr := Waiting(Run(start, ops), 20, 1);
    assert tr.locks == map[10 := 1, 20 := 2] && tr.waits == map[2 := 10, 1 := 20];
    assert Hop(tr, 10, 1) == Some(1);
    assert Hop(tr, 20, 2) == Some(1);
  }

  /** For example: a thread that locks its own mutex again is reported exactly if the mutex is not recursive. */
  lemma Relocked(recursive: bool, t: Tid, m: Mutex)
    ensures
      var start, ops := Fresh(if recursive then {m} else {}, 8), Locking([], t, m);
      WellOrdered(start, ops) && (Deadlock(Waiting(Run(start, ops), m, t), m, t) <==> !recursive)
  {
    LockingSteps(Fresh(if recursive then {m} else {}, 8), [], t, m);
    hide Run, Locking;
  }

  // ----- Recorded and real holders

  /** The holder of a mutex, and how often it has locked it. */
  datatype Hold = Hold(holder: Tid, depth: nat)

  function Held(ops: seq<Op>): map<Mutex, Hold> {
    if ops == [] then map[]
    else
      var before := Held(ops[..|ops| - 1]);
      match ops[|ops| - 1]
      case Got(t, m) => before[m := Hold(t, if m in before then before[m].depth + 1 else 1)]
      case Release(t, m) =>
        if m in before && before[m].depth > 1 then before[m := Hold(before[m].holder, before[m].depth - 1)]
        else before - {m}
      case _ => before
  }

  /** A mutex is locked when it is free or the thread's own, and unlocked by its holder. The number of a
      thread is positive. */
  predicate Legal(ops: seq<Op>) {
    ops == [] || (
      var held, op := Held(ops[..|ops| - 1]), ops[|ops| - 1];
      && Legal(ops[..|ops| - 1]) && op.t > 0
      && (op.Got? ==> op.m in held ==> held[op.m].holder == op.t)
      && (op.Release? ==> op.m in held && held[op.m].holder == op.t))
  }

  /** The mutex has been unlocked since it was last locked. */
  predicate Dropped(ops: seq<Op>, m: Mutex) {
    ops == [] ||
    var op := ops[|ops| - 1];
    if op.m == m && (op.Got? || op.Release?) then op.Release? else Dropped(ops[..|ops| - 1], m)
  }

  /** A recursive mutex has been unlocked, less often than it was locked, and not locked again. */
  predicate Forgotten(ops: seq<Op>, m: Mutex) {
    Dropped(ops, m) && m in Held(ops)
  }

  /** A check has found the mutex crowded since it was last unlocked. */
  predicate Phantom(start: Trace, ops: seq<Op>, m: Mutex) {
    ops != [] &&
    var before, op := ops[..|ops| - 1], ops[|ops| - 1];
    if op.m != m || op.Got? then Phantom(start, before, m)
    else !op.Release? && (Phantom(start, before, m) || Crowded(Run(start, before), m))
  }

  /** What is on record for a mutex. */
  lemma {:induction false} RecordOf(start: Trace, ops: seq<Op>, m: Mutex)
    requires start.locks == map[] && Legal(ops)
    ensures var locks, held := Run(start, ops).locks, Held(ops);
      if Phantom(start, ops, m) then m in locks && locks[m] == 0
      else if Dropped(ops, m) then m !in locks
      else m in locks && m in held && locks[m] == held[m].holder
    ensures m in Held(ops) ==> Held(ops)[m].holder > 0
  {
    if ops != [] {
      RecordOf(start, ops[..|ops| - 1], m);
    }
  }

  function Holders(ops: seq<Op>): map<Mutex, Tid> {
    var held := Held(ops);
    map m | m in held :: held[m].holder
  }

  /** The holders on record are the real ones if and only if no recursive mutex is half unlocked and no
      check has found a mutex crowded since it was last unlocked. */
  lemma RecordsAreReal(start: Trace, ops: seq<Op>)
    requires start.locks == map[] && Legal(ops)
    ensures Run(start, ops).locks == Holders(ops) <==> forall m :: !Forgotten(ops, m) && !Phantom(start, ops, m)
  {
    var locks := Run(start, ops).locks;
    hide Run, Held, Dropped, Phantom, Legal;
    if m: Mutex :| Forgotten(ops, m) || Phantom(start, ops, m) {
      RecordOf(start, ops, m);
    } else {
      forall m: Mutex
        ensures (m in locks <==> m in Holders(ops)) && (m in locks ==> locks[m] == Holders(ops)[m])
      {
        RecordOf(start, ops, m);
        assert !Forgotten(ops, m) && !Phantom(start, ops, m);
        NotHeld(ops, m);
      }
      assert locks == Holders(ops);
    }
  }

  /** A mutex that is held has been locked. */
  lemma {:induction false} NotHeld(ops: seq<Op>, m: Mutex)
    ensures !Dropped(ops, m) ==> m in Held(ops)
  {
    if ops != [] {
      NotHeld(ops[..|ops| - 1], m);
    }
  }

  /** What the detector would know if it saw the mutexes and threads themselves. */
  function Really(tr: Trace, ops: seq<Op>): Trace {
    tr.(locks := Holders(ops), waits := Blocked(ops))
  }

  /** When no record is wrong, a deadlock is reported if and only if there is one. */
  lemma ReportIsExact(start: Trace, ops: seq<Op>, m: Mutex, t: Tid)
    requires start.locks == map[] && start.waits == map[]
    requires Legal(ops + [Wait(t, m)]) && Patient(ops + [Wait(t, m)])
    requires forall k :: !Forgotten(ops, k) && !Phantom(start, ops, k)
    requires forall u :: !Stale(ops + [Wait(t, m)], u)
    ensures var tr := Waiting(Run(start, ops), m, t);
      Deadlock(tr, m, t) <==> Deadlock(Really(tr, ops + [Wait(t, m)]), m, t)
  {
    var all := ops + [Wait(t, m)];
    assert all[..|all| - 1] == ops;
    RunSnoc(start, ops, Wait(t, m));
    RecordsAreReal(start, ops);
    WaitsAreBlocked(start, all);
    assert Held(all) == Held(ops);
    hide Run, Held, Patient, Stale;
    assert Really(Waiting(Run(start, ops), m, t), all) == Waiting(Run(start, ops), m, t);
  }

  /** Thread 1 locks the recursive mutex 10 twice and unlocks it once, and thread 2 holds mutex 20. */
  function HalfUnlocked(): seq<Op> {
    Locking(Locking(Locking([], 1, 10), 1, 10) + [Release(1, 10)], 2, 20)
  }

  lemma HalfUnlockedRecords()
    ensures var start, ops := Fresh({10}, 8), HalfUnlocked();
      && WellOrdered(start, ops) && Patient(ops) && Blocked(ops) == map[]
      && Run(start, ops).locks == map[20 := 2] && Run(start, ops).waits == map[]
      && Run(start, ops).recursives == {10} && Run(start, ops).limit == 8
      && !Crowded(Run(start, ops), 10)
  {
    var start, one := Fresh({10}, 8), Locking([], 1, 10);
    var two := Locking(one, 1, 10);
    var freed := two + [Release(1, 10)];
    assert freed[..|freed| - 1] == two;
    LockingSteps(start, [], 1, 10);
    LockingSteps(start, one, 1, 10);
    RunSnoc(start, two, Release(1, 10));
    hide Run, Locking;
    LockingSteps(start, freed, 2, 20);
  }

  lemma HalfUnlockedHolds()
    ensures var ops := HalfUnlocked();
      Legal(ops) && Held(ops) == map[10 := Hold(1, 1), 20 := Hold(2, 1)] && Dropped(ops, 10)
  {
    var one := Locking([], 1, 10);
    var two := Locking(one, 1, 10);
    var freed := two + [Release(1, 10)];
    var holding := freed + [Wait(2, 20)];
    assert freed[..|freed| - 1] == two && holding[..|holding| - 1] == freed;
    assert Locking(freed, 2, 20)[..|holding|] == holding;
    LockingHolds([], 1, 10);
    LockingHolds(one, 1, 10);
    LockingHolds(freed, 2, 20);
  }

  /** For example: thread 2 now waits for mutex 10. When thread 1 then locks mutex 20, no deadlock is reported
      although both threads are blocked for ever. */
  lemma MissedDeadlock()
    ensures
      var start, ops := Fresh({10}, 8), HalfUnlocked() + [Wait(2, 10)];
      var tr := Waiting(Run(start, ops), 20, 1);
      && Legal(ops) && WellOrdered(start, ops) && Patient(ops + [Wait(1, 20)]) && Forgotten(ops, 10)
      && !Deadlock(tr, 20, 1) && Deadlock(Really(tr, ops + [Wait(1, 20)]), 20, 1)
  {
    var start, ops := Fresh({10}, 8), HalfUnlocked() + [Wait(2, 10)];
    HalfUnlockedRecords();
    HalfUnlockedHolds();
    ThenBlocked(HalfUnlocked(), 2, 10);
    ThenBlocked(ops, 1, 20);
    RunSnoc(start, HalfUnlocked(), Wait(2, 10));
    assert WellOrdered(start, ops) by {
      assert ops[..|ops| - 1] == HalfUnlocked();
    }
    hide Run, HalfUnlocked, Held, Blocked, Patient, Legal, WellOrdered, Dropped;
    var tr := Waiting(Run(start, ops), 20, 1);
    var really := Really(tr, ops + [Wait(1, 20)]);
    assert tr.locks == map[20 := 2] && tr.waits == map[2 := 10, 1 := 20];
    assert really.locks == map[10 := 1, 20 := 2] && really.waits == map[2 := 10, 1 := 20];
    ComesToUnroll(tr, 20, 1, 8);
    HopOfFree(tr, 10, 1, 7);
    ComesToUnroll(really, 20, 1, 8);
    ComesToFirst(really, 10, 1, 7);
  }

  lemma ThenBlocked(ops: seq<Op>, t: Tid, m: Mutex)
    requires Legal(ops) && Patient(ops) && t !in Blocked(ops) && t > 0
    ensures var all := ops + [Wait(t, m)];
      && Legal(all) && Patient(all) && Blocked(all) == Blocked(ops)[t := m] && Held(all) == Held(ops)
      && forall k :: Dropped(all, k) == Dropped(ops, k)
  {
    var all := ops + [Wait(t, m)];
    assert all[..|all| - 1] == ops;
  }

  lemma LockingHolds(ops: seq<Op>, t: Tid, m: Mutex)
    requires Legal(ops) && t > 0 && (m in Held(ops) ==> Held(ops)[m].holder == t)
    ensures Legal(Locking(ops, t, m))
    ensures Held(Locking(ops, t, m))
            == Held(ops)[m := Hold(t, if m in Held(ops) then Held(ops)[m].depth + 1 else 1)]
  {
    var waiting, all := ops + [Wait(t, m)], Locking(ops, t, m);
    assert waiting[..|waiting| - 1] == ops && all[..|all| - 1] == waiting;
    assert Legal(waiting) && Held(waiting) == Held(ops);
  }

  /** Thread 1 holds the mutex and thread 2 tries `n` times to lock it. */
  function Tries(m: Mutex, n: nat): seq<Op> {
    if n == 0 then Locking([], 1, m) else Tries(m, n - 1) + [Try(2, m)]
  }

  lemma {:induction false} TriesAreCounted(limit: int, m: Mutex, n: nat)
    ensures
      var start, ops := Fresh({}, limit), Tries(m, n);
      var tr := Run(start, ops);
      WellOrdered(start, ops) && tr.locks == map[m := 1] && tr.limit == limit && tr.times == map[m := n]
  {
    if n == 0 {
      FirstLock(limit, m);
    } else {
      var start := Fresh({}, limit);
      TriesAreCounted(limit, m, n - 1);
      TriesStep(m, n);
      hide Run, Tries, WellOrdered;
      TryCounts(start, Tries(m, n - 1), m, n - 1);
    }
  }

  lemma FirstLock(limit: int, m: Mutex)
    ensures var start, ops := Fresh({}, limit), Locking([], 1, m);
      var tr := Run(start, ops);
      WellOrdered(start, ops) && tr.locks == map[m := 1] && tr.limit == limit && tr.times == map[m := 0]
  {
    LockingSteps(Fresh({}, limit), [], 1, m);
    hide Locking, WellOrdered;
  }

  lemma TryCounts(start: Trace, ops: seq<Op>, m: Mutex, n: nat)
    requires WellOrdered(start, ops) && Run(start, ops).locks == map[m := 1] && Run(start, ops).times == map[m := n]
    ensures WellOrdered(start, ops + [Try(2, m)])
    ensures var tr := Run(start, ops + [Try(2, m)]);
      tr.locks == map[m := 1] && tr.times == map[m := n + 1] && tr.limit == Run(start, ops).limit
  {
    RunSnoc(start, ops, Try(2, m));
    assert (ops + [Try(2, m)])[..|ops|] == ops;
    hide Run;
  }

  lemma TriesStep(m: Mutex, n: nat)
    requires n > 0
    ensures Tries(m, n) == Tries(m, n - 1) + [Try(2, m)]
  {
  }

  /** For example: after as many tries in vain as the limit, and the release, a check of the free mutex
      puts thread 0 on record as its holder, and the thread that then locks it is not recorded. */
  lemma CrowdedCheck(limit: nat, t: Tid, m: Mutex)
    requires t != 0
    ensures
      var start, ops := Fresh({}, limit), Tries(m, limit) + [Release(1, m)];
      var tr := Run(start, ops);
      var after := Inserted(Counted(Waiting(tr, m, t), m), m, t);
      && WellOrdered(start, ops) && Crowded(tr, m)
      && after.locks == map[m := 0] && m in Owned(after, t) && !Consistent(after)
  {
    var start, ops := Fresh({}, limit), Tries(m, limit) + [Release(1, m)];
    TriesAreCounted(limit, m, limit);
    assert ops[..|ops| - 1] == Tries(m, limit);
    hide Run, Tries;
    var before := Run(start, Tries(m, limit));
    assert Run(start, ops) == Unlocked(before, m, 1) by {
      RunSnoc(start, Tries(m, limit), Release(1, m));
    }
    var tr := Run(start, ops);
    assert tr.locks == map[] && Crowded(tr, m);
    var after := Inserted(Counted(Waiting(tr, m, t), m), m, t);
    assert m in Owned(after, t) && after.locks == map[m := 0];
  }

  lemma RunSnoc(start: Trace, ops: seq<Op>, op: Op)
    ensures Run(start, ops + [op]) == After(Run(start, ops), op)
  {
    assert (ops + [op])[..|ops + [op]| - 1] == ops;
  }

  /** MUTEX_UNLOCK unlocks before it takes the mutex off the record. If another thread locks in
      between, the maps disagree for good: the new holder's lock is forgotten. */
  lemma UnlockRace(t: Tid, u: Tid, m: Mutex)
    requires t != u
    ensures
      var before := Inserted(Fresh({}, 8), m, t);
      var after := Unlocked(Inserted(before, m, u), m, t);
      && Consistent(before) && !Consistent(Inserted(before, m, u))
      && m !in after.locks && m in Owned(after, u) && !Consistent(after)
  {
    var empty := Fresh({}, 8);
    assert Consistent(empty);
    InsertKeepsConsistent(empty, m, t);
    var before := Inserted(empty, m, t);
    InsertKeepsConsistent(before, m, u);
    var after := Unlocked(Inserted(before, m, u), m, t);
    assert m in Owned(after, u);
  }
}
