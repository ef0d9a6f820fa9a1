/** deps/common/seda/timer_stage.cpp: times, tokens and the queue of timers. */
module TimerQueues {

  const USEC_PER_SEC := 1000000

  /** A `timeval`. */
  datatype Time = Time(sec: int, usec: int)

  function Micros(t: Time): int {
    USEC_PER_SEC * t.sec + t.usec
  }

  predicate Normal(t: Time) {
    0 <= t.usec < USEC_PER_SEC
  }

  /** A second is a million microseconds. */
  lemma MillionMicros(t: Time)
    ensures Micros(Time(t.sec + 1, t.usec)) == Micros(t) + 1_000_000
    ensures Micros(Time(t.sec, t.usec + 1)) == Micros(t) + 1
    ensures Normal(t) <==> 0 <= t.usec <= 999_999
  {
  }

  predicate Before(s: Time, t: Time) {
    s.sec < t.sec || (s.sec == t.sec && s.usec < t.usec)
  }

  /** On normal times, TIMEVAL_LESS_THAN orders by microseconds. */
  lemma BeforeIsEarlier(s: Time, t: Time)
    requires Normal(s) && Normal(t)
    ensures Before(s, t) <==> Micros(s) < Micros(t)
    ensures s == t <==> Micros(s) == Micros(t)
  {
  }

  /** `sub_timeval`: exact, and normal when both arguments are. */
  method SubTimeval(s: Time, t: Time) returns (r: Time)
    ensures Micros(r) == Micros(s) - Micros(t) && 0 <= r.usec
    ensures Normal(s) && Normal(t) ==> Normal(r)
    ensures s.usec >= t.usec ==> r == Time(s.sec - t.sec, s.usec - t.usec)
  {
    r := Time(s.sec - t.sec, s.usec - t.usec);
    while r.usec < 0
      invariant Micros(r) == Micros(s) - Micros(t)
      invariant Normal(s) && Normal(t) ==> -USEC_PER_SEC < r.usec < USEC_PER_SEC
      invariant s.usec >= t.usec ==> r == Time(s.sec - t.sec, s.usec - t.usec)
      decreases -r.usec
    {
      r := Time(r.sec - 1, r.usec + USEC_PER_SEC);
    }
  }

  /** `add_timeval`. */
  method AddTimeval(s: Time, t: Time) returns (r: Time)
    ensures Micros(r) == Micros(s) + Micros(t) && r.usec < USEC_PER_SEC
    ensures 0 <= s.usec && 0 <= t.usec ==> Normal(r)
  {
    r := Time(s.sec + t.sec, s.usec + t.usec);
    while r.usec >= USEC_PER_SEC
      invariant Micros(r) == Micros(s) + Micros(t)
      invariant 0 <= s.usec && 0 <= t.usec ==> 0 <= r.usec
      decreases r.usec
    {
      r := Time(r.sec + 1, r.usec - USEC_PER_SEC);
    }
  }

  /** `realtime_to_monotonic`, given both clocks: the distance from now is kept. */
  method RealtimeToMonotonic(time: Time, realNow: Time, monoNow: Time) returns (r: Time)
    requires Normal(time) && Normal(realNow) && Normal(monoNow)
    ensures Normal(r) && Micros(r) - Micros(monoNow) == Micros(time) - Micros(realNow)
  {
    var offset := SubTimeval(time, realNow);
    r := AddTimeval(monoNow, offset);
  }

  /** The constructor of `TimerRegisterEvent` for a relative time. */
  function When(now: Time, relativeUsec: nat): (r: Time)
    requires Normal(now)
    ensures Normal(r) && Micros(r) == Micros(now) + relativeUsec
  {
    var usec := now.usec + relativeUsec;
    if usec >= USEC_PER_SEC then Time(now.sec + usec / USEC_PER_SEC, usec % USEC_PER_SEC) else Time(now.sec, usec)
  }

  datatype Token = Token(time: Time, nonce: nat)

  /** `TimerToken::operator<`. */
  predicate Less(a: Token, b: Token) {
    if Before(a.time, b.time) then true
    else if a.time == b.time then a.nonce < b.nonce
    else false
  }

  /** A strict total order, as the map of timers needs. */
  lemma LessIsTotalOrder(a: Token, b: Token, c: Token)
    ensures !Less(a, a)
    ensures Less(a, b) && Less(b, c) ==> Less(a, c)
    ensures Less(a, b) || a == b || Less(b, a)
    ensures !(Less(a, b) && Less(b, a))
  {
  }

  type Event = nat

  /** A timer in the queue. */
  datatype Entry = Entry(token: Token, cb: Event)

  predicate Sorted(q: seq<Entry>) {
    forall i, j :: 0 <= i < j < |q| ==> Less(q[i].token, q[j].token)
  }

  /** The insertion of a map ordered by `Less`. */
  function Insert(q: seq<Entry>, e: Entry): (r: seq<Entry>)
    ensures r != []
  {
    if q == [] || Less(e.token, q[0].token) then [e] + q
    else [q[0]] + Insert(q[1..], e)
  }

  lemma {:induction false} InsertMembers(q: seq<Entry>, e: Entry)
    ensures multiset(Insert(q, e)) == multiset(q) + multiset{e}
  {
    hide Less;
    if q == [] || Less(e.token, q[0].token) {
      assert multiset([e] + q) == multiset(q) + multiset{e};
    } else {
      InsertMembers(q[1..], e);
      assert q == [q[0]] + q[1..];
    }
  }

  /** What comes out of an insertion was there before or is the new entry. */
  lemma InsertedIs(q: seq<Entry>, e: Entry, j: nat)
    requires j < |Insert(q, e)|
    ensures Insert(q, e)[j] == e || Insert(q, e)[j] in q
  {
    InsertMembers(q, e);
    assert Insert(q, e)[j] in multiset(Insert(q, e));
  }

  lemma SortedCons(e: Entry, q: seq<Entry>)
    requires Sorted(q) && (q == [] || Less(e.token, q[0].token))
    ensures Sorted([e] + q)
  {
    hide Less;
    forall j | 0 <= j < |q| ensures Less(e.token, q[j].token) {
      if j > 0 {
        LessIsTotalOrder(e.token, q[0].token, q[j].token);
      }
    }
  }

  lemma {:induction false} InsertSorted(q: seq<Entry>, e: Entry)
    requires Sorted(q) && forall i :: 0 <= i < |q| ==> q[i].token != e.token
    ensures Sorted(Insert(q, e))
    ensures Insert(q, e)[0] == if q == [] || Less(e.token, q[0].token) then e else q[0]
  {
    if q == [] || Less(e.token, q[0].token) {
      SortedCons(e, q);
    } else {
      var rest := Insert(q[1..], e);
      hide Less;
      InsertSorted(q[1..], e);
      LessIsTotalOrder(q[0].token, e.token, e.token);
      InsertedIs(q[1..], e, 0);
      assert q == [q[0]] + q[1..];
      SortedCons(q[0], rest);
    }
  }

  /** What a check at `now` takes from the front of the queue, and what it leaves. */
  function Due(q: seq<Entry>, now: Time): (d: seq<Entry>)
    ensures |d| <= |q| && d == q[..|d|]
  {
    if q == [] || Before(now, q[0].token.time) then []
    else
      var rest := Due(q[1..], now);
      assert q == [q[0]] + q[1..];
      [q[0]] + rest
  }

  function Later(q: seq<Entry>, now: Time): (r: seq<Entry>)
    ensures Due(q, now) + r == q
  {
    q[|Due(q, now)|..]
  }

  /** In a sorted queue these are exactly the timers whose time has come, in order. */
  lemma {:induction false} DueExact(q: seq<Entry>, now: Time)
    requires Sorted(q)
    ensures forall i :: 0 <= i < |q| ==> (i < |Due(q, now)| <==> !Before(now, q[i].token.time))
    ensures Sorted(Due(q, now)) && Sorted(Later(q, now))
  {
    if q != [] && !Before(now, q[0].token.time) {
      DueExact(q[1..], now);
      var d, rest := Due(q, now), Due(q[1..], now);
      assert |d| == |rest| + 1;
      forall i | 0 <= i < |q| ensures i < |d| <==> !Before(now, q[i].token.time) {
        if i > 0 {
          assert q[1..][i - 1] == q[i];
        }
      }
    }
  }

  lemma {:induction false} DueStep(q: seq<Entry>, now: Time, n: nat)
    requires n <= |q| && n <= |Due(q, now)|
    ensures n < |q| && !Before(now, q[n].token.time) ==> n < |Due(q, now)|
    ensures n == |q| || Before(now, q[n].token.time) ==> n == |Due(q, now)|
  {
    if n > 0 {
      assert q != [] && !Before(now, q[0].token.time);
      DueStep(q[1..], now, n - 1);
      assert n < |q| ==> q[1..][n - 1] == q[n];
    }
  }

  function Erase(q: seq<Entry>, t: Token): seq<Entry> {
    if q == [] then [] else if q[0].token == t then q[1..] else [q[0]] + Erase(q[1..], t)
  }

  predicate Has(q: seq<Entry>, t: Token) {
    exists i :: 0 <= i < |q| && q[i].token == t
  }

  /** A cancelled timer leaves the queue; the others stay in order. */
  lemma {:induction false} EraseExact(q: seq<Entry>, i: nat)
    requires Sorted(q) && i < |q|
    ensures Erase(q, q[i].token) == q[..i] + q[i + 1..]
    ensures Sorted(Erase(q, q[i].token))
    ensures multiset(Erase(q, q[i].token)) + multiset{q[i]} == multiset(q)
  {
    EraseAt(q, i);
    assert q == q[..i] + [q[i]] + q[i + 1..];
  }

  lemma {:induction false} EraseAt(q: seq<Entry>, i: nat)
    requires Sorted(q) && i < |q|
    ensures Erase(q, q[i].token) == q[..i] + q[i + 1..]
  {
    if i > 0 {
      assert q[1..][i - 1] == q[i];
      assert Less(q[0].token, q[i].token);
      LessIsTotalOrder(q[0].token, q[i].token, q[0].token);
      EraseAt(q[1..], i - 1);
      assert q[..i] == [q[0]] + q[1..][..i - 1];
    }
  }

  lemma {:induction false} EraseAbsent(q: seq<Entry>, t: Token)
    requires !Has(q, t)
    ensures Erase(q, t) == q
  {
    if q != [] {
      assert q[0].token != t;
      forall j | 0 <= j < |q| - 1 ensures q[1..][j].token != t {
        assert q[1..][j] == q[j + 1];
      }
      EraseAbsent(q[1..], t);
    }
  }

  /** The fields that `timer_mutex_` guards. Each method is the body of one critical region. */
  class TimerStage {
    var queue: seq<Entry>
    var numEvents: int
    var shutdown: bool

    ghost predicate Valid()
      reads this
    {
      Sorted(queue) && numEvents == |queue|
    }

    constructor ()
      ensures Valid() && queue == [] && !shutdown
    {
      queue, numEvents, shutdown := [], 0, false;
    }

    /** `register_timer` while it holds the mutex: whether the timer went to the head. */
    method RegisterTimer(tt: Token, cb: Event) returns (checkTimer: bool)
      requires Valid() && !Has(queue, tt)
      modifies this
      ensures Valid() && queue == Insert(old(queue), Entry(tt, cb)) && shutdown == old(shutdown)
      ensures checkTimer <==> forall i :: 0 <= i < |old(queue)| ==> Less(tt, old(queue)[i].token)
    {
      ghost var q := queue;
      InsertSorted(queue, Entry(tt, cb));
      InsertMembers(queue, Entry(tt, cb));
      queue := Insert(queue, Entry(tt, cb));
      assert |queue| == |multiset(queue)| == |q| + 1;
      numEvents := numEvents + 1;
      checkTimer := queue[0] == Entry(tt, cb);
      if checkTimer && q != [] {
        assert q[0].token != tt;
        forall i | 0 <= i < |q| ensures Less(tt, q[i].token) {
          LessIsTotalOrder(tt, q[0].token, q[i].token);
        }
      }
      if q != [] && !checkTimer {
        assert !Less(tt, q[0].token);
      }
    }

    /** `cancel_timer`. */
    method CancelTimer(tt: Token) returns (success: bool)
      requires Valid()
      modifies this
      ensures Valid() && queue == Erase(old(queue), tt) && shutdown == old(shutdown)
      ensures success <==> Has(old(queue), tt)
    {
      success := Has(queue, tt);
      if success {
        ghost var i :| 0 <= i < |queue| && queue[i].token == tt;
        EraseExact(queue, i);
        queue := Erase(queue, tt);
        numEvents := numEvents - 1;
      } else {
        EraseAbsent(queue, tt);
      }
    }

    /** One turn of the loop of `check_timer` up to the decision what to do next: the events that
        become done, in order. */
    method FireDue(now: Time) returns (done: seq<Event>)
      requires Valid()
      modifies this
      ensures Valid() && queue == Later(old(queue), now) && shutdown == old(shutdown)
      ensures done == Callbacks(Due(old(queue), now))
    {
      ghost var q := queue;
      DueExact(queue, now);
      hide Less, Before, Sorted, Due;
      var last := 0;
      var doneEvents := [];
      while last < |queue|
        invariant last <= |queue| && queue == q && last <= |Due(q, now)|
        invariant doneEvents == Callbacks(q[..last])
        invariant numEvents == |q| && shutdown == old(shutdown)
      {
        DueStep(q, now, last);
        if Before(now, queue[last].token.time) {
          break;
        }
        CallbacksSnoc(q[..last], q[last]);
        assert q[..last + 1] == q[..last] + [q[last]];
        doneEvents := doneEvents + [queue[last].cb];
        last := last + 1;
      }
      DueStep(q, now, last);
      queue := queue[last..];
      done := [];
      while doneEvents != []
        invariant done + doneEvents == Callbacks(Due(q, now))
        invariant numEvents - |doneEvents| == |queue| && queue == Later(q, now) && shutdown == old(shutdown)
        decreases |doneEvents|
      {
        assert doneEvents == [doneEvents[0]] + doneEvents[1..];
        assert done + doneEvents == (done + [doneEvents[0]]) + doneEvents[1..];
        done := done + [doneEvents[0]];
        numEvents := numEvents - 1;
        doneEvents := doneEvents[1..];
      }
    }
  }

  function Callbacks(q: seq<Entry>): (r: seq<Event>)
    ensures |r| == |q|
  {
    seq(|q|, i requires 0 <= i < |q| => q[i].cb)
  }

  lemma CallbacksSnoc(q: seq<Entry>, e: Entry)
    ensures Callbacks(q + [e]) == Callbacks(q) + [e.cb]
  {
  }
}
