/** deps/common/seda/stage.cpp.

    A stage is a queue of events, a connection flag, and a count of event references that keeps
    the stage attached to its pool. Every function below is what one critical section of
    `list_mutex_` does to a stage; class `Stage` is the object whose methods run those sections. */
module SedaStage {

  type Event = int

  /** The fields of a stage. `added`, `removed`, `released` and `late` are history: the events
      ever added, the events ever removed, the number of references given back, and the events
      added since the stage was last disconnected, which have not been scheduled yet. */
  datatype StageState = StageState(
    queue: seq<Event>,
    connected: bool,
    ref: int,
    hasPool: bool,
    added: seq<Event>,
    removed: seq<Event>,
    released: nat,
    late: seq<Event>)

  const FRESH := StageState([], false, 0, false, [], [], 0, [])

  /** The locked part of `add_event`. */
  function Push(s: StageState, e: Event): StageState {
    var t := s.(queue := s.queue + [e], added := s.added + [e]);
    if s.connected then t.(ref := s.ref + 1) else t.(late := s.late + [e])
  }

  /** `remove_event`. */
  function Pop(s: StageState): StageState
    requires s.queue != []
  {
    s.(queue := s.queue[1..], removed := s.removed + [s.queue[0]])
  }

  /** `release_event`, apart from the signal. */
  function Unref(s: StageState): StageState {
    s.(ref := s.ref - 1, released := s.released + 1)
  }

  /** `set_pool` followed by the locked part of `connect`. */
  function Attach(s: StageState): StageState {
    s.(hasPool := true, connected := true, ref := |s.queue|, late := [])
  }

  /** `disconnect` up to its wait loop. */
  function Close(s: StageState): StageState {
    s.(connected := false)
  }

  /** `disconnect` after its wait loop. */
  function Detach(s: StageState): StageState {
    s.(hasPool := false)
  }

  /** The stage object. `disconnectSignals` counts the signals sent on `disconnect_cond_`. */
  class Stage {
    var eventList: seq<Event>
    var connected: bool
    var eventRef: int
    var hasPool: bool
    var disconnectSignals: nat
    ghost var added: seq<Event>
    ghost var removed: seq<Event>
    ghost var released: nat
    ghost var late: seq<Event>

    ghost function View(): StageState
      reads this
    {
      StageState(eventList, connected, eventRef, hasPool, added, removed, released, late)
    }

    constructor ()
      ensures View() == FRESH && disconnectSignals == 0
    {
      eventList, connected, eventRef, hasPool, disconnectSignals := [], false, 0, false, 0;
      added, removed, released, late := [], [], 0, [];
    }

    /** Returns how many times the caller must now call `schedule`. */
    method Connect() returns (backlog: nat)
      requires !connected
      modifies this
      ensures View() == Attach(old(View())) && backlog == |old(eventList)|
      ensures disconnectSignals == old(disconnectSignals)
    {
      hasPool := true;
      backlog := |eventList|;
      eventRef := backlog;
      connected := true;
      late := [];
    }

    /** Returns whether the caller must now call `schedule`. */
    method AddEvent(e: Event) returns (mustSchedule: bool)
      modifies this
      ensures View() == Push(old(View()), e) && mustSchedule == old(connected)
      ensures disconnectSignals == old(disconnectSignals)
    {
      eventList := eventList + [e];
      added := added + [e];
      if connected {
        eventRef := eventRef + 1;
      } else {
        late := late + [e];
      }
      mustSchedule := connected;
    }

    method RemoveEvent() returns (e: Event)
      requires eventList != []
      modifies this
      ensures View() == Pop(old(View())) && e == old(eventList)[0]
      ensures disconnectSignals == old(disconnectSignals)
    {
      e := eventList[0];
      eventList := eventList[1..];
      removed := removed + [e];
    }

    method ReleaseEvent()
      modifies this
      ensures View() == Unref(old(View()))
      ensures disconnectSignals ==
              old(disconnectSignals) + if !connected && eventRef == 0 then 1 else 0
    {
      eventRef := eventRef - 1;
      released := released + 1;
      if !connected && eventRef == 0 {
        disconnectSignals := disconnectSignals + 1;
      }
    }

    /** `disconnect` up to the first test of its wait loop: returns whether it goes on to wait. */
    method Disconnect() returns (wait: bool)
      requires connected
      modifies this
      ensures wait == (old(eventRef) > 0)
      ensures View() == if wait then Close(old(View())) else Detach(Close(old(View())))
      ensures disconnectSignals == old(disconnectSignals)
    {
      connected := false;
      wait := eventRef > 0;
      if !wait {
        hasPool := false;
      }
    }

    /** `disconnect` after a wake-up in its wait loop: it waits again or lets go of the pool. */
    method ResumeDisconnect() returns (wait: bool)
      requires !connected
      modifies this
      ensures wait == (old(eventRef) > 0)
      ensures View() == if wait then old(View()) else Detach(old(View()))
      ensures disconnectSignals == old(disconnectSignals)
    {
      wait := eventRef > 0;
      if !wait {
        hasPool := false;
      }
    }
  }
}
