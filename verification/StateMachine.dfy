/** The device state machine, its table, and the closed form of every run. */
module StateMachines {

  const IDLE := 0
  const DISCOVERY := 1
  const POPULATE := 2
  const ACTIVE := 3
  const INACTIVE := 4
  const FAILED := 5

  const CONNECT := 0
  const DOWNLOAD := 1
  const LOADED := 2
  const ADMIN_DOWN := 3
  const ADMIN_UP := 4
  const ERROR := 5

  /** States and events are numbers, as in the source: its `isReachable` switches on the event ERROR where it
      means the state FAILED, which works because both are 5. */
  type State = s: nat | s <= 5
  type Event = e: nat | e <= 5

  const IDLE_TRANSITION: seq<State> := [DISCOVERY, IDLE, IDLE, IDLE, IDLE, IDLE]
  const DISCOVERY_TRANSITION: seq<State> := [DISCOVERY, POPULATE, DISCOVERY, DISCOVERY, DISCOVERY, FAILED]
  const POPULATE_TRANSITION: seq<State> := [DISCOVERY, POPULATE, ACTIVE, POPULATE, POPULATE, FAILED]
  const ACTIVE_TRANSITION: seq<State> := [DISCOVERY, ACTIVE, ACTIVE, INACTIVE, ACTIVE, FAILED]
  const INACTIVE_TRANSITION: seq<State> := [DISCOVERY, INACTIVE, INACTIVE, INACTIVE, ACTIVE, FAILED]
  const FAILED_TRANSITION: seq<State> := [DISCOVERY, FAILED, FAILED, FAILED, FAILED, FAILED]

  const TRANSITION_TABLE: seq<seq<State>> := [
    IDLE_TRANSITION, DISCOVERY_TRANSITION, POPULATE_TRANSITION,
    ACTIVE_TRANSITION, INACTIVE_TRANSITION, FAILED_TRANSITION
  ]

  function Next(s: State, e: Event): State { TRANSITION_TABLE[s][e] }

  /** The state after a run of events. */
  function RunFrom(s: State, events: seq<Event>): State
    decreases |events|
  {
    if events == [] then s else RunFrom(Next(s, events[0]), events[1..])
  }

  lemma {:induction false} RunSplit(s: State, a: seq<Event>, b: seq<Event>)
    ensures RunFrom(s, a + b) == RunFrom(RunFrom(s, a), b)
    decreases |a|
  {
    if a == [] {
      assert a + b == b;
    } else {
      RunSplit(Next(s, a[0]), a[1..], b);
      assert (a + b)[1..] == a[1..] + b;
    }
  }

  // ---------- The closed form ----------

  /** The events after the first occurrence of `e`. */
  function AfterFirst(events: seq<Event>, e: Event): seq<Event>
    requires e in events
  {
    if events[0] == e then events[1..] else AfterFirst(events[1..], e)
  }

  lemma {:induction false} AfterFirstMeaning(before: seq<Event>, e: Event, after: seq<Event>)
    requires e !in before
    ensures AfterFirst(before + [e] + after, e) == after
  {
    var events := before + [e] + after;
    assert events[|before|] == e;
    if before == [] {
      assert events[1..] == after;
    } else {
      AfterFirstMeaning(before[1..], e, after);
      assert events[1..] == before[1..] + [e] + after;
      assert events[0] == before[0];
    }
  }

  /** The events after the last occurrence of `e`, all of them when there is none. */
  function AfterLast(events: seq<Event>, e: Event): (rest: seq<Event>)
    ensures e !in rest && |rest| <= |events| && rest == events[|events| - |rest|..]
    ensures e in events ==> |rest| < |events| && events[|events| - |rest| - 1] == e
  {
    if events == [] then []
    else if events[|events| - 1] == e then []
    else AfterLast(events[..|events| - 1], e) + [events[|events| - 1]]
  }

  /** The last administrative event is ADMIN_DOWN. */
  ghost predicate AdminDown(events: seq<Event>) {
    exists i :: 0 <= i < |events| && events[i] == ADMIN_DOWN
                && forall j :: i < j < |events| ==> events[j] != ADMIN_UP
  }

  /** The device is administratively down: of the events after the load that completes the first
      download, the last administrative one is ADMIN_DOWN. */
  ghost predicate Suspended(events: seq<Event>) {
    && DOWNLOAD in events
    && var downloaded := AfterFirst(events, DOWNLOAD);
      LOADED in downloaded && AdminDown(AfterFirst(downloaded, LOADED))
  }

  /** The state as a function of the events after the last CONNECT. */
  ghost function SinceConnect(events: seq<Event>): State {
    if ERROR in events then FAILED
    else if DOWNLOAD !in events then DISCOVERY
    else if LOADED !in AfterFirst(events, DOWNLOAD) then POPULATE
    else if Suspended(events) then INACTIVE
    else ACTIVE
  }

  ghost function ClosedForm(events: seq<Event>): State {
    if CONNECT !in events then IDLE else SinceConnect(AfterLast(events, CONNECT))
  }

  lemma {:induction false} StaysWithout(s: State, events: seq<Event>, e: Event)
    requires e !in events
    requires (s == IDLE && e == CONNECT)
          || (ERROR !in events && CONNECT !in events
              && ((s == DISCOVERY && e == DOWNLOAD) || (s == POPULATE && e == LOADED)))
    ensures RunFrom(s, events) == s
  {
    if events != [] {
      assert events[0] != e;
      StaysWithout(s, events[1..], e);
    }
  }

  lemma {:induction false} FailedStays(events: seq<Event>)
    requires CONNECT !in events
    ensures RunFrom(FAILED, events) == FAILED
  {
    if events != [] {
      FailedStays(events[1..]);
    }
  }

  lemma {:induction false} ErrorFails(s: State, events: seq<Event>)
    requires s != IDLE && CONNECT !in events && ERROR in events
    ensures RunFrom(s, events) == FAILED
    decreases |events|
  {
    if events[0] == ERROR {
      FailedStays(events[1..]);
    } else {
      ErrorFails(Next(s, events[0]), events[1..]);
    }
  }

  lemma {:induction false} AdminDecides(s: State, events: seq<Event>)
    requires s == ACTIVE || s == INACTIVE
    requires CONNECT !in events && ERROR !in events
    ensures RunFrom(s, events)
         == if AdminDown(events) || (s == INACTIVE && ADMIN_UP !in events) then INACTIVE else ACTIVE
    decreases |events|
  {
    if events != [] {
      var rest := events[1..];
      AdminDecides(Next(s, events[0]), rest);
      if AdminDown(rest) {
        var i :| 0 <= i < |rest| && rest[i] == ADMIN_DOWN && forall j :: i < j < |rest| ==> rest[j] != ADMIN_UP;
        assert events[i + 1] == ADMIN_DOWN;
        forall j | i + 1 < j < |events| ensures events[j] != ADMIN_UP { assert events[j] == rest[j - 1]; }
      }
      if AdminDown(events) {
        var i :| 0 <= i < |events| && events[i] == ADMIN_DOWN && forall j :: i < j < |events| ==> events[j] != ADMIN_UP;
        if i > 0 {
          assert rest[i - 1] == ADMIN_DOWN;
        } else {
          assert ADMIN_UP !in rest;
        }
      }
      if events[0] == ADMIN_DOWN && ADMIN_UP !in rest {
        assert forall j :: 0 < j < |events| ==> events[j] == rest[j - 1];
        assert AdminDown(events);
      }
    }
  }

  /** Nothing happens before the awaited event, so the run continues right after it. */
  lemma {:induction false} RunFromFirst(s: State, events: seq<Event>, e: Event)
    requires e in events && CONNECT !in events && ERROR !in events
    requires (s == DISCOVERY && e == DOWNLOAD) || (s == POPULATE && e == LOADED)
    ensures var rest := AfterFirst(events, e);
      RunFrom(s, events) == RunFrom(Next(s, e), rest) && CONNECT !in rest && ERROR !in rest
  {
    if events[0] != e {
      RunFromFirst(s, events[1..], e);
    }
  }

  lemma PopulateClosedForm(events: seq<Event>)
    requires CONNECT !in events && ERROR !in events
    ensures RunFrom(POPULATE, events)
         == if LOADED !in events then POPULATE
            else if AdminDown(AfterFirst(events, LOADED)) then INACTIVE else ACTIVE
  {
    if LOADED !in events {
      StaysWithout(POPULATE, events, LOADED);
    } else {
      RunFromFirst(POPULATE, events, LOADED);
      AdminDecides(ACTIVE, AfterFirst(events, LOADED));
    }
  }

  /** Runs from DISCOVERY without another CONNECT. */
  lemma DiscoveryClosedForm(events: seq<Event>)
    requires CONNECT !in events
    ensures RunFrom(DISCOVERY, events) == SinceConnect(events)
  {
    if ERROR in events {
      ErrorFails(DISCOVERY, events);
    } else if DOWNLOAD !in events {
      StaysWithout(DISCOVERY, events, DOWNLOAD);
    } else {
      RunFromFirst(DISCOVERY, events, DOWNLOAD);
      PopulateClosedForm(AfterFirst(events, DOWNLOAD));
    }
  }

  /** The state after any run of events from IDLE. */
  lemma RunClosedForm(events: seq<Event>)
    ensures RunFrom(IDLE, events) == ClosedForm(events)
  {
    if CONNECT !in events {
      StaysWithout(IDLE, events, CONNECT);
    } else {
      var rest := AfterLast(events, CONNECT);
      var k := |events| - |rest| - 1;
      assert events == events[..k] + ([CONNECT] + rest);
      RunSplit(IDLE, events[..k], [CONNECT] + rest);
      assert ([CONNECT] + rest)[1..] == rest;
      assert Next(RunFrom(IDLE, events[..k]), CONNECT) == DISCOVERY;
      DiscoveryClosedForm(rest);
    }
  }

  /** What a reachability query answers in each state; only IDLE asks the network. */
  function Reachability(s: State, probe: bool): bool {
    if s == IDLE then probe
    else if s == DISCOVERY || s == POPULATE || s == ACTIVE then true
    else false
  }

  /** Once a run has a CONNECT, reachability ignores the network: the device is reachable exactly when
      no ERROR followed the last CONNECT and it is not administratively down. */
  lemma ReachableExactlyWhen(events: seq<Event>, probe: bool)
    ensures Reachability(RunFrom(IDLE, events), probe)
       <==> if CONNECT !in events then probe
            else var since := AfterLast(events, CONNECT); ERROR !in since && !Suspended(since)
  {
    RunClosedForm(events);
  }

  class RestconfDeviceStateMachine {
    var currentState: State
    /** The events received so far. */
    ghost var history: seq<Event>

    ghost predicate Valid()
      reads this
    {
      currentState == RunFrom(IDLE, history)
    }

    constructor ()
      ensures Valid() && history == [] && currentState == IDLE
    {
      currentState, history := IDLE, [];
    }

    method NextState(message: Event)
      requires Valid()
      modifies this
      ensures Valid() && history == old(history) + [message] && currentState == Next(old(currentState), message)
    {
      currentState := TRANSITION_TABLE[currentState][message];
      history := history + [message];
      RunSplit(IDLE, old(history), [message]);
    }

    method Connect()
      requires Valid()
      modifies this
      ensures Valid() && history == old(history) + [CONNECT] && currentState == DISCOVERY
    {
      NextState(CONNECT);
    }

    method Download()
      requires Valid()
      modifies this
      ensures Valid() && history == old(history) + [DOWNLOAD]
      ensures currentState == if old(currentState) == DISCOVERY then POPULATE else old(currentState)
    {
      NextState(DOWNLOAD);
    }

    method Loaded()
      requires Valid()
      modifies this
      ensures Valid() && history == old(history) + [LOADED]
      ensures currentState == if old(currentState) == POPULATE then ACTIVE else old(currentState)
    {
      NextState(LOADED);
    }

    method AdminStatusDown()
      requires Valid()
      modifies this
      ensures Valid() && history == old(history) + [ADMIN_DOWN]
      ensures currentState == if old(currentState) == ACTIVE then INACTIVE else old(currentState)
    {
      NextState(ADMIN_DOWN);
    }

    method AdminStatusUp()
      requires Valid()
      modifies this
      ensures Valid() && history == old(history) + [ADMIN_UP]
      ensures currentState == if old(currentState) == INACTIVE then ACTIVE else old(currentState)
    {
      NextState(ADMIN_UP);
    }

    method Error()
      requires Valid()
      modifies this
      ensures Valid() && history == old(history) + [ERROR]
      ensures currentState == if old(currentState) == IDLE then IDLE else FAILED
    {
      NextState(ERROR);
    }
  }
}
