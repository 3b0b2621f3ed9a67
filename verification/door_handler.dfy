/**
 The handler of one switch: its connection, the timer that tries to get it back, and the doors that
 requests are handed to.
 */
module DoorHandlers {
  const S2MS := 1000
  const RECONN_START_PERIOD_INTERVAL := 2
  const RECONN_MAX_PERIOD_INTERVAL := 256

  /** The connection and its timer: the flags, the interval in seconds, and the period set on the timer
      in milliseconds. */
  datatype Link = Link(connected: bool, timerOn: bool, interval: int, period: int)

  /** What a handler is at first; the period is that of the timer's constructor. */
  const FRESH := Link(false, false, RECONN_START_PERIOD_INTERVAL, RECONN_START_PERIOD_INTERVAL)

  function TimerStarted(l: Link): Link {
    l.(timerOn := true, interval := RECONN_START_PERIOD_INTERVAL,
       period := RECONN_START_PERIOD_INTERVAL * S2MS)
  }

  /** connect, when the attempt to reach the switch succeeds or not. */
  function Connected(l: Link, ok: bool): Link {
    if ok then l.(connected := true) else TimerStarted(l.(connected := false))
  }

  function Doubled(interval: int): int {
    if interval * RECONN_START_PERIOD_INTERVAL < RECONN_MAX_PERIOD_INTERVAL + 1
    then interval * RECONN_START_PERIOD_INTERVAL else interval
  }

  function TimerFired(l: Link, ok: bool): Link {
    if ok then Link(true, false, RECONN_START_PERIOD_INTERVAL, 0)
    else l.(connected := false, interval := Doubled(l.interval), period := Doubled(l.interval) * S2MS)
  }

  function Failed(l: Link): Link {
    if l.timerOn then l.(connected := false) else TimerStarted(l.(connected := false))
  }

  // ----- runs -----

  /** What happens to a handler after its first connect. */
  datatype Event = TimerFires(ok: bool) | IoFails

  function Happens(l: Link, e: Event): Link {
    match e
    case TimerFires(ok) => TimerFired(l, ok)
    case IoFails => Failed(l)
  }

  function AfterEvents(l: Link, events: seq<Event>): Link {
    if events == [] then l else Happens(AfterEvents(l, events[..|events| - 1]), events[|events| - 1])
  }

  /** The timer fires only while it is on. */
  predicate Possible(l: Link, events: seq<Event>) {
    events == [] ||
    var before := events[..|events| - 1];
    Possible(l, before) && (events[|events| - 1].TimerFires? ==> AfterEvents(l, before).timerOn)
  }

  lemma {:induction false} PossibleBefore(l: Link, events: seq<Event>, i: nat)
    requires Possible(l, events) && i <= |events|
    ensures Possible(l, events[..i])
  {
    if i < |events| {
      assert events[..|events| - 1][..i] == events[..i];
      PossibleBefore(l, events[..|events| - 1], i);
    } else {
      assert events[..i] == events;
    }
  }

  /** The last of these events, if any, was an attempt that reached the switch. */
  predicate ReachedLast(events: seq<Event>, before: bool) {
    if events == [] then before else events[|events| - 1] == TimerFires(true)
  }

  /** How many attempts of the timer have failed since one did not, or since the start, when `before` had
      failed by then. */
  function FailedSince(events: seq<Event>, before: nat): nat {
    if events == [] then before
    else
      var k := FailedSince(events[..|events| - 1], before);
      match events[|events| - 1]
      case TimerFires(ok) => if ok then 0 else k + 1
      case IoFails => k
  }

  function Pow2(n: nat): int {
    if n == 0 then 1 else 2 * Pow2(n - 1)
  }

  function Min(a: nat, b: nat): nat {
    if a < b then a else b
  }

  /** The interval after `k` failed attempts: it doubles up to the eighth power of two. */
  function Interval(k: nat): int {
    Pow2(Min(k + 1, 8))
  }

  /** Either connected, or trying again after the right time, which is set on the timer in milliseconds. */
  ghost predicate Sound(l: Link, failures: nat) {
    && (l.connected <==> !l.timerOn)
    && (l.timerOn ==> l.interval == Interval(failures) && l.period == 1000 * l.interval)
    && (l.connected ==> failures == 0)
  }

  lemma DoubledInterval(k: nat)
    ensures Doubled(Interval(k)) == Interval(k + 1)
    ensures Interval(0) == RECONN_START_PERIOD_INTERVAL
    ensures 2 <= Interval(k) <= RECONN_MAX_PERIOD_INTERVAL
  {
    assert Pow2(1) == 2 && Pow2(2) == 4 && Pow2(3) == 8 && Pow2(4) == 16;
    assert Pow2(5) == 32 && Pow2(6) == 64 && Pow2(7) == 128 && Pow2(8) == 256;
    if k < 8 {
      assert k == 0 || k == 1 || k == 2 || k == 3 || k == 4 || k == 5 || k == 6 || k == 7;
    }
  }

  lemma {:induction false} RunIsSound(l: Link, events: seq<Event>, failures: nat)
    requires Possible(l, events) && Sound(l, failures)
    ensures Sound(AfterEvents(l, events), FailedSince(events, failures))
    ensures AfterEvents(l, events).connected == ReachedLast(events, l.connected)
  {
    if events != [] {
      var before := events[..|events| - 1];
      RunIsSound(l, before, failures);
      DoubledInterval(FailedSince(before, failures));
      DoubledInterval(0);
    }
  }

  /** Main result: whatever happens after the first connect, the handler is connected exactly if the last
      thing that happened was an attempt that reached the switch; otherwise its timer is on, with an
      interval of two to the power of k + 1 or 8, whichever is less, when k attempts have failed. */
  lemma ConnectedOrTrying(ok: bool, events: seq<Event>)
    requires Possible(Connected(FRESH, ok), events)
    ensures var l := AfterEvents(Connected(FRESH, ok), events);
      && l.connected == ReachedLast(events, ok) && l.timerOn == !l.connected
      && (l.timerOn ==> l.interval == Interval(FailedSince(events, 0)) && l.period == 1000 * l.interval)
  {
    DoubledInterval(0);
    RunIsSound(Connected(FRESH, ok), events, 0);
  }

  /** Which runs there are: the timer fires only when the last thing that happened was not a success. */
  lemma {:induction false} PossibleIff(ok: bool, events: seq<Event>)
    ensures Possible(Connected(FRESH, ok), events) <==>
      forall i :: 0 <= i < |events| && events[i].TimerFires? ==> !ReachedLast(events[..i], ok)
  {
    if events != [] {
      var before := events[..|events| - 1];
      PossibleIff(ok, before);
      assert forall i :: 0 <= i < |before| ==> before[..i] == events[..i];
      if Possible(Connected(FRESH, ok), before) {
        ConnectedOrTrying(ok, before);
      }
    }
  }

  /** A further connect keeps that if and only if it fails or the timer is off. */
  lemma ConnectAgain(l: Link, ok: bool, failures: nat)
    requires Sound(l, failures)
    ensures (exists k: nat :: Sound(Connected(l, ok), k)) <==> !(ok && l.timerOn)
  {
    DoubledInterval(0);
    if !ok {
      assert Sound(Connected(l, ok), 0);
    } else if !l.timerOn {
      assert Sound(Connected(l, ok), failures);
    }
  }

  // ----- doors -----

  /** The controller of a door: the relay channel that it commands, whether its worker runs, and the
      tasks that it was given. */
  datatype Controller = Controller(channel: nat, started: bool, tasks: seq<int>)

  /** A controller that has only been constructed. */
  const UNUSED := Controller(1, false, [])

  type Doors = map<nat, Controller>

  ghost predicate IsGreatest(keys: set<nat>, key: nat) {
    key in keys && forall k :: k in keys ==> k <= key
  }

  lemma {:induction false} GreatestExists(keys: set<nat>) returns (m: nat)
    requires keys != {}
    ensures IsGreatest(keys, m)
  {
    var one :| one in keys;
    var rest := keys - {one};
    assert forall k :: k in keys ==> k == one || k in rest;
    m := one;
    if rest != {} {
      var other := GreatestExists(rest);
      m := if one < other then other else one;
    }
  }

  /** The key of the controller that `crbegin` finds. */
  ghost function LastKey(doors: Doors): (key: nat)
    requires doors.Keys != {}
    ensures IsGreatest(doors.Keys, key)
  {
    assert exists key :: IsGreatest(doors.Keys, key) by {
      var m := GreatestExists(doors.Keys);
    }
    var key :| IsGreatest(doors.Keys, key);
    key
  }

  /** openDoor on a connected switch: a door that is not known gets a controller, and then the last
      controller of the map is initialised for its channel, started and given the request. */
  ghost function DoorOpened(doors: Doors, channel: nat, closeAfter: int): Doors {
    if channel in doors then
      var c := doors[channel];
      doors[channel := c.(tasks := c.tasks + [closeAfter])]
    else
      var more := doors[channel := UNUSED];
      assert channel in more.Keys;
      var last := LastKey(more);
      more[last := Controller(channel, true, more[last].tasks + [closeAfter])]
  }

  /** Every controller commands its own door and works. */
  ghost predicate Routed(doors: Doors) {
    forall k :: k in doors ==> doors[k].channel == k && doors[k].started
  }

  /** The door is known, or comes after all that are. */
  ghost predicate ComesLast(known: set<nat>, channel: nat) {
    channel in known || forall k :: k in known ==> k < channel
  }

  /** Some door that is not the last one has a controller whose worker does not run. */
  ghost predicate Broken(doors: Doors) {
    exists k, j :: k in doors && j in doors && k < j && !doors[k].started
  }

  /** A request keeps every door with its own controller if and only if its door is known or comes after
      all that are; otherwise the controller of the last door is turned over to the new one, whose own
      is never started. */
  lemma RoutedIffLast(doors: Doors, channel: nat, closeAfter: int)
    requires Routed(doors)
    ensures var next := DoorOpened(doors, channel, closeAfter);
      && next.Keys == doors.Keys + {channel}
      && (ComesLast(doors.Keys, channel) ==> Routed(next))
      && (!ComesLast(doors.Keys, channel) ==> Broken(next))
  {
    if channel !in doors {
      var more := doors[channel := UNUSED];
      assert channel in more.Keys;
      var last := LastKey(more);
      var next := DoorOpened(doors, channel, closeAfter);
      assert next == more[last := Controller(channel, true, more[last].tasks + [closeAfter])];
      if ComesLast(doors.Keys, channel) {
        assert last == channel;
      } else {
        var k :| k in doors.Keys && channel <= k;
        assert k in more.Keys;
        assert last in doors && channel < last && !next[channel].started;
      }
    }
  }

  /** Who gets a request: a known door, behind what it was given before; a new door that comes last, as its
      first; and otherwise the last door, whose controller then commands the new one. Nobody else does. */
  lemma RequestGoesTo(doors: Doors, channel: nat, closeAfter: int, k: nat)
    ensures var next := DoorOpened(doors, channel, closeAfter);
      && (k in next <==> k in doors || k == channel)
      && (channel in doors ==> next[channel] == doors[channel].(tasks := doors[channel].tasks + [closeAfter]))
      && (channel !in doors && ComesLast(doors.Keys, channel) ==>
            next[channel] == Controller(channel, true, [closeAfter]))
      && (channel !in doors && !ComesLast(doors.Keys, channel) ==>
            && next[channel] == Controller(1, false, [])
            && (IsGreatest(doors.Keys, k) ==> next[k] == Controller(channel, true, doors[k].tasks + [closeAfter])))
      && (k in doors && k != channel && (ComesLast(doors.Keys, channel) || !IsGreatest(doors.Keys, k)) ==>
            next[k] == doors[k])
  {
    if channel !in doors {
      var more := doors[channel := UNUSED];
      assert channel in more.Keys;
      var last := LastKey(more);
      var next := DoorOpened(doors, channel, closeAfter);
      assert next == more[last := Controller(channel, true, more[last].tasks + [closeAfter])];
      if ComesLast(doors.Keys, channel) {
        assert last == channel;
        assert next[channel] == Controller(channel, true, [closeAfter]);
      } else {
        var j :| j in doors.Keys && channel <= j;
        assert j in more.Keys && last in doors.Keys;
        assert forall i :: i in doors.Keys ==> i in more.Keys;
        assert IsGreatest(doors.Keys, last);
      }
    }
  }

  /** A controller that was not started when it was new is never started. */
  lemma BrokenStays(doors: Doors, channel: nat, closeAfter: int)
    requires Broken(doors)
    ensures Broken(DoorOpened(doors, channel, closeAfter))
  {
    var k, j :| k in doors && j in doors && k < j && !doors[k].started;
    var next := DoorOpened(doors, channel, closeAfter);
    if channel in doors {
      assert next == doors[channel := doors[channel].(tasks := doors[channel].tasks + [closeAfter])];
    } else {
      var more := doors[channel := UNUSED];
      assert channel in more.Keys && j in more.Keys;
      var last := LastKey(more);
      assert k < last;
      assert next == more[last := Controller(channel, true, more[last].tasks + [closeAfter])];
    }
    assert k in next && j in next && !next[k].started;
  }

  /** The doors after a number of requests. */
  ghost function AllOpened(doors: Doors, requests: seq<(nat, int)>): Doors
    decreases |requests|
  {
    if requests == [] then doors
    else AllOpened(DoorOpened(doors, requests[0].0, requests[0].1), requests[1..])
  }

  /** Each new door comes after those known before. */
  ghost predicate InOrder(known: set<nat>, requests: seq<(nat, int)>)
    decreases |requests|
  {
    requests != [] ==>
      ComesLast(known, requests[0].0) && InOrder(known + {requests[0].0}, requests[1..])
  }

  /** The durations that were asked of one door, in order. */
  function Durations(requests: seq<(nat, int)>, channel: nat): seq<int>
    decreases |requests|
  {
    if requests == [] then []
    else (if requests[0].0 == channel then [requests[0].1] else []) + Durations(requests[1..], channel)
  }

  /** What a door was given; nothing if it is not known. */
  function GivenTo(doors: Doors, channel: nat): seq<int> {
    if channel in doors then doors[channel].tasks else []
  }

  /** Main result: when new doors are asked for in the order of their channels, every door is given the
      durations that were asked of it, in order, and nothing else. */
  lemma {:induction false} EveryDoorGetsItsOwn(doors: Doors, requests: seq<(nat, int)>, k: nat)
    requires InOrder(doors.Keys, requests)
    ensures GivenTo(AllOpened(doors, requests), k) == GivenTo(doors, k) + Durations(requests, k)
    decreases |requests|
  {
    if requests != [] {
      var (c, t) := requests[0];
      var next := DoorOpened(doors, c, t);
      RequestGoesTo(doors, c, t, k);
      assert next.Keys == doors.Keys + {c} by {
        forall j: nat
          ensures j in next <==> j in doors || j == c
        {
          RequestGoesTo(doors, c, t, j);
        }
      }
      EveryDoorGetsItsOwn(next, requests[1..], k);
      assert GivenTo(next, k) == GivenTo(doors, k) + if c == k then [t] else [];
    }
  }

  lemma {:induction false} BrokenForEver(doors: Doors, requests: seq<(nat, int)>)
    requires Broken(doors)
    ensures Broken(AllOpened(doors, requests))
    decreases |requests|
  {
    if requests != [] {
      BrokenStays(doors, requests[0].0, requests[0].1);
      BrokenForEver(DoorOpened(doors, requests[0].0, requests[0].1), requests[1..]);
    }
  }

  /** Main result: after any requests every door has its own working controller if and only if new doors
      were asked for in the order of their channels. */
  lemma {:induction false} RoutedIffInOrder(doors: Doors, requests: seq<(nat, int)>)
    requires Routed(doors)
    ensures Routed(AllOpened(doors, requests)) <==> InOrder(doors.Keys, requests)
    decreases |requests|
  {
    if requests != [] {
      var (c, t) := requests[0];
      var next := DoorOpened(doors, c, t);
      RoutedIffLast(doors, c, t);
      if ComesLast(doors.Keys, c) {
        RoutedIffInOrder(next, requests[1..]);
      } else {
        BrokenForEver(next, requests[1..]);
      }
    }
  }

  // ----- the handler -----

  datatype ErrCode = ErrOk | ErrSwitchNotConn

  class DoorSwitchHandler {
    var isConnected: bool
    var isTimerOn: bool
    var interval: int
    var period: int
    var doors: Doors
    ghost var failures: nat

    constructor ()
      ensures State() == FRESH && failures == 0 && doors == map[]
    {
      isConnected, isTimerOn := false, false;
      interval, period := RECONN_START_PERIOD_INTERVAL, RECONN_START_PERIOD_INTERVAL;
      doors, failures := map[], 0;
    }

    /** Connected, or trying again after the right time for the attempts that have failed since the timer
        was started. */
    ghost predicate Valid()
      reads this
    {
      Sound(State(), failures)
    }

    function State(): Link
      reads this
    {
      Link(isConnected, isTimerOn, interval, period)
    }

    /** Tries to reach the switch; `ok` is what the network says. */
    method Reconnect(ok: bool) returns (connected: bool)
      modifies `isConnected
      ensures isConnected == ok && connected == ok
    {
      isConnected := ok;
      connected := isConnected;
    }

    method StartReconnectTimer()
      modifies `isTimerOn, `interval, `period, `failures
      ensures State() == TimerStarted(old(State())) && failures == 0
    {
      isTimerOn := true;
      interval := RECONN_START_PERIOD_INTERVAL;
      period := interval * S2MS;
      failures := 0;
    }

    /** The first connect makes the handler valid; a further one keeps it so unless it succeeds while the
        timer is on. */
    method Connect(ok: bool) returns (connected: bool)
      modifies `isConnected, `isTimerOn, `interval, `period, `failures
      ensures State() == Connected(old(State()), ok)
      ensures isConnected == ok && connected == ok && (!ok ==> isTimerOn)
      ensures old(Valid()) || (old(State()) == FRESH && old(failures) == 0) ==>
        (Valid() <==> !(ok && old(isTimerOn)))
    {
      DoubledInterval(0);
      var reached := Reconnect(ok);
      if !reached {
        StartReconnectTimer();
      }
      connected := isConnected;
    }

    method OnReconnTimer(ok: bool)
      modifies `isConnected, `isTimerOn, `interval, `period, `failures
      ensures State() == TimerFired(old(State()), ok)
      ensures isConnected == ok && isTimerOn == if ok then false else old(isTimerOn)
      ensures ok ==> interval == 2 && period == 0
      ensures failures == if ok then 0 else old(failures) + 1
      ensures old(Valid()) && old(isTimerOn) ==> Valid()
    {
      DoubledInterval(failures);
      var reached := Reconnect(ok);
      if reached {
        period := 0;
        interval := RECONN_START_PERIOD_INTERVAL;
        isTimerOn := false;
        failures := 0;
      } else {
        if interval * RECONN_START_PERIOD_INTERVAL < RECONN_MAX_PERIOD_INTERVAL + 1 {
          interval := interval * RECONN_START_PERIOD_INTERVAL;
        }
        period := interval * S2MS;
        failures := failures + 1;
      }
    }

    method HandleRWError()
      modifies `isConnected, `isTimerOn, `interval, `period, `failures
      ensures State() == Failed(old(State()))
      ensures !isConnected && isTimerOn
      ensures failures == if old(isTimerOn) then old(failures) else 0
      ensures old(Valid()) ==> Valid()
    {
      DoubledInterval(0);
      isConnected := false;
      if !isTimerOn {
        StartReconnectTimer();
      }
    }

    /** Whatever happens after the first connect: the handler stays valid, counts the failed attempts of the
        timer, and is connected exactly if the last thing that happened was a success. */
    method Handle(events: seq<Event>)
      requires Possible(State(), events)
      modifies `isConnected, `isTimerOn, `interval, `period, `failures
      ensures State() == AfterEvents(old(State()), events)
      ensures old(Valid()) ==>
        && Valid() && failures == FailedSince(events, old(failures))
        && isConnected == ReachedLast(events, old(isConnected))
    {
      ghost var (start, before) := (State(), failures);
      for i := 0 to |events|
        invariant State() == AfterEvents(start, events[..i])
        invariant Sound(start, before) ==> Valid() && failures == FailedSince(events[..i], before)
      {
        PossibleBefore(start, events, i + 1);
        assert events[..i + 1][..i] == events[..i];
        match events[i]
        case TimerFires(ok) => OnReconnTimer(ok);
        case IoFails => HandleRWError();
      }
      assert events[..|events|] == events;
      if Sound(start, before) {
        RunIsSound(start, events, before);
      }
    }

    /** The greatest key of the map of doors. */
    method FindLast() returns (key: nat)
      requires doors.Keys != {}
      ensures IsGreatest(doors.Keys, key)
    {
      var rest := doors.Keys;
      key :| key in rest;
      while rest != {}
        invariant rest <= doors.Keys && key in doors.Keys
        invariant forall k :: k in doors.Keys && k !in rest ==> k <= key
        decreases rest
      {
        var k :| k in rest;
        if key < k {
          key := k;
        }
        rest := rest - {k};
      }
    }

    method OpenDoor(channel: nat, closeAfter: int) returns (code: ErrCode)
      modifies `doors
      ensures code == if isConnected then ErrOk else ErrSwitchNotConn
      ensures doors == if isConnected then DoorOpened(old(doors), channel, closeAfter) else old(doors)
    {
      if !isConnected {
        return ErrSwitchNotConn;
      }
      if channel !in doors {
        doors := doors[channel := UNUSED];
        assert channel in doors.Keys;
        var last := FindLast();
        var c := doors[last];
        doors := doors[last := c.(channel := channel)];
        doors := doors[last := doors[last].(started := true)];
        doors := doors[last := doors[last].(tasks := doors[last].tasks + [closeAfter])];
      } else {
        var c := doors[channel];
        doors := doors[channel := c.(tasks := c.tasks + [closeAfter])];
      }
      code := ErrOk;
    }

    /** Any requests to a connected switch. */
    method OpenDoors(requests: seq<(nat, int)>)
      requires isConnected
      modifies `doors
      ensures doors == AllOpened(old(doors), requests)
      ensures Routed(old(doors)) ==> (Routed(doors) <==> InOrder(old(doors).Keys, requests))
      ensures InOrder(old(doors).Keys, requests) ==>
        forall k :: GivenTo(doors, k) == GivenTo(old(doors), k) + Durations(requests, k)
    {
      ghost var before := doors;
      for i := 0 to |requests|
        invariant AllOpened(doors, requests[i..]) == AllOpened(before, requests)
      {
        assert requests[i..][1..] == requests[i + 1..];
        var code := OpenDoor(requests[i].0, requests[i].1);
      }
      if Routed(before) {
        RoutedIffInOrder(before, requests);
      }
      if InOrder(before.Keys, requests) {
        forall k
          ensures GivenTo(doors, k) == GivenTo(before, k) + Durations(requests, k)
        {
          EveryDoorGetsItsOwn(before, requests, k);
        }
      }
    }
  }
}
