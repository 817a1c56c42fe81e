/**
 internal/bridge/toothbrush.go: a brushing session guarded by a watchdog timer.

 The Go runtime's side of `time.AfterFunc` is the map `callbacks` of pending
 callbacks. Once a timer fires, its callback is in the set `started`: it waits for
 the mutex, and `Stop` comes too late for it. Every public method runs under the
 mutex, so each is one atomic step.
 */
module Brushing {
  import opened Base
  import opened GoTime
  import opened Openmiio

  const LIVE_WINDOW: int := 60 * SECOND
  const MAX_SESSION: int := 600 * SECOND
  const WATCHDOG: int := 30 * SECOND

  datatype Callback = Callback(generation: nat, due: int)

  datatype BatteryLevel = BatteryLevel(percent: int, low: bool)

  function ShowBattery(percent: int): BatteryLevel {
    BatteryLevel(percent, percent <= 20)
  }

  /** The fields of a Toothbrush and its callbacks, as a value. `lastActivity` None is the zero time. */
  datatype Session = Session(
    active: bool,
    sessionStart: int64,
    lastActivity: Option<int>,
    lastCompleted: int64,
    lastScore: Option<int>,
    lastDuration: int64,
    motion: bool,
    battery: Option<BatteryLevel>,
    generation: nat,
    timer: Option<nat>,
    callbacks: map<nat, Callback>,
    started: set<nat>,
    nextHandle: nat)

  const NEW_SESSION: Session := Session(false, 0, None, 0, None, 0, false, None, 0, None, map[], {}, 0)

  // ---------------------------------------------------------- time tests

  function Reference(u: Update, wall: int64): int64 {
    if u.gatewayTime <= 0 then wall else u.gatewayTime
  }

  predicate RawLive(e: ToothbrushEvent, reference: int64) {
    e.timestamp > 0 && DurationAbs(Wrap(reference - e.timestamp)) <= LIVE_WINDOW
  }

  /** `at` is not before `start` and the Duration between them is at most a session. */
  predicate WithinSession(start: int64, at: int64) {
    at >= start && Seconds(Wrap(at - start)) <= MAX_SESSION
  }

  predicate Continues(s: Session, e: ToothbrushEvent) {
    s.active && s.sessionStart > 0 && WithinSession(s.sessionStart, e.timestamp)
  }

  predicate ForcedStop(s: Session, e: ToothbrushEvent, reference: int64) {
    s.active && s.sessionStart > 0 && !RawLive(e, reference) && WithinSession(s.sessionStart, reference)
  }

  function EffectiveEnd(s: Session, e: ToothbrushEvent, reference: int64): int64 {
    if ForcedStop(s, e, reference) then reference else e.timestamp
  }

  // ------------------------------------------------------- state functions

  /** A 64-bit unsigned increment. */
  function Next(generation: nat): nat {
    (generation + 1) % TWO_64
  }

  function Stopped(s: Session): map<nat, Callback> {
    if s.timer.Some? && s.timer.value !in s.started then s.callbacks - {s.timer.value} else s.callbacks
  }

  function Disarm(s: Session): Session {
    s.(generation := Next(s.generation), callbacks := Stopped(s), timer := None)
  }

  function Schedule(s: Session, generation: nat, due: int): Session {
    s.(callbacks := s.callbacks[s.nextHandle := Callback(generation, due)],
       timer := Some(s.nextHandle),
       nextHandle := s.nextHandle + 1)
  }

  function Arm(s: Session, now: int): Session {
    Schedule(s.(generation := Next(s.generation), callbacks := Stopped(s)), Next(s.generation), now + WATCHDOG)
  }

  function Begin(s: Session, e: ToothbrushEvent, now: int): Session {
    s.(active := true,
       sessionStart := if Continues(s, e) then s.sessionStart else e.timestamp,
       lastActivity := Some(now),
       motion := true)
  }

  function StartFrame(s: Session, e: ToothbrushEvent, reference: int64, now: int): Session {
    if RawLive(e, reference) then Arm(Begin(s, e, now), now) else s
  }

  function EndSession(s: Session, end: int64): Session {
    Disarm(s).(
      active := false,
      sessionStart := 0,
      lastActivity := None,
      motion := false,
      lastDuration := if s.active && s.sessionStart > 0 && WithinSession(s.sessionStart, end)
                      then Seconds(Wrap(end - s.sessionStart)) else s.lastDuration)
  }

  function Complete(s: Session, end: int64, score: Option<int>): Session {
    if end > s.lastCompleted
    then s.(lastCompleted := end, lastScore := if score.Some? then score else s.lastScore)
    else s
  }

  function EndFrame(s: Session, e: ToothbrushEvent, reference: int64): Session {
    var end := EffectiveEnd(s, e, reference);
    Complete(if RawLive(e, reference) || ForcedStop(s, e, reference) then EndSession(s, end) else s, end, e.score)
  }

  function ShowUpdate(s: Session, u: Update): Session {
    if u.battery.Some? then s.(battery := Some(ShowBattery(u.battery.value))) else s
  }

  function ApplyUpdate(s: Session, u: Update, now: int, wall: int64): Session {
    var shown := ShowUpdate(s, u);
    if u.toothbrush.None? then shown
    else if u.IsStart() then StartFrame(shown, u.toothbrush.value, Reference(u, wall), now)
    else EndFrame(shown, u.toothbrush.value, Reference(u, wall))
  }

  function Expire(s: Session, generation: nat, now: int): Session {
    if generation != s.generation || !s.active || s.lastActivity.None? then s
    else
      var elapsed := Sub(now, s.lastActivity.value);
      if elapsed < WATCHDOG then Schedule(s, generation, now + (WATCHDOG - elapsed))
      else Disarm(s).(active := false, sessionStart := 0, lastActivity := None, motion := false)
  }

  function FireTimer(s: Session, h: nat): Session {
    if h in s.callbacks then s.(started := s.started + {h}) else s
  }

  function Taken(s: Session, h: nat): Session {
    s.(callbacks := s.callbacks - {h}, started := s.started - {h})
  }

  function RunCallback(s: Session, h: nat, now: int): Session {
    if h in s.started && h in s.callbacks
    then Expire(Taken(s, h), s.callbacks[h].generation, now) else s
  }

  // --------------------------------------------------------------- the class

  class Toothbrush {
    var active: bool
    var sessionStart: int64
    var lastActivity: Option<int>
    var lastCompleted: int64
    var lastScore: Option<int>
    var lastDuration: int64
    var motion: bool
    var battery: Option<BatteryLevel>
    var watchdogGeneration: nat
    var timer: Option<nat>
    var callbacks: map<nat, Callback>
    var started: set<nat>
    var nextHandle: nat

    ghost function State(): Session
      reads this
    {
      Session(active, sessionStart, lastActivity, lastCompleted, lastScore, lastDuration, motion, battery,
              watchdogGeneration, timer, callbacks, started, nextHandle)
    }

    constructor ()
      ensures State() == NEW_SESSION
    {
      active, sessionStart, lastActivity, lastCompleted := false, 0, None, 0;
      lastScore, lastDuration, motion, battery := None, 0, false, None;
      watchdogGeneration, timer, callbacks, started, nextHandle := 0, None, map[], {}, 0;
    }

    method AfterFunc(due: int, generation: nat) returns (handle: nat)
      modifies this`callbacks, this`nextHandle
      ensures handle == old(nextHandle) && nextHandle == handle + 1
      ensures callbacks == old(callbacks)[handle := Callback(generation, due)]
    {
      handle := nextHandle;
      callbacks := callbacks[handle := Callback(generation, due)];
      nextHandle := nextHandle + 1;
    }

    method StopTimer()
      modifies this`callbacks
      ensures callbacks == Stopped(old(State()))
    {
      if timer.Some? && timer.value !in started {
        callbacks := callbacks - {timer.value};
      }
    }

    method ArmWatchdogLocked(now: int)
      modifies this
      ensures State() == Arm(old(State()), now)
    {
      watchdogGeneration := (watchdogGeneration + 1) % TWO_64;
      var generation := watchdogGeneration;
      StopTimer();
      var handle := AfterFunc(now + WATCHDOG, generation);
      timer := Some(handle);
    }

    method StopWatchdogLocked()
      modifies this
      ensures State() == Disarm(old(State()))
    {
      watchdogGeneration := (watchdogGeneration + 1) % TWO_64;
      if timer.Some? {
        StopTimer();
        timer := None;
      }
    }

    method Apply(update: Update, now: int, wall: int64)
      modifies this
      ensures State() == ApplyUpdate(old(State()), update, now, wall)
    {
      if update.battery.Some? {
        battery := Some(ShowBattery(update.battery.value));
      }
      if update.toothbrush.None? {
        return;
      }
      var event := update.toothbrush.value;
      var reference := update.gatewayTime;
      if reference <= 0 {
        reference := wall;
      }
      var rawLive := event.timestamp > 0 && DurationAbs(Wrap(reference - event.timestamp)) <= LIVE_WINDOW;
      if event.kind == 0 {
        if rawLive {
          ApplyLiveStart(event, reference, now);
        }
        return;
      }
      ApplyEnd(event, reference, rawLive);
    }

    method ApplyLiveStart(event: ToothbrushEvent, reference: int64, now: int)
      requires RawLive(event, reference)
      modifies this
      ensures State() == StartFrame(old(State()), event, reference, now)
    {
      var validCurrentStart := active && sessionStart > 0 && event.timestamp >= sessionStart
        && Seconds(Wrap(event.timestamp - sessionStart)) <= MAX_SESSION;
      if !validCurrentStart {
        sessionStart := event.timestamp;
        if sessionStart <= 0 {
          sessionStart := reference;
        }
        active := true;
      }
      lastActivity := Some(now);
      motion := true;
      ArmWatchdogLocked(now);
    }

    method EndLiveSession(effectiveTimestamp: int64)
      modifies this
      ensures State() == EndSession(old(State()), effectiveTimestamp)
    {
      var start, wasActive := sessionStart, active;
      StopWatchdogLocked();
      motion := false;
      active := false;
      sessionStart := 0;
      lastActivity := None;
      if wasActive && start > 0 && effectiveTimestamp >= start {
        var duration := Seconds(Wrap(effectiveTimestamp - start));
        if duration <= MAX_SESSION {
          lastDuration := duration;
        }
      }
    }

    method ApplyEnd(event: ToothbrushEvent, reference: int64, rawLive: bool)
      requires rawLive == RawLive(event, reference)
      modifies this
      ensures State() == EndFrame(old(State()), event, reference)
    {
      var forcedStop := active && sessionStart > 0 && !rawLive && reference >= sessionStart
        && Seconds(Wrap(reference - sessionStart)) <= MAX_SESSION;
      var effectiveTimestamp := event.timestamp;
      if forcedStop {
        effectiveTimestamp := reference;
      }
      if rawLive || forcedStop {
        EndLiveSession(effectiveTimestamp);
      }
      CompleteSession(effectiveTimestamp, event.score);
    }

    method CompleteSession(effectiveTimestamp: int64, score: Option<int>)
      modifies this
      ensures State() == Complete(old(State()), effectiveTimestamp, score)
    {
      if effectiveTimestamp > lastCompleted {
        lastCompleted := effectiveTimestamp;
        if score.Some? {
          lastScore := score;
        }
      }
    }

    method Close()
      modifies this
      ensures State() == Disarm(old(State()))
    {
      StopWatchdogLocked();
    }

    method ExpireWatchdog(generation: nat, now: int)
      modifies this
      ensures State() == Expire(old(State()), generation, now)
    {
      if generation != watchdogGeneration || !active || lastActivity.None? {
        return;
      }
      var elapsed := Sub(now, lastActivity.value);
      if elapsed < WATCHDOG {
        var handle := AfterFunc(now + (WATCHDOG - elapsed), generation);
        timer := Some(handle);
        return;
      }
      if timer.Some? {
        StopTimer();
      }
      watchdogGeneration := (watchdogGeneration + 1) % TWO_64;
      timer := None;
      active := false;
      sessionStart := 0;
      lastActivity := None;
      motion := false;
    }

    /** The runtime starts the callback of an armed timer. */
    method Fire(h: nat)
      modifies this
      ensures State() == FireTimer(old(State()), h)
    {
      if h in callbacks {
        started := started + {h};
      }
    }

    /** A started callback obtains the mutex. */
    method RunStarted(h: nat, now: int)
      modifies this
      ensures State() == RunCallback(old(State()), h, now)
    {
      if h in started && h in callbacks {
        var generation := callbacks[h].generation;
        callbacks := callbacks - {h};
        started := started - {h};
        ExpireWatchdog(generation, now);
      }
    }
  }
}
