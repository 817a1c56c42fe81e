/**
 What every action does to a toothbrush in a reachable state, field by field, in whole
 seconds and without the wrapping arithmetic: the next session is given outright.
 */
module BrushingFrames {
  import opened Base
  import opened Openmiio
  import opened Brushing
  import opened BrushingRuns

  /** The pending callbacks without the one the timer can still take back. */
  function WithoutTimer(s: Session): map<nat, Callback> {
    map h | h in s.callbacks && !(s.timer == Some(h) && h !in s.started) :: s.callbacks[h]
  }

  /** The battery of the report, if it carries one, low from 20 percent down. */
  function WithBattery(s: Session, u: Update): Session {
    if u.battery.Some? then s.(battery := Some(BatteryLevel(u.battery.value, u.battery.value <= 20))) else s
  }

  lemma StoppedIs(s: Session)
    ensures Stopped(s) == WithoutTimer(s)
  {
  }

  /** A report without a brushing event shows its battery and does nothing else, in any state at all. */
  lemma BatteryReportExact(s: Session, u: Update, now: int, wall: int64)
    requires u.toothbrush.None?
    ensures ApplyUpdate(s, u, now, wall) == WithBattery(s, u)
  {
  }

  /** What the frames ask of a session; every reachable one is such. */
  predicate Ordinary(s: Session) {
    0 <= s.sessionStart < TWO_32 && (s.active <==> s.sessionStart > 0) && s.generation + 1 < TWO_64
  }

  lemma {:induction false} ReachedIsOrdinary(actions: seq<Action>)
    requires |actions| < TWO_64 - 1
    requires forall i :: 0 <= i < |actions| ==> WireAction(actions[i])
    ensures Ordinary(After(actions).s)
  {
    SessionAlwaysConsistent(actions);
    CallbackInvariant(actions);
  }

  lemma {:induction false} ReachedGeneration(actions: seq<Action>)
    requires |actions| < TWO_64 - 1
    ensures After(actions).s.generation + 1 < TWO_64
  {
    CallbackInvariant(actions);
  }

  /** The same two cases for the live starts that other modules speak of. */
  lemma LiveStartIff(u: Update, wall: int64)
    requires WireTimes(u, wall)
    ensures LiveStart(u, wall) <==>
      && u.toothbrush.Some? && u.toothbrush.value.kind == 0
      && (var ts, at := u.toothbrush.value.timestamp, if u.gatewayTime > 0 then u.gatewayTime else wall;
          ts > 0 && at - 60 <= ts <= at + 60)
  {
    if u.toothbrush.Some? {
      DurationTestsExact(NEW_SESSION, u, wall);
    }
  }

  lemma Applied(w: World, u: Update, wall: int64)
    ensures Step(w, Deliver(u, wall)).s == ApplyUpdate(w.s, u, w.clock, wall)
  {
  }

  function Started(s: Session, u: Update, ts: int64, now: int): Session {
    WithBattery(s, u).(
      active := true,
      sessionStart := if s.active && s.sessionStart <= ts <= s.sessionStart + 600 then s.sessionStart else ts,
      lastActivity := Some(now),
      motion := true,
      generation := s.generation + 1,
      callbacks := WithoutTimer(s)[s.nextHandle := Callback(s.generation + 1, now + 30_000_000_000)],
      timer := Some(s.nextHandle),
      nextHandle := s.nextHandle + 1)
  }

  lemma LiveStartApplied(s: Session, u: Update, now: int, wall: int64)
    requires Ordinary(s) && u.IsStart() && WireTimes(u, wall) && LiveStart(u, wall)
    ensures ApplyUpdate(s, u, now, wall) == Started(s, u, u.toothbrush.value.timestamp, now)
  {
    DurationTestsExact(s, u, wall);
    StoppedIs(s);
    var begun := Begin(ShowUpdate(s, u), u.toothbrush.value, now);
    assert Stopped(begun) == Stopped(s);
    assert ApplyUpdate(s, u, now, wall) == Arm(begun, now);
  }

  /**
   A start frame in any reachable state. It is applied iff its time is positive and
   within 60 s of the gateway time, whatever the wall clock says; without a gateway
   time, of the wall clock. Applied, it keeps the start of a session that it falls into
   and otherwise begins one, and the watchdog is due in 30 s.
   */
  lemma {:induction false} StartFrameExact(actions: seq<Action>, u: Update, wall: int64)
    requires |actions| < TWO_64 - 1
    requires forall i :: 0 <= i < |actions| ==> WireAction(actions[i])
    requires u.toothbrush.Some? && u.toothbrush.value.kind == 0 && WireTimes(u, wall)
    ensures var s, now, ts := After(actions).s, After(actions).clock, u.toothbrush.value.timestamp;
      var at := if u.gatewayTime > 0 then u.gatewayTime else wall;
      Step(After(actions), Deliver(u, wall)).s ==
        if ts > 0 && at - 60 <= ts <= at + 60 then Started(s, u, ts, now) else WithBattery(s, u)
  {
    var w := After(actions);
    ReachedIsOrdinary(actions);
    Applied(w, u, wall);
    DurationTestsExact(w.s, u, wall);
    if LiveStart(u, wall) {
      LiveStartApplied(w.s, u, w.clock, wall);
    }
  }

  /** The record of the last end: only a later one is taken, with its score if it has one. */
  function WithCompletion(s: Session, end: int64, score: Option<int>): Session {
    if end <= s.lastCompleted then s
    else s.(lastCompleted := end, lastScore := if score.Some? then score else s.lastScore)
  }

  function Ended(s: Session, u: Update, end: int64): Session {
    WithBattery(s, u).(
      active := false,
      sessionStart := 0,
      lastActivity := None,
      lastDuration := if s.active && s.sessionStart <= end <= s.sessionStart + 600
                      then (end - s.sessionStart) * 1_000_000_000 else s.lastDuration,
      motion := false,
      generation := s.generation + 1,
      callbacks := WithoutTimer(s),
      timer := None)
  }

  lemma EndApplied(s: Session, u: Update, end: int64)
    requires Ordinary(s)
    requires s.active ==> (WithinSession(s.sessionStart, end) <==> WithinTenMinutes(s.sessionStart, end))
    ensures EndSession(ShowUpdate(s, u), end) == Ended(s, u, end)
  {
    StoppedIs(s);
    assert Stopped(ShowUpdate(s, u)) == Stopped(s);
  }

  lemma CompletionIs(s: Session, end: int64, score: Option<int>)
    ensures Complete(s, end, score) == WithCompletion(s, end, score)
  {
  }

  lemma EndFrameApplied(s: Session, u: Update, end: int64, wall: int64, ends: bool)
    requires Ordinary(s) && u.toothbrush.Some? && !u.IsStart() && WireTimes(u, wall)
    requires end == EffectiveEnd(s, u.toothbrush.value, Reference(u, wall))
    requires ends <==>
      RawLive(u.toothbrush.value, Reference(u, wall)) || ForcedStop(s, u.toothbrush.value, Reference(u, wall))
    ensures ApplyUpdate(s, u, 0, wall) ==
      WithCompletion(if ends then Ended(s, u, end) else WithBattery(s, u), end, u.toothbrush.value.score)
  {
    var shown := ShowUpdate(s, u);
    DurationTestsExact(s, u, wall);
    EndApplied(s, u, end);
    CompletionIs(if ends then EndSession(shown, end) else shown, end, u.toothbrush.value.score);
  }

  /**
   An end frame in any reachable state. It ends the session iff it is live, as a start
   is, or the gateway time falls into the session (a forced stop), which then counts as
   the end; without a gateway time, the wall clock. The duration is recorded if it is
   one of up to ten minutes.
   */
  lemma {:induction false} EndFrameExact(actions: seq<Action>, u: Update, wall: int64)
    requires |actions| < TWO_64 - 1
    requires forall i :: 0 <= i < |actions| ==> WireAction(actions[i])
    requires u.toothbrush.Some? && u.toothbrush.value.kind != 0 && WireTimes(u, wall)
    ensures var s, ts := After(actions).s, u.toothbrush.value.timestamp;
      var at := if u.gatewayTime > 0 then u.gatewayTime else wall;
      var live := ts > 0 && at - 60 <= ts <= at + 60;
      var forced := s.active && !live && s.sessionStart <= at <= s.sessionStart + 600;
      var end := if forced then at else ts;
      Step(After(actions), Deliver(u, wall)).s ==
        WithCompletion(if live || forced then Ended(s, u, end) else WithBattery(s, u), end,
                       u.toothbrush.value.score)
  {
    var w, e, reference := After(actions), u.toothbrush.value, Reference(u, wall);
    ReachedIsOrdinary(actions);
    Applied(w, u, wall);
    DurationTestsExact(w.s, u, wall);
    var ends := RawLive(e, reference) || ForcedStop(w.s, e, reference);
    EndFrameApplied(w.s, u, EffectiveEnd(w.s, e, reference), wall, ends);
    assert ApplyUpdate(w.s, u, 0, wall) == ApplyUpdate(w.s, u, w.clock, wall);
  }

  /** The timer's callback carries the current generation, and the last activity is not in the future. */
  lemma {:induction false} ReachedTimer(actions: seq<Action>, h: nat)
    requires |actions| < TWO_64 - 1 && After(actions).s.timer == Some(h)
    ensures var w := After(actions);
      && w.s.active && w.s.lastActivity.Some? && w.s.lastActivity.value <= w.clock
      && h in w.s.callbacks && w.s.callbacks[h].generation == w.s.generation
  {
    CallbackInvariant(actions);
  }

  function Expired(s: Session, h: nat): Session {
    s.(active := false,
       sessionStart := 0,
       lastActivity := None,
       motion := false,
       generation := s.generation + 1,
       callbacks := s.callbacks - {h},
       started := s.started - {h},
       timer := None)
  }

  function Rearmed(s: Session, h: nat, due: int): Session {
    s.(callbacks := (s.callbacks - {h})[s.nextHandle := Callback(s.generation, due)],
       started := s.started - {h},
       timer := Some(s.nextHandle),
       nextHandle := s.nextHandle + 1)
  }

  lemma TimerRuns(s: Session, h: nat, now: int)
    requires h in s.started && s.timer == Some(h) && h in s.callbacks && s.callbacks[h].generation == s.generation
    requires s.generation + 1 < TWO_64 && s.active && s.lastActivity.Some? && s.lastActivity.value <= now
    ensures RunCallback(s, h, now) ==
      if now >= s.lastActivity.value + 30_000_000_000 then Expired(s, h)
      else Rearmed(s, h, s.lastActivity.value + 30_000_000_000)
  {
  }

  /**
   The callback of the timer, when it gets the mutex in any reachable state: 30 s after
   the last activity it ends the session without recording an end; before that it only
   re-arms for the rest of them.
   */
  lemma {:induction false} ExpiryExact(actions: seq<Action>, h: nat)
    requires |actions| < TWO_64 - 1
    requires var s := After(actions).s; h in s.started && s.timer == Some(h)
    ensures var s, now := After(actions).s, After(actions).clock;
      && s.active && s.lastActivity.Some?
      && Step(After(actions), Run(h)).s ==
           if now >= s.lastActivity.value + 30_000_000_000 then Expired(s, h)
           else Rearmed(s, h, s.lastActivity.value + 30_000_000_000)
  {
    ReachedTimer(actions, h);
    ReachedGeneration(actions);
    TimerRuns(After(actions).s, h, After(actions).clock);
  }

  lemma Closed(w: World)
    requires w.s.generation + 1 < TWO_64
    ensures Step(w, Close).s ==
      w.s.(generation := w.s.generation + 1, callbacks := WithoutTimer(w.s), timer := None)
  {
    StoppedIs(w.s);
  }

  /** Shutdown in any reachable state takes the timer back and leaves all that is shown. */
  lemma {:induction false} CloseExact(actions: seq<Action>)
    requires |actions| < TWO_64 - 1
    ensures var s := After(actions).s;
      Step(After(actions), Close).s == s.(generation := s.generation + 1, callbacks := WithoutTimer(s), timer := None)
  {
    ReachedGeneration(actions);
    Closed(After(actions));
  }
}
