/**
 Every interleaving of reports, timer callbacks, clock ticks and Close on one
 toothbrush. `World` adds to the session the clock and the history the
 properties speak about; no step reads that history.
 */
module BrushingRuns {
  import opened Base
  import opened GoTime
  import opened Openmiio
  import opened Brushing

  datatype Start = Start(timestamp: int64, at: int)

  datatype World = World(
    s: Session,
    clock: nat,
    last: Option<Start>,   // the last live start applied
    ends: seq<int64>,      // the effective timestamp of every end frame applied
    closed: bool)          // Close was called since that start

  /** Fire: an armed timer starts its callback, on time or not. Run: that callback gets the mutex. */
  datatype Action =
    | Deliver(update: Update, wall: int64)
    | Tick(nanoseconds: nat)
    | Fire(handle: nat)
    | Run(handle: nat)
    | Close

  predicate LiveStart(u: Update, wall: int64) {
    u.IsStart() && RawLive(u.toothbrush.value, Reference(u, wall))
  }

  function Step(w: World, a: Action): World {
    match a
    case Tick(d) => w.(clock := w.clock + d)
    case Fire(h) => w.(s := FireTimer(w.s, h))
    case Run(h) => w.(s := RunCallback(w.s, h, w.clock))
    case Close => w.(s := Disarm(w.s), closed := true)
    case Deliver(u, wall) =>
      var next := w.(s := ApplyUpdate(w.s, u, w.clock, wall));
      if LiveStart(u, wall) then next.(last := Some(Start(u.toothbrush.value.timestamp, w.clock)), closed := false)
      else if u.toothbrush.Some? && !u.IsStart()
      then next.(ends := w.ends + [EffectiveEnd(w.s, u.toothbrush.value, Reference(u, wall))])
      else next
  }

  function After(actions: seq<Action>): World {
    if actions == [] then World(NEW_SESSION, 0, None, [], false)
    else Step(After(actions[..|actions| - 1]), actions[|actions| - 1])
  }

  /** Every state a run passes through. */
  function At(actions: seq<Action>, i: nat): World
    requires i <= |actions|
  {
    After(actions[..i])
  }

  // ------------------------------------------------------ callback invariant

  /** Pending callbacks have distinct handles, already issued, and no generation from the future. */
  ghost predicate PendingInvariant(s: Session) {
    && s.started <= s.callbacks.Keys
    && (forall h :: h in s.callbacks ==> h < s.nextHandle && s.callbacks[h].generation <= s.generation)
    && (forall h :: h in s.callbacks && s.callbacks[h].generation == s.generation ==> s.timer == Some(h))
    && (s.timer.Some? ==> s.timer.value in s.callbacks && s.callbacks[s.timer.value].generation == s.generation)
  }

  /** The watchdog callback belongs to the running session and falls due 30 s after its last activity. */
  ghost predicate WatchdogInvariant(w: World) {
    && w.s.motion == w.s.active
    && (w.s.active <==> w.s.sessionStart > 0)
    && w.s.sessionStart >= 0
    && (w.s.active <==> w.s.lastActivity.Some?)
    && (w.s.timer.Some? ==> w.s.active)
    && (w.s.active && !w.closed ==> w.s.timer.Some?)
    && (w.s.active ==> w.last.Some? && w.s.lastActivity == Some(w.last.value.at))
    && (w.last.Some? ==> w.last.value.at <= w.clock)
    && (w.s.timer.Some? ==> w.s.timer.value in w.s.callbacks)
    && (w.s.timer.Some? ==> w.s.callbacks[w.s.timer.value].due == w.s.lastActivity.value + WATCHDOG)
  }

  ghost predicate Invariant(w: World) {
    PendingInvariant(w.s) && WatchdogInvariant(w)
  }

  lemma DisarmKeeps(s: Session)
    requires PendingInvariant(s) && s.generation + 1 < TWO_64
    ensures PendingInvariant(Disarm(s))
    ensures Disarm(s).generation == s.generation + 1
  {
  }

  lemma ScheduleKeeps(s: Session, generation: nat, due: int)
    requires s.started <= s.callbacks.Keys && s.generation == generation
    requires forall h :: h in s.callbacks ==> h < s.nextHandle && s.callbacks[h].generation < generation
    ensures PendingInvariant(Schedule(s, generation, due))
  {
  }

  lemma ArmKeeps(s: Session, now: int)
    requires PendingInvariant(s) && s.generation + 1 < TWO_64
    ensures PendingInvariant(Arm(s, now))
    ensures Arm(s, now).generation == s.generation + 1
  {
    ScheduleKeeps(s.(generation := Next(s.generation), callbacks := Stopped(s)), Next(s.generation), now + WATCHDOG);
  }

  lemma StartKeeps(w: World, u: Update, wall: int64)
    requires Invariant(w) && w.s.generation + 1 < TWO_64 && LiveStart(u, wall)
    ensures Invariant(Step(w, Deliver(u, wall)))
    ensures Step(w, Deliver(u, wall)).s.generation <= w.s.generation + 1
  {
    var begun := Begin(ShowUpdate(w.s, u), u.toothbrush.value, w.clock);
    assert Step(w, Deliver(u, wall)).s == Arm(begun, w.clock);
    ArmKeeps(begun, w.clock);
  }

  lemma EndSessionKeeps(w: World, end: int64)
    requires Invariant(w) && w.s.generation + 1 < TWO_64
    ensures Invariant(w.(s := EndSession(w.s, end)))
    ensures EndSession(w.s, end).generation == w.s.generation + 1
  {
    DisarmKeeps(w.s);
  }

  lemma CompleteKeeps(w: World, end: int64, score: Option<int>)
    requires Invariant(w)
    ensures Invariant(w.(s := Complete(w.s, end, score), ends := w.ends + [end]))
    ensures Complete(w.s, end, score).generation == w.s.generation
  {
  }

  lemma EndKeeps(w: World, u: Update, wall: int64)
    requires Invariant(w) && w.s.generation + 1 < TWO_64 && u.toothbrush.Some? && !u.IsStart()
    ensures Invariant(Step(w, Deliver(u, wall)))
    ensures Step(w, Deliver(u, wall)).s.generation <= w.s.generation + 1
  {
    var shown, e, reference := ShowUpdate(w.s, u), u.toothbrush.value, Reference(u, wall);
    var end := EffectiveEnd(shown, e, reference);
    EndSessionKeeps(w.(s := shown), end);
    var ended := if RawLive(e, reference) || ForcedStop(shown, e, reference) then EndSession(shown, end) else shown;
    CompleteKeeps(w.(s := ended), end, e.score);
  }

  lemma RunKeeps(w: World, h: nat)
    requires Invariant(w) && w.s.generation + 1 < TWO_64
    ensures Invariant(Step(w, Run(h)))
    ensures Step(w, Run(h)).s.generation <= w.s.generation + 1
  {
    if h in w.s.started && w.s.callbacks[h].generation == w.s.generation {
      var elapsed := Sub(w.clock, w.s.lastActivity.value);
      if elapsed < WATCHDOG {
        ScheduleKeeps(Taken(w.s, h), w.s.generation, w.clock + (WATCHDOG - elapsed));
      }
    }
  }

  lemma StepKeeps(w: World, a: Action)
    requires Invariant(w) && w.s.generation + 1 < TWO_64
    ensures Invariant(Step(w, a))
    ensures Step(w, a).s.generation <= w.s.generation + 1
  {
    match a {
      case Deliver(u, wall) =>
        if LiveStart(u, wall) {
          StartKeeps(w, u, wall);
        } else if u.toothbrush.Some? && !u.IsStart() {
          EndKeeps(w, u, wall);
        }
      case Tick(_) =>
      case Fire(h) =>
      case Run(h) => RunKeeps(w, h);
      case Close => DisarmKeeps(w.s);
    }
  }

  /**
   In every interleaving that bumps the generation fewer than 2^64 times, every
   pending callback carries a generation at most the current one, exactly the one
   held in `timer` carries the current one, and an active session not since closed
   has it. Motion always shows `active`.
   */
  lemma {:induction false} CallbackInvariant(actions: seq<Action>)
    requires |actions| < TWO_64
    ensures Invariant(After(actions))
    ensures After(actions).s.generation <= |actions|
  {
    if actions == [] {
    } else {
      CallbackInvariant(actions[..|actions| - 1]);
      StepKeeps(After(actions[..|actions| - 1]), actions[|actions| - 1]);
    }
  }

  const LIVE_START: Update := EMPTY_UPDATE.(gatewayTime := 1, toothbrush := Some(ToothbrushEvent(0, 1, None)))

  function Closes(n: nat): seq<Action> {
    if n == 0 then [] else Closes(n - 1) + [Close]
  }

  /** A session whose callback cannot be stopped any more, closed n times. */
  function ClosedTimes(s: Session, n: nat): Session {
    if n == 0 then s else s.(generation := (s.generation + n) % TWO_64, timer := None)
  }

  lemma ClosedOnceMore(s: Session, n: nat)
    requires s.generation < TWO_64 && (s.timer.Some? ==> s.timer.value in s.started)
    ensures Disarm(ClosedTimes(s, n)) == ClosedTimes(s, n + 1)
  {
    assert ((s.generation + n) % TWO_64 + 1) % TWO_64 == (s.generation + n + 1) % TWO_64;
  }

  lemma {:induction false} AfterSnoc(actions: seq<Action>, a: Action)
    ensures After(actions + [a]) == Step(After(actions), a)
  {
    assert (actions + [a])[..|actions|] == actions;
  }

  lemma {:induction false} AfterClose(actions: seq<Action>)
    ensures After(actions + [Close]).s == Disarm(After(actions).s)
  {
    AfterSnoc(actions, Close);
  }

  function Disarms(s: Session, n: nat): Session {
    if n == 0 then s else Disarm(Disarms(s, n - 1))
  }

  lemma {:induction false} DisarmedTimes(s: Session, n: nat)
    requires s.generation < TWO_64 && (s.timer.Some? ==> s.timer.value in s.started)
    ensures Disarms(s, n) == ClosedTimes(s, n)
  {
    if n == 0 {
    } else {
      DisarmedTimes(s, n - 1);
      ClosedOnceMore(s, n - 1);
    }
  }

  lemma {:induction false} AfterLastClose(before: seq<Action>, n: nat)
    ensures After(before + Closes(n + 1)).s == Disarm(After(before + Closes(n)).s)
  {
    AfterClose(before + Closes(n));
    assert before + Closes(n + 1) == before + Closes(n) + [Close];
  }

  lemma {:induction false} AfterCloses(before: seq<Action>, n: nat)
    ensures After(before + Closes(n)).s == Disarms(After(before).s, n)
  {
    if n == 0 {
      assert before + Closes(0) == before;
    } else {
      AfterCloses(before, n - 1);
      AfterLastClose(before, n - 1);
    }
  }

  lemma AfterLiveStart(actions: seq<Action>)
    ensures var w := After(actions);
      After(actions + [Deliver(LIVE_START, 0)]).s == Arm(Begin(w.s, LIVE_START.toothbrush.value, w.clock), w.clock)
  {
    AfterSnoc(actions, Deliver(LIVE_START, 0));
    assert LiveStart(LIVE_START, 0);
  }

  /** A live start whose callback has already left the timer. */
  lemma AfterLateStart()
    ensures var s := After([Deliver(LIVE_START, 0)] + [Fire(0)]).s;
      s.generation == 1 && s.timer == Some(0) && s.started == {0} && s.nextHandle == 1
      && s.callbacks == map[0 := Callback(1, WATCHDOG)]
  {
    var first := [Deliver(LIVE_START, 0)];
    assert After([]) == World(NEW_SESSION, 0, None, [], false);
    AfterLiveStart([]);
    assert [] + first == first;
    AfterSnoc(first, Fire(0));
  }

  /** The bound is needed: after 2^64 bumps a superseded callback carries the current generation again. */
  lemma GenerationsWrapAround()
    ensures exists actions :: |actions| == TWO_64 + 2 && !PendingInvariant(After(actions).s)
  {
    var start := [Deliver(LIVE_START, 0)] + [Fire(0)];
    var closed := start + Closes(TWO_64 - 1);
    var actions := closed + [Deliver(LIVE_START, 0)];
    AfterLateStart();
    AfterCloses(start, TWO_64 - 1);
    DisarmedTimes(After(start).s, TWO_64 - 1);
    AfterLiveStart(closed);
    ClosesLength(TWO_64 - 1);
    var s := After(actions).s;
    assert s.timer == Some(1) && s.generation == s.callbacks[0].generation == 1;
    assert |actions| == TWO_64 + 2 && !PendingInvariant(s);
  }

  lemma {:induction false} ClosesLength(n: nat)
    ensures |Closes(n)| == n
  {
    if n == 0 {
    } else {
      ClosesLength(n - 1);
    }
  }

  /** A callback of an earlier generation changes nothing but its own bookkeeping. */
  lemma SupersededCallbackIsInert(actions: seq<Action>, h: nat)
    requires |actions| < TWO_64
    requires var w := After(actions); h in w.s.started && w.s.timer != Some(h)
    ensures var w := After(actions);
      Step(w, Run(h)).s == w.s.(callbacks := w.s.callbacks - {h}, started := w.s.started - {h})
  {
    CallbackInvariant(actions);
  }

  /** A callback ends a session only when 30 s have passed since the last live start, and then it is the current one. */
  lemma ExpiryNeedsSilence(actions: seq<Action>, h: nat)
    requires |actions| < TWO_64
    requires var w := After(actions); w.s.motion && !Step(w, Run(h)).s.motion
    ensures var w := After(actions);
      && w.s.timer == Some(h)
      && w.last.Some? && w.clock >= w.last.value.at + WATCHDOG
  {
    CallbackInvariant(actions);
  }

  // -------------------------------------------------------- timed safety

  /** No pending callback is more than d nanoseconds overdue. */
  ghost predicate OnTime(w: World, d: nat) {
    forall h :: h in w.s.callbacks ==> w.clock <= w.s.callbacks[h].due + d
  }

  /** Time never passes beyond d after a pending callback fell due: the runtime is that prompt. */
  ghost predicate Prompt(actions: seq<Action>, d: nat) {
    forall i :: 0 <= i < |actions| && actions[i].Tick? ==> OnTime(Step(At(actions, i), actions[i]), d)
  }

  lemma EndFrameCallbacks(s: Session, e: ToothbrushEvent, reference: int64)
    ensures EndFrame(s, e, reference).callbacks == s.callbacks
      || EndFrame(s, e, reference).callbacks == Stopped(s)
  {
  }

  /** The callback was there before, or is not due yet. */
  predicate KeptOrNotDue(w: World, after: Session, h: nat) {
    h in after.callbacks ==>
      (h in w.s.callbacks && after.callbacks[h] == w.s.callbacks[h]) || after.callbacks[h].due >= w.clock
  }

  lemma DeliverSchedulesLater(w: World, u: Update, wall: int64, h: nat)
    requires Invariant(w)
    ensures KeptOrNotDue(w, Step(w, Deliver(u, wall)).s, h)
  {
    var shown := ShowUpdate(w.s, u);
    if LiveStart(u, wall) {
      assert Step(w, Deliver(u, wall)).s == Arm(Begin(shown, u.toothbrush.value, w.clock), w.clock);
    } else {
      if u.toothbrush.Some? && !u.IsStart() {
        EndFrameCallbacks(shown, u.toothbrush.value, Reference(u, wall));
      }
      assert Stopped(shown) == Stopped(w.s);
    }
  }

  /** A step other than Tick schedules nothing that is already due. */
  lemma NothingOverdueIsScheduled(w: World, a: Action, h: nat)
    requires Invariant(w) && !a.Tick?
    ensures KeptOrNotDue(w, Step(w, a).s, h)
  {
    if a.Deliver? {
      DeliverSchedulesLater(w, a.update, a.wall, h);
    }
  }

  lemma {:induction false} PromptRunIsOnTime(actions: seq<Action>, d: nat)
    requires |actions| < TWO_64 && Prompt(actions, d)
    ensures OnTime(After(actions), d)
  {
    if actions == [] {
    } else {
      var n := |actions| - 1;
      var before := actions[..n];
      forall i | 0 <= i < |before| && before[i].Tick? ensures OnTime(Step(At(before, i), before[i]), d) {
        assert before[..i] == actions[..i];
      }
      PromptRunIsOnTime(before, d);
      CallbackInvariant(before);
      if actions[n].Tick? {
        assert At(actions, n) == After(before);
      } else {
        forall h | h in After(actions).s.callbacks { NothingOverdueIsScheduled(After(before), actions[n], h); }
      }
    }
  }

  /**
   If callbacks run within d of falling due, motion is never shown later than
   30 s + d after the last live start, unless Close intervened. Early wake-ups,
   late Stops and any number of refreshes are all allowed.
   */
  lemma TimedSafety(actions: seq<Action>, d: nat)
    requires |actions| < TWO_64 && Prompt(actions, d)
    ensures var w := After(actions);
      w.s.motion && !w.closed ==> w.last.Some? && w.clock <= w.last.value.at + WATCHDOG + d
  {
    CallbackInvariant(actions);
    PromptRunIsOnTime(actions, d);
  }

  // ----------------------------------------------------- session invariant

  const TWO_32: int := 0x1_0000_0000

  /** Event timestamps are 32-bit; the gateway time, or the wall clock that stands in for it, is a bounded Unix time. */
  predicate WireTimes(u: Update, wall: int64) {
    u.toothbrush.Some? ==>
      && 0 <= u.toothbrush.value.timestamp < TWO_32
      && if u.gatewayTime > 0 then u.gatewayTime <= MAX_SECONDS else 0 <= wall <= MAX_SECONDS
  }

  function Distance(a: int, b: int): nat {
    if a < b then b - a else a - b
  }

  predicate Live(timestamp: int, reference: int) {
    timestamp > 0 && Distance(reference, timestamp) <= 60
  }

  predicate WithinTenMinutes(start: int, at: int) {
    start <= at <= start + 600
  }

  /**
   On bounded times the wrapping Duration tests are the plain integer tests, against the
   gateway time if there is one.
   */
  lemma DurationTestsExact(s: Session, u: Update, wall: int64)
    requires u.toothbrush.Some? && WireTimes(u, wall)
    requires 0 <= s.sessionStart < TWO_32
    ensures var e, at := u.toothbrush.value, if u.gatewayTime > 0 then u.gatewayTime else wall;
      && (RawLive(e, Reference(u, wall)) <==> Live(e.timestamp, at))
      && (WithinSession(s.sessionStart, e.timestamp) <==> WithinTenMinutes(s.sessionStart, e.timestamp))
      && (WithinSession(s.sessionStart, Reference(u, wall)) <==> WithinTenMinutes(s.sessionStart, at))
  {
    DurationAbsExact(Reference(u, wall) - u.toothbrush.value.timestamp);
  }

  /** Beyond the bound the liveness test is wrong: these times lie 292 years apart. */
  lemma UnboundedGatewayTimeLooksLive()
    ensures RawLive(ToothbrushEvent(0, 1, None), MAX_SECONDS + 2)
  {
  }

  /** Up to which gateway time the liveness test of an event is right: 292 years after the event, and no further. */
  lemma LivenessExactIff(e: ToothbrushEvent, bound: int64)
    requires 0 < e.timestamp < TWO_32 && bound >= 0
    ensures (forall reference: int64 :: 0 <= reference <= bound ==>
              (RawLive(e, reference) <==> Live(e.timestamp, reference)))
      <==> bound - e.timestamp <= MAX_SECONDS
  {
    if bound - e.timestamp <= MAX_SECONDS {
      forall reference: int64 | 0 <= reference <= bound
        ensures RawLive(e, reference) <==> Live(e.timestamp, reference)
      {
        DurationAbsExact(reference - e.timestamp);
      }
    } else {
      var reference: int64 := e.timestamp + MAX_SECONDS + 1;
      assert RawLive(e, reference) && !Live(e.timestamp, reference);
    }
  }

  /** The session test of a gateway time is right exactly as far. */
  lemma SessionTestExactIff(start: int64, bound: int64)
    requires 0 < start < TWO_32 && bound >= 0
    ensures (forall at: int64 :: 0 <= at <= bound ==> (WithinSession(start, at) <==> WithinTenMinutes(start, at)))
      <==> bound - start <= MAX_SECONDS
  {
    if bound - start <= MAX_SECONDS {
      forall at: int64 | 0 <= at <= bound ensures WithinSession(start, at) <==> WithinTenMinutes(start, at) {
        if at >= start {
          SecondsExactIff(at - start);
        }
      }
    } else {
      var at: int64 := start + MAX_SECONDS + 1;
      assert WithinSession(start, at) && !WithinTenMinutes(start, at);
    }
  }

  function MaxEnd(ends: seq<int64>): int64 {
    if ends == [] then 0
    else
      var before := MaxEnd(ends[..|ends| - 1]);
      if ends[|ends| - 1] > before then ends[|ends| - 1] else before
  }

  lemma {:induction false} MaxEndIsMaximum(ends: seq<int64>)
    ensures MaxEnd(ends) == 0 || MaxEnd(ends) in ends
    ensures MaxEnd(ends) >= 0 && forall i :: 0 <= i < |ends| ==> ends[i] <= MaxEnd(ends)
  {
    if ends == [] {
    } else {
      var n := |ends| - 1;
      MaxEndIsMaximum(ends[..n]);
      assert forall i :: 0 <= i < n ==> ends[..n][i] == ends[i];
    }
  }

  ghost predicate SessionInvariant(w: World) {
    && 0 <= w.s.sessionStart < TWO_32
    && (w.s.active <==> w.s.sessionStart > 0)
    && w.s.motion == w.s.active
    && (w.s.active ==> w.last.Some? && w.s.sessionStart <= w.last.value.timestamp <= w.s.sessionStart + 600)
    && 0 <= w.s.lastDuration <= 600 * SECOND
    && w.s.lastCompleted == MaxEnd(w.ends)
  }

  predicate WireAction(a: Action) {
    a.Deliver? ==> WireTimes(a.update, a.wall)
  }

  lemma StartKeepsSession(w: World, u: Update, wall: int64)
    requires SessionInvariant(w) && WireTimes(u, wall) && LiveStart(u, wall)
    ensures SessionInvariant(Step(w, Deliver(u, wall)))
  {
    DurationTestsExact(w.s, u, wall);
    var begun := Begin(ShowUpdate(w.s, u), u.toothbrush.value, w.clock);
    assert Step(w, Deliver(u, wall)).s == Arm(begun, w.clock);
  }

  lemma EndedSession(w: World, end: int64)
    requires SessionInvariant(w)
    requires WithinSession(w.s.sessionStart, end) ==> w.s.sessionStart <= end <= w.s.sessionStart + 600
    ensures SessionInvariant(w.(s := EndSession(w.s, end)))
  {
  }

  lemma CompletedSession(w: World, end: int64, score: Option<int>)
    requires SessionInvariant(w)
    ensures SessionInvariant(w.(s := Complete(w.s, end, score), ends := w.ends + [end]))
  {
    assert (w.ends + [end])[..|w.ends|] == w.ends;
  }

  lemma EndKeepsSession(w: World, u: Update, wall: int64)
    requires SessionInvariant(w) && WireTimes(u, wall) && u.toothbrush.Some? && !u.IsStart()
    ensures SessionInvariant(Step(w, Deliver(u, wall)))
  {
    DurationTestsExact(w.s, u, wall);
    var shown := w.(s := ShowUpdate(w.s, u));
    var e, reference := u.toothbrush.value, Reference(u, wall);
    var end := EffectiveEnd(w.s, e, reference);
    EndedSession(shown, end);
    var ends := RawLive(e, reference) || ForcedStop(shown.s, e, reference);
    var ended := if ends then EndSession(shown.s, end) else shown.s;
    CompletedSession(shown.(s := ended), end, e.score);
  }

  /** Ticks, callbacks, shutdown and reports without an event: at most they end the session. */
  lemma OthersKeepSession(w: World, a: Action)
    requires SessionInvariant(w) && (a.Deliver? ==> a.update.toothbrush.None?)
    ensures SessionInvariant(Step(w, a))
  {
  }

  lemma StepKeepsSession(w: World, a: Action)
    requires SessionInvariant(w) && WireAction(a)
    ensures SessionInvariant(Step(w, a))
  {
    if a.Deliver? && LiveStart(a.update, a.wall) {
      StartKeepsSession(w, a.update, a.wall);
    } else if a.Deliver? && a.update.toothbrush.Some? && !a.update.IsStart() {
      EndKeepsSession(w, a.update, a.wall);
    } else if !a.Deliver? || a.update.toothbrush.None? {
      OthersKeepSession(w, a);
    }
  }

  /** The session invariant of every reachable state, for reports with bounded times. */
  lemma {:induction false} SessionAlwaysConsistent(actions: seq<Action>)
    requires forall i :: 0 <= i < |actions| ==> WireAction(actions[i])
    ensures SessionInvariant(After(actions))
  {
    if actions == [] {
    } else {
      var before, a := actions[..|actions| - 1], actions[|actions| - 1];
      SessionAlwaysConsistent(before);
      StepKeepsSession(After(before), a);
    }
  }
}
