/**
 The running bridge: reports in any order and with repeats, clock ticks, timer
 callbacks of any toothbrush, and shutdown, in every interleaving.
 */
module BridgeRuns {
  import opened Base
  import opened Openmiio
  import opened Deduplication
  import opened Pipeline
  import opened Devices
  import opened Enrolment
  import Brushing
  import BrushingRuns
  import Text

  /**
   `counter` is the unbounded frame number behind the report's one-byte counter. Kept is
   a report discovery has classified and put aside, processed when the loop starts.
   */
  datatype Action =
    | Kept(update: Update, wall: int64, saved: bool)
    | Report(update: Update, counter: int, wall: int64, saved: bool)
    | Tick(nanoseconds: nat)
    | Fire(i: nat, handle: nat)
    | Run(i: nat, handle: nat)
    | CloseAll

  /** `log` records what was delivered, for the properties only. */
  datatype World = World(sys: System, clock: nat, log: seq<Delivery>)

  function MapSession(a: Accessory, f: Brushing.Session -> Brushing.Session): Accessory {
    if a.Brush? then Brush(a.device, f(a.session)) else a
  }

  function MapAt(accessories: seq<Accessory>, i: nat, f: Brushing.Session -> Brushing.Session): seq<Accessory> {
    if i < |accessories| then accessories[i := MapSession(accessories[i], f)] else accessories
  }

  function CloseEach(accessories: seq<Accessory>): (r: seq<Accessory>)
    ensures |r| == |accessories|
    ensures forall i :: 0 <= i < |r| ==> r[i] == MapSession(accessories[i], Brushing.Disarm)
  {
    seq(|accessories|, i requires 0 <= i < |accessories| => MapSession(accessories[i], Brushing.Disarm))
  }

  function Step(w: World, resetAfter: int64, a: Action): World {
    match a
    case Kept(u, wall, saved) => w.(sys := InitialOne(w.sys, u, Moment(w.clock, wall, saved)))
    case Report(u, n, wall, saved) =>
      World(Process(w.sys, resetAfter, u, Moment(w.clock, wall, saved)), w.clock, w.log + [Delivery(u, n, w.clock)])
    case Tick(d) => w.(clock := w.clock + d)
    case Fire(i, h) => w.(sys := w.sys.(accessories := MapAt(w.sys.accessories, i, s => Brushing.FireTimer(s, h))))
    case Run(i, h) =>
      w.(sys := w.sys.(accessories := MapAt(w.sys.accessories, i, s => Brushing.RunCallback(s, h, w.clock))))
    case CloseAll => w.(sys := w.sys.(accessories := CloseEach(w.sys.accessories)))
  }

  function After(w: World, resetAfter: int64, actions: seq<Action>): World {
    if actions == [] then w
    else Step(After(w, resetAfter, actions[..|actions| - 1]), resetAfter, actions[|actions| - 1])
  }

  // ------------------------------------------------------------- basic facts

  /** The deduplicator's table is the one its log of deliveries leads to. */
  predicate Consistent(w: World, resetAfter: int64) {
    w.sys.frames == FramesAfter(w.log, resetAfter)
  }

  lemma ProcessFrames(sys: System, resetAfter: int64, u: Update, m: Moment)
    ensures Process(sys, resetAfter, u, m).frames == Remember(sys.frames, resetAfter, u, m.at)
  {
  }

  lemma StepConsistent(w: World, resetAfter: int64, a: Action)
    requires Consistent(w, resetAfter)
    ensures Consistent(Step(w, resetAfter, a), resetAfter)
  {
    if a.Report? {
      var d := Delivery(a.update, a.counter, w.clock);
      assert (w.log + [d])[..|w.log|] == w.log;
      ProcessFrames(w.sys, resetAfter, a.update, Moment(w.clock, a.wall, a.saved));
    }
  }

  lemma {:induction false} RunConsistent(w: World, resetAfter: int64, actions: seq<Action>)
    requires Consistent(w, resetAfter)
    ensures Consistent(After(w, resetAfter, actions), resetAfter)
    ensures w.log <= After(w, resetAfter, actions).log
  {
    if actions == [] {
    } else {
      RunConsistent(w, resetAfter, actions[..|actions| - 1]);
      StepConsistent(After(w, resetAfter, actions[..|actions| - 1]), resetAfter, actions[|actions| - 1]);
    }
  }

  /** Devices never change, so neither does which accessory an update belongs to. */
  predicate SameDevices(a: seq<Accessory>, b: seq<Accessory>) {
    |a| == |b| && forall i :: 0 <= i < |a| ==> a[i].device == b[i].device && a[i].Brush? == b[i].Brush?
  }

  lemma {:induction false} MatchFixed(a: seq<Accessory>, b: seq<Accessory>, u: Update)
    requires SameDevices(a, b)
    ensures Match(a, u) == Match(b, u)
  {
    MatchUnique(a, u, Match(b, u));
  }

  lemma StepDevices(w: World, resetAfter: int64, a: Action)
    ensures SameDevices(w.sys.accessories, Step(w, resetAfter, a).sys.accessories)
  {
  }

  lemma {:induction false} RunDevices(w: World, resetAfter: int64, actions: seq<Action>)
    ensures SameDevices(w.sys.accessories, After(w, resetAfter, actions).sys.accessories)
  {
    if actions == [] {
    } else {
      RunDevices(w, resetAfter, actions[..|actions| - 1]);
      StepDevices(After(w, resetAfter, actions[..|actions| - 1]), resetAfter, actions[|actions| - 1]);
    }
  }

  predicate IsBrush(w: World, i: nat) {
    i < |w.sys.accessories| && w.sys.accessories[i].Brush?
  }

  function SessionOf(w: World, i: nat): Brushing.Session
    requires IsBrush(w, i)
  {
    w.sys.accessories[i].session
  }

  predicate Motion(w: World, i: nat)
    requires IsBrush(w, i)
  {
    SessionOf(w, i).motion
  }

  /** A session changes by at most one of its own steps; of reports, only applied ones reach it. */
  predicate Reaches(w: World, resetAfter: int64, u: Update, i: nat) {
    && Match(w.sys.accessories, u) == i
    && (var verdict := Verdict(w.sys.frames, resetAfter, u, w.clock);
        verdict == Accepted || (verdict == Duplicate && u.IsStart()))
  }

  lemma ReportSession(w: World, resetAfter: int64, a: Action, i: nat)
    requires IsBrush(w, i) && a.Report?
    ensures IsBrush(Step(w, resetAfter, a), i)
    ensures SessionOf(Step(w, resetAfter, a), i) ==
      if Reaches(w, resetAfter, a.update, i) then Brushing.ApplyUpdate(SessionOf(w, i), a.update, w.clock, a.wall)
      else SessionOf(w, i)
  {
  }

  lemma KeptSession(w: World, resetAfter: int64, a: Action, i: nat)
    requires IsBrush(w, i) && a.Kept?
    ensures IsBrush(Step(w, resetAfter, a), i)
    ensures SessionOf(Step(w, resetAfter, a), i) ==
      if Match(w.sys.accessories, a.update) == i
      then Brushing.ApplyUpdate(SessionOf(w, i), a.update, w.clock, a.wall)
      else SessionOf(w, i)
  {
  }

  /** Timers and Close never start motion. */
  lemma OtherSteps(w: World, resetAfter: int64, a: Action, i: nat)
    requires IsBrush(w, i) && !a.Report? && !a.Kept?
    ensures IsBrush(Step(w, resetAfter, a), i)
    ensures Motion(Step(w, resetAfter, a), i) ==> Motion(w, i)
  {
  }

  // -------------------------------------------- motion follows the newest frame

  /** The same frame heard again: gwts is the gateway's own clock and moves on. */
  predicate SameFrame(u: Update, v: Update) {
    u.(gatewayTime := 0) == v.(gatewayTime := 0)
  }

  /** Frames of this device with the same number are the same frame. */
  ghost predicate Copies(log: seq<Delivery>, key: string) {
    forall i, j :: 0 <= i < |log| && 0 <= j < |log| && Of(log[i], key) && Of(log[j], key) ==>
      log[i].counter == log[j].counter ==> SameFrame(log[i].update, log[j].update)
  }

  /** Brushing events reach this accessory exactly when they carry this device's key and a counter. */
  predicate SoleKey(accessories: seq<Accessory>, i: nat, key: string, u: Update) {
    u.toothbrush.Some? ==> (Match(accessories, u) == i <==> Counted(u) && Key(u) == key)
  }

  /** What discovery put aside for this accessory, if a start, is the newest frame it accepted. */
  predicate KeptIsNewest(accessories: seq<Accessory>, i: nat, newest: Option<Delivery>, a: Action) {
    a.Kept? && Match(accessories, a.update) == i && a.update.IsStart() ==>
      newest.Some? && SameFrame(newest.value.update, a.update)
  }

  lemma NewestOfSnoc(log: seq<Delivery>, d: Delivery, key: string)
    ensures Newest(log + [d], key) ==
      if Of(d, key) && (Newest(log, key).None? || Newest(log, key).value.counter < d.counter) then Some(d)
      else Newest(log, key)
  {
    assert (log + [d])[..|log|] == log;
  }

  lemma TameSnoc(log: seq<Delivery>, resetAfter: int64, d: Delivery, key: string)
    requires Tame(log + [d], resetAfter, key)
    ensures Tame(log, resetAfter, key) && (Of(d, key) ==> TameNext(log, resetAfter, d))
  {
    var all := log + [d];
    assert all[..|log|] == log && all[|log|] == d;
    TamePrefix(all, resetAfter, key, |log|);
  }

  /** How a report is classified, read off the deliveries before it. */
  lemma ReportVerdict(w: World, resetAfter: int64, a: Action)
    requires a.Report? && Counted(a.update) && resetAfter > 0 && Consistent(w, resetAfter)
    requires Tame(Step(w, resetAfter, a).log, resetAfter, Key(a.update))
    ensures Verdict(w.sys.frames, resetAfter, a.update, w.clock) == Compare(Newest(w.log, Key(a.update)), a.counter)
  {
    var d := Delivery(a.update, a.counter, w.clock);
    TameSnoc(w.log, resetAfter, d, Key(a.update));
    BaselineIsNewest(w.log, resetAfter, Key(a.update));
    ClassifyRefinesStep(w.sys.frames, w.log, resetAfter, d);
  }

  /** A duplicate of the newest frame is that frame. */
  lemma DuplicateIsNewest(log: seq<Delivery>, d: Delivery, key: string)
    requires Of(d, key) && Copies(log + [d], key)
    requires Newest(log, key).Some? && Newest(log, key).value.counter == d.counter
    ensures SameFrame(Newest(log, key).value.update, d.update)
  {
    NewestIsGreatest(log, key);
    var j :| 0 <= j < |log| && log[j] == Newest(log, key).value;
    var all := log + [d];
    assert all[j] == log[j] && all[|log|] == d;
  }

  lemma ReportRises(w: World, resetAfter: int64, a: Action, i: nat, key: string)
    requires resetAfter > 0 && Consistent(w, resetAfter) && IsBrush(w, i)
    requires a.Report? && SoleKey(w.sys.accessories, i, key, a.update)
    requires Tame(Step(w, resetAfter, a).log, resetAfter, key) && Copies(Step(w, resetAfter, a).log, key)
    requires a.update.IsStart() && Reaches(w, resetAfter, a.update, i)
    ensures var newest := Newest(Step(w, resetAfter, a).log, key);
      newest.Some? && SameFrame(newest.value.update, a.update)
  {
    var d := Delivery(a.update, a.counter, w.clock);
    ReportVerdict(w, resetAfter, a);
    NewestOfSnoc(w.log, d, key);
    if Newest(w.log, key).Some? && Newest(w.log, key).value.counter == a.counter {
      DuplicateIsNewest(w.log, d, key);
    }
  }

  lemma ApplyRises(s: Brushing.Session, u: Update, now: int, wall: int64)
    requires !s.motion && Brushing.ApplyUpdate(s, u, now, wall).motion
    ensures BrushingRuns.LiveStart(u, wall)
  {
  }

  /** Motion rises only when a live start reaches the accessory. */
  lemma OnlyStartsRise(w: World, resetAfter: int64, a: Action, i: nat)
    requires IsBrush(w, i) && !Motion(w, i)
    ensures IsBrush(Step(w, resetAfter, a), i)
    ensures Motion(Step(w, resetAfter, a), i) ==> (a.Report? || a.Kept?) && BrushingRuns.LiveStart(a.update, a.wall)
    ensures Motion(Step(w, resetAfter, a), i) && a.Report? ==> Reaches(w, resetAfter, a.update, i)
    ensures Motion(Step(w, resetAfter, a), i) && a.Kept? ==> Match(w.sys.accessories, a.update) == i
  {
    if a.Report? {
      ReportSession(w, resetAfter, a, i);
      if Motion(Step(w, resetAfter, a), i) {
        ApplyRises(SessionOf(w, i), a.update, w.clock, a.wall);
      }
    } else if a.Kept? {
      KeptSession(w, resetAfter, a, i);
      if Motion(Step(w, resetAfter, a), i) {
        ApplyRises(SessionOf(w, i), a.update, w.clock, a.wall);
      }
    } else {
      OtherSteps(w, resetAfter, a, i);
    }
  }

  /**
   Motion becomes true only when the report being processed is the newest accepted
   frame of the device, delivered for the first time or repeated, and is a live start.
   */
  lemma MotionRisesOnlyOnNewest(w: World, resetAfter: int64, a: Action, i: nat, key: string)
    requires resetAfter > 0 && Consistent(w, resetAfter) && IsBrush(w, i)
    requires a.Report? ==> SoleKey(w.sys.accessories, i, key, a.update)
    requires KeptIsNewest(w.sys.accessories, i, Newest(w.log, key), a)
    requires Tame(Step(w, resetAfter, a).log, resetAfter, key) && Copies(Step(w, resetAfter, a).log, key)
    ensures IsBrush(Step(w, resetAfter, a), i)
    ensures !Motion(w, i) && Motion(Step(w, resetAfter, a), i) ==>
      && (a.Report? || a.Kept?) && BrushingRuns.LiveStart(a.update, a.wall)
      && Newest(Step(w, resetAfter, a).log, key).Some?
      && SameFrame(Newest(Step(w, resetAfter, a).log, key).value.update, a.update)
  {
    StepDevices(w, resetAfter, a);
    if !Motion(w, i) {
      OnlyStartsRise(w, resetAfter, a, i);
      if Motion(Step(w, resetAfter, a), i) && a.Report? {
        ReportRises(w, resetAfter, a, i, key);
      }
    }
  }

  /** A repeat or an older frame leaves an inactive accessory inactive when the newest frame is no start. */
  lemma OldFrameKeepsInactive(w: World, resetAfter: int64, a: Action, i: nat, key: string)
    requires resetAfter > 0 && Consistent(w, resetAfter) && IsBrush(w, i) && !Motion(w, i)
    requires Newest(w.log, key).Some? && !Newest(w.log, key).value.update.IsStart()
    requires a.Report? ==> SoleKey(w.sys.accessories, i, key, a.update)
    requires KeptIsNewest(w.sys.accessories, i, Newest(w.log, key), a)
    requires a.Report? && Counted(a.update) && Key(a.update) == key ==> a.counter <= Newest(w.log, key).value.counter
    requires Tame(Step(w, resetAfter, a).log, resetAfter, key) && Copies(Step(w, resetAfter, a).log, key)
    ensures IsBrush(Step(w, resetAfter, a), i) && !Motion(Step(w, resetAfter, a), i)
    ensures Newest(Step(w, resetAfter, a).log, key) == Newest(w.log, key)
  {
    MotionRisesOnlyOnNewest(w, resetAfter, a, i, key);
    if a.Report? {
      NewestOfSnoc(w.log, Delivery(a.update, a.counter, w.clock), key);
    }
  }

  /** In the rest of the run every report of this device is a repeat or older than `newest`. */
  predicate NothingNewer(accessories: seq<Accessory>, actions: seq<Action>, i: nat, key: string, newest: Delivery) {
    forall a :: a in actions ==>
      && (a.Report? ==> SoleKey(accessories, i, key, a.update))
      && (a.Report? && Counted(a.update) && Key(a.update) == key ==> a.counter <= newest.counter)
      && KeptIsNewest(accessories, i, Some(newest), a)
  }

  /**
   Once the newest accepted frame of a device is not a start and motion is off,
   no interleaving of repeats, older frames, other devices, timers and the clock
   turns it on again.
   */
  lemma {:induction false} NoReactivation(w: World, resetAfter: int64, actions: seq<Action>, i: nat, key: string)
    requires resetAfter > 0 && Consistent(w, resetAfter) && IsBrush(w, i) && !Motion(w, i)
    requires Newest(w.log, key).Some? && !Newest(w.log, key).value.update.IsStart()
    requires NothingNewer(w.sys.accessories, actions, i, key, Newest(w.log, key).value)
    requires Tame(After(w, resetAfter, actions).log, resetAfter, key) && Copies(After(w, resetAfter, actions).log, key)
    ensures IsBrush(After(w, resetAfter, actions), i) && !Motion(After(w, resetAfter, actions), i)
    ensures Newest(After(w, resetAfter, actions).log, key) == Newest(w.log, key)
  {
    if actions == [] {
    } else {
      var n := |actions| - 1;
      var before, a := After(w, resetAfter, actions[..n]), actions[n];
      assert a in actions;
      RunConsistent(w, resetAfter, actions[..n]);
      RunDevices(w, resetAfter, actions[..n]);
      ShorterLog(before, resetAfter, a, key);
      SameKeys(w.sys.accessories, before.sys.accessories, i, key, Newest(w.log, key), a);
      NoReactivation(w, resetAfter, actions[..n], i, key);
      OldFrameKeepsInactive(before, resetAfter, a, i, key);
    }
  }

  lemma ShorterLog(w: World, resetAfter: int64, a: Action, key: string)
    requires Tame(Step(w, resetAfter, a).log, resetAfter, key) && Copies(Step(w, resetAfter, a).log, key)
    ensures Tame(w.log, resetAfter, key) && Copies(w.log, key)
  {
    if a.Report? {
      TameSnoc(w.log, resetAfter, Delivery(a.update, a.counter, w.clock), key);
      CopiesPrefix(w.log, Delivery(a.update, a.counter, w.clock), key);
    }
  }

  lemma SameKeys(a: seq<Accessory>, b: seq<Accessory>, i: nat, key: string, newest: Option<Delivery>, action: Action)
    requires SameDevices(a, b)
    ensures action.Report? ==> (SoleKey(a, i, key, action.update) <==> SoleKey(b, i, key, action.update))
    ensures KeptIsNewest(a, i, newest, action) <==> KeptIsNewest(b, i, newest, action)
  {
    if action.Report? || action.Kept? {
      MatchFixed(a, b, action.update);
    }
  }

  lemma CopiesPrefix(log: seq<Delivery>, d: Delivery, key: string)
    requires Copies(log + [d], key)
    ensures Copies(log, key)
  {
    assert forall i :: 0 <= i < |log| ==> (log + [d])[i] == log[i];
  }

  // ------------------------------------- over resets of the device's own counter

  predicate IsFrame(last: Option<Update>, u: Update) {
    last.Some? && SameFrame(last.value, u)
  }

  /** The same with no bound on silence or on counters: what is taken for a repeat of the last accepted frame is one. */
  ghost predicate RepeatIsFrame(log: seq<Delivery>, resetAfter: int64, key: string, d: Delivery) {
    Of(d, key) && Verdict(FramesAfter(log, resetAfter), resetAfter, d.update, d.at) == Duplicate ==>
      IsFrame(LastAccepted(log, resetAfter, key), d.update)
  }

  /** What discovery put aside for this accessory, if a start, is the last frame it accepted. */
  predicate KeptIsLast(accessories: seq<Accessory>, i: nat, last: Option<Update>, a: Action) {
    a.Kept? && Match(accessories, a.update) == i && a.update.IsStart() ==> IsFrame(last, a.update)
  }

  /** The hypotheses about one action of such a run. */
  ghost predicate Honest(w: World, resetAfter: int64, a: Action, i: nat, key: string) {
    && KeptIsLast(w.sys.accessories, i, LastAccepted(w.log, resetAfter, key), a)
    && (a.Report? ==>
         && SoleKey(w.sys.accessories, i, key, a.update)
         && RepeatIsFrame(w.log, resetAfter, key, Delivery(a.update, a.counter, w.clock)))
  }

  /**
   In every state of a device's whole life, its resets included: motion becomes true
   only on a live start that is the last accepted frame, just now or again.
   */
  lemma MotionRisesOnlyOnLastAccepted(w: World, resetAfter: int64, a: Action, i: nat, key: string)
    requires Consistent(w, resetAfter) && IsBrush(w, i) && Honest(w, resetAfter, a, i, key)
    ensures IsBrush(Step(w, resetAfter, a), i)
    ensures !Motion(w, i) && Motion(Step(w, resetAfter, a), i) ==>
      && (a.Report? || a.Kept?) && BrushingRuns.LiveStart(a.update, a.wall)
      && IsFrame(LastAccepted(Step(w, resetAfter, a).log, resetAfter, key), a.update)
  {
    StepDevices(w, resetAfter, a);
    if !Motion(w, i) {
      OnlyStartsRise(w, resetAfter, a, i);
      if Motion(Step(w, resetAfter, a), i) && a.Report? {
        LastAcceptedSnoc(w.log, resetAfter, key, Delivery(a.update, a.counter, w.clock));
      }
    }
  }

  /** A start of this device is accepted. */
  predicate AcceptsStart(w: World, resetAfter: int64, a: Action, key: string) {
    && a.Report? && Of(Delivery(a.update, a.counter, w.clock), key) && a.update.IsStart()
    && Verdict(w.sys.frames, resetAfter, a.update, w.clock) == Accepted
  }

  /** Every action of the run is honest where it happens, and none is such a start. */
  ghost predicate NoStarts(w: World, resetAfter: int64, actions: seq<Action>, i: nat, key: string)
    decreases |actions|
  {
    actions == [] ||
    var n := |actions| - 1;
    var before, a := After(w, resetAfter, actions[..n]), actions[n];
    && NoStarts(w, resetAfter, actions[..n], i, key)
    && Honest(before, resetAfter, a, i, key) && !AcceptsStart(before, resetAfter, a, key)
  }

  predicate NoStartLast(w: World, resetAfter: int64, key: string) {
    var last := LastAccepted(w.log, resetAfter, key);
    last.Some? ==> !last.value.IsStart()
  }

  /**
   Motion never returns without a new start: once it is off and the last accepted frame
   is none, it stays off until a start of this device is accepted, however long the
   silences, whatever the resets, repeats, other devices, timers and the clock.
   */
  lemma {:induction false} MotionNeedsAcceptedStart(w: World, resetAfter: int64, actions: seq<Action>, i: nat,
                                                    key: string)
    requires Consistent(w, resetAfter) && IsBrush(w, i) && !Motion(w, i) && NoStartLast(w, resetAfter, key)
    requires NoStarts(w, resetAfter, actions, i, key)
    ensures IsBrush(After(w, resetAfter, actions), i) && !Motion(After(w, resetAfter, actions), i)
    ensures NoStartLast(After(w, resetAfter, actions), resetAfter, key)
  {
    if actions == [] {
    } else {
      var n := |actions| - 1;
      var before, a := After(w, resetAfter, actions[..n]), actions[n];
      MotionNeedsAcceptedStart(w, resetAfter, actions[..n], i, key);
      RunConsistent(w, resetAfter, actions[..n]);
      if a.Report? {
        LastAcceptedSnoc(before.log, resetAfter, key, Delivery(a.update, a.counter, before.clock));
      }
      MotionRisesOnlyOnLastAccepted(before, resetAfter, a, i, key);
    }
  }

  // --------------------------------------------- where a repeat does revive

  /**
   What a duplicate does to motion, in every state. The code does not ask whether
   the session is still active, so a repeated live start revives an expired one.
   */
  lemma DuplicateEffectIff(w: World, resetAfter: int64, a: Action, i: nat)
    requires IsBrush(w, i) && a.Report? && Match(w.sys.accessories, a.update) == i
    requires Verdict(w.sys.frames, resetAfter, a.update, w.clock) == Duplicate
    ensures IsBrush(Step(w, resetAfter, a), i)
    ensures Motion(Step(w, resetAfter, a), i) <==> Motion(w, i) || BrushingRuns.LiveStart(a.update, a.wall)
  {
    ReportSession(w, resetAfter, a, i);
  }

  const BRUSH: Device := Device("", "aa", "", PRODUCT_TOOTHBRUSH_T700I, MODEL_TOOTHBRUSH_T700I, 2)

  const START: Action :=
    Action.Report(BrushingRuns.LIVE_START.(mac := "aa", frameCount := 7, hasFrameCount := true), 7, 0, true)

  const ONE_BRUSH: World := World(System([Brush(BRUSH, Brushing.NEW_SESSION)], map[], map[], map[]), 0, [])

  const TEN_MINUTES: int64 := 600_000_000_000

  function Started(): World {
    Step(ONE_BRUSH, TEN_MINUTES, START)
  }

  /** Thirty seconds of silence, and the watchdog runs. */
  function Expired(): World {
    var fired := Step(Step(Started(), TEN_MINUTES, Tick(Brushing.WATCHDOG)), TEN_MINUTES, Fire(0, 0));
    Step(fired, TEN_MINUTES, Run(0, 0))
  }

  lemma StartIsApplied()
    ensures Match(ONE_BRUSH.sys.accessories, START.update) == 0
    ensures Started().sys.frames == map["aa" := FrameState(7, 0)] && Started().clock == 0
    ensures IsBrush(Started(), 0)
    ensures SessionOf(Started(), 0) ==
      Brushing.Arm(Brushing.Begin(Brushing.NEW_SESSION, START.update.toothbrush.value, 0), 0)
  {
    assert Text.ToLower("aa") == "aa";
    assert MatchesUpdate(BRUSH, START.update) && Key(START.update) == "aa";
    ReportSession(ONE_BRUSH, TEN_MINUTES, START, 0);
    ProcessFrames(ONE_BRUSH.sys, TEN_MINUTES, START.update, Moment(0, 0, true));
    assert BrushingRuns.LiveStart(START.update, 0);
  }

  lemma WatchdogExpires()
    ensures IsBrush(Expired(), 0) && !Motion(Expired(), 0)
    ensures Expired().sys.frames == Started().sys.frames && Expired().clock == Brushing.WATCHDOG
  {
    StartIsApplied();
    var s := SessionOf(Started(), 0);
    assert s.callbacks == map[0 := Brushing.Callback(1, Brushing.WATCHDOG)] && s.generation == 1;
    assert !Brushing.RunCallback(Brushing.FireTimer(s, 0), 0, Brushing.WATCHDOG).motion;
  }

  /** A start frame, 30 s of silence, the watchdog, and the same frame again: motion is back on. */
  lemma RepeatRevivesExpiredSession()
    ensures IsBrush(Started(), 0) && Motion(Started(), 0)
    ensures IsBrush(Expired(), 0) && !Motion(Expired(), 0)
    ensures var revived := Step(Expired(), TEN_MINUTES, START); IsBrush(revived, 0) && Motion(revived, 0)
  {
    StartIsApplied();
    WatchdogExpires();
    assert Key(START.update) == "aa" by { assert Text.ToLower("aa") == "aa"; }
    assert Verdict(Expired().sys.frames, TEN_MINUTES, START.update, Brushing.WATCHDOG) == Duplicate;
    ExpiredDevices();
    DuplicateEffectIff(Expired(), TEN_MINUTES, START, 0);
    assert BrushingRuns.LiveStart(START.update, 0);
  }

  lemma ExpiredDevices()
    ensures Match(Expired().sys.accessories, START.update) == 0
  {
    StartIsApplied();
    StepDevices(ONE_BRUSH, TEN_MINUTES, START);
    var ticked := Step(Started(), TEN_MINUTES, Tick(Brushing.WATCHDOG));
    StepDevices(ticked, TEN_MINUTES, Fire(0, 0));
    StepDevices(Step(ticked, TEN_MINUTES, Fire(0, 0)), TEN_MINUTES, Run(0, 0));
    MatchFixed(ONE_BRUSH.sys.accessories, Expired().sys.accessories, START.update);
  }

  // ---------------------------------------------- sessions as brushing runs

  /** What one step of the bridge is to the toothbrush at i. */
  function StepOf(w: World, resetAfter: int64, a: Action, i: nat): seq<BrushingRuns.Action> {
    match a
    case Kept(u, wall, _) => if Match(w.sys.accessories, u) == i then [BrushingRuns.Deliver(u, wall)] else []
    case Report(u, _, wall, _) => if Reaches(w, resetAfter, u, i) then [BrushingRuns.Deliver(u, wall)] else []
    case Tick(d) => [BrushingRuns.Tick(d)]
    case Fire(j, h) => if j == i then [BrushingRuns.Fire(h)] else []
    case Run(j, h) => if j == i then [BrushingRuns.Run(h)] else []
    case CloseAll => [BrushingRuns.Close]
  }

  function Trace(w: World, resetAfter: int64, actions: seq<Action>, i: nat): seq<BrushingRuns.Action> {
    if actions == [] then []
    else
      var before := actions[..|actions| - 1];
      Trace(w, resetAfter, before, i) + StepOf(After(w, resetAfter, before), resetAfter, actions[|actions| - 1], i)
  }

  lemma TimerSession(w: World, resetAfter: int64, a: Action, i: nat, b: BrushingRuns.World)
    requires IsBrush(w, i) && b.s == SessionOf(w, i) && b.clock == w.clock && !a.Report? && !a.Kept?
    ensures IsBrush(Step(w, resetAfter, a), i)
    ensures var own := StepOf(w, resetAfter, a, i);
      var next := if own == [] then b else BrushingRuns.Step(b, own[0]);
      next.s == SessionOf(Step(w, resetAfter, a), i) && next.clock == Step(w, resetAfter, a).clock
  {
  }

  lemma StepOfSession(w: World, resetAfter: int64, a: Action, i: nat, b: BrushingRuns.World)
    requires IsBrush(w, i) && b.s == SessionOf(w, i) && b.clock == w.clock
    ensures IsBrush(Step(w, resetAfter, a), i)
    ensures var own := StepOf(w, resetAfter, a, i);
      var next := if own == [] then b else BrushingRuns.Step(b, own[0]);
      next.s == SessionOf(Step(w, resetAfter, a), i) && next.clock == Step(w, resetAfter, a).clock
  {
    if a.Report? {
      ReportSession(w, resetAfter, a, i);
    } else if a.Kept? {
      KeptSession(w, resetAfter, a, i);
    } else {
      TimerSession(w, resetAfter, a, i, b);
    }
  }

  /** The toothbrush at i is where the brushing run `first` leads: fresh, restored, or in the middle of its life. */
  predicate Began(w: World, i: nat, first: seq<BrushingRuns.Action>) {
    && IsBrush(w, i)
    && BrushingRuns.After(first).s == SessionOf(w, i)
    && BrushingRuns.After(first).clock == w.clock
  }

  /** A toothbrush that has just been constructed, at any time. */
  lemma FreshBegan(w: World, i: nat)
    requires IsBrush(w, i) && SessionOf(w, i) == Brushing.NEW_SESSION
    ensures Began(w, i, [BrushingRuns.Tick(w.clock)])
  {
    assert [BrushingRuns.Tick(w.clock)][..0] == [];
  }

  lemma StepBegan(w: World, resetAfter: int64, a: Action, i: nat, first: seq<BrushingRuns.Action>)
    requires Began(w, i, first)
    ensures Began(Step(w, resetAfter, a), i, first + StepOf(w, resetAfter, a, i))
  {
    var own := StepOf(w, resetAfter, a, i);
    StepOfSession(w, resetAfter, a, i, BrushingRuns.After(first));
    if own == [] {
      assert first + own == first;
    } else {
      BrushingRuns.AfterSnoc(first, own[0]);
      assert first + own == first + [own[0]];
    }
  }

  lemma Associative<T>(a: seq<T>, b: seq<T>, c: seq<T>)
    ensures a + (b + c) == a + b + c
  {
  }

  lemma TraceLast(w: World, resetAfter: int64, actions: seq<Action>, i: nat, first: seq<BrushingRuns.Action>)
    requires actions != []
    ensures var before := actions[..|actions| - 1];
      first + Trace(w, resetAfter, actions, i) ==
        first + Trace(w, resetAfter, before, i)
        + StepOf(After(w, resetAfter, before), resetAfter, actions[|actions| - 1], i)
  {
    var before := actions[..|actions| - 1];
    Associative(first, Trace(w, resetAfter, before, i),
                StepOf(After(w, resetAfter, before), resetAfter, actions[|actions| - 1], i));
  }

  lemma StepOfIsShort(w: World, resetAfter: int64, a: Action, i: nat)
    ensures |StepOf(w, resetAfter, a, i)| <= 1
  {
  }

  /**
   In any run of the bridge, from wherever a toothbrush stands, it goes through a
   run of its own. So every theorem about brushing runs holds of every accessory of
   every bridge run.
   */
  lemma {:induction false} BridgeRunsAreBrushingRuns(w: World, resetAfter: int64, actions: seq<Action>, i: nat,
                                                     first: seq<BrushingRuns.Action>)
    requires Began(w, i, first)
    ensures Began(After(w, resetAfter, actions), i, first + Trace(w, resetAfter, actions, i))
  {
    if actions == [] {
      assert first + [] == first;
    } else {
      var before, a := actions[..|actions| - 1], actions[|actions| - 1];
      BridgeRunsAreBrushingRuns(w, resetAfter, before, i, first);
      TraceLast(w, resetAfter, actions, i, first);
      StepBegan(After(w, resetAfter, before), resetAfter, a, i, first + Trace(w, resetAfter, before, i));
    }
  }

  lemma {:induction false} TraceIsShort(w: World, resetAfter: int64, actions: seq<Action>, i: nat)
    ensures |Trace(w, resetAfter, actions, i)| <= |actions|
  {
    if actions == [] {
    } else {
      var before := actions[..|actions| - 1];
      TraceIsShort(w, resetAfter, before, i);
      StepOfIsShort(After(w, resetAfter, before), resetAfter, actions[|actions| - 1], i);
    }
  }

  /** The watchdog bound for the whole bridge. */
  lemma BridgeTimedSafety(w: World, resetAfter: int64, actions: seq<Action>, i: nat, d: nat,
                          first: seq<BrushingRuns.Action>)
    requires Began(w, i, first) && |first| + |actions| < TWO_64
    requires BrushingRuns.Prompt(first + Trace(w, resetAfter, actions, i), d)
    ensures var b := BrushingRuns.After(first + Trace(w, resetAfter, actions, i));
      && IsBrush(After(w, resetAfter, actions), i)
      && (Motion(After(w, resetAfter, actions), i) && !b.closed ==>
          b.last.Some? && After(w, resetAfter, actions).clock <= b.last.value.at + Brushing.WATCHDOG + d)
  {
    BridgeRunsAreBrushingRuns(w, resetAfter, actions, i, first);
    TraceIsShort(w, resetAfter, actions, i);
    BrushingRuns.TimedSafety(first + Trace(w, resetAfter, actions, i), d);
  }
}
