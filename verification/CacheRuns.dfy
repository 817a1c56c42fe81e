/**
 What a run of the bridge leaves behind for the next start: the cache, the file and the
 device list. A report of a device that no accessory shows is cached too, so a device
 enrolled during the run shows its last readings as soon as the restart exposes it.
 */
module CacheRuns {
  import opened Base
  import opened Openmiio
  import opened Deduplication
  import opened Devices
  import opened Enrolment
  import opened Measurements
  import opened Pipeline
  import opened BridgeRuns
  import Brushing
  import EnrolmentRuns
  import Restarts
  import Sensors
  import Text

  /** The report carries the device's MAC, up to case, or its DID. */
  predicate Names(u: Update, d: Device) {
    (u.mac != "" && d.mac != "" && Text.ToLower(u.mac) == Text.ToLower(d.mac)) || (u.did != "" && u.did == d.did)
  }

  predicate HasAccessory(accessories: seq<Accessory>, u: Update) {
    exists i :: 0 <= i < |accessories| && Names(u, accessories[i].device)
  }

  lemma MatchedIff(accessories: seq<Accessory>, u: Update)
    ensures Match(accessories, u) < |accessories| <==> HasAccessory(accessories, u)
    ensures Match(accessories, u) < |accessories| ==> Names(u, accessories[Match(accessories, u)].device)
    ensures forall j :: 0 <= j < Match(accessories, u) ==> !Names(u, accessories[j].device)
  {
    assert forall i :: 0 <= i < |accessories| ==>
      (MatchesUpdate(accessories[i].device, u) <==> Names(u, accessories[i].device));
  }

  /** This report is accepted when it comes, by its own log of deliveries alone. */
  predicate Accepts(w: World, resetAfter: int64, a: Action) {
    a.Report? &&
    Outcome(w.log + [Delivery(a.update, a.counter, w.clock)], resetAfter, |w.log|) == Accepted
  }

  lemma AcceptsIsVerdict(w: World, resetAfter: int64, a: Action)
    requires Consistent(w, resetAfter) && a.Report?
    ensures Accepts(w, resetAfter, a) <==> Verdict(w.sys.frames, resetAfter, a.update, w.clock) == Accepted
  {
    assert (w.log + [Delivery(a.update, a.counter, w.clock)])[..|w.log|] == w.log;
  }

  // -------------------------------------------------------------- what it does

  /** What every accessory becomes: the matching one has the report applied if it is accepted or a repeated start. */
  lemma ReportReaches(w: World, resetAfter: int64, a: Action, i: nat)
    requires Consistent(w, resetAfter) && a.Report? && i < |w.sys.accessories|
    ensures var before, after := w.sys.accessories, Step(w, resetAfter, a).sys.accessories;
      var own := Names(a.update, before[i].device) && forall j :: 0 <= j < i ==> !Names(a.update, before[j].device);
      var again := Verdict(w.sys.frames, resetAfter, a.update, w.clock) == Duplicate
        && a.update.toothbrush.Some? && a.update.toothbrush.value.kind == 0;
      && |after| == |before|
      && after[i] == if own && (Accepts(w, resetAfter, a) || again)
                     then ApplyTo(before[i], a.update, Moment(w.clock, a.wall, a.saved)) else before[i]
  {
    AcceptsIsVerdict(w, resetAfter, a);
    MatchedIff(w.sys.accessories, a.update);
  }

  // ------------------------------------------------------------------ the cache

  /** What this action merges into the cache: an accepted report, or a kept one that some accessory shows. */
  function MergedBy(w: World, resetAfter: int64, a: Action): seq<Merging> {
    if Accepts(w, resetAfter, a) || (a.Kept? && HasAccessory(w.sys.accessories, a.update))
    then [Merging(a.update, a.wall)] else []
  }

  /** All that a run merges, in order. */
  function Mergings(w: World, resetAfter: int64, actions: seq<Action>): seq<Merging> {
    if actions == [] then []
    else
      var before := actions[..|actions| - 1];
      Mergings(w, resetAfter, before) + MergedBy(After(w, resetAfter, before), resetAfter, actions[|actions| - 1])
  }

  lemma MergeOne(c: Cache, u: Update, now: int64)
    ensures CacheAfter(c, [Merging(u, now)]) == MergedCache(c, u, now)
  {
    assert [Merging(u, now)][..0] == [];
  }

  lemma {:induction false} CacheAfterMore(c: Cache, ms: seq<Merging>, more: seq<Merging>)
    requires |more| <= 1
    ensures CacheAfter(c, ms + more) == CacheAfter(CacheAfter(c, ms), more)
  {
    if more == [] {
      assert ms + more == ms;
    } else {
      MergeOne(CacheAfter(c, ms), more[0].update, more[0].now);
      assert more == [Merging(more[0].update, more[0].now)];
      assert (ms + more)[..|ms|] == ms && (ms + more)[|ms|] == more[0];
    }
  }

  predicate Saves(a: Action) {
    (a.Report? || a.Kept?) && a.saved
  }

  /** One step: the cache, and the file when the cache changes and the save succeeds. */
  lemma StepCaches(w: World, resetAfter: int64, a: Action)
    requires Consistent(w, resetAfter)
    ensures var next := Step(w, resetAfter, a).sys;
      && next.cache == CacheAfter(w.sys.cache, MergedBy(w, resetAfter, a))
      && next.disk == if next.cache != w.sys.cache && Saves(a) then next.cache else w.sys.disk
  {
    if a.Report? {
      AcceptsIsVerdict(w, resetAfter, a);
      MergeOne(w.sys.cache, a.update, a.wall);
    } else if a.Kept? {
      MatchedIff(w.sys.accessories, a.update);
      MergeOne(w.sys.cache, a.update, a.wall);
    }
  }

  /**
   In every run the cache is the one it began with and exactly those reports merged, in
   order: every accepted one, whether or not an accessory shows its device.
   */
  lemma {:induction false} CacheIsMerged(w: World, resetAfter: int64, actions: seq<Action>)
    requires Consistent(w, resetAfter)
    ensures After(w, resetAfter, actions).sys.cache == CacheAfter(w.sys.cache, Mergings(w, resetAfter, actions))
  {
    if actions == [] {
    } else {
      var before, a := actions[..|actions| - 1], actions[|actions| - 1];
      var now := After(w, resetAfter, before);
      CacheIsMerged(w, resetAfter, before);
      RunConsistent(w, resetAfter, before);
      StepCaches(now, resetAfter, a);
      CacheAfterMore(w.sys.cache, Mergings(w, resetAfter, before), MergedBy(now, resetAfter, a));
    }
  }

  /** No later save succeeds that would write another cache. */
  ghost predicate NothingSavedFrom(w: World, resetAfter: int64, actions: seq<Action>, k: nat) {
    forall j :: k <= j < |actions| && Saves(actions[j]) ==>
      After(w, resetAfter, actions[..j + 1]).sys.cache == After(w, resetAfter, actions[..j]).sys.cache
  }

  lemma {:induction false} CacheOfPrefix(w: World, resetAfter: int64, actions: seq<Action>, n: nat, j: nat)
    requires j <= n <= |actions|
    ensures After(w, resetAfter, actions[..n][..j]).sys.cache == After(w, resetAfter, actions[..j]).sys.cache
  {
    assert actions[..n][..j] == actions[..j];
  }

  lemma {:induction false} NothingSavedNext(w: World, resetAfter: int64, actions: seq<Action>, k: nat)
    requires actions != [] && k < |actions| && NothingSavedFrom(w, resetAfter, actions[..|actions| - 1], k)
    requires Saves(actions[|actions| - 1]) ==>
      After(w, resetAfter, actions).sys.cache == After(w, resetAfter, actions[..|actions| - 1]).sys.cache
    ensures NothingSavedFrom(w, resetAfter, actions, k)
  {
    var n := |actions| - 1;
    assert actions[..n + 1] == actions;
    forall j | k <= j < n && Saves(actions[j])
      ensures After(w, resetAfter, actions[..j + 1]).sys.cache == After(w, resetAfter, actions[..j]).sys.cache
    {
      CacheOfPrefix(w, resetAfter, actions, n, j);
      CacheOfPrefix(w, resetAfter, actions, n, j + 1);
      assert Saves(actions[..n][j]);
    }
  }

  /** The file is the cache as it was at some point of the run, after which no change of it could be saved. */
  lemma {:induction false} FileIsCacheAt(w: World, resetAfter: int64, actions: seq<Action>) returns (k: nat)
    requires Consistent(w, resetAfter) && w.sys.disk == w.sys.cache
    ensures k <= |actions|
    ensures After(w, resetAfter, actions).sys.disk == After(w, resetAfter, actions[..k]).sys.cache
    ensures NothingSavedFrom(w, resetAfter, actions, k)
  {
    if actions == [] {
      k := 0;
    } else {
      var n := |actions| - 1;
      var before, a := actions[..n], actions[n];
      RunConsistent(w, resetAfter, before);
      StepCaches(After(w, resetAfter, before), resetAfter, a);
      if Saves(a) && After(w, resetAfter, actions).sys.cache != After(w, resetAfter, before).sys.cache {
        k := n + 1;
        assert actions[..k] == actions;
      } else {
        k := FileIsCacheAt(w, resetAfter, before);
        assert before[..k] == actions[..k];
        NothingSavedNext(w, resetAfter, actions, k);
      }
    }
  }

  /** So while saves succeed the file is the cache. */
  lemma {:induction false} FileFollows(w: World, resetAfter: int64, actions: seq<Action>)
    requires Consistent(w, resetAfter) && w.sys.disk == w.sys.cache
    requires forall a :: a in actions && (a.Report? || a.Kept?) ==> a.saved
    ensures After(w, resetAfter, actions).sys.disk == After(w, resetAfter, actions).sys.cache
  {
    if actions == [] {
    } else {
      var before, a := actions[..|actions| - 1], actions[|actions| - 1];
      assert a in actions;
      FileFollows(w, resetAfter, before);
      RunConsistent(w, resetAfter, before);
      StepCaches(After(w, resetAfter, before), resetAfter, a);
    }
  }

  // -------------------------------------------------------------- the device list

  /** The device list and the noted MACs after a run. */
  ghost function RegistryAfter(hash: Hash, mode: Mode, r: Registry, w: World, resetAfter: int64, actions: seq<Action>):
      (after: Registry)
    requires |r.devices| + |actions| < CYCLE
    ensures |after.devices| <= |r.devices| + |actions|
    decreases |actions|
  {
    if actions == [] then r
    else
      var n := |actions| - 1;
      var before, now, a := RegistryAfter(hash, mode, r, w, resetAfter, actions[..n]),
                            After(w, resetAfter, actions[..n]), actions[n];
      if !a.Report? then before
      else RegisterOne(hash, mode, before, now.sys, resetAfter, a.update, Moment(now.clock, a.wall, a.saved))
  }

  /** Action i is an accepted report of a supported product with this MAC, and no accessory shows its device. */
  ghost predicate Asks(w: World, resetAfter: int64, actions: seq<Action>, i: nat, mac: string) {
    && i < |actions| && Accepts(After(w, resetAfter, actions[..i]), resetAfter, actions[i])
    && actions[i].update.mac == mac != ""
    && (actions[i].update.productID == 5860 || actions[i].update.productID == 6032)
    && !HasAccessory(w.sys.accessories, actions[i].update)
  }

  lemma AsksPrefix(w: World, resetAfter: int64, actions: seq<Action>, n: nat, i: nat, mac: string)
    requires i < n <= |actions|
    ensures Asks(w, resetAfter, actions[..n], i, mac) <==> Asks(w, resetAfter, actions, i, mac)
  {
    assert actions[..n][..i] == actions[..i];
  }

  lemma HasAccessoryFixed(a: seq<Accessory>, b: seq<Accessory>, u: Update)
    requires SameDevices(a, b)
    ensures HasAccessory(a, u) <==> HasAccessory(b, u)
  {
    if i :| 0 <= i < |a| && Names(u, a[i].device) {
      assert Names(u, b[i].device);
    }
    if i :| 0 <= i < |b| && Names(u, b[i].device) {
      assert Names(u, a[i].device);
    }
  }

  /** The last action of a run is registered iff it asks. */
  lemma AsksIsUnmatched(w: World, resetAfter: int64, actions: seq<Action>)
    requires Consistent(w, resetAfter) && actions != [] && actions[|actions| - 1].Report?
    ensures var n := |actions| - 1;
      var now, a := After(w, resetAfter, actions[..n]), actions[n];
      Asks(w, resetAfter, actions, n, a.update.mac) <==>
        Unmatched(now.sys, resetAfter, a.update, Moment(now.clock, a.wall, a.saved)) && SupportedDiscovery(a.update)
  {
    var n := |actions| - 1;
    var now, a := After(w, resetAfter, actions[..n]), actions[n];
    RunConsistent(w, resetAfter, actions[..n]);
    RunDevices(w, resetAfter, actions[..n]);
    AcceptsIsVerdict(now, resetAfter, a);
    MatchedIff(now.sys.accessories, a.update);
    HasAccessoryFixed(w.sys.accessories, now.sys.accessories, a.update);
  }

  ghost predicate SomeAsks(w: World, resetAfter: int64, actions: seq<Action>, mac: string) {
    exists i: nat :: Asks(w, resetAfter, actions, i, mac)
  }

  lemma SomeAsksSnoc(w: World, resetAfter: int64, actions: seq<Action>, mac: string)
    requires actions != []
    ensures SomeAsks(w, resetAfter, actions, mac) <==>
      SomeAsks(w, resetAfter, actions[..|actions| - 1], mac) || Asks(w, resetAfter, actions, |actions| - 1, mac)
  {
    var n := |actions| - 1;
    forall i: nat | i < n { AsksPrefix(w, resetAfter, actions, n, i, mac); }
    if i: nat :| Asks(w, resetAfter, actions[..n], i, mac) {
      assert Asks(w, resetAfter, actions, i, mac);
    }
    if i: nat :| Asks(w, resetAfter, actions, i, mac) {
      assert i == n || Asks(w, resetAfter, actions[..n], i, mac);
    }
  }

  /** Record k was made of the report of action i, the first that asked for its MAC. */
  ghost predicate MadeFrom(w: World, resetAfter: int64, actions: seq<Action>, d: Device, k: nat, i: nat) {
    && Asks(w, resetAfter, actions, i, d.mac) && !SomeAsks(w, resetAfter, actions[..i], d.mac)
    && TakenFrom(d, actions[i].update, k + 1)
  }

  ghost predicate MadeBy(w: World, resetAfter: int64, actions: seq<Action>, d: Device, k: nat) {
    exists i: nat :: MadeFrom(w, resetAfter, actions, d, k, i)
  }

  lemma MadeByLonger(w: World, resetAfter: int64, actions: seq<Action>, d: Device, k: nat)
    requires actions != [] && MadeBy(w, resetAfter, actions[..|actions| - 1], d, k)
    ensures MadeBy(w, resetAfter, actions, d, k)
  {
    var n := |actions| - 1;
    var i: nat :| MadeFrom(w, resetAfter, actions[..n], d, k, i);
    AsksPrefix(w, resetAfter, actions, n, i, d.mac);
    assert actions[..n][..i] == actions[..i];
    assert MadeFrom(w, resetAfter, actions, d, k, i);
  }

  /**
   What the last report of a run does to the registry: its MAC is noted if it asks, and in
   auto mode enrolled if it was not noted before.
   */
  ghost predicate Registers(mode: Mode, r: Registry, after: Registry, w: World, resetAfter: int64, actions: seq<Action>)
    requires actions != [] && actions[|actions| - 1].Report?
  {
    var u := actions[|actions| - 1].update;
    var asks := Asks(w, resetAfter, actions, |actions| - 1, u.mac);
    && after.unknown == (if asks then r.unknown + {u.mac} else r.unknown)
    && if asks && u.mac !in r.unknown && mode == Auto then
         && |after.devices| == |r.devices| + 1 && after.devices[..|r.devices|] == r.devices
         && TakenFrom(after.devices[|r.devices|], u, |r.devices| + 1)
       else
         after.devices == r.devices
  }

  lemma ReportRegisters(hash: Hash, mode: Mode, r: Registry, w: World, resetAfter: int64, actions: seq<Action>)
    requires |r.devices| < CYCLE && Settled(r.devices) && Consistent(w, resetAfter)
    requires actions != [] && actions[|actions| - 1].Report?
    ensures var n := |actions| - 1;
      var now, a := After(w, resetAfter, actions[..n]), actions[n];
      var after := RegisterOne(hash, mode, r, now.sys, resetAfter, a.update, Moment(now.clock, a.wall, a.saved));
      Registers(mode, r, after, w, resetAfter, actions)
  {
    var n := |actions| - 1;
    var u := actions[n].update;
    AsksIsUnmatched(w, resetAfter, actions);
    AppendKeepsOthers(hash, r.devices, DeviceFromUpdate(u, |r.devices| + 1));
    if SupportedDiscovery(u) {
      PreparedIsTaken(hash, r.devices, u, |r.devices| + 1);
    }
  }

  /** The MACs noted so far are those of the start and of the reports that asked. */
  ghost predicate Noted(r: Registry, after: Registry, w: World, resetAfter: int64, actions: seq<Action>) {
    forall mac :: mac in after.unknown <==> mac in r.unknown || SomeAsks(w, resetAfter, actions, mac)
  }

  ghost predicate AllMadeBy(r: Registry, after: Registry, w: World, resetAfter: int64, actions: seq<Action>) {
    forall k :: |r.devices| <= k < |after.devices| ==> MadeBy(w, resetAfter, actions, after.devices[k], k)
  }

  lemma ReportNoted(mode: Mode, r: Registry, before: Registry, after: Registry, w: World, resetAfter: int64,
                    actions: seq<Action>)
    requires actions != [] && actions[|actions| - 1].Report?
    requires Registers(mode, before, after, w, resetAfter, actions)
    requires Noted(r, before, w, resetAfter, actions[..|actions| - 1])
    ensures Noted(r, after, w, resetAfter, actions)
  {
    forall mac ensures mac in after.unknown <==> mac in r.unknown || SomeAsks(w, resetAfter, actions, mac) {
      SomeAsksSnoc(w, resetAfter, actions, mac);
    }
  }

  lemma ReportMade(mode: Mode, r: Registry, before: Registry, after: Registry, w: World, resetAfter: int64,
                   actions: seq<Action>)
    requires actions != [] && actions[|actions| - 1].Report? && |r.devices| <= |before.devices|
    requires Registers(mode, before, after, w, resetAfter, actions)
    requires Noted(r, before, w, resetAfter, actions[..|actions| - 1])
    requires AllMadeBy(r, before, w, resetAfter, actions[..|actions| - 1])
    ensures AllMadeBy(r, after, w, resetAfter, actions)
  {
    var n := |actions| - 1;
    forall k | |r.devices| <= k < |after.devices| ensures MadeBy(w, resetAfter, actions, after.devices[k], k) {
      if k < |before.devices| {
        assert after.devices[k] == before.devices[k];
        MadeByLonger(w, resetAfter, actions, before.devices[k], k);
      } else {
        assert MadeFrom(w, resetAfter, actions, after.devices[k], k, n);
      }
    }
  }

  /**
   Every run: auto mode enrols exactly the MACs of the reports that ask and were not
   noted before, each once and as its first such report describes it, after the records
   that were there; the other modes enrol none.
   */
  lemma {:induction false} EnrolledIff(hash: Hash, mode: Mode, r: Registry, w: World, resetAfter: int64,
                                       actions: seq<Action>)
    requires |r.devices| + |actions| < CYCLE && Consistent(w, resetAfter) && Settled(r.devices)
    ensures var after := RegistryAfter(hash, mode, r, w, resetAfter, actions);
      && Grown(mode, r, after)
      && Noted(r, after, w, resetAfter, actions) && AllMadeBy(r, after, w, resetAfter, actions)
    decreases |actions|
  {
    if actions == [] {
    } else {
      var n := |actions| - 1;
      var before := RegistryAfter(hash, mode, r, w, resetAfter, actions[..n]);
      EnrolledIff(hash, mode, r, w, resetAfter, actions[..n]);
      if actions[n].Report? {
        var after := RegistryAfter(hash, mode, r, w, resetAfter, actions);
        RegisterGrows(hash, mode, r, before, actions[n].update);
        ReportRegisters(hash, mode, before, w, resetAfter, actions);
        ReportNoted(mode, r, before, after, w, resetAfter, actions);
        ReportMade(mode, r, before, after, w, resetAfter, actions);
      } else {
        forall mac { SomeAsksSnoc(w, resetAfter, actions, mac); }
        forall k | |r.devices| <= k < |before.devices| { MadeByLonger(w, resetAfter, actions, before.devices[k], k); }
      }
    }
  }

  // --------------------------------------------- the loop's own runs are runs

  lemma {:induction false} AfterConcat(w: World, resetAfter: int64, a: seq<Action>, b: seq<Action>)
    ensures After(w, resetAfter, a + b) == After(After(w, resetAfter, a), resetAfter, b)
  {
    if b == [] {
      assert a + b == a;
    } else {
      AfterConcat(w, resetAfter, a, b[..|b| - 1]);
      assert (a + b)[..|a + b| - 1] == a + b[..|b| - 1];
    }
  }

  lemma {:induction false} RegistryConcat(hash: Hash, mode: Mode, r: Registry, w: World, resetAfter: int64,
                                          a: seq<Action>, b: seq<Action>)
    requires |r.devices| + |a| + |b| < CYCLE
    ensures RegistryAfter(hash, mode, r, w, resetAfter, a + b) ==
      RegistryAfter(hash, mode, RegistryAfter(hash, mode, r, w, resetAfter, a), After(w, resetAfter, a), resetAfter, b)
    decreases |b|
  {
    if b == [] {
      assert a + b == a;
    } else {
      var n := |b| - 1;
      RegistryConcat(hash, mode, r, w, resetAfter, a, b[..n]);
      AfterConcat(w, resetAfter, a, b[..n]);
      assert (a + b)[..|a + b| - 1] == a + b[..n];
    }
  }

  function KeptRun(order: seq<Update>, m: Moment): seq<Action> {
    seq(|order|, i requires 0 <= i < |order| => Kept(order[i], m.wall, m.saved))
  }

  lemma {:induction false} LastKept(w: World, resetAfter: int64, order: seq<Update>, m: Moment)
    requires order != []
    ensures After(w, resetAfter, KeptRun(order, m)) ==
      Step(After(w, resetAfter, KeptRun(order[..|order| - 1], m)), resetAfter,
           Kept(order[|order| - 1], m.wall, m.saved))
  {
    assert KeptRun(order, m)[..|order| - 1] == KeptRun(order[..|order| - 1], m);
  }

  /** What processing the kept reports leaves is where a run of them leads. */
  lemma {:induction false} InitialIsRun(w: World, resetAfter: int64, order: seq<Update>, m: Moment)
    requires m.at == w.clock
    ensures After(w, resetAfter, KeptRun(order, m)) == w.(sys := InitialAll(w.sys, order, m))
  {
    if order == [] {
    } else {
      var n := |order| - 1;
      InitialIsRun(w, resetAfter, order[..n], m);
      LastKept(w, resetAfter, order, m);
    }
  }

  /** The reports of the queue come in order of time. */
  predicate Timely(clock: nat, queue: seq<(Update, Moment)>)
    decreases |queue|
  {
    queue == [] || (clock <= queue[0].1.at && Timely(queue[0].1.at, queue[1..]))
  }

  /** Time passes until a report comes, and it is processed. */
  function Turn(clock: nat, u: Update, m: Moment): seq<Action>
    requires clock <= m.at
  {
    [Tick(m.at - clock), Report(u, u.frameCount, m.wall, m.saved)]
  }

  function RunOf(clock: nat, queue: seq<(Update, Moment)>): (run: seq<Action>)
    requires Timely(clock, queue)
    ensures |run| == 2 * |queue|
    decreases |queue|
  {
    if queue == [] then []
    else Turn(clock, queue[0].0, queue[0].1) + RunOf(queue[0].1.at, queue[1..])
  }

  lemma AfterTurn(hash: Hash, mode: Mode, r: Registry, w: World, resetAfter: int64, u: Update, m: Moment)
    requires w.clock <= m.at && |r.devices| + 2 < CYCLE
    ensures var next := After(w, resetAfter, Turn(w.clock, u, m));
      next.sys == Process(w.sys, resetAfter, u, m) && next.clock == m.at
    ensures RegistryAfter(hash, mode, r, w, resetAfter, Turn(w.clock, u, m)) ==
      RegisterOne(hash, mode, r, w.sys, resetAfter, u, m)
  {
    var run, first := Turn(w.clock, u, m), [Tick(m.at - w.clock)];
    assert run[..1] == first && first[..0] == [];
    assert After(w, resetAfter, first) == Step(After(w, resetAfter, []), resetAfter, first[0]) == w.(clock := m.at);
    assert RegistryAfter(hash, mode, r, w, resetAfter, first) == RegistryAfter(hash, mode, r, w, resetAfter, []) == r;
    assert Moment(m.at, m.wall, m.saved) == m;
  }

  /** What the loop leaves after a queue of reports, the device list included, is where a run leads. */
  lemma {:induction false} QueueIsRun(hash: Hash, mode: Mode, r: Registry, w: World, resetAfter: int64,
                                      queue: seq<(Update, Moment)>)
    requires Timely(w.clock, queue) && |r.devices| + 2 * |queue| < CYCLE
    ensures After(w, resetAfter, RunOf(w.clock, queue)).sys == ProcessAll(w.sys, resetAfter, queue)
    ensures RegistryAfter(hash, mode, r, w, resetAfter, RunOf(w.clock, queue)) ==
      RegisterAll(hash, mode, r, Unmatcheds(w.sys, resetAfter, queue))
    decreases |queue|
  {
    if queue == [] {
    } else {
      var u, m := queue[0].0, queue[0].1;
      var turn, rest := Turn(w.clock, u, m), RunOf(m.at, queue[1..]);
      var next, registered := After(w, resetAfter, turn), RegistryAfter(hash, mode, r, w, resetAfter, turn);
      AfterTurn(hash, mode, r, w, resetAfter, u, m);
      AfterConcat(w, resetAfter, turn, rest);
      RegistryConcat(hash, mode, r, w, resetAfter, turn, rest);
      RegisterNext(hash, mode, r, w.sys, resetAfter, queue, 0);
      assert queue[0..] == queue;
      QueueIsRun(hash, mode, registered, next, resetAfter, queue[1..]);
    }
  }

  // ------------------------------------------------------- after the restart

  /** internal/bridge/device.go: the accessory of a record, by its product ID or else by its model. */
  function NewAccessory(d: Device): Option<Accessory> {
    var product := if LookupModel(d.productID).Some? then Some(d.productID) else LookupProductByModel(d.model);
    if product == Some(PRODUCT_SENSOR_HT_O2) then Some(Climate(d, Sensors.Climate(None, None, None)))
    else if product == Some(PRODUCT_TOOTHBRUSH_T700I) then Some(Brush(d, Brushing.NEW_SESSION))
    else None
  }

  lemma {:induction false} LaterMerged(w: World, resetAfter: int64, actions: seq<Action>, n: nat, m: Merging)
    requires n <= |actions| && m in Mergings(w, resetAfter, actions[..n])
    ensures m in Mergings(w, resetAfter, actions)
    decreases |actions|
  {
    if n < |actions| {
      assert actions[..|actions| - 1][..n] == actions[..n];
      LaterMerged(w, resetAfter, actions[..|actions| - 1], n, m);
    } else {
      assert actions[..n] == actions;
    }
  }

  lemma {:induction false} MergingsSnoc(w: World, resetAfter: int64, actions: seq<Action>, i: nat)
    requires i < |actions|
    ensures Mergings(w, resetAfter, actions[..i + 1]) ==
      Mergings(w, resetAfter, actions[..i]) + MergedBy(After(w, resetAfter, actions[..i]), resetAfter, actions[i])
  {
    assert actions[..i + 1][..i] == actions[..i];
  }

  lemma AcceptedMerges(w: World, resetAfter: int64, a: Action)
    requires Accepts(w, resetAfter, a)
    ensures Merging(a.update, a.wall) in MergedBy(w, resetAfter, a)
  {
  }

  /** What an accepted report merges is among the mergings of the run. */
  lemma {:induction false} AcceptedIsMerged(w: World, resetAfter: int64, actions: seq<Action>, i: nat)
    requires i < |actions| && Accepts(After(w, resetAfter, actions[..i]), resetAfter, actions[i])
    ensures Merging(actions[i].update, actions[i].wall) in Mergings(w, resetAfter, actions)
  {
    AcceptedMerges(After(w, resetAfter, actions[..i]), resetAfter, actions[i]);
    MergingsSnoc(w, resetAfter, actions, i);
    LaterMerged(w, resetAfter, actions, i + 1, Merging(actions[i].update, actions[i].wall));
  }

  function BatteryShown(v: Values): Option<Brushing.BatteryLevel> {
    if v.battery.Some? then Some(Brushing.BatteryLevel(v.battery.value, v.battery.value <= 20)) else None
  }

  lemma NewShows(d: Device, c: Cache, m: Moment)
    requires d.productID == 5860 || d.productID == 6032
    ensures NewAccessory(d).Some?
    ensures var v := RestoredValues(c, d);
      Restarts.Visible(RestoreOne(NewAccessory(d).value, c, m)) ==
        if d.productID == 5860 then Sensors.Climate(v.temperature, v.humidity, BatteryShown(v))
        else Sensors.Climate(None, None, BatteryShown(v))
  {
    Restarts.RestoredShows(NewAccessory(d).value, c, m);
  }

  /** Such a report is merged under the MAC of its record. */
  lemma {:induction false} MadeFromMerged(w: World, resetAfter: int64, actions: seq<Action>, d: Device, k: nat, i: nat)
    requires MadeFrom(w, resetAfter, actions, d, k, i)
    ensures d.productID == 5860 || d.productID == 6032
    ensures exists m :: m in Mergings(w, resetAfter, actions) && m.update.mac == d.mac
  {
    AcceptedIsMerged(w, resetAfter, actions, i);
    assert Merging(actions[i].update, actions[i].wall).update.mac == d.mac;
  }

  /** What the next start reads for a device: its last reported values, from those the run began with. */
  lemma LoadedLast(w: World, resetAfter: int64, actions: seq<Action>, e: Device, loaded: Cache)
    requires Consistent(w, resetAfter) && Restarts.OnFile(w) && Restarts.AllSaved(actions)
    requires LoadResult(After(w, resetAfter, actions).sys.disk, loaded)
    requires var p, ms := PairOf(e), Mergings(w, resetAfter, actions);
      && p.mac != "" && !(DID <= p.mac) && (DID + p.did in w.sys.cache ==> p.did != "" && p.mac !in w.sys.cache)
      && InOrder(p.mac in w.sys.cache, ms, p) && forall m :: m in ms ==> Owned(m.update, p)
    ensures LastReported(RestoredValues(w.sys.cache, e), Mergings(w, resetAfter, actions), PairOf(e),
                         RestoredValues(loaded, e))
  {
    Restarts.AlwaysOnFile(w, resetAfter, actions);
    LoadKeepsStableCache(After(w, resetAfter, actions).sys.disk, loaded);
    CacheIsMerged(w, resetAfter, actions);
    RestoreReturnsLast(w.sys.cache, Mergings(w, resetAfter, actions), e);
  }

  /**
   A device that a run enrols, which no accessory has shown so far: while saves succeed and
   nobody else names its keys, the accessory made of its record at the next start shows
   the last reading of every field reported in the run, the report that enrolled it included.
   */
  lemma EnrolledShowsLast(hash: Hash, mode: Mode, r: Registry, w: World, resetAfter: int64, actions: seq<Action>,
                          k: nat, e: Device, loaded: Cache, m: Moment)
    requires |r.devices| + |actions| < CYCLE && Consistent(w, resetAfter) && Settled(r.devices)
    requires Restarts.OnFile(w) && Restarts.AllSaved(actions)
    requires |r.devices| <= k < |RegistryAfter(hash, mode, r, w, resetAfter, actions).devices|
    requires EnrolmentRuns.SameRecord(RegistryAfter(hash, mode, r, w, resetAfter, actions).devices[k], e)
    requires LoadResult(After(w, resetAfter, actions).sys.disk, loaded)
    requires var p, ms := PairOf(e), Mergings(w, resetAfter, actions);
      && p.mac != "" && !(DID <= p.mac) && (DID + p.did in w.sys.cache ==> p.did != "" && p.mac !in w.sys.cache)
      && InOrder(p.mac in w.sys.cache, ms, p) && forall m :: m in ms ==> Owned(m.update, p)
    ensures var ms, v := Mergings(w, resetAfter, actions), RestoredValues(loaded, e);
      && LastReported(RestoredValues(w.sys.cache, e), ms, PairOf(e), v)
      && (exists merged :: merged in ms && ByMac(merged.update, PairOf(e)))
      && NewAccessory(e).Some?
      && Restarts.Visible(RestoreOne(NewAccessory(e).value, loaded, m)) ==
           if e.productID == 5860 then Sensors.Climate(v.temperature, v.humidity, BatteryShown(v))
           else Sensors.Climate(None, None, BatteryShown(v))
  {
    var d := RegistryAfter(hash, mode, r, w, resetAfter, actions).devices[k];
    EnrolledIff(hash, mode, r, w, resetAfter, actions);
    assert MadeBy(w, resetAfter, actions, d, k);
    var i: nat :| MadeFrom(w, resetAfter, actions, d, k, i);
    MadeFromMerged(w, resetAfter, actions, d, k, i);
    var merged :| merged in Mergings(w, resetAfter, actions) && merged.update.mac == d.mac;
    assert ByMac(merged.update, PairOf(e));
    LoadedLast(w, resetAfter, actions, e, loaded);
    assert e.productID == d.productID by { assert EnrolmentRuns.Canonical(d) == EnrolmentRuns.Canonical(e); }
    NewShows(e, loaded, m);
  }
}
