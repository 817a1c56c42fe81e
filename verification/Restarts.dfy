/**
 What a restart shows. For a device with a MAC of its own, the cache always holds
 what the live accessory displays, so a restart displays the same readings again,
 with motion off.
 */
module Restarts {
  import opened Base
  import opened Openmiio
  import opened Deduplication
  import opened Devices
  import opened Measurements
  import opened Pipeline
  import opened BridgeRuns
  import Brushing
  import BrushingRuns
  import Discovery
  import Enrolment
  import Sensors
  import Text

  /** Everything HomeKit sees of an accessory's readings. */
  function Visible(a: Accessory): Sensors.Climate {
    match a
    case Climate(_, c) => c
    case Brush(_, s) => Sensors.Climate(None, None, s.battery)
  }

  function ShownBattery(v: Values): Option<Brushing.BatteryLevel> {
    if v.battery.Some? then Some(Brushing.ShowBattery(v.battery.value)) else None
  }

  /** How an accessory of this kind displays cached values: a toothbrush has only a battery. */
  function Display(a: Accessory, v: Values): Sensors.Climate {
    if a.Brush? then Sensors.Climate(None, None, ShownBattery(v))
    else Sensors.Climate(v.temperature, v.humidity, ShownBattery(v))
  }

  lemma SessionKeepsBattery(s: Brushing.Session, u: Update, now: int, wall: int64)
    ensures Brushing.ApplyUpdate(s, u, now, wall).battery == Brushing.ShowUpdate(s, u).battery
  {
  }

  /** Applying an update displays its values over the ones displayed. */
  lemma ApplyDisplays(a: Accessory, v: Values, u: Update, m: Moment)
    requires Visible(a) == Display(a, v)
    ensures Visible(ApplyTo(a, u, m)) == Display(ApplyTo(a, u, m), Overlay(v, ValuesOf(u)))
  {
    if a.Brush? {
      SessionKeepsBattery(a.session, u, m.at, m.wall);
    }
  }

  // ----------------------------------------------------- a device of its own

  /**
   The accessory at i; its key in the cache and in the deduplicator; the DID keys its
   reports also name, which are never used; whether it sends start frames.
   */
  datatype Owner = Owner(i: nat, key: string, frames: string, spare: set<string>, starts: bool)

  predicate Own(o: Owner, u: Update) {
    Identity(u.mac, u.did) == o.key
  }

  predicate Spares(o: Owner, did: string) {
    did == "" || DidKey(did) == o.key || DidKey(did) in o.spare
  }

  /** Identities are distinct: what is the device's reaches it, and nobody else names its keys. */
  predicate Owns(accessories: seq<Accessory>, o: Owner, u: Update) {
    && !LooksLikeUntrimmedDid(u.mac)
    && (Match(accessories, u) == o.i <==> Own(o, u))
    && (Own(o, u) ==>
        && Spares(o, u.did)
        && (u.hasFrameCount ==> Counted(u) && Key(u) == o.frames)
        && (o.starts ==> u.hasFrameCount) && (u.IsStart() ==> o.starts))
    && (!Own(o, u) ==>
        && Identity(u.mac, u.did) !in o.spare && (u.did != "" ==> DidKey(u.did) != o.key)
        && !(Counted(u) && Key(u) == o.frames))
  }

  /** A device with a MAC, whose reports all carry it and a frame counter. */
  function MacOwner(i: nat, mac: string, dids: set<string>): Owner {
    Owner(i, mac, mac, set x | x in dids :: DID + x, true)
  }

  ghost predicate OwnsMac(accessories: seq<Accessory>, i: nat, mac: string, dids: set<string>, u: Update) {
    && u.mac == Text.NormalizeMAC(u.mac)
    && !LooksLikeUntrimmedDid(u.mac)
    && (Match(accessories, u) == i <==> u.mac == mac)
    && (u.mac == mac ==> u.hasFrameCount && Text.TrimSpace(u.did) in dids)
    && (u.mac != mac ==> forall x :: x in dids ==> Identity(u.mac, u.did) != DID + x)
  }

  lemma MacOwns(accessories: seq<Accessory>, i: nat, mac: string, dids: set<string>, u: Update)
    requires mac != "" && !(DID <= mac) && OwnsMac(accessories, i, mac, dids, u)
    ensures Owns(accessories, MacOwner(i, mac, dids), u)
  {
    Text.NormalizedIsLower(u.mac);
    assert DID <= DidKey(u.did) && (u.mac == "" ==> DID <= Key(u));
  }

  /** A device known by DID alone, whose reports carry no MAC; so they are MIoT property reports. */
  function DidOwner(i: nat, did: string): Owner {
    Owner(i, DID + did, DID + did, {}, false)
  }

  predicate OwnsDid(accessories: seq<Accessory>, i: nat, did: string, u: Update) {
    && !LooksLikeUntrimmedDid(u.mac) && !(DID <= Text.NormalizeMAC(u.mac))
    && (Match(accessories, u) == i <==> Text.TrimSpace(u.did) == did)
    && (Text.TrimSpace(u.did) == did ==> Text.NormalizeMAC(u.mac) == "" && !u.hasFrameCount && !u.IsStart())
    && (Text.TrimSpace(u.did) != did ==> !(Counted(u) && Key(u) == DID + did))
  }

  lemma DidOwns(accessories: seq<Accessory>, i: nat, did: string, u: Update)
    requires did != "" && OwnsDid(accessories, i, did, u)
    ensures Owns(accessories, DidOwner(i, did), u)
  {
    assert DidKey(u.did)[|DID|..] == Text.TrimSpace(u.did) && (DID + did)[|DID|..] == did;
    assert DID <= DID + did;
  }

  /** Equal counters mean equal readings: what is taken for a repeat brings no others. */
  ghost predicate RepeatsAreCopies(log: seq<Delivery>, resetAfter: int64, key: string) {
    forall i :: 0 <= i < |log| && Of(log[i], key) && Outcome(log, resetAfter, i) == Duplicate ==>
      Brought(LastAccepted(log[..i], resetAfter, key), log[i].update)
  }

  predicate Brought(last: Option<Update>, u: Update) {
    last.Some? && ValuesOf(last.value) == ValuesOf(u)
  }

  lemma CopiesSnoc(log: seq<Delivery>, resetAfter: int64, key: string, d: Delivery)
    requires RepeatsAreCopies(log + [d], resetAfter, key)
    ensures RepeatsAreCopies(log, resetAfter, key)
    ensures Of(d, key) && Verdict(FramesAfter(log, resetAfter), resetAfter, d.update, d.at) == Duplicate ==>
      Brought(LastAccepted(log, resetAfter, key), d.update)
  {
    var all := log + [d];
    assert all[..|log|] == log && all[|log|] == d;
    forall i | 0 <= i < |log| && Of(log[i], key) && Outcome(log, resetAfter, i) == Duplicate
      ensures Brought(LastAccepted(log[..i], resetAfter, key), log[i].update)
    {
      assert all[..i] == log[..i] && all[i] == log[i];
      assert Outcome(all, resetAfter, i) == Duplicate;
    }
    if Of(d, key) && Verdict(FramesAfter(log, resetAfter), resetAfter, d.update, d.at) == Duplicate {
      assert Outcome(all, resetAfter, |log|) == Duplicate;
    }
  }

  // -------------------------------------------------------------- agreement

  function CachedUnder(c: Cache, key: string): Values {
    if key in c then c[key].values else NOTHING
  }

  /** The accessory's device is the owner, and it shows what is cached under its key. */
  predicate ShowsCached(a: Accessory, c: Cache, o: Owner) {
    && Identity(a.device.mac, a.device.did) == o.key && Spares(o, a.device.did)
    && Visible(a) == Display(a, CachedUnder(c, o.key))
  }

  /** The accessory, the cache and the file agree about this device. */
  ghost predicate InStep(w: World, resetAfter: int64, o: Owner) {
    && Consistent(w, resetAfter)
    && o.key != "" && o.key !in o.spare
    && o.i < |w.sys.accessories| && ShowsCached(w.sys.accessories[o.i], w.sys.cache, o)
    && w.sys.disk == w.sys.cache && StableKeys(w.sys.cache)
    && w.sys.cache.Keys !! o.spare
  }

  /** The last accepted frame is already shown, so repeating it shows nothing new. */
  predicate LastShown(w: World, resetAfter: int64, o: Owner) {
    var last, v := LastAccepted(w.log, resetAfter, o.frames), CachedUnder(w.sys.cache, o.key);
    o.starts && last.Some? ==> Overlay(v, ValuesOf(last.value)) == v
  }

  ghost predicate Agree(w: World, resetAfter: int64, o: Owner) {
    InStep(w, resetAfter, o) && LastShown(w, resetAfter, o)
  }

  /** Restore looks exactly where Agree does. */
  lemma RestoredIsCached(c: Cache, d: Device, o: Owner)
    requires Identity(d.mac, d.did) == o.key && Spares(o, d.did) && c.Keys !! o.spare
    ensures RestoredValues(c, d) == CachedUnder(c, o.key)
  {
  }

  /** The device's own update extends what is cached under its key; nothing is promoted. */
  lemma OwnMerge(c: Cache, o: Owner, u: Update, wall: int64)
    requires o.key != "" && o.key !in o.spare && c.Keys !! o.spare
    requires Own(o, u) && Spares(o, u.did)
    ensures CachedUnder(MergedCache(c, u, wall), o.key) == Overlay(CachedUnder(c, o.key), ValuesOf(u))
    ensures MergedCache(c, u, wall).Keys !! o.spare
  {
    assert !Promotes(c, u);
  }

  /** Anybody else's update leaves it alone. */
  lemma OtherMerge(c: Cache, o: Owner, u: Update, wall: int64)
    requires c.Keys !! o.spare && !Own(o, u)
    requires Identity(u.mac, u.did) !in o.spare && (u.did != "" ==> DidKey(u.did) != o.key)
    ensures CachedUnder(MergedCache(c, u, wall), o.key) == CachedUnder(c, o.key)
    ensures MergedCache(c, u, wall).Keys !! o.spare
  {
  }

  lemma MergeStable(c: Cache, u: Update, wall: int64)
    requires StableKeys(c) && !LooksLikeUntrimmedDid(u.mac)
    ensures StableKeys(MergedCache(c, u, wall))
  {
    KeyIsFixedIff(u.mac, u.did);
  }

  lemma PersistedOnDisk(sys: System, u: Update, m: Moment)
    requires sys.disk == sys.cache && m.saved
    ensures Persist(sys, u, m).disk == Persist(sys, u, m).cache == MergedCache(sys.cache, u, m.wall)
  {
  }

  /** Applied and cached together, the device's own update keeps them in step. */
  lemma OwnDelivery(sys: System, o: Owner, u: Update, m: Moment)
    requires o.key != "" && o.key !in o.spare && sys.cache.Keys !! o.spare
    requires o.i < |sys.accessories| && ShowsCached(sys.accessories[o.i], sys.cache, o)
    requires sys.disk == sys.cache && StableKeys(sys.cache) && m.saved
    requires Owns(sys.accessories, o, u) && Own(o, u)
    ensures var next := React(sys, Accepted, u, m);
      && |next.accessories| == |sys.accessories| && ShowsCached(next.accessories[o.i], next.cache, o)
      && next.disk == next.cache && StableKeys(next.cache) && next.cache.Keys !! o.spare
      && CachedUnder(next.cache, o.key) == Overlay(CachedUnder(sys.cache, o.key), ValuesOf(u))
      && next.frames == sys.frames
  {
    ApplyDisplays(sys.accessories[o.i], CachedUnder(sys.cache, o.key), u, m);
    OwnMerge(sys.cache, o, u, m.wall);
    MergeStable(sys.cache, u, m.wall);
    PersistedOnDisk(sys, u, m);
  }

  /** Somebody else's leaves this device as it is. */
  lemma OtherDelivery(sys: System, o: Owner, u: Update, m: Moment)
    requires o.i < |sys.accessories| && ShowsCached(sys.accessories[o.i], sys.cache, o)
    requires sys.disk == sys.cache && StableKeys(sys.cache) && m.saved && sys.cache.Keys !! o.spare
    requires Owns(sys.accessories, o, u) && !Own(o, u)
    ensures var next := React(sys, Accepted, u, m);
      && |next.accessories| == |sys.accessories| && ShowsCached(next.accessories[o.i], next.cache, o)
      && next.disk == next.cache && StableKeys(next.cache) && next.cache.Keys !! o.spare
      && CachedUnder(next.cache, o.key) == CachedUnder(sys.cache, o.key)
      && next.frames == sys.frames
  {
    OtherMerge(sys.cache, o, u, m.wall);
    MergeStable(sys.cache, u, m.wall);
    PersistedOnDisk(sys, u, m);
  }

  lemma AcceptedReportAgrees(w: World, resetAfter: int64, o: Owner, a: Action)
    requires Agree(w, resetAfter, o) && a.Report? && a.saved && Owns(w.sys.accessories, o, a.update)
    requires Verdict(w.sys.frames, resetAfter, a.update, w.clock) == Accepted
    ensures Agree(Step(w, resetAfter, a), resetAfter, o)
  {
    var u, m, d := a.update, Moment(w.clock, a.wall, a.saved), Delivery(a.update, a.counter, w.clock);
    var seen := w.sys.(frames := Remember(w.sys.frames, resetAfter, u, m.at));
    StepConsistent(w, resetAfter, a);
    LastAcceptedSnoc(w.log, resetAfter, o.frames, d);
    if Own(o, u) {
      OwnDelivery(seen, o, u, m);
    } else {
      OtherDelivery(seen, o, u, m);
    }
  }

  lemma RefusedReportAgrees(w: World, resetAfter: int64, o: Owner, a: Action)
    requires Agree(w, resetAfter, o) && a.Report? && Owns(w.sys.accessories, o, a.update)
    requires Verdict(w.sys.frames, resetAfter, a.update, w.clock) != Accepted
    requires RepeatsAreCopies(Step(w, resetAfter, a).log, resetAfter, o.frames)
    ensures Agree(Step(w, resetAfter, a), resetAfter, o)
  {
    var u, m, d := a.update, Moment(w.clock, a.wall, a.saved), Delivery(a.update, a.counter, w.clock);
    StepConsistent(w, resetAfter, a);
    LastAcceptedSnoc(w.log, resetAfter, o.frames, d);
    CopiesSnoc(w.log, resetAfter, o.frames, d);
    ApplyDisplays(w.sys.accessories[o.i], CachedUnder(w.sys.cache, o.key), u, m);
  }

  lemma TimerStepAgrees(w: World, resetAfter: int64, o: Owner, a: Action)
    requires Agree(w, resetAfter, o) && !a.Report? && !a.Kept?
    ensures Agree(Step(w, resetAfter, a), resetAfter, o)
  {
    StepConsistent(w, resetAfter, a);
  }

  /** Identities are distinct in the whole run and every save succeeds; what discovery kept is behind. */
  ghost predicate Orderly(accessories: seq<Accessory>, o: Owner, actions: seq<Action>) {
    forall a :: a in actions ==> !a.Kept? && (a.Report? ==> a.saved && Owns(accessories, o, a.update))
  }

  lemma OwnsFixed(a: seq<Accessory>, b: seq<Accessory>, o: Owner, u: Update)
    requires SameDevices(a, b)
    ensures Owns(a, o, u) <==> Owns(b, o, u)
  {
    MatchFixed(a, b, u);
  }

  lemma ShorterCopies(w: World, resetAfter: int64, a: Action, key: string)
    requires RepeatsAreCopies(Step(w, resetAfter, a).log, resetAfter, key)
    ensures RepeatsAreCopies(w.log, resetAfter, key)
  {
    if a.Report? {
      CopiesSnoc(w.log, resetAfter, key, Delivery(a.update, a.counter, w.clock));
    }
  }

  /** Accessory, cache and file agree all along the run. */
  lemma {:induction false} AlwaysAgree(w: World, resetAfter: int64, o: Owner, actions: seq<Action>)
    requires Agree(w, resetAfter, o) && Orderly(w.sys.accessories, o, actions)
    requires RepeatsAreCopies(After(w, resetAfter, actions).log, resetAfter, o.frames)
    ensures Agree(After(w, resetAfter, actions), resetAfter, o)
  {
    if actions == [] {
    } else {
      var before, a := After(w, resetAfter, actions[..|actions| - 1]), actions[|actions| - 1];
      assert a in actions;
      RunDevices(w, resetAfter, actions[..|actions| - 1]);
      ShorterCopies(before, resetAfter, a, o.frames);
      AlwaysAgree(w, resetAfter, o, actions[..|actions| - 1]);
      if a.Report? {
        OwnsFixed(w.sys.accessories, before.sys.accessories, o, a.update);
        if Verdict(before.sys.frames, resetAfter, a.update, before.clock) == Accepted {
          AcceptedReportAgrees(before, resetAfter, o, a);
        } else {
          RefusedReportAgrees(before, resetAfter, o, a);
        }
      } else {
        TimerStepAgrees(before, resetAfter, o, a);
      }
    }
  }

  // --------------------------------------------- the reports discovery kept

  /** The device's own kept report is the last one discovery accepted. */
  ghost predicate KeptInOrder(w: World, resetAfter: int64, o: Owner, kept: seq<Action>) {
    forall a :: a in kept ==>
      && a.Kept? && a.saved && Owns(w.sys.accessories, o, a.update)
      && (Own(o, a.update) ==> Brought(LastAccepted(w.log, resetAfter, o.frames), a.update))
  }

  predicate OwnKept(o: Owner, kept: seq<Action>) {
    exists a :: a in kept && a.Kept? && Own(o, a.update)
  }

  /** The kept actions are what discovery kept, each report once or more, in any order. */
  ghost predicate FromDiscovery(initial: map<string, Update>, kept: seq<Action>) {
    && (forall a :: a in kept ==> a.Kept? && KeptFor(initial, a.update))
    && forall id {:trigger Applied(kept, initial[id])} :: id in initial ==> Applied(kept, initial[id])
  }

  ghost predicate KeptFor(initial: map<string, Update>, u: Update) {
    exists id :: id in initial && initial[id] == u
  }

  ghost predicate Applied(kept: seq<Action>, u: Update) {
    exists a :: a in kept && a.Kept? && a.update == u
  }

  /** A report that carries a MAC is the device's own iff its discovery identity is the device's. */
  lemma OwnByIdentity(accessories: seq<Accessory>, o: Owner, u: Update)
    requires Owns(accessories, o, u) && o.starts && u.mac != ""
    requires Enrolment.UpdateIdentity(u) == o.frames ==> Counted(u)
    ensures Own(o, u) <==> Enrolment.UpdateIdentity(u) == o.frames
  {
    assert Text.ToLower(u.mac) != "";
  }

  /** Discovery provides just that, for a device whose reports all carry a counter. */
  lemma DiscoveryKeepsInOrder(w: World, resetAfter: int64, o: Owner, initial: map<string, Update>, kept: seq<Action>)
    requires Discovery.KeepsLast(w.log, 0, resetAfter, initial) && FromDiscovery(initial, kept) && o.starts
    requires forall d :: d in w.log ==>
      d.update.mac != "" && (Enrolment.UpdateIdentity(d.update) == o.frames ==> Counted(d.update))
    requires forall a :: a in kept ==> a.Kept? && a.saved && Owns(w.sys.accessories, o, a.update)
    ensures KeptInOrder(w, resetAfter, o, kept)
    ensures LastAccepted(w.log, resetAfter, o.frames).Some? ==> OwnKept(o, kept)
  {
    Discovery.InitialIsLastAccepted(w.log, resetAfter, initial, o.frames);
    forall a | a in kept
      ensures Own(o, a.update) ==> Brought(LastAccepted(w.log, resetAfter, o.frames), a.update)
      ensures o.frames in initial && a.update == initial[o.frames] ==> Own(o, a.update)
    {
      KeptIsOwnLast(w, resetAfter, o, initial, a.update);
    }
    if o.frames in initial {
      assert Applied(kept, initial[o.frames]);
      var a :| a in kept && a.Kept? && a.update == initial[o.frames];
    }
  }

  lemma KeptIsOwnLast(w: World, resetAfter: int64, o: Owner, initial: map<string, Update>, u: Update)
    requires Discovery.KeepsLast(w.log, 0, resetAfter, initial) && o.starts
    requires forall d :: d in w.log ==>
      d.update.mac != "" && (Enrolment.UpdateIdentity(d.update) == o.frames ==> Counted(d.update))
    requires Owns(w.sys.accessories, o, u) && KeptFor(initial, u)
    ensures Own(o, u) ==> LastAccepted(w.log, resetAfter, o.frames) == Some(u)
    ensures o.frames in initial && u == initial[o.frames] ==> Own(o, u)
  {
    var id :| id in initial && initial[id] == u;
    Discovery.InitialIdentity(w.log, resetAfter, initial, id);
    Discovery.InitialIsLastAccepted(w.log, resetAfter, initial, o.frames);
    OwnByIdentity(w.sys.accessories, o, u);
  }

  lemma KeptStep(w: World, resetAfter: int64, o: Owner, a: Action)
    requires InStep(w, resetAfter, o) && a.Kept? && a.saved && Owns(w.sys.accessories, o, a.update)
    requires Own(o, a.update) ==> Brought(LastAccepted(w.log, resetAfter, o.frames), a.update)
    ensures InStep(Step(w, resetAfter, a), resetAfter, o)
    ensures Own(o, a.update) || LastShown(w, resetAfter, o) ==> LastShown(Step(w, resetAfter, a), resetAfter, o)
  {
    var m := Moment(w.clock, a.wall, a.saved);
    if Own(o, a.update) {
      OwnDelivery(w.sys, o, a.update, m);
    } else {
      OtherDelivery(w.sys, o, a.update, m);
    }
  }

  /** Once everything discovery kept has been processed, in any order, accessory, cache and file agree. */
  lemma {:induction false} KeptAgrees(w: World, resetAfter: int64, o: Owner, kept: seq<Action>)
    requires InStep(w, resetAfter, o) && KeptInOrder(w, resetAfter, o, kept)
    ensures InStep(After(w, resetAfter, kept), resetAfter, o)
    ensures OwnKept(o, kept) || LastShown(w, resetAfter, o) ==> Agree(After(w, resetAfter, kept), resetAfter, o)
    ensures After(w, resetAfter, kept).log == w.log
  {
    if kept == [] {
    } else {
      var before, a := kept[..|kept| - 1], kept[|kept| - 1];
      assert a in kept;
      KeptAgrees(w, resetAfter, o, before);
      RunDevices(w, resetAfter, before);
      OwnsFixed(w.sys.accessories, After(w, resetAfter, before).sys.accessories, o, a.update);
      KeptStep(After(w, resetAfter, before), resetAfter, o, a);
      if OwnKept(o, kept) && !Own(o, a.update) {
        var b :| b in kept && b.Kept? && Own(o, b.update);
        assert b in before;
      }
    }
  }

  // ---------------------------------------------------------------- restart

  function FreshAccessory(a: Accessory): Accessory {
    match a
    case Climate(d, _) => Climate(d, Sensors.Climate(None, None, None))
    case Brush(d, _) => Brush(d, Brushing.NEW_SESSION)
  }

  function FreshAll(accessories: seq<Accessory>): (r: seq<Accessory>)
    ensures |r| == |accessories|
    ensures forall i :: 0 <= i < |r| ==> r[i] == FreshAccessory(accessories[i])
  {
    seq(|accessories|, i requires 0 <= i < |accessories| => FreshAccessory(accessories[i]))
  }

  /** A new process: fresh accessories, an empty frame table, the cache read from the file and restored. */
  function Restarted(w: World, loaded: Cache, m: Moment): World {
    World(System(RestoreAll(FreshAll(w.sys.accessories), loaded, m), map[], loaded, w.sys.disk), m.at, [])
  }

  /**
   From any state in which they agree, a restart shows the same temperature,
   humidity and battery, with motion off, and they agree again: so the next life
   of the process, and the one after it, show the same too.
   */
  lemma RestartShowsTheSame(w: World, resetAfter: int64, o: Owner, loaded: Cache, m: Moment)
    requires InStep(w, resetAfter, o) && LoadResult(w.sys.disk, loaded)
    ensures Agree(Restarted(w, loaded, m), resetAfter, o)
    ensures Visible(Restarted(w, loaded, m).sys.accessories[o.i]) == Visible(w.sys.accessories[o.i])
    ensures IsBrush(w, o.i) ==> IsBrush(Restarted(w, loaded, m), o.i) && !Motion(Restarted(w, loaded, m), o.i)
  {
    LoadKeepsStableCache(w.sys.disk, loaded);
    var a := w.sys.accessories[o.i];
    RestoredIsCached(loaded, a.device, o);
    RestoredShows(a, loaded, m);
    assert Restarted(w, loaded, m).sys.accessories[o.i] == RestoreOne(FreshAccessory(a), loaded, m);
  }

  /** What a fresh accessory shows once restored. */
  lemma RestoredShows(a: Accessory, c: Cache, m: Moment)
    ensures var r := RestoreOne(FreshAccessory(a), c, m);
      && r.device == a.device && r.Brush? == a.Brush? && (r.Brush? ==> !r.session.motion)
      && Visible(r) == Display(a, RestoredValues(c, a.device))
  {
    var v := RestoredValues(c, a.device);
    ApplyDisplays(FreshAccessory(a), NOTHING, RestoredUpdate(a.device, v), m);
    assert ValuesOf(RestoredUpdate(a.device, v)) == v && Overlay(NOTHING, v) == v;
  }

  /** The world in which the loop starts: fresh accessories, nothing cached, and discovery's deliveries behind. */
  ghost predicate Starts(w: World, resetAfter: int64, o: Owner) {
    && Consistent(w, resetAfter)
    && w.sys.accessories == FreshAll(w.sys.accessories) && w.sys.cache == w.sys.disk == map[]
    && o.key != "" && o.key !in o.spare && o.i < |w.sys.accessories|
    && Identity(w.sys.accessories[o.i].device.mac, w.sys.accessories[o.i].device.did) == o.key
    && Spares(o, w.sys.accessories[o.i].device.did)
  }

  /**
   The whole story from an empty cache: what discovery kept, any orderly run, then a
   restart. Without discovery the log is empty and nothing is kept.
   */
  lemma RestartEquivalence(w: World, resetAfter: int64, o: Owner, kept: seq<Action>, actions: seq<Action>,
                           loaded: Cache, m: Moment)
    requires Starts(w, resetAfter, o) && KeptInOrder(w, resetAfter, o, kept)
    requires LastAccepted(w.log, resetAfter, o.frames).Some? ==> OwnKept(o, kept)
    requires Orderly(w.sys.accessories, o, actions)
    requires var before := After(After(w, resetAfter, kept), resetAfter, actions);
      RepeatsAreCopies(before.log, resetAfter, o.frames) && LoadResult(before.sys.disk, loaded)
    ensures var before := After(After(w, resetAfter, kept), resetAfter, actions);
      var after := Restarted(before, loaded, m);
      && Agree(after, resetAfter, o) && o.i < |before.sys.accessories|
      && Visible(after.sys.accessories[o.i]) == Visible(before.sys.accessories[o.i])
      && (IsBrush(before, o.i) ==> IsBrush(after, o.i) && !Motion(after, o.i))
  {
    assert w.sys.accessories[o.i] == FreshAccessory(w.sys.accessories[o.i]);
    assert InStep(w, resetAfter, o);
    KeptAgrees(w, resetAfter, o, kept);
    RunDevices(w, resetAfter, kept);
    var started := After(w, resetAfter, kept);
    forall a | a in actions && a.Report? ensures Owns(started.sys.accessories, o, a.update) {
      OwnsFixed(w.sys.accessories, started.sys.accessories, o, a.update);
    }
    AlwaysAgree(started, resetAfter, o, actions);
    RestartShowsTheSame(After(started, resetAfter, actions), resetAfter, o, loaded, m);
  }

  /** A restored toothbrush stands where restoring is a brushing run of its own. */
  function RestoredRun(d: Device, c: Cache, m: Moment): seq<BrushingRuns.Action> {
    var v := RestoredValues(c, d);
    [BrushingRuns.Tick(m.at)] + if v == NOTHING then [] else [BrushingRuns.Deliver(RestoredUpdate(d, v), m.wall)]
  }

  lemma RestartedBegan(w: World, loaded: Cache, m: Moment, i: nat)
    requires IsBrush(w, i)
    ensures Began(Restarted(w, loaded, m), i, RestoredRun(w.sys.accessories[i].device, loaded, m))
  {
    var d := w.sys.accessories[i].device;
    var tick, v := [BrushingRuns.Tick(m.at)], RestoredValues(loaded, d);
    assert tick[..0] == [];
    assert BrushingRuns.After(tick).s == Brushing.NEW_SESSION && BrushingRuns.After(tick).clock == m.at;
    if v == NOTHING {
      assert RestoredRun(d, loaded, m) == tick;
    } else {
      BrushingRuns.AfterSnoc(tick, BrushingRuns.Deliver(RestoredUpdate(d, v), m.wall));
    }
  }

  /** The first life of the process: the accessory has just been constructed and nothing is cached. */
  lemma FreshTimedSafety(w: World, resetAfter: int64, actions: seq<Action>, i: nat, d: nat)
    requires IsBrush(w, i) && SessionOf(w, i) == Brushing.NEW_SESSION && |actions| + 1 < TWO_64
    requires BrushingRuns.Prompt([BrushingRuns.Tick(w.clock)] + Trace(w, resetAfter, actions, i), d)
    ensures var b := BrushingRuns.After([BrushingRuns.Tick(w.clock)] + Trace(w, resetAfter, actions, i));
      var now := After(w, resetAfter, actions);
      && IsBrush(now, i)
      && (Motion(now, i) && !b.closed ==> b.last.Some? && now.clock <= b.last.value.at + Brushing.WATCHDOG + d)
  {
    FreshBegan(w, i);
    BridgeTimedSafety(w, resetAfter, actions, i, d, [BrushingRuns.Tick(w.clock)]);
  }

  /** So the watchdog bound holds in every life of the process, whatever was cached. */
  lemma RestartedTimedSafety(w: World, loaded: Cache, m: Moment, resetAfter: int64, actions: seq<Action>, i: nat,
                             d: nat)
    requires IsBrush(w, i) && |actions| + 2 < TWO_64
    requires var first := RestoredRun(w.sys.accessories[i].device, loaded, m);
      BrushingRuns.Prompt(first + Trace(Restarted(w, loaded, m), resetAfter, actions, i), d)
    ensures var first := RestoredRun(w.sys.accessories[i].device, loaded, m);
      var b := BrushingRuns.After(first + Trace(Restarted(w, loaded, m), resetAfter, actions, i));
      var now := After(Restarted(w, loaded, m), resetAfter, actions);
      && IsBrush(now, i)
      && (Motion(now, i) && !b.closed ==> b.last.Some? && now.clock <= b.last.value.at + Brushing.WATCHDOG + d)
  {
    RestartedBegan(w, loaded, m, i);
    BridgeTimedSafety(Restarted(w, loaded, m), resetAfter, actions, i, d,
                      RestoredRun(w.sys.accessories[i].device, loaded, m));
  }

  // ------------------------------------------- a device configured by DID alone

  /** The accessory shows what Restore would give it. */
  predicate ShowsRestored(w: World, i: nat) {
    && i < |w.sys.accessories|
    && Visible(w.sys.accessories[i]) ==
       Display(w.sys.accessories[i], RestoredValues(w.sys.cache, w.sys.accessories[i].device))
  }

  /** A restart shows the same iff that holds. */
  lemma RestartSameIff(w: World, i: nat, loaded: Cache, m: Moment)
    requires i < |w.sys.accessories| && w.sys.disk == w.sys.cache && StableKeys(w.sys.cache)
    requires LoadResult(w.sys.disk, loaded)
    ensures Visible(Restarted(w, loaded, m).sys.accessories[i]) == Visible(w.sys.accessories[i]) <==>
      ShowsRestored(w, i)
  {
    LoadKeepsStableCache(w.sys.disk, loaded);
    RestoredShows(w.sys.accessories[i], loaded, m);
    assert Restarted(w, loaded, m).sys.accessories[i] == RestoreOne(FreshAccessory(w.sys.accessories[i]), loaded, m);
  }

  /** The device has a DID and no MAC. */
  predicate ByDidAlone(d: Device) {
    Text.NormalizeMAC(d.mac) == "" && Text.TrimSpace(d.did) != ""
  }

  /** Reports reach the accessory exactly when they carry its DID, with or without a MAC. */
  predicate ReachesByDid(accessories: seq<Accessory>, i: nat, u: Update)
    requires i < |accessories|
  {
    && !(DID <= Text.NormalizeMAC(u.mac))
    && (Match(accessories, u) == i <==> Text.TrimSpace(u.did) == Text.TrimSpace(accessories[i].device.did))
  }

  /**
   Whether a report to such a device leaves the next restart showing what is shown
   now. It does unless it is applied and brings something new with a MAC, or is the
   first to be cached under that MAC while anything is shown, or a repeat brings
   something not shown last.
   */
  predicate Harmless(w: World, resetAfter: int64, i: nat, a: Action)
    requires i < |w.sys.accessories|
  {
    a.Report? && Match(w.sys.accessories, a.update) == i ==>
      var acc, u := w.sys.accessories[i], a.update;
      var v, verdict := RestoredValues(w.sys.cache, acc.device), Verdict(w.sys.frames, resetAfter, u, w.clock);
      var shown := Display(acc, Overlay(v, ValuesOf(u)));
      if verdict == Accepted && Text.NormalizeMAC(u.mac) == "" then true
      else if verdict == Accepted && Text.NormalizeMAC(u.mac) !in w.sys.cache then shown == Display(acc, NOTHING)
      else if verdict == Accepted || (verdict == Duplicate && u.IsStart()) then shown == Display(acc, v)
      else true
  }

  lemma DidMerge(c: Cache, d: Device, u: Update, wall: int64)
    requires ByDidAlone(d) && !(DID <= Text.NormalizeMAC(u.mac))
    ensures Text.TrimSpace(u.did) != Text.TrimSpace(d.did) ==>
      RestoredValues(MergedCache(c, u, wall), d) == RestoredValues(c, d)
    ensures Text.TrimSpace(u.did) == Text.TrimSpace(d.did) && Text.NormalizeMAC(u.mac) == "" ==>
      RestoredValues(MergedCache(c, u, wall), d) == Overlay(RestoredValues(c, d), ValuesOf(u))
    ensures Text.TrimSpace(u.did) == Text.TrimSpace(d.did) && Text.NormalizeMAC(u.mac) != "" ==>
      RestoredValues(MergedCache(c, u, wall), d) ==
        if Text.NormalizeMAC(u.mac) in c then RestoredValues(c, d) else NOTHING
  {
    assert DID <= DidKey(d.did) && DidKey(u.did)[|DID|..] == Text.TrimSpace(u.did);
    assert DidKey(d.did)[|DID|..] == Text.TrimSpace(d.did);
  }

  lemma DidReportKeepsIff(w: World, resetAfter: int64, i: nat, a: Action)
    requires ShowsRestored(w, i) && ByDidAlone(w.sys.accessories[i].device)
    requires a.Report? && ReachesByDid(w.sys.accessories, i, a.update)
    ensures ShowsRestored(Step(w, resetAfter, a), i) <==> Harmless(w, resetAfter, i, a)
  {
    var acc, u := w.sys.accessories[i], a.update;
    DidMerge(w.sys.cache, acc.device, u, a.wall);
    ApplyDisplays(acc, RestoredValues(w.sys.cache, acc.device), u, Moment(w.clock, a.wall, a.saved));
  }

  lemma TimerKeepsShown(w: World, resetAfter: int64, i: nat, a: Action)
    requires ShowsRestored(w, i) && !a.Report? && !a.Kept?
    ensures ShowsRestored(Step(w, resetAfter, a), i)
  {
  }

  /** What the device's reports are like, in the whole run. */
  ghost predicate DidRun(accessories: seq<Accessory>, i: nat, actions: seq<Action>)
    requires i < |accessories|
  {
    forall a :: a in actions ==> !a.Kept? && (a.Report? ==> ReachesByDid(accessories, i, a.update))
  }

  /** At every moment of the run a restart would show the same. */
  ghost predicate AlwaysShowsRestored(w: World, resetAfter: int64, i: nat, actions: seq<Action>) {
    forall k :: 0 <= k <= |actions| ==> ShowsRestored(After(w, resetAfter, actions[..k]), i)
  }

  ghost predicate AllHarmless(w: World, resetAfter: int64, i: nat, actions: seq<Action>)
    requires i < |w.sys.accessories|
  {
    forall k :: 0 <= k < |actions| ==>
      i < |After(w, resetAfter, actions[..k]).sys.accessories| &&
      Harmless(After(w, resetAfter, actions[..k]), resetAfter, i, actions[k])
  }

  lemma DidStepKeepsIff(w: World, now: World, resetAfter: int64, i: nat, a: Action)
    requires i < |w.sys.accessories| && SameDevices(w.sys.accessories, now.sys.accessories)
    requires ShowsRestored(now, i) && ByDidAlone(w.sys.accessories[i].device)
    requires !a.Kept? && (a.Report? ==> ReachesByDid(w.sys.accessories, i, a.update))
    ensures ShowsRestored(Step(now, resetAfter, a), i) <==> Harmless(now, resetAfter, i, a)
  {
    if a.Report? {
      MatchFixed(w.sys.accessories, now.sys.accessories, a.update);
      DidReportKeepsIff(now, resetAfter, i, a);
    } else {
      TimerKeepsShown(now, resetAfter, i, a);
    }
  }

  lemma AlwaysShowsSnoc(w: World, resetAfter: int64, i: nat, before: seq<Action>, a: Action)
    ensures AlwaysShowsRestored(w, resetAfter, i, before + [a]) <==>
      AlwaysShowsRestored(w, resetAfter, i, before) && ShowsRestored(After(w, resetAfter, before + [a]), i)
  {
    var all := before + [a];
    assert all[..|all|] == all && all[..|before|] == before;
    forall k | 0 <= k <= |before| ensures all[..k] == before[..k] {}
    if AlwaysShowsRestored(w, resetAfter, i, before) && ShowsRestored(After(w, resetAfter, all), i) {
      forall k | 0 <= k <= |all| ensures ShowsRestored(After(w, resetAfter, all[..k]), i) {
        assert k <= |before| || all[..k] == all;
      }
    }
  }

  lemma AllHarmlessSnoc(w: World, resetAfter: int64, i: nat, before: seq<Action>, a: Action)
    requires i < |w.sys.accessories|
    ensures AllHarmless(w, resetAfter, i, before + [a]) <==>
      && AllHarmless(w, resetAfter, i, before)
      && i < |After(w, resetAfter, before).sys.accessories| && Harmless(After(w, resetAfter, before), resetAfter, i, a)
  {
    var all := before + [a];
    assert all[..|before|] == before && all[|before|] == a;
    forall k | 0 <= k < |before| ensures all[..k] == before[..k] && all[k] == before[k] {}
  }

  /**
   For a device configured by DID alone: at every moment of a run a restart would show
   what is shown iff every report of the run was harmless when it came.
   */
  lemma {:induction false} DidAccessoryAgreesIff(w: World, resetAfter: int64, i: nat, actions: seq<Action>)
    requires ShowsRestored(w, i) && ByDidAlone(w.sys.accessories[i].device)
    requires DidRun(w.sys.accessories, i, actions)
    ensures AlwaysShowsRestored(w, resetAfter, i, actions) <==> AllHarmless(w, resetAfter, i, actions)
  {
    if actions == [] {
      assert actions[..0] == [];
    } else {
      var n := |actions| - 1;
      var before, a := actions[..n], actions[n];
      assert a in actions && before[..n] == before && actions == before + [a];
      DidAccessoryAgreesIff(w, resetAfter, i, before);
      RunDevices(w, resetAfter, before);
      AlwaysShowsSnoc(w, resetAfter, i, before, a);
      AllHarmlessSnoc(w, resetAfter, i, before, a);
      if AlwaysShowsRestored(w, resetAfter, i, before) {
        assert ShowsRestored(After(w, resetAfter, before[..n]), i);
        DidStepKeepsIff(w, After(w, resetAfter, before), resetAfter, i, a);
      }
    }
  }

  predicate OnFile(w: World) {
    w.sys.disk == w.sys.cache && StableKeys(w.sys.cache)
  }

  /** Every save succeeds, and no MAC text looks like a DID key with a space to trim. */
  ghost predicate AllSaved(actions: seq<Action>) {
    forall a :: a in actions && (a.Report? || a.Kept?) ==> a.saved && !LooksLikeUntrimmedDid(a.update.mac)
  }

  lemma StepOnFile(w: World, resetAfter: int64, a: Action)
    requires OnFile(w) && (a.Report? || a.Kept? ==> a.saved && !LooksLikeUntrimmedDid(a.update.mac))
    ensures OnFile(Step(w, resetAfter, a))
  {
    if a.Report? || a.Kept? {
      var m := Moment(w.clock, a.wall, a.saved);
      MergeStable(w.sys.cache, a.update, a.wall);
      PersistedOnDisk(w.sys, a.update, m);
    }
  }

  lemma {:induction false} AlwaysOnFile(w: World, resetAfter: int64, actions: seq<Action>)
    requires OnFile(w) && AllSaved(actions)
    ensures OnFile(After(w, resetAfter, actions))
  {
    if actions == [] {
    } else {
      var n := |actions| - 1;
      assert actions[n] in actions;
      AlwaysOnFile(w, resetAfter, actions[..n]);
      StepOnFile(After(w, resetAfter, actions[..n]), resetAfter, actions[n]);
    }
  }

  /** Whatever the file is read back as, and whenever, a restart here shows what is shown. */
  ghost predicate RestartShowsSame(w: World, i: nat) {
    && i < |w.sys.accessories|
    && forall loaded: Cache, m: Moment :: LoadResult(w.sys.disk, loaded) ==>
         Visible(Restarted(w, loaded, m).sys.accessories[i]) == Visible(w.sys.accessories[i])
  }

  lemma RestartShowsSameIff(w: World, i: nat)
    requires i < |w.sys.accessories| && OnFile(w)
    ensures RestartShowsSame(w, i) <==> ShowsRestored(w, i)
  {
    var now := Moment(0, 0, true);
    forall k | k in w.sys.disk ensures Source(w.sys.disk, k, w.sys.disk[k]) {
      assert NormalizeKey(k) == k;
    }
    assert LoadResult(w.sys.disk, w.sys.disk);
    RestartSameIff(w, i, w.sys.disk, now);
    forall loaded: Cache, m: Moment | LoadResult(w.sys.disk, loaded)
      ensures Visible(Restarted(w, loaded, m).sys.accessories[i]) == Visible(w.sys.accessories[i]) <==>
        ShowsRestored(w, i)
    {
      RestartSameIff(w, i, loaded, m);
    }
  }

  /**
   So, when saves succeed: a restart at any moment of the run shows what is shown then
   iff every report of the run was harmless when it came.
   */
  lemma DidRestartSameIff(w: World, resetAfter: int64, i: nat, actions: seq<Action>)
    requires ShowsRestored(w, i) && ByDidAlone(w.sys.accessories[i].device) && OnFile(w)
    requires DidRun(w.sys.accessories, i, actions) && AllSaved(actions)
    ensures (forall k :: 0 <= k <= |actions| ==> RestartShowsSame(After(w, resetAfter, actions[..k]), i)) <==>
      AllHarmless(w, resetAfter, i, actions)
  {
    forall k | 0 <= k <= |actions|
      ensures RestartShowsSame(After(w, resetAfter, actions[..k]), i) <==>
        ShowsRestored(After(w, resetAfter, actions[..k]), i)
    {
      AlwaysOnFile(w, resetAfter, actions[..k]);
      RunDevices(w, resetAfter, actions[..k]);
      RestartShowsSameIff(After(w, resetAfter, actions[..k]), i);
    }
    DidAccessoryAgreesIff(w, resetAfter, i, actions);
  }

  // ------------------------------------- the two readings of "equal counters"

  /** For a device that stays tame, if equal frame numbers mean equal frames, every repeat brings the same readings. */
  lemma {:induction false} TameRepeatsAreCopies(log: seq<Delivery>, resetAfter: int64, key: string)
    requires resetAfter > 0 && Tame(log, resetAfter, key) && Copies(log, key)
    ensures RepeatsAreCopies(log, resetAfter, key)
    ensures LastAccepted(log, resetAfter, key) ==
      if Newest(log, key).Some? then Some(Newest(log, key).value.update) else None
  {
    if log == [] {
    } else {
      var before, d := log[..|log| - 1], log[|log| - 1];
      assert log == before + [d];
      TameSnoc(before, resetAfter, d, key);
      CopiesPrefix(before, d, key);
      TameRepeatsAreCopies(before, resetAfter, key);
      NewestOfSnoc(before, d, key);
      LastAcceptedSnoc(before, resetAfter, key, d);
      if Of(d, key) {
        BaselineIsNewest(before, resetAfter, key);
        ClassifyRefinesStep(FramesAfter(before, resetAfter), before, resetAfter, d);
        if Newest(before, key).Some? && Newest(before, key).value.counter == d.counter {
          DuplicateIsNewest(before, d, key);
        }
      }
      forall i | 0 <= i < |log| && Of(log[i], key) && Outcome(log, resetAfter, i) == Duplicate
        ensures Brought(LastAccepted(log[..i], resetAfter, key), log[i].update)
      {
        if i < |before| {
          assert log[..i] == before[..i] && log[i] == before[i];
          assert Outcome(before, resetAfter, i) == Duplicate;
        }
      }
    }
  }

  // ------------------------------------------ motion from what discovery kept

  /** What discovery keeps for an accessory is the newest frame of its device. */
  lemma KeptFrameIsNewest(w: World, resetAfter: int64, i: nat, key: string, initial: map<string, Update>, a: Action)
    requires resetAfter > 0 && Tame(w.log, resetAfter, key) && Copies(w.log, key)
    requires Discovery.KeepsLast(w.log, 0, resetAfter, initial)
    requires forall d :: d in w.log ==>
      d.update.mac != "" && (Enrolment.UpdateIdentity(d.update) == key ==> Counted(d.update))
    requires a.Kept? && KeptFor(initial, a.update) && SoleKey(w.sys.accessories, i, key, a.update)
    ensures KeptIsNewest(w.sys.accessories, i, Newest(w.log, key), a)
  {
    if Match(w.sys.accessories, a.update) == i && a.update.IsStart() {
      var id :| id in initial && initial[id] == a.update;
      Discovery.InitialIdentity(w.log, resetAfter, initial, id);
      Discovery.InitialIsLastAccepted(w.log, resetAfter, initial, key);
      TameRepeatsAreCopies(w.log, resetAfter, key);
    }
  }

  /**
   Among the reports discovery kept, too, motion rises only on a start that is the
   newest accepted frame of the device.
   */
  lemma KeptMotionIsNewest(w: World, resetAfter: int64, i: nat, key: string, initial: map<string, Update>, a: Action)
    requires resetAfter > 0 && Consistent(w, resetAfter) && IsBrush(w, i)
    requires Tame(w.log, resetAfter, key) && Copies(w.log, key) && Discovery.KeepsLast(w.log, 0, resetAfter, initial)
    requires forall d :: d in w.log ==>
      d.update.mac != "" && (Enrolment.UpdateIdentity(d.update) == key ==> Counted(d.update))
    requires a.Kept? && KeptFor(initial, a.update) && SoleKey(w.sys.accessories, i, key, a.update)
    ensures IsBrush(Step(w, resetAfter, a), i)
    ensures !Motion(w, i) && Motion(Step(w, resetAfter, a), i) ==>
      && BrushingRuns.LiveStart(a.update, a.wall)
      && Newest(w.log, key).Some? && SameFrame(Newest(w.log, key).value.update, a.update)
  {
    KeptFrameIsNewest(w, resetAfter, i, key, initial, a);
    MotionRisesOnlyOnNewest(w, resetAfter, a, i, key);
  }

  /** With no bound on silence or on counters: what discovery keeps is the last frame it accepted. */
  lemma KeptFrameIsLast(w: World, resetAfter: int64, i: nat, key: string, initial: map<string, Update>, a: Action)
    requires Discovery.KeepsLast(w.log, 0, resetAfter, initial)
    requires forall d :: d in w.log ==>
      d.update.mac != "" && (Enrolment.UpdateIdentity(d.update) == key ==> Counted(d.update))
    requires a.Kept? && KeptFor(initial, a.update) && SoleKey(w.sys.accessories, i, key, a.update)
    ensures KeptIsLast(w.sys.accessories, i, LastAccepted(w.log, resetAfter, key), a)
  {
    if Match(w.sys.accessories, a.update) == i && a.update.IsStart() {
      var id :| id in initial && initial[id] == a.update;
      Discovery.InitialIdentity(w.log, resetAfter, initial, id);
      Discovery.InitialIsLastAccepted(w.log, resetAfter, initial, key);
    }
  }
}
