/**
 cmd/mgl03-homekit-bridge/main.go: what one report does to the accessories, the
 frame counters and the measurement cache. `System` is all of that state as a
 value; class Bridge holds it in the objects the program uses.
 */
module Pipeline {
  import opened Base
  import opened Openmiio
  import opened Deduplication
  import opened Devices
  import opened Enrolment
  import opened Measurements
  import Brushing
  import Sensors
  import Text

  datatype Accessory =
    | Climate(device: Device, climate: Sensors.Climate)
    | Brush(device: Device, session: Brushing.Session)

  datatype System = System(accessories: seq<Accessory>, frames: Frames, cache: Cache, disk: Cache)

  /** The instant and wall-clock time a report is processed at, and whether a save succeeds. */
  datatype Moment = Moment(at: nat, wall: int64, saved: bool)

  function ApplyTo(a: Accessory, u: Update, m: Moment): Accessory {
    match a
    case Climate(d, c) => Climate(d, Sensors.ApplyClimate(c, u))
    case Brush(d, s) => Brush(d, Brushing.ApplyUpdate(s, u, m.at, m.wall))
  }

  /** The first accessory an update belongs to, or |accessories|. */
  function Match(accessories: seq<Accessory>, u: Update): (i: nat)
    ensures i <= |accessories|
    ensures i < |accessories| ==> MatchesUpdate(accessories[i].device, u)
    ensures forall j :: 0 <= j < i ==> !MatchesUpdate(accessories[j].device, u)
  {
    if accessories == [] then 0
    else if MatchesUpdate(accessories[0].device, u) then 0
    else 1 + Match(accessories[1..], u)
  }

  function ApplyAt(accessories: seq<Accessory>, i: nat, u: Update, m: Moment): seq<Accessory> {
    if i < |accessories| then accessories[i := ApplyTo(accessories[i], u, m)] else accessories
  }

  function Persist(sys: System, u: Update, m: Moment): System {
    var cache := MergedCache(sys.cache, u, m.wall);
    sys.(cache := cache, disk := if cache != sys.cache && m.saved then cache else sys.disk)
  }

  function Shown(sys: System, i: nat, u: Update, m: Moment): System {
    sys.(accessories := ApplyAt(sys.accessories, i, u, m))
  }

  /** The accessory and the cache, given how the report was classified. */
  function React(sys: System, verdict: Disposition, u: Update, m: Moment): System {
    if verdict == Accepted then Shown(Persist(sys, u, m), Match(sys.accessories, u), u, m)
    else if verdict == Duplicate && u.IsStart() then Shown(sys, Match(sys.accessories, u), u, m)
    else sys
  }

  function Process(sys: System, resetAfter: int64, u: Update, m: Moment): System {
    React(sys.(frames := Remember(sys.frames, resetAfter, u, m.at)), Verdict(sys.frames, resetAfter, u, m.at), u, m)
  }

  // ------------------------------------------------------------- enrolment

  /** The device list, which only the next start looks at, and the MACs already noted as unknown. */
  datatype Registry = Registry(devices: seq<Device>, unknown: set<string>)

  /** The report is accepted and belongs to no accessory. */
  predicate Unmatched(sys: System, resetAfter: int64, u: Update, m: Moment) {
    Verdict(sys.frames, resetAfter, u, m.at) == Accepted && Match(sys.accessories, u) == |sys.accessories|
  }

  /** A supported unknown device is noted, and in auto mode enrolled. */
  ghost function Register(hash: Hash, mode: Mode, r: Registry, u: Update): (after: Registry)
    requires |r.devices| < CYCLE
    ensures |r.devices| <= |after.devices| <= |r.devices| + 1
  {
    if !SupportedDiscovery(u) || u.mac in r.unknown then r
    else
      var d := DeviceFromUpdate(u, |r.devices| + 1);
      Registry(if mode == Auto then AppendWithAID(hash, r.devices, d) else r.devices, r.unknown + {u.mac})
  }

  ghost function RegisterAll(hash: Hash, mode: Mode, r: Registry, us: seq<Update>): Registry
    requires |r.devices| + |us| < CYCLE
    decreases |us|
  {
    if us == [] then r
    else RegisterAll(hash, mode, Register(hash, mode, r, us[0]), us[1..])
  }

  /** The accepted reports of a queue that belong to no accessory. */
  function Unmatcheds(sys: System, resetAfter: int64, queue: seq<(Update, Moment)>): (us: seq<Update>)
    ensures |us| <= |queue|
    decreases |queue|
  {
    if queue == [] then []
    else
      var u, m := queue[0].0, queue[0].1;
      (if Unmatched(sys, resetAfter, u, m) then [u] else []) +
      Unmatcheds(Process(sys, resetAfter, u, m), resetAfter, queue[1..])
  }

  /** What one report of a queue does to the registry. */
  ghost function RegisterOne(hash: Hash, mode: Mode, r: Registry, sys: System, resetAfter: int64, u: Update,
                             m: Moment): Registry
    requires |r.devices| < CYCLE
  {
    if Unmatched(sys, resetAfter, u, m) then Register(hash, mode, r, u) else r
  }

  lemma RegisterNext(hash: Hash, mode: Mode, r: Registry, sys: System, resetAfter: int64,
                     queue: seq<(Update, Moment)>, i: nat)
    requires i < |queue| && |r.devices| + |queue| - i < CYCLE
    ensures var u, m := queue[i].0, queue[i].1;
      var next := RegisterOne(hash, mode, r, sys, resetAfter, u, m);
      && |next.devices| <= |r.devices| + 1
      && RegisterAll(hash, mode, r, Unmatcheds(sys, resetAfter, queue[i..])) ==
         RegisterAll(hash, mode, next, Unmatcheds(Process(sys, resetAfter, u, m), resetAfter, queue[i + 1..]))
  {
    var rest := Unmatcheds(Process(sys, resetAfter, queue[i].0, queue[i].1), resetAfter, queue[i + 1..]);
    assert queue[i..][1..] == queue[i + 1..];
    assert ([queue[i].0] + rest)[1..] == rest && [] + rest == rest;
  }

  // ------------------------------------------------------------- live objects

  datatype DeviceAccessory =
    | ClimateSensor(device: Device, sensor: Sensors.Sensor)
    | BrushSensor(device: Device, toothbrush: Brushing.Toothbrush)
  {
    function Object(): object {
      if ClimateSensor? then sensor else toothbrush
    }

    ghost function Value(): Accessory
      reads Object()
    {
      if ClimateSensor? then Climate(device, sensor.State()) else Brush(device, toothbrush.State())
    }

    method Apply(u: Update, m: Moment)
      modifies Object()
      ensures Value() == ApplyTo(old(Value()), u, m)
    {
      match this {
        case ClimateSensor(_, s) => s.Apply(u);
        case BrushSensor(_, t) => t.Apply(u, m.at, m.wall);
      }
    }
  }

  class Bridge {
    const accessories: seq<DeviceAccessory>
    const deduplicator: Deduplicator
    const measurements: State
    const mode: Mode
    const hash: Hash
    var disk: Cache
    var devices: seq<Device>
    var unknown: set<string>

    ghost predicate Valid()
      reads this
    {
      forall i, j :: 0 <= i < j < |accessories| ==> accessories[i].Object() != accessories[j].Object()
    }

    ghost function Objects(): set<object> {
      set i | 0 <= i < |accessories| :: accessories[i].Object()
    }

    ghost function Accessories(): (r: seq<Accessory>)
      reads Objects()
      ensures |r| == |accessories|
      ensures forall i :: 0 <= i < |r| ==> r[i] == accessories[i].Value()
    {
      seq(|accessories|, i requires 0 <= i < |accessories| reads Objects() => accessories[i].Value())
    }

    /** Everything but the device list, which only the next start looks at. */
    ghost function View(): System
      reads this, Objects(), deduplicator, measurements
    {
      System(Accessories(), deduplicator.frames, measurements.devices, disk)
    }

    constructor (accessories: seq<DeviceAccessory>, deduplicator: Deduplicator, measurements: State, disk: Cache,
                 devices: seq<Device>, mode: Mode, hash: Hash)
      requires forall i, j :: 0 <= i < j < |accessories| ==> accessories[i].Object() != accessories[j].Object()
      ensures Valid() && this.accessories == accessories && this.deduplicator == deduplicator
      ensures this.measurements == measurements && this.disk == disk && this.devices == devices && unknown == {}
      ensures this.mode == mode && this.hash == hash
    {
      this.accessories, this.deduplicator, this.measurements := accessories, deduplicator, measurements;
      this.disk, this.devices, this.mode, this.hash, unknown := disk, devices, mode, hash, {};
    }

    method MatchAccessory(u: Update) returns (index: nat)
      ensures index == Match(Accessories(), u)
    {
      index := 0;
      while index < |accessories|
        invariant index <= |accessories|
        invariant forall j :: 0 <= j < index ==> !MatchesUpdate(accessories[j].device, u)
      {
        var device := accessories[index].device;
        if u.mac != "" && device.mac != "" && Text.EqualFold(u.mac, device.mac) {
          break;
        }
        if u.did != "" && device.did != "" && u.did == device.did {
          break;
        }
        index := index + 1;
      }
      MatchUnique(Accessories(), u, index);
    }

    method ApplyUpdate(index: nat, u: Update, m: Moment)
      requires Valid()
      modifies Objects()
      ensures View() == Shown(old(View()), index, u, m)
    {
      if index < |accessories| {
        accessories[index].Apply(u, m);
      }
    }

    method PersistMeasurements(u: Update, m: Moment)
      modifies this`disk, measurements
      ensures View() == Persist(old(View()), u, m)
    {
      ghost var before := Accessories();
      var changed := measurements.Merge(u, m.wall);
      assert Accessories() == before;
      if changed && m.saved {
        disk := measurements.devices;
      }
    }

    ghost function Registered(): Registry
      reads this
    {
      Registry(devices, unknown)
    }

    /** An accepted report of no known accessory. */
    method NoteUnknown(u: Update)
      requires |devices| < CYCLE
      modifies this`devices, this`unknown
      ensures Registered() == Register(hash, mode, old(Registered()), u)
    {
      if SupportedDiscovery(u) && u.mac !in unknown {
        unknown := unknown + {u.mac};
        if mode == Auto {
          devices := AppendDeviceWithAID(hash, devices, DeviceFromUpdate(u, |devices| + 1));
        }
      }
    }

    /** An accepted report: the cache first, then the accessory. */
    method Deliver(index: nat, u: Update, m: Moment)
      requires Valid() && index == Match(Accessories(), u)
      modifies this`disk, Objects(), measurements
      ensures View() == React(old(View()), Accepted, u, m)
    {
      PersistMeasurements(u, m);
      ApplyUpdate(index, u, m);
    }

    /** A report classified: the accessory and the cache. */
    method ReactTo(index: nat, disposition: Disposition, u: Update, m: Moment)
      requires Valid() && index == Match(Accessories(), u)
      modifies this`disk, Objects(), measurements
      ensures View() == React(old(View()), disposition, u, m)
    {
      if disposition == Accepted {
        Deliver(index, u, m);
      } else if disposition == Duplicate && index < |accessories|
                && u.toothbrush.Some? && u.toothbrush.value.kind == 0 {
        ApplyUpdate(index, u, m);
      }
    }

    /** Everything but enrolment; tells whether an accepted report found no accessory. */
    method Dispatch(u: Update, m: Moment) returns (unmatched: bool)
      requires Valid()
      modifies this`disk, Objects(), deduplicator, measurements
      ensures View() == Process(old(View()), deduplicator.resetAfter, u, m)
      ensures unmatched <==> Unmatched(old(View()), deduplicator.resetAfter, u, m)
    {
      ghost var before := Accessories();
      var index := MatchAccessory(u);
      var disposition := deduplicator.Classify(u, m.at);
      assert Accessories() == before;
      ReactTo(index, disposition, u, m);
      unmatched := disposition == Accepted && index == |accessories|;
    }

    /** The body of the select loop for one received update. */
    method ProcessUpdate(u: Update, m: Moment)
      requires Valid() && |devices| < CYCLE
      modifies this, Objects(), deduplicator, measurements
      ensures View() == Process(old(View()), deduplicator.resetAfter, u, m)
      ensures Registered() ==
        RegisterOne(hash, mode, old(Registered()), old(View()), deduplicator.resetAfter, u, m)
    {
      var unmatched := Dispatch(u, m);
      if unmatched {
        ghost var after := Accessories();
        NoteUnknown(u);
        assert Accessories() == after;
      }
    }

    method ProcessKept(u: Update, m: Moment)
      requires Valid()
      modifies this`disk, Objects(), measurements
      ensures View() == InitialOne(old(View()), u, m)
    {
      var index := MatchAccessory(u);
      if index < |accessories| {
        Deliver(index, u, m);
      }
    }

    /** The reports discovery kept, in whatever order the map yields them. */
    method ProcessInitial(initial: map<string, Update>, m: Moment) returns (ghost order: seq<Update>)
      requires Valid()
      modifies this`disk, Objects(), measurements
      ensures |order| == |initial|
      ensures forall u :: u in order <==> exists key :: key in initial && initial[key] == u
      ensures View() == InitialAll(old(View()), order, m)
    {
      order := [];
      var rest := initial.Keys;
      while rest != {}
        invariant rest <= initial.Keys
        invariant multiset(order) + KeptReports(rest, initial) == KeptReports(initial.Keys, initial)
        invariant View() == InitialAll(old(View()), order, m)
        decreases |rest|
      {
        var key :| key in rest;
        KeptReportsWithout(rest, initial, key);
        InitialSnoc(old(View()), order, initial[key], m);
        ProcessKept(initial[key], m);
        order := order + [initial[key]];
        rest := rest - {key};
      }
      OrderIs(order, initial);
    }

    /** A queue of reports, drained in order. */
    method ProcessUpdates(queue: seq<(Update, Moment)>)
      requires Valid() && |devices| + |queue| < CYCLE
      modifies this, Objects(), deduplicator, measurements
      ensures View() == ProcessAll(old(View()), deduplicator.resetAfter, queue)
      ensures Registered() ==
        RegisterAll(hash, mode, old(Registered()), Unmatcheds(old(View()), deduplicator.resetAfter, queue))
    {
      for i := 0 to |queue|
        invariant |devices| + |queue| - i < CYCLE
        invariant ProcessAll(View(), deduplicator.resetAfter, queue[i..]) ==
          ProcessAll(old(View()), deduplicator.resetAfter, queue)
        invariant
          RegisterAll(hash, mode, Registered(), Unmatcheds(View(), deduplicator.resetAfter, queue[i..])) ==
          RegisterAll(hash, mode, old(Registered()), Unmatcheds(old(View()), deduplicator.resetAfter, queue))
      {
        assert queue[i..][1..] == queue[i + 1..];
        RegisterNext(hash, mode, Registered(), View(), deduplicator.resetAfter, queue, i);
        ProcessUpdate(queue[i].0, queue[i].1);
      }
    }

    method RestoreAccessory(i: nat, m: Moment) returns (ok: bool)
      requires Valid() && i < |accessories|
      modifies Objects()
      ensures Accessories() == old(Accessories())[i := RestoreOne(old(Accessories())[i], measurements.devices, m)]
    {
      var update, updatedAt;
      update, updatedAt, ok := measurements.Restore(accessories[i].device);
      if ok {
        ApplyUpdate(i, update, m);
      }
    }

    /** Every accessory with cached values gets them before HomeKit starts. */
    method RestoreCachedMeasurements(m: Moment) returns (restored: nat)
      requires Valid()
      modifies Objects()
      ensures Accessories() == RestoreAll(old(Accessories()), measurements.devices, m)
    {
      restored := 0;
      ghost var before := Accessories();
      for i := 0 to |accessories|
        invariant forall j :: 0 <= j < i ==> Accessories()[j] == RestoreOne(before[j], measurements.devices, m)
        invariant forall j :: i <= j < |accessories| ==> Accessories()[j] == before[j]
      {
        var ok := RestoreAccessory(i, m);
        restored := restored + if ok then 1 else 0;
      }
    }
  }

  function ProcessAll(sys: System, resetAfter: int64, queue: seq<(Update, Moment)>): System
    decreases |queue|
  {
    if queue == [] then sys else ProcessAll(Process(sys, resetAfter, queue[0].0, queue[0].1), resetAfter, queue[1..])
  }

  /** A kept report of an unknown device is dropped; the others are applied and cached. */
  function InitialOne(sys: System, u: Update, m: Moment): System {
    if Match(sys.accessories, u) < |sys.accessories| then React(sys, Accepted, u, m) else sys
  }

  function InitialAll(sys: System, queue: seq<Update>, m: Moment): System {
    if queue == [] then sys else InitialOne(InitialAll(sys, queue[..|queue| - 1], m), queue[|queue| - 1], m)
  }

  lemma InitialSnoc(sys: System, queue: seq<Update>, u: Update, m: Moment)
    ensures InitialAll(sys, queue + [u], m) == InitialOne(InitialAll(sys, queue, m), u, m)
  {
    assert (queue + [u])[..|queue|] == queue;
  }

  ghost function KeptReports(keys: set<string>, initial: map<string, Update>): multiset<Update>
    requires keys <= initial.Keys
  {
    if keys == {} then multiset{}
    else
      var key :| key in keys;
      multiset{initial[key]} + KeptReports(keys - {key}, initial)
  }

  /** One report for every key, and no others. */
  lemma {:induction false} KeptReportsAre(keys: set<string>, initial: map<string, Update>)
    requires keys <= initial.Keys
    ensures |KeptReports(keys, initial)| == |keys|
    ensures forall u :: u in KeptReports(keys, initial) <==> exists key :: key in keys && initial[key] == u
    decreases |keys|
  {
    if keys == {} {
    } else {
      var key :| key in keys &&
        KeptReports(keys, initial) == multiset{initial[key]} + KeptReports(keys - {key}, initial);
      KeptReportsAre(keys - {key}, initial);
    }
  }

  lemma OrderIs(order: seq<Update>, initial: map<string, Update>)
    requires multiset(order) == KeptReports(initial.Keys, initial)
    ensures |order| == |initial|
    ensures forall u :: u in order <==> exists key :: key in initial && initial[key] == u
  {
    KeptReportsAre(initial.Keys, initial);
    assert |multiset(order)| == |order|;
    assert forall u :: u in order <==> u in multiset(order);
  }

  /** Any key may be taken first. */
  lemma {:induction false} KeptReportsWithout(keys: set<string>, initial: map<string, Update>, key: string)
    requires keys <= initial.Keys && key in keys
    ensures KeptReports(keys, initial) == multiset{initial[key]} + KeptReports(keys - {key}, initial)
    decreases |keys|
  {
    var first :| first in keys &&
      KeptReports(keys, initial) == multiset{initial[first]} + KeptReports(keys - {first}, initial);
    if first != key {
      KeptReportsWithout(keys - {first}, initial, key);
      KeptReportsWithout(keys - {key}, initial, first);
      assert keys - {first} - {key} == keys - {key} - {first};
    }
  }

  function RestoreOne(a: Accessory, c: Cache, m: Moment): Accessory {
    if RestoredValues(c, a.device) == NOTHING then a
    else ApplyTo(a, RestoredUpdate(a.device, RestoredValues(c, a.device)), m)
  }

  function RestoreAll(accessories: seq<Accessory>, c: Cache, m: Moment): (r: seq<Accessory>)
    ensures |r| == |accessories|
    ensures forall i :: 0 <= i < |r| ==> r[i] == RestoreOne(accessories[i], c, m)
  {
    seq(|accessories|, i requires 0 <= i < |accessories| => RestoreOne(accessories[i], c, m))
  }

  lemma {:induction false} MatchUnique(accessories: seq<Accessory>, u: Update, i: nat)
    requires i <= |accessories|
    requires i < |accessories| ==> MatchesUpdate(accessories[i].device, u)
    requires forall j :: 0 <= j < i ==> !MatchesUpdate(accessories[j].device, u)
    ensures i == Match(accessories, u)
  {
  }

  // --------------------------------------------------- enrolled at most once

  ghost predicate HasRecord(devices: seq<Device>, n: nat, mac: string) {
    exists k :: n <= k < |devices| && devices[k].mac == mac
  }

  /** Records from index n on: each of these MACs once. */
  ghost predicate EnrolledFrom(devices: seq<Device>, n: nat, macs: set<string>) {
    && n <= |devices|
    && (forall k :: n <= k < |devices| ==> devices[k].mac in macs)
    && (forall mac {:trigger HasRecord(devices, n, mac)} :: mac in macs ==> HasRecord(devices, n, mac))
    && forall k, l :: n <= k < l < |devices| ==> devices[k].mac != devices[l].mac
  }

  lemma EnrolledSnoc(devices: seq<Device>, n: nat, macs: set<string>, d: Device)
    requires EnrolledFrom(devices, n, macs) && d.mac !in macs
    ensures EnrolledFrom(devices + [d], n, macs + {d.mac})
  {
    var longer := devices + [d];
    forall mac | mac in macs + {d.mac} ensures HasRecord(longer, n, mac) {
      if mac in macs {
        assert HasRecord(devices, n, mac);
        var k :| n <= k < |devices| && devices[k].mac == mac;
        assert longer[k] == devices[k];
      } else {
        assert longer[|devices|] == d;
      }
    }
  }

  /** What has become of a settled registry: one record more for every MAC noted since, in auto mode. */
  ghost predicate Grown(mode: Mode, before: Registry, r: Registry) {
    && Settled(r.devices) && before.devices <= r.devices && before.unknown <= r.unknown
    && EnrolledFrom(r.devices, |before.devices|, if mode == Auto then r.unknown - before.unknown else {})
  }

  lemma RegisterGrows(hash: Hash, mode: Mode, before: Registry, r: Registry, u: Update)
    requires |r.devices| < CYCLE && Grown(mode, before, r)
    ensures Grown(mode, before, Register(hash, mode, r, u))
  {
    if SupportedDiscovery(u) && u.mac !in r.unknown && mode == Auto {
      var d := DeviceFromUpdate(u, |r.devices| + 1);
      AppendKeepsOthers(hash, r.devices, d);
      EnrolledSnoc(r.devices, |before.devices|, r.unknown - before.unknown, PrepareOne(hash, r.devices, d));
      assert r.unknown + {u.mac} - before.unknown == r.unknown - before.unknown + {u.mac};
    }
  }

  /** The MACs of the supported reports among these. */
  function MacsToNote(us: seq<Update>): set<string> {
    set u | u in us && SupportedDiscovery(u) :: u.mac
  }

  lemma MacsCons(us: seq<Update>)
    requires us != []
    ensures MacsToNote(us) == (if SupportedDiscovery(us[0]) then {us[0].mac} else {}) + MacsToNote(us[1..])
  {
    assert us == [us[0]] + us[1..];
  }

  lemma RegisterNotes(hash: Hash, mode: Mode, r: Registry, u: Update)
    requires |r.devices| < CYCLE
    ensures Register(hash, mode, r, u).unknown == r.unknown + if SupportedDiscovery(u) then {u.mac} else {}
  {
  }

  lemma {:induction false} RegisterAllNotes(hash: Hash, mode: Mode, r: Registry, us: seq<Update>)
    requires |r.devices| + |us| < CYCLE
    ensures RegisterAll(hash, mode, r, us).unknown == r.unknown + MacsToNote(us)
    decreases |us|
  {
    if us == [] {
    } else {
      var next := Register(hash, mode, r, us[0]);
      RegisterNotes(hash, mode, r, us[0]);
      RegisterAllNotes(hash, mode, next, us[1..]);
      MacsCons(us);
    }
  }

  lemma FirstRegistered(hash: Hash, mode: Mode, before: Registry, r: Registry, us: seq<Update>)
    returns (next: Registry)
    requires us != [] && |r.devices| + |us| < CYCLE && Grown(mode, before, r)
    ensures Grown(mode, before, next) && |next.devices| <= |r.devices| + 1
    ensures RegisterAll(hash, mode, r, us) == RegisterAll(hash, mode, next, us[1..])
  {
    next := Register(hash, mode, r, us[0]);
    RegisterGrows(hash, mode, before, r, us[0]);
  }

  lemma {:induction false} RegisterAllGrows(hash: Hash, mode: Mode, before: Registry, r: Registry, us: seq<Update>)
    requires |r.devices| + |us| < CYCLE && Grown(mode, before, r)
    ensures Grown(mode, before, RegisterAll(hash, mode, r, us))
    decreases |us|
  {
    if us == [] {
    } else {
      var next := FirstRegistered(hash, mode, before, r, us);
      RegisterAllGrows(hash, mode, before, next, us[1..]);
    }
  }

  /**
   Whatever reports are unmatched, auto mode appends one record for every MAC among
   them that was not noted before, and only for those; the other modes append nothing.
   The records that were there keep their places and AIDs.
   */
  lemma EnrolledOnce(hash: Hash, mode: Mode, r: Registry, us: seq<Update>)
    requires |r.devices| + |us| < CYCLE && Settled(r.devices)
    ensures var after := RegisterAll(hash, mode, r, us);
      && Settled(after.devices) && r.devices <= after.devices
      && after.unknown == r.unknown + MacsToNote(us)
      && EnrolledFrom(after.devices, |r.devices|, if mode == Auto then MacsToNote(us) - r.unknown else {})
  {
    RegisterAllGrows(hash, mode, r, r, us);
    RegisterAllNotes(hash, mode, r, us);
    assert r.unknown + MacsToNote(us) - r.unknown == MacsToNote(us) - r.unknown;
  }
}
