/**
 internal/measurements/state.go: the last known readings of every device, keyed by
 normalised MAC or by DID, with a one-time promotion from the second to the first.
 Temperatures and humidities are exact reals here.
 */
module Measurements {
  import opened Base
  import opened Openmiio
  import opened Devices
  import Text

  datatype Values = Values(temperature: Option<real>, humidity: Option<real>, battery: Option<int>)

  const NOTHING: Values := Values(None, None, None)

  datatype Reading = Reading(values: Values, updatedAt: int64)

  type Cache = map<string, Reading>

  /** The fields of `newer` that are present, over those of `v`. */
  function Overlay(v: Values, newer: Values): Values {
    Values(if newer.temperature.Some? then newer.temperature else v.temperature,
           if newer.humidity.Some? then newer.humidity else v.humidity,
           if newer.battery.Some? then newer.battery else v.battery)
  }

  function ValuesOf(u: Update): Values {
    Values(u.temperature, u.humidity, u.battery)
  }

  // ------------------------------------------------------------------- keys

  const DID: string := "did:"

  function DidKey(did: string): string {
    DID + Text.TrimSpace(did)
  }

  function Identity(mac: string, did: string): string {
    if Text.NormalizeMAC(mac) != "" then Text.NormalizeMAC(mac)
    else if Text.TrimSpace(did) != "" then DidKey(did)
    else ""
  }

  function NormalizeKey(key: string): string {
    if DID <= key then DidKey(key[|DID|..]) else Text.NormalizeMAC(key)
  }

  predicate StableKeys(c: Cache) {
    forall k :: k in c ==> NormalizeKey(k) == k
  }

  /** A MAC of twelve hex digits never looks like a DID key. */
  lemma HexMACIsNoDidKey(mac: string)
    requires |Text.HexDigits(mac)| == 12
    ensures !(DID <= Text.NormalizeMAC(mac))
  {
    Text.HexDigitsAreHex(mac);
    Text.LowerKeepsShape(Text.HexDigits(mac)[1]);
    assert !Text.IsHex(DID[1]);
  }

  /** MAC text that Load would read back as a DID key with a space to trim. */
  predicate LooksLikeUntrimmedDid(mac: string) {
    DID <= Text.NormalizeMAC(mac) && !Text.Trimmed(Text.NormalizeMAC(mac)[|DID|..])
  }

  /** Load reads a key back unchanged iff its MAC text does not look like an untrimmed DID key. */
  lemma KeyIsFixedIff(mac: string, did: string)
    ensures NormalizeKey(Identity(mac, did)) == Identity(mac, did) <==> !LooksLikeUntrimmedDid(mac)
  {
    var m := Text.NormalizeMAC(mac);
    if m != "" {
      Text.NormalizeMACIdempotent(mac);
      if DID <= m {
        Text.TrimSpaceFixes(m[|DID|..]);
        assert m == DID + m[|DID|..];
        assert DidKey(m[|DID|..])[|DID|..] == Text.TrimSpace(m[|DID|..]);
      }
    } else if Text.TrimSpace(did) != "" {
      var t := Text.TrimSpace(did);
      Text.TrimSpaceIsTrimmed(did);
      Text.TrimSpaceFixes(t);
      assert DidKey(did)[|DID|..] == t;
    }
  }

  /** In particular for every twelve-digit MAC and every bare DID. */
  lemma OrdinaryKeysAreFixed(mac: string, did: string)
    requires |Text.HexDigits(mac)| == 12 || Text.NormalizeMAC(mac) == ""
    ensures NormalizeKey(Identity(mac, did)) == Identity(mac, did)
  {
    if |Text.HexDigits(mac)| == 12 {
      HexMACIsNoDidKey(mac);
    }
    KeyIsFixedIff(mac, did);
  }

  // ------------------------------------------------------------------ merge

  /** No key without a MAC or a DID; two readings share one iff their MACs do or, where neither has one, their DIDs. */
  lemma IdentityIff(mac: string, did: string, mac2: string, did2: string)
    ensures Identity(mac, did) == "" <==> Text.NormalizeMAC(mac) == "" && Text.TrimSpace(did) == ""
    ensures Identity(mac, did) == Identity(mac2, did2) <==>
      var m, m2, d, d2 := Text.NormalizeMAC(mac), Text.NormalizeMAC(mac2), Text.TrimSpace(did), Text.TrimSpace(did2);
      if m != "" && m2 != "" then m == m2
      else if m == "" && m2 == "" then d == d2
      else if m != "" then d2 != "" && m == "did:" + d2
      else d != "" && m2 == "did:" + d
  {
    assert DidKey(did)[|DID|..] == Text.TrimSpace(did) && DidKey(did2)[|DID|..] == Text.TrimSpace(did2);
  }

  /** A saved key is read back as the key of the device it spells: a MAC in any spelling, or "did:" and a DID. */
  lemma LoadedKey(mac: string, did: string)
    ensures "did:" <= mac || NormalizeKey(mac) == Text.NormalizeMAC(mac)
    ensures Text.TrimSpace(did) != "" ==> NormalizeKey("did:" + did) == Identity("", did)
  {
    assert ("did:" + did)[|DID|..] == did;
    assert Text.NormalizeMAC("") == "" by { assert Text.HexDigits("") == ""; }
  }

  /** The reading an update is merged into, and the cache without it when it moves. */
  predicate Promotes(c: Cache, u: Update) {
    Identity(u.mac, u.did) !in c && u.did != "" && DidKey(u.did) in c
  }

  function Held(c: Cache, u: Update): Values {
    var key := Identity(u.mac, u.did);
    if key in c then c[key].values
    else if Promotes(c, u) then c[DidKey(u.did)].values
    else NOTHING
  }

  function Stamp(u: Update, now: int64): int64 {
    if u.gatewayTime <= 0 then now else u.gatewayTime
  }

  function MergedCache(c: Cache, u: Update, now: int64): Cache {
    var key := Identity(u.mac, u.did);
    var merged := Overlay(Held(c, u), ValuesOf(u));
    if key == "" || (merged == Held(c, u) && !Promotes(c, u)) then c
    else (if Promotes(c, u) then c - {DidKey(u.did)} else c)[key := Reading(merged, Stamp(u, now))]
  }

  /**
   One merge, spelled out. Every field the update brings replaces what was held under the
   device's key, or else under its DID, whose reading then moves; no other key changes. A
   reading that changed is stamped with the gateway time or, without one, the wall clock;
   one that did not keeps its stamp.
   */
  lemma MergeExact(c: Cache, u: Update, now: int64)
    requires Identity(u.mac, u.did) != ""
    ensures var key, didKey, after := Identity(u.mac, u.did), "did:" + Text.TrimSpace(u.did), MergedCache(c, u, now);
      var moves := key !in c && u.did != "" && didKey in c;
      var held := if key in c then c[key].values else if moves then c[didKey].values else NOTHING;
      var values := if key in after then after[key].values else NOTHING;
      && values.temperature == (if u.temperature.Some? then u.temperature else held.temperature)
      && values.humidity == (if u.humidity.Some? then u.humidity else held.humidity)
      && values.battery == (if u.battery.Some? then u.battery else held.battery)
      && (after == c <==> values == held && !moves)
      && (after != c ==> key in after && after[key].updatedAt == if u.gatewayTime > 0 then u.gatewayTime else now)
      && (forall k :: k in after && k != key ==> k in c && after[k] == c[k])
      && (forall k :: k in c && k !in after ==> moves && k == didKey)
      && (moves ==> didKey == key || didKey !in after)
  {
    assert DidKey(u.did) == "did:" + Text.TrimSpace(u.did);
  }

  function RestoredReading(c: Cache, d: Device): Option<Reading> {
    var key := Identity(d.mac, d.did);
    if key in c then Some(c[key])
    else if d.did != "" && DidKey(d.did) in c then Some(c[DidKey(d.did)])
    else None
  }

  /** What Restore gives back for a device; NOTHING when it reports no cached values. */
  function RestoredValues(c: Cache, d: Device): Values {
    match RestoredReading(c, d)
    case None => NOTHING
    case Some(r) => r.values
  }

  function RestoredUpdate(d: Device, v: Values): Update {
    EMPTY_UPDATE.(mac := Text.NormalizeMAC(d.mac), did := d.did, productID := d.productID, model := d.model,
                  temperature := v.temperature, humidity := v.humidity, battery := v.battery)
  }

  /** What a file written from `saved` may be read back as, whatever the order of its keys. */
  ghost predicate LoadResult(saved: Cache, loaded: Cache) {
    && (forall k :: k in saved ==> NormalizeKey(k) in loaded)
    && (forall k :: k in loaded ==> Source(saved, k, loaded[k]))
  }

  ghost predicate Source(saved: Cache, key: string, r: Reading) {
    exists k :: k in saved && NormalizeKey(k) == key && saved[k] == r
  }

  lemma LoadKeepsStableCache(saved: Cache, loaded: Cache)
    requires StableKeys(saved) && LoadResult(saved, loaded)
    ensures loaded == saved
  {
    forall k | k in loaded ensures k in saved && saved[k] == loaded[k] {
      assert Source(saved, k, loaded[k]);
    }
    forall k | k in saved ensures k in loaded {
      assert NormalizeKey(k) in loaded;
    }
  }

  /** Field by field: present and different replaces. */
  method MergeFields(held: Values, update: Update) returns (values: Values, differs: bool)
    ensures values == Overlay(held, ValuesOf(update))
    ensures differs <==> values != held
  {
    values, differs := held, false;
    if update.temperature.Some? && values.temperature != update.temperature {
      values := values.(temperature := update.temperature);
      differs := true;
    }
    if update.humidity.Some? && values.humidity != update.humidity {
      values := values.(humidity := update.humidity);
      differs := true;
    }
    if update.battery.Some? && values.battery != update.battery {
      values := values.(battery := update.battery);
      differs := true;
    }
  }

  class State {
    var devices: Cache

    constructor ()
      ensures devices == map[]
    {
      devices := map[];
    }

    /** Reads a saved map back; Go visits its keys in no particular order. */
    constructor Load(saved: Cache)
      ensures LoadResult(saved, devices)
    {
      devices := map[];
      new;
      var rest := saved.Keys;
      while rest != {}
        invariant rest <= saved.Keys
        invariant forall k :: k in saved && k !in rest ==> NormalizeKey(k) in devices
        invariant forall k :: k in devices ==> Source(saved, k, devices[k])
        decreases |rest|
      {
        var key :| key in rest;
        devices := devices[NormalizeKey(key) := saved[key]];
        assert Source(saved, NormalizeKey(key), saved[key]);
        rest := rest - {key};
      }
    }

    /** Reports true exactly when the stored map changed. */
    method Merge(update: Update, now: int64) returns (changed: bool)
      modifies this
      ensures devices == MergedCache(old(devices), update, now)
      ensures changed <==> devices != old(devices)
    {
      var key := Identity(update.mac, update.did);
      if key == "" {
        return false;
      }
      var reading := Reading(NOTHING, 0);
      changed := false;
      ghost var before := devices;
      if key in devices {
        reading := devices[key];
      } else if update.did != "" {
        var didKey := DID + Text.TrimSpace(update.did);
        if didKey in devices {
          reading := devices[didKey];
          devices := devices - {didKey};
          changed := true;
        }
      }
      var values, differs := MergeFields(reading.values, update);
      changed := changed || differs;
      if !changed {
        return;
      }
      var updatedAt := update.gatewayTime;
      if updatedAt <= 0 {
        updatedAt := now;
      }
      devices := devices[key := Reading(values, updatedAt)];
      assert devices[key].values == values;
      if Promotes(before, update) {
        assert key in devices && key !in before;
      }
    }

    method Restore(device: Device) returns (update: Update, updatedAt: int64, ok: bool)
      ensures ok <==> RestoredValues(devices, device) != NOTHING
      ensures ok ==> update == RestoredUpdate(device, RestoredValues(devices, device))
      ensures ok ==> RestoredReading(devices, device) == Some(Reading(RestoredValues(devices, device), updatedAt))
      ensures !ok ==> update == EMPTY_UPDATE && updatedAt == 0
    {
      var key := Identity(device.mac, device.did);
      var found := key in devices;
      if !found && device.did != "" {
        key := DID + Text.TrimSpace(device.did);
        found := key in devices;
      }
      if !found || (devices[key].values.temperature.None? && devices[key].values.humidity.None?
                    && devices[key].values.battery.None?) {
        return EMPTY_UPDATE, 0, false;
      }
      return RestoredUpdate(device, devices[key].values), devices[key].updatedAt, true;
    }
  }

  // ---------------------------------------------------------------- runs

  datatype Merging = Merging(update: Update, now: int64)

  function CacheAfter(c: Cache, ms: seq<Merging>): Cache {
    if ms == [] then c
    else MergedCache(CacheAfter(c, ms[..|ms| - 1]), ms[|ms| - 1].update, ms[|ms| - 1].now)
  }

  lemma {:induction false} KeysStayStable(c: Cache, ms: seq<Merging>)
    requires StableKeys(c) && forall i :: 0 <= i < |ms| ==> !LooksLikeUntrimmedDid(ms[i].update.mac)
    ensures StableKeys(CacheAfter(c, ms))
  {
    if ms == [] {
    } else {
      KeysStayStable(c, ms[..|ms| - 1]);
      var u := ms[|ms| - 1].update;
      KeyIsFixedIff(u.mac, u.did);
    }
  }

  /** Save then Load gives back the same cache, keys and readings. */
  lemma CacheSurvivesSaveLoad(c: Cache, ms: seq<Merging>, loaded: Cache)
    requires StableKeys(c) && forall i :: 0 <= i < |ms| ==> !LooksLikeUntrimmedDid(ms[i].update.mac)
    requires LoadResult(CacheAfter(c, ms), loaded)
    ensures loaded == CacheAfter(c, ms)
  {
    KeysStayStable(c, ms);
    LoadKeepsStableCache(CacheAfter(c, ms), loaded);
  }

  /** One physical device, by its normalised MAC and its trimmed DID. */
  datatype Pair = Pair(mac: string, did: string)

  predicate ByMac(u: Update, p: Pair) {
    Text.NormalizeMAC(u.mac) == p.mac
  }

  predicate ByDid(u: Update, p: Pair) {
    p.did != "" && Text.NormalizeMAC(u.mac) == "" && Text.TrimSpace(u.did) == p.did
  }

  /** Its MAC and its DID, if it has one, name nobody else, and its MAC-bearing updates carry that DID. */
  predicate Owned(u: Update, p: Pair) {
    && (p.did != "" && Text.TrimSpace(u.did) == p.did ==> ByMac(u, p) || ByDid(u, p))
    && (ByMac(u, p) ==> Text.TrimSpace(u.did) == p.did)
    && Text.NormalizeMAC(u.mac) != DID + p.did
  }

  predicate IsOf(u: Update, p: Pair) {
    ByMac(u, p) || ByDid(u, p)
  }

  /** The last value reported for each field of the device, from the values v it had. */
  function Last(v: Values, ms: seq<Merging>, p: Pair): Values {
    if ms == [] then v
    else
      var before, u := Last(v, ms[..|ms| - 1], p), ms[|ms| - 1].update;
      if IsOf(u, p) then Overlay(before, ValuesOf(u)) else before
  }

  function TemperatureOf(p: Pair): Merging -> Option<real> {
    (m: Merging) => if IsOf(m.update, p) then m.update.temperature else None
  }

  function HumidityOf(p: Pair): Merging -> Option<real> {
    (m: Merging) => if IsOf(m.update, p) then m.update.humidity else None
  }

  function BatteryOf(p: Pair): Merging -> Option<int> {
    (m: Merging) => if IsOf(m.update, p) then m.update.battery else None
  }

  /** Each field is that of the last update of the device that carries it, or else of v. */
  ghost predicate LastReported(v: Values, ms: seq<Merging>, p: Pair, shown: Values) {
    && FromLast(ms, TemperatureOf(p), v.temperature, shown.temperature)
    && FromLast(ms, HumidityOf(p), v.humidity, shown.humidity)
    && FromLast(ms, BatteryOf(p), v.battery, shown.battery)
  }

  lemma {:induction false} LastIsLast(v: Values, ms: seq<Merging>, p: Pair)
    ensures LastReported(v, ms, p, Last(v, ms, p))
  {
    if ms == [] {
    } else {
      var shorter, m := ms[..|ms| - 1], ms[|ms| - 1];
      var before := Last(v, shorter, p);
      LastIsLast(v, shorter, p);
      FromLastSnoc(shorter, m, TemperatureOf(p), v.temperature, before.temperature);
      FromLastSnoc(shorter, m, HumidityOf(p), v.humidity, before.humidity);
      FromLastSnoc(shorter, m, BatteryOf(p), v.battery, before.battery);
      assert ms == shorter + [m];
    }
  }

  predicate MacSeen(seen: bool, ms: seq<Merging>, p: Pair) {
    if ms == [] then seen else MacSeen(seen, ms[..|ms| - 1], p) || ByMac(ms[|ms| - 1].update, p)
  }

  /** No DID-only update of the device comes after a MAC-bearing one, or at all when its MAC is known already. */
  predicate InOrder(seen: bool, ms: seq<Merging>, p: Pair) {
    ms == [] ||
    (InOrder(seen, ms[..|ms| - 1], p) && (MacSeen(seen, ms[..|ms| - 1], p) ==> !ByDid(ms[|ms| - 1].update, p)))
  }

  /** One of the two keys holds the device's last values, and which one is decided by the MAC having been seen. */
  ghost predicate Tracks(c: Cache, p: Pair, v: Values, macSeen: bool) {
    && (if macSeen then DID + p.did !in c else p.mac !in c)
    && (p.did == "" ==> DID + p.did !in c)
    && (var key := if macSeen then p.mac else DID + p.did;
        v == if key in c then c[key].values else NOTHING)
  }

  lemma MergeTracks(c: Cache, p: Pair, v: Values, macSeen: bool, u: Update, now: int64)
    requires p.mac != "" && !(DID <= p.mac)
    requires Tracks(c, p, v, macSeen) && Owned(u, p) && (macSeen ==> !ByDid(u, p))
    ensures Tracks(MergedCache(c, u, now), p,
                   if IsOf(u, p) then Overlay(v, ValuesOf(u)) else v,
                   macSeen || ByMac(u, p))
  {
    var key := Identity(u.mac, u.did);
    assert DidKey(u.did)[|DID|..] == Text.TrimSpace(u.did) && (DID + p.did)[|DID|..] == p.did;
    assert key != DID + p.did || ByDid(u, p);
    if ByMac(u, p) {
      assert key == p.mac && DidKey(u.did) == DID + p.did;
    } else if ByDid(u, p) {
      assert key == DID + p.did && DidKey(u.did) == key;
    } else {
      assert key != p.mac && (DidKey(u.did) == DID + p.did ==> p.did == "");
      assert DidKey(u.did) != p.mac;
    }
  }

  lemma {:induction false} CacheTracksDevice(c: Cache, v: Values, seen: bool, ms: seq<Merging>, p: Pair)
    requires p.mac != "" && !(DID <= p.mac) && Tracks(c, p, v, seen)
    requires InOrder(seen, ms, p) && forall m :: m in ms ==> Owned(m.update, p)
    ensures Tracks(CacheAfter(c, ms), p, Last(v, ms, p), MacSeen(seen, ms, p))
  {
    if ms == [] {
    } else {
      var before, last := ms[..|ms| - 1], ms[|ms| - 1];
      CacheTracksDevice(c, v, seen, before, p);
      assert last in ms;
      MergeTracks(CacheAfter(c, before), p, Last(v, before, p), MacSeen(seen, before, p), last.update, last.now);
    }
  }

  function PairOf(d: Device): Pair {
    Pair(Text.NormalizeMAC(d.mac), Text.TrimSpace(d.did))
  }

  /**
   From any cache that does not hold a device under both its keys, when the DID-only
   updates of the device come before its MAC-bearing ones, Restore gives back the last
   reported value of every field.
   */
  lemma RestoreReturnsLast(c: Cache, ms: seq<Merging>, d: Device)
    requires var p := PairOf(d);
      && p.mac != "" && !(DID <= p.mac)
      && (DID + p.did in c ==> p.did != "" && p.mac !in c)
      && InOrder(p.mac in c, ms, p) && (forall m :: m in ms ==> Owned(m.update, p))
    ensures RestoredValues(CacheAfter(c, ms), d) == Last(RestoredValues(c, d), ms, PairOf(d))
    ensures LastReported(RestoredValues(c, d), ms, PairOf(d), RestoredValues(CacheAfter(c, ms), d))
  {
    LastIsLast(RestoredValues(c, d), ms, PairOf(d));
    CacheTracksDevice(c, RestoredValues(c, d), PairOf(d).mac in c, ms, PairOf(d));
  }

  // ------------------------------------------- where the cache does not follow

  /**
   A DID-only update of a device known by MAC and DID reaches what Restore returns
   iff the cache holds no reading under the MAC. Otherwise Restore is blind to it.
   */
  lemma DidOnlyMergeVisibleIff(c: Cache, d: Device, u: Update, now: int64)
    requires Text.NormalizeMAC(d.mac) != "" && Text.TrimSpace(d.did) != ""
    requires Text.NormalizeMAC(u.mac) == "" && Text.TrimSpace(u.did) == Text.TrimSpace(d.did)
    requires Text.NormalizeMAC(d.mac) != DidKey(d.did)
    ensures RestoredValues(MergedCache(c, u, now), d) ==
      if Text.NormalizeMAC(d.mac) in c then RestoredValues(c, d)
      else Overlay(RestoredValues(c, d), ValuesOf(u))
  {
  }

  /**
   A device configured by DID alone never sees what a MAC-bearing report of its own
   brings. The first such report even moves away what was cached for it; later ones
   leave that as it is.
   */
  lemma MacReadingInvisibleByDid(c: Cache, u: Update, d: Device, now: int64)
    requires Text.NormalizeMAC(u.mac) != "" && !(DID <= Text.NormalizeMAC(u.mac))
    requires Text.NormalizeMAC(d.mac) == ""
    requires Text.TrimSpace(d.did) == Text.TrimSpace(u.did) != ""
    ensures RestoredValues(MergedCache(c, u, now), d) ==
      if Text.NormalizeMAC(u.mac) in c then RestoredValues(c, d) else NOTHING
  {
    assert DID <= DidKey(d.did);
  }
}
