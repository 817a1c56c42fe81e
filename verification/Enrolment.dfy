/**
 cmd/mgl03-homekit-bridge/main.go: which devices the bridge knows, over discovery,
 enrolment, sorting, saving and restarts.
 */
module Enrolment {
  import opened Openmiio
  import opened Devices
  import Text

  // ------------------------------------------------------- settled lists

  /** Every AID is at least 2, no two agree, and every product field that can be filled is. */
  ghost predicate Settled(devices: seq<Device>) {
    && (forall i :: 0 <= i < |devices| ==> devices[i].aid >= 2 && WithProduct(devices[i]) == devices[i])
    && forall i, j :: 0 <= i < j < |devices| ==> devices[i].aid != devices[j].aid
  }

  lemma SettledSnoc(devices: seq<Device>, d: Device)
    ensures Settled(devices + [d]) <==>
      Settled(devices) && d.aid >= 2 && WithProduct(d) == d && d.aid !in Aids(devices)
  {
    var all := devices + [d];
    AidsMember(devices, d.aid);
    assert forall i :: 0 <= i < |devices| ==> all[i] == devices[i];
    assert all[|devices|] == d;
    if Settled(all) {
      assert forall i :: 0 <= i < |devices| ==> all[i].aid != all[|devices|].aid;
    }
  }

  /** prepareDevices always yields a settled list. */
  lemma {:induction false} PrepareSettles(hash: Hash, devices: seq<Device>)
    requires |devices| <= CYCLE
    ensures Settled(Prepare(hash, devices))
  {
    if devices == [] {
    } else {
      var shorter, last := devices[..|devices| - 1], devices[|devices| - 1];
      PrepareSettles(hash, shorter);
      SettledSnoc(Prepare(hash, shorter), PrepareOne(hash, Prepare(hash, shorter), last));
    }
  }

  /** It changes a list iff the list is not settled; so a second pass changes nothing. */
  lemma {:induction false} PrepareFixesIff(hash: Hash, devices: seq<Device>)
    requires |devices| <= CYCLE
    ensures Prepare(hash, devices) == devices <==> Settled(devices)
  {
    PrepareSettles(hash, devices);
    if devices == [] {
    } else {
      var shorter, last := devices[..|devices| - 1], devices[|devices| - 1];
      assert devices == shorter + [last];
      PrepareFixesIff(hash, shorter);
      SettledSnoc(shorter, last);
    }
  }

  /** A persisted AID survives iff no device before it has been given the same one. */
  lemma KeepsAidIff(hash: Hash, devices: seq<Device>, i: nat)
    requires i < |devices| <= CYCLE && devices[i].aid >= 2
    ensures Prepare(hash, devices)[i].aid == devices[i].aid <==> devices[i].aid !in Aids(Prepare(hash, devices[..i]))
  {
    PreparePrefix(hash, devices, i + 1);
    PrepareStep(hash, devices, i);
  }

  lemma {:induction false} PreparePrefix(hash: Hash, devices: seq<Device>, i: nat)
    requires i <= |devices| <= CYCLE
    ensures Prepare(hash, devices)[..i] == Prepare(hash, devices[..i])
    decreases |devices|
  {
    if i == |devices| {
      assert devices[..i] == devices;
    } else {
      PreparePrefix(hash, devices[..|devices| - 1], i);
      assert devices[..|devices| - 1][..i] == devices[..i];
    }
  }

  /** So AIDs are not always preserved: an earlier device without one can take a later device's. */
  lemma EarlierDeviceTakesAid(hash: Hash, first: Device, second: Device)
    requires first.aid < 2 && second.aid == StableID(hash, WithProduct(first))
    ensures Prepare(hash, [first, second])[0].aid == second.aid
    ensures Prepare(hash, [first, second])[1].aid != second.aid
  {
    var devices := [first, second];
    assert devices[..1] == [first] && devices[..1][..0] == [];
    AidsMember([], second.aid);
    SomeFree({});
    assert Prepare(hash, devices[..1])[0].aid == second.aid;
    AidsMember(Prepare(hash, devices[..1]), second.aid);
    KeepsAidIff(hash, devices, 1);
    PreparePrefix(hash, devices, 1);
  }

  // ------------------------------------- which lists keep their persisted AIDs

  /** The greatest AID that stableID can give. */
  const LAST_STABLE: nat := 0x8000_0001

  /** An AID comes from the record itself or from stableID and the probing after it. */
  lemma OwnOrStable(hash: Hash, prepared: seq<Device>, d: Device)
    requires |prepared| < CYCLE
    ensures PrepareOne(hash, prepared, d).aid == d.aid || PrepareOne(hash, prepared, d).aid <= LAST_STABLE
  {
    AidsSize(prepared);
  }

  lemma PreparedAt(hash: Hash, devices: seq<Device>, i: nat)
    requires i < |devices| <= CYCLE
    ensures Prepare(hash, devices)[i] == PrepareOne(hash, Prepare(hash, devices[..i]), devices[i])
  {
    PreparePrefix(hash, devices, i + 1);
    PrepareStep(hash, devices, i);
  }

  /** What is used after i records is the AID of one of them. */
  lemma UsedBy(hash: Hash, devices: seq<Device>, i: nat, aid: nat) returns (p: nat)
    requires i <= |devices| <= CYCLE && aid in Aids(Prepare(hash, devices[..i]))
    ensures p < i && Prepare(hash, devices)[p].aid == aid
  {
    AidsMember(Prepare(hash, devices[..i]), aid);
    p :| 0 <= p < i && Prepare(hash, devices[..i])[p].aid == aid;
    PreparePrefix(hash, devices, i);
  }

  lemma {:induction false} UsedAt(hash: Hash, devices: seq<Device>, i: nat, p: nat)
    requires p < i <= |devices| <= CYCLE
    ensures Prepare(hash, devices)[p].aid in Aids(Prepare(hash, devices[..i]))
  {
    var aid, prefix := Prepare(hash, devices)[p].aid, Prepare(hash, devices[..i]);
    PreparePrefix(hash, devices, i);
    assert prefix[p].aid == aid;
    AidsMember(prefix, aid);
  }

  /** All records before i have AIDs, no two the same. */
  ghost predicate Fixed(devices: seq<Device>, i: nat) {
    && i <= |devices|
    && (forall p :: 0 <= p < i ==> devices[p].aid >= 2)
    && forall l, p :: 0 <= l < p < i ==> devices[l].aid != devices[p].aid
  }

  /** Such records keep their AIDs. */
  lemma {:induction false} FixedAreKept(hash: Hash, devices: seq<Device>, i: nat, p: nat)
    requires p < i <= |devices| <= CYCLE && Fixed(devices, i)
    ensures Prepare(hash, devices)[p].aid == devices[p].aid
    decreases p
  {
    KeepsAidIff(hash, devices, p);
    if devices[p].aid in Aids(Prepare(hash, devices[..p])) {
      var l := UsedBy(hash, devices, p, devices[p].aid);
      FixedAreKept(hash, devices, i, l);
    }
  }

  /** A record's own AID is used after it, by itself or by one before it. */
  lemma OwnIsUsed(hash: Hash, devices: seq<Device>, p: nat)
    requires p < |devices| <= CYCLE && devices[p].aid >= 2
    ensures devices[p].aid in Aids(Prepare(hash, devices[..p + 1]))
  {
    PrepareStep(hash, devices, p);
    KeepsAidIff(hash, devices, p);
    PreparedAt(hash, devices, p);
  }

  lemma {:induction false} UsedLater(hash: Hash, devices: seq<Device>, i: nat, j: nat, aid: nat)
    requires i <= j <= |devices| <= CYCLE && aid in Aids(Prepare(hash, devices[..i]))
    ensures aid in Aids(Prepare(hash, devices[..j]))
  {
    var p := UsedBy(hash, devices, i, aid);
    UsedAt(hash, devices, j, p);
  }

  /** The hash that sends every identity to this AID. */
  function Aiming(aid: nat): Hash
    requires aid >= 2
  {
    (identity: string) => aid - 2
  }

  /** The record has no AID, or that of one before it. */
  ghost predicate Loses(devices: seq<Device>, p: nat) {
    p < |devices| && (devices[p].aid < 2 || exists l :: 0 <= l < p && devices[l].aid == devices[p].aid)
  }

  lemma {:induction false} AimedProbe(prepared: seq<Device>, d: Device, aid: nat)
    requires |prepared| < CYCLE && 2 <= aid <= LAST_STABLE && (d.aid < 2 || d.aid in Aids(prepared))
    ensures aid in Aids(prepared) || PrepareOne(Aiming(aid), prepared, d).aid == aid
  {
    AidsSize(prepared);
    SomeFree(Aids(prepared));
    assert StableID(Aiming(aid), WithProduct(d)) == aid;
  }

  /** Such a record takes the AID aimed at, unless it is taken. */
  lemma {:induction false} AimedIsUsed(devices: seq<Device>, p: nat, aid: nat)
    requires |devices| <= CYCLE && Loses(devices, p) && 2 <= aid <= LAST_STABLE
    ensures aid in Aids(Prepare(Aiming(aid), devices[..p + 1]))
  {
    var hash := Aiming(aid);
    PrepareStep(hash, devices, p);
    if devices[p].aid >= 2 {
      var l :| 0 <= l < p && devices[l].aid == devices[p].aid;
      OwnIsUsed(hash, devices, l);
      UsedLater(hash, devices, l + 1, p, devices[p].aid);
    }
    AimedProbe(Prepare(hash, devices[..p]), devices[p], aid);
  }

  /** What decides it, without any hash: nobody earlier has that AID, and nobody earlier can be given it. */
  ghost predicate Safe(devices: seq<Device>, i: nat)
    requires i < |devices|
  {
    && (forall p :: 0 <= p < i ==> devices[p].aid != devices[i].aid)
    && (devices[i].aid > LAST_STABLE || Fixed(devices, i))
  }

  lemma SafeIsKept(hash: Hash, devices: seq<Device>, i: nat)
    requires i < |devices| <= CYCLE && devices[i].aid >= 2 && Safe(devices, i)
    ensures Prepare(hash, devices)[i].aid == devices[i].aid
  {
    KeepsAidIff(hash, devices, i);
    if devices[i].aid in Aids(Prepare(hash, devices[..i])) {
      var p := UsedBy(hash, devices, i, devices[i].aid);
      if Fixed(devices, i) {
        FixedAreKept(hash, devices, i, p);
      } else {
        PreparedAt(hash, devices, p);
        OwnOrStable(hash, Prepare(hash, devices[..p]), devices[p]);
      }
    }
  }

  lemma NotFixedLoses(devices: seq<Device>, i: nat) returns (p: nat)
    requires i <= |devices| && !Fixed(devices, i)
    ensures p < i && Loses(devices, p)
  {
    if q :| 0 <= q < i && devices[q].aid < 2 {
      p := q;
    } else {
      var l, q :| 0 <= l < q < i && devices[l].aid == devices[q].aid;
      p := q;
    }
  }

  lemma {:induction false} UnsafeIsUsed(devices: seq<Device>, i: nat)
    requires i < |devices| <= CYCLE && devices[i].aid >= 2 && !Safe(devices, i)
    ensures devices[i].aid in Aids(Prepare(Aiming(devices[i].aid), devices[..i]))
  {
    var aid := devices[i].aid;
    var hash := Aiming(aid);
    if p :| 0 <= p < i && devices[p].aid == aid {
      OwnIsUsed(hash, devices, p);
      UsedLater(hash, devices, p + 1, i, aid);
    } else {
      var p := NotFixedLoses(devices, i);
      AimedIsUsed(devices, p, aid);
      UsedLater(hash, devices, p + 1, i, aid);
    }
  }

  lemma {:induction false} UnsafeIsLost(devices: seq<Device>, i: nat)
    requires i < |devices| <= CYCLE && devices[i].aid >= 2 && !Safe(devices, i)
    ensures exists hash: Hash :: Prepare(hash, devices)[i].aid != devices[i].aid
  {
    var hash := Aiming(devices[i].aid);
    UnsafeIsUsed(devices, i);
    KeepsAidIff(hash, devices, i);
    assert Prepare(hash, devices)[i].aid != devices[i].aid;
  }

  /** A persisted AID is kept for every hash iff it is safe. */
  lemma AidAlwaysKeptIff(devices: seq<Device>, i: nat)
    requires i < |devices| <= CYCLE && devices[i].aid >= 2
    ensures (forall hash: Hash :: Prepare(hash, devices)[i].aid == devices[i].aid) <==> Safe(devices, i)
  {
    if Safe(devices, i) {
      forall hash: Hash { SafeIsKept(hash, devices, i); }
    } else {
      UnsafeIsLost(devices, i);
    }
  }

  ghost predicate AlwaysKeepsAids(devices: seq<Device>)
    requires |devices| <= CYCLE
  {
    forall hash: Hash, i :: 0 <= i < |devices| && devices[i].aid >= 2 ==>
      Prepare(hash, devices)[i].aid == devices[i].aid
  }

  /**
   A record with an AID shares it with none before it, and comes before all without one
   unless its AID is out of their reach.
   */
  ghost predicate AidsComeFirst(devices: seq<Device>) {
    forall p, q :: 0 <= p < q < |devices| && devices[q].aid >= 2 ==>
      if devices[p].aid >= 2 then devices[p].aid != devices[q].aid else devices[q].aid > LAST_STABLE
  }

  /** A whole list keeps its AIDs for every hash iff that holds. */
  lemma AlwaysKeepsAidsIff(devices: seq<Device>)
    requires |devices| <= CYCLE
    ensures AlwaysKeepsAids(devices) <==> AidsComeFirst(devices)
  {
    if AidsComeFirst(devices) {
      forall hash: Hash, i | 0 <= i < |devices| && devices[i].aid >= 2
        ensures Prepare(hash, devices)[i].aid == devices[i].aid
      {
        SafeIsKept(hash, devices, i);
      }
    } else {
      var p, q :| 0 <= p < q < |devices| && devices[q].aid >= 2 &&
        if devices[p].aid >= 2 then devices[p].aid == devices[q].aid else devices[q].aid <= LAST_STABLE;
      UnsafeIsLost(devices, q);
    }
  }

  // ----------------------------------------------------------- identities

  predicate MatchesUpdate(d: Device, u: Update) {
    (u.mac != "" && d.mac != "" && Text.EqualFold(u.mac, d.mac)) || (u.did != "" && d.did != "" && u.did == d.did)
  }

  /** Two records of one physical device: the same MAC up to case, or the same DID. */
  predicate Shares(d: Device, e: Device) {
    (d.mac != "" && e.mac != "" && Text.EqualFold(d.mac, e.mac)) || (d.did != "" && d.did == e.did)
  }

  predicate Keyed(d: Device) {
    d.mac != "" || d.did != ""
  }

  method FindDevice(devices: seq<Device>, u: Update) returns (index: int)
    ensures index == -1 <==> forall i :: 0 <= i < |devices| ==> !MatchesUpdate(devices[i], u)
    ensures index != -1 ==> 0 <= index < |devices| && MatchesUpdate(devices[index], u)
    ensures index != -1 ==> forall i :: 0 <= i < index ==> !MatchesUpdate(devices[i], u)
  {
    for i := 0 to |devices|
      invariant forall j :: 0 <= j < i ==> !MatchesUpdate(devices[j], u)
    {
      var device := devices[i];
      if u.mac != "" && device.mac != "" && Text.EqualFold(u.mac, device.mac) {
        return i;
      }
      if u.did != "" && device.did != "" && u.did == device.did {
        return i;
      }
    }
    return -1;
  }

  /** Every record has a key and no two describe one device. */
  ghost predicate Identified(devices: seq<Device>) {
    && (forall i :: 0 <= i < |devices| ==> Keyed(devices[i]))
    && forall i, j :: 0 <= i < j < |devices| ==> !Shares(devices[i], devices[j])
  }

  lemma IdentifiedSnoc(devices: seq<Device>, d: Device)
    requires Identified(devices) && Keyed(d)
    requires forall i :: 0 <= i < |devices| ==> !Shares(devices[i], d)
    ensures Identified(devices + [d])
  {
  }

  // ---------------------------------------------------------- mergeDevices

  function SavedDevices(merged: seq<Device>, saved: seq<Device>): seq<Device>
    decreases |saved|
  {
    if saved == [] then merged
    else if Keyed(saved[0]) && (forall i :: 0 <= i < |merged| ==> !Shares(merged[i], saved[0]))
    then SavedDevices(merged + [saved[0]], saved[1..])
    else SavedDevices(merged, saved[1..])
  }

  predicate HasMAC(d: Device, mac: string) {
    d.mac != "" && Text.ToLower(d.mac) == mac
  }

  predicate HasDID(d: Device, did: string) {
    d.did != "" && d.did == did
  }

  ghost predicate SeenSets(devices: seq<Device>, seenMAC: set<string>, seenDID: set<string>) {
    && (forall m :: m in seenMAC <==> exists i :: 0 <= i < |devices| && HasMAC(devices[i], m))
    && (forall d :: d in seenDID <==> exists i :: 0 <= i < |devices| && HasDID(devices[i], d))
  }

  lemma SeenSnoc(devices: seq<Device>, seenMAC: set<string>, seenDID: set<string>, d: Device)
    requires SeenSets(devices, seenMAC, seenDID)
    ensures SeenSets(devices + [d],
                 if d.mac != "" then seenMAC + {Text.ToLower(d.mac)} else seenMAC,
                 if d.did != "" then seenDID + {d.did} else seenDID)
  {
    var all := devices + [d];
    assert all[|devices|] == d;
    forall i | 0 <= i < |devices| ensures all[i] == devices[i] {}
  }

  lemma SeenDecidesShares(devices: seq<Device>, seenMAC: set<string>, seenDID: set<string>, d: Device)
    requires SeenSets(devices, seenMAC, seenDID)
    ensures (d.mac != "" && Text.ToLower(d.mac) in seenMAC) || (d.did != "" && d.did in seenDID) <==>
      exists i :: 0 <= i < |devices| && Shares(devices[i], d)
  {
    forall i | 0 <= i < |devices|
      ensures Shares(devices[i], d) <==>
        (d.mac != "" && HasMAC(devices[i], Text.ToLower(d.mac))) || (d.did != "" && HasDID(devices[i], d.did))
    {
    }
  }

  /** The configured list followed by every saved device that adds an identity. */
  method MergeDevices(configured: seq<Device>, saved: seq<Device>) returns (merged: seq<Device>)
    ensures merged == SavedDevices(configured, saved)
  {
    merged := configured;
    var seenMAC: set<string>, seenDID: set<string> := {}, {};
    for i := 0 to |configured|
      invariant merged == configured
      invariant SeenSets(configured[..i], seenMAC, seenDID)
    {
      SeenSnoc(configured[..i], seenMAC, seenDID, configured[i]);
      assert configured[..i + 1] == configured[..i] + [configured[i]];
      if configured[i].mac != "" {
        seenMAC := seenMAC + {Text.ToLower(configured[i].mac)};
      }
      if configured[i].did != "" {
        seenDID := seenDID + {configured[i].did};
      }
    }
    assert configured[..|configured|] == configured;
    for i := 0 to |saved|
      invariant SeenSets(merged, seenMAC, seenDID)
      invariant SavedDevices(merged, saved[i..]) == SavedDevices(configured, saved)
    {
      var device := saved[i];
      assert saved[i..][1..] == saved[i + 1..];
      SeenDecidesShares(merged, seenMAC, seenDID, device);
      var duplicate := device.mac != "" && Text.ToLower(device.mac) in seenMAC;
      duplicate := duplicate || (device.did != "" && device.did in seenDID);
      if duplicate || !Keyed(device) {
        continue;
      }
      SeenSnoc(merged, seenMAC, seenDID, device);
      if device.mac != "" {
        seenMAC := seenMAC + {Text.ToLower(device.mac)};
      }
      if device.did != "" {
        seenDID := seenDID + {device.did};
      }
      merged := merged + [device];
    }
  }

  /** The merge of identified saved devices into an identified list stays identified. */
  lemma {:induction false} MergeIsIdentified(merged: seq<Device>, saved: seq<Device>)
    requires Identified(merged)
    ensures Identified(SavedDevices(merged, saved))
    decreases |saved|
  {
    if saved == [] {
    } else {
      if Keyed(saved[0]) && forall i :: 0 <= i < |merged| ==> !Shares(merged[i], saved[0]) {
        IdentifiedSnoc(merged, saved[0]);
        MergeIsIdentified(merged + [saved[0]], saved[1..]);
      } else {
        MergeIsIdentified(merged, saved[1..]);
      }
    }
  }

  /** One saved record more is appended iff it has a MAC or a DID and shares neither with a record kept before it. */
  lemma {:induction false} MergeSnoc(merged: seq<Device>, saved: seq<Device>, d: Device)
    ensures SavedDevices(merged, []) == merged
    ensures var before := SavedDevices(merged, saved);
      var added := (d.mac != "" || d.did != "") &&
        forall i :: 0 <= i < |before| ==>
          && (d.mac != "" ==> !Text.EqualFold(before[i].mac, d.mac))
          && (d.did != "" ==> before[i].did != d.did);
      SavedDevices(merged, saved + [d]) == if added then before + [d] else before
    decreases |saved|
  {
    if saved == [] {
      assert ([d])[1..] == [] && [] + [d] == [d];
    } else {
      assert (saved + [d])[1..] == saved[1..] + [d];
      if Keyed(saved[0]) && forall i :: 0 <= i < |merged| ==> !Shares(merged[i], saved[0]) {
        MergeSnoc(merged + [saved[0]], saved[1..], d);
      } else {
        MergeSnoc(merged, saved[1..], d);
      }
    }
  }

  /** Nothing is dropped when the two lists together are identified. */
  lemma {:induction false} MergeKeepsAll(merged: seq<Device>, saved: seq<Device>)
    requires Identified(merged + saved)
    ensures SavedDevices(merged, saved) == merged + saved
    decreases |saved|
  {
    if saved == [] {
      assert merged + saved == merged;
    } else {
      var all := merged + saved;
      assert all[|merged|] == saved[0];
      assert forall i :: 0 <= i < |merged| ==> all[i] == merged[i];
      assert merged + [saved[0]] + saved[1..] == all;
      MergeKeepsAll(merged + [saved[0]], saved[1..]);
    }
  }

  /** Merging picks a subset and keeps a settled list settled. */
  lemma {:induction false} MergeKeepsSettled(merged: seq<Device>, saved: seq<Device>)
    requires Settled(merged + saved)
    ensures Settled(SavedDevices(merged, saved))
    ensures forall d :: d in SavedDevices(merged, saved) ==> d in merged || d in saved
    ensures |SavedDevices(merged, saved)| <= |merged| + |saved|
    decreases |saved|
  {
    if saved == [] {
      assert merged + saved == merged;
    } else {
      var all, rest := merged + saved, saved[1..];
      assert merged + [saved[0]] + rest == all;
      if Keyed(saved[0]) && forall i :: 0 <= i < |merged| ==> !Shares(merged[i], saved[0]) {
        MergeKeepsSettled(merged + [saved[0]], rest);
      } else {
        var without := merged + rest;
        assert forall i :: 0 <= i < |without| ==> without[i] == all[if i < |merged| then i else i + 1];
        MergeKeepsSettled(merged, rest);
      }
    }
  }

  // -------------------------------------------------------------- enrolment

  ghost function AppendWithAID(hash: Hash, devices: seq<Device>, d: Device): seq<Device>
    requires |devices| < CYCLE
  {
    Prepare(hash, devices + [d])
  }

  method AppendDeviceWithAID(hash: Hash, devices: seq<Device>, device: Device) returns (prepared: seq<Device>)
    requires |devices| < CYCLE
    ensures prepared == AppendWithAID(hash, devices, device)
  {
    var all := devices + [device];
    var changed;
    prepared, changed := PrepareDevices(hash, all);
  }

  /** Enrolling into a settled list leaves every record of it as it was. */
  lemma AppendKeepsOthers(hash: Hash, devices: seq<Device>, d: Device)
    requires |devices| < CYCLE && Settled(devices)
    ensures AppendWithAID(hash, devices, d) == devices + [PrepareOne(hash, devices, d)]
    ensures Settled(AppendWithAID(hash, devices, d))
  {
    assert (devices + [d])[..|devices|] == devices;
    PrepareFixesIff(hash, devices);
    PrepareSettles(hash, devices + [d]);
  }

  /** The %d of a name. */
  function Decimal(n: nat): string {
    (if n < 10 then "" else Decimal(n / 10)) + [('0' as int + n % 10) as char]
  }

  function DefaultName(productID: int): string {
    if productID == PRODUCT_SENSOR_HT_O2 then "Miaomiaoce Temperature Sensor"
    else if productID == PRODUCT_TOOTHBRUSH_T700I then "Xiaomi Toothbrush T700i"
    else "Bluetooth Sensor"
  }

  function DeviceFromUpdate(u: Update, index: nat): Device {
    Device(DefaultName(u.productID) + " " + Decimal(index), u.mac, u.did, u.productID, u.model, 0)
  }

  predicate SupportedDiscovery(u: Update) {
    LookupModel(u.productID).Some? && u.mac != ""
  }

  function UpdateIdentity(u: Update): string {
    if u.mac != "" then Text.ToLower(u.mac) else "did:" + u.did
  }

  function DigitValue(c: char): int {
    c as int - '0' as int
  }

  /** Read as digits, the most significant first, a decimal is its number. */
  function Value(digits: string): int {
    if digits == "" then 0 else Value(digits[..|digits| - 1]) * 10 + DigitValue(digits[|digits| - 1])
  }

  lemma {:induction false} DecimalValue(n: nat)
    ensures Value(Decimal(n)) == n && Decimal(n) != ""
    ensures forall i :: 0 <= i < |Decimal(n)| ==> '0' <= Decimal(n)[i] <= '9'
  {
    if n >= 10 {
      DecimalValue(n / 10);
      assert Decimal(n)[..|Decimal(n)| - 1] == Decimal(n / 10);
    }
  }

  /**
   The record made of a report as the `index`th of the list: its MAC, DID and product, its
   model or that of the product, and a name.
   */
  predicate TakenFrom(d: Device, u: Update, index: nat) {
    && d.mac == u.mac && d.did == u.did && d.productID == u.productID
    && if u.productID == 5860 then
         && d.name == "Miaomiaoce Temperature Sensor" + " " + Decimal(index)
         && d.model == if u.model == "" then "miaomiaoce.sensor_ht.o2" else u.model
       else
         && d.productID == 6032
         && d.name == "Xiaomi Toothbrush T700i" + " " + Decimal(index)
         && d.model == if u.model == "" then "k0918.toothbrush.t700i" else u.model
  }

  lemma PreparedIsTaken(hash: Hash, prepared: seq<Device>, u: Update, index: nat)
    requires |prepared| < CYCLE && SupportedDiscovery(u)
    ensures TakenFrom(PrepareOne(hash, prepared, DeviceFromUpdate(u, index)), u, index)
  {
  }

  /** What discovery listens to: reports of the two products that carry a MAC; by it their devices are told apart. */
  lemma SupportedIff(u: Update, v: Update)
    ensures SupportedDiscovery(u) <==> u.mac != "" && (u.productID == 5860 || u.productID == 6032)
    ensures SupportedDiscovery(u) && SupportedDiscovery(v) ==>
      (UpdateIdentity(u) == UpdateIdentity(v) <==> Text.EqualFold(u.mac, v.mac))
  {
  }

  /** Enrolling a device no record matches keeps the list settled and identified. */
  lemma EnrolNew(hash: Hash, devices: seq<Device>, u: Update)
    requires |devices| < CYCLE && Settled(devices) && Identified(devices)
    requires SupportedDiscovery(u) && forall i :: 0 <= i < |devices| ==> !MatchesUpdate(devices[i], u)
    ensures var after := AppendWithAID(hash, devices, DeviceFromUpdate(u, |devices| + 1));
      && Settled(after) && Identified(after)
      && |after| == |devices| + 1 && after[..|devices|] == devices
      && MatchesUpdate(after[|devices|], u) && TakenFrom(after[|devices|], u, |after|)
  {
    AppendKeepsOthers(hash, devices, DeviceFromUpdate(u, |devices| + 1));
    var newest := PrepareOne(hash, devices, DeviceFromUpdate(u, |devices| + 1));
    forall i | 0 <= i < |devices| ensures !Shares(devices[i], newest) {
      assert !MatchesUpdate(devices[i], u);
    }
    PreparedIsTaken(hash, devices, u, |devices| + 1);
    IdentifiedSnoc(devices, newest);
  }

  predicate Known(devices: seq<Device>, u: Update) {
    exists i :: 0 <= i < |devices| && MatchesUpdate(devices[i], u)
  }

  datatype Mode = First | Auto | Manual
}
