/** internal/config/config.go: which configured device lists are accepted. */
module Config {
  import opened Base
  import opened Devices
  import Enrolment
  import Text

  predicate LowerHex(c: char) {
    '0' <= c <= '9' || 'a' <= c <= 'f'
  }

  /** The pattern ^([0-9a-f]{2}:){5}[0-9a-f]{2}$ */
  predicate ValidMAC(s: string) {
    |s| == 17 && forall i :: 0 <= i < 17 ==> if i % 3 == 2 then s[i] == ':' else LowerHex(s[i])
  }

  lemma ValidMACHasTwelveDigits(s: string)
    requires ValidMAC(s)
    ensures |Text.HexDigits(s)| == 12
  {
    var hex := [s[0], s[1], s[3], s[4], s[6], s[7], s[9], s[10], s[12], s[13], s[15], s[16]];
    assert forall i :: 0 <= i < 12 ==> LowerHex(hex[i]) && Text.LowerChar(hex[i]) == hex[i];
    assert Text.ToLower(hex) == hex;
    assert s == Text.Colons(hex) by {
      assert s[2] == s[5] == s[8] == s[11] == s[14] == ':';
    }
    Text.HexDigitsOfColons(hex);
  }

  lemma ColonsIsValid(hex: string)
    requires |hex| == 12 && forall i :: 0 <= i < 12 ==> Text.IsHex(hex[i])
    ensures ValidMAC(Text.Colons(hex))
  {
    forall i | 0 <= i < 12 ensures LowerHex(Text.ToLower(hex)[i]) { Text.LowerKeepsShape(hex[i]); }
  }

  /** Normalised text is a valid address iff the input had twelve hex digits, however it was spelled. */
  lemma ValidMACIff(s: string)
    ensures ValidMAC(Text.NormalizeMAC(s)) <==> |Text.HexDigits(s)| == 12
  {
    var hex := Text.HexDigits(s);
    if |hex| == 12 {
      Text.HexDigitsAreHex(s);
      ColonsIsValid(hex);
    } else {
      Text.TrimSpaceIsTrimmed(s);
      Text.HexDigitsOfLower(Text.TrimSpace(s));
      assert |Text.HexDigits(Text.NormalizeMAC(s))| != 12;
      if ValidMAC(Text.NormalizeMAC(s)) {
        ValidMACHasTwelveDigits(Text.NormalizeMAC(s));
      }
    }
  }

  function Normalized(d: Device): Device {
    d.(mac := Text.NormalizeMAC(d.mac), did := Text.TrimSpace(d.did))
  }

  function ConfigKey(d: Device): string {
    if d.mac == "" then "did:" + d.did else d.mac
  }

  function NormalizedAll(devices: seq<Device>): (r: seq<Device>)
    ensures |r| == |devices| && forall i :: 0 <= i < |r| ==> r[i] == Normalized(devices[i])
  {
    seq(|devices|, i requires 0 <= i < |devices| => Normalized(devices[i]))
  }

  predicate SoundDevice(d: Device) {
    Enrolment.Keyed(d) && (d.mac == "" || ValidMAC(d.mac)) && d.aid != 1
  }

  /** No two entries clash: their keys differ, and their AIDs unless absent. */
  predicate Compatible(d: Device, e: Device) {
    ConfigKey(d) != ConfigKey(e) && (d.aid > 0 ==> d.aid != e.aid)
  }

  ghost predicate Sound(devices: seq<Device>) {
    && (forall i :: 0 <= i < |devices| ==> SoundDevice(devices[i]))
    && (forall i, j :: 0 <= i < j < |devices| ==> Compatible(devices[i], devices[j]))
  }

  lemma SoundSnoc(devices: seq<Device>, d: Device)
    ensures Sound(devices + [d]) <==>
      Sound(devices) && SoundDevice(d) && forall i :: 0 <= i < |devices| ==> Compatible(devices[i], d)
  {
    var all := devices + [d];
    assert all[|devices|] == d && forall i :: 0 <= i < |devices| ==> all[i] == devices[i];
    if Sound(all) {
      forall i | 0 <= i < |devices| ensures Compatible(devices[i], d) {
        assert Compatible(all[i], all[|devices|]);
      }
    }
  }

  ghost predicate SeenSo(devices: seq<Device>, seen: set<string>, seenAID: set<nat>) {
    && (forall k :: k in seen <==> exists j :: 0 <= j < |devices| && ConfigKey(devices[j]) == k)
    && (forall a :: a in seenAID <==> a > 0 && exists j :: 0 <= j < |devices| && devices[j].aid == a)
  }

  lemma SeenDecides(devices: seq<Device>, seen: set<string>, seenAID: set<nat>, d: Device)
    requires SeenSo(devices, seen, seenAID)
    ensures (forall i :: 0 <= i < |devices| ==> Compatible(devices[i], d)) <==>
      ConfigKey(d) !in seen && d.aid !in seenAID
  {
  }

  lemma SeenNext(devices: seq<Device>, seen: set<string>, seenAID: set<nat>, d: Device)
    requires SeenSo(devices, seen, seenAID)
    ensures SeenSo(devices + [d], seen + {ConfigKey(d)}, if d.aid > 0 then seenAID + {d.aid} else seenAID)
  {
    var all := devices + [d];
    assert all[|devices|] == d && forall i :: 0 <= i < |devices| ==> all[i] == devices[i];
  }

  /** One entry against those before it. */
  method CheckDevice(d: Device, ghost before: seq<Device>, seen: set<string>, seenAID: set<nat>) returns (error: string)
    requires SeenSo(before, seen, seenAID) && Sound(before)
    ensures error == "" <==> Sound(before + [d])
  {
    SoundSnoc(before, d);
    SeenDecides(before, seen, seenAID, d);
    if d.mac == "" && d.did == "" {
      return "device must have mac or did";
    }
    if d.mac != "" && !ValidMAC(d.mac) {
      return "invalid mac";
    }
    var key := if d.mac == "" then "did:" + d.did else d.mac;
    if key in seen {
      return "duplicate device";
    }
    if d.aid == 1 {
      return "reserved bridge aid 1";
    }
    if d.aid > 0 && d.aid in seenAID {
      return "duplicate device aid";
    }
    return "";
  }

  lemma SoundPrefix(devices: seq<Device>, i: nat)
    requires i <= |devices| && Sound(devices)
    ensures Sound(devices[..i])
  {
  }

  /** The device loop of NormalizeAndValidate: accepted iff the normalised list is sound. */
  method ValidateDevices(devices: seq<Device>) returns (r: Result<seq<Device>>)
    ensures r.Ok? <==> Sound(NormalizedAll(devices))
    ensures r.Ok? ==> r.value == NormalizedAll(devices)
  {
    var out: seq<Device> := [];
    var seen: set<string>, seenAID: set<nat> := {}, {};
    ghost var all := NormalizedAll(devices);
    for i := 0 to |devices|
      invariant out == all[..i] && Sound(out) && SeenSo(out, seen, seenAID)
    {
      var d := Normalized(devices[i]);
      assert all[..i + 1] == out + [d];
      var error := CheckDevice(d, out, seen, seenAID);
      if error != "" {
        if Sound(all) { SoundPrefix(all, i + 1); }
        return Err(error);
      }
      SeenNext(out, seen, seenAID, d);
      seen := seen + {ConfigKey(d)};
      seenAID := if d.aid > 0 then seenAID + {d.aid} else seenAID;
      out := out + [d];
    }
    return Ok(out);
  }

  /**
   So a list is accepted iff every entry has a MAC of twelve hex digits or, without any
   MAC, a DID, none has AID 1, and no two have the same MAC, or the same DID without
   MACs, or the same AID. Accepting it changes only the spelling of MACs and DIDs.
   */
  lemma AcceptedIff(devices: seq<Device>)
    ensures Sound(NormalizedAll(devices)) <==>
      && (forall i :: 0 <= i < |devices| ==>
           && (if Text.NormalizeMAC(devices[i].mac) != "" then |Text.HexDigits(devices[i].mac)| == 12
               else Text.TrimSpace(devices[i].did) != "")
           && devices[i].aid != 1)
      && (forall i, j :: 0 <= i < j < |devices| ==> !Clash(devices[i], devices[j]))
    ensures forall i :: 0 <= i < |devices| ==>
      NormalizedAll(devices)[i] ==
        devices[i].(mac := Text.NormalizeMAC(devices[i].mac), did := Text.TrimSpace(devices[i].did))
  {
    var all := NormalizedAll(devices);
    forall i | 0 <= i < |devices| { ValidMACIff(devices[i].mac); }
    if forall i :: 0 <= i < |devices| ==> SoundDevice(all[i]) {
      forall i, j | 0 <= i < j < |devices| ensures Compatible(all[i], all[j]) <==> !Clash(devices[i], devices[j]) {
        CompatibleIff(devices[i], devices[j]);
      }
    }
  }

  predicate Clash(d: Device, e: Device) {
    || (Text.NormalizeMAC(d.mac) != "" && Text.NormalizeMAC(d.mac) == Text.NormalizeMAC(e.mac))
    || (Text.NormalizeMAC(d.mac) == Text.NormalizeMAC(e.mac) == "" && Text.TrimSpace(d.did) == Text.TrimSpace(e.did))
    || (d.aid > 0 && d.aid == e.aid)
  }

  lemma CompatibleIff(d: Device, e: Device)
    requires SoundDevice(Normalized(d)) && SoundDevice(Normalized(e))
    ensures Compatible(Normalized(d), Normalized(e)) <==> !Clash(d, e)
  {
    var x, y := Text.TrimSpace(d.did), Text.TrimSpace(e.did);
    assert ("did:" + x)[4..] == x && ("did:" + y)[4..] == y;
    assert ("did:" + x)[1] == 'i' && ("did:" + y)[1] == 'i';
  }

  lemma PositiveAid(d: Device)
    requires SoundDevice(d) && d.aid > 0
    ensures d.aid >= 2
  {
  }

  lemma DifferentAids(d: Device, e: Device)
    requires Compatible(d, e) && d.aid > 0
    ensures d.aid != e.aid
  {
  }

  lemma SoundAids(devices: seq<Device>)
    requires Sound(devices) && forall i :: 0 <= i < |devices| ==> devices[i].aid > 0
    ensures forall i :: 0 <= i < |devices| ==> devices[i].aid >= 2
    ensures forall i, j :: 0 <= i < j < |devices| ==> devices[i].aid != devices[j].aid
  {
    forall i | 0 <= i < |devices| ensures devices[i].aid >= 2 { PositiveAid(devices[i]); }
    forall i, j | 0 <= i < j < |devices| ensures devices[i].aid != devices[j].aid {
      DifferentAids(devices[i], devices[j]);
    }
  }

  /** An accepted configuration whose devices have AIDs and products goes through prepareDevices unchanged. */
  lemma AcceptedAidsAreKept(hash: Hash, devices: seq<Device>)
    requires |devices| <= CYCLE && Sound(devices)
    requires forall i :: 0 <= i < |devices| ==> devices[i].aid > 0
    requires forall i :: 0 <= i < |devices| ==> WithProduct(devices[i]) == devices[i]
    ensures Prepare(hash, devices) == devices
  {
    SoundAids(devices);
    assert Enrolment.Settled(devices);
    Enrolment.PrepareFixesIff(hash, devices);
  }
}
