/**
 cmd/mgl03-homekit-bridge/main.go and internal/bridge/sensor.go: the device list and
 the allocation of HomeKit accessory IDs. The FNV hash is a parameter: any function
 from identities to numbers.
 */
module Devices {
  import opened Base
  import opened Openmiio

  datatype Device = Device(name: string, mac: string, did: string, productID: int, model: string, aid: nat)

  type Hash = string -> nat

  /** The end of the probed range. */
  const LAST_AID: nat := 0x7fff_ffff

  /** The number of AIDs the probing loop cycles through: 2 up to LAST_AID. */
  const CYCLE: nat := LAST_AID - 1

  // ---------------------------------------------------------------- products

  function LookupModel(productID: int): Option<string> {
    if productID == PRODUCT_SENSOR_HT_O2 then Some(MODEL_SENSOR_HT_O2)
    else if productID == PRODUCT_TOOTHBRUSH_T700I then Some(MODEL_TOOTHBRUSH_T700I)
    else None
  }

  function LookupProductByModel(model: string): Option<int> {
    if model == MODEL_SENSOR_HT_O2 then Some(PRODUCT_SENSOR_HT_O2)
    else if model == MODEL_TOOTHBRUSH_T700I then Some(PRODUCT_TOOTHBRUSH_T700I)
    else None
  }

  /** Both product fields filled in where they can be. */
  function WithProduct(d: Device): Device {
    var byModel := LookupProductByModel(d.model);
    var id := if d.productID != 0 then d.productID
              else if byModel.Some? then byModel.value
              else if d.model == "" then PRODUCT_SENSOR_HT_O2
              else 0;
    var byID := LookupModel(id);
    d.(productID := id, model := if d.model == "" && byID.Some? then byID.value else d.model)
  }

  function StableID(hash: Hash, d: Device): nat {
    hash(if d.mac == "" then "did:" + d.did else d.mac) % 0x8000_0000 + 2
  }

  // ----------------------------------------------------------------- probing

  function NextCandidate(candidate: nat): nat {
    if candidate + 1 > LAST_AID then 2 else candidate + 1
  }

  /** Probing steps from candidate to a free AID inside the cycle. */
  function CyclicDistance(candidate: nat, free: nat): nat
    requires 2 <= free <= LAST_AID
  {
    if candidate <= free then free - candidate
    else if candidate <= LAST_AID then LAST_AID - candidate + 1 + (free - 2)
    else CYCLE + (free - 2)
  }

  ghost predicate Free(free: nat, used: set<nat>) {
    2 <= free <= LAST_AID && free !in used
  }

  function Range(hi: nat): set<nat> {
    if hi <= 2 then {} else Range(hi - 1) + {hi - 1}
  }

  lemma {:induction false} RangeSize(hi: nat)
    requires hi >= 2
    ensures |Range(hi)| == hi - 2
    ensures forall x :: x in Range(hi) <==> 2 <= x < hi
  {
    if hi <= 2 {
    } else {
      RangeSize(hi - 1);
    }
  }

  lemma {:induction false} SubsetSize(a: set<nat>, b: set<nat>)
    requires a <= b
    ensures |a| <= |b|
  {
    if a == {} {
    } else {
      var x :| x in a;
      SubsetSize(a - {x}, b - {x});
    }
  }

  /** Pigeonhole: fewer used AIDs than the cycle has leave one free. */
  lemma SomeFree(used: set<nat>)
    requires |used| < CYCLE
    ensures exists free: nat :: Free(free, used)
  {
    var range := Range(LAST_AID + 1);
    RangeSize(LAST_AID + 1);
    if range <= used {
      SubsetSize(range, used);
    } else {
      var x :| x in range && x !in used;
      assert Free(x, used);
    }
  }

  /** Where the probing loop stops; the fuel is a free AID it must run into. */
  ghost function ProbeTo(candidate: nat, used: set<nat>, free: nat): (r: nat)
    requires Free(free, used)
    ensures r >= 2 && r !in used
    ensures r == candidate || r <= LAST_AID
    decreases CyclicDistance(candidate, free)
  {
    if candidate >= 2 && candidate !in used then candidate else ProbeTo(NextCandidate(candidate), used, free)
  }

  ghost function Probe(start: nat, used: set<nat>): (r: nat)
    requires |used| < CYCLE
    ensures r >= 2 && r !in used
    ensures r == start || r <= LAST_AID
  {
    SomeFree(used);
    var free: nat :| Free(free, used);
    ProbeTo(start, used, free)
  }

  /** Every AID from start up to stop is used, where 2 follows 0x7fffffff and anything beyond. */
  ghost predicate PassesOver(start: nat, stop: nat, used: set<nat>, steps: nat)
    decreases steps
  {
    if steps == 0 then start == stop
    else (start < 2 || start in used) && PassesOver(if start < 0x7fff_ffff then start + 1 else 2, stop, used, steps - 1)
  }

  ghost predicate FirstFree(start: nat, aid: nat, used: set<nat>) {
    aid >= 2 && aid !in used && exists steps: nat :: PassesOver(start, aid, used, steps)
  }

  lemma {:induction false} ProbeToIsFirstFree(candidate: nat, used: set<nat>, free: nat)
    requires Free(free, used)
    ensures exists steps: nat :: PassesOver(candidate, ProbeTo(candidate, used, free), used, steps)
    decreases CyclicDistance(candidate, free)
  {
    var stop := ProbeTo(candidate, used, free);
    if candidate >= 2 && candidate !in used {
      assert PassesOver(candidate, stop, used, 0);
    } else {
      ProbeToIsFirstFree(NextCandidate(candidate), used, free);
      var steps: nat :| PassesOver(NextCandidate(candidate), stop, used, steps);
      assert PassesOver(candidate, stop, used, steps + 1);
    }
  }

  /** The loop of prepareDevices. It ends because fewer AIDs are used than the cycle holds. */
  method FindCandidate(start: nat, used: set<nat>) returns (candidate: nat)
    requires |used| < CYCLE
    ensures candidate == Probe(start, used)
    ensures FirstFree(start, candidate, used)
  {
    SomeFree(used);
    ghost var free: nat :| Free(free, used) && Probe(start, used) == ProbeTo(start, used, free);
    candidate := start;
    while candidate < 2 || candidate in used
      invariant ProbeTo(candidate, used, free) == ProbeTo(start, used, free)
      decreases CyclicDistance(candidate, free)
    {
      candidate := candidate + 1;
      if candidate > LAST_AID {
        candidate := 2;
      }
    }
    ProbeToIsFirstFree(start, used, free);
  }

  // ---------------------------------------------------------- prepareDevices

  function Aids(devices: seq<Device>): set<nat> {
    if devices == [] then {} else Aids(devices[..|devices| - 1]) + {devices[|devices| - 1].aid}
  }

  lemma {:induction false} AidsSize(devices: seq<Device>)
    ensures |Aids(devices)| <= |devices|
  {
    if devices == [] {
    } else {
      AidsSize(devices[..|devices| - 1]);
    }
  }

  lemma AidsSnoc(devices: seq<Device>, d: Device)
    ensures Aids(devices + [d]) == Aids(devices) + {d.aid}
  {
    assert (devices + [d])[..|devices|] == devices;
  }

  lemma {:induction false} AidsMember(devices: seq<Device>, aid: nat)
    ensures aid in Aids(devices) <==> exists i :: 0 <= i < |devices| && devices[i].aid == aid
  {
    if devices == [] {
    } else {
      var shorter := devices[..|devices| - 1];
      AidsMember(shorter, aid);
      assert forall i :: 0 <= i < |shorter| ==> shorter[i] == devices[i];
    }
  }

  /** What the loop makes of one device, given the devices prepared before it. */
  ghost function PrepareOne(hash: Hash, prepared: seq<Device>, d: Device): Device
    requires |prepared| < CYCLE
  {
    var p := WithProduct(d);
    AidsSize(prepared);
    if p.aid >= 2 && p.aid !in Aids(prepared) then p
    else p.(aid := Probe(StableID(hash, p), Aids(prepared)))
  }

  ghost function Prepare(hash: Hash, devices: seq<Device>): (r: seq<Device>)
    requires |devices| <= CYCLE
    ensures |r| == |devices|
  {
    if devices == [] then []
    else
      var before := Prepare(hash, devices[..|devices| - 1]);
      before + [PrepareOne(hash, before, devices[|devices| - 1])]
  }

  lemma PrepareStep(hash: Hash, devices: seq<Device>, i: nat)
    requires i < |devices| <= CYCLE
    ensures var before := Prepare(hash, devices[..i]);
      var d := PrepareOne(hash, before, devices[i]);
      && Prepare(hash, devices[..i + 1]) == before + [d]
      && Aids(before + [d]) == Aids(before) + {d.aid}
      && (before + [d] == devices[..i + 1] <==> before == devices[..i] && d == devices[i])
  {
    var before := Prepare(hash, devices[..i]);
    var d := PrepareOne(hash, before, devices[i]);
    assert devices[..i + 1][..i] == devices[..i];
    AidsSnoc(before, d);
    assert devices[..i + 1] == devices[..i] + [devices[i]];
    assert (before + [d])[..i] == before && (before + [d])[i] == d;
  }

  /** The two products, by their numbers and models. */
  lemma ProductIs(d: Device)
    ensures var p := WithProduct(d);
      && p == d.(productID := p.productID, model := p.model)
      && p.productID == (if d.productID != 0 then d.productID
                         else if d.model == "miaomiaoce.sensor_ht.o2" || d.model == "" then 5860
                         else if d.model == "k0918.toothbrush.t700i" then 6032
                         else 0)
      && p.model == (if d.model != "" then d.model
                     else if p.productID == 5860 then "miaomiaoce.sensor_ht.o2"
                     else if p.productID == 6032 then "k0918.toothbrush.t700i"
                     else "")
  {
  }

  /**
   The AID of a prepared record: its own, if it is at least 2 and still free; else the
   first free one from a number that depends on its MAC alone or, without one, on its DID.
   */
  lemma PreparedAid(hash: Hash, prepared: seq<Device>, d: Device)
    requires |prepared| < CYCLE
    ensures var aid := PrepareOne(hash, prepared, d).aid;
      if d.aid >= 2 && d.aid !in Aids(prepared) then aid == d.aid
      else FirstFree(hash(if d.mac != "" then d.mac else "did:" + d.did) % 0x8000_0000 + 2, aid, Aids(prepared))
  {
    AidsSize(prepared);
    if !(d.aid >= 2 && d.aid !in Aids(prepared)) {
      var p := WithProduct(d);
      SomeFree(Aids(prepared));
      var free: nat :| Free(free, Aids(prepared)) &&
        Probe(StableID(hash, p), Aids(prepared)) == ProbeTo(StableID(hash, p), Aids(prepared), free);
      ProbeToIsFirstFree(StableID(hash, p), Aids(prepared), free);
    }
  }

  /** The product half of the loop body. */
  method FillProduct(d: Device) returns (p: Device, changed: bool)
    ensures p == WithProduct(d)
    ensures changed <==> p != d
  {
    p, changed := d, false;
    if p.productID == 0 {
      var product := LookupProductByModel(p.model);
      if product.Some? {
        p := p.(productID := product.value);
        changed := true;
      } else if p.model == "" {
        p := p.(productID := PRODUCT_SENSOR_HT_O2);
        changed := true;
      }
    }
    if p.model == "" {
      var model := LookupModel(p.productID);
      if model.Some? {
        p := p.(model := model.value);
        changed := true;
      }
    }
  }

  /** The loop body: keep a valid unused AID, else probe from the default one. */
  method PrepareDevice(hash: Hash, ghost prepared: seq<Device>, used: set<nat>, device: Device)
    returns (d: Device, changed: bool)
    requires |prepared| < CYCLE && used == Aids(prepared)
    ensures d == PrepareOne(hash, prepared, device)
    ensures changed <==> d != device
  {
    AidsSize(prepared);
    d, changed := FillProduct(device);
    if d.aid >= 2 && d.aid !in used {
      return;
    }
    var candidate := FindCandidate(StableID(hash, d), used);
    d := d.(aid := candidate);
    changed := true;
  }

  /** `changed` reports exactly whether the list differs. */
  method PrepareDevices(hash: Hash, devices: seq<Device>) returns (prepared: seq<Device>, changed: bool)
    requires |devices| <= CYCLE
    ensures prepared == Prepare(hash, devices)
    ensures changed <==> prepared != devices
  {
    prepared := [];
    changed := false;
    var used: set<nat> := {};
    for i := 0 to |devices|
      invariant prepared == Prepare(hash, devices[..i])
      invariant used == Aids(prepared)
      invariant changed <==> prepared != devices[..i]
    {
      var d, c := PrepareDevice(hash, prepared, used, devices[i]);
      PrepareStep(hash, devices, i);
      changed := changed || c;
      used := used + {d.aid};
      prepared := prepared + [d];
    }
    assert devices[..|devices|] == devices;
  }
}
