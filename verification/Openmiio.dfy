/** internal/openmiio: decoded reports, MAC normalisation and the MIoT property fallback. */
module Openmiio {
  import opened Base
  import Text

  const MODEL_SENSOR_HT_O2 := "miaomiaoce.sensor_ht.o2"
  const MODEL_TOOTHBRUSH_T700I := "k0918.toothbrush.t700i"
  const PRODUCT_SENSOR_HT_O2 := 5860
  const PRODUCT_TOOTHBRUSH_T700I := 6032

  /** kind 0 starts or refreshes a session; any other kind is an end candidate. */
  datatype ToothbrushEvent = ToothbrushEvent(kind: int, timestamp: int64, score: Option<int>)

  datatype Update = Update(
    did: string,
    mac: string,
    productID: int,
    model: string,
    frameCount: int,
    hasFrameCount: bool,
    gatewayTime: int64,
    temperature: Option<real>,
    humidity: Option<real>,
    battery: Option<int>,
    toothbrush: Option<ToothbrushEvent>)
  {
    predicate HasMeasurements() {
      temperature.Some? || humidity.Some? || battery.Some? || toothbrush.Some?
    }

    predicate IsStart() {
      toothbrush.Some? && toothbrush.value.kind == 0
    }
  }

  const EMPTY_UPDATE: Update := Update("", "", 0, "", 0, false, 0, None, None, None, None)

  // ------------------------------------------------------------ NormalizeMAC

  /** The byte loop of internal/openmiio; it computes what the regular expression does. */
  method NormalizeMAC(s: string) returns (r: string)
    ensures r == Text.NormalizeMAC(s)
  {
    var hexChars := "";
    for i := 0 to |s|
      invariant hexChars + Text.HexDigits(s[i..]) == Text.HexDigits(s)
    {
      if Text.IsHex(s[i]) {
        hexChars := hexChars + [s[i]];
      }
      assert s[i..][1..] == s[i + 1..];
    }
    if |hexChars| != 12 {
      return Text.ToLower(Text.TrimSpace(s));
    }
    ghost var whole := Text.Colons(hexChars);
    r := Text.ToLower(hexChars[0..2]);
    for i := 1 to 6
      invariant r == whole[..3 * i - 1]
    {
      var part := Text.ToLower(hexChars[2 * i..2 * i + 2]);
      ColonsAt(hexChars, i);
      r := r + ":" + part;
    }
  }

  lemma ColonTriple(hex: string, i: int)
    requires |hex| == 12 && 1 <= i < 6
    ensures var h, c := Text.ToLower(hex), Text.Colons(hex);
      c[3 * i - 1] == ':' && c[3 * i] == h[2 * i] && c[3 * i + 1] == h[2 * i + 1]
  {
    assert i == 1 || i == 2 || i == 3 || i == 4 || i == 5;
  }

  lemma TakeThree(c: string, n: nat)
    requires n + 3 <= |c|
    ensures c[..n + 3] == c[..n] + [c[n], c[n + 1], c[n + 2]]
  {
  }

  lemma ColonsAt(hex: string, i: int)
    requires |hex| == 12 && 1 <= i < 6
    ensures Text.Colons(hex)[..3 * i + 2] == Text.Colons(hex)[..3 * i - 1] + ":" + Text.ToLower(hex[2 * i..2 * i + 2])
  {
    var c, pair := Text.Colons(hex), Text.ToLower(hex[2 * i..2 * i + 2]);
    ColonTriple(hex, i);
    TakeThree(c, 3 * i - 1);
    assert [':', pair[0], pair[1]] == ":" + pair;
  }

  // ------------------------------------------------------- MIoT properties

  datatype Kind = Temperature | Humidity | Battery

  /** `value` is absent when the raw JSON is not a number. */
  datatype Property = Property(did: string, siid: int, piid: int, value: Option<real>)

  datatype Parsed = Parsed(updates: seq<Update>) | Failed(kind: Kind, did: string)

  function KindOf(p: Property): Option<Kind> {
    if p.siid == 3 && p.piid == 1001 then Some(Temperature)
    else if p.siid == 3 && p.piid == 1002 then Some(Humidity)
    else if p.siid == 2 && p.piid == 1003 then Some(Battery)
    else None
  }

  /** math.Round: half away from zero. */
  function Round(x: real): int {
    if x >= 0.0 then (x + 0.5).Floor else -((0.5 - x).Floor)
  }

  function Tenths(x: real): real {
    Round(x * 10.0) as real / 10.0
  }

  function Rounded(kind: Kind, x: real): real {
    if kind == Battery then Round(x) as real else Tenths(x)
  }

  predicate InRange(kind: Kind, x: real) {
    match kind
    case Temperature => -100.0 <= x <= 150.0
    case Humidity => 0.0 <= x <= 100.0
    case Battery => 0.0 <= x <= 100.0
  }

  /** The value a recognised property contributes, or None when it is unusable. */
  function Reading(p: Property): Option<real> {
    if KindOf(p).Some? && p.value.Some? && InRange(KindOf(p).value, Rounded(KindOf(p).value, p.value.value))
    then Some(Rounded(KindOf(p).value, p.value.value)) else None
  }

  predicate Bad(p: Property) {
    KindOf(p).Some? && Reading(p).None?
  }

  predicate Carries(p: Property, did: string, kind: Kind) {
    p.did == did && KindOf(p) == Some(kind)
  }

  /** The reading of the last property of this DID and kind. */
  function LastReading(props: seq<Property>, did: string, kind: Kind): Option<real> {
    if props == [] then None
    else
      var last := props[|props| - 1];
      if Carries(last, did, kind) then Reading(last)
      else LastReading(props[..|props| - 1], did, kind)
  }

  /** The DIDs that have a recognised property, each once, in order of first occurrence. */
  function FirstSeen(props: seq<Property>): seq<string> {
    if props == [] then []
    else
      var before := FirstSeen(props[..|props| - 1]);
      var last := props[|props| - 1];
      if KindOf(last).Some? && last.did !in before then before + [last.did] else before
  }

  function Whole(x: Option<real>): Option<int> {
    if x.Some? then Some(x.value.Floor) else None
  }

  function Grouped(props: seq<Property>, did: string): Update {
    EMPTY_UPDATE.(
      did := did,
      model := MODEL_SENSOR_HT_O2,
      temperature := LastReading(props, did, Temperature),
      humidity := LastReading(props, did, Humidity),
      battery := Whole(LastReading(props, did, Battery)))
  }

  /** The switch of the loop body: round, check the range, assign the field. */
  method Store(u: Update, kind: Kind, value: Option<real>) returns (r: Option<Update>)
    ensures r.Some? <==> value.Some? && InRange(kind, Rounded(kind, value.value))
    ensures r.Some? ==> r.value == WithReading(u, kind, Rounded(kind, value.value))
  {
    if value.None? {
      return None;
    }
    match kind {
      case Temperature =>
        var v := Tenths(value.value);
        if v < -100.0 || v > 150.0 {
          return None;
        }
        return Some(u.(temperature := Some(v)));
      case Humidity =>
        var v := Tenths(value.value);
        if v < 0.0 || v > 100.0 {
          return None;
        }
        return Some(u.(humidity := Some(v)));
      case Battery =>
        var v := Round(value.value);
        if v < 0 || v > 100 {
          return None;
        }
        return Some(u.(battery := Some(v)));
    }
  }

  /** The final loop: the groups in order, keeping those that hold a measurement. */
  method Collect(byDID: map<string, Update>, order: seq<string>,
                 ghost props: seq<Property>) returns (updates: seq<Update>)
    requires Groups(byDID, order, props)
    requires forall i :: 0 <= i < |props| ==> !Bad(props[i])
    ensures |updates| == |order|
    ensures forall k :: 0 <= k < |order| ==> updates[k] == Grouped(props, order[k])
  {
    updates := [];
    for k := 0 to |order|
      invariant |updates| == k
      invariant forall j :: 0 <= j < k ==> updates[j] == Grouped(props, order[j])
    {
      SeenHasMeasurement(props, order[k]);
      var u := byDID[order[k]];
      if u.HasMeasurements() {
        updates := updates + [u];
      }
    }
  }

  /** A recognised property joins the group of its DID, unless it is unusable; any other is skipped. */
  method Add(byDID: map<string, Update>, order: seq<string>, prop: Property, ghost props: seq<Property>)
    returns (groups: map<string, Update>, seen: seq<string>, ok: bool)
    requires Groups(byDID, order, props)
    ensures ok <==> !Bad(prop)
    ensures ok ==> Groups(groups, seen, props + [prop])
  {
    groups, seen, ok := byDID, order, true;
    if KindOf(prop).None? {
      GroupsSkip(byDID, order, props, prop);
      return;
    }
    if prop.did !in groups {
      groups := groups[prop.did := Fresh(prop.did)];
      seen := seen + [prop.did];
    }
    var stored := Store(groups[prop.did], KindOf(prop).value, prop.value);
    ok := stored.Some?;
    if ok {
      groups := groups[prop.did := stored.value];
      assert groups == byDID[prop.did := stored.value];
      GroupsAdd(byDID, order, props, prop);
    }
  }

  /** The grouping loop: what it holds after the first unusable property, or all of them, is read. */
  method Group(props: seq<Property>) returns (byDID: map<string, Update>, order: seq<string>, bad: Option<nat>)
    ensures bad.None? ==> Groups(byDID, order, props) && forall j :: 0 <= j < |props| ==> !Bad(props[j])
    ensures bad.Some? ==>
      bad.value < |props| && Bad(props[bad.value]) && forall j :: 0 <= j < bad.value ==> !Bad(props[j])
  {
    byDID, order := map[], [];
    for i := 0 to |props|
      invariant forall j :: 0 <= j < i ==> !Bad(props[j])
      invariant Groups(byDID, order, props[..i])
    {
      var ok;
      assert props[..i + 1] == props[..i] + [props[i]];
      byDID, order, ok := Add(byDID, order, props[i], props[..i]);
      if !ok {
        return byDID, order, Some(i);
      }
    }
    assert props[..|props|] == props;
    bad := None;
  }

  // ------------------------------------------ in service and property numbers

  /** Nearest, halves away from zero: the only such number. */
  lemma RoundIsNearest(x: real, n: int)
    ensures n == Round(x) <==>
      var d := x - n as real;
      -0.5 <= d <= 0.5 && (d == 0.5 ==> x < 0.0) && (d == -0.5 ==> x > 0.0)
  {
  }

  /**
   No number, or one that is out of range when rounded: temperature and humidity to
   tenths, the battery to whole percents.
   */
  predicate Unusable(p: Property) {
    || (p.siid == 3 && p.piid == 1001 && (p.value.None? || !(-1000 <= Round(p.value.value * 10.0) <= 1500)))
    || (p.siid == 3 && p.piid == 1002 && (p.value.None? || !(0 <= Round(p.value.value * 10.0) <= 1000)))
    || (p.siid == 2 && p.piid == 1003 && (p.value.None? || !(0 <= Round(p.value.value) <= 100)))
  }

  lemma BadIsUnusable(p: Property)
    ensures Bad(p) <==> Unusable(p)
  {
  }

  function TenthsAt(did: string, siid: int, piid: int): Property -> Option<real> {
    (p: Property) =>
      if p.did == did && p.siid == siid && p.piid == piid && p.value.Some?
      then Some(Round(p.value.value * 10.0) as real / 10.0) else None
  }

  function WholeAt(did: string, siid: int, piid: int): Property -> Option<int> {
    (p: Property) =>
      if p.did == did && p.siid == siid && p.piid == piid && p.value.Some? then Some(Round(p.value.value)) else None
  }

  /** The update of a DID: its last temperature, humidity and battery, and its model. */
  ghost predicate Reports(props: seq<Property>, u: Update) {
    && FromLast(props, TenthsAt(u.did, 3, 1001), None, u.temperature)
    && FromLast(props, TenthsAt(u.did, 3, 1002), None, u.humidity)
    && FromLast(props, WholeAt(u.did, 2, 1003), None, u.battery)
    && u == EMPTY_UPDATE.(did := u.did, model := "miaomiaoce.sensor_ht.o2",
                          temperature := u.temperature, humidity := u.humidity, battery := u.battery)
  }

  lemma OneTenths(p: Property, did: string, kind: Kind, piid: int)
    requires !Unusable(p) && ((kind == Temperature && piid == 1001) || (kind == Humidity && piid == 1002))
    ensures TenthsAt(did, 3, piid)(p) == if Carries(p, did, kind) then Reading(p) else None
    ensures Carries(p, did, kind) ==> Reading(p).Some?
  {
  }

  lemma {:induction false} LastTenths(props: seq<Property>, did: string, kind: Kind, piid: int)
    requires forall i :: 0 <= i < |props| ==> !Unusable(props[i])
    requires (kind == Temperature && piid == 1001) || (kind == Humidity && piid == 1002)
    ensures FromLast(props, TenthsAt(did, 3, piid), None, LastReading(props, did, kind))
  {
    if props == [] {
    } else {
      var before, last := props[..|props| - 1], props[|props| - 1];
      LastTenths(before, did, kind, piid);
      OneTenths(last, did, kind, piid);
      FromLastSnoc(before, last, TenthsAt(did, 3, piid), None, LastReading(before, did, kind));
      assert props == before + [last];
    }
  }

  lemma {:induction false} LastWhole(props: seq<Property>, did: string)
    requires forall i :: 0 <= i < |props| ==> !Unusable(props[i])
    ensures FromLast(props, WholeAt(did, 2, 1003), None, Whole(LastReading(props, did, Battery)))
  {
    if props == [] {
    } else {
      var before, last := props[..|props| - 1], props[|props| - 1];
      LastWhole(before, did);
      BadIsUnusable(last);
      FromLastSnoc(before, last, WholeAt(did, 2, 1003), None, Whole(LastReading(before, did, Battery)));
      assert props == before + [last];
    }
  }

  /** What is grouped for a DID is what its properties say. */
  lemma GroupedReports(props: seq<Property>, did: string)
    requires forall i :: 0 <= i < |props| ==> !Unusable(props[i])
    ensures Reports(props, Grouped(props, did))
  {
    LastTenths(props, did, Temperature, 1001);
    LastTenths(props, did, Humidity, 1002);
    LastWhole(props, did);
  }

  /**
   One update per DID in first-occurrence order, or nothing at all: the first
   unusable recognised property fails the whole message.
   */
  method ParseMIoTProperties(props: seq<Property>) returns (r: Parsed)
    ensures r.Parsed? <==> forall i :: 0 <= i < |props| ==> !Unusable(props[i])
    ensures r.Parsed? ==> |r.updates| == |FirstSeen(props)|
    ensures r.Parsed? ==> forall k :: 0 <= k < |r.updates| ==>
      r.updates[k].did == FirstSeen(props)[k] && Reports(props, r.updates[k])
    ensures r.Failed? ==> exists i ::
      && 0 <= i < |props| && Unusable(props[i]) && props[i].did == r.did
      && props[i].piid == (match r.kind case Temperature => 1001 case Humidity => 1002 case Battery => 1003)
      && forall j :: 0 <= j < i ==> !Unusable(props[j])
  {
    forall p { BadIsUnusable(p); }
    var byDID, order, bad := Group(props);
    if bad.Some? {
      return Failed(KindOf(props[bad.value]).value, props[bad.value].did);
    }
    var updates := Collect(byDID, order, props);
    forall did { GroupedReports(props, did); }
    return Parsed(updates);
  }

  function Fresh(did: string): Update {
    EMPTY_UPDATE.(did := did, model := MODEL_SENSOR_HT_O2)
  }

  /** What the two collections of the loop hold after the properties read so far. */
  ghost predicate Groups(byDID: map<string, Update>, order: seq<string>, props: seq<Property>) {
    && order == FirstSeen(props)
    && (forall d :: d in byDID <==> d in order)
    && (forall d :: d in byDID ==> byDID[d] == Grouped(props, d))
    && (forall d :: d !in byDID ==> Grouped(props, d) == Fresh(d))
  }

  function WithReading(u: Update, kind: Kind, x: real): Update {
    match kind
    case Temperature => u.(temperature := Some(x))
    case Humidity => u.(humidity := Some(x))
    case Battery => u.(battery := Some(x.Floor))
  }

  lemma GroupedStep(props: seq<Property>, prop: Property, did: string)
    ensures Grouped(props + [prop], did) ==
      if KindOf(prop).Some? && prop.did == did && !Bad(prop)
      then WithReading(Grouped(props, did), KindOf(prop).value, Reading(prop).value)
      else if KindOf(prop).Some? && prop.did == did then Grouped(props + [prop], did)
      else Grouped(props, did)
  {
    assert (props + [prop])[..|props|] == props;
  }

  lemma GroupsSkip(byDID: map<string, Update>, order: seq<string>, props: seq<Property>, prop: Property)
    requires Groups(byDID, order, props) && KindOf(prop).None?
    ensures Groups(byDID, order, props + [prop])
  {
    assert (props + [prop])[..|props|] == props;
    forall d { GroupedStep(props, prop, d); }
  }

  lemma GroupsAdd(byDID: map<string, Update>, order: seq<string>, props: seq<Property>, prop: Property)
    requires Groups(byDID, order, props) && KindOf(prop).Some? && !Bad(prop)
    ensures
      var u := WithReading(if prop.did in byDID then byDID[prop.did] else Fresh(prop.did),
                           KindOf(prop).value, Reading(prop).value);
      Groups(byDID[prop.did := u], if prop.did in byDID then order else order + [prop.did], props + [prop])
  {
    assert (props + [prop])[..|props|] == props;
    forall d { GroupedStep(props, prop, d); }
  }

  /** The final HasMeasurements filter never drops a group of a well-formed message. */
  lemma {:induction false} SeenHasMeasurement(props: seq<Property>, did: string)
    requires forall i :: 0 <= i < |props| ==> !Bad(props[i])
    ensures did in FirstSeen(props) <==> Grouped(props, did).HasMeasurements()
  {
    if props == [] {
    } else {
      SeenHasMeasurement(props[..|props| - 1], did);
    }
  }

  /** Temperature and humidity are properties 1001 and 1002 of service 3, the battery 1003 of service 2. */
  predicate Read(p: Property) {
    (p.siid == 3 && (p.piid == 1001 || p.piid == 1002)) || (p.siid == 2 && p.piid == 1003)
  }

  predicate Recognised(props: seq<Property>, did: string) {
    exists i :: 0 <= i < |props| && Read(props[i]) && props[i].did == did
  }

  /** FirstSeen lists each DID that has a recognised property exactly once. */
  lemma {:induction false} FirstSeenMembers(props: seq<Property>, did: string)
    ensures did in FirstSeen(props) <==> Recognised(props, did)
    ensures forall k, m :: 0 <= k < m < |FirstSeen(props)| ==> FirstSeen(props)[k] != FirstSeen(props)[m]
  {
    if props == [] {
    } else {
      var n := |props| - 1;
      FirstSeenMembers(props[..n], did);
      assert Recognised(props[..n], did) ==> Recognised(props, did) by {
        if Recognised(props[..n], did) {
          var i :| 0 <= i < n && Read(props[..n][i]) && props[..n][i].did == did;
          assert Read(props[i]) && props[i].did == did;
        }
      }
      if Recognised(props, did) {
        var i :| 0 <= i < |props| && Read(props[i]) && props[i].did == did;
        assert i < n ==> props[..n][i] == props[i];
      }
    }
  }

  /** Longer messages only append: with FirstSeenMembers, the order is that of first occurrence. */
  lemma {:induction false} FirstSeenPrefix(props: seq<Property>, i: nat)
    requires i <= |props|
    ensures FirstSeen(props[..i]) <= FirstSeen(props)
    decreases |props|
  {
    var n := |props| - 1;
    if i <= n {
      FirstSeenPrefix(props[..n], i);
      assert props[..n][..i] == props[..i];
    } else {
      assert props[..i] == props;
    }
  }

  /** LastReading is the reading at the greatest index carrying that DID and kind. */
  lemma {:induction false} LastReadingIsLast(props: seq<Property>, did: string, kind: Kind, i: int)
    requires 0 <= i < |props| && Carries(props[i], did, kind)
    requires forall j :: i < j < |props| ==> !Carries(props[j], did, kind)
    ensures LastReading(props, did, kind) == Reading(props[i])
    decreases |props|
  {
    var n := |props| - 1;
    if i < n {
      assert !Carries(props[n], did, kind);
      LastReadingIsLast(props[..n], did, kind, i);
    }
  }
}
