/**
 internal/openmiio/deduplicator.go: one-byte BLE frame counters compared modulo
 256, with a new baseline after a silence. Instants are nanoseconds; the clock
 read by `Classify` is a parameter.
 */
module Deduplication {
  import opened Base
  import opened Openmiio
  import GoTime
  import Text

  datatype FrameState = FrameState(counter: byte, seenAt: int)

  datatype Disposition = Accepted | Duplicate | Stale

  type Frames = map<string, FrameState>

  /** MAC before DID. */
  function Key(u: Update): string {
    var mac := Text.ToLower(u.mac);
    if mac == "" then "did:" + u.did else mac
  }

  /** Only reports with a frame counter and an identity take part. */
  predicate Counted(u: Update) {
    u.hasFrameCount && Key(u) != "did:"
  }

  /** No baseline, or one that has lapsed. */
  predicate Lapsed(frames: Frames, resetAfter: int64, key: string, now: int) {
    key !in frames || resetAfter <= 0 || GoTime.Sub(now, frames[key].seenAt) >= resetAfter
  }

  function Verdict(frames: Frames, resetAfter: int64, u: Update, now: int): Disposition {
    if !Counted(u) || Lapsed(frames, resetAfter, Key(u), now) then Accepted
    else
      var delta := (u.frameCount - frames[Key(u)].counter) % 256;
      if delta == 0 then Duplicate else if delta > 127 then Stale else Accepted
  }

  function Remember(frames: Frames, resetAfter: int64, u: Update, now: int): Frames {
    if Counted(u) && Verdict(frames, resetAfter, u, now) == Accepted
    then frames[Key(u) := FrameState(u.frameCount % 256, now)] else frames
  }

  // ------------------------------------------- the parts of a report, spelled out

  lemma PrefixedDiffer(x: string, y: string)
    ensures "did:" + x == "did:" + y <==> x == y
  {
    assert ("did:" + x)[4..] == x && ("did:" + y)[4..] == y;
  }

  /** A report takes part iff it has a counter and a MAC or a DID; a MAC text of just "did:" is taken for neither. */
  lemma CountedIff(u: Update)
    ensures Counted(u) <==> u.hasFrameCount && (u.mac != "" || u.did != "") && !Text.EqualFold(u.mac, "did:")
  {
    PrefixedDiffer(u.did, "");
    assert Text.ToLower("did:") == "did:" && "did:" + "" == "did:";
  }

  /** Two reports share a baseline iff their MACs agree up to case or, where neither has one, their DIDs. */
  lemma SameKeyIff(u: Update, v: Update)
    ensures Key(u) == Key(v) <==>
      if u.mac != "" && v.mac != "" then Text.EqualFold(u.mac, v.mac)
      else if u.mac == "" && v.mac == "" then u.did == v.did
      else if u.mac != "" then Text.ToLower(u.mac) == "did:" + v.did
      else Text.ToLower(v.mac) == "did:" + u.did
  {
    PrefixedDiffer(u.did, v.did);
  }

  /**
   The whole classifier on one report, in the plain difference of the two instants: any
   counter is accepted as the new baseline where there is none or it is `resetAfter` old,
   and where there is no reset time; otherwise the counter alone decides.
   */
  lemma ClassifyExact(frames: Frames, resetAfter: int64, u: Update, now: int)
    ensures var verdict, after := Verdict(frames, resetAfter, u, now), Remember(frames, resetAfter, u, now);
      var key, baseline := Key(u), FrameState(u.frameCount % 256, now);
      if !Counted(u) then
        verdict == Accepted && after == frames
      else if key !in frames || resetAfter <= 0 || now - frames[key].seenAt >= resetAfter then
        verdict == Accepted && after == frames[key := baseline]
      else
        var ahead := (u.frameCount - frames[key].counter) % 256;
        && (verdict == Duplicate <==> ahead == 0)
        && (verdict == Accepted <==> 1 <= ahead <= 127)
        && after == if 1 <= ahead <= 127 then frames[key := baseline] else frames
  {
    if Key(u) in frames && resetAfter > 0 {
      GoTime.SubCompares(now, frames[Key(u)].seenAt, resetAfter);
    }
  }

  class Deduplicator {
    const resetAfter: int64
    var frames: Frames

    constructor (resetAfter: int64)
      ensures this.resetAfter == resetAfter && frames == map[]
    {
      this.resetAfter := resetAfter;
      frames := map[];
    }

    method Classify(update: Update, now: int) returns (d: Disposition)
      modifies this`frames
      ensures d == Verdict(old(frames), resetAfter, update, now)
      ensures frames == Remember(old(frames), resetAfter, update, now)
    {
      if !update.hasFrameCount {
        return Accepted;
      }
      var key := Text.ToLower(update.mac);
      if key == "" {
        key := "did:" + update.did;
      }
      if key == "did:" {
        return Accepted;
      }
      var next := update.frameCount % 256;
      if key !in frames || resetAfter <= 0 || GoTime.Sub(now, frames[key].seenAt) >= resetAfter {
        frames := frames[key := FrameState(next, now)];
        return Accepted;
      }
      var delta := (next - frames[key].counter) % 256;
      if delta == 0 {
        return Duplicate;
      }
      if delta > 127 {
        return Stale;
      }
      frames := frames[key := FrameState(next, now)];
      return Accepted;
    }

    method Accept(update: Update, now: int) returns (accepted: bool)
      modifies this`frames
      ensures accepted <==> Verdict(old(frames), resetAfter, update, now) == Accepted
      ensures frames == Remember(old(frames), resetAfter, update, now)
    {
      var d := Classify(update, now);
      accepted := d == Accepted;
    }
  }

  // ------------------------------------------------- runs of the classifier

  /** A delivered report, its unbounded frame number, and the instant it is classified. */
  datatype Delivery = Delivery(update: Update, counter: int, at: int)

  function FramesAfter(ds: seq<Delivery>, resetAfter: int64): Frames {
    if ds == [] then map[]
    else
      var last := ds[|ds| - 1];
      Remember(FramesAfter(ds[..|ds| - 1], resetAfter), resetAfter, last.update, last.at)
  }

  function Outcome(ds: seq<Delivery>, resetAfter: int64, i: nat): Disposition
    requires i < |ds|
  {
    Verdict(FramesAfter(ds[..i], resetAfter), resetAfter, ds[i].update, ds[i].at)
  }

  predicate Of(d: Delivery, key: string) {
    Counted(d.update) && Key(d.update) == key
  }

  /** The delivery that first carried the greatest frame number of this device. */
  function Newest(ds: seq<Delivery>, key: string): Option<Delivery> {
    if ds == [] then None
    else
      var before := Newest(ds[..|ds| - 1], key);
      var last := ds[|ds| - 1];
      if Of(last, key) && (before.None? || before.value.counter < last.counter) then Some(last) else before
  }

  /**
   One delivery the counters can still tell apart from what came before: its frame
   number is within -128..127 of the newest one and the reset window is open.
   */
  predicate TameNext(ds: seq<Delivery>, resetAfter: int64, d: Delivery) {
    Counted(d.update) ==>
      && d.update.frameCount % 256 == d.counter % 256
      && match Newest(ds, Key(d.update))
         case None => true
         case Some(newest) =>
           -128 <= d.counter - newest.counter <= 127 && d.at - newest.at < resetAfter
  }

  /** Such are all deliveries of this device; the others may do as they please. */
  predicate Tame(ds: seq<Delivery>, resetAfter: int64, key: string) {
    forall i :: 0 <= i < |ds| && Of(ds[i], key) ==> TameNext(ds[..i], resetAfter, ds[i])
  }

  /** The baseline of a device after ds is its newest delivery. */
  ghost predicate Baseline(frames: Frames, newest: Option<Delivery>, key: string) {
    if newest.None? then key !in frames
    else key in frames && frames[key] == FrameState(newest.value.counter % 256, newest.value.at)
  }

  function Compare(newest: Option<Delivery>, counter: int): Disposition {
    if newest.None? || counter > newest.value.counter then Accepted
    else if counter == newest.value.counter then Duplicate
    else Stale
  }

  lemma ModularDelta(n: int, m: int, f: int)
    requires -128 <= n - m <= 127 && f % 256 == n % 256
    ensures (f - m % 256) % 256 == if n >= m then n - m else n - m + 256
  {
  }

  /** The whole classifier against unbounded counters, one delivery. */
  lemma ClassifyRefinesStep(frames: Frames, ds: seq<Delivery>, resetAfter: int64, d: Delivery)
    requires resetAfter > 0 && Counted(d.update)
    requires Baseline(frames, Newest(ds, Key(d.update)), Key(d.update))
    requires TameNext(ds, resetAfter, d)
    ensures Verdict(frames, resetAfter, d.update, d.at) == Compare(Newest(ds, Key(d.update)), d.counter)
  {
    var newest := Newest(ds, Key(d.update));
    if newest.Some? {
      ModularDelta(d.counter, newest.value.counter, d.update.frameCount);
    }
  }

  lemma TamePrefix(ds: seq<Delivery>, resetAfter: int64, key: string, n: nat)
    requires n <= |ds| && Tame(ds, resetAfter, key)
    ensures Tame(ds[..n], resetAfter, key)
  {
    forall i | 0 <= i < n && Of(ds[..n][i], key) ensures TameNext(ds[..n][..i], resetAfter, ds[..n][i]) {
      assert ds[..n][..i] == ds[..i] && ds[..n][i] == ds[i];
    }
  }

  /** A device's baseline is its newest delivery, however devices interleave. */
  lemma {:induction false} BaselineIsNewest(ds: seq<Delivery>, resetAfter: int64, key: string)
    requires resetAfter > 0 && Tame(ds, resetAfter, key)
    ensures Baseline(FramesAfter(ds, resetAfter), Newest(ds, key), key)
  {
    if ds == [] {
    } else {
      var before, last := ds[..|ds| - 1], ds[|ds| - 1];
      TamePrefix(ds, resetAfter, key, |before|);
      BaselineIsNewest(before, resetAfter, key);
      if Of(last, key) {
        assert TameNext(ds[..|ds| - 1], resetAfter, last);
        ClassifyRefinesStep(FramesAfter(before, resetAfter), before, resetAfter, last);
      }
    }
  }

  /** Newest carries the greatest frame number delivered for its device. */
  lemma {:induction false} NewestIsGreatest(ds: seq<Delivery>, key: string)
    ensures Newest(ds, key).None? <==> forall i :: 0 <= i < |ds| ==> !Of(ds[i], key)
    ensures Newest(ds, key).Some? ==> Newest(ds, key).value in ds && Of(Newest(ds, key).value, key)
    ensures Newest(ds, key).Some? ==>
      forall i :: 0 <= i < |ds| && Of(ds[i], key) ==> ds[i].counter <= Newest(ds, key).value.counter
  {
    if ds == [] {
    } else {
      var n := |ds| - 1;
      NewestIsGreatest(ds[..n], key);
      forall i | 0 <= i < |ds| && Of(ds[i], key)
        ensures Newest(ds, key).Some? && ds[i].counter <= Newest(ds, key).value.counter
      {
        assert i < n ==> ds[..n][i] == ds[i];
      }
      if forall i :: 0 <= i < |ds| ==> !Of(ds[i], key) {
        forall i | 0 <= i < n ensures !Of(ds[..n][i], key) { assert ds[..n][i] == ds[i]; }
      }
    }
  }

  /**
   The accepted reports of a device that stays tame are exactly its left-to-right
   maxima; a repeat of the maximum is a duplicate; the rest are stale.
   */
  lemma AcceptedAreMaxima(ds: seq<Delivery>, resetAfter: int64, i: nat)
    requires i < |ds| && Counted(ds[i].update)
    requires resetAfter > 0 && Tame(ds, resetAfter, Key(ds[i].update))
    ensures Outcome(ds, resetAfter, i) == Accepted <==>
      forall j :: 0 <= j < i && Of(ds[j], Key(ds[i].update)) ==> ds[j].counter < ds[i].counter
    ensures Outcome(ds, resetAfter, i) == Stale <==>
      exists j :: 0 <= j < i && Of(ds[j], Key(ds[i].update)) && ds[j].counter > ds[i].counter
  {
    var before, key := ds[..i], Key(ds[i].update);
    TamePrefix(ds, resetAfter, key, i);
    BaselineIsNewest(before, resetAfter, key);
    ClassifyRefinesStep(FramesAfter(before, resetAfter), before, resetAfter, ds[i]);
    NewestIsGreatest(before, key);
    assert forall j :: 0 <= j < i ==> before[j] == ds[j];
    var newest := Newest(before, key);
    if newest.Some? {
      var j :| 0 <= j < i && before[j] == newest.value;
      assert ds[j] == newest.value;
    }
  }

  // ----------------------------------------------- every run, resets included

  /** Delivery i is the last of this device that was accepted. */
  ghost predicate IsLastAccepted(ds: seq<Delivery>, resetAfter: int64, key: string, i: nat) {
    && i < |ds| && Of(ds[i], key) && Outcome(ds, resetAfter, i) == Accepted
    && NoneAcceptedAfter(ds, resetAfter, key, i)
  }

  ghost predicate NoneAcceptedAfter(ds: seq<Delivery>, resetAfter: int64, key: string, i: nat) {
    forall j :: i < j < |ds| && Of(ds[j], key) ==> Outcome(ds, resetAfter, j) != Accepted
  }

  lemma OutcomePrefix(ds: seq<Delivery>, resetAfter: int64, n: nat, i: nat)
    requires i < n <= |ds|
    ensures Outcome(ds[..n], resetAfter, i) == Outcome(ds, resetAfter, i)
  {
    assert ds[..n][..i] == ds[..i];
  }

  /** The last accepted delivery of a longer run is the newest one, if that is accepted, or the one before. */
  lemma LastAcceptedNext(ds: seq<Delivery>, resetAfter: int64, key: string, i: nat)
    requires ds != []
    ensures IsLastAccepted(ds, resetAfter, key, i) <==>
      if Of(ds[|ds| - 1], key) && Outcome(ds, resetAfter, |ds| - 1) == Accepted then i == |ds| - 1
      else IsLastAccepted(ds[..|ds| - 1], resetAfter, key, i)
  {
    var n := |ds| - 1;
    forall j | 0 <= j < n { OutcomePrefix(ds, resetAfter, n, j); }
    if NoneAcceptedAfter(ds, resetAfter, key, i) {
      assert forall j :: i < j < n && Of(ds[..n][j], key) ==> Outcome(ds, resetAfter, j) != Accepted;
    }
    if NoneAcceptedAfter(ds[..n], resetAfter, key, i) {
      assert forall j :: i < j < n && Of(ds[j], key) ==> Outcome(ds[..n], resetAfter, j) != Accepted;
    }
  }

  /** In any run at all the baseline of a device is the counter and the instant of its last accepted delivery. */
  lemma {:induction false} BaselineIsLastAccepted(ds: seq<Delivery>, resetAfter: int64, key: string)
    ensures key in FramesAfter(ds, resetAfter) <==> exists i: nat :: IsLastAccepted(ds, resetAfter, key, i)
    ensures forall i: nat :: IsLastAccepted(ds, resetAfter, key, i) ==>
      key in FramesAfter(ds, resetAfter) &&
      FramesAfter(ds, resetAfter)[key] == FrameState(ds[i].update.frameCount % 256, ds[i].at)
  {
    if ds == [] {
    } else {
      var n := |ds| - 1;
      BaselineIsLastAccepted(ds[..n], resetAfter, key);
      forall i: nat { LastAcceptedNext(ds, resetAfter, key, i); }
      if Of(ds[n], key) && Outcome(ds, resetAfter, n) == Accepted {
        assert IsLastAccepted(ds, resetAfter, key, n);
      } else if i: nat :| IsLastAccepted(ds[..n], resetAfter, key, i) {
        assert IsLastAccepted(ds, resetAfter, key, i);
      }
    }
  }

  /**
   Every run, with its silences and resets: a counted report is accepted iff no report of
   its device was accepted before, or there is no reset time, or the last one accepted is
   that old, or its counter is 1 to 127 ahead of that one's. It is a duplicate iff it is
   refused with the same counter.
   */
  lemma AcceptedIff(ds: seq<Delivery>, resetAfter: int64, n: nat, key: string)
    requires n < |ds| && Of(ds[n], key)
    ensures Outcome(ds, resetAfter, n) == Accepted <==>
      resetAfter <= 0 ||
      forall i: nat :: IsLastAccepted(ds[..n], resetAfter, key, i) ==>
        ds[n].at - ds[i].at >= resetAfter || 1 <= (ds[n].update.frameCount - ds[i].update.frameCount) % 256 <= 127
    ensures Outcome(ds, resetAfter, n) == Duplicate <==>
      Outcome(ds, resetAfter, n) != Accepted &&
      forall i: nat :: IsLastAccepted(ds[..n], resetAfter, key, i) ==>
        (ds[n].update.frameCount - ds[i].update.frameCount) % 256 == 0
  {
    var frames := FramesAfter(ds[..n], resetAfter);
    BaselineIsLastAccepted(ds[..n], resetAfter, key);
    ClassifyExact(frames, resetAfter, ds[n].update, ds[n].at);
    forall i: nat | IsLastAccepted(ds[..n], resetAfter, key, i)
      ensures (ds[n].update.frameCount - frames[key].counter) % 256 ==
        (ds[n].update.frameCount - ds[i].update.frameCount) % 256
    {
      ModularBaseline(ds[n].update.frameCount, ds[i].update.frameCount);
    }
  }

  lemma ModularBaseline(f: int, g: int)
    ensures (f - g % 256) % 256 == (f - g) % 256
  {
    assert f - g % 256 == f - g + 256 * (g / 256);
  }

  /** So the first report after a silence of the reset time is accepted, and is the baseline from then on. */
  lemma AcceptedAfterSilence(ds: seq<Delivery>, resetAfter: int64, d: Delivery, key: string)
    requires Of(d, key) && forall i :: 0 <= i < |ds| && Of(ds[i], key) ==> d.at - ds[i].at >= resetAfter
    ensures Outcome(ds + [d], resetAfter, |ds|) == Accepted
    ensures var after := FramesAfter(ds + [d], resetAfter);
      key in after && after[key] == FrameState(d.update.frameCount % 256, d.at)
  {
    assert (ds + [d])[..|ds|] == ds;
    AcceptedIff(ds + [d], resetAfter, |ds|, key);
  }

  // ------------------------------------------------------ device isolation

  function Only(ds: seq<Delivery>, key: string): seq<Delivery> {
    if ds == [] then []
    else Only(ds[..|ds| - 1], key) + if Of(ds[|ds| - 1], key) then [ds[|ds| - 1]] else []
  }

  /** The last report of this device the deduplicator accepted. */
  function LastAccepted(log: seq<Delivery>, resetAfter: int64, key: string): Option<Update> {
    if log == [] then None
    else
      var n := |log| - 1;
      if Of(log[n], key) && Outcome(log, resetAfter, n) == Accepted then Some(log[n].update)
      else LastAccepted(log[..n], resetAfter, key)
  }

  lemma LastAcceptedSnoc(log: seq<Delivery>, resetAfter: int64, key: string, d: Delivery)
    ensures LastAccepted(log + [d], resetAfter, key) ==
      if Of(d, key) && Verdict(FramesAfter(log, resetAfter), resetAfter, d.update, d.at) == Accepted
      then Some(d.update) else LastAccepted(log, resetAfter, key)
  {
    assert (log + [d])[..|log|] == log;
  }

  predicate SameBaseline(f: Frames, g: Frames, key: string) {
    (key in f <==> key in g) && (key in f ==> f[key] == g[key])
  }

  lemma RememberOwn(f: Frames, g: Frames, resetAfter: int64, d: Delivery)
    requires SameBaseline(f, g, Key(d.update))
    ensures SameBaseline(Remember(f, resetAfter, d.update, d.at), Remember(g, resetAfter, d.update, d.at),
                         Key(d.update))
    ensures Verdict(f, resetAfter, d.update, d.at) == Verdict(g, resetAfter, d.update, d.at)
  {
  }

  lemma RememberOther(f: Frames, resetAfter: int64, d: Delivery, key: string)
    requires !Of(d, key)
    ensures SameBaseline(Remember(f, resetAfter, d.update, d.at), f, key)
  {
  }

  /** The baseline of a device depends on its own reports alone, in any run at all. */
  lemma {:induction false} DevicesAreIndependent(ds: seq<Delivery>, resetAfter: int64, key: string)
    ensures SameBaseline(FramesAfter(ds, resetAfter), FramesAfter(Only(ds, key), resetAfter), key)
  {
    if ds == [] {
    } else {
      var before, last := ds[..|ds| - 1], ds[|ds| - 1];
      DevicesAreIndependent(before, resetAfter, key);
      if Of(last, key) {
        assert Only(ds, key)[..|Only(ds, key)| - 1] == Only(before, key);
        RememberOwn(FramesAfter(before, resetAfter), FramesAfter(Only(before, key), resetAfter), resetAfter, last);
      } else {
        assert Only(ds, key) == Only(before, key);
        RememberOther(FramesAfter(before, resetAfter), resetAfter, last, key);
      }
    }
  }

  // ------------------------------------------------- re-acceptance distance

  /** From a live baseline of key, no report of the run finds it lapsed. */
  predicate NeverLapses(frames: Frames, resetAfter: int64, key: string, ds: seq<Delivery>)
    decreases |ds|
  {
    ds == [] ||
    (&& (Of(ds[0], key) ==> !Lapsed(frames, resetAfter, key, ds[0].at))
     && NeverLapses(Remember(frames, resetAfter, ds[0].update, ds[0].at), resetAfter, key, ds[1..]))
  }

  function FramesFrom(frames: Frames, resetAfter: int64, ds: seq<Delivery>): Frames
    decreases |ds|
  {
    if ds == [] then frames
    else FramesFrom(Remember(frames, resetAfter, ds[0].update, ds[0].at), resetAfter, ds[1..])
  }

  /** How far the accepted reports of this device move its counter, in total. */
  function Advance(frames: Frames, resetAfter: int64, key: string, ds: seq<Delivery>): nat
    decreases |ds|
  {
    if ds == [] then 0
    else
      var step :=
        if key in frames && Of(ds[0], key) && Verdict(frames, resetAfter, ds[0].update, ds[0].at) == Accepted
        then (ds[0].update.frameCount - frames[key].counter) % 256 else 0;
      step + Advance(Remember(frames, resetAfter, ds[0].update, ds[0].at), resetAfter, key, ds[1..])
  }

  lemma ModularSum(a: int, b: int, c: int, m: int)
    requires 0 <= a < 256 && m == (a + (b - a) % 256 + c) % 256
    ensures m == (b % 256 + c) % 256
  {
  }

  lemma {:induction false} CounterAfterAdvance(frames: Frames, resetAfter: int64, key: string, ds: seq<Delivery>)
    requires key in frames && NeverLapses(frames, resetAfter, key, ds)
    ensures var after := FramesFrom(frames, resetAfter, ds);
      key in after && after[key].counter == (frames[key].counter + Advance(frames, resetAfter, key, ds)) % 256
    decreases |ds|
  {
    if ds == [] {
    } else {
      var next := Remember(frames, resetAfter, ds[0].update, ds[0].at);
      CounterAfterAdvance(next, resetAfter, key, ds[1..]);
      if Of(ds[0], key) && Verdict(frames, resetAfter, ds[0].update, ds[0].at) == Accepted {
        ModularSum(frames[key].counter, ds[0].update.frameCount, Advance(next, resetAfter, key, ds[1..]),
                   (frames[key].counter + Advance(frames, resetAfter, key, ds)) % 256);
      }
    }
  }

  lemma ModularReturn(f: int, c: int, a: int)
    requires 0 <= c < 256 && f % 256 == c
    ensures (f - (c + a) % 256) % 256 == if a % 256 == 0 then 0 else 256 - a % 256
  {
    var r := a % 256;
    assert (c + a) % 256 == (c + r) % 256 by { assert c + a == c + r + 256 * (a / 256); }
    assert (f - (c + r) % 256) % 256 == (c - (c + r) % 256) % 256 by { assert f == c + 256 * (f / 256); }
    assert (c + r) % 256 == if c + r < 256 then c + r else c + r - 256;
  }

  /**
   A counter value that was accepted (it is the baseline of `frames`) comes back
   later in the run: it is accepted again iff the total advance in between,
   modulo 256, exceeds 128. So up to an advance of 128 it never is, and 129 does it.
   */
  lemma ReacceptedIff(frames: Frames, resetAfter: int64, key: string, ds: seq<Delivery>, again: Delivery)
    requires key in frames && NeverLapses(frames, resetAfter, key, ds)
    requires Of(again, key) && again.update.frameCount % 256 == frames[key].counter
    requires !Lapsed(FramesFrom(frames, resetAfter, ds), resetAfter, key, again.at)
    ensures Verdict(FramesFrom(frames, resetAfter, ds), resetAfter, again.update, again.at) == Accepted <==>
      Advance(frames, resetAfter, key, ds) % 256 > 128
  {
    CounterAfterAdvance(frames, resetAfter, key, ds);
    ModularReturn(again.update.frameCount, frames[key].counter, Advance(frames, resetAfter, key, ds));
  }
}
