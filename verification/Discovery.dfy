/**
 cmd/mgl03-homekit-bridge/main.go: discoverDevices, which fills an empty device list
 from the reports heard and keeps the last one of every device for later.
 */
module Discovery {
  import opened Base
  import opened Openmiio
  import opened Deduplication
  import opened Devices
  import opened Enrolment
  import Text

  /** What the select of discoverDevices can receive; a report with its unbounded frame number. */
  datatype Event = Report(update: Update, counter: int, at: int) | WindowClosed | Cancelled

  /** The supported report this event brings, if it brings one. */
  function HeardIn(e: Event): seq<Delivery> {
    if e.Report? && SupportedDiscovery(e.update) then [Delivery(e.update, e.counter, e.at)] else []
  }

  /** The supported reports among the events, in order. */
  function Heard(events: seq<Event>): seq<Delivery> {
    if events == [] then [] else Heard(events[..|events| - 1]) + HeardIn(events[|events| - 1])
  }

  lemma HeardSnoc(events: seq<Event>, n: nat)
    requires n < |events|
    ensures Heard(events[..n + 1]) == Heard(events[..n]) + HeardIn(events[n])
  {
    assert events[..n + 1][..n] == events[..n];
  }

  /** All deliveries after n events, those classified before included. */
  function HeardBy(before: seq<Delivery>, events: seq<Event>, n: nat): (r: seq<Delivery>)
    requires n <= |events|
    ensures |before| <= |r|
  {
    before + Heard(events[..n])
  }

  lemma HeardNext(before: seq<Delivery>, events: seq<Event>, n: nat)
    requires n < |events|
    ensures HeardBy(before, events, n + 1) == HeardBy(before, events, n) + HeardIn(events[n])
  {
    HeardSnoc(events, n);
  }

  // ------------------------------------------------------------ what it finds

  /** Accepted, and not before discovery began with `from` deliveries classified. */
  ghost predicate AcceptedAt(log: seq<Delivery>, from: nat, resetAfter: int64, i: nat) {
    from <= i < |log| && Outcome(log, resetAfter, i) == Accepted
  }

  /** The last accepted report of this identity. */
  function LastKept(log: seq<Delivery>, from: nat, resetAfter: int64, id: string): Option<Update>
    decreases |log|
  {
    if |log| <= from then None
    else
      var n := |log| - 1;
      if UpdateIdentity(log[n].update) == id && Outcome(log, resetAfter, n) == Accepted then Some(log[n].update)
      else LastKept(log[..n], from, resetAfter, id)
  }

  /** Every accepted report has its device in the list. */
  ghost predicate NoneMissed(log: seq<Delivery>, from: nat, resetAfter: int64, devices: seq<Device>) {
    forall i: nat {:trigger AcceptedAt(log, from, resetAfter, i)} ::
      AcceptedAt(log, from, resetAfter, i) ==> Known(devices, log[i].update)
  }

  ghost predicate Reported(log: seq<Delivery>, from: nat, resetAfter: int64, d: Device, k: nat) {
    exists i: nat {:trigger AcceptedAt(log, from, resetAfter, i)} ::
      AcceptedAt(log, from, resetAfter, i) && TakenFrom(d, log[i].update, k + 1)
  }

  /** Every record is taken from an accepted report. */
  ghost predicate NoneInvented(log: seq<Delivery>, from: nat, resetAfter: int64, devices: seq<Device>) {
    forall k {:trigger Reported(log, from, resetAfter, devices[k], k)} ::
      0 <= k < |devices| ==> Reported(log, from, resetAfter, devices[k], k)
  }

  /** What is kept for an identity is its last accepted report. */
  ghost predicate KeepsLast(log: seq<Delivery>, from: nat, resetAfter: int64, initial: map<string, Update>) {
    forall id {:trigger LastKept(log, from, resetAfter, id)} ::
      LastKept(log, from, resetAfter, id) == if id in initial then Some(initial[id]) else None
  }

  /** Discovery is sound and complete for the reports heard, one record per device. */
  ghost predicate Complete(log: seq<Delivery>, from: nat, resetAfter: int64, devices: seq<Device>,
                           initial: map<string, Update>) {
    && Settled(devices) && Identified(devices)
    && NoneMissed(log, from, resetAfter, devices) && NoneInvented(log, from, resetAfter, devices)
    && KeepsLast(log, from, resetAfter, initial)
  }

  /** And the frame table is the one those reports lead to. */
  ghost predicate Heeded(log: seq<Delivery>, from: nat, resetAfter: int64, devices: seq<Device>,
                         initial: map<string, Update>, frames: Frames)
  {
    Complete(log, from, resetAfter, devices, initial) && frames == FramesAfter(log, resetAfter)
  }

  lemma AcceptedSnoc(log: seq<Delivery>, from: nat, resetAfter: int64, d: Delivery, i: nat)
    requires from <= |log|
    ensures AcceptedAt(log + [d], from, resetAfter, i) <==>
      AcceptedAt(log, from, resetAfter, i) ||
      (i == |log| && Verdict(FramesAfter(log, resetAfter), resetAfter, d.update, d.at) == Accepted)
  {
    if i <= |log| {
      assert (log + [d])[..i] == log[..i];
      assert log[..|log|] == log;
    }
  }

  lemma LastKeptSnoc(log: seq<Delivery>, from: nat, resetAfter: int64, d: Delivery, id: string)
    requires from <= |log|
    ensures LastKept(log + [d], from, resetAfter, id) ==
      if UpdateIdentity(d.update) == id && Verdict(FramesAfter(log, resetAfter), resetAfter, d.update, d.at) == Accepted
      then Some(d.update) else LastKept(log, from, resetAfter, id)
  {
    assert (log + [d])[..|log|] == log;
  }

  /** Every kept report is of its identity and was heard. */
  lemma {:induction false} KeptIsHeard(log: seq<Delivery>, from: nat, resetAfter: int64, id: string)
    requires LastKept(log, from, resetAfter, id).Some?
    ensures UpdateIdentity(LastKept(log, from, resetAfter, id).value) == id
    ensures exists d :: d in log && d.update == LastKept(log, from, resetAfter, id).value
    decreases |log|
  {
    var last := log[|log| - 1];
    if !(UpdateIdentity(last.update) == id && Outcome(log, resetAfter, |log| - 1) == Accepted) {
      KeptIsHeard(log[..|log| - 1], from, resetAfter, id);
    } else {
      assert last in log;
    }
  }

  /** For a device whose reports all carry a MAC and a counter it is the last one the deduplicator accepted. */
  lemma {:induction false} KeptIsLastAccepted(log: seq<Delivery>, resetAfter: int64, key: string)
    requires forall d :: d in log ==> d.update.mac != "" && (UpdateIdentity(d.update) == key ==> Counted(d.update))
    ensures LastKept(log, 0, resetAfter, key) == LastAccepted(log, resetAfter, key)
  {
    if log == [] {
    } else {
      var last := log[|log| - 1];
      assert last in log && Text.ToLower(last.update.mac) != "";
      KeptIsLastAccepted(log[..|log| - 1], resetAfter, key);
    }
  }

  lemma InitialIsLastAccepted(log: seq<Delivery>, resetAfter: int64, initial: map<string, Update>, key: string)
    requires KeepsLast(log, 0, resetAfter, initial)
    requires forall d :: d in log ==> d.update.mac != "" && (UpdateIdentity(d.update) == key ==> Counted(d.update))
    ensures LastAccepted(log, resetAfter, key) == if key in initial then Some(initial[key]) else None
    ensures key in initial ==> Counted(initial[key]) && Key(initial[key]) == key
  {
    KeptIsLastAccepted(log, resetAfter, key);
    assert LastKept(log, 0, resetAfter, key) == if key in initial then Some(initial[key]) else None;
    if key in initial {
      KeptIsHeard(log, 0, resetAfter, key);
    }
  }

  lemma InitialIdentity(log: seq<Delivery>, resetAfter: int64, initial: map<string, Update>, id: string)
    requires KeepsLast(log, 0, resetAfter, initial) && id in initial
    requires forall d :: d in log ==> d.update.mac != ""
    ensures UpdateIdentity(initial[id]) == id && initial[id].mac != ""
  {
    assert LastKept(log, 0, resetAfter, id) == Some(initial[id]);
    KeptIsHeard(log, 0, resetAfter, id);
  }

  lemma KnownLonger(devices: seq<Device>, longer: seq<Device>, u: Update)
    requires Known(devices, u) && devices <= longer
    ensures Known(longer, u)
  {
    var i :| 0 <= i < |devices| && MatchesUpdate(devices[i], u);
    assert longer[i] == devices[i];
  }

  lemma MissedSnoc(log: seq<Delivery>, from: nat, resetAfter: int64, devices: seq<Device>, d: Delivery,
                   longer: seq<Device>)
    requires from <= |log| && NoneMissed(log, from, resetAfter, devices) && devices <= longer
    requires Verdict(FramesAfter(log, resetAfter), resetAfter, d.update, d.at) == Accepted ==> Known(longer, d.update)
    ensures NoneMissed(log + [d], from, resetAfter, longer)
  {
    forall i: nat | AcceptedAt(log + [d], from, resetAfter, i) ensures Known(longer, (log + [d])[i].update) {
      AcceptedSnoc(log, from, resetAfter, d, i);
      if i < |log| {
        KnownLonger(devices, longer, log[i].update);
      }
    }
  }

  lemma ReportedSnoc(log: seq<Delivery>, from: nat, resetAfter: int64, d: Delivery, device: Device, k: nat)
    requires from <= |log| && Reported(log, from, resetAfter, device, k)
    ensures Reported(log + [d], from, resetAfter, device, k)
  {
    var i: nat :| AcceptedAt(log, from, resetAfter, i) && TakenFrom(device, log[i].update, k + 1);
    AcceptedSnoc(log, from, resetAfter, d, i);
    assert (log + [d])[i] == log[i];
  }

  lemma InventedSnoc(log: seq<Delivery>, from: nat, resetAfter: int64, devices: seq<Device>, d: Delivery,
                     longer: seq<Device>)
    requires from <= |log| && NoneInvented(log, from, resetAfter, devices)
    requires devices <= longer && |longer| <= |devices| + 1
    requires |longer| > |devices| ==>
      && Verdict(FramesAfter(log, resetAfter), resetAfter, d.update, d.at) == Accepted
      && TakenFrom(longer[|devices|], d.update, |longer|)
    ensures NoneInvented(log + [d], from, resetAfter, longer)
  {
    forall k | 0 <= k < |longer| ensures Reported(log + [d], from, resetAfter, longer[k], k) {
      if k < |devices| {
        ReportedSnoc(log, from, resetAfter, d, devices[k], k);
      } else {
        AcceptedSnoc(log, from, resetAfter, d, |log|);
      }
    }
  }

  lemma KeepsLastSnoc(log: seq<Delivery>, from: nat, resetAfter: int64, initial: map<string, Update>, d: Delivery)
    requires from <= |log| && KeepsLast(log, from, resetAfter, initial)
    ensures KeepsLast(log + [d], from, resetAfter,
                      if Verdict(FramesAfter(log, resetAfter), resetAfter, d.update, d.at) == Accepted
                      then initial[UpdateIdentity(d.update) := d.update] else initial)
  {
    forall id { LastKeptSnoc(log, from, resetAfter, d, id); }
  }

  /** A refused report leaves it complete. */
  lemma RefusedComplete(log: seq<Delivery>, from: nat, resetAfter: int64, devices: seq<Device>,
                        initial: map<string, Update>, d: Delivery)
    requires from <= |log| && Complete(log, from, resetAfter, devices, initial)
    requires Verdict(FramesAfter(log, resetAfter), resetAfter, d.update, d.at) != Accepted
    ensures Complete(log + [d], from, resetAfter, devices, initial)
  {
    MissedSnoc(log, from, resetAfter, devices, d, devices);
    InventedSnoc(log, from, resetAfter, devices, d, devices);
    KeepsLastSnoc(log, from, resetAfter, initial, d);
  }

  /** An accepted one is kept, and its device is in the list from now on. */
  lemma AcceptedComplete(log: seq<Delivery>, from: nat, resetAfter: int64, devices: seq<Device>,
                         initial: map<string, Update>, d: Delivery, longer: seq<Device>)
    requires from <= |log| && Complete(log, from, resetAfter, devices, initial) && Settled(longer) && Identified(longer)
    requires Verdict(FramesAfter(log, resetAfter), resetAfter, d.update, d.at) == Accepted
    requires devices <= longer && |longer| <= |devices| + 1 && Known(longer, d.update)
    requires |longer| > |devices| ==> TakenFrom(longer[|devices|], d.update, |longer|)
    ensures Complete(log + [d], from, resetAfter, longer, initial[UpdateIdentity(d.update) := d.update])
  {
    MissedSnoc(log, from, resetAfter, devices, d, longer);
    InventedSnoc(log, from, resetAfter, devices, d, longer);
    KeepsLastSnoc(log, from, resetAfter, initial, d);
  }

  lemma NothingHeard(before: seq<Delivery>, events: seq<Event>, resetAfter: int64)
    ensures Heeded(HeardBy(before, events, 0), |before|, resetAfter, [], map[], FramesAfter(before, resetAfter))
  {
    assert events[..0] == [] && before + [] == before;
  }

  ghost predicate SomeAccepted(log: seq<Delivery>, from: nat, resetAfter: int64) {
    exists i: nat :: AcceptedAt(log, from, resetAfter, i)
  }

  /** There is a device iff a report was accepted. */
  lemma FoundIff(log: seq<Delivery>, from: nat, resetAfter: int64, devices: seq<Device>, initial: map<string, Update>)
    requires Complete(log, from, resetAfter, devices, initial)
    ensures devices != [] <==> SomeAccepted(log, from, resetAfter)
  {
    if devices != [] {
      assert Reported(log, from, resetAfter, devices[0], 0);
    }
    if SomeAccepted(log, from, resetAfter) {
      var i: nat :| AcceptedAt(log, from, resetAfter, i);
      assert Known(devices, log[i].update);
    }
  }

  /**
   Event k ends discovery: it is cancelled, or the window closes with a report accepted
   by then, or in first mode it is a report with which one has been accepted.
   */
  ghost predicate Stops(mode: Mode, before: seq<Delivery>, events: seq<Event>, resetAfter: int64, k: nat)
    requires k < |events|
  {
    || events[k].Cancelled?
    || ((events[k].WindowClosed? || (events[k].Report? && mode == First))
        && SomeAccepted(HeardBy(before, events, k + 1), |before|, resetAfter))
  }

  /** How many events are taken, the one that ends discovery included. */
  ghost function Until(mode: Mode, before: seq<Delivery>, events: seq<Event>, resetAfter: int64, k: nat): (n: nat)
    requires k <= |events|
    ensures k <= n <= |events|
    decreases |events| - k
  {
    if k == |events| then k
    else if Stops(mode, before, events, resetAfter, k) then k + 1
    else Until(mode, before, events, resetAfter, k + 1)
  }

  lemma {:induction false} UntilStops(mode: Mode, before: seq<Delivery>, events: seq<Event>, resetAfter: int64, k: nat)
    requires k <= |events|
    ensures var n := Until(mode, before, events, resetAfter, k);
      && (forall i :: k <= i < n - 1 ==> !Stops(mode, before, events, resetAfter, i))
      && (n < |events| ==> k < n && Stops(mode, before, events, resetAfter, n - 1))
    decreases |events| - k
  {
    if k < |events| && !Stops(mode, before, events, resetAfter, k) {
      UntilStops(mode, before, events, resetAfter, k + 1);
    }
  }

  /**
   All events are taken, or those up to the first that is a cancellation, the end of the
   window once a report has been accepted, or in first mode a report with which one has.
   */
  lemma {:induction false} UntilIsFirst(mode: Mode, before: seq<Delivery>, events: seq<Event>, resetAfter: int64)
    ensures var n := Until(mode, before, events, resetAfter, 0);
      && (forall i :: 0 <= i < n - 1 ==>
           && !events[i].Cancelled?
           && (SomeAccepted(HeardBy(before, events, i + 1), |before|, resetAfter) ==>
               !events[i].WindowClosed? && !(events[i].Report? && mode == First)))
      && (n < |events| ==>
           && 0 < n
           && (|| events[n - 1].Cancelled?
               || (SomeAccepted(HeardBy(before, events, n), |before|, resetAfter) &&
                   (events[n - 1].WindowClosed? || (events[n - 1].Report? && mode == First)))))
  {
    UntilStops(mode, before, events, resetAfter, 0);
    var n := Until(mode, before, events, resetAfter, 0);
    forall i: nat | i + 1 < n
      ensures !events[i].Cancelled?
      ensures SomeAccepted(HeardBy(before, events, i + 1), |before|, resetAfter) ==>
        !events[i].WindowClosed? && !(events[i].Report? && mode == First)
    {
      assert !Stops(mode, before, events, resetAfter, i);
    }
  }

  // ---------------------------------------------------------------- the loop

  /** An accepted report's device is looked up, and enrolled when no record matches. */
  method EnrolIfNew(hash: Hash, devices: seq<Device>, u: Update) returns (after: seq<Device>, enrolled: bool)
    requires |devices| < CYCLE && Settled(devices) && Identified(devices) && SupportedDiscovery(u)
    ensures Settled(after) && Identified(after) && Known(after, u)
    ensures enrolled <==> !Known(devices, u)
    ensures devices <= after && |after| == |devices| + (if enrolled then 1 else 0)
    ensures enrolled ==> TakenFrom(after[|devices|], u, |after|)
  {
    after := devices;
    var found := FindDevice(devices, u);
    enrolled := found < 0;
    if enrolled {
      EnrolNew(hash, devices, u);
      after := AppendDeviceWithAID(hash, devices, DeviceFromUpdate(u, |devices| + 1));
    }
  }

  /** A report, accepted or not; whether it brought a new device. */
  method Hear(hash: Hash, devices: seq<Device>, initial: map<string, Update>, deduplicator: Deduplicator,
              update: Update, ghost counter: int, at: int, ghost log: seq<Delivery>, ghost from: nat)
    returns (after: seq<Device>, kept: map<string, Update>, enrolled: bool)
    requires |devices| < CYCLE && from <= |log|
    requires Heeded(log, from, deduplicator.resetAfter, devices, initial, deduplicator.frames)
    modifies deduplicator`frames
    ensures Heeded(log + HeardIn(Report(update, counter, at)), from, deduplicator.resetAfter, after, kept,
                   deduplicator.frames)
    ensures |after| == |devices| + if enrolled then 1 else 0
    ensures !enrolled ==> after == devices
  {
    after, kept, enrolled := devices, initial, false;
    if !SupportedDiscovery(update) {
      assert log + [] == log;
      return;
    }
    ghost var d := Delivery(update, counter, at);
    assert (log + [d])[..|log|] == log;
    var accepted := deduplicator.Accept(update, at);
    if !accepted {
      RefusedComplete(log, from, deduplicator.resetAfter, devices, initial, d);
      return;
    }
    kept := initial[UpdateIdentity(update) := update];
    after, enrolled := EnrolIfNew(hash, devices, update);
    AcceptedComplete(log, from, deduplicator.resetAfter, devices, initial, d, after);
  }

  /** Event n of the select; the window is open as soon as there is a device. */
  method Select(hash: Hash, mode: Mode, event: Event, devices: seq<Device>, initial: map<string, Update>,
                deduplicator: Deduplicator,
                ghost before: seq<Delivery>, ghost events: seq<Event>, ghost n: nat)
    returns (after: seq<Device>, kept: map<string, Update>, done: bool)
    requires n < |events| && event == events[n] && |devices| < CYCLE && (mode == First ==> devices == [])
    requires Heeded(HeardBy(before, events, n), |before|, deduplicator.resetAfter, devices, initial,
                    deduplicator.frames)
    modifies deduplicator`frames
    ensures Heeded(HeardBy(before, events, n + 1), |before|, deduplicator.resetAfter, after, kept, deduplicator.frames)
    ensures |after| <= |devices| + 1
    ensures done <==> Stops(mode, before, events, deduplicator.resetAfter, n)
    ensures !done && mode == First ==> after == []
  {
    after, kept, done := devices, initial, false;
    var timer := devices != [];
    ghost var log := HeardBy(before, events, n);
    HeardNext(before, events, n);
    match event {
      case Cancelled =>
        assert log + [] == log;
        done := true;
      case WindowClosed =>
        assert log + [] == log;
        done := timer;
      case Report(update, counter, at) =>
        var enrolled;
        after, kept, enrolled := Hear(hash, devices, initial, deduplicator, update, counter, at, log, |before|);
        done := enrolled && mode == First;
    }
    FoundIff(HeardBy(before, events, n + 1), |before|, deduplicator.resetAfter, after, kept);
  }

  /**
   From an empty list: every supported report is heard until the caller cancels, the
   window closes after the first device, or first mode has its device. No accepted one
   is missed and none is invented, the last of every identity is kept, and the frame
   table is the one they lead to. `before` is what the deduplicator classified earlier.
   */
  method Listen(hash: Hash, mode: Mode, events: seq<Event>, deduplicator: Deduplicator,
                ghost before: seq<Delivery>)
    returns (devices: seq<Device>, initial: map<string, Update>, ghost taken: nat)
    requires |events| <= CYCLE && deduplicator.frames == FramesAfter(before, deduplicator.resetAfter)
    modifies deduplicator`frames
    ensures taken == Until(mode, before, events, deduplicator.resetAfter, 0)
    ensures Heeded(HeardBy(before, events, taken), |before|, deduplicator.resetAfter, devices, initial,
                   deduplicator.frames)
    ensures mode == First ==> |devices| <= 1
  {
    devices, initial, taken := [], map[], 0;
    NothingHeard(before, events, deduplicator.resetAfter);
    for n := 0 to |events|
      invariant taken == n && |devices| <= n && (mode == First ==> devices == [])
      invariant Until(mode, before, events, deduplicator.resetAfter, n) ==
        Until(mode, before, events, deduplicator.resetAfter, 0)
      invariant Heeded(HeardBy(before, events, n), |before|, deduplicator.resetAfter, devices, initial,
                       deduplicator.frames)
    {
      var done;
      devices, initial, done := Select(hash, mode, events[n], devices, initial, deduplicator,
                                       before, events, n);
      taken := n + 1;
      if done {
        return;
      }
    }
  }

  /** A list that is not empty, and manual mode, hear nothing. */
  method DiscoverDevices(hash: Hash, mode: Mode, events: seq<Event>, deduplicator: Deduplicator,
                         known: seq<Device>, ghost before: seq<Delivery>)
    returns (devices: seq<Device>, initial: map<string, Update>, discovered: bool, ghost taken: nat)
    requires |events| <= CYCLE && deduplicator.frames == FramesAfter(before, deduplicator.resetAfter)
    modifies deduplicator`frames
    ensures known != [] || mode == Manual ==>
      devices == known && initial == map[] && deduplicator.frames == old(deduplicator.frames)
    ensures known == [] && mode != Manual ==>
      && taken == Until(mode, before, events, deduplicator.resetAfter, 0)
      && Heeded(HeardBy(before, events, taken), |before|, deduplicator.resetAfter, devices, initial,
                deduplicator.frames)
    ensures known == [] && mode == First ==> |devices| <= 1
    ensures discovered <==> devices != known
  {
    if |known| > 0 || mode == Manual {
      return known, map[], false, 0;
    }
    devices, initial, taken := Listen(hash, mode, events, deduplicator, before);
    discovered := devices != [];
  }
}
