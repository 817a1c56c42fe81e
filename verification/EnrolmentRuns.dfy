/**
 The device registry over its whole life, for a fixed configuration: enrolments with or
 without a successful save, the sort before the accessories are built, and restarts that
 merge the configured list with the saved one. Whatever happens in between, no device's
 AID changes.
 */
module EnrolmentRuns {
  import opened Devices
  import opened Enrolment
  import Config
  import Text

  /** Reorder lists, for each position after the sort, the position before it. */
  datatype Change = Enrol(device: Device, saved: bool) | Reorder(from: seq<nat>) | Restart

  /** The list in memory and the list on file. */
  datatype Roster = Roster(devices: seq<Device>, file: seq<Device>)

  /** registry.Load normalises the MAC of every saved record. */
  function Canonical(d: Device): Device {
    d.(mac := Text.NormalizeMAC(d.mac))
  }

  function Loaded(devices: seq<Device>): (r: seq<Device>)
    ensures |r| == |devices|
    ensures forall i :: 0 <= i < |r| ==> r[i] == Canonical(devices[i])
  {
    seq(|devices|, i requires 0 <= i < |devices| => Canonical(devices[i]))
  }

  /** What the configuration's validation guarantees of its entries: normalised, and with a MAC or a DID. */
  predicate Configured(configured: seq<Device>) {
    forall i :: 0 <= i < |configured| ==> Canonical(configured[i]) == configured[i] && Keyed(configured[i])
  }

  /** So every configuration that is accepted is one. */
  lemma AcceptedIsConfigured(devices: seq<Device>)
    requires Config.Sound(Config.NormalizedAll(devices))
    ensures Configured(Config.NormalizedAll(devices))
  {
    forall i | 0 <= i < |devices|
      ensures Canonical(Config.Normalized(devices[i])) == Config.Normalized(devices[i])
      ensures Keyed(Config.NormalizedAll(devices)[i])
    {
      Text.NormalizeMACIdempotent(devices[i].mac);
      assert Config.SoundDevice(Config.NormalizedAll(devices)[i]);
    }
  }

  predicate Permutation(from: seq<nat>, n: nat) {
    && |from| == n
    && (forall i :: 0 <= i < n ==> from[i] < n)
    && (forall i, j :: 0 <= i < j < n ==> from[i] != from[j])
    && forall k :: 0 <= k < n ==> k in from
  }

  function Reordered(devices: seq<Device>, from: seq<nat>): (r: seq<Device>)
    requires Permutation(from, |devices|)
    ensures |r| == |devices|
    ensures forall i :: 0 <= i < |r| ==> r[i] == devices[from[i]]
  {
    seq(|devices|, i requires 0 <= i < |devices| => devices[from[i]])
  }

  /** mergeDevices, then prepareDevices; the file is written when the list was changed. */
  ghost function StartUp(hash: Hash, configured: seq<Device>, file: seq<Device>): Roster
    requires |configured| + |file| <= CYCLE
  {
    var merged := SavedDevices(configured, Loaded(file));
    MergeSize(configured, Loaded(file));
    var prepared := Prepare(hash, merged);
    Roster(prepared, if prepared == merged then file else prepared)
  }

  ghost predicate Possible(configured: seq<Device>, s: Roster, c: Change) {
    && (c.Enrol? ==> |s.devices| < CYCLE)
    && (c.Reorder? ==> Permutation(c.from, |s.devices|))
    && (c.Restart? ==> |configured| + |s.file| <= CYCLE)
  }

  /** A change that cannot happen there (the AIDs are exhausted, no permutation) leaves the lists alone. */
  ghost function Do(hash: Hash, configured: seq<Device>, s: Roster, c: Change): Roster {
    if !Possible(configured, s, c) then s
    else match c
    case Enrol(d, saved) =>
      var devices := AppendWithAID(hash, s.devices, d);
      Roster(devices, if saved then devices else s.file)
    case Reorder(from) => s.(devices := Reordered(s.devices, from))
    case Restart => StartUp(hash, configured, s.file)
  }

  lemma {:induction false} MergeSize(merged: seq<Device>, saved: seq<Device>)
    ensures |merged| <= |SavedDevices(merged, saved)| <= |merged| + |saved|
    decreases |saved|
  {
    if saved == [] {
    } else {
      MergeSize(merged + [saved[0]], saved[1..]);
      MergeSize(merged, saved[1..]);
    }
  }

  ghost function After(hash: Hash, configured: seq<Device>, start: Roster, changes: seq<Change>): Roster
    decreases |changes|
  {
    if changes == [] then start
    else Do(hash, configured, After(hash, configured, start, changes[..|changes| - 1]), changes[|changes| - 1])
  }

  /** The record is d's: same name, identity, product and AID, up to the spelling of the MAC. */
  predicate SameRecord(d: Device, e: Device) {
    Canonical(d) == Canonical(e)
  }

  predicate Has(devices: seq<Device>, e: Device) {
    exists i :: 0 <= i < |devices| && SameRecord(devices[i], e)
  }

  lemma HasAt(devices: seq<Device>, i: nat, e: Device)
    requires i < |devices| && SameRecord(devices[i], e)
    ensures Has(devices, e)
  {
  }

  lemma HasMember(devices: seq<Device>, e: Device)
    requires e in devices
    ensures Has(devices, e)
  {
    var i :| 0 <= i < |devices| && devices[i] == e;
    HasAt(devices, i, e);
  }

  /** What is everywhere in a list is in the other wherever it is in the one. */
  lemma HasThrough(devices: seq<Device>, others: seq<Device>, e: Device)
    requires Has(devices, e) && forall d :: d in devices ==> Has(others, d)
    ensures Has(others, e)
  {
    var i :| 0 <= i < |devices| && SameRecord(devices[i], e);
    assert devices[i] in devices;
    var j :| 0 <= j < |others| && SameRecord(others[j], devices[i]);
    HasAt(others, j, e);
  }

  // --------------------------------------------------- which records are merged

  ghost predicate Ascending(picks: seq<nat>, n: nat) {
    && (forall k :: 0 <= k < |picks| ==> picks[k] < n)
    && forall k, l :: 0 <= k < l < |picks| ==> picks[k] < picks[l]
  }

  function Selected(saved: seq<Device>, picks: seq<nat>): (r: seq<Device>)
    requires forall k :: 0 <= k < |picks| ==> picks[k] < |saved|
    ensures |r| == |picks| && forall k :: 0 <= k < |r| ==> r[k] == saved[picks[k]]
  {
    seq(|picks|, k requires 0 <= k < |picks| => saved[picks[k]])
  }

  predicate Unshared(devices: seq<Device>, d: Device) {
    forall i :: 0 <= i < |devices| ==> !Shares(devices[i], d)
  }

  /** The merge keeps a sub-sequence of the saved records, none of which describes a device of the list. */
  ghost predicate Picks(merged: seq<Device>, saved: seq<Device>, picks: seq<nat>) {
    && Ascending(picks, |saved|)
    && SavedDevices(merged, saved) == merged + Selected(saved, picks)
    && forall k :: 0 <= k < |picks| ==> Unshared(merged, saved[picks[k]])
  }

  function Shifted(picks: seq<nat>): (r: seq<nat>)
    ensures |r| == |picks| && forall k :: 0 <= k < |r| ==> r[k] == picks[k] + 1
  {
    seq(|picks|, k requires 0 <= k < |picks| => picks[k] + 1)
  }

  lemma UnsharedLess(devices: seq<Device>, e: Device, d: Device)
    requires Unshared(devices + [e], d)
    ensures Unshared(devices, d)
  {
    forall i | 0 <= i < |devices| ensures !Shares(devices[i], d) {
      assert (devices + [e])[i] == devices[i];
    }
  }

  lemma ShiftedAscending(picks: seq<nat>, n: nat)
    requires n > 0 && Ascending(picks, n - 1)
    ensures Ascending([0] + Shifted(picks), n)
  {
  }

  lemma {:induction false} PicksFirst(merged: seq<Device>, saved: seq<Device>, rest: seq<nat>)
    requires saved != [] && Keyed(saved[0]) && Unshared(merged, saved[0])
    requires Picks(merged + [saved[0]], saved[1..], rest)
    ensures Picks(merged, saved, [0] + Shifted(rest))
  {
    var picks := [0] + Shifted(rest);
    ShiftedAscending(rest, |saved|);
    assert Selected(saved, picks) == [saved[0]] + Selected(saved[1..], rest);
    assert merged + [saved[0]] + Selected(saved[1..], rest) == merged + ([saved[0]] + Selected(saved[1..], rest));
    forall k | 0 <= k < |picks| ensures Unshared(merged, saved[picks[k]]) {
      if k > 0 {
        UnsharedLess(merged, saved[0], saved[1..][rest[k - 1]]);
      }
    }
  }

  lemma {:induction false} PicksLater(merged: seq<Device>, saved: seq<Device>, rest: seq<nat>)
    requires saved != [] && !(Keyed(saved[0]) && Unshared(merged, saved[0]))
    requires Picks(merged, saved[1..], rest)
    ensures Picks(merged, saved, Shifted(rest))
  {
    assert Selected(saved, Shifted(rest)) == Selected(saved[1..], rest);
  }

  lemma {:induction false} MergePicks(merged: seq<Device>, saved: seq<Device>) returns (picks: seq<nat>)
    ensures Picks(merged, saved, picks)
    decreases |saved|
  {
    if saved == [] {
      picks := [];
      assert merged + Selected(saved, picks) == merged;
    } else if Keyed(saved[0]) && Unshared(merged, saved[0]) {
      var rest := MergePicks(merged + [saved[0]], saved[1..]);
      PicksFirst(merged, saved, rest);
      picks := [0] + Shifted(rest);
    } else {
      var rest := MergePicks(merged, saved[1..]);
      PicksLater(merged, saved, rest);
      picks := Shifted(rest);
    }
  }

  /** A record that describes no device of the list and none saved before it is kept. */
  lemma {:induction false} UnsharedIsKept(merged: seq<Device>, saved: seq<Device>, j: nat)
    requires j < |saved| && Keyed(saved[j]) && Unshared(merged, saved[j])
    requires forall k :: 0 <= k < j ==> !Shares(saved[k], saved[j])
    ensures saved[j] in SavedDevices(merged, saved)
    decreases |saved|
  {
    var kept := Keyed(saved[0]) && Unshared(merged, saved[0]);
    if j == 0 {
      var picks := MergePicks(merged + [saved[0]], saved[1..]);
      assert SavedDevices(merged, saved) == merged + [saved[0]] + Selected(saved[1..], picks);
    } else {
      assert forall k :: 0 <= k < j - 1 ==> saved[1..][k] == saved[k + 1];
      UnsharedIsKept(if kept then merged + [saved[0]] else merged, saved[1..], j - 1);
    }
  }

  // ----------------------------------------------- what a restart makes of a file

  /** The configured devices as they are prepared at every start, then the saved ones that are not among them. */
  ghost function Restored(hash: Hash, configured: seq<Device>, file: seq<Device>): seq<Device>
    requires |configured| <= CYCLE
  {
    MergeSize(configured, Loaded(file));
    Prepare(hash, configured) + SavedDevices(configured, Loaded(file))[|configured|..]
  }

  lemma {:induction false} PreparedIdentity(hash: Hash, devices: seq<Device>, i: nat)
    requires i < |devices| <= CYCLE
    ensures Prepare(hash, devices)[i].mac == devices[i].mac && Prepare(hash, devices)[i].did == devices[i].did
  {
    PreparedAt(hash, devices, i);
  }

  /** What a configured entry was prepared to is recognised as that entry when it is read back. */
  lemma OwnIsShared(hash: Hash, configured: seq<Device>, i: nat)
    requires i < |configured| <= CYCLE && Configured(configured)
    ensures Shares(configured[i], Canonical(Prepare(hash, configured)[i]))
  {
    PreparedIdentity(hash, configured, i);
  }

  lemma {:induction false} PrepareSnoc(hash: Hash, devices: seq<Device>, d: Device)
    requires |devices| < CYCLE
    ensures Prepare(hash, devices + [d]) == Prepare(hash, devices) + [PrepareOne(hash, Prepare(hash, devices), d)]
  {
    assert (devices + [d])[..|devices|] == devices;
  }

  lemma {:induction false} FreeAidIsKept(hash: Hash, prepared: seq<Device>, d: Device)
    requires |prepared| < CYCLE && Settled(prepared + [d])
    ensures Settled(prepared) && PrepareOne(hash, prepared, d) == d
  {
    SettledSnoc(prepared, d);
  }

  /** Preparing leaves settled records at the end of a list as they are. */
  lemma {:induction false} SettledTail(hash: Hash, front: seq<Device>, tail: seq<Device>)
    requires |front| + |tail| <= CYCLE && Settled(Prepare(hash, front) + tail)
    ensures Prepare(hash, front + tail) == Prepare(hash, front) + tail
    decreases |tail|
  {
    if tail == [] {
      assert front + tail == front && Prepare(hash, front) + tail == Prepare(hash, front);
    } else {
      var less, last := tail[..|tail| - 1], tail[|tail| - 1];
      assert Prepare(hash, front) + tail == Prepare(hash, front) + less + [last];
      assert front + tail == front + less + [last];
      FreeAidIsKept(hash, Prepare(hash, front) + less, last);
      SettledTail(hash, front, less);
      PrepareSnoc(hash, front + less, last);
    }
  }

  ghost predicate Contains(devices: seq<Device>, prepared: seq<Device>) {
    forall i :: 0 <= i < |prepared| ==> prepared[i] in devices
  }

  lemma CanonicalProduct(d: Device)
    requires WithProduct(d) == d
    ensures WithProduct(Canonical(d)) == Canonical(d)
  {
  }

  /** Its own record is not among those kept: so the AIDs of the kept ones are others. */
  lemma {:induction false} KeptAidIsOther(hash: Hash, configured: seq<Device>, file: seq<Device>, i: nat, p: nat)
    requires i < |configured| <= CYCLE && Configured(configured) && Settled(file)
    requires Contains(file, Prepare(hash, configured)) && p < |file| && Unshared(configured, Canonical(file[p]))
    ensures Prepare(hash, configured)[i].aid != file[p].aid
  {
    var own := Prepare(hash, configured)[i];
    assert own in file;
    var q :| 0 <= q < |file| && file[q] == own;
    OwnIsShared(hash, configured, i);
    assert q < p || p < q;
  }

  lemma {:induction false} SelectedSettled(prepared: seq<Device>, file: seq<Device>, picks: seq<nat>)
    requires Settled(prepared) && Settled(file) && Ascending(picks, |file|)
    requires forall i, k :: 0 <= i < |prepared| && 0 <= k < |picks| ==> prepared[i].aid != file[picks[k]].aid
    ensures Settled(prepared + Selected(Loaded(file), picks))
  {
    var all, n := prepared + Selected(Loaded(file), picks), |prepared|;
    assert all[..n] == prepared;
    forall i | n <= i < |all| ensures all[i] == Canonical(file[picks[i - n]]) && WithProduct(all[i]) == all[i] {
      CanonicalProduct(file[picks[i - n]]);
    }
    forall i, j | 0 <= i < j < |all| && n <= j ensures all[i].aid != all[j].aid {
      assert i >= n ==> picks[i - n] < picks[j - n];
    }
    TwoPartsSettled(all, n);
  }

  lemma {:induction false} RestoredParts(hash: Hash, configured: seq<Device>, file: seq<Device>, picks: seq<nat>)
    requires |configured| <= CYCLE && Picks(configured, Loaded(file), picks)
    ensures Restored(hash, configured, file) == Prepare(hash, configured) + Selected(Loaded(file), picks)
  {
  }

  /** A settled list that holds the prepared configured devices restores to a settled sub-list of itself. */
  lemma {:induction false} FileRestores(hash: Hash, configured: seq<Device>, file: seq<Device>)
    requires |configured| <= CYCLE && Configured(configured)
    requires Settled(file) && Contains(file, Prepare(hash, configured))
    ensures Settled(Restored(hash, configured, file))
    ensures forall e :: e in Restored(hash, configured, file) ==> Has(file, e)
  {
    var picks := MergePicks(configured, Loaded(file));
    var prepared := Prepare(hash, configured);
    RestoredParts(hash, configured, file, picks);
    PrepareSettles(hash, configured);
    forall i, k | 0 <= i < |prepared| && 0 <= k < |picks| ensures prepared[i].aid != file[picks[k]].aid {
      KeptAidIsOther(hash, configured, file, i, picks[k]);
    }
    SelectedSettled(prepared, file, picks);
    forall e | e in prepared ensures Has(file, e) { HasMember(file, e); }
    forall e | e in Selected(Loaded(file), picks) ensures Has(file, e) {
      var k :| 0 <= k < |picks| && Selected(Loaded(file), picks)[k] == e;
      CanonicalTwice(file[picks[k]]);
      HasAt(file, picks[k], e);
    }
  }

  lemma CanonicalTwice(d: Device)
    ensures Canonical(Canonical(d)) == Canonical(d)
  {
    Text.NormalizeMACIdempotent(d.mac);
  }

  lemma TwoPartsSettled(all: seq<Device>, n: nat)
    requires n <= |all| && Settled(all[..n])
    requires forall i :: n <= i < |all| ==> all[i].aid >= 2 && WithProduct(all[i]) == all[i]
    requires forall i, j :: 0 <= i < j < |all| && n <= j ==> all[i].aid != all[j].aid
    ensures Settled(all)
  {
    forall i | 0 <= i < n ensures all[i].aid >= 2 && WithProduct(all[i]) == all[i] {
      assert all[..n][i] == all[i];
    }
    forall i, j | 0 <= i < j < |all| ensures all[i].aid != all[j].aid {
      assert j < n ==> all[..n][i].aid != all[..n][j].aid;
    }
  }

  // --------------------------------------------------------- the invariant

  /**
   The list is settled and holds the prepared configured devices; a restart would give
   a settled list of records that are all in it.
   */
  ghost predicate Begun(hash: Hash, configured: seq<Device>, s: Roster) {
    && |configured| <= CYCLE && Configured(configured)
    && Settled(s.devices) && Contains(s.devices, Prepare(hash, configured))
    && Settled(Restored(hash, configured, s.file))
    && forall e :: e in Restored(hash, configured, s.file) ==> Has(s.devices, e)
  }

  /** Such a file is restored as it stands: preparing changes no record of it. */
  lemma StartUpRestores(hash: Hash, configured: seq<Device>, file: seq<Device>)
    requires |configured| + |file| <= CYCLE && Settled(Restored(hash, configured, file))
    ensures StartUp(hash, configured, file).devices == Restored(hash, configured, file)
  {
    var merged := SavedDevices(configured, Loaded(file));
    var picks := MergePicks(configured, Loaded(file));
    MergeSize(configured, Loaded(file));
    assert merged == configured + merged[|configured|..];
    SettledTail(hash, configured, merged[|configured|..]);
  }

  /** After any start the invariant holds, whatever the file was: what it renumbers, it saves. */
  lemma StartUpBegins(hash: Hash, configured: seq<Device>, file: seq<Device>)
    requires |configured| + |file| <= CYCLE && Configured(configured)
    ensures Begun(hash, configured, StartUp(hash, configured, file))
    ensures StartUp(hash, configured, file).devices == Restored(hash, configured, StartUp(hash, configured, file).file)
      || StartUp(hash, configured, file).file == StartUp(hash, configured, file).devices
  {
    var s := StartUp(hash, configured, file);
    var merged := SavedDevices(configured, Loaded(file));
    var picks := MergePicks(configured, Loaded(file));
    MergeSize(configured, Loaded(file));
    PrepareSettles(hash, merged);
    PreparePrefix(hash, merged, |configured|);
    assert merged[..|configured|] == configured;
    forall i | 0 <= i < |configured| ensures Prepare(hash, configured)[i] in s.devices {
      assert s.devices[..|configured|][i] == s.devices[i];
    }
    if s.devices == merged {
      assert Restored(hash, configured, s.file) == s.devices;
      forall e | e in s.devices { HasMember(s.devices, e); }
    } else {
      FileRestores(hash, configured, s.file);
    }
  }

  lemma EnrolKeeps(hash: Hash, configured: seq<Device>, s: Roster, d: Device, saved: bool)
    requires Begun(hash, configured, s) && |s.devices| < CYCLE
    ensures Begun(hash, configured, Do(hash, configured, s, Enrol(d, saved)))
    ensures forall e :: Has(s.devices, e) ==> Has(AppendWithAID(hash, s.devices, d), e)
    ensures forall e :: e in AppendWithAID(hash, s.devices, d) ==>
      Has(s.devices, e) || e == PrepareOne(hash, s.devices, d)
  {
    var after := AppendWithAID(hash, s.devices, d);
    AppendKeepsOthers(hash, s.devices, d);
    forall e | e in s.devices ensures Has(after, e) && Has(s.devices, e) {
      assert e in after;
      HasMember(after, e);
      HasMember(s.devices, e);
    }
    forall e | Has(s.devices, e) ensures Has(after, e) { HasThrough(s.devices, after, e); }
    if saved {
      FileRestores(hash, configured, after);
    }
  }

  lemma ReorderKeeps(hash: Hash, configured: seq<Device>, s: Roster, from: seq<nat>)
    requires Begun(hash, configured, s) && Permutation(from, |s.devices|)
    ensures Begun(hash, configured, s.(devices := Reordered(s.devices, from)))
    ensures forall e :: Has(s.devices, e) <==> Has(Reordered(s.devices, from), e)
  {
    var after := Reordered(s.devices, from);
    forall e ensures e in s.devices <==> e in after {
      if e in s.devices {
        var k :| 0 <= k < |s.devices| && s.devices[k] == e;
        assert k in from;
        var i :| 0 <= i < |from| && from[i] == k;
        assert after[i] == e;
      }
    }
    forall e | e in s.devices ensures Has(s.devices, e) && Has(after, e) {
      HasMember(s.devices, e);
      HasMember(after, e);
    }
    forall e | Has(s.devices, e) ensures Has(after, e) { HasThrough(s.devices, after, e); }
    forall e | Has(after, e) ensures Has(s.devices, e) { HasThrough(after, s.devices, e); }
    ReorderSettled(s.devices, from);
  }

  lemma ReorderSettled(devices: seq<Device>, from: seq<nat>)
    requires Settled(devices) && Permutation(from, |devices|)
    ensures Settled(Reordered(devices, from))
  {
    var after := Reordered(devices, from);
    forall i, j | 0 <= i < j < |after| ensures after[i].aid != after[j].aid {
      assert from[i] < from[j] || from[j] < from[i];
    }
  }

  /** One change: the invariant stays, and the records are old ones or the one just enrolled. */
  lemma ChangeKeeps(hash: Hash, configured: seq<Device>, s: Roster, c: Change, e: Device)
    requires Begun(hash, configured, s)
    ensures Begun(hash, configured, Do(hash, configured, s, c))
    ensures e in Do(hash, configured, s, c).devices ==>
      Has(s.devices, e) || (c.Enrol? && |s.devices| < CYCLE && e == PrepareOne(hash, s.devices, c.device))
  {
    if !Possible(configured, s, c) {
      if e in s.devices { HasMember(s.devices, e); }
    } else {
      match c {
        case Enrol(d, saved) => EnrolKeeps(hash, configured, s, d, saved);
        case Reorder(from) =>
          ReorderKeeps(hash, configured, s, from);
          if e in Reordered(s.devices, from) { HasMember(Reordered(s.devices, from), e); }
        case Restart =>
          StartUpRestores(hash, configured, s.file);
          StartUpBegins(hash, configured, s.file);
      }
    }
  }

  /** The record entered the list through an enrolment of this run. */
  ghost predicate Enrolled(hash: Hash, configured: seq<Device>, start: Roster, changes: seq<Change>, e: Device)
    decreases |changes|
  {
    changes != [] &&
    var n := |changes| - 1;
    var before := After(hash, configured, start, changes[..n]).devices;
    || (changes[n].Enrol? && |before| < CYCLE && SameRecord(PrepareOne(hash, before, changes[n].device), e))
    || Enrolled(hash, configured, start, changes[..n], e)
  }

  lemma {:induction false} EnrolledSame(hash: Hash, configured: seq<Device>, start: Roster, changes: seq<Change>,
                                        d: Device, e: Device)
    requires SameRecord(d, e) && Enrolled(hash, configured, start, changes, d)
    ensures Enrolled(hash, configured, start, changes, e)
    decreases |changes|
  {
    var n := |changes| - 1;
    if Enrolled(hash, configured, start, changes[..n], d) {
      EnrolledSame(hash, configured, start, changes[..n], d, e);
    }
  }

  /**
   From any start, through any sequence of enrolments, saved or not, sorts and restarts,
   the AIDs stay distinct and at least 2, and every record of the result is, AID
   included, a record of the start or one this run enrolled: none was renumbered. The
   configured devices are there throughout, with the AIDs of the first start.
   */
  lemma {:induction false} AidsNeverChange(hash: Hash, configured: seq<Device>, start: Roster, changes: seq<Change>,
                                           e: Device)
    requires Begun(hash, configured, start)
    ensures Begun(hash, configured, After(hash, configured, start, changes))
    ensures e in After(hash, configured, start, changes).devices ==>
      Has(start.devices, e) || Enrolled(hash, configured, start, changes, e)
    decreases |changes|
  {
    if changes == [] {
      if e in start.devices { HasMember(start.devices, e); }
    } else {
      var n := |changes| - 1;
      var before, c := After(hash, configured, start, changes[..n]), changes[n];
      AidsNeverChange(hash, configured, start, changes[..n], e);
      ChangeKeeps(hash, configured, before, c, e);
      if e in After(hash, configured, start, changes).devices && Has(before.devices, e) {
        var i :| 0 <= i < |before.devices| && SameRecord(before.devices[i], e);
        AidsNeverChange(hash, configured, start, changes[..n], before.devices[i]);
        if Has(start.devices, before.devices[i]) {
          var k :| 0 <= k < |start.devices| && SameRecord(start.devices[k], before.devices[i]);
          HasAt(start.devices, k, e);
        } else {
          EnrolledSame(hash, configured, start, changes[..n], before.devices[i], e);
        }
      }
    }
  }

  // ------------------------------------------------- nothing is dropped either

  /** Enrolments add identities: nobody enrols a device the list already describes. */
  ghost predicate FreshEnrolments(hash: Hash, configured: seq<Device>, start: Roster, changes: seq<Change>)
    decreases |changes|
  {
    changes == [] ||
    var n := |changes| - 1;
    && FreshEnrolments(hash, configured, start, changes[..n])
    && (changes[n].Enrol? ==>
        Identified(Loaded(After(hash, configured, start, changes[..n]).devices + [changes[n].device])))
  }

  lemma SameIdentities(a: seq<Device>, b: seq<Device>)
    requires |a| == |b| && Identified(a)
    requires forall i :: 0 <= i < |a| ==> b[i].mac == a[i].mac && b[i].did == a[i].did
    ensures Identified(b)
  {
    forall i | 0 <= i < |b| ensures Keyed(b[i]) { assert Keyed(a[i]); }
    forall i, j | 0 <= i < j < |b| ensures !Shares(b[i], b[j]) { assert !Shares(a[i], a[j]); }
  }

  lemma IdentifiedReorder(devices: seq<Device>, from: seq<nat>)
    requires Permutation(from, |devices|) && Identified(Loaded(devices))
    ensures Identified(Loaded(Reordered(devices, from)))
  {
    var a, b := Loaded(devices), Loaded(Reordered(devices, from));
    forall i | 0 <= i < |b| ensures b[i] == a[from[i]] {}
    forall i, j | 0 <= i < j < |b| ensures !Shares(b[i], b[j]) {
      if from[i] < from[j] {
        assert !Shares(a[from[i]], a[from[j]]);
      } else {
        assert !Shares(a[from[j]], a[from[i]]);
      }
    }
  }

  /** A restart always gives one record per device, if the configuration does. */
  lemma RestoredIdentified(hash: Hash, configured: seq<Device>, file: seq<Device>)
    requires |configured| <= CYCLE && Configured(configured) && Identified(configured)
    ensures Identified(Loaded(Restored(hash, configured, file)))
  {
    var merged, all := SavedDevices(configured, Loaded(file)), Restored(hash, configured, file);
    var picks := MergePicks(configured, Loaded(file));
    MergeIsIdentified(configured, Loaded(file));
    forall i | 0 <= i < |all| ensures Loaded(all)[i].mac == merged[i].mac && Loaded(all)[i].did == merged[i].did {
      if i < |configured| {
        PreparedIdentity(hash, configured, i);
        assert merged[..|configured|][i] == configured[i];
      } else {
        assert merged[i] == Loaded(file)[picks[i - |configured|]];
        CanonicalTwice(file[picks[i - |configured|]]);
      }
    }
    SameIdentities(merged, Loaded(all));
  }

  lemma SharesItself(d: Device)
    requires Keyed(d)
    ensures Shares(d, d)
  {
  }

  lemma OthersUnshared(devices: seq<Device>, k: nat, j: nat)
    requires Identified(devices) && k < |devices| && j < |devices| && k != j
    ensures !Shares(devices[k], devices[j])
  {
    assert if k < j then !Shares(devices[k], devices[j]) else !Shares(devices[j], devices[k]);
  }

  lemma SharesAlike(c: Device, d: Device, e: Device)
    requires c.mac == d.mac && c.did == d.did
    ensures Shares(c, e) <==> Shares(d, e)
  {
  }

  /** With distinct identities a configured entry is recognised in its own record alone. */
  lemma {:induction false} OtherIsUnshared(hash: Hash, configured: seq<Device>, file: seq<Device>, i: nat, j: nat)
    requires i < |configured| <= CYCLE && Configured(configured) && j < |file|
    requires Contains(file, Prepare(hash, configured)) && Identified(Loaded(file))
    requires file[j] != Prepare(hash, configured)[i]
    ensures !Shares(configured[i], Loaded(file)[j])
  {
    var own := Prepare(hash, configured)[i];
    assert own in file;
    var k :| 0 <= k < |file| && file[k] == own;
    PreparedIdentity(hash, configured, i);
    SharesAlike(configured[i], Canonical(own), Loaded(file)[j]);
    OthersUnshared(Loaded(file), k, j);
  }

  /** What the merge keeps of the file is restored. */
  lemma {:induction false} KeptIsRestored(hash: Hash, configured: seq<Device>, file: seq<Device>, j: nat)
    requires |configured| <= CYCLE && Configured(configured) && j < |file| && Identified(Loaded(file))
    requires Unshared(configured, Loaded(file)[j])
    ensures Loaded(file)[j] in Restored(hash, configured, file)
  {
    var d := Loaded(file)[j];
    forall k | 0 <= k < j ensures !Shares(Loaded(file)[k], d) { OthersUnshared(Loaded(file), k, j); }
    UnsharedIsKept(configured, Loaded(file), j);
    var picks := MergePicks(configured, Loaded(file));
    RestoredParts(hash, configured, file, picks);
    if d in configured {
      SharesItself(d);
    }
  }

  /** A file of distinct identities that holds the prepared configured devices restores all its records. */
  lemma {:induction false} FileLosesNothing(hash: Hash, configured: seq<Device>, file: seq<Device>, d: Device)
    requires |configured| <= CYCLE && Configured(configured)
    requires Contains(file, Prepare(hash, configured)) && Identified(Loaded(file)) && Has(file, d)
    ensures Has(Restored(hash, configured, file), d)
  {
    var j :| 0 <= j < |file| && SameRecord(file[j], d);
    var prepared, all := Prepare(hash, configured), Restored(hash, configured, file);
    if file[j] in prepared {
      var i :| 0 <= i < |prepared| && prepared[i] == file[j];
      HasAt(all, i, d);
    } else {
      forall i | 0 <= i < |configured| ensures !Shares(configured[i], Loaded(file)[j]) {
        OtherIsUnshared(hash, configured, file, i, j);
      }
      KeptIsRestored(hash, configured, file, j);
      var t :| 0 <= t < |all| && all[t] == Loaded(file)[j];
      CanonicalTwice(file[j]);
      HasAt(all, t, d);
    }
  }

  /** Identities are distinct, and a restart would bring this device back. */
  ghost predicate Keeps(hash: Hash, configured: seq<Device>, s: Roster, d: Device) {
    && Begun(hash, configured, s) && Identified(configured) && Identified(Loaded(s.devices))
    && Has(Restored(hash, configured, s.file), d)
  }

  lemma EnrolDropsNothing(hash: Hash, configured: seq<Device>, s: Roster, c: Device, saved: bool, d: Device)
    requires Keeps(hash, configured, s, d) && |s.devices| < CYCLE && Identified(Loaded(s.devices + [c]))
    ensures Keeps(hash, configured, Do(hash, configured, s, Enrol(c, saved)), d)
  {
    var after := AppendWithAID(hash, s.devices, c);
    EnrolKeeps(hash, configured, s, c, saved);
    AppendKeepsOthers(hash, s.devices, c);
    SameIdentities(Loaded(s.devices + [c]), Loaded(after));
    if saved {
      HasThrough(Restored(hash, configured, s.file), s.devices, d);
      FileLosesNothing(hash, configured, after, d);
    }
  }

  lemma {:induction false} RestartDropsNothing(hash: Hash, configured: seq<Device>, s: Roster, d: Device)
    requires Keeps(hash, configured, s, d) && |configured| + |s.file| <= CYCLE
    ensures Keeps(hash, configured, StartUp(hash, configured, s.file), d)
  {
    var after := StartUp(hash, configured, s.file);
    StartUpRestores(hash, configured, s.file);
    StartUpBegins(hash, configured, s.file);
    RestoredIdentified(hash, configured, s.file);
    if after.file == after.devices {
      FileLosesNothing(hash, configured, after.file, d);
    }
  }

  lemma ChangeDropsNothing(hash: Hash, configured: seq<Device>, s: Roster, c: Change, d: Device)
    requires Keeps(hash, configured, s, d) && (c.Enrol? ==> Identified(Loaded(s.devices + [c.device])))
    ensures Keeps(hash, configured, Do(hash, configured, s, c), d)
  {
    if Possible(configured, s, c) {
      match c {
        case Enrol(enrolled, saved) => EnrolDropsNothing(hash, configured, s, enrolled, saved, d);
        case Reorder(from) =>
          IdentifiedReorder(s.devices, from);
          ReorderKeeps(hash, configured, s, from);
        case Restart => RestartDropsNothing(hash, configured, s, d);
      }
    }
  }

  /**
   When identities are distinct, a device on file is always in the list and always comes
   back from the file, with its AID, even if saves fail later.
   */
  lemma {:induction false} NoDeviceIsLost(hash: Hash, configured: seq<Device>, start: Roster, changes: seq<Change>,
                                          d: Device)
    requires Keeps(hash, configured, start, d) && FreshEnrolments(hash, configured, start, changes)
    ensures var after := After(hash, configured, start, changes);
      Keeps(hash, configured, after, d) && Has(after.devices, d)
    decreases |changes|
  {
    var after := After(hash, configured, start, changes);
    if changes == [] {
    } else {
      var n := |changes| - 1;
      NoDeviceIsLost(hash, configured, start, changes[..n], d);
      ChangeDropsNothing(hash, configured, After(hash, configured, start, changes[..n]), changes[n], d);
    }
    HasThrough(Restored(hash, configured, after.file), after.devices, d);
  }

  /** And right after a start every device of the list would come back from the file. */
  lemma StartUpKeepsAll(hash: Hash, configured: seq<Device>, file: seq<Device>, d: Device)
    requires |configured| + |file| <= CYCLE && Configured(configured) && Identified(configured)
    requires d in StartUp(hash, configured, file).devices
    ensures Keeps(hash, configured, StartUp(hash, configured, file), d)
  {
    var s := StartUp(hash, configured, file);
    var merged := SavedDevices(configured, Loaded(file));
    var picks := MergePicks(configured, Loaded(file));
    MergeSize(configured, Loaded(file));
    StartUpBegins(hash, configured, file);
    MergeIsIdentified(configured, Loaded(file));
    forall i | 0 <= i < |merged|
      ensures Loaded(s.devices)[i].mac == merged[i].mac && Loaded(s.devices)[i].did == merged[i].did
    {
      PreparedIdentity(hash, merged, i);
      MergedCanonical(configured, file, picks, i);
    }
    SameIdentities(merged, Loaded(s.devices));
    HasMember(s.devices, d);
    if s.file == s.devices {
      FileLosesNothing(hash, configured, s.file, d);
    }
  }

  lemma MergedCanonical(configured: seq<Device>, file: seq<Device>, picks: seq<nat>, i: nat)
    requires Configured(configured) && Picks(configured, Loaded(file), picks)
    requires i < |SavedDevices(configured, Loaded(file))|
    ensures Canonical(SavedDevices(configured, Loaded(file))[i]) == SavedDevices(configured, Loaded(file))[i]
  {
    var merged := SavedDevices(configured, Loaded(file));
    if i < |configured| {
      assert merged[..|configured|][i] == configured[i];
    } else {
      assert merged[|configured| + (i - |configured|)] == Loaded(file)[picks[i - |configured|]];
      CanonicalTwice(file[picks[i - |configured|]]);
    }
  }
}
