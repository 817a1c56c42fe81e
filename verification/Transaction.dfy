/**
 All-or-nothing: what an installation leaves behind, whatever fails and wherever.
 Operations on one destination touch only its own path and its backup path, so the
 proofs follow one destination at a time.
 */
module Transaction {
  import opened Base
  import opened Installer

  // ---------------------------------------------------- paths stay apart

  lemma DestinationsEndInLetters(path: string)
    requires AllowedDestination(path)
    ensures path != "" && path[|path| - 1] != 'l'
  {
  }

  /** A backup path is never a destination. */
  lemma BackupIsNoDestination(path: string)
    ensures !AllowedDestination(BackupOf(path))
  {
    assert BackupOf(path)[|BackupOf(path)| - 1] == SUFFIX[|SUFFIX| - 1] == 'l';
    if AllowedDestination(BackupOf(path)) {
      DestinationsEndInLetters(BackupOf(path));
    }
  }

  lemma BackupInjective(p: string, q: string)
    ensures BackupOf(p) == BackupOf(q) <==> p == q
  {
    assert BackupOf(p)[..|BackupOf(p)| - |SUFFIX|] == p;
    assert BackupOf(q)[..|BackupOf(q)| - |SUFFIX|] == q;
  }

  /** Two different destinations share neither path nor backup path. */
  predicate Apart(d: string, other: string) {
    d != other && d != BackupOf(other) && BackupOf(d) != other && BackupOf(d) != BackupOf(other)
  }

  lemma ApartFrom(d: string, other: string)
    requires AllowedDestination(d) && AllowedDestination(other) && d != other
    ensures Apart(d, other)
  {
    BackupIsNoDestination(d);
    BackupIsNoDestination(other);
    BackupInjective(d, other);
  }

  // --------------------------------------------------- one path, one map

  /** A path in two maps: absent from both, or there with the same content. */
  predicate SameAt(a: Files, b: Files, p: string) {
    (p in a <==> p in b) && (p in a ==> a[p].content == b[p].content)
  }

  /** The same including the mode. */
  predicate EqualAt(a: Files, b: Files, p: string) {
    (p in a <==> p in b) && (p in a ==> a[p] == b[p])
  }

  ghost predicate SameContents(a: Files, b: Files) {
    forall p :: SameAt(a, b, p)
  }

  // ----------------------------------------- the life of one destination

  /** The recorded changes of one destination: whether each had a backup. */
  function Recorded(changes: seq<Change>, d: string): seq<bool> {
    if changes == [] then []
    else
      var last := changes[|changes| - 1];
      Recorded(changes[..|changes| - 1], d) + (if last.destination == d then [last.hadBackup] else [])
  }

  /**
   Where a destination stands against the files before the installation: untouched,
   replaced with a backup, created, or created and then replaced again.
   */
  ghost predicate Stands(before: Files, s: Install, d: string) {
    var r, b := Recorded(s.changes, d), BackupOf(d);
    || (r == [] && SameAt(before, s.files, d) && EqualAt(before, s.files, b))
    || (r == [true] && d in before && b !in before && b in s.files && s.files[b].content == before[d].content)
    || (r == [false] && d !in before && b !in before && b !in s.files && (d in s.files || s.failed))
    || (r == [false, true] && d !in before && b !in before && b in s.files)
  }

  ghost predicate AllAllowed(changes: seq<Change>) {
    forall c :: c in changes ==> AllowedDestination(c.destination)
  }

  lemma RecordedSnoc(changes: seq<Change>, c: Change, d: string)
    ensures Recorded(changes + [c], d) == Recorded(changes, d) + if c.destination == d then [c.hadBackup] else []
  {
    assert (changes + [c])[..|changes|] == changes;
  }

  lemma KeepOther(s: Install, e: Entry, c: Commands, d: string)
    requires Apart(d, e.destination)
    ensures EqualAt(s.files, KeepEntry(s, e, c).files, d) && EqualAt(s.files, KeepEntry(s, e, c).files, BackupOf(d))
  {
  }

  lemma ReplaceOther(s: Install, e: Entry, c: Commands, d: string)
    requires Apart(d, e.destination)
    ensures EqualAt(s.files, ReplaceEntry(s, e, c).files, d)
    ensures EqualAt(s.files, ReplaceEntry(s, e, c).files, BackupOf(d))
    ensures Recorded(ReplaceEntry(s, e, c).changes, d) == Recorded(s.changes, d)
  {
    RecordedSnoc(s.changes, Change(e.destination, e.destination in s.files), d);
  }

  /** An entry for another destination leaves this one, its backup and its record alone. */
  lemma OtherEntry(digests: Digests, s: Install, e: Entry, c: Commands, d: string)
    requires Apart(d, e.destination)
    ensures var after := InstallEntry(digests, s, e, c);
      && EqualAt(s.files, after.files, d) && EqualAt(s.files, after.files, BackupOf(d))
      && Recorded(after.changes, d) == Recorded(s.changes, d)
  {
    if e.sha256 == "" {
    } else if e.destination in s.files && digests.md5(s.files[e.destination].content) == e.md5 {
      KeepOther(s, e, c, d);
    } else if BackupOf(e.destination) !in s.files {
      ReplaceOther(s, e, c, d);
    }
  }

  lemma KeptStands(before: Files, s: Install, e: Entry, c: Commands)
    requires BackupOf(e.destination) != e.destination
    requires Stands(before, s, e.destination) && e.destination in s.files
    ensures Stands(before, KeepEntry(s, e, c), e.destination)
  {
  }

  lemma ReplacedStands(before: Files, s: Install, e: Entry, c: Commands)
    requires BackupOf(e.destination) != e.destination
    requires Stands(before, s, e.destination) && BackupOf(e.destination) !in s.files && !s.failed
    ensures Stands(before, ReplaceEntry(s, e, c), e.destination)
  {
    RecordedSnoc(s.changes, Change(e.destination, e.destination in s.files), e.destination);
  }

  /** Its own entry moves it along, whatever fails on the way. */
  lemma OwnEntry(digests: Digests, before: Files, s: Install, e: Entry, c: Commands)
    requires BackupOf(e.destination) != e.destination
    requires Stands(before, s, e.destination) && e.sha256 != "" && !s.failed
    ensures Stands(before, InstallEntry(digests, s, e, c), e.destination)
  {
    if e.destination in s.files && digests.md5(s.files[e.destination].content) == e.md5 {
      KeptStands(before, s, e, c);
    } else if BackupOf(e.destination) !in s.files {
      ReplacedStands(before, s, e, c);
    }
  }

  lemma EntryStands(digests: Digests, before: Files, s: Install, e: Entry, c: Commands, d: string)
    requires AllowedDestination(d) && (e.sha256 != "" ==> AllowedDestination(e.destination))
    requires Stands(before, s, d) && !s.failed
    ensures Stands(before, InstallEntry(digests, s, e, c), d)
  {
    if e.sha256 != "" {
      if e.destination == d {
        BackupIsNoDestination(d);
        OwnEntry(digests, before, s, e, c);
      } else {
        ApartFrom(d, e.destination);
        OtherEntry(digests, s, e, c, d);
      }
    }
  }

  /** Every non-blank line names an allowed destination: the verification loop has seen to that. */
  ghost predicate AllowedManifest(manifest: seq<Entry>) {
    forall e :: e in manifest && e.sha256 != "" ==> AllowedDestination(e.destination)
  }

  lemma {:induction false} LoopStands(digests: Digests, before: Files, s: Install,
                                      manifest: seq<Entry>, commands: seq<Commands>, d: string)
    requires |commands| == |manifest| && AllowedManifest(manifest) && AllowedDestination(d)
    requires Stands(before, s, d) && AllAllowed(s.changes)
    ensures Stands(before, InstallAll(digests, s, manifest, commands), d)
    ensures AllAllowed(InstallAll(digests, s, manifest, commands).changes)
    decreases |manifest|
  {
    if manifest == [] || s.failed {
    } else {
      assert manifest[0] in manifest;
      EntryStands(digests, before, s, manifest[0], commands[0], d);
      LoopStands(digests, before, InstallEntry(digests, s, manifest[0], commands[0]), manifest[1..], commands[1..], d);
    }
  }

  /** Paths that are neither destinations nor backups of destinations are never touched. */
  ghost predicate Outside(p: string) {
    !AllowedDestination(p) && forall d :: AllowedDestination(d) ==> p != BackupOf(d)
  }

  lemma {:induction false} LoopLeavesOutside(digests: Digests, s: Install, manifest: seq<Entry>,
          commands: seq<Commands>, p: string)
    requires |commands| == |manifest| && AllowedManifest(manifest) && Outside(p)
    ensures EqualAt(s.files, InstallAll(digests, s, manifest, commands).files, p)
    decreases |manifest|
  {
    if manifest == [] || s.failed {
    } else {
      assert manifest[0] in manifest;
      LoopLeavesOutside(digests, InstallEntry(digests, s, manifest[0], commands[0]), manifest[1..], commands[1..], p);
    }
  }

  /** No non-blank line names this path. */
  ghost predicate NoLineFor(manifest: seq<Entry>, d: string) {
    forall e :: e in manifest && e.sha256 != "" ==> e.destination != d
  }

  lemma OwnAllowed(digests: Digests, s: Install, e: Entry, c: Commands)
    requires AllowedDestination(e.destination) && AllAllowed(s.changes)
    ensures AllAllowed(InstallEntry(digests, s, e, c).changes)
  {
  }

  /** Lines for other destinations leave this one, its backup and its record alone. */
  lemma {:induction false} OtherLines(digests: Digests, s: Install, manifest: seq<Entry>, commands: seq<Commands>,
                                      d: string)
    requires |commands| == |manifest| && AllowedManifest(manifest) && AllowedDestination(d) && NoLineFor(manifest, d)
    requires AllAllowed(s.changes)
    ensures var after := InstallAll(digests, s, manifest, commands);
      && ViewEqual(after.files, s.files, d) && Recorded(after.changes, d) == Recorded(s.changes, d)
      && AllAllowed(after.changes)
    decreases |manifest|
  {
    if manifest == [] || s.failed {
    } else {
      var e := manifest[0];
      assert e in manifest;
      if e.sha256 != "" {
        ApartFrom(d, e.destination);
        OtherEntry(digests, s, e, commands[0], d);
        OwnAllowed(digests, s, e, commands[0]);
      }
      OtherLines(digests, InstallEntry(digests, s, e, commands[0]), manifest[1..], commands[1..], d);
    }
  }

  // ----------------------------------------------------------- rollback

  /** Undoing a list of changes seen from one destination. */
  function UndoAt(files: Files, d: string, recorded: seq<bool>): Files
    decreases |recorded|
  {
    if recorded == [] then files else UndoAt(UndoOne(files, Change(d, recorded[0])), d, recorded[1..])
  }

  predicate ViewEqual(a: Files, b: Files, d: string) {
    EqualAt(a, b, d) && EqualAt(a, b, BackupOf(d))
  }

  lemma UndoOther(a: Files, b: Files, c: Change, d: string)
    requires Apart(d, c.destination) && ViewEqual(a, b, d)
    ensures ViewEqual(UndoOne(a, c), b, d)
  {
  }

  lemma UndoOwn(a: Files, b: Files, c: Change)
    requires BackupOf(c.destination) != c.destination && ViewEqual(a, b, c.destination)
    ensures ViewEqual(UndoOne(a, c), UndoOne(b, c), c.destination)
  {
  }

  lemma {:induction false} RecordedCons(c: Change, changes: seq<Change>, d: string)
    ensures Recorded([c] + changes, d) == (if c.destination == d then [c.hadBackup] else []) + Recorded(changes, d)
  {
    var all := [c] + changes;
    if changes == [] {
      assert all[..0] == [];
    } else {
      RecordedCons(c, changes[..|changes| - 1], d);
      assert all[..|all| - 1] == [c] + changes[..|changes| - 1];
    }
  }

  /** Seen from one destination, the whole rollback undoes just its own changes. */
  lemma {:induction false} RollbackView(a: Files, b: Files, changes: seq<Change>, d: string)
    requires AllowedDestination(d) && AllAllowed(changes) && ViewEqual(a, b, d)
    ensures ViewEqual(Rollback(a, changes), UndoAt(b, d, Recorded(changes, d)), d)
    decreases |changes|
  {
    if changes == [] {
    } else {
      var c, r := changes[0], Recorded(changes[1..], d);
      assert c in changes;
      RecordedCons(c, changes[1..], d);
      assert [c] + changes[1..] == changes;
      if c.destination == d {
        BackupIsNoDestination(d);
        UndoOwn(a, b, c);
        assert ([c.hadBackup] + r)[1..] == r;
        RollbackView(UndoOne(a, c), UndoOne(b, c), changes[1..], d);
      } else {
        ApartFrom(d, c.destination);
        UndoOther(a, b, c, d);
        assert [] + r == r;
        RollbackView(UndoOne(a, c), b, changes[1..], d);
      }
    }
  }

  lemma UndoRecorded(before: Files, s: Install, d: string)
    requires BackupOf(d) != d && Stands(before, s, d)
    ensures var r := Recorded(s.changes, d);
      var after := UndoAt(s.files, d, r);
      SameAt(before, after, d) && SameAt(before, after, BackupOf(d)) <==> |r| <= 1
  {
    var r := Recorded(s.changes, d);
    if r == [false, true] {
      var first := UndoOne(s.files, Change(d, false));
      assert r[1..] == [true] && [true][1..] == [];
      assert UndoAt(s.files, d, r) == UndoAt(first, d, [true]) == UndoOne(first, Change(d, true));
    } else if r != [] {
      assert r[1..] == [];
      assert UndoAt(s.files, d, r) == UndoOne(s.files, Change(d, r[0]));
    }
  }

  /** The rollback restores a destination iff it was not recorded twice. */
  lemma UndoRestoresIff(before: Files, s: Install, d: string)
    requires AllowedDestination(d) && Stands(before, s, d) && AllAllowed(s.changes)
    ensures var after := Rollback(s.files, s.changes);
      SameAt(before, after, d) && SameAt(before, after, BackupOf(d)) <==> |Recorded(s.changes, d)| <= 1
  {
    BackupIsNoDestination(d);
    RollbackView(s.files, s.files, s.changes, d);
    UndoRecorded(before, s, d);
  }

  lemma {:induction false} RollbackLeavesOutside(files: Files, changes: seq<Change>, p: string)
    requires AllAllowed(changes) && Outside(p)
    ensures EqualAt(files, Rollback(files, changes), p)
    decreases |changes|
  {
    if changes == [] {
    } else {
      assert changes[0] in changes;
      RollbackLeavesOutside(UndoOne(files, changes[0]), changes[1..], p);
    }
  }

  /** No destination was changed twice. */
  ghost predicate ChangedOnce(changes: seq<Change>) {
    forall d :: AllowedDestination(d) ==> |Recorded(changes, d)| <= 1
  }

  /**
   For every manifest, every failure and every starting map, undoing the recorded
   changes restores every file iff no destination was recorded twice.
   */
  lemma RollbackRestoresIff(digests: Digests, before: Files, staged: Files, manifest: seq<Entry>,
          commands: seq<Commands>)
    requires |commands| == |manifest| && AllowedManifest(manifest)
    ensures var s := InstallAll(digests, Install(before, staged, [], false), manifest, commands);
      SameContents(before, Rollback(s.files, s.changes)) <==> ChangedOnce(s.changes)
  {
    var start := Install(before, staged, [], false);
    var s := InstallAll(digests, start, manifest, commands);
    var after := Rollback(s.files, s.changes);
    LoopStands(digests, before, start, manifest, commands, STARTUP);
    forall d | AllowedDestination(d)
      ensures SameAt(before, after, d) && SameAt(before, after, BackupOf(d)) <==> |Recorded(s.changes, d)| <= 1
    {
      LoopStands(digests, before, start, manifest, commands, d);
      UndoRestoresIff(before, s, d);
    }
    forall p | Outside(p) ensures SameAt(before, after, p) {
      LoopLeavesOutside(digests, start, manifest, commands, p);
      RollbackLeavesOutside(s.files, s.changes, p);
    }
    if ChangedOnce(s.changes) {
      forall p ensures SameAt(before, after, p) {
        if !Outside(p) && !AllowedDestination(p) {
          var d :| AllowedDestination(d) && p == BackupOf(d);
          assert SameAt(before, after, BackupOf(d));
        }
      }
    }
  }

  // -------------------------------------------------------- manifests

  /** No two non-blank lines share a destination. */
  ghost predicate DistinctDestinations(manifest: seq<Entry>) {
    forall i, j :: 0 <= i < j < |manifest| && manifest[i].sha256 != "" && manifest[j].sha256 != "" ==>
      manifest[i].destination != manifest[j].destination
  }

  predicate SameDigests(e: Entry, f: Entry) {
    e.sha256 == f.sha256 && e.md5 == f.md5
  }

  /** Line i is not blank, and the first with its artifact name. */
  ghost predicate FirstOfName(manifest: seq<Entry>, i: nat) {
    && i < |manifest| && manifest[i].sha256 != ""
    && forall k :: 0 <= k < i && manifest[k].sha256 != "" ==> manifest[k].name != manifest[i].name
  }

  /** Line i is not blank, and the last with its artifact name. */
  ghost predicate LastOfName(manifest: seq<Entry>, i: nat) {
    && i < |manifest| && manifest[i].sha256 != ""
    && forall k :: i < k < |manifest| && manifest[k].sha256 != "" ==> manifest[k].name != manifest[i].name
  }

  /** The first and the last line of every artifact name ask for the same content. */
  ghost predicate EndsAgree(manifest: seq<Entry>) {
    forall i: nat, j: nat ::
      FirstOfName(manifest, i) && LastOfName(manifest, j) && manifest[i].name == manifest[j].name ==>
        SameDigests(manifest[i], manifest[j])
  }

  lemma {:induction false} LastExists(manifest: seq<Entry>, i: nat) returns (j: nat)
    requires i < |manifest| && manifest[i].sha256 != ""
    ensures LastOfName(manifest, j) && manifest[j].name == manifest[i].name
    decreases |manifest| - i
  {
    if LastOfName(manifest, i) {
      j := i;
    } else {
      var k :| i < k < |manifest| && manifest[k].sha256 != "" && manifest[k].name == manifest[i].name;
      j := LastExists(manifest, k);
    }
  }

  /** The loop over a manifest is the loop over its first lines, then over the others. */
  lemma {:induction false} InstallSplit(digests: Digests, s: Install, manifest: seq<Entry>, commands: seq<Commands>,
                                        i: nat)
    requires |commands| == |manifest| && i <= |manifest|
    ensures InstallAll(digests, s, manifest, commands) ==
      InstallAll(digests, InstallAll(digests, s, manifest[..i], commands[..i]), manifest[i..], commands[i..])
    decreases i
  {
    if i == 0 {
      assert manifest[0..] == manifest && commands[0..] == commands;
    } else if !s.failed {
      InstallSplit(digests, InstallEntry(digests, s, manifest[0], commands[0]), manifest[1..], commands[1..], i - 1);
      assert manifest[1..][..i - 1] == manifest[..i][1..] && commands[1..][..i - 1] == commands[..i][1..];
      assert manifest[1..][i - 1..] == manifest[i..] && commands[1..][i - 1..] == commands[i..];
    }
  }

  lemma {:induction false} NoMoreRecords(digests: Digests, s: Install, manifest: seq<Entry>,
          commands: seq<Commands>, d: string)
    requires |commands| == |manifest|
    requires forall e :: e in manifest && e.sha256 != "" ==> e.destination != d
    ensures Recorded(InstallAll(digests, s, manifest, commands).changes, d) == Recorded(s.changes, d)
    decreases |manifest|
  {
    if manifest == [] || s.failed {
    } else {
      var e := manifest[0];
      assert e in manifest;
      RecordedSnoc(s.changes, Change(e.destination, e.destination in s.files), d);
      NoMoreRecords(digests, InstallEntry(digests, s, e, commands[0]), manifest[1..], commands[1..], d);
    }
  }

  lemma {:induction false} DistinctMeansOnce(digests: Digests, s: Install, manifest: seq<Entry>,
          commands: seq<Commands>, d: string)
    requires |commands| == |manifest| && DistinctDestinations(manifest)
    requires Recorded(s.changes, d) == []
    ensures |Recorded(InstallAll(digests, s, manifest, commands).changes, d)| <= 1
    decreases |manifest|
  {
    if manifest == [] || s.failed {
    } else {
      var e, rest := manifest[0], manifest[1..];
      var next := InstallEntry(digests, s, e, commands[0]);
      RecordedSnoc(s.changes, Change(e.destination, e.destination in s.files), d);
      assert forall i :: 0 <= i < |rest| ==> rest[i] == manifest[i + 1];
      if e.sha256 != "" && e.destination == d {
        NoMoreRecords(digests, next, rest, commands[1..], d);
      } else {
        DistinctMeansOnce(digests, next, rest, commands[1..], d);
      }
    }
  }

  // ------------------------------------------------------ what was verified

  /** Every line passes, its artifact included. */
  ghost predicate EveryLinePasses(digests: Digests, manifest: seq<Entry>, downloads: seq<Option<File>>)
    requires |downloads| == |manifest|
  {
    forall i :: 0 <= i < |manifest| ==> VerifyStatus(digests, manifest[i], downloads[i]) == 0
  }

  lemma PassesCons(digests: Digests, manifest: seq<Entry>, downloads: seq<Option<File>>)
    requires |downloads| == |manifest| && manifest != []
    ensures EveryLinePasses(digests, manifest, downloads) <==>
      VerifyStatus(digests, manifest[0], downloads[0]) == 0 && EveryLinePasses(digests, manifest[1..], downloads[1..])
  {
    var rest, later := manifest[1..], downloads[1..];
    if EveryLinePasses(digests, manifest, downloads) {
      forall i | 0 <= i < |rest| ensures VerifyStatus(digests, rest[i], later[i]) == 0 {
        assert rest[i] == manifest[i + 1] && later[i] == downloads[i + 1];
      }
    }
    if VerifyStatus(digests, manifest[0], downloads[0]) == 0 && EveryLinePasses(digests, rest, later) {
      forall i | 0 <= i < |manifest| ensures VerifyStatus(digests, manifest[i], downloads[i]) == 0 {
        assert i > 0 ==> manifest[i] == rest[i - 1] && downloads[i] == later[i - 1];
      }
    }
  }

  /** The verification loop reports 0 iff every line passes, and a status of its own otherwise. */
  lemma {:induction false} VerifiedIff(digests: Digests, staged: Files, manifest: seq<Entry>,
                                       downloads: seq<Option<File>>)
    requires |downloads| == |manifest|
    ensures var status := VerifyAll(digests, staged, manifest, downloads).status;
      && (status == 0 <==> EveryLinePasses(digests, manifest, downloads))
      && (status != 0 ==> 13 <= status <= 18)
    decreases |manifest|
  {
    if manifest == [] {
    } else {
      PassesCons(digests, manifest, downloads);
      VerifiedIff(digests, Stage(staged, manifest[0], downloads[0]), manifest[1..], downloads[1..]);
    }
  }

  lemma {:induction false} StagedKeeps(digests: Digests, staged: Files, manifest: seq<Entry>,
          downloads: seq<Option<File>>, name: string)
    requires |downloads| == |manifest| && VerifyAll(digests, staged, manifest, downloads).status == 0
    requires forall f :: f in manifest && f.sha256 != "" ==> f.name != name
    ensures EqualAt(staged, VerifyAll(digests, staged, manifest, downloads).staged, name)
    decreases |manifest|
  {
    if manifest == [] {
    } else {
      assert manifest[0] in manifest;
      StagedKeeps(digests, Stage(staged, manifest[0], downloads[0]), manifest[1..], downloads[1..], name);
    }
  }

  /** The install loop starts with every artifact staged: the one verified for the last line of its name. */
  lemma {:induction false} AllStaged(digests: Digests, staged: Files, manifest: seq<Entry>,
          downloads: seq<Option<File>>, j: nat)
    requires |downloads| == |manifest| && LastOfName(manifest, j)
    requires VerifyAll(digests, staged, manifest, downloads).status == 0
    ensures var v := VerifyAll(digests, staged, manifest, downloads).staged;
      && manifest[j].name in v && downloads[j] == Some(v[manifest[j].name])
      && VerifyFile(digests, v[manifest[j].name].content, manifest[j])
    decreases |manifest|
  {
    var next, rest := Stage(staged, manifest[0], downloads[0]), manifest[1..];
    assert forall k :: 0 <= k < |rest| ==> rest[k] == manifest[k + 1];
    if j == 0 {
      StagedKeeps(digests, next, rest, downloads[1..], manifest[0].name);
    } else {
      AllStaged(digests, next, rest, downloads[1..], j - 1);
    }
  }

  lemma ReachedMeansVerified(env: Environment, files: Files)
    requires env.Valid() && CheckStatus(env, files) == 0
    ensures AllowedManifest(env.manifest)
  {
    VerifiedIff(env.digests, map[], env.manifest, env.downloads);
    forall e | e in env.manifest && e.sha256 != "" ensures AllowedDestination(e.destination) {
      var i :| 0 <= i < |env.manifest| && env.manifest[i] == e;
      assert VerifyStatus(env.digests, env.manifest[i], env.downloads[i]) == 0;
    }
  }

  // ----------------------------------------------------------- the theorems

  /**
   Every failing exit of an installation with distinct destinations leaves every
   path of the device with exactly its earlier content, or absent as before.
   */
  lemma FailureRestoresEverything(env: Environment, files: Files)
    requires env.Valid() && DistinctDestinations(env.manifest) && Run(env, files).status != 0
    ensures SameContents(files, Run(env, files).files)
  {
    if CheckStatus(env, files) == 0 {
      ReachedMeansVerified(env, files);
      RollbackRestoresIff(env.digests, files, Begin(env, files).staged, env.manifest, env.commands);
      forall d | AllowedDestination(d) ensures |Recorded(Loop(env, files).changes, d)| <= 1 {
        DistinctMeansOnce(env.digests, Begin(env, files), env.manifest, env.commands, d);
      }
    } else {
      assert SameContents(files, files);
    }
  }

  /** Some check before the install loop fails. */
  ghost predicate ChecksFail(env: Environment, files: Files)
    requires env.Valid()
  {
    || env.precheck != 0 || !EveryLinePasses(env.digests, env.manifest, env.downloads)
    || StartupMd5(env.manifest) == ""
    || (STARTUP in files && !KnownStartup(env.digests.md5(files[STARTUP].content), StartupMd5(env.manifest)))
    || !env.stopped
  }

  lemma ChecksPassIff(env: Environment, files: Files)
    requires env.Valid()
    ensures CheckStatus(env, files) == 0 <==> !ChecksFail(env, files)
    ensures CheckStatus(env, files) !in {30, 40, 41}
  {
    VerifiedIff(env.digests, map[], env.manifest, env.downloads);
  }

  /** The exits other than 0, 30, 40 and 41 are exactly the failed checks, and those have not even changed a mode. */
  lemma EarlyFailureTouchesNothing(env: Environment, files: Files)
    requires env.Valid()
    ensures Run(env, files).status !in {0, 30, 40, 41} <==> ChecksFail(env, files)
    ensures ChecksFail(env, files) ==> Run(env, files).files == files
  {
    ChecksPassIff(env, files);
  }

  /** The destination holds what this line asks for: its digest and its mode. */
  predicate Installed(digests: Digests, files: Files, e: Entry) {
    && e.destination in files
    && files[e.destination].mode == e.mode
    && (VerifyFile(digests, files[e.destination].content, e) || digests.md5(files[e.destination].content) == e.md5)
  }

  lemma {:induction false} LaterEntriesKeep(digests: Digests, s: Install, manifest: seq<Entry>,
          commands: seq<Commands>, e: Entry)
    requires |commands| == |manifest| && AllowedManifest(manifest) && AllowedDestination(e.destination)
    requires forall f :: f in manifest && f.sha256 != "" ==> f.destination != e.destination
    requires Installed(digests, s.files, e)
    ensures Installed(digests, InstallAll(digests, s, manifest, commands).files, e)
    decreases |manifest|
  {
    if manifest == [] || s.failed {
    } else {
      assert manifest[0] in manifest;
      if manifest[0].sha256 != "" {
        ApartFrom(e.destination, manifest[0].destination);
        OtherEntry(digests, s, manifest[0], commands[0], e.destination);
      }
      LaterEntriesKeep(digests, InstallEntry(digests, s, manifest[0], commands[0]), manifest[1..], commands[1..], e);
    }
  }

  lemma EntryInstalls(digests: Digests, s: Install, e: Entry, c: Commands)
    requires AllowedDestination(e.destination) && e.sha256 != ""
    requires e.name in s.staged ==> VerifyFile(digests, s.staged[e.name].content, e)
    requires !InstallEntry(digests, s, e, c).failed
    ensures Installed(digests, InstallEntry(digests, s, e, c).files, e)
  {
  }

  /** A line that succeeds takes the artifact of its name, and no other. */
  lemma EntryTakesName(digests: Digests, s: Install, e: Entry, c: Commands)
    requires !InstallEntry(digests, s, e, c).failed && e.sha256 != ""
    ensures InstallEntry(digests, s, e, c).staged == s.staged - {e.name}
  {
  }

  lemma FirstOfRest(manifest: seq<Entry>, i: nat)
    requires 0 < i < |manifest| && (manifest[0].sha256 == "" || manifest[0].name != manifest[i].name)
    ensures FirstOfName(manifest[1..], i - 1) <==> FirstOfName(manifest, i)
  {
    assert forall k :: 0 <= k < |manifest| - 1 ==> manifest[1..][k] == manifest[k + 1];
    if FirstOfName(manifest, i) {
      forall k | 0 <= k < i - 1 && manifest[1..][k].sha256 != ""
        ensures manifest[1..][k].name != manifest[1..][i - 1].name
      {
        assert manifest[k + 1].name != manifest[i].name;
      }
    }
    if FirstOfName(manifest[1..], i - 1) {
      forall k | 0 <= k < i && manifest[k].sha256 != "" ensures manifest[k].name != manifest[i].name {
        assert k > 0 ==> manifest[1..][k - 1].name != manifest[1..][i - 1].name;
      }
    }
  }

  /**
   A loop that never fails installs every line, if the artifact staged for a name is
   right for its first line: that line takes it away, and the others must find
   their files up to date.
   */
  lemma {:induction false} LoopInstalls(digests: Digests, s: Install, manifest: seq<Entry>,
          commands: seq<Commands>, i: nat)
    requires |commands| == |manifest| && AllowedManifest(manifest)
    requires DistinctDestinations(manifest)
    requires i < |manifest| && manifest[i].sha256 != ""
    requires FirstOfName(manifest, i) && manifest[i].name in s.staged ==>
      VerifyFile(digests, s.staged[manifest[i].name].content, manifest[i])
    requires !InstallAll(digests, s, manifest, commands).failed
    ensures Installed(digests, InstallAll(digests, s, manifest, commands).files, manifest[i])
    decreases |manifest|
  {
    var e, rest := manifest[0], manifest[1..];
    var next := InstallEntry(digests, s, e, commands[0]);
    assert forall k :: 0 <= k < |rest| ==> rest[k] == manifest[k + 1];
    assert e in manifest && manifest[i] in manifest;
    if i == 0 {
      EntryInstalls(digests, s, e, commands[0]);
      LaterEntriesKeep(digests, next, rest, commands[1..], e);
    } else {
      if e.sha256 != "" {
        EntryTakesName(digests, s, e, commands[0]);
      }
      if e.sha256 == "" || e.name != manifest[i].name {
        FirstOfRest(manifest, i);
      }
      LoopInstalls(digests, next, rest, commands[1..], i - 1);
    }
  }

  lemma {:induction false} DiscardKeepsDestinations(files: Files, changes: seq<Change>, p: string)
    requires forall c :: c in changes ==> p != BackupOf(c.destination)
    ensures EqualAt(files, Discard(files, changes), p)
    decreases |changes|
  {
    if changes == [] {
    } else {
      assert changes[0] in changes;
      DiscardKeepsDestinations(DiscardOne(files, changes[0]), changes[1..], p);
    }
  }

  /** Of one destination's backup path, the discard keeps what it did not make. */
  lemma {:induction false} DiscardBackup(files: Files, changes: seq<Change>, d: string)
    ensures true in Recorded(changes, d) ==> BackupOf(d) !in Discard(files, changes)
    ensures true !in Recorded(changes, d) ==> EqualAt(files, Discard(files, changes), BackupOf(d))
    decreases |changes|
  {
    if changes == [] {
    } else {
      var c := changes[0];
      RecordedCons(c, changes[1..], d);
      assert [c] + changes[1..] == changes;
      BackupInjective(c.destination, d);
      DiscardBackup(DiscardOne(files, c), changes[1..], d);
      DiscardOnlyRemoves(DiscardOne(files, c), changes[1..]);
    }
  }

  lemma {:induction false} DiscardOnlyRemoves(files: Files, changes: seq<Change>)
    ensures forall p :: p in Discard(files, changes) ==> p in files
    decreases |changes|
  {
    if changes == [] {
    } else {
      DiscardOnlyRemoves(DiscardOne(files, changes[0]), changes[1..]);
    }
  }

  /**
   For any manifest at all: a success leaves every path that no line names exactly as
   it was. So no backup made by this run remains, nobody else's backup is gone, and a
   destination the manifest leaves out keeps its file.
   */
  lemma SuccessTouchesOnlyItsLines(env: Environment, files: Files, p: string)
    requires env.Valid() && Run(env, files).status == 0 && NoLineFor(env.manifest, p)
    ensures EqualAt(files, Run(env, files).files, p)
  {
    var s := Loop(env, files);
    ReachedMeansVerified(env, files);
    LoopStands(env.digests, files, Begin(env, files), env.manifest, env.commands, STARTUP);
    if AllowedDestination(p) {
      OtherLines(env.digests, Begin(env, files), env.manifest, env.commands, p);
      DestinationsOutliveDiscard(s.files, s.changes, p);
    } else if Outside(p) {
      LoopLeavesOutside(env.digests, Begin(env, files), env.manifest, env.commands, p);
      DiscardKeepsDestinations(s.files, s.changes, p);
    } else {
      var d :| AllowedDestination(d) && p == BackupOf(d);
      BackupDiscarded(env, files, d);
    }
  }

  lemma DestinationsOutliveDiscard(files: Files, changes: seq<Change>, d: string)
    requires AllowedDestination(d)
    ensures EqualAt(files, Discard(files, changes), d)
  {
    forall c | c in changes { BackupIsNoDestination(c.destination); }
    DiscardKeepsDestinations(files, changes, d);
  }

  lemma BackupDiscarded(env: Environment, files: Files, d: string)
    requires env.Valid() && AllowedDestination(d) && Run(env, files).status == 0
    ensures EqualAt(files, Run(env, files).files, BackupOf(d))
  {
    var s := Loop(env, files);
    ReachedMeansVerified(env, files);
    LoopStands(env.digests, files, Begin(env, files), env.manifest, env.commands, d);
    DiscardBackup(s.files, s.changes, d);
    var r := Recorded(s.changes, d);
    assert r == [false, true] ==> r[1] && true in r;
    assert r == [true] ==> r[0] && true in r;
  }

  /**
   A successful installation whose destinations are distinct, where the first and the
   last line of every artifact name ask for one content: every line is installed, and
   every other path is as it was.
   */
  lemma SuccessInstallsExactly(env: Environment, files: Files)
    requires env.Valid() && DistinctDestinations(env.manifest) && EndsAgree(env.manifest)
    requires Run(env, files).status == 0
    ensures var after := Run(env, files).files;
      && (forall e :: e in env.manifest && e.sha256 != "" ==> Installed(env.digests, after, e))
      && (forall p :: NoLineFor(env.manifest, p) ==> EqualAt(files, after, p))
      && (forall p :: !AllowedDestination(p) ==> NoLineFor(env.manifest, p))
  {
    var s, after := Loop(env, files), Run(env, files).files;
    ReachedMeansVerified(env, files);
    forall e | e in env.manifest && e.sha256 != "" ensures Installed(env.digests, after, e) {
      var i :| 0 <= i < |env.manifest| && env.manifest[i] == e;
      var j := LastExists(env.manifest, i);
      AllStaged(env.digests, map[], env.manifest, env.downloads, j);
      LoopInstalls(env.digests, Begin(env, files), env.manifest, env.commands, i);
      DestinationsOutliveDiscard(s.files, s.changes, e.destination);
    }
    forall p | NoLineFor(env.manifest, p) ensures EqualAt(files, after, p) {
      SuccessTouchesOnlyItsLines(env, files, p);
    }
  }
}
