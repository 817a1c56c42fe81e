/**
 The rule a manifest must obey for a success to mean that every line is installed:
 the first and the last line of every artifact name ask for the same content.
 */
module NameRule {
  import opened Installer
  import opened Transaction
  import opened Adversary

  /** Every successful run of this manifest, in every environment, installs every line. */
  ghost predicate AlwaysInstalls(manifest: seq<Entry>) {
    forall env: Environment, files: Files ::
      env.Valid() && env.manifest == manifest && Run(env, files).status == 0 ==>
        forall e :: e in manifest && e.sha256 != "" ==> Installed(env.digests, Run(env, files).files, e)
  }

  /** Every line finds its file up to date, with the right mode. */
  ghost predicate AllKept(digests: Digests, files: Files, manifest: seq<Entry>) {
    forall e :: e in manifest && e.sha256 != "" ==>
      && e.destination in files && files[e.destination].mode == e.mode
      && digests.md5(files[e.destination].content) == e.md5
  }

  /** Then nothing changes, and the artifacts of other names stay staged. */
  lemma {:induction false} KeptLoop(digests: Digests, s: Install, manifest: seq<Entry>, commands: seq<Commands>,
                                    name: string)
    requires |commands| == |manifest| && AllKept(digests, s.files, manifest) && !s.failed
    requires forall k :: 0 <= k < |commands| ==> commands[k].chmod
    ensures var after := InstallAll(digests, s, manifest, commands);
      && after.files == s.files && after.changes == s.changes && !after.failed
      && ((forall e :: e in manifest && e.sha256 != "" ==> e.name != name) ==> EqualAt(s.staged, after.staged, name))
    decreases |manifest|
  {
    if manifest == [] {
    } else {
      var e := manifest[0];
      assert e in manifest;
      var next := InstallEntry(digests, s, e, commands[0]);
      assert next.files == s.files;
      KeptLoop(digests, next, manifest[1..], commands[1..], name);
    }
  }

  /** Every destination but that of line i is up to date. */
  ghost function OldFiles(manifest: seq<Entry>, i: nat): (files: Files)
    requires DistinctDestinations(manifest)
    ensures forall k :: 0 <= k < |manifest| && k != i && manifest[k].sha256 != "" ==>
      && manifest[k].destination in files
      && files[manifest[k].destination] == UpToDate(|manifest|, manifest[k].md5, manifest[k].mode)
    ensures forall d :: d in files ==>
      exists k :: 0 <= k < |manifest| && k != i && manifest[k].sha256 != "" && manifest[k].destination == d
  {
    map k | 0 <= k < |manifest| && k != i && manifest[k].sha256 != "" ::
      manifest[k].destination := UpToDate(|manifest|, manifest[k].md5, manifest[k].mode)
  }

  lemma OldFilesPass(manifest: seq<Entry>, shas: bool, md5s: seq<string>, i: nat)
    requires |md5s| == |manifest| && Acceptable(manifest) && DistinctDestinations(manifest)
    ensures var files := OldFiles(manifest, i);
      STARTUP in files ==> Against(manifest, shas, md5s).md5(files[STARTUP].content) == StartupMd5(manifest)
  {
    var files := OldFiles(manifest, i);
    if STARTUP in files {
      var k :| 0 <= k < |manifest| && k != i && manifest[k].sha256 != "" && manifest[k].destination == STARTUP;
      var first := StartupIsFirst(manifest, k);
      assert WellFormed(manifest[first]);
      LooksUpToDate(manifest, shas, md5s, manifest[k].md5, manifest[k].mode);
    }
  }

  /** Line k finds its file up to date, and it is not the file of line i. */
  lemma OldFileKept(manifest: seq<Entry>, shas: bool, md5s: seq<string>, i: nat, k: nat)
    requires |md5s| == |manifest| && DistinctDestinations(manifest)
    requires i < |manifest| && manifest[i].sha256 != "" && k < |manifest| && k != i && manifest[k].sha256 != ""
    ensures AllKept(Against(manifest, shas, md5s), OldFiles(manifest, i), [manifest[k]])
    ensures manifest[k].destination != manifest[i].destination
  {
    LooksUpToDate(manifest, shas, md5s, manifest[k].md5, manifest[k].mode);
  }

  lemma KeptEach(digests: Digests, files: Files, manifest: seq<Entry>)
    requires forall k :: 0 <= k < |manifest| && manifest[k].sha256 != "" ==> AllKept(digests, files, [manifest[k]])
    ensures AllKept(digests, files, manifest)
  {
    forall e | e in manifest && e.sha256 != ""
      ensures e.destination in files && files[e.destination].mode == e.mode
      ensures digests.md5(files[e.destination].content) == e.md5
    {
      var k :| 0 <= k < |manifest| && manifest[k] == e;
      assert AllKept(digests, files, [manifest[k]]) && e in [e];
    }
  }

  lemma OldFilesKept(manifest: seq<Entry>, shas: bool, md5s: seq<string>, i: nat)
    requires |md5s| == |manifest| && DistinctDestinations(manifest) && i < |manifest| && manifest[i].sha256 != ""
    ensures AllKept(Against(manifest, shas, md5s), OldFiles(manifest, i), manifest[..i])
    ensures AllKept(Against(manifest, shas, md5s), OldFiles(manifest, i), manifest[i + 1..])
    ensures forall e :: e in manifest[i + 1..] && e.sha256 != "" ==> e.destination != manifest[i].destination
  {
    var digests, files, rest := Against(manifest, shas, md5s), OldFiles(manifest, i), manifest[i + 1..];
    forall k | 0 <= k < i && manifest[k].sha256 != "" ensures AllKept(digests, files, [manifest[..i][k]]) {
      OldFileKept(manifest, shas, md5s, i, k);
    }
    forall k | 0 <= k < |rest| && rest[k].sha256 != ""
      ensures AllKept(digests, files, [rest[k]]) && rest[k].destination != manifest[i].destination
    {
      OldFileKept(manifest, shas, md5s, i, i + 1 + k);
    }
    KeptEach(digests, files, manifest[..i]);
    KeptEach(digests, files, rest);
  }

  lemma OldFilesLeaveRoom(manifest: seq<Entry>, i: nat)
    requires Acceptable(manifest) && DistinctDestinations(manifest) && i < |manifest| && manifest[i].sha256 != ""
    ensures manifest[i].destination !in OldFiles(manifest, i)
    ensures BackupOf(manifest[i].destination) !in OldFiles(manifest, i)
  {
    BackupIsNoDestination(manifest[i].destination);
    forall d | d in OldFiles(manifest, i) ensures AllowedDestination(d) && d != manifest[i].destination {
      var k :| 0 <= k < |manifest| && k != i && manifest[k].sha256 != "" && manifest[k].destination == d;
      assert WellFormed(manifest[k]);
    }
  }

  lemma Creates(digests: Digests, s: Install, e: Entry)
    requires e.sha256 != "" && !s.failed && e.destination !in s.files && BackupOf(e.destination) !in s.files
    requires e.name in s.staged
    ensures var next := InstallEntry(digests, s, e, Commands(true, true, true));
      && next.files == s.files[e.destination := s.staged[e.name].(mode := e.mode)]
      && !next.failed && next.changes == s.changes + [Change(e.destination, false)]
  {
  }

  /** One line creates its file from what is staged, between others that are kept. */
  lemma CreatedBetween(digests: Digests, s: Install, manifest: seq<Entry>, commands: seq<Commands>, i: nat,
                       content: string)
    requires |commands| == |manifest| && i < |manifest| && manifest[i].sha256 != "" && !s.failed && s.changes == []
    requires forall k :: 0 <= k < |commands| ==> commands[k] == Commands(true, true, true)
    requires AllKept(digests, s.files, manifest[..i]) && AllKept(digests, s.files, manifest[i + 1..])
    requires forall e :: e in manifest[i + 1..] && e.sha256 != "" ==> e.destination != manifest[i].destination
    requires forall e :: e in manifest[..i] && e.sha256 != "" ==> e.name != manifest[i].name
    requires manifest[i].destination !in s.files && BackupOf(manifest[i].destination) !in s.files
    requires manifest[i].name in s.staged && s.staged[manifest[i].name].content == content
    ensures var after := InstallAll(digests, s, manifest, commands);
      && !after.failed && after.changes == [Change(manifest[i].destination, false)]
      && manifest[i].destination in after.files && after.files[manifest[i].destination].content == content
  {
    var e := manifest[i];
    KeptLoop(digests, s, manifest[..i], commands[..i], e.name);
    var mid := InstallAll(digests, s, manifest[..i], commands[..i]);
    var own := InstallEntry(digests, mid, e, commands[i]);
    Creates(digests, mid, e);
    KeptLoop(digests, own, manifest[i + 1..], commands[i + 1..], e.name);
    InstallSplit(digests, s, manifest, commands, i);
    assert manifest[i..][1..] == manifest[i + 1..] && commands[i..][1..] == commands[i + 1..];
  }

  /** What makes line i create its file with this content while all other lines are kept. */
  ghost predicate OneCreates(env: Environment, files: Files, i: nat, content: string)
    requires env.Valid() && i < |env.manifest|
  {
    var e, others := env.manifest[i], env.manifest[i + 1..];
    && e.sha256 != "" && e.destination !in files && BackupOf(e.destination) !in files
    && AllKept(env.digests, files, env.manifest[..i]) && AllKept(env.digests, files, others)
    && (forall f :: f in others && f.sha256 != "" ==> f.destination != e.destination)
    && (forall f :: f in env.manifest[..i] && f.sha256 != "" ==> f.name != e.name)
    && e.name in Begin(env, files).staged && Begin(env, files).staged[e.name].content == content
  }

  lemma CreatingRun(env: Environment, files: Files, i: nat, content: string)
    requires env.Valid() && i < |env.manifest| && OneCreates(env, files, i, content)
    requires forall k :: 0 <= k < |env.commands| ==> env.commands[k] == Commands(true, true, true)
    requires CheckStatus(env, files) == 0 && env.runtimeStarts && !env.homekit
    ensures var after := Run(env, files);
      && after.status == 0 && env.manifest[i].destination in after.files
      && after.files[env.manifest[i].destination].content == content
  {
    CreatedBetween(env.digests, Begin(env, files), env.manifest, env.commands, i, content);
    var s, change := Loop(env, files), Change(env.manifest[i].destination, false);
    assert [change][1..] == [] && DiscardOne(s.files, change) == s.files;
    assert Discard(s.files, [change]) == s.files;
  }

  /** With every other file up to date, the run succeeds with the artifact of line j in the file of line i. */
  lemma OnlyLineInstalls(manifest: seq<Entry>, shas: bool, md5s: seq<string>, i: nat, j: nat)
    requires |md5s| == |manifest| && Acceptable(manifest) && DistinctDestinations(manifest)
    requires !shas ==> forall k :: 0 <= k < |manifest| ==> md5s[k] == manifest[k].md5
    requires FirstOfName(manifest, i) && LastOfName(manifest, j) && manifest[i].name == manifest[j].name
    ensures var after := Run(Adverse(manifest, shas, md5s, true), OldFiles(manifest, i));
      && after.status == 0 && manifest[i].destination in after.files
      && after.files[manifest[i].destination].content == Pad(j)
  {
    var files := OldFiles(manifest, i);
    OldFilesPass(manifest, shas, md5s, i);
    LoopReached(manifest, shas, md5s, true, files);
    StagedIsLast(manifest, shas, md5s, true, files, j);
    OldFilesKept(manifest, shas, md5s, i);
    OldFilesLeaveRoom(manifest, i);
    CreatingRun(Adverse(manifest, shas, md5s, true), files, i, Pad(j));
  }

  /** MD5s with which the artifact of line j verifies but is not what line i asks for. */
  function Md5s(manifest: seq<Entry>, shas: bool): (r: seq<string>)
    ensures |r| == |manifest|
    ensures forall k :: 0 <= k < |r| ==> r[k] == if shas then NoMd5(manifest) else manifest[k].md5
  {
    seq(|manifest|, k requires 0 <= k < |manifest| => if shas then NoMd5(manifest) else manifest[k].md5)
  }

  /** The artifact of line j is not what line i asks for. */
  lemma WrongContent(manifest: seq<Entry>, i: nat, j: nat, files: Files)
    requires i < |manifest| && j < |manifest| && !SameDigests(manifest[i], manifest[j]) && manifest[j].sha256 != ""
    requires manifest[i].destination in files && files[manifest[i].destination].content == Pad(j)
    ensures var shas := manifest[i].sha256 != manifest[j].sha256;
      !Installed(Against(manifest, shas, Md5s(manifest, shas)), files, manifest[i])
  {
    NoMd5IsLonger(manifest, manifest[i]);
  }

  lemma Refutes(env: Environment, files: Files, e: Entry)
    requires env.Valid() && Run(env, files).status == 0
    requires e in env.manifest && e.sha256 != "" && !Installed(env.digests, Run(env, files).files, e)
    ensures !AlwaysInstalls(env.manifest)
  {
  }

  /** If the ends of a name disagree, some successful run leaves its first line wrong. */
  lemma DisagreementMisinstalls(manifest: seq<Entry>, i: nat, j: nat)
    requires Acceptable(manifest) && DistinctDestinations(manifest)
    requires FirstOfName(manifest, i) && LastOfName(manifest, j) && manifest[i].name == manifest[j].name
    requires !SameDigests(manifest[i], manifest[j])
    ensures !AlwaysInstalls(manifest)
  {
    var shas := manifest[i].sha256 != manifest[j].sha256;
    var env, files := Adverse(manifest, shas, Md5s(manifest, shas), true), OldFiles(manifest, i);
    OnlyLineInstalls(manifest, shas, Md5s(manifest, shas), i, j);
    WrongContent(manifest, i, j, Run(env, files).files);
    Refutes(env, files, manifest[i]);
  }

  /** For every manifest the script would install: a success always installs every line iff the ends agree. */
  lemma AlwaysInstallsIff(manifest: seq<Entry>)
    requires Acceptable(manifest) && DistinctDestinations(manifest)
    ensures AlwaysInstalls(manifest) <==> EndsAgree(manifest)
  {
    if EndsAgree(manifest) {
      forall env: Environment, files: Files, e |
        env.Valid() && env.manifest == manifest && Run(env, files).status == 0 && e in manifest && e.sha256 != ""
        ensures Installed(env.digests, Run(env, files).files, e)
      {
        SuccessInstallsExactly(env, files);
      }
    } else {
      var i: nat, j: nat :| FirstOfName(manifest, i) && LastOfName(manifest, j) && manifest[i].name == manifest[j].name
        && !SameDigests(manifest[i], manifest[j]);
      DisagreementMisinstalls(manifest, i, j);
    }
  }
}
