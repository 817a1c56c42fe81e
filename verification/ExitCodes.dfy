/**
 What the exit status of an installation says: 0 that everything the manifest and the
 mode ask for succeeded and the services run, any other number exactly which step failed.
 */
module ExitCodes {
  import opened Base
  import opened Installer
  import opened Transaction

  // ------------------------------------------------------------ one line

  /** The tests of the verification loop, in order. */
  predicate Passes(digests: Digests, e: Entry, download: Option<File>, test: nat) {
    match test
    case 0 => e.extra == ""
    case 1 => e.destination in {
        "/data/openmiio_agent", "/data/mgl03-openmiio-start.sh", "/data/mgl03-homekit/runtime-mode",
        "/data/mgl03-homekit-bridge", "/data/mgl03-homekit-start.sh", "/data/mgl03-homekit-stop.sh",
        "/data/mgl03-homekit-cleanup.sh", "/data/scripts/startup.sh" }
    case 2 => e.mode == "600" || e.mode == "700" || e.mode == "755"
    case 3 => e.name != "" && forall i :: 0 <= i < |e.name| ==>
        || 'A' <= e.name[i] <= 'Z' || 'a' <= e.name[i] <= 'z' || '0' <= e.name[i] <= '9'
        || e.name[i] == '.' || e.name[i] == '_' || e.name[i] == '-'
    case 4 => download.Some?
    case 5 => download.Some? ==>
        var content := download.value.content;
        if digests.sha256(content) != "" then digests.sha256(content) == e.sha256 else digests.md5(content) == e.md5
    case _ => true
  }

  predicate PassesBelow(digests: Digests, e: Entry, download: Option<File>, n: nat) {
    n == 0 || (PassesBelow(digests, e, download, n - 1) && Passes(digests, e, download, n - 1))
  }

  lemma PassesNext(digests: Digests, e: Entry, download: Option<File>, n: nat)
    ensures PassesBelow(digests, e, download, n + 1) <==>
      PassesBelow(digests, e, download, n) && Passes(digests, e, download, n)
  {
  }

  lemma SafeNameIs(name: string)
    ensures SafeName(name) <==> name != "" && forall i :: 0 <= i < |name| ==>
      || 'A' <= name[i] <= 'Z' || 'a' <= name[i] <= 'z' || '0' <= name[i] <= '9'
      || name[i] == '.' || name[i] == '_' || name[i] == '-'
  {
  }

  /** A blank line passes; any other exits with 13 plus the number of the first test it fails. */
  lemma LineStatusIs(digests: Digests, e: Entry, download: Option<File>, k: nat)
    requires k < 6
    ensures VerifyStatus(digests, e, download) == 0 <==> e.sha256 == "" || PassesBelow(digests, e, download, 6)
    ensures VerifyStatus(digests, e, download) == 13 + k <==>
      e.sha256 != "" && PassesBelow(digests, e, download, k) && !Passes(digests, e, download, k)
  {
    SafeNameIs(e.name);
    assert PassesBelow(digests, e, download, 1) <==> Passes(digests, e, download, 0);
    PassesNext(digests, e, download, 1);
    PassesNext(digests, e, download, 2);
    PassesNext(digests, e, download, 3);
    PassesNext(digests, e, download, 4);
    PassesNext(digests, e, download, 5);
  }

  /** The whole verification loop exits with the status of the first line that does not pass. */
  lemma {:induction false} FirstFailingLine(digests: Digests, staged: Files, manifest: seq<Entry>,
                                            downloads: seq<Option<File>>, i: nat)
    requires |downloads| == |manifest| && i < |manifest|
    requires forall j :: 0 <= j < i ==> VerifyStatus(digests, manifest[j], downloads[j]) == 0
    requires VerifyStatus(digests, manifest[i], downloads[i]) != 0
    ensures VerifyAll(digests, staged, manifest, downloads).status == VerifyStatus(digests, manifest[i], downloads[i])
    decreases i
  {
    if i > 0 {
      FirstFailingLine(digests, Stage(staged, manifest[0], downloads[0]), manifest[1..], downloads[1..], i - 1);
    }
  }

  // ---------------------------------------------------------- the install loop

  /**
   When an entry fails: the chmod of an up-to-date file; or else a backup already in the
   way, a backup, move or chmod that fails, or an artifact that an earlier line has taken.
   */
  lemma EntryFailsIff(digests: Digests, s: Install, e: Entry, c: Commands)
    requires !s.failed
    ensures InstallEntry(digests, s, e, c).failed <==>
      e.sha256 != "" &&
      if e.destination in s.files && digests.md5(s.files[e.destination].content) == e.md5 then !c.chmod
      else
        || e.destination + ".pre-notelnet-install" in s.files
        || (e.destination in s.files && !c.backup)
        || !c.place || e.name !in s.staged || !c.chmod
  {
  }

  /** The loop over the first k lines did not fail, and line k does. */
  ghost predicate FailsAt(digests: Digests, s: Install, manifest: seq<Entry>, commands: seq<Commands>, k: nat)
    requires |commands| == |manifest|
  {
    k < |manifest| &&
    var before := InstallAll(digests, s, manifest[..k], commands[..k]);
    !before.failed && InstallEntry(digests, before, manifest[k], commands[k]).failed
  }

  lemma FailsLater(digests: Digests, s: Install, manifest: seq<Entry>, commands: seq<Commands>, k: nat)
    requires |commands| == |manifest| != 0 && !s.failed
    ensures FailsAt(digests, s, manifest, commands, k + 1) <==>
      FailsAt(digests, InstallEntry(digests, s, manifest[0], commands[0]), manifest[1..], commands[1..], k)
  {
    if k + 1 < |manifest| {
      assert manifest[..k + 1][1..] == manifest[1..][..k] && commands[..k + 1][1..] == commands[1..][..k];
    }
  }

  /** The loop fails iff it comes to a line that does. */
  lemma {:induction false} LoopFailsIff(digests: Digests, s: Install, manifest: seq<Entry>, commands: seq<Commands>)
    requires |commands| == |manifest| && !s.failed
    ensures InstallAll(digests, s, manifest, commands).failed <==>
      exists k: nat :: FailsAt(digests, s, manifest, commands, k)
    decreases |manifest|
  {
    if manifest == [] {
    } else {
      var next := InstallEntry(digests, s, manifest[0], commands[0]);
      assert FailsAt(digests, s, manifest, commands, 0) <==> next.failed;
      forall k: nat { FailsLater(digests, s, manifest, commands, k); }
      if next.failed {
        assert InstallAll(digests, next, manifest[1..], commands[1..]) == next;
      } else {
        LoopFailsIff(digests, next, manifest[1..], commands[1..]);
        if k: nat :| FailsAt(digests, next, manifest[1..], commands[1..], k) {
          assert FailsAt(digests, s, manifest, commands, k + 1);
        }
        if k: nat :| FailsAt(digests, s, manifest, commands, k) {
          assert FailsAt(digests, next, manifest[1..], commands[1..], k - 1);
        }
      }
    }
  }

  // ---------------------------------------------------------- the whole script

  /** The MD5 the script wants for its startup file is that of the first line with this destination. */
  lemma {:induction false} StartupLine(manifest: seq<Entry>, i: nat)
    requires forall j :: 0 <= j < i && j < |manifest| ==> manifest[j].destination != "/data/scripts/startup.sh"
    requires i < |manifest| ==> manifest[i].destination == "/data/scripts/startup.sh"
    ensures StartupMd5(manifest) == if i < |manifest| then manifest[i].md5 else ""
    decreases i
  {
    if manifest != [] && i > 0 {
      StartupLine(manifest[1..], i - 1);
    }
  }

  /** The startup file on the device is none of those the script may overwrite. */
  predicate ForeignStartup(env: Environment, files: Files) {
    "/data/scripts/startup.sh" in files &&
    env.digests.md5(files["/data/scripts/startup.sh"].content) !in
      { StartupMd5(env.manifest), "b8086d3d3f450bc66156ed5ef9a38520", "12693c64a852f81f7a9899a13c5d7228" }
  }

  /** Everything before the install loop is in order. */
  ghost predicate Ready(env: Environment, files: Files)
    requires env.Valid()
  {
    && env.precheck == 0 && EveryLinePasses(env.digests, env.manifest, env.downloads)
    && StartupMd5(env.manifest) != "" && !ForeignStartup(env, files) && env.stopped
  }

  /**
   Success means that every check passed, every line went through, and the services run:
   the runtime, and in homekit mode a bridge that started and is still alive. Each other
   outcome of the installation has its own status.
   */
  lemma OutcomeExact(env: Environment, files: Files)
    requires env.Valid()
    ensures var status, installed := Run(env, files).status, Ready(env, files) && !Loop(env, files).failed;
      && (status == 0 <==>
          installed && env.runtimeStarts && (env.homekit ==> env.bridgeStarts && env.bridgeSurvives))
      && (status == 30 <==> Ready(env, files) && Loop(env, files).failed)
      && (status == 40 <==> installed && (!env.runtimeStarts || (env.homekit && !env.bridgeStarts)))
      && (status == 41 <==>
          installed && env.runtimeStarts && env.homekit && env.bridgeStarts && !env.bridgeSurvives)
  {
    ChecksPassIff(env, files);
  }

  /** And each failed check its own, in the order of the script. */
  lemma CheckExact(env: Environment, files: Files)
    requires env.Valid()
    ensures var status, passed := Run(env, files).status,
                                  env.precheck == 0 && EveryLinePasses(env.digests, env.manifest, env.downloads);
      && (env.precheck != 0 ==> status == env.precheck)
      && (status == 19 <==> passed && StartupMd5(env.manifest) == "")
      && (status == 20 <==> passed && StartupMd5(env.manifest) != "" && ForeignStartup(env, files))
      && (status == 21 <==>
          passed && StartupMd5(env.manifest) != "" && !ForeignStartup(env, files) && !env.stopped)
      && (13 <= status <= 18 <==>
          env.precheck == 0 && !EveryLinePasses(env.digests, env.manifest, env.downloads))
      && (13 <= status <= 18 ==>
          status == VerifyAll(env.digests, map[], env.manifest, env.downloads).status)
  {
    VerifiedIff(env.digests, map[], env.manifest, env.downloads);
  }
}
