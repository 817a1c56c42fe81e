/**
 scripts/install-on-device.sh: the on-device installation as a transaction over a
 map of files. Digest commands are parameters; whether a fallible command succeeds
 is part of the environment. Staged artifacts live in a map of their own, as the
 staging directory is never a destination.
 */
module Installer {
  import opened Base

  datatype File = File(content: string, mode: string)

  type Files = map<string, File>

  datatype Entry = Entry(sha256: string, md5: string, mode: string, name: string, destination: string, extra: string)

  datatype Change = Change(destination: string, hadBackup: bool)

  /** sha256 is empty where the command does not exist. */
  datatype Digests = Digests(md5: string -> string, sha256: string -> string)

  /** Whether the commands issued for one manifest line succeed. */
  datatype Commands = Commands(backup: bool, place: bool, chmod: bool)

  const SUFFIX: string := ".pre-notelnet-install"
  const STARTUP: string := "/data/scripts/startup.sh"
  const KNOWN_STARTUP_MD5_V1: string := "b8086d3d3f450bc66156ed5ef9a38520"
  const KNOWN_STARTUP_MD5_V2: string := "12693c64a852f81f7a9899a13c5d7228"

  function BackupOf(destination: string): string {
    destination + SUFFIX
  }

  predicate AllowedDestination(path: string) {
    || path == "/data/openmiio_agent"
    || path == "/data/mgl03-openmiio-start.sh"
    || path == "/data/mgl03-homekit/runtime-mode"
    || path == "/data/mgl03-homekit-bridge"
    || path == "/data/mgl03-homekit-start.sh"
    || path == "/data/mgl03-homekit-stop.sh"
    || path == "/data/mgl03-homekit-cleanup.sh"
    || path == STARTUP
  }

  predicate SafeName(name: string) {
    name != "" && forall i :: 0 <= i < |name| ==>
      '0' <= name[i] <= '9' || 'A' <= name[i] <= 'Z' || 'a' <= name[i] <= 'z' || name[i] in "._-"
  }

  predicate VerifyFile(digests: Digests, content: string, e: Entry) {
    if digests.sha256(content) != "" then digests.sha256(content) == e.sha256
    else digests.md5(content) == e.md5
  }

  // ------------------------------------------------------- verification loop

  /** The exit status for one line; 0 lets the loop go on. */
  function VerifyStatus(digests: Digests, e: Entry, download: Option<File>): nat {
    if e.sha256 == "" then 0
    else if e.extra != "" then 13
    else if !AllowedDestination(e.destination) then 14
    else if e.mode !in {"600", "700", "755"} then 15
    else if !SafeName(e.name) then 16
    else if download.None? then 17
    else if !VerifyFile(digests, download.value.content, e) then 18
    else 0
  }

  function Stage(staged: Files, e: Entry, download: Option<File>): Files {
    if e.sha256 == "" || download.None? then staged else staged[e.name := download.value]
  }

  datatype Verified = Verified(status: nat, staged: Files)

  function VerifyAll(digests: Digests, staged: Files, manifest: seq<Entry>, downloads: seq<Option<File>>): Verified
    requires |downloads| == |manifest|
    decreases |manifest|
  {
    if manifest == [] then Verified(0, staged)
    else
      var status := VerifyStatus(digests, manifest[0], downloads[0]);
      if status != 0 then Verified(status, staged)
      else VerifyAll(digests, Stage(staged, manifest[0], downloads[0]), manifest[1..], downloads[1..])
  }

  // ------------------------------------------------------------ install loop

  datatype Install = Install(files: Files, staged: Files, changes: seq<Change>, failed: bool)

  function Moved(files: Files, from: string, to: string): Files
    requires from in files
  {
    (files - {from})[to := files[from]]
  }

  function Chmodded(files: Files, path: string, mode: string): Files {
    if path in files then files[path := files[path].(mode := mode)] else files
  }

  /** Up to date already: only the mode is set. */
  function KeepEntry(s: Install, e: Entry, c: Commands): Install {
    s.(files := if c.chmod then Chmodded(s.files, e.destination, e.mode) else s.files,
       staged := s.staged - {e.name},
       failed := !c.chmod)
  }

  /** Back up, record, place, set the mode. */
  function ReplaceEntry(s: Install, e: Entry, c: Commands): Install {
    var d := e.destination;
    var hadBackup := d in s.files;
    if hadBackup && !c.backup then s.(failed := true)
    else
      var cleared := if hadBackup then Moved(s.files, d, BackupOf(d)) else s.files;
      var placed := c.place && e.name in s.staged;
      var files := if placed then cleared[d := s.staged[e.name]] else cleared;
      Install(
        if c.chmod then Chmodded(files, d, e.mode) else files,
        if placed then s.staged - {e.name} else s.staged,
        s.changes + [Change(d, hadBackup)],
        !placed || !c.chmod)
  }

  function InstallEntry(digests: Digests, s: Install, e: Entry, c: Commands): Install {
    if e.sha256 == "" then s
    else if e.destination in s.files && digests.md5(s.files[e.destination].content) == e.md5 then KeepEntry(s, e, c)
    else if BackupOf(e.destination) in s.files then s.(failed := true)
    else ReplaceEntry(s, e, c)
  }

  function InstallAll(digests: Digests, s: Install, manifest: seq<Entry>, commands: seq<Commands>): Install
    requires |commands| == |manifest|
    decreases |manifest|
  {
    if manifest == [] || s.failed then s
    else InstallAll(digests, InstallEntry(digests, s, manifest[0], commands[0]), manifest[1..], commands[1..])
  }

  function UndoOne(files: Files, c: Change): Files {
    var removed := files - {c.destination};
    if c.hadBackup && BackupOf(c.destination) in removed then Moved(removed, BackupOf(c.destination), c.destination)
    else removed
  }

  /** Changes are undone in the order they were made. */
  function Rollback(files: Files, changes: seq<Change>): Files
    decreases |changes|
  {
    if changes == [] then files else Rollback(UndoOne(files, changes[0]), changes[1..])
  }

  function DiscardOne(files: Files, c: Change): Files {
    if c.hadBackup then files - {BackupOf(c.destination)} else files
  }

  function Discard(files: Files, changes: seq<Change>): Files
    decreases |changes|
  {
    if changes == [] then files else Discard(DiscardOne(files, changes[0]), changes[1..])
  }

  // ------------------------------------------------------------- whole script

  function StartupMd5(manifest: seq<Entry>): string
    decreases |manifest|
  {
    if manifest == [] then ""
    else if manifest[0].destination == STARTUP then manifest[0].md5
    else StartupMd5(manifest[1..])
  }

  /**
   What the world answers. `precheck` is the exit status of the argument checks and
   the manifest download (2 to 12), or 0. The runtime's start and stop scripts are
   taken not to touch destinations or backups.
   */
  datatype Environment = Environment(
    digests: Digests,
    precheck: nat,
    manifest: seq<Entry>,
    downloads: seq<Option<File>>,
    commands: seq<Commands>,
    stopped: bool,
    homekit: bool,
    runtimeStarts: bool,
    bridgeStarts: bool,
    bridgeSurvives: bool)
  {
    ghost predicate Valid() {
      |downloads| == |manifest| && |commands| == |manifest| && (precheck == 0 || 2 <= precheck <= 12)
    }
  }

  datatype Exit = Exit(status: nat, files: Files)

  /** The script only overwrites a startup file it knows. */
  predicate KnownStartup(current: string, wanted: string) {
    current == wanted || current == KNOWN_STARTUP_MD5_V1 || current == KNOWN_STARTUP_MD5_V2
  }

  /** The status before the install loop; 0 when it is reached. */
  function CheckStatus(env: Environment, files: Files): nat
    requires env.Valid()
  {
    var verified := VerifyAll(env.digests, map[], env.manifest, env.downloads);
    var md5 := StartupMd5(env.manifest);
    if env.precheck != 0 then env.precheck
    else if verified.status != 0 then verified.status
    else if md5 == "" then 19
    else if STARTUP in files && !KnownStartup(env.digests.md5(files[STARTUP].content), md5) then 20
    else if !env.stopped then 21
    else 0
  }

  function Begin(env: Environment, files: Files): Install
    requires env.Valid()
  {
    Install(files, VerifyAll(env.digests, map[], env.manifest, env.downloads).staged, [], false)
  }

  function Loop(env: Environment, files: Files): Install
    requires env.Valid()
  {
    InstallAll(env.digests, Begin(env, files), env.manifest, env.commands)
  }

  function Run(env: Environment, files: Files): Exit
    requires env.Valid()
  {
    var status, s := CheckStatus(env, files), Loop(env, files);
    if status != 0 then Exit(status, files)
    else if s.failed then Exit(30, Rollback(s.files, s.changes))
    else if !env.runtimeStarts then Exit(40, Rollback(s.files, s.changes))
    else if !env.homekit then Exit(0, Discard(s.files, s.changes))
    else if !env.bridgeStarts then Exit(40, Rollback(s.files, s.changes))
    else if !env.bridgeSurvives then Exit(41, Rollback(s.files, s.changes))
    else Exit(0, Discard(s.files, s.changes))
  }

  /** The shell's variables and the files it works on. */
  class Script {
    var files: Files
    var staged: Files
    var changes: seq<Change>
    var installFailed: bool

    ghost function State(): Install
      reads this
    {
      Install(files, staged, changes, installFailed)
    }

    constructor (files: Files)
      ensures State() == Install(files, map[], [], false)
    {
      this.files, staged, changes, installFailed := files, map[], [], false;
    }

    method VerifyArtifacts(digests: Digests, manifest: seq<Entry>, downloads: seq<Option<File>>) returns (status: nat)
      requires |downloads| == |manifest|
      modifies this`staged
      ensures status == VerifyAll(digests, old(staged), manifest, downloads).status
      ensures staged == VerifyAll(digests, old(staged), manifest, downloads).staged
    {
      for i := 0 to |manifest|
        invariant VerifyAll(digests, staged, manifest[i..], downloads[i..]) ==
          VerifyAll(digests, old(staged), manifest, downloads)
      {
        var e := manifest[i];
        assert manifest[i..][1..] == manifest[i + 1..] && downloads[i..][1..] == downloads[i + 1..];
        if e.sha256 == "" {
          continue;
        }
        if e.extra != "" {
          return 13;
        }
        if !AllowedDestination(e.destination) {
          return 14;
        }
        if e.mode !in {"600", "700", "755"} {
          return 15;
        }
        if !SafeName(e.name) {
          return 16;
        }
        if downloads[i].None? {
          return 17;
        }
        if !VerifyFile(digests, downloads[i].value.content, e) {
          return 18;
        }
        staged := staged[e.name := downloads[i].value];
      }
      return 0;
    }

    method InstallOne(digests: Digests, e: Entry, c: Commands)
      requires !installFailed
      modifies this
      ensures State() == InstallEntry(digests, old(State()), e, c)
    {
      if e.sha256 == "" {
        return;
      }
      var d := e.destination;
      if d in files && digests.md5(files[d].content) == e.md5 {
        if c.chmod {
          files := files[d := files[d].(mode := e.mode)];
        } else {
          installFailed := true;
        }
        staged := staged - {e.name};
        return;
      }
      if BackupOf(d) in files {
        installFailed := true;
        return;
      }
      Replace(e, c);
    }

    method Replace(e: Entry, c: Commands)
      requires !installFailed
      modifies this
      ensures State() == ReplaceEntry(old(State()), e, c)
    {
      var d := e.destination;
      var hadBackup := false;
      if d in files {
        if c.backup {
          files := (files - {d})[BackupOf(d) := files[d]];
        } else {
          installFailed := true;
        }
        hadBackup := true;
      }
      if installFailed {
        return;
      }
      changes := changes + [Change(d, hadBackup)];
      if c.place && e.name in staged {
        files := files[d := staged[e.name]];
        staged := staged - {e.name};
      } else {
        installFailed := true;
      }
      if c.chmod && d in files {
        files := files[d := files[d].(mode := e.mode)];
      } else {
        installFailed := true;
      }
    }

    method InstallFiles(digests: Digests, manifest: seq<Entry>, commands: seq<Commands>)
      requires |commands| == |manifest|
      modifies this
      ensures State() == InstallAll(digests, old(State()).(changes := [], failed := false), manifest, commands)
    {
      changes, installFailed := [], false;
      ghost var start := State();
      for i := 0 to |manifest|
        invariant InstallAll(digests, State(), manifest[i..], commands[i..]) ==
          InstallAll(digests, start, manifest, commands)
        invariant !installFailed
      {
        assert manifest[i..][1..] == manifest[i + 1..] && commands[i..][1..] == commands[i + 1..];
        InstallOne(digests, manifest[i], commands[i]);
        if installFailed {
          break;
        }
      }
    }

    method RollbackChanges()
      modifies this`files
      ensures files == Rollback(old(files), changes)
    {
      for i := 0 to |changes|
        invariant Rollback(files, changes[i..]) == Rollback(old(files), changes)
      {
        assert changes[i..][1..] == changes[i + 1..];
        var d := changes[i].destination;
        files := files - {d};
        if changes[i].hadBackup && BackupOf(d) in files {
          files := (files - {BackupOf(d)})[d := files[BackupOf(d)]];
        }
      }
    }

    method DiscardBackups()
      modifies this`files
      ensures files == Discard(old(files), changes)
    {
      for i := 0 to |changes|
        invariant Discard(files, changes[i..]) == Discard(old(files), changes)
      {
        assert changes[i..][1..] == changes[i + 1..];
        if changes[i].hadBackup {
          files := files - {BackupOf(changes[i].destination)};
        }
      }
    }

    method FindStartupMd5(manifest: seq<Entry>) returns (md5: string)
      ensures md5 == StartupMd5(manifest)
    {
      md5 := "";
      for i := 0 to |manifest|
        invariant StartupMd5(manifest[i..]) == StartupMd5(manifest)
      {
        assert manifest[i..][1..] == manifest[i + 1..];
        if manifest[i].destination == STARTUP {
          return manifest[i].md5;
        }
      }
    }

    /** From a fresh staging directory. */
    method Execute(env: Environment) returns (status: nat)
      requires env.Valid()
      modifies this
      ensures Exit(status, files) == Run(env, old(files))
    {
      if env.precheck != 0 {
        return env.precheck;
      }
      staged := map[];
      status := VerifyArtifacts(env.digests, env.manifest, env.downloads);
      if status != 0 {
        return;
      }
      var md5 := FindStartupMd5(env.manifest);
      if md5 == "" {
        return 19;
      }
      if STARTUP in files {
        var current := env.digests.md5(files[STARTUP].content);
        if current != md5 && current != KNOWN_STARTUP_MD5_V1 && current != KNOWN_STARTUP_MD5_V2 {
          return 20;
        }
      }
      if !env.stopped {
        return 21;
      }
      InstallFiles(env.digests, env.manifest, env.commands);
      if installFailed {
        RollbackChanges();
        return 30;
      }
      if !env.runtimeStarts {
        RollbackChanges();
        return 40;
      }
      if env.homekit {
        if !env.bridgeStarts {
          RollbackChanges();
          return 40;
        }
        if !env.bridgeSurvives {
          RollbackChanges();
          return 41;
        }
      }
      DiscardBackups();
      return 0;
    }
  }
}
