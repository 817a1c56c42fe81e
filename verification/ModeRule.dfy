/**
 What a failing installation does to modes: it restores every path exactly, except the
 destinations of the lines that were found up to date and given another mode.
 */
module ModeRule {
  import opened Installer
  import opened Transaction

  /** The install loop comes to line i. */
  ghost predicate Reached(env: Environment, files: Files, i: nat)
    requires env.Valid() && i <= |env.manifest|
  {
    && CheckStatus(env, files) == 0
    && !InstallAll(env.digests, Begin(env, files), env.manifest[..i], env.commands[..i]).failed
  }

  predicate GivesNewMode(digests: Digests, files: Files, e: Entry, c: Commands) {
    && e.destination in files && digests.md5(files[e.destination].content) == e.md5
    && files[e.destination].mode != e.mode && c.chmod
  }

  /** Line i is reached, its file is up to date with another mode, and its chmod succeeds. */
  ghost predicate ModeSet(env: Environment, files: Files, i: nat)
    requires env.Valid() && i < |env.manifest|
  {
    && env.manifest[i].sha256 != "" && Reached(env, files, i)
    && GivesNewMode(env.digests, files, env.manifest[i], env.commands[i])
  }

  lemma ReplaceUndone(s: Install, e: Entry, c: Commands)
    requires AllowedDestination(e.destination) && Recorded(s.changes, e.destination) == []
    requires BackupOf(e.destination) !in s.files
    ensures var own, d := ReplaceEntry(s, e, c), e.destination;
      ViewEqual(s.files, UndoAt(own.files, d, Recorded(own.changes, d)), d)
  {
    var own, d := ReplaceEntry(s, e, c), e.destination;
    BackupIsNoDestination(d);
    if own.changes != s.changes {
      RecordedSnoc(s.changes, Change(d, d in s.files), d);
      assert [d in s.files][1..] == [];
      assert UndoAt(own.files, d, [d in s.files]) == UndoOne(own.files, Change(d, d in s.files));
    }
  }

  /** One line, then its undoing, seen from its destination. */
  lemma OwnUndone(digests: Digests, s: Install, e: Entry, c: Commands)
    requires AllowedDestination(e.destination) && e.sha256 != "" && Recorded(s.changes, e.destination) == []
    requires !s.failed
    ensures var own := InstallEntry(digests, s, e, c);
      var after := UndoAt(own.files, e.destination, Recorded(own.changes, e.destination));
      && EqualAt(s.files, after, BackupOf(e.destination))
      && (EqualAt(s.files, after, e.destination) <==> !GivesNewMode(digests, s.files, e, c))
  {
    BackupIsNoDestination(e.destination);
    if !(e.destination in s.files && digests.md5(s.files[e.destination].content) == e.md5)
       && BackupOf(e.destination) !in s.files {
      ReplaceUndone(s, e, c);
    }
  }

  /** The rollback seen from a destination that no line, or no reached line, names. */
  lemma UntouchedRestored(s: Install, before: Files, d: string)
    requires AllowedDestination(d) && AllAllowed(s.changes) && ViewEqual(s.files, before, d)
    requires Recorded(s.changes, d) == []
    ensures ViewEqual(before, Rollback(s.files, s.changes), d)
  {
    RollbackView(s.files, before, s.changes, d);
  }

  /** The rollback seen from the destination of line i, reached in state `mid`. */
  lemma LineRestored(digests: Digests, before: Files, mid: Install, manifest: seq<Entry>, commands: seq<Commands>)
    requires |commands| == |manifest| && manifest != [] && manifest[0].sha256 != "" && AllowedManifest(manifest)
    requires NoLineFor(manifest[1..], manifest[0].destination) && AllAllowed(mid.changes) && !mid.failed
    requires ViewEqual(mid.files, before, manifest[0].destination)
    requires Recorded(mid.changes, manifest[0].destination) == []
    ensures var s, d := InstallAll(digests, mid, manifest, commands), manifest[0].destination;
      var after := Rollback(s.files, s.changes);
      && EqualAt(before, after, BackupOf(d))
      && (EqualAt(before, after, d) <==> !GivesNewMode(digests, before, manifest[0], commands[0]))
  {
    var e := manifest[0];
    assert e in manifest;
    var own, s := InstallEntry(digests, mid, e, commands[0]), InstallAll(digests, mid, manifest, commands);
    OwnUndone(digests, mid, e, commands[0]);
    OwnAllowed(digests, mid, e, commands[0]);
    assert forall f :: f in manifest[1..] ==> f in manifest;
    OtherLines(digests, own, manifest[1..], commands[1..], e.destination);
    RollbackView(s.files, own.files, s.changes, e.destination);
  }

  /** The one line of a destination, when destinations are distinct. */
  lemma OnlyLine(manifest: seq<Entry>, i: nat)
    requires DistinctDestinations(manifest) && i < |manifest| && manifest[i].sha256 != ""
    ensures NoLineFor(manifest[..i], manifest[i].destination) && NoLineFor(manifest[i + 1..], manifest[i].destination)
  {
    forall e | e in manifest[i + 1..] && e.sha256 != "" ensures e.destination != manifest[i].destination {
      var k :| 0 <= k < |manifest[i + 1..]| && manifest[i + 1..][k] == e;
      assert manifest[i + 1 + k] == e;
    }
  }

  /** A failure after the checks, seen from the destination of line i. */
  lemma LineRestoredIff(env: Environment, files: Files, i: nat)
    requires env.Valid() && DistinctDestinations(env.manifest) && CheckStatus(env, files) == 0
    requires i < |env.manifest| && env.manifest[i].sha256 != ""
    ensures var s, d := Loop(env, files), env.manifest[i].destination;
      var after := Rollback(s.files, s.changes);
      && EqualAt(files, after, BackupOf(d))
      && (EqualAt(files, after, d) <==> !ModeSet(env, files, i))
  {
    var e, start := env.manifest[i], Begin(env, files);
    var mid := InstallAll(env.digests, start, env.manifest[..i], env.commands[..i]);
    ReachedMeansVerified(env, files);
    OnlyLine(env.manifest, i);
    assert e in env.manifest && forall f :: f in env.manifest[..i] || f in env.manifest[i..] ==> f in env.manifest;
    OtherLines(env.digests, start, env.manifest[..i], env.commands[..i], e.destination);
    InstallSplit(env.digests, start, env.manifest, env.commands, i);
    if mid.failed {
      UntouchedRestored(mid, files, e.destination);
    } else {
      assert env.manifest[i..][1..] == env.manifest[i + 1..];
      LineRestored(env.digests, files, mid, env.manifest[i..], env.commands[i..]);
    }
  }

  /** The path is the destination of a line that gave its file another mode. */
  ghost predicate Remoded(env: Environment, files: Files, p: string)
    requires env.Valid()
  {
    exists i :: 0 <= i < |env.manifest| && env.manifest[i].destination == p && ModeSet(env, files, i)
  }

  lemma OnlyLineRemodes(env: Environment, files: Files, i: nat)
    requires env.Valid() && DistinctDestinations(env.manifest) && i < |env.manifest| && env.manifest[i].sha256 != ""
    ensures Remoded(env, files, env.manifest[i].destination) <==> ModeSet(env, files, i)
  {
  }

  lemma NoLineRemodes(env: Environment, files: Files, d: string)
    requires env.Valid() && NoLineFor(env.manifest, d)
    ensures !Remoded(env, files, d)
  {
    assert forall i :: 0 <= i < |env.manifest| ==> env.manifest[i] in env.manifest;
  }

  lemma DestinationRestoredIff(env: Environment, files: Files, d: string)
    requires env.Valid() && DistinctDestinations(env.manifest) && CheckStatus(env, files) == 0 && AllowedDestination(d)
    ensures var after := Rollback(Loop(env, files).files, Loop(env, files).changes);
      EqualAt(files, after, BackupOf(d)) && (EqualAt(files, after, d) <==> !Remoded(env, files, d))
  {
    if NoLineFor(env.manifest, d) {
      ReachedMeansVerified(env, files);
      OtherLines(env.digests, Begin(env, files), env.manifest, env.commands, d);
      UntouchedRestored(Loop(env, files), files, d);
      NoLineRemodes(env, files, d);
    } else {
      var e :| e in env.manifest && e.sha256 != "" && e.destination == d;
      var i :| 0 <= i < |env.manifest| && env.manifest[i] == e;
      LineRestoredIff(env, files, i);
      OnlyLineRemodes(env, files, i);
    }
  }

  /** No line is reached that names a path which is no destination. */
  lemma OnlyDestinationsRemoded(env: Environment, files: Files, p: string)
    requires env.Valid() && !AllowedDestination(p)
    ensures !Remoded(env, files, p)
  {
    if i :| 0 <= i < |env.manifest| && env.manifest[i].destination == p && ModeSet(env, files, i) {
      ReachedMeansVerified(env, files);
      assert env.manifest[i] in env.manifest;
    }
  }

  lemma RollbackRestoresExactlyIff(env: Environment, files: Files, p: string)
    requires env.Valid() && DistinctDestinations(env.manifest) && CheckStatus(env, files) == 0
    ensures EqualAt(files, Rollback(Loop(env, files).files, Loop(env, files).changes), p) <==> !Remoded(env, files, p)
  {
    if Outside(p) {
      ReachedMeansVerified(env, files);
      LoopStands(env.digests, files, Begin(env, files), env.manifest, env.commands, STARTUP);
      LoopLeavesOutside(env.digests, Begin(env, files), env.manifest, env.commands, p);
      RollbackLeavesOutside(Loop(env, files).files, Loop(env, files).changes, p);
      OnlyDestinationsRemoded(env, files, p);
    } else {
      var d :| AllowedDestination(d) && (p == d || p == BackupOf(d));
      BackupIsNoDestination(d);
      DestinationRestoredIff(env, files, d);
      if p == BackupOf(d) {
        OnlyDestinationsRemoded(env, files, p);
      }
    }
  }

  /**
   A failing installation with distinct destinations leaves a path exactly as it was,
   mode included, iff no line gave its file another mode.
   */
  lemma FailureRestoresExactlyIff(env: Environment, files: Files, p: string)
    requires env.Valid() && DistinctDestinations(env.manifest) && Run(env, files).status != 0
    ensures EqualAt(files, Run(env, files).files, p) <==> !Remoded(env, files, p)
  {
    if CheckStatus(env, files) == 0 {
      RollbackRestoresExactlyIff(env, files, p);
    }
  }
}
