/**
 Where an installation comes to a second line of a destination that its first line has
 created: the rollback then removes what was there. Decided on the manifest alone, for
 all environments and for the genuine ones, whose verified artifacts carry both listed
 digests.
 */
module Doubling {
  import opened Installer
  import opened Transaction

  /** An artifact that passes the verification of its line has the listed MD5. */
  ghost predicate Genuine(env: Environment)
    requires env.Valid()
  {
    forall k :: 0 <= k < |env.manifest| && env.downloads[k].Some? ==>
      GenuineArtifact(env.digests, env.downloads[k].value.content, env.manifest[k])
  }

  predicate GenuineArtifact(digests: Digests, content: string, e: Entry) {
    VerifyFile(digests, content, e) ==> digests.md5(content) == e.md5
  }

  predicate Line(manifest: seq<Entry>, d: string, k: nat) {
    k < |manifest| && manifest[k].sha256 != "" && manifest[k].destination == d
  }

  /** The lines of d from lo up to hi ask for one MD5. */
  ghost predicate OneMd5(manifest: seq<Entry>, d: string, lo: nat, hi: nat) {
    forall k: nat, l: nat :: lo <= k < hi && lo <= l < hi && Line(manifest, d, k) && Line(manifest, d, l) ==>
      manifest[k].md5 == manifest[l].md5
  }

  lemma SomeLast(manifest: seq<Entry>, k: nat)
    requires k < |manifest| && manifest[k].sha256 != ""
    ensures exists j: nat :: LastOfName(manifest, j) && manifest[j].name == manifest[k].name
  {
    var j := LastExists(manifest, k);
  }

  /** The last line with the artifact name of line k. */
  ghost function LastLine(manifest: seq<Entry>, k: nat): (j: nat)
    requires k < |manifest| && manifest[k].sha256 != ""
    ensures LastOfName(manifest, j) && manifest[j].name == manifest[k].name
  {
    SomeLast(manifest, k);
    var j: nat :| LastOfName(manifest, j) && manifest[j].name == manifest[k].name;
    j
  }

  /** The MD5 of a genuine artifact staged for line k. */
  ghost function PlacedMd5(manifest: seq<Entry>, k: nat): string
    requires k < |manifest| && manifest[k].sha256 != ""
  {
    manifest[LastLine(manifest, k)].md5
  }

  /** The lines of d after `after` and before j find the artifact of line `after` up to date. */
  ghost predicate SuitPlaced(manifest: seq<Entry>, d: string, after: nat, j: nat)
    requires after < |manifest| && manifest[after].sha256 != ""
  {
    forall k: nat :: after < k < j && Line(manifest, d, k) ==> manifest[k].md5 == PlacedMd5(manifest, after)
  }

  /**
   The lines of d before j can all succeed with d changed once, at line `turn`: those
   before find the old file up to date and those after it the new one. Changing takes
   an artifact, which only the first line of a name finds. No turn is `turn` = j.
   */
  ghost predicate TurnsAt(manifest: seq<Entry>, d: string, j: nat, turn: nat, genuine: bool) {
    && turn <= j && OneMd5(manifest, d, 0, turn) && OneMd5(manifest, d, turn + 1, j)
    && (turn < j ==>
         && Line(manifest, d, turn) && FirstOfName(manifest, turn)
         && (genuine ==> SuitPlaced(manifest, d, turn, j))
         && forall k: nat :: k < turn && Line(manifest, d, k) ==> manifest[k].md5 != manifest[turn].md5)
  }

  /**
   Line i can create its destination and line j be the next to change it, with every
   line in between succeeding. Any line may change it, unless artifacts are genuine.
   */
  ghost predicate Doubles(manifest: seq<Entry>, i: nat, j: nat, genuine: bool) {
    && i < j < |manifest| && FirstOfName(manifest, i) && Line(manifest, manifest[i].destination, j)
    && (forall k: nat :: k < i ==> !Line(manifest, manifest[i].destination, k))
    && (if genuine
        then SuitPlaced(manifest, manifest[i].destination, i, j) && manifest[j].md5 != PlacedMd5(manifest, i)
        else forall k: nat :: i < k < j ==> !Line(manifest, manifest[i].destination, k))
    && (forall x :: AllowedDestination(x) && x != manifest[i].destination ==>
         exists turn: nat :: TurnsAt(manifest, x, j, turn, genuine))
  }

  ghost predicate SomeDoubles(manifest: seq<Entry>, genuine: bool) {
    exists i: nat, j: nat :: Doubles(manifest, i, j, genuine)
  }

  // -------------------------- a destination recorded twice needs such lines

  /** The state of destination d after k lines, its turn included. */
  ghost predicate Turned(digests: Digests, s: Install, manifest: seq<Entry>, d: string, k: nat, turn: nat,
                         genuine: bool) {
    && TurnsAt(manifest, d, k, turn, genuine)
    && (turn == k ==> Recorded(s.changes, d) == [])
    && (turn < k ==>
         || Recorded(s.changes, d) == [true]
         || (Recorded(s.changes, d) == [false] && forall l: nat :: l < turn ==> !Line(manifest, d, l)))
    && (forall l: nat :: (turn == k || l > turn) && l < k && Line(manifest, d, l) ==>
          d in s.files && digests.md5(s.files[d].content) == manifest[l].md5)
    && (genuine && turn < k ==> d in s.files && digests.md5(s.files[d].content) == PlacedMd5(manifest, turn))
  }

  ghost predicate TurnedOnce(digests: Digests, s: Install, manifest: seq<Entry>, d: string, k: nat, genuine: bool) {
    exists turn: nat :: Turned(digests, s, manifest, d, k, turn, genuine)
  }

  /** The lines so far have taken their artifacts. */
  ghost predicate NamesTaken(s: Install, manifest: seq<Entry>, k: nat) {
    forall l: nat :: l < k && l < |manifest| && manifest[l].sha256 != "" ==> manifest[l].name !in s.staged
  }

  /** Genuine artifacts are staged with the MD5 of the last line of their name. */
  ghost predicate StagedGenuine(digests: Digests, s: Install, manifest: seq<Entry>) {
    forall k: nat {:trigger PlacedMd5(manifest, k)} ::
      k < |manifest| && manifest[k].sha256 != "" && manifest[k].name in s.staged ==>
        digests.md5(s.staged[manifest[k].name].content) == PlacedMd5(manifest, k)
  }

  lemma OtherTurned(digests: Digests, s: Install, manifest: seq<Entry>, c: Commands, d: string, k: nat, turn: nat,
                    genuine: bool)
    requires k < |manifest| && !Line(manifest, d, k) && Turned(digests, s, manifest, d, k, turn, genuine)
    requires AllowedDestination(d) && (manifest[k].sha256 != "" ==> AllowedDestination(manifest[k].destination))
    ensures Turned(digests, InstallEntry(digests, s, manifest[k], c), manifest, d, k + 1,
                   if turn == k then k + 1 else turn, genuine)
  {
    if manifest[k].sha256 != "" {
      ApartFrom(d, manifest[k].destination);
      OtherEntry(digests, s, manifest[k], c, d);
    }
  }

  lemma KeptTurned(digests: Digests, s: Install, manifest: seq<Entry>, c: Commands, d: string, k: nat, turn: nat,
                   genuine: bool)
    requires Line(manifest, d, k) && Turned(digests, s, manifest, d, k, turn, genuine)
    requires d in s.files && digests.md5(s.files[d].content) == manifest[k].md5
    ensures var later := if turn == k then k + 1 else turn;
      Turned(digests, KeepEntry(s, manifest[k], c), manifest, d, k + 1, later, genuine)
  {
  }

  lemma ReplacedTurned(digests: Digests, s: Install, manifest: seq<Entry>, c: Commands, d: string, k: nat,
                       genuine: bool)
    requires Line(manifest, d, k) && Turned(digests, s, manifest, d, k, k, genuine) && NamesTaken(s, manifest, k)
    requires !(d in s.files && digests.md5(s.files[d].content) == manifest[k].md5)
    requires !ReplaceEntry(s, manifest[k], c).failed && (genuine ==> StagedGenuine(digests, s, manifest))
    ensures Turned(digests, ReplaceEntry(s, manifest[k], c), manifest, d, k + 1, k, genuine)
  {
    RecordedSnoc(s.changes, Change(d, d in s.files), d);
  }

  /** A turn before j is a turn before any earlier line. */
  lemma TurnsEarlier(manifest: seq<Entry>, d: string, j: nat, turn: nat, earlier: nat, genuine: bool)
    requires TurnsAt(manifest, d, j, turn, genuine) && earlier <= j
    ensures TurnsAt(manifest, d, earlier, if turn < earlier then turn else earlier, genuine)
  {
  }

  /** All destinations have turned once at most. */
  ghost predicate AllTurned(digests: Digests, s: Install, manifest: seq<Entry>, k: nat, genuine: bool) {
    && NamesTaken(s, manifest, k) && (genuine ==> StagedGenuine(digests, s, manifest))
    && forall d :: AllowedDestination(d) ==> TurnedOnce(digests, s, manifest, d, k, genuine)
  }

  lemma {:induction false} FirstLineBetween(manifest: seq<Entry>, d: string, i: nat, k: nat) returns (j: nat)
    requires i < k && Line(manifest, d, k)
    ensures i < j <= k && Line(manifest, d, j) && forall l: nat :: i < l < j ==> !Line(manifest, d, l)
    decreases k
  {
    if l: nat :| i < l < k && Line(manifest, d, l) {
      j := FirstLineBetween(manifest, d, i, l);
    } else {
      j := k;
    }
  }

  lemma TurnsBefore(digests: Digests, s: Install, manifest: seq<Entry>, k: nat, j: nat, x: string, genuine: bool)
    requires AllTurned(digests, s, manifest, k, genuine) && j <= k && AllowedDestination(x)
    ensures exists t: nat :: TurnsAt(manifest, x, j, t, genuine)
  {
    assert TurnedOnce(digests, s, manifest, x, k, genuine);
    var t: nat :| Turned(digests, s, manifest, x, k, t, genuine);
    TurnsEarlier(manifest, x, k, t, j, genuine);
  }

  /** A second record is made only where the lines double. */
  lemma SecondRecordDoubles(digests: Digests, before: Files, s: Install, manifest: seq<Entry>, d: string, k: nat,
                            turn: nat, genuine: bool)
    requires Line(manifest, d, k) && AllowedDestination(d) && AllTurned(digests, s, manifest, k, genuine)
    requires Turned(digests, s, manifest, d, k, turn, genuine) && turn < k
    requires Stands(before, s, d) && BackupOf(d) !in s.files
    requires !(d in s.files && digests.md5(s.files[d].content) == manifest[k].md5)
    ensures SomeDoubles(manifest, genuine)
  {
    var j := k;
    if !genuine {
      j := FirstLineBetween(manifest, d, turn, k);
    }
    forall x | AllowedDestination(x) ensures exists t: nat :: TurnsAt(manifest, x, j, t, genuine) {
      TurnsBefore(digests, s, manifest, k, j, x, genuine);
    }
    assert Doubles(manifest, turn, j, genuine);
  }

  /** The line is not kept: it changes its destination for the first time, or the loop ends with it. */
  lemma ReplaceTurns(digests: Digests, before: Files, s: Install, manifest: seq<Entry>, c: Commands, d: string,
                     k: nat, genuine: bool)
    requires Line(manifest, d, k) && AllowedDestination(d)
    requires AllTurned(digests, s, manifest, k, genuine)
    requires Stands(before, s, d) && !SomeDoubles(manifest, genuine) && BackupOf(d) !in s.files
    requires !(d in s.files && digests.md5(s.files[d].content) == manifest[k].md5)
    ensures var next := ReplaceEntry(s, manifest[k], c);
      && |Recorded(next.changes, d)| <= 1
      && (!next.failed ==> TurnedOnce(digests, next, manifest, d, k + 1, genuine))
  {
    assert TurnedOnce(digests, s, manifest, d, k, genuine);
    var turn: nat :| Turned(digests, s, manifest, d, k, turn, genuine);
    if turn < k {
      SecondRecordDoubles(digests, before, s, manifest, d, k, turn, genuine);
    }
    RecordedSnoc(s.changes, Change(d, d in s.files), d);
    if !ReplaceEntry(s, manifest[k], c).failed {
      ReplacedTurned(digests, s, manifest, c, d, k, genuine);
      assert Turned(digests, ReplaceEntry(s, manifest[k], c), manifest, d, k + 1, k, genuine);
    }
  }

  lemma OtherTurns(digests: Digests, s: Install, manifest: seq<Entry>, c: Commands, d: string, k: nat, genuine: bool)
    requires k < |manifest| && !Line(manifest, d, k) && TurnedOnce(digests, s, manifest, d, k, genuine)
    requires AllowedDestination(d) && (manifest[k].sha256 != "" ==> AllowedDestination(manifest[k].destination))
    ensures TurnedOnce(digests, InstallEntry(digests, s, manifest[k], c), manifest, d, k + 1, genuine)
  {
    var turn: nat :| Turned(digests, s, manifest, d, k, turn, genuine);
    OtherTurned(digests, s, manifest, c, d, k, turn, genuine);
  }

  lemma KeptTurns(digests: Digests, s: Install, manifest: seq<Entry>, c: Commands, d: string, k: nat, genuine: bool)
    requires Line(manifest, d, k) && TurnedOnce(digests, s, manifest, d, k, genuine)
    requires d in s.files && digests.md5(s.files[d].content) == manifest[k].md5
    ensures TurnedOnce(digests, KeepEntry(s, manifest[k], c), manifest, d, k + 1, genuine)
  {
    var turn: nat :| Turned(digests, s, manifest, d, k, turn, genuine);
    KeptTurned(digests, s, manifest, c, d, k, turn, genuine);
  }

  lemma RecordedOnce(digests: Digests, s: Install, manifest: seq<Entry>, d: string, k: nat, genuine: bool)
    requires TurnedOnce(digests, s, manifest, d, k, genuine)
    ensures |Recorded(s.changes, d)| <= 1
  {
    var turn: nat :| Turned(digests, s, manifest, d, k, turn, genuine);
    assert turn <= k;
  }

  lemma OneStepTurns(digests: Digests, before: Files, s: Install, manifest: seq<Entry>, c: Commands, d: string,
                     k: nat, genuine: bool)
    requires k < |manifest| && AllowedManifest(manifest) && AllowedDestination(d) && !s.failed
    requires AllTurned(digests, s, manifest, k, genuine) && Stands(before, s, d) && !SomeDoubles(manifest, genuine)
    ensures var next := InstallEntry(digests, s, manifest[k], c);
      && |Recorded(next.changes, d)| <= 1
      && (!next.failed ==> TurnedOnce(digests, next, manifest, d, k + 1, genuine))
  {
    var e := manifest[k];
    assert TurnedOnce(digests, s, manifest, d, k, genuine) && e in manifest;
    if !Line(manifest, d, k) {
      OtherTurns(digests, s, manifest, c, d, k, genuine);
      RecordedOnce(digests, InstallEntry(digests, s, e, c), manifest, d, k + 1, genuine);
    } else {
      RecordedOnce(digests, s, manifest, d, k, genuine);
      if d in s.files && digests.md5(s.files[d].content) == e.md5 {
        KeptTurns(digests, s, manifest, c, d, k, genuine);
      } else if BackupOf(d) !in s.files {
        ReplaceTurns(digests, before, s, manifest, c, d, k, genuine);
      }
    }
  }

  lemma NextTaken(digests: Digests, s: Install, manifest: seq<Entry>, c: Commands, k: nat)
    requires k < |manifest| && NamesTaken(s, manifest, k) && !InstallEntry(digests, s, manifest[k], c).failed
    requires !s.failed
    ensures NamesTaken(InstallEntry(digests, s, manifest[k], c), manifest, k + 1)
  {
  }

  lemma StagedStays(digests: Digests, s: Install, manifest: seq<Entry>, e: Entry, c: Commands)
    requires StagedGenuine(digests, s, manifest)
    ensures StagedGenuine(digests, InstallEntry(digests, s, e, c), manifest)
  {
  }

  lemma AllStepsTurn(digests: Digests, before: Files, s: Install, manifest: seq<Entry>, c: Commands, k: nat,
                     genuine: bool)
    requires k < |manifest| && AllowedManifest(manifest) && !s.failed
    requires AllTurned(digests, s, manifest, k, genuine) && !SomeDoubles(manifest, genuine)
    requires forall d :: AllowedDestination(d) ==> Stands(before, s, d)
    ensures var next := InstallEntry(digests, s, manifest[k], c);
      && (forall d :: AllowedDestination(d) ==> |Recorded(next.changes, d)| <= 1)
      && (!next.failed ==> AllTurned(digests, next, manifest, k + 1, genuine))
  {
    var next := InstallEntry(digests, s, manifest[k], c);
    forall d | AllowedDestination(d)
      ensures |Recorded(next.changes, d)| <= 1
      ensures !next.failed ==> TurnedOnce(digests, next, manifest, d, k + 1, genuine)
    {
      OneStepTurns(digests, before, s, manifest, c, d, k, genuine);
    }
    if !next.failed {
      NextTaken(digests, s, manifest, c, k);
      if genuine {
        StagedStays(digests, s, manifest, manifest[k], c);
      }
    }
  }

  /** The loop over one more line. */
  lemma StepAtEnd(digests: Digests, s: Install, manifest: seq<Entry>, commands: seq<Commands>, k: nat)
    requires |commands| == |manifest| && k < |manifest|
    ensures var last := InstallAll(digests, s, manifest[..k], commands[..k]);
      InstallAll(digests, s, manifest[..k + 1], commands[..k + 1]) ==
        if last.failed then last else InstallEntry(digests, last, manifest[k], commands[k])
  {
    InstallSplit(digests, s, manifest[..k + 1], commands[..k + 1], k);
    assert manifest[..k + 1][..k] == manifest[..k] && commands[..k + 1][..k] == commands[..k];
    assert manifest[..k + 1][k..] == [manifest[k]] && commands[..k + 1][k..] == [commands[k]];
  }

  lemma AllStand(digests: Digests, s: Install, manifest: seq<Entry>, commands: seq<Commands>)
    requires |commands| == |manifest| && AllowedManifest(manifest) && s.changes == []
    ensures forall d :: AllowedDestination(d) ==> Stands(s.files, InstallAll(digests, s, manifest, commands), d)
  {
    forall d | AllowedDestination(d) ensures Stands(s.files, InstallAll(digests, s, manifest, commands), d) {
      LoopStands(digests, s.files, s, manifest, commands, d);
    }
  }

  lemma {:induction false} OncePerDestination(digests: Digests, s: Install, manifest: seq<Entry>,
                                              commands: seq<Commands>, k: nat, genuine: bool)
    requires |commands| == |manifest| && AllowedManifest(manifest) && !SomeDoubles(manifest, genuine) && k <= |manifest|
    requires s.changes == [] && !s.failed && (genuine ==> StagedGenuine(digests, s, manifest))
    ensures var now := InstallAll(digests, s, manifest[..k], commands[..k]);
      && (forall d :: AllowedDestination(d) ==> |Recorded(now.changes, d)| <= 1)
      && (!now.failed ==> AllTurned(digests, now, manifest, k, genuine))
    decreases k
  {
    if k == 0 {
      forall d | AllowedDestination(d) ensures TurnedOnce(digests, s, manifest, d, 0, genuine) {
        assert Turned(digests, s, manifest, d, 0, 0, genuine);
      }
    } else {
      var last := InstallAll(digests, s, manifest[..k - 1], commands[..k - 1]);
      OncePerDestination(digests, s, manifest, commands, k - 1, genuine);
      StepAtEnd(digests, s, manifest, commands, k - 1);
      if !last.failed {
        AllStand(digests, s, manifest[..k - 1], commands[..k - 1]);
        AllStepsTurn(digests, s.files, last, manifest, commands[k - 1], k - 1, genuine);
      }
    }
  }

  lemma BeginsGenuine(env: Environment, files: Files)
    requires env.Valid() && Genuine(env) && CheckStatus(env, files) == 0
    ensures StagedGenuine(env.digests, Begin(env, files), env.manifest)
  {
    forall k: nat | k < |env.manifest| && env.manifest[k].sha256 != ""
      ensures env.manifest[k].name in Begin(env, files).staged ==>
        env.digests.md5(Begin(env, files).staged[env.manifest[k].name].content) == PlacedMd5(env.manifest, k)
    {
      var j := LastLine(env.manifest, k);
      AllStaged(env.digests, map[], env.manifest, env.downloads, j);
      assert GenuineArtifact(env.digests, env.downloads[j].value.content, env.manifest[j]);
    }
  }

  /** So without doubling lines every failure restores every content. */
  lemma NoDoublesRestores(env: Environment, files: Files, genuine: bool)
    requires env.Valid() && !SomeDoubles(env.manifest, genuine) && (genuine ==> Genuine(env))
    requires Run(env, files).status != 0
    ensures SameContents(files, Run(env, files).files)
  {
    if CheckStatus(env, files) == 0 {
      var n := |env.manifest|;
      ReachedMeansVerified(env, files);
      assert env.manifest[..n] == env.manifest && env.commands[..n] == env.commands;
      if genuine {
        BeginsGenuine(env, files);
      }
      OncePerDestination(env.digests, Begin(env, files), env.manifest, env.commands, n, genuine);
      RollbackRestoresIff(env.digests, files, Begin(env, files).staged, env.manifest, env.commands);
    } else {
      assert SameContents(files, files);
    }
  }
}
