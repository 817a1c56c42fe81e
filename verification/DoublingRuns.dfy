/**
 Doubling lines are a run: environments and old files with which every line before the
 second one succeeds, so that the destination is recorded twice.
 */
module DoublingRuns {
  import opened Installer
  import opened Transaction
  import opened Adversary
  import opened Doubling

  // ------------------------- doubling lines are a run that does not restore

  /** A turn of destination d before line j. */
  ghost function Turn(manifest: seq<Entry>, d: string, j: nat, genuine: bool): nat {
    if exists turn: nat :: TurnsAt(manifest, d, j, turn, genuine) then
      var turn: nat :| TurnsAt(manifest, d, j, turn, genuine);
      turn
    else 0
  }

  /** Line k of another destination than line i's, which all have turns. */
  ghost predicate OtherLine(manifest: seq<Entry>, i: nat, j: nat, k: nat) {
    && i < |manifest| && k < j && k < |manifest| && manifest[k].sha256 != ""
    && AllowedDestination(manifest[k].destination) && manifest[k].destination != manifest[i].destination
  }

  ghost function TurnOf(manifest: seq<Entry>, j: nat, k: nat, genuine: bool): nat
    requires k < |manifest|
  {
    Turn(manifest, manifest[k].destination, j, genuine)
  }

  lemma TurnTurns(manifest: seq<Entry>, i: nat, j: nat, k: nat, genuine: bool)
    requires Doubles(manifest, i, j, genuine) && OtherLine(manifest, i, j, k)
    ensures TurnsAt(manifest, manifest[k].destination, j, TurnOf(manifest, j, k, genuine), genuine)
  {
  }

  /**
   What the files before, the staged artifacts and the digests must be like for all
   lines before j to succeed: old files suit the lines before the turn, staged ones
   those after it. Line i creates a file that suits the lines up to j, but not line j.
   */
  ghost predicate Suits(digests: Digests, files: Files, staged: Files, manifest: seq<Entry>, i: nat, j: nat,
                        genuine: bool)
    requires i < |manifest|
  {
    var d := manifest[i].destination;
    && d !in files && manifest[i].name in staged
    && (j < |manifest| ==> digests.md5(staged[manifest[i].name].content) != manifest[j].md5)
    && (forall k: nat :: i < k < j && Line(manifest, d, k) ==>
         digests.md5(staged[manifest[i].name].content) == manifest[k].md5)
    && (forall x :: AllowedDestination(x) ==> BackupOf(x) !in files)
    && (forall k: nat {:trigger OtherLine(manifest, i, j, k)} :: OtherLine(manifest, i, j, k) ==>
         SuitsLine(digests, files, staged, manifest, j, k, genuine))
  }

  ghost predicate SuitsLine(digests: Digests, files: Files, staged: Files, manifest: seq<Entry>, j: nat, k: nat,
                            genuine: bool)
    requires k < |manifest| && k < j
  {
    var x, turn := manifest[k].destination, TurnOf(manifest, j, k, genuine);
    && (k < turn ==> x in files && digests.md5(files[x].content) == manifest[k].md5)
    && (k == turn ==> manifest[k].name in staged && (x in files ==> digests.md5(files[x].content) != manifest[k].md5))
    && (k > turn && turn < |manifest| ==>
         manifest[turn].name in staged && digests.md5(staged[manifest[turn].name].content) == manifest[k].md5)
  }

  /** What the staged names of first lines still hold. */
  ghost predicate NamesLeft(staged: Files, s: Install, manifest: seq<Entry>, k: nat) {
    forall l: nat {:trigger FirstOfName(manifest, l)} :: k <= l && FirstOfName(manifest, l) ==>
      EqualAt(staged, s.staged, manifest[l].name)
  }

  /** Destination x, which is not line i's, after k lines. */
  ghost predicate OtherAt(files: Files, staged: Files, s: Install, manifest: seq<Entry>, x: string, j: nat, k: nat,
                          genuine: bool) {
    var turn := Turn(manifest, x, j, genuine);
    && (k <= turn ==> SameAt(files, s.files, x) && BackupOf(x) !in s.files)
    && (turn < k && turn < |manifest| && manifest[turn].name in staged ==>
         x in s.files && s.files[x].content == staged[manifest[turn].name].content)
  }

  /** Line i's destination after k lines. */
  ghost predicate CreatorAt(staged: Files, s: Install, manifest: seq<Entry>, i: nat, k: nat)
    requires i < |manifest|
  {
    var d := manifest[i].destination;
    && BackupOf(d) !in s.files
    && (k <= i ==> d !in s.files && Recorded(s.changes, d) == [])
    && (i < k && manifest[i].name in staged ==>
         d in s.files && s.files[d].content == staged[manifest[i].name].content && Recorded(s.changes, d) == [false])
  }

  ghost predicate Along(files: Files, staged: Files, s: Install, manifest: seq<Entry>, i: nat, j: nat, k: nat,
                        genuine: bool)
    requires i < |manifest|
  {
    && !s.failed && NamesLeft(staged, s, manifest, k) && CreatorAt(staged, s, manifest, i, k)
    && forall x :: AllowedDestination(x) && x != manifest[i].destination ==>
         OtherAt(files, staged, s, manifest, x, j, k, genuine)
  }

  const WORKS: Commands := Commands(true, true, true)

  lemma NamesLeftNext(digests: Digests, staged: Files, s: Install, manifest: seq<Entry>, k: nat)
    requires k < |manifest| && NamesLeft(staged, s, manifest, k)
    ensures NamesLeft(staged, InstallEntry(digests, s, manifest[k], WORKS), manifest, k + 1)
  {
  }

  /** A line of another destination succeeds. */
  lemma OtherLineWorks(digests: Digests, files: Files, staged: Files, s: Install, manifest: seq<Entry>, i: nat,
                       j: nat, k: nat, genuine: bool)
    requires Doubles(manifest, i, j, genuine) && OtherLine(manifest, i, j, k) && !s.failed
    requires SuitsLine(digests, files, staged, manifest, j, k, genuine) && NamesLeft(staged, s, manifest, k)
    requires OtherAt(files, staged, s, manifest, manifest[k].destination, j, k, genuine)
    ensures var next := InstallEntry(digests, s, manifest[k], WORKS);
      !next.failed && OtherAt(files, staged, next, manifest, manifest[k].destination, j, k + 1, genuine)
  {
    TurnTurns(manifest, i, j, k, genuine);
    BackupIsNoDestination(manifest[k].destination);
  }

  /** Line i creates its file. */
  lemma CreatorWorks(digests: Digests, files: Files, staged: Files, s: Install, manifest: seq<Entry>, i: nat, j: nat,
                     genuine: bool)
    requires Doubles(manifest, i, j, genuine) && AllowedDestination(manifest[i].destination) && !s.failed
    requires Suits(digests, files, staged, manifest, i, j, genuine) && NamesLeft(staged, s, manifest, i)
    requires CreatorAt(staged, s, manifest, i, i)
    ensures var next := InstallEntry(digests, s, manifest[i], WORKS);
      !next.failed && CreatorAt(staged, next, manifest, i, i + 1)
  {
    var d := manifest[i].destination;
    BackupIsNoDestination(d);
    RecordedSnoc(s.changes, Change(d, false), d);
  }

  lemma OtherStays(digests: Digests, files: Files, staged: Files, s: Install, manifest: seq<Entry>, x: string, j: nat,
                   k: nat, genuine: bool)
    requires k < |manifest| && !Line(manifest, x, k) && AllowedDestination(x)
    requires manifest[k].sha256 != "" ==> AllowedDestination(manifest[k].destination)
    requires OtherAt(files, staged, s, manifest, x, j, k, genuine) && k < j
    requires TurnsAt(manifest, x, j, Turn(manifest, x, j, genuine), genuine)
    ensures OtherAt(files, staged, InstallEntry(digests, s, manifest[k], WORKS), manifest, x, j, k + 1, genuine)
  {
    if manifest[k].sha256 != "" {
      ApartFrom(x, manifest[k].destination);
      OtherEntry(digests, s, manifest[k], WORKS, x);
    }
  }

  /** A line of the created destination before j finds it up to date. */
  lemma CreatorKeeps(digests: Digests, files: Files, staged: Files, s: Install, manifest: seq<Entry>, i: nat, j: nat,
                     k: nat, genuine: bool)
    requires Doubles(manifest, i, j, genuine) && Suits(digests, files, staged, manifest, i, j, genuine) && !s.failed
    requires i < k < j && Line(manifest, manifest[i].destination, k) && AllowedDestination(manifest[i].destination)
    requires CreatorAt(staged, s, manifest, i, k)
    ensures var next := InstallEntry(digests, s, manifest[k], WORKS);
      !next.failed && CreatorAt(staged, next, manifest, i, k + 1)
  {
    BackupIsNoDestination(manifest[i].destination);
  }

  lemma CreatorStays(digests: Digests, staged: Files, s: Install, manifest: seq<Entry>, i: nat, k: nat)
    requires i < |manifest| && k < |manifest| && k != i && !Line(manifest, manifest[i].destination, k)
    requires AllowedDestination(manifest[i].destination)
    requires manifest[k].sha256 != "" ==> AllowedDestination(manifest[k].destination)
    requires CreatorAt(staged, s, manifest, i, k)
    ensures CreatorAt(staged, InstallEntry(digests, s, manifest[k], WORKS), manifest, i, k + 1)
  {
    if manifest[k].sha256 != "" {
      ApartFrom(manifest[i].destination, manifest[k].destination);
      OtherEntry(digests, s, manifest[k], WORKS, manifest[i].destination);
    }
  }

  /** Every line before j succeeds, and leaves line i's destination as it should be. */
  lemma CreatorNext(digests: Digests, files: Files, staged: Files, s: Install, manifest: seq<Entry>, i: nat, j: nat,
                    k: nat, genuine: bool)
    requires Doubles(manifest, i, j, genuine) && Suits(digests, files, staged, manifest, i, j, genuine) && k < j
    requires AllowedManifest(manifest) && Along(files, staged, s, manifest, i, j, k, genuine)
    ensures var next := InstallEntry(digests, s, manifest[k], WORKS);
      && CreatorAt(staged, next, manifest, i, k + 1)
      && (!OtherLine(manifest, i, j, k) ==> !next.failed)
  {
    var d := manifest[i].destination;
    assert manifest[k] in manifest && manifest[i] in manifest;
    if k == i {
      CreatorWorks(digests, files, staged, s, manifest, i, j, genuine);
    } else if Line(manifest, d, k) {
      CreatorKeeps(digests, files, staged, s, manifest, i, j, k, genuine);
    } else {
      CreatorStays(digests, staged, s, manifest, i, k);
    }
  }

  lemma OtherNext(digests: Digests, files: Files, staged: Files, s: Install, manifest: seq<Entry>, i: nat, j: nat,
                  k: nat, x: string, genuine: bool)
    requires Doubles(manifest, i, j, genuine) && Suits(digests, files, staged, manifest, i, j, genuine) && k < j
    requires AllowedManifest(manifest) && Along(files, staged, s, manifest, i, j, k, genuine)
    requires AllowedDestination(x) && x != manifest[i].destination
    ensures var next := InstallEntry(digests, s, manifest[k], WORKS);
      && OtherAt(files, staged, next, manifest, x, j, k + 1, genuine)
      && (Line(manifest, x, k) ==> !next.failed)
  {
    assert manifest[k] in manifest;
    if Line(manifest, x, k) {
      assert OtherLine(manifest, i, j, k);
      OtherLineWorks(digests, files, staged, s, manifest, i, j, k, genuine);
    } else {
      assert exists turn: nat :: TurnsAt(manifest, x, j, turn, genuine);
      OtherStays(digests, files, staged, s, manifest, x, j, k, genuine);
    }
  }

  lemma AlongNext(digests: Digests, files: Files, staged: Files, s: Install, manifest: seq<Entry>, i: nat, j: nat,
                  k: nat, genuine: bool)
    requires Doubles(manifest, i, j, genuine) && Suits(digests, files, staged, manifest, i, j, genuine) && k < j
    requires AllowedManifest(manifest) && Along(files, staged, s, manifest, i, j, k, genuine)
    ensures Along(files, staged, InstallEntry(digests, s, manifest[k], WORKS), manifest, i, j, k + 1, genuine)
  {
    var next := InstallEntry(digests, s, manifest[k], WORKS);
    NamesLeftNext(digests, staged, s, manifest, k);
    CreatorNext(digests, files, staged, s, manifest, i, j, k, genuine);
    if OtherLine(manifest, i, j, k) {
      OtherNext(digests, files, staged, s, manifest, i, j, k, manifest[k].destination, genuine);
    }
    forall x | AllowedDestination(x) && x != manifest[i].destination
      ensures OtherAt(files, staged, next, manifest, x, j, k + 1, genuine)
    {
      OtherNext(digests, files, staged, s, manifest, i, j, k, x, genuine);
    }
  }

  lemma {:induction false} AlongUpTo(digests: Digests, files: Files, staged: Files, manifest: seq<Entry>,
                                     commands: seq<Commands>, i: nat, j: nat, k: nat, genuine: bool)
    requires Doubles(manifest, i, j, genuine) && Suits(digests, files, staged, manifest, i, j, genuine) && k <= j
    requires AllowedManifest(manifest)
    requires |commands| == |manifest| && forall l :: 0 <= l < |commands| ==> commands[l] == WORKS
    ensures var s := InstallAll(digests, Install(files, staged, [], false), manifest[..k], commands[..k]);
      Along(files, staged, s, manifest, i, j, k, genuine)
    decreases k
  {
    if k == 0 {
    } else {
      AlongUpTo(digests, files, staged, manifest, commands, i, j, k - 1, genuine);
      var last := InstallAll(digests, Install(files, staged, [], false), manifest[..k - 1], commands[..k - 1]);
      StepAtEnd(digests, Install(files, staged, [], false), manifest, commands, k - 1);
      AlongNext(digests, files, staged, last, manifest, i, j, k - 1, genuine);
    }
  }

  /** Records of a destination are only ever added. */
  lemma {:induction false} RecordsGrow(digests: Digests, s: Install, manifest: seq<Entry>, commands: seq<Commands>,
                                       d: string)
    requires |commands| == |manifest|
    ensures |Recorded(s.changes, d)| <= |Recorded(InstallAll(digests, s, manifest, commands).changes, d)|
    decreases |manifest|
  {
    if manifest == [] || s.failed {
    } else {
      var e := manifest[0];
      RecordedSnoc(s.changes, Change(e.destination, e.destination in s.files), d);
      RecordsGrow(digests, InstallEntry(digests, s, e, commands[0]), manifest[1..], commands[1..], d);
    }
  }

  /** The second line of the created destination is recorded too. */
  lemma SecondRecord(digests: Digests, files: Files, staged: Files, s: Install, manifest: seq<Entry>, i: nat, j: nat,
                     genuine: bool)
    requires Doubles(manifest, i, j, genuine) && Suits(digests, files, staged, manifest, i, j, genuine)
    requires AllowedManifest(manifest) && Along(files, staged, s, manifest, i, j, j, genuine)
    ensures |Recorded(InstallEntry(digests, s, manifest[j], WORKS).changes, manifest[i].destination)| == 2
  {
    RecordedSnoc(s.changes, Change(manifest[i].destination, true), manifest[i].destination);
  }

  lemma RecordedTwice(digests: Digests, files: Files, staged: Files, manifest: seq<Entry>, commands: seq<Commands>,
                      i: nat, j: nat, genuine: bool)
    requires Doubles(manifest, i, j, genuine) && AllowedManifest(manifest)
    requires Suits(digests, files, staged, manifest, i, j, genuine)
    requires |commands| == |manifest| && forall l :: 0 <= l < |commands| ==> commands[l] == WORKS
    ensures |Recorded(InstallAll(digests, Install(files, staged, [], false), manifest, commands).changes,
                      manifest[i].destination)| > 1
  {
    var start := Install(files, staged, [], false);
    AlongUpTo(digests, files, staged, manifest, commands, i, j, j, genuine);
    var s := InstallAll(digests, start, manifest[..j], commands[..j]);
    SecondRecord(digests, files, staged, s, manifest, i, j, genuine);
    InstallSplit(digests, start, manifest, commands, j);
    RecordsGrow(digests, InstallEntry(digests, s, manifest[j], WORKS), manifest[j..][1..], commands[j..][1..],
                manifest[i].destination);
  }

  // ------------------------------------------------- the environment for them

  /** Line l comes after a turn that places the artifact of line a. */
  ghost predicate Follows(manifest: seq<Entry>, i: nat, j: nat, a: nat, l: nat) {
    && OtherLine(manifest, i, j, l) && a < |manifest|
    && TurnOf(manifest, j, l, false) < l && manifest[TurnOf(manifest, j, l, false)].name == manifest[a].name
  }

  ghost function Following(manifest: seq<Entry>, i: nat, j: nat, a: nat): (l: nat)
    requires exists l: nat :: Follows(manifest, i, j, a, l)
    ensures Follows(manifest, i, j, a, l)
  {
    var l: nat :| Follows(manifest, i, j, a, l);
    l
  }

  /** The MD5 those lines ask for; one nobody asks for if there are none. */
  ghost function NextMd5(manifest: seq<Entry>, i: nat, j: nat, a: nat): string {
    if exists l: nat :: Follows(manifest, i, j, a, l) then manifest[Following(manifest, i, j, a)].md5
    else NoMd5(manifest)
  }

  ghost function NextMd5s(manifest: seq<Entry>, i: nat, j: nat): (r: seq<string>)
    ensures |r| == |manifest|
    ensures forall a :: 0 <= a < |r| ==> r[a] == NextMd5(manifest, i, j, a)
  {
    seq(|manifest|, a requires 0 <= a < |manifest| => NextMd5(manifest, i, j, a))
  }

  lemma FirstIsOne(manifest: seq<Entry>, k: nat, l: nat)
    requires FirstOfName(manifest, k) && FirstOfName(manifest, l) && manifest[k].name == manifest[l].name
    ensures k == l
  {
  }

  lemma SameTurn(manifest: seq<Entry>, i: nat, j: nat, k: nat, l: nat)
    requires Doubles(manifest, i, j, false) && OtherLine(manifest, i, j, k) && OtherLine(manifest, i, j, l)
    requires TurnOf(manifest, j, k, false) < k && TurnOf(manifest, j, l, false) < l
    requires manifest[TurnOf(manifest, j, k, false)].name == manifest[TurnOf(manifest, j, l, false)].name
    ensures manifest[k].destination == manifest[l].destination && manifest[k].md5 == manifest[l].md5
  {
    TurnTurns(manifest, i, j, k, false);
    TurnTurns(manifest, i, j, l, false);
    FirstIsOne(manifest, TurnOf(manifest, j, k, false), TurnOf(manifest, j, l, false));
  }

  lemma NextMd5Is(manifest: seq<Entry>, i: nat, j: nat, a: nat, l: nat)
    requires Doubles(manifest, i, j, false) && Follows(manifest, i, j, a, l)
    ensures NextMd5(manifest, i, j, a) == manifest[l].md5
  {
    SameTurn(manifest, i, j, Following(manifest, i, j, a), l);
  }

  /** No turn places the artifact of line i. */
  lemma NoneFollows(manifest: seq<Entry>, i: nat, j: nat, a: nat, l: nat)
    requires Doubles(manifest, i, j, false) && a < |manifest| && manifest[a].name == manifest[i].name
    ensures !Follows(manifest, i, j, a, l)
  {
    if Follows(manifest, i, j, a, l) {
      TurnTurns(manifest, i, j, l, false);
      FirstIsOne(manifest, TurnOf(manifest, j, l, false), i);
      assert false;
    }
  }

  lemma NextMd5OfCreator(manifest: seq<Entry>, i: nat, j: nat, a: nat)
    requires Doubles(manifest, i, j, false) && a < |manifest| && manifest[a].name == manifest[i].name
    ensures NextMd5(manifest, i, j, a) == NoMd5(manifest)
  {
    forall l: nat ensures !Follows(manifest, i, j, a, l) { NoneFollows(manifest, i, j, a, l); }
  }

  /** Genuine artifacts have the listed MD5s. */
  ghost function ArtifactMd5s(manifest: seq<Entry>, i: nat, j: nat, genuine: bool): (r: seq<string>)
    ensures |r| == |manifest|
    ensures forall a :: 0 <= a < |r| ==> r[a] == if genuine then manifest[a].md5 else NextMd5(manifest, i, j, a)
  {
    if genuine then seq(|manifest|, a requires 0 <= a < |manifest| => manifest[a].md5) else NextMd5s(manifest, i, j)
  }

  lemma AdverseIsGenuine(manifest: seq<Entry>, i: nat, j: nat)
    ensures Genuine(Adverse(manifest, true, ArtifactMd5s(manifest, i, j, true), false))
  {
  }

  /** Line k comes before its destination's turn. */
  ghost predicate Precedes(manifest: seq<Entry>, i: nat, j: nat, k: nat, genuine: bool) {
    OtherLine(manifest, i, j, k) && k < TurnOf(manifest, j, k, genuine)
  }

  ghost predicate PrecedesFor(manifest: seq<Entry>, i: nat, j: nat, x: string, k: nat, genuine: bool) {
    Precedes(manifest, i, j, k, genuine) && manifest[k].destination == x
  }

  ghost function Preceding(manifest: seq<Entry>, i: nat, j: nat, x: string, genuine: bool): (k: nat)
    requires exists k: nat :: PrecedesFor(manifest, i, j, x, k, genuine)
    ensures PrecedesFor(manifest, i, j, x, k, genuine)
  {
    var k: nat :| PrecedesFor(manifest, i, j, x, k, genuine);
    k
  }

  ghost function OldMd5(manifest: seq<Entry>, i: nat, j: nat, x: string, genuine: bool): string {
    if exists k: nat :: PrecedesFor(manifest, i, j, x, k, genuine) then
      manifest[Preceding(manifest, i, j, x, genuine)].md5
    else
      ""
  }

  /** A file for every destination with such a line. */
  ghost function OldFiles(manifest: seq<Entry>, i: nat, j: nat, genuine: bool): Files {
    map x | x in (set k | 0 <= k < |manifest| && Precedes(manifest, i, j, k, genuine) :: manifest[k].destination) ::
      UpToDate(|manifest|, OldMd5(manifest, i, j, x, genuine), "644")
  }

  lemma OldFileOf(manifest: seq<Entry>, i: nat, j: nat, x: string, genuine: bool) returns (k: nat)
    requires x in OldFiles(manifest, i, j, genuine)
    ensures PrecedesFor(manifest, i, j, x, k, genuine) && OldMd5(manifest, i, j, x, genuine) == manifest[k].md5
  {
    var some: nat :| Precedes(manifest, i, j, some, genuine) && manifest[some].destination == x;
    assert PrecedesFor(manifest, i, j, x, some, genuine);
    k := Preceding(manifest, i, j, x, genuine);
  }

  lemma OldMd5Is(manifest: seq<Entry>, i: nat, j: nat, k: nat, genuine: bool)
    requires Doubles(manifest, i, j, genuine) && Precedes(manifest, i, j, k, genuine)
    ensures manifest[k].destination in OldFiles(manifest, i, j, genuine)
    ensures OldMd5(manifest, i, j, manifest[k].destination, genuine) == manifest[k].md5
  {
    var l := OldFileOf(manifest, i, j, manifest[k].destination, genuine);
    TurnTurns(manifest, i, j, k, genuine);
  }

  lemma OldFileSuits(manifest: seq<Entry>, i: nat, j: nat, md5s: seq<string>, k: nat, genuine: bool)
    requires |md5s| == |manifest| && Doubles(manifest, i, j, genuine) && OtherLine(manifest, i, j, k)
    ensures var files, x := OldFiles(manifest, i, j, genuine), manifest[k].destination;
      var turn := TurnOf(manifest, j, k, genuine);
      var md5 := Against(manifest, true, md5s).md5;
      && (k < turn ==> x in files && md5(files[x].content) == manifest[k].md5)
      && (k == turn ==> x in files ==> md5(files[x].content) != manifest[k].md5)
  {
    var x := manifest[k].destination;
    if k < TurnOf(manifest, j, k, genuine) {
      OldMd5Is(manifest, i, j, k, genuine);
    } else if x in OldFiles(manifest, i, j, genuine) {
      var l := OldFileOf(manifest, i, j, x, genuine);
      TurnTurns(manifest, i, j, k, genuine);
    }
    LooksUpToDate(manifest, true, md5s, OldMd5(manifest, i, j, x, genuine), "644");
  }

  /** A line before one that precedes its turn precedes it too. */
  lemma EarlierPrecedes(manifest: seq<Entry>, i: nat, j: nat, k: nat, l: nat, genuine: bool)
    requires Precedes(manifest, i, j, k, genuine) && l <= k && Line(manifest, manifest[k].destination, l)
    ensures Precedes(manifest, i, j, l, genuine)
  {
  }

  lemma OldStartupIsFirst(manifest: seq<Entry>, i: nat, j: nat, genuine: bool) returns (first: nat)
    requires Doubles(manifest, i, j, genuine) && Acceptable(manifest) && STARTUP in OldFiles(manifest, i, j, genuine)
    ensures first < |manifest|
    ensures StartupMd5(manifest) == manifest[first].md5 == OldMd5(manifest, i, j, STARTUP, genuine)
  {
    var k := OldFileOf(manifest, i, j, STARTUP, genuine);
    first := StartupIsFirst(manifest, k);
    assert WellFormed(manifest[first]);
    EarlierPrecedes(manifest, i, j, k, first, genuine);
    OldMd5Is(manifest, i, j, first, genuine);
  }

  /** The old startup file, if there is one, is the one the script looks for. */
  lemma OldStartup(manifest: seq<Entry>, i: nat, j: nat, md5s: seq<string>, genuine: bool)
    requires |md5s| == |manifest| && Doubles(manifest, i, j, genuine) && Acceptable(manifest)
    requires STARTUP in OldFiles(manifest, i, j, genuine)
    ensures var startup := OldFiles(manifest, i, j, genuine)[STARTUP].content;
      Against(manifest, true, md5s).md5(startup) == StartupMd5(manifest)
  {
    var first := OldStartupIsFirst(manifest, i, j, genuine);
    LooksUpToDate(manifest, true, md5s, manifest[first].md5, "644");
  }

  lemma OldFilesReach(manifest: seq<Entry>, i: nat, j: nat, md5s: seq<string>, genuine: bool)
    requires |md5s| == |manifest| && Doubles(manifest, i, j, genuine) && Acceptable(manifest)
    ensures CheckStatus(Adverse(manifest, true, md5s, false), OldFiles(manifest, i, j, genuine)) == 0
  {
    if STARTUP in OldFiles(manifest, i, j, genuine) {
      OldStartup(manifest, i, j, md5s, genuine);
    }
    LoopReached(manifest, true, md5s, false, OldFiles(manifest, i, j, genuine));
  }

  /** What is staged for the name of line l, and its MD5. */
  lemma StagedMd5(manifest: seq<Entry>, i: nat, j: nat, files: Files, l: nat, genuine: bool) returns (a: nat)
    requires l < |manifest| && manifest[l].sha256 != ""
    requires CheckStatus(Adverse(manifest, true, ArtifactMd5s(manifest, i, j, genuine), false), files) == 0
    ensures var env := Adverse(manifest, true, ArtifactMd5s(manifest, i, j, genuine), false);
      var staged, name := Begin(env, files).staged, manifest[l].name;
      && a < |manifest| && manifest[a].name == name && name in staged
      && env.digests.md5(staged[name].content) ==
           if genuine then PlacedMd5(manifest, l) else NextMd5(manifest, i, j, a)
  {
    a := LastLine(manifest, l);
    StagedIsLast(manifest, true, ArtifactMd5s(manifest, i, j, genuine), false, files, a);
  }

  /** The MD5 chosen for the artifact of a turn is what the lines after it ask for. */
  lemma ChosenSuits(manifest: seq<Entry>, i: nat, j: nat, a: nat, k: nat, genuine: bool)
    requires Doubles(manifest, i, j, genuine) && OtherLine(manifest, i, j, k) && TurnOf(manifest, j, k, genuine) < k
    requires a < |manifest| && manifest[a].name == manifest[TurnOf(manifest, j, k, genuine)].name
    requires manifest[TurnOf(manifest, j, k, genuine)].sha256 != ""
    ensures manifest[k].md5 == if genuine then PlacedMd5(manifest, TurnOf(manifest, j, k, genuine))
                               else NextMd5(manifest, i, j, a)
  {
    if genuine {
      TurnTurns(manifest, i, j, k, true);
    } else {
      NextMd5Is(manifest, i, j, a, k);
    }
  }

  /** What is staged for a turn suits the lines after it. */
  lemma StagedSuits(manifest: seq<Entry>, i: nat, j: nat, files: Files, k: nat, genuine: bool)
    requires Doubles(manifest, i, j, genuine) && OtherLine(manifest, i, j, k) && TurnOf(manifest, j, k, genuine) <= k
    requires CheckStatus(Adverse(manifest, true, ArtifactMd5s(manifest, i, j, genuine), false), files) == 0
    ensures var env := Adverse(manifest, true, ArtifactMd5s(manifest, i, j, genuine), false);
      var staged, turn := Begin(env, files).staged, TurnOf(manifest, j, k, genuine);
      && manifest[turn].name in staged
      && (turn < k ==> env.digests.md5(staged[manifest[turn].name].content) == manifest[k].md5)
  {
    var turn := TurnOf(manifest, j, k, genuine);
    assert manifest[turn].sha256 != "" by { TurnTurns(manifest, i, j, k, genuine); }
    var a := StagedMd5(manifest, i, j, files, turn, genuine);
    if turn < k {
      ChosenSuits(manifest, i, j, a, k, genuine);
    }
  }

  lemma LineSuits(manifest: seq<Entry>, i: nat, j: nat, k: nat, genuine: bool)
    requires Doubles(manifest, i, j, genuine) && OtherLine(manifest, i, j, k)
    requires var env := Adverse(manifest, true, ArtifactMd5s(manifest, i, j, genuine), false);
      CheckStatus(env, OldFiles(manifest, i, j, genuine)) == 0
    ensures var env := Adverse(manifest, true, ArtifactMd5s(manifest, i, j, genuine), false);
      var files := OldFiles(manifest, i, j, genuine);
      SuitsLine(env.digests, files, Begin(env, files).staged, manifest, j, k, genuine)
  {
    OldFileSuits(manifest, i, j, ArtifactMd5s(manifest, i, j, genuine), k, genuine);
    if TurnOf(manifest, j, k, genuine) <= k {
      StagedSuits(manifest, i, j, OldFiles(manifest, i, j, genuine), k, genuine);
    }
  }

  lemma AdverseSuits(manifest: seq<Entry>, i: nat, j: nat, genuine: bool)
    requires Doubles(manifest, i, j, genuine) && Acceptable(manifest)
    requires var env := Adverse(manifest, true, ArtifactMd5s(manifest, i, j, genuine), false);
      CheckStatus(env, OldFiles(manifest, i, j, genuine)) == 0
    ensures var env := Adverse(manifest, true, ArtifactMd5s(manifest, i, j, genuine), false);
      var files := OldFiles(manifest, i, j, genuine);
      Suits(env.digests, files, Begin(env, files).staged, manifest, i, j, genuine)
  {
    var files := OldFiles(manifest, i, j, genuine);
    var a := StagedMd5(manifest, i, j, files, i, genuine);
    if !genuine {
      NextMd5OfCreator(manifest, i, j, a);
      NoMd5IsLonger(manifest, manifest[j]);
    }
    forall x | x in files ensures AllowedDestination(x) && x != manifest[i].destination {
      var k := OldFileOf(manifest, i, j, x, genuine);
    }
    forall x | AllowedDestination(x) ensures BackupOf(x) !in files { BackupIsNoDestination(x); }
    forall k: nat | OtherLine(manifest, i, j, k)
      ensures var env := Adverse(manifest, true, ArtifactMd5s(manifest, i, j, genuine), false);
        SuitsLine(env.digests, files, Begin(env, files).staged, manifest, j, k, genuine)
    {
      LineSuits(manifest, i, j, k, genuine);
    }
  }
}
