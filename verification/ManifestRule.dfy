/**
 The rule a manifest must obey for failures to be harmless, decided before any
 installation: no run can come to a second line of a destination that its first line
 has created. If artifact names are distinct, that is: destinations are distinct.
 The rule is stated twice: for all environments, and for the genuine ones.
 */
module ManifestRule {
  import opened Installer
  import opened Transaction
  import opened Adversary
  import opened Doubling
  import opened DoublingRuns

  /** Every failing run of this manifest, in every environment, or every genuine one, restores every content. */
  ghost predicate AlwaysRestores(manifest: seq<Entry>, genuine: bool) {
    forall env: Environment, files: Files ::
      env.Valid() && env.manifest == manifest && (genuine ==> Genuine(env)) && Run(env, files).status != 0 ==>
        SameContents(files, Run(env, files).files)
  }

  lemma NotRestored(env: Environment, files: Files, d: string, genuine: bool)
    requires env.Valid() && CheckStatus(env, files) == 0 && !env.runtimeStarts
    requires AllowedDestination(d) && |Recorded(Loop(env, files).changes, d)| > 1 && (genuine ==> Genuine(env))
    ensures !AlwaysRestores(env.manifest, genuine)
  {
    ReachedMeansVerified(env, files);
    RollbackRestoresIff(env.digests, files, Begin(env, files).staged, env.manifest, env.commands);
    assert !SameContents(files, Run(env, files).files);
  }

  /** Doubling lines defeat the rollback. */
  lemma DoublesIsNotRestored(manifest: seq<Entry>, i: nat, j: nat, genuine: bool)
    requires Acceptable(manifest) && Doubles(manifest, i, j, genuine)
    ensures !AlwaysRestores(manifest, genuine)
  {
    var env := Adverse(manifest, true, ArtifactMd5s(manifest, i, j, genuine), false);
    var files := OldFiles(manifest, i, j, genuine);
    OldFilesReach(manifest, i, j, ArtifactMd5s(manifest, i, j, genuine), genuine);
    AdverseSuits(manifest, i, j, genuine);
    ReachedMeansVerified(env, files);
    RecordedTwice(env.digests, files, Begin(env, files).staged, manifest, env.commands, i, j, genuine);
    assert manifest[i] in manifest;
    if genuine {
      AdverseIsGenuine(manifest, i, j);
    }
    NotRestored(env, files, manifest[i].destination, genuine);
  }

  /**
   For every manifest the script would install: failures always restore iff no lines
   double. With `genuine`, both sides are about genuine artifacts.
   */
  lemma AlwaysRestoresIff(manifest: seq<Entry>, genuine: bool)
    requires Acceptable(manifest)
    ensures AlwaysRestores(manifest, genuine) <==> !SomeDoubles(manifest, genuine)
  {
    if SomeDoubles(manifest, genuine) {
      var i: nat, j: nat :| Doubles(manifest, i, j, genuine);
      DoublesIsNotRestored(manifest, i, j, genuine);
    } else {
      forall env: Environment, files: Files |
        env.Valid() && env.manifest == manifest && (genuine ==> Genuine(env)) && Run(env, files).status != 0
        ensures SameContents(files, Run(env, files).files)
      {
        NoDoublesRestores(env, files, genuine);
      }
    }
  }

  // ------------------------------------------------------- distinct names

  ghost predicate DistinctNames(manifest: seq<Entry>) {
    forall i, j :: 0 <= i < j < |manifest| && manifest[i].sha256 != "" && manifest[j].sha256 != "" ==>
      manifest[i].name != manifest[j].name
  }

  /** Two lines of one destination; with different MD5s where artifacts are genuine. */
  ghost predicate Repeated(manifest: seq<Entry>, i: nat, j: nat, genuine: bool) {
    && i < j && j < |manifest| && manifest[i].sha256 != "" && Line(manifest, manifest[i].destination, j)
    && (genuine ==> manifest[i].md5 != manifest[j].md5)
  }

  lemma {:induction false} EarliestRepeat(manifest: seq<Entry>, i: nat, j: nat, genuine: bool) returns (a: nat, b: nat)
    requires Repeated(manifest, i, j, genuine)
    ensures Repeated(manifest, a, b, genuine) && forall k: nat, l: nat :: l < b ==> !Repeated(manifest, k, l, genuine)
    decreases j
  {
    if k: nat, l: nat :| l < j && Repeated(manifest, k, l, genuine) {
      a, b := EarliestRepeat(manifest, k, l, genuine);
    } else {
      a, b := i, j;
    }
  }

  lemma {:induction false} FirstLine(manifest: seq<Entry>, d: string, k: nat) returns (i: nat)
    requires Line(manifest, d, k)
    ensures i <= k && Line(manifest, d, i) && forall l: nat :: l < i ==> !Line(manifest, d, l)
  {
    if l: nat :| l < k && Line(manifest, d, l) {
      i := FirstLine(manifest, d, l);
    } else {
      i := k;
    }
  }

  /** Before the earliest repeat the lines of a destination agree. */
  lemma AgreeBefore(manifest: seq<Entry>, j: nat, x: string, k: nat, l: nat, genuine: bool)
    requires forall a: nat, b: nat :: b < j ==> !Repeated(manifest, a, b, genuine)
    requires k < j && l < j && Line(manifest, x, k) && Line(manifest, x, l)
    ensures if genuine then manifest[k].md5 == manifest[l].md5 else k == l
  {
    assert !Repeated(manifest, k, l, genuine) && !Repeated(manifest, l, k, genuine);
  }

  lemma OwnMd5(manifest: seq<Entry>, k: nat)
    requires DistinctNames(manifest) && k < |manifest| && manifest[k].sha256 != ""
    ensures FirstOfName(manifest, k) && PlacedMd5(manifest, k) == manifest[k].md5
  {
    var j := LastLine(manifest, k);
    assert j == k;
  }

  lemma EarliestDoubles(manifest: seq<Entry>, i: nat, j: nat, genuine: bool)
    requires DistinctNames(manifest) && Repeated(manifest, i, j, genuine)
    requires forall k: nat, l: nat :: l < j ==> !Repeated(manifest, k, l, genuine)
    ensures SomeDoubles(manifest, genuine)
  {
    var d := manifest[i].destination;
    var first := FirstLine(manifest, d, i);
    OwnMd5(manifest, first);
    AgreeBefore(manifest, j, d, first, i, genuine);
    forall k: nat | first < k < j && Line(manifest, d, k) ensures genuine && manifest[k].md5 == manifest[first].md5 {
      AgreeBefore(manifest, j, d, first, k, genuine);
    }
    forall x | AllowedDestination(x) && x != d ensures TurnsAt(manifest, x, j, j, genuine) {
      forall k: nat, l: nat | k < j && l < j && Line(manifest, x, k) && Line(manifest, x, l)
        ensures manifest[k].md5 == manifest[l].md5
      {
        AgreeBefore(manifest, j, x, k, l, genuine);
      }
    }
    assert Doubles(manifest, first, j, genuine);
  }

  /** With distinct artifact names: failures always restore iff no destination is repeated. */
  lemma NamedRestoreIff(manifest: seq<Entry>, genuine: bool)
    requires Acceptable(manifest) && DistinctNames(manifest)
    ensures AlwaysRestores(manifest, genuine) <==> forall i: nat, j: nat :: !Repeated(manifest, i, j, genuine)
  {
    AlwaysRestoresIff(manifest, genuine);
    if SomeDoubles(manifest, genuine) {
      var i: nat, j: nat :| Doubles(manifest, i, j, genuine);
      OwnMd5(manifest, i);
      assert Repeated(manifest, i, j, genuine);
    }
    if i: nat, j: nat :| Repeated(manifest, i, j, genuine) {
      var a, b := EarliestRepeat(manifest, i, j, genuine);
      EarliestDoubles(manifest, a, b, genuine);
    }
  }

  /** With distinct artifact names, as the installer's own are: iff the destinations are distinct. */
  lemma DistinctNamesRestoreIff(manifest: seq<Entry>)
    requires Acceptable(manifest) && DistinctNames(manifest)
    ensures AlwaysRestores(manifest, false) <==> DistinctDestinations(manifest)
  {
    NamedRestoreIff(manifest, false);
    if !DistinctDestinations(manifest) {
      var i, j :| 0 <= i < j < |manifest| && manifest[i].sha256 != "" && manifest[j].sha256 != ""
        && manifest[i].destination == manifest[j].destination;
      assert Repeated(manifest, i, j, false);
    } else {
      forall i: nat, j: nat ensures !Repeated(manifest, i, j, false) {}
    }
  }

  /** And of genuine artifacts: iff the lines of every destination ask for one MD5. */
  lemma GenuineNamesRestoreIff(manifest: seq<Entry>)
    requires Acceptable(manifest) && DistinctNames(manifest)
    ensures AlwaysRestores(manifest, true) <==> forall d: string :: OneMd5(manifest, d, 0, |manifest|)
  {
    NamedRestoreIff(manifest, true);
    if i: nat, j: nat :| Repeated(manifest, i, j, true) {
      assert !OneMd5(manifest, manifest[i].destination, 0, |manifest|);
    }
    if d: string :| !OneMd5(manifest, d, 0, |manifest|) {
      var k: nat, l: nat :| k < |manifest| && l < |manifest| && Line(manifest, d, k) && Line(manifest, d, l)
        && manifest[k].md5 != manifest[l].md5;
      assert Repeated(manifest, if k < l then k else l, if k < l then l else k, true);
    }
  }
}
