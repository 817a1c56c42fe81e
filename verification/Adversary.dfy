/**
 Environments that work against a manifest: every command succeeds, but what the digest
 commands find in a file may be chosen. The artifact of line k holds k characters; a
 longer file is an older one, which carries its own MD5.
 */
module Adversary {
  import opened Base
  import opened Installer
  import opened Transaction

  /** The shell splits a line at white space: if its first field is empty, so are the others. */
  const BLANK: Entry := Entry("", "", "", "", "", "")

  /** The line is blank, or passes every static check of the verification loop. */
  predicate WellFormed(e: Entry) {
    if e.sha256 == "" then e == BLANK
    else e.extra == "" && AllowedDestination(e.destination) && e.mode in {"600", "700", "755"} && SafeName(e.name)
  }

  /** A manifest the script would start to install. */
  ghost predicate Acceptable(manifest: seq<Entry>) {
    (forall e {:trigger WellFormed(e)} :: e in manifest ==> WellFormed(e)) && StartupMd5(manifest) != ""
  }

  function Pad(n: nat): (r: string)
    ensures |r| == n
  {
    seq(n, i => 'x')
  }

  /** The MD5 of the artifact of line k is md5s[k]; its SHA-256, where the command exists, is the expected one. */
  function Against(manifest: seq<Entry>, shas: bool, md5s: seq<string>): Digests
    requires |md5s| == |manifest|
  {
    Digests((c: string) => if |c| < |md5s| then md5s[|c|] else c[|md5s|..],
            (c: string) => if shas && |c| < |manifest| then manifest[|c|].sha256 else "")
  }

  function Artifacts(n: nat): (r: seq<Option<File>>)
    ensures |r| == n
    ensures forall k :: 0 <= k < n ==> r[k] == Some(File(Pad(k), "644"))
  {
    seq(n, k requires 0 <= k < n => Some(File(Pad(k), "644")))
  }

  function AllWork(n: nat): (r: seq<Commands>)
    ensures |r| == n && forall i :: 0 <= i < n ==> r[i] == Commands(true, true, true)
  {
    seq(n, i => Commands(true, true, true))
  }

  /** Whether or not the runtime starts in the end. */
  function Adverse(manifest: seq<Entry>, shas: bool, md5s: seq<string>, starts: bool): (env: Environment)
    requires |md5s| == |manifest|
    ensures env.Valid()
  {
    Environment(Against(manifest, shas, md5s), 0, manifest, Artifacts(|manifest|), AllWork(|manifest|),
                true, false, starts, false, false)
  }

  /** A file that looks like this MD5 wants it. */
  function UpToDate(n: nat, md5: string, mode: string): File {
    File(Pad(n) + md5, mode)
  }

  lemma LooksUpToDate(manifest: seq<Entry>, shas: bool, md5s: seq<string>, md5: string, mode: string)
    requires |md5s| == |manifest|
    ensures Against(manifest, shas, md5s).md5(UpToDate(|manifest|, md5, mode).content) == md5
  {
    assert (Pad(|manifest|) + md5)[|manifest|..] == md5;
  }

  /** Longer than the MD5 of every line, so equal to none. */
  function NoMd5(manifest: seq<Entry>): string {
    if manifest == [] then "x" else manifest[0].md5 + NoMd5(manifest[1..])
  }

  lemma {:induction false} NoMd5IsLonger(manifest: seq<Entry>, e: Entry)
    ensures NoMd5(manifest) != ""
    ensures e in manifest ==> |e.md5| < |NoMd5(manifest)|
  {
    if manifest == [] {
    } else {
      NoMd5IsLonger(manifest[1..], e);
      NoMd5IsLonger(manifest[1..], manifest[0]);
    }
  }

  /** The startup file looked for is that of the first line that names it. */
  lemma {:induction false} StartupIsFirst(manifest: seq<Entry>, l: nat) returns (k: nat)
    requires l < |manifest| && manifest[l].destination == STARTUP
    ensures k <= l && manifest[k].destination == STARTUP && StartupMd5(manifest) == manifest[k].md5
  {
    if manifest[0].destination == STARTUP {
      k := 0;
    } else {
      k := StartupIsFirst(manifest[1..], l - 1);
      k := k + 1;
    }
  }

  lemma ArtifactPasses(manifest: seq<Entry>, shas: bool, md5s: seq<string>, k: nat)
    requires |md5s| == |manifest| && k < |manifest| && WellFormed(manifest[k]) && (!shas ==> md5s[k] == manifest[k].md5)
    ensures VerifyStatus(Against(manifest, shas, md5s), manifest[k], Some(File(Pad(k), "644"))) == 0
  {
  }

  lemma ArtifactsPass(manifest: seq<Entry>, shas: bool, md5s: seq<string>)
    requires |md5s| == |manifest| && Acceptable(manifest)
    requires !shas ==> forall k :: 0 <= k < |manifest| ==> md5s[k] == manifest[k].md5
    ensures EveryLinePasses(Against(manifest, shas, md5s), manifest, Artifacts(|manifest|))
  {
    forall k | 0 <= k < |manifest|
      ensures VerifyStatus(Against(manifest, shas, md5s), manifest[k], Artifacts(|manifest|)[k]) == 0
    {
      assert WellFormed(manifest[k]);
      ArtifactPasses(manifest, shas, md5s, k);
    }
  }

  lemma ReachedIfUnblocked(env: Environment, files: Files)
    requires env.Valid() && EveryLinePasses(env.digests, env.manifest, env.downloads)
    requires env.precheck == 0 && env.stopped && StartupMd5(env.manifest) != ""
    requires STARTUP in files ==> env.digests.md5(files[STARTUP].content) == StartupMd5(env.manifest)
    ensures CheckStatus(env, files) == 0
  {
    ChecksPassIff(env, files);
  }

  /** The loop is reached, unless a startup file is in the way. */
  lemma {:induction false} LoopReached(manifest: seq<Entry>, shas: bool, md5s: seq<string>, starts: bool, files: Files)
    requires |md5s| == |manifest| && Acceptable(manifest)
    requires !shas ==> forall k :: 0 <= k < |manifest| ==> md5s[k] == manifest[k].md5
    requires STARTUP in files ==> Against(manifest, shas, md5s).md5(files[STARTUP].content) == StartupMd5(manifest)
    ensures CheckStatus(Adverse(manifest, shas, md5s, starts), files) == 0
  {
    ArtifactsPass(manifest, shas, md5s);
    ReachedIfUnblocked(Adverse(manifest, shas, md5s, starts), files);
  }

  /** In the loop, the artifact staged for a name is that of its last line. */
  lemma StagedIsLast(manifest: seq<Entry>, shas: bool, md5s: seq<string>, starts: bool, files: Files, j: nat)
    requires |md5s| == |manifest| && LastOfName(manifest, j)
    requires CheckStatus(Adverse(manifest, shas, md5s, starts), files) == 0
    ensures var staged := Begin(Adverse(manifest, shas, md5s, starts), files).staged;
      manifest[j].name in staged && staged[manifest[j].name] == File(Pad(j), "644")
  {
    var env := Adverse(manifest, shas, md5s, starts);
    AllStaged(env.digests, map[], manifest, env.downloads, j);
  }
}
