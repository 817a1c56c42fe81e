/** Installations that show why the hypotheses of module Transaction are there. */
module InstallerLimits {
  import opened Base
  import opened Installer
  import opened Transaction

  /** md5sum returns the content itself; sha256sum is missing. */
  const PLAIN: Digests := Digests((c: string) => c, (c: string) => "")

  const ALL_WORK: Commands := Commands(true, true, true)

  const AGENT: string := "/data/openmiio_agent"

  /** What the digest commands find in a file that holds `content`. */
  function Download(content: string): Option<File> {
    Some(File(content, "644"))
  }

  /** An openmiio-mode installation of two lines whose artifacts hold `first` and `second`. */
  function TwoLines(a: Entry, first: string, b: Entry, second: string, last: Commands, starts: bool): Environment {
    Environment(PLAIN, 0, [a, b], [Download(first), Download(second)], [ALL_WORK, last],
                true, false, starts, true, true)
  }

  predicate Fine(e: Entry, content: string) {
    e.sha256 != "" && VerifyStatus(PLAIN, e, Download(content)) == 0
  }

  lemma TwoLinesVerified(a: Entry, first: string, b: Entry, second: string)
    requires Fine(a, first) && Fine(b, second)
    ensures VerifyAll(PLAIN, map[], [a, b], [Download(first), Download(second)]) ==
      Verified(0, map[][a.name := File(first, "644")][b.name := File(second, "644")])
  {
    var one := Stage(map[], a, Download(first));
    assert [a, b][1..] == [b] && [Download(first), Download(second)][1..] == [Download(second)];
    assert [b][1..] == [] && [Download(second)][1..] == [];
    assert VerifyAll(PLAIN, map[], [a, b], [Download(first), Download(second)]) ==
      VerifyAll(PLAIN, one, [b], [Download(second)]);
    assert VerifyAll(PLAIN, one, [b], [Download(second)]) == VerifyAll(PLAIN, Stage(one, b, Download(second)), [], []);
  }

  lemma TwoLinesInstalled(s: Install, a: Entry, b: Entry, last: Commands)
    requires !s.failed && !InstallEntry(PLAIN, s, a, ALL_WORK).failed
    ensures InstallAll(PLAIN, s, [a, b], [ALL_WORK, last]) ==
      InstallEntry(PLAIN, InstallEntry(PLAIN, s, a, ALL_WORK), b, last)
  {
    var one := InstallEntry(PLAIN, s, a, ALL_WORK);
    assert [a, b][1..] == [b] && [ALL_WORK, last][1..] == [last] && [b][1..] == [] && [last][1..] == [];
    assert InstallAll(PLAIN, s, [a, b], [ALL_WORK, last]) == InstallAll(PLAIN, one, [b], [last]);
    assert InstallAll(PLAIN, one, [b], [last]) == InstallAll(PLAIN, InstallEntry(PLAIN, one, b, last), [], []);
  }

  lemma OneChange(files: Files, c: Change)
    ensures Rollback(files, [c]) == UndoOne(files, c)
    ensures Discard(files, [c]) == DiscardOne(files, c)
  {
    assert [c][1..] == [];
  }

  /** With one artifact name listed twice, a successful run can install the wrong artifact. */
  lemma RepeatedNameInstallsWrongArtifact()
    ensures exists env: Environment, files: Files ::
              && env.Valid() && DistinctDestinations(env.manifest) && env.manifest != []
              && Run(env, files).status == 0 && !Installed(env.digests, Run(env, files).files, env.manifest[0])
  {
    var a, b := Entry("x", "A", "755", "n", STARTUP, ""), Entry("x", "B", "755", "n", AGENT, "");
    var env, files: Files := TwoLines(a, "A", b, "B", ALL_WORK, true), map[AGENT := File("B", "755")];
    TwoLinesVerified(a, "A", b, "B");
    BackupIsNoDestination(STARTUP);
    var one := InstallEntry(PLAIN, Begin(env, files), a, ALL_WORK);
    assert BackupOf(STARTUP) !in files;
    assert one == Install(files[STARTUP := File("B", "755")], map[], [Change(STARTUP, false)], false);
    assert InstallEntry(PLAIN, one, b, ALL_WORK) == one;
    TwoLinesInstalled(Begin(env, files), a, b, ALL_WORK);
    assert Loop(env, files) == one;
    OneChange(one.files, Change(STARTUP, false));
    assert CheckStatus(env, files) == 0;
    assert Run(env, files) == Exit(0, one.files);
    assert env.Valid() && DistinctDestinations(env.manifest) && env.manifest != []
      && Run(env, files).status == 0 && !Installed(env.digests, Run(env, files).files, env.manifest[0]);
  }

  /** Contents come back after a failure; a mode set on an up-to-date file does not. */
  lemma ModesAreNotRestored()
    ensures exists env: Environment, files: Files ::
              && env.Valid() && DistinctDestinations(env.manifest)
              && Run(env, files).status == 30 && !EqualAt(files, Run(env, files).files, STARTUP)
  {
    var a, b := Entry("x", "A", "755", "a", STARTUP, ""), Entry("x", "B", "755", "b", AGENT, "");
    var broken := Commands(true, false, true);
    var env, files: Files := TwoLines(a, "A", b, "B", broken, true), map[STARTUP := File("A", "600")];
    TwoLinesVerified(a, "A", b, "B");
    BackupIsNoDestination(AGENT);
    var one := InstallEntry(PLAIN, Begin(env, files), a, ALL_WORK);
    assert one == Install(map[STARTUP := File("A", "755")], map["b" := File("B", "644")], [], false);
    var two := InstallEntry(PLAIN, one, b, broken);
    assert BackupOf(AGENT) !in one.files;
    assert two == Install(one.files, one.staged, [Change(AGENT, false)], true);
    TwoLinesInstalled(Begin(env, files), a, b, broken);
    OneChange(two.files, Change(AGENT, false));
    assert Run(env, files).files[STARTUP] == File("A", "755");
    assert env.Valid() && DistinctDestinations(env.manifest)
      && Run(env, files).status == 30 && !EqualAt(files, Run(env, files).files, STARTUP);
  }
}
