/** The script's main loop: every collected fixture, in the order it was
    first seen, is either filtered out by `--match` and reported EXCLUDED,
    or run with `exec_test` and its result printed. */
module Driver {
  import opened Text
  import opened PosixPath
  import opened Fixtures
  import opened Results
  import opened Executor

  /** `args.match and not args.match in n`: an absent or empty pattern
      filters nothing; otherwise a fixture is skipped unless its name
      contains the pattern. */
  predicate FilteredOut(pattern: Option<string>, name: string) {
    pattern.Some? && pattern.value != "" && !Contains(pattern.value, name)
  }

  /** A fixture survives the filter exactly when no pattern is given, the
      pattern is empty, or the pattern occurs somewhere in its name. */
  lemma FilteredOutIff(pattern: Option<string>, name: string)
    ensures !FilteredOut(pattern, name) <==>
      pattern.None? || pattern.value == "" || exists i :: OccursAt(pattern.value, name, i)
  {
    if pattern.Some? {
      ContainsIffOccurs(pattern.value, name);
    }
  }

  /** A fixture's own name always passes a filter equal to it or to any part
      of it. */
  lemma NameMatchesItsParts(pre: string, part: string, post: string)
    ensures !FilteredOut(Some(part), pre + part + post)
  {
    ContainsSpliced(part, pre, post);
  }

  /** How the loop treats one fixture. */
  function Verdict(testFiles: TestFiles, pattern: Option<string>, env: Env, name: string): Outcome<TestResult>
    requires name in testFiles.records
  {
    if FilteredOut(pattern, name) then Returned(TestResult(Excluded, ""))
    else ExecTest(testFiles.records[name], env)
  }

  datatype Report = Report(name: string, result: TestResult)

  /** What the printed reports add up to on standard output. */
  function Transcript(reports: seq<Report>, tty: bool): string {
    if |reports| == 0 then ""
    else Transcript(reports[..|reports| - 1], tty) + Render(reports[|reports| - 1].result, reports[|reports| - 1].name, tty)
  }

  /** One iteration of the main loop: the filter, then `exec_test`. */
  method RunOne(fs: FixtureFiles, pattern: Option<string>, env: Env, name: string) returns (v: Outcome<TestResult>)
    ensures v == if FilteredOut(pattern, name) then Returned(TestResult(Excluded, "")) else ExecTest(fs, env)
  {
    if FilteredOut(pattern, name) {
      v := Returned(TestResult(Excluded, ""));
    } else {
      v := ExecTest(fs, env);
    }
  }

  /** The loop of the script's main block. It reports the fixtures in order
      until one of them ends the run with an uncaught exception, and returns
      the reports and, if that happened, the path that could not be opened. */
  method RunTests(testFiles: TestFiles, pattern: Option<string>, env: Env, tty: bool)
    returns (reports: seq<Report>, fatal: Option<string>, stdout: string)
    requires testFiles.Valid()
    ensures |reports| <= |testFiles.names|
    ensures forall k :: 0 <= k < |reports| ==>
      reports[k].name == testFiles.names[k] &&
      Verdict(testFiles, pattern, env, testFiles.names[k]) == Returned(reports[k].result)
    ensures fatal.None? ==> |reports| == |testFiles.names|
    ensures fatal.Some? ==>
      |reports| < |testFiles.names| &&
      Verdict(testFiles, pattern, env, testFiles.names[|reports|]) == Crashed(fatal.value)
    ensures stdout == Transcript(reports, tty)
  {
    reports, fatal, stdout := [], None, "";
    var i := 0;
    while i < |testFiles.names|
      invariant 0 <= i <= |testFiles.names| && |reports| == i
      invariant forall k :: 0 <= k < i ==>
        reports[k].name == testFiles.names[k] &&
        Verdict(testFiles, pattern, env, testFiles.names[k]) == Returned(reports[k].result)
      invariant stdout == Transcript(reports, tty)
    {
      var n := testFiles.names[i];
      var v := RunOne(testFiles.records[n], pattern, env, n);
      if v.Crashed? {
        fatal := Some(v.path);
        return;
      }
      var result := v.value;
      ghost var before := reports;
      reports := reports + [Report(n, result)];
      forall k | 0 <= k < i + 1
        ensures reports[k].name == testFiles.names[k]
        ensures Verdict(testFiles, pattern, env, testFiles.names[k]) == Returned(reports[k].result)
      {
        if k < i {
          assert reports[k] == before[k];
        }
      }
      stdout := stdout + Render(result, n, tty);
      i := i + 1;
    }
  }

  /** Reports appear on standard output in the order the fixtures were
      run: the transcript starts with everything printed for the earlier
      fixtures followed by the report of fixture `k`. */
  lemma {:induction false} TranscriptInOrder(reports: seq<Report>, tty: bool, k: int)
    requires 0 <= k < |reports|
    ensures StartsWith(Transcript(reports, tty), Transcript(reports[..k], tty) + Render(reports[k].result, reports[k].name, tty))
    decreases |reports|
  {
    var last := |reports| - 1;
    var before := Transcript(reports[..last], tty);
    var r := Render(reports[last].result, reports[last].name, tty);
    assert Transcript(reports, tty) == before + r;
    if k == last {
      assert StartsWith(before + r, before + r);
    } else {
      assert reports[..last][k] == reports[k];
      assert reports[..last][..k] == reports[..k];
      TranscriptInOrder(reports[..last], tty, k);
      StartsWithAppend(before, Transcript(reports[..k], tty) + Render(reports[k].result, reports[k].name, tty), r);
    }
  }

  /** Fixtures the filter skips are reported EXCLUDED without their files
      being looked at: nothing in the environment changes their report. */
  lemma FilteredFixturesNotRun(testFiles: TestFiles, pattern: Option<string>, env: Env, env': Env, name: string)
    requires name in testFiles.records && FilteredOut(pattern, name)
    ensures Verdict(testFiles, pattern, env, name) == Returned(TestResult(Excluded, ""))
    ensures Verdict(testFiles, pattern, env, name) == Verdict(testFiles, pattern, env', name)
  {
  }

  /** The executable built for a collected fixture is `dist/<name>` beside
      its input, which is the fixture's `.hl` file. */
  lemma ArtifactNamedAfterFixture(dirPath: string, listing: seq<Suite>, name: string)
    requires name in Collect(dirPath, Flatten(listing)).records
    requires Collect(dirPath, Flatten(listing)).records[name].input.Some?
    ensures var hlFile := Collect(dirPath, Flatten(listing)).records[name].input.value;
      Basename(ArtifactPath(hlFile)) == name &&
      Dirname(ArtifactPath(hlFile)) == Join(Dirname(hlFile), "dist") &&
      Ext(Basename(hlFile)) == ".hl"
  {
    var es := Flatten(listing);
    var hlFile := Collect(dirPath, es).records[name].input.value;
    FlattenWellSplit(listing);
    CollectPathsMatchNames(dirPath, es, name, In);
    ArtifactLocation(hlFile);
  }
}
