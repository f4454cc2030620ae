/** Running one fixture: `compile_file`, `eval_file` and `exec_test`.
    Everything these functions learn from outside the program (files on
    disk, what a process prints and returns, what `difflib` produces) is
    an `Env` value, so each of them is a function of its inputs. */
module Executor {
  import opened Text
  import opened PosixPath
  import opened Fixtures
  import opened Results

  /** What `subprocess.run(..., stdout=PIPE, stderr=STDOUT)` reports: the
      exit code and the decoded combined output. */
  datatype ProcessResult = ProcessResult(returnCode: int, stdout: string)

  /** The world as the driver sees it while a fixture runs. */
  datatype Env = Env(
    // text of every file that can be opened for reading
    files: map<string, string>,
    // running the compiler on an input file from the given working directory
    compiler: (string, string) -> ProcessResult,
    // executables present once the compiler has run, and what running each gives
    programs: map<string, ProcessResult>,
    // difflib.unified_diff(a, b, fromfile, tofile, lineterm='\n')
    unifiedDiff: (seq<string>, seq<string>, string, string) -> seq<string>)

  /** The property of `difflib.unified_diff` the driver relies on: it yields
      no line at all exactly when the two sequences are equal. */
  ghost predicate DiffReportsChanges(env: Env) {
    forall a, b, from, to :: |env.unifiedDiff(a, b, from, to)| == 0 <==> a == b
  }

  /** How a call ends: with a value, by raising `TestFailure(msg)`, or by any
      other exception, which ends the whole run; `path` is the file or
      executable that could not be opened. */
  datatype Outcome<T> = Returned(value: T) | Raised(msg: string) | Crashed(path: string)

  const ExcludeMarker := "-- EXCLUDE"
  const MissingInput := "missing input file"
  const MissingOutput := "missing output file"
  const MismatchHeader := "Output did not match expected\n"

  function CompileFailure(hlFile: string, p: ProcessResult): string {
    "Haskelite compilation failed: file='" + hlFile + "' exit-code='" + Decimal(p.returnCode) + "' output:\n" + p.stdout
  }

  function RunFailure(hlBin: string, p: ProcessResult): string {
    "Binary output incorrect: file='" + hlBin + "' exit-code='" + Decimal(p.returnCode) + "' output:\n" + p.stdout
  }

  /** The compiler-failure message names the input file, the exit code and
      everything the compiler printed. */
  lemma CompileFailureMentions(hlFile: string, p: ProcessResult)
    ensures var m := CompileFailure(hlFile, p);
      Contains(hlFile, m) && Contains(Decimal(p.returnCode), m) && Contains(p.stdout, m)
  {
    ContainsFields("Haskelite compilation failed: file='", hlFile, "' exit-code='", Decimal(p.returnCode), "' output:\n", p.stdout);
  }

  /** The run-failure message names the executable, the exit code and
      everything it printed. */
  lemma RunFailureMentions(hlBin: string, p: ProcessResult)
    ensures var m := RunFailure(hlBin, p);
      Contains(hlBin, m) && Contains(Decimal(p.returnCode), m) && Contains(p.stdout, m)
  {
    ContainsFields("Binary output incorrect: file='", hlBin, "' exit-code='", Decimal(p.returnCode), "' output:\n", p.stdout);
  }

  /** `compile_file(hl_file)`: runs the compiler in the input's directory and
      returns where the executable was written, or raises with the exit code
      and the compiler's output. */
  function CompileFile(hlFile: string, env: Env): (r: Outcome<string>)
    ensures !r.Crashed?
    ensures r.Raised? <==> env.compiler(hlFile, Dirname(hlFile)).returnCode != 0
    ensures r.Raised? ==>
      var p := env.compiler(hlFile, Dirname(hlFile));
      Contains(hlFile, r.msg) && Contains(Decimal(p.returnCode), r.msg) && Contains(p.stdout, r.msg)
    ensures r.Returned? ==>
      Basename(r.value) == Stem(Basename(hlFile)) && Dirname(r.value) == Join(Dirname(hlFile), "dist")
  {
    var p := env.compiler(hlFile, Dirname(hlFile));
    CompileFailureMentions(hlFile, p);
    ArtifactLocation(hlFile);
    if p.returnCode != 0 then Raised(CompileFailure(hlFile, p))
    else Returned(ArtifactPath(hlFile))
  }

  /** `eval_file(hl_bin)`: runs the executable and returns its output, or
      raises with the exit code and the output. A missing executable makes
      `subprocess.run` raise an exception that nothing catches. */
  function EvalFile(hlBin: string, env: Env): (r: Outcome<string>)
    ensures r.Crashed? <==> hlBin !in env.programs
    ensures r.Crashed? ==> r.path == hlBin
    ensures r.Raised? ==>
      var p := env.programs[hlBin];
      p.returnCode != 0 &&
      Contains(hlBin, r.msg) && Contains(Decimal(p.returnCode), r.msg) && Contains(p.stdout, r.msg)
    ensures r.Returned? ==> env.programs[hlBin].returnCode == 0 && r.value == env.programs[hlBin].stdout
  {
    if hlBin !in env.programs then Crashed(hlBin)
    else
      var p := env.programs[hlBin];
      RunFailureMentions(hlBin, p);
      if p.returnCode != 0 then Raised(RunFailure(hlBin, p))
      else Returned(p.stdout)
  }

  /** `f.readline().startswith("-- EXCLUDE")` */
  predicate MarkedExcluded(text: string) {
    StartsWith(FirstLine(text), ExcludeMarker)
  }

  function Fail(msg: string): TestResult {
    TestResult(Failed, msg)
  }

  /** The comparison at the end of `exec_test`, as written: the program's
      output is split with `splitlines(keepends=True)` and the expected output
      with `readlines()`. */
  function CompareAsWritten(expectedText: string, output: string, hlBin: string, outFile: string, env: Env): TestResult {
    var diff := env.unifiedDiff(Lines(expectedText), SplitLines(output), hlBin, outFile);
    if |diff| != 0 then Fail(MismatchHeader + JoinWith("\n", diff))
    else TestResult(Passed, "")
  }

  /** The comparison with both sides split the same way, at newlines, as
      `readlines()` splits the expected output. */
  function Compare(expectedText: string, output: string, hlBin: string, outFile: string, env: Env): TestResult {
    var diff := env.unifiedDiff(Lines(expectedText), Lines(output), hlBin, outFile);
    if |diff| != 0 then Fail(MismatchHeader + JoinWith("\n", diff))
    else TestResult(Passed, "")
  }

  /** As written, the comparison passes exactly when the expected text's
      `readlines` equal the output's `splitlines`; it then passes only on
      output identical to the expected text. */
  lemma CompareAsWrittenIff(expectedText: string, output: string, hlBin: string, outFile: string, env: Env)
    requires DiffReportsChanges(env)
    ensures CompareAsWritten(expectedText, output, hlBin, outFile, env).status == Passed <==>
      Lines(expectedText) == SplitLines(output)
    ensures CompareAsWritten(expectedText, output, hlBin, outFile, env).status == Passed ==> expectedText == output
    ensures CompareAsWritten(expectedText, output, hlBin, outFile, env).status != Passed ==>
      CompareAsWritten(expectedText, output, hlBin, outFile, env) ==
        Fail(MismatchHeader + JoinWith("\n", env.unifiedDiff(Lines(expectedText), SplitLines(output), hlBin, outFile)))
  {
    assert |env.unifiedDiff(Lines(expectedText), SplitLines(output), hlBin, outFile)| == 0
      <==> Lines(expectedText) == SplitLines(output);
    if Lines(expectedText) == SplitLines(output) {
      assert Concat(Lines(expectedText)) == Concat(SplitLines(output));
    }
  }

  /** With both sides split alike, the comparison passes exactly when the
      output is the expected text. */
  lemma CompareIff(expectedText: string, output: string, hlBin: string, outFile: string, env: Env)
    requires DiffReportsChanges(env)
    ensures Compare(expectedText, output, hlBin, outFile, env).status == Passed <==> expectedText == output
    ensures Compare(expectedText, output, hlBin, outFile, env).status != Passed ==>
      Compare(expectedText, output, hlBin, outFile, env) ==
        Fail(MismatchHeader + JoinWith("\n", env.unifiedDiff(Lines(expectedText), Lines(output), hlBin, outFile)))
  {
    LinesInjective(expectedText, output);
    assert |env.unifiedDiff(Lines(expectedText), Lines(output), hlBin, outFile)| == 0
      <==> Lines(expectedText) == Lines(output);
  }

  /** Which comparison ends a fixture's run: the one the script performs,
      or the one it evidently intends. */
  datatype Comparison = AsWritten | Intended

  function Compared(how: Comparison, expectedText: string, output: string, hlBin: string, outFile: string, env: Env): TestResult {
    if how == AsWritten then CompareAsWritten(expectedText, output, hlBin, outFile, env)
    else Compare(expectedText, output, hlBin, outFile, env)
  }

  /** The part of `exec_test` inside its `try`: compile, run, read the
      expected output and compare. */
  function CompileRunCompare(hlFile: string, outFile: string, env: Env, how: Comparison): Outcome<TestResult> {
    match CompileFile(hlFile, env)
    case Raised(msg) => Returned(Fail(msg))
    case Crashed(path) => Crashed(path)
    case Returned(hlBin) =>
      match EvalFile(hlBin, env)
      case Raised(msg) => Returned(Fail(msg))
      case Crashed(path) => Crashed(path)
      case Returned(output) =>
        if outFile !in env.files then Crashed(outFile)
        else Returned(Compared(how, env.files[outFile], output, hlBin, outFile, env))
  }

  /** The body of `exec_test(file_dict)`, ending with the given comparison. */
  function RunFixture(fs: FixtureFiles, env: Env, how: Comparison): (r: Outcome<TestResult>)
    ensures !r.Raised?
    ensures r.Crashed? ==>
      fs.input.Some? && fs.output.Some? &&
      (r.path == fs.input.value || r.path == ArtifactPath(fs.input.value) || r.path == fs.output.value)
  {
    if fs.input.None? then Returned(Fail(MissingInput))
    else if fs.output.None? then Returned(Fail(MissingOutput))
    else
      var hlFile := fs.input.value;
      var outFile := fs.output.value;
      if hlFile !in env.files then Crashed(hlFile)
      else if MarkedExcluded(env.files[hlFile]) then Returned(TestResult(Excluded, ""))
      else CompileRunCompare(hlFile, outFile, env, how)
  }

  /** `exec_test(file_dict)`, as written. */
  function ExecTest(fs: FixtureFiles, env: Env): (r: Outcome<TestResult>)
    ensures !r.Raised?
    ensures r.Crashed? ==>
      fs.input.Some? && fs.output.Some? &&
      (r.path == fs.input.value || r.path == ArtifactPath(fs.input.value) || r.path == fs.output.value)
  {
    RunFixture(fs, env, AsWritten)
  }

  /** `exec_test` with both outputs split at newlines. */
  function ExecTestIntended(fs: FixtureFiles, env: Env): Outcome<TestResult> {
    RunFixture(fs, env, Intended)
  }

  /** A fixture gets as far as running its executable: both files are known,
      the input can be read, is not excluded, and compiles. */
  predicate Compiles(fs: FixtureFiles, env: Env) {
    fs.input.Some? && fs.output.Some? && fs.input.value in env.files &&
    !StartsWith(env.files[fs.input.value], ExcludeMarker) &&
    env.compiler(fs.input.value, Dirname(fs.input.value)).returnCode == 0
  }

  /** The executable `Compiles` fixtures run. */
  function Binary(fs: FixtureFiles): string
    requires fs.input.Some?
  {
    ArtifactPath(fs.input.value)
  }

  /** A fixture gets as far as comparing outputs: it compiles, its executable
      exits with 0, and its expected output can be read. */
  predicate Compares(fs: FixtureFiles, env: Env) {
    Compiles(fs, env) && Binary(fs) in env.programs &&
    env.programs[Binary(fs)].returnCode == 0 && fs.output.value in env.files
  }

  /** A missing input is reported first, then a missing expected output;
      neither consults the environment. */
  lemma MissingFilesFirst(fs: FixtureFiles, env: Env, env': Env)
    ensures fs.input.None? ==> ExecTest(fs, env) == Returned(TestResult(Failed, "missing input file"))
    ensures fs.input.Some? && fs.output.None? ==> ExecTest(fs, env) == Returned(TestResult(Failed, "missing output file"))
    ensures fs.input.None? || fs.output.None? ==> ExecTest(fs, env) == ExecTest(fs, env')
  {
  }

  /** The exclusion marker only counts on the first line, and there it is
      found whenever the text starts with it. */
  lemma MarkedExcludedIff(text: string)
    ensures MarkedExcluded(text) <==> StartsWith(text, ExcludeMarker)
  {
    assert '\n' !in ExcludeMarker;
    FirstLineStartsWith(text, ExcludeMarker);
  }

  /** A first line without the marker cannot be overruled by a marker on a
      later line. */
  lemma MarkerBelowFirstLineIgnored(first: string, rest: string)
    requires '\n' !in first && !StartsWith(first, ExcludeMarker)
    ensures !MarkedExcluded(first + "\n" + rest)
  {
    var text := first + "\n" + rest;
    MarkedExcludedIff(text);
    if |first| >= |ExcludeMarker| {
      assert text[..|ExcludeMarker|] == first[..|ExcludeMarker|];
    } else {
      assert text[|first|] == '\n';
      assert ExcludeMarker[|first|] != '\n';
    }
  }

  /** A fixture is reported EXCLUDED exactly when both of its files are known
      and its input file starts with the marker; nothing is compiled then. */
  lemma ExcludedIff(fs: FixtureFiles, env: Env)
    ensures ExecTest(fs, env).Returned? && ExecTest(fs, env).value.status == Excluded <==>
      fs.input.Some? && fs.output.Some? && fs.input.value in env.files &&
      StartsWith(env.files[fs.input.value], ExcludeMarker)
    ensures ExecTest(fs, env).Returned? && ExecTest(fs, env).value.status == Excluded ==>
      ExecTest(fs, env).value.msg == ""
  {
    if fs.input.Some? && fs.input.value in env.files {
      MarkedExcludedIff(env.files[fs.input.value]);
    }
  }

  /** A compiler failure is reported as FAILED with the compiler-failure
      message; the executable and the expected output play no part. */
  lemma CompileFailureReported(fs: FixtureFiles, env: Env)
    requires fs.input.Some? && fs.output.Some? && fs.input.value in env.files
    requires !StartsWith(env.files[fs.input.value], ExcludeMarker)
    requires env.compiler(fs.input.value, Dirname(fs.input.value)).returnCode != 0
    ensures ExecTest(fs, env) ==
      Returned(TestResult(Failed, CompileFailure(fs.input.value, env.compiler(fs.input.value, Dirname(fs.input.value)))))
  {
    MarkedExcludedIff(env.files[fs.input.value]);
  }

  /** An executable that exits with a non-zero code is reported as FAILED
      with the run-failure message; the expected output is not read. */
  lemma RunFailureReported(fs: FixtureFiles, env: Env)
    requires Compiles(fs, env)
    requires Binary(fs) in env.programs && env.programs[Binary(fs)].returnCode != 0
    ensures ExecTest(fs, env) == Returned(TestResult(Failed, RunFailure(Binary(fs), env.programs[Binary(fs)])))
  {
    MarkedExcludedIff(env.files[fs.input.value]);
  }

  /** As written, a fixture PASSES exactly when it gets as far as comparing
      and the expected output's `readlines` equal its output's `splitlines`;
      it then printed the expected output character for character. */
  lemma PassedIff(fs: FixtureFiles, env: Env)
    requires DiffReportsChanges(env)
    ensures ExecTest(fs, env) == Returned(TestResult(Passed, "")) <==>
      Compares(fs, env) && Lines(env.files[fs.output.value]) == SplitLines(env.programs[Binary(fs)].stdout)
    ensures ExecTest(fs, env) == Returned(TestResult(Passed, "")) ==>
      Compares(fs, env) && env.files[fs.output.value] == env.programs[Binary(fs)].stdout
  {
    if fs.input.Some? && fs.input.value in env.files {
      MarkedExcludedIff(env.files[fs.input.value]);
    }
    if Compares(fs, env) {
      CompareAsWrittenIff(env.files[fs.output.value], env.programs[Binary(fs)].stdout, Binary(fs), fs.output.value, env);
    }
  }

  /** When the lines differ, the failure message starts with a fixed header
      followed by the diff lines, from the expected output's `readlines` to
      the actual output's `splitlines`, labelled with the executable and the
      expected-output file. */
  lemma MismatchReported(fs: FixtureFiles, env: Env)
    requires DiffReportsChanges(env)
    requires Compares(fs, env)
    requires Lines(env.files[fs.output.value]) != SplitLines(env.programs[Binary(fs)].stdout)
    ensures var expected := Lines(env.files[fs.output.value]);
      var actual := SplitLines(env.programs[Binary(fs)].stdout);
      var diff := env.unifiedDiff(expected, actual, Binary(fs), fs.output.value);
      diff != [] &&
      ExecTest(fs, env) == Returned(TestResult(Failed, MismatchHeader + JoinWith("\n", diff)))
  {
    MarkedExcludedIff(env.files[fs.input.value]);
    CompareAsWrittenIff(env.files[fs.output.value], env.programs[Binary(fs)].stdout, Binary(fs), fs.output.value, env);
  }

  /** With the intended comparison, a fixture PASSES exactly when it gets as
      far as comparing and its executable prints the expected output
      character for character. */
  lemma IntendedPassedIff(fs: FixtureFiles, env: Env)
    requires DiffReportsChanges(env)
    ensures ExecTestIntended(fs, env) == Returned(TestResult(Passed, "")) <==>
      Compares(fs, env) && env.files[fs.output.value] == env.programs[Binary(fs)].stdout
  {
    if fs.input.Some? && fs.input.value in env.files {
      MarkedExcludedIff(env.files[fs.input.value]);
    }
    if Compares(fs, env) {
      CompareIff(env.files[fs.output.value], env.programs[Binary(fs)].stdout, Binary(fs), fs.output.value, env);
    }
  }

  lemma CompileRunAgrees(hlFile: string, outFile: string, env: Env)
    requires ArtifactPath(hlFile) in env.programs ==> OnlyNewlineBoundaries(env.programs[ArtifactPath(hlFile)].stdout)
    ensures CompileRunCompare(hlFile, outFile, env, AsWritten) == CompileRunCompare(hlFile, outFile, env, Intended)
  {
    var hlBin := ArtifactPath(hlFile);
    if hlBin in env.programs && outFile in env.files {
      var output := env.programs[hlBin].stdout;
      SplitLinesIsLines(output);
      assert Compared(AsWritten, env.files[outFile], output, hlBin, outFile, env) ==
        Compared(Intended, env.files[outFile], output, hlBin, outFile, env);
    }
  }

  /** The two comparisons only part ways on output holding a line boundary
      other than `\n`. */
  lemma IntendedAgrees(fs: FixtureFiles, env: Env)
    requires fs.input.Some? && Binary(fs) in env.programs ==> OnlyNewlineBoundaries(env.programs[Binary(fs)].stdout)
    ensures ExecTest(fs, env) == ExecTestIntended(fs, env)
  {
    if fs.input.Some? && fs.output.Some? {
      CompileRunAgrees(fs.input.value, fs.output.value, env);
    }
  }

  /** As written, a fixture whose program prints exactly its expected output
      still FAILS when that output holds a form feed, as in `a\fb\n`; the
      intended comparison PASSES it. */
  lemma IdenticalOutputFailsAsWritten(fs: FixtureFiles, env: Env, x: char, y: char)
    requires DiffReportsChanges(env) && !IsLineBoundary(x) && !IsLineBoundary(y)
    requires Compares(fs, env)
    requires env.files[fs.output.value] == [x, '\U{0C}', y, '\n']
    requires env.programs[Binary(fs)].stdout == [x, '\U{0C}', y, '\n']
    ensures ExecTest(fs, env).Returned? && ExecTest(fs, env).value.status == Failed
    ensures ExecTestIntended(fs, env) == Returned(TestResult(Passed, ""))
  {
    var text := [x, '\U{0C}', y, '\n'];
    assert IsLineBoundary('\n');
    FormFeedKeptByLines(x, y);
    FormFeedSplitBySplitLines(x, y);
    assert |Lines(text)| == 1 && |SplitLines(text)| == 2;
    MismatchReported(fs, env);
    IntendedPassedIff(fs, env);
  }

  /** The run ends early, rather than reporting, only when a file it needs is
      missing: the input, the executable the compiler should have written, or
      the expected output, checked in that order. */
  lemma CrashIff(fs: FixtureFiles, env: Env)
    ensures ExecTest(fs, env).Crashed? <==>
      fs.input.Some? && fs.output.Some? &&
      (fs.input.value !in env.files ||
       (Compiles(fs, env) && (Binary(fs) !in env.programs ||
         (env.programs[Binary(fs)].returnCode == 0 && fs.output.value !in env.files))))
    ensures ExecTest(fs, env).Crashed? ==>
      ExecTest(fs, env).path ==
        if fs.input.value !in env.files then fs.input.value
        else if Binary(fs) !in env.programs then Binary(fs)
        else fs.output.value
  {
    if fs.input.Some? && fs.input.value in env.files {
      MarkedExcludedIff(env.files[fs.input.value]);
    }
  }
}
