# Test-suite driver of the Haskelite compiler, modelled in Dafny

The repository's test suite is run by one Python script,
`testsuite/driver/runtests.py`. It lists the fixture directories, pairs each
`<name>.hl` program with its `<name>.out` expected output, compiles each
program with the project's compiler, runs the executable the compiler leaves
in `dist/<name>`, compares what it prints with the expected output, and
prints one `[name] PASSED|FAILED|EXCLUDED` report per fixture, coloured when
standard output is a terminal. A `--match` pattern restricts the run to
fixtures whose name contains it, and a program whose first line starts with
`-- EXCLUDE` is skipped.

The model has six modules, one file each:

- `Text` (`text.dfy`): the string operations the script relies on. These are
  `startswith`, the substring test `in`, `readline`, `readlines`,
  `splitlines(keepends=True)`, `join` and the decimal formatting of an exit code.
- `PosixPath` (`posix_path.dfy`): `os.path.split`, `basename`, `dirname`,
  `splitext` and `join` on POSIX paths. It also defines where the executable
  built from an input file is expected to be.
- `Fixtures` (`fixtures.dfy`): `collect_test_files`. It is modelled as a
  method with the source's two nested loops. The method is proved equal to a
  fold `Collect` over the directory listing, and the properties of the
  fixture dictionary are proved about that fold.
- `Results` (`results.dfy`): `TestResult`, its colour codes, the status line
  and everything `print` writes.
- `Executor` (`executor.dfy`): `compile_file`, `eval_file` and `exec_test`.
  These are total functions of an `Env` value. `Env` stands for the file
  system, the compiler, the compiled executables and `difflib`. An `Outcome`
  value separates three endings: a returned value, a raised `TestFailure`,
  and any other exception, which ends the whole run.
- `Driver` (`driver.dfy`): the main loop and the `--match` filter. The loop
  is modelled as a method and proved against the per-fixture outcome.

## Model

| member | source | states |
|---|---|---|
| Text.ContainsIffOccurs | testsuite/driver/runtests.py:171 | Python's `pattern in name` holds exactly when the pattern occurs at some index of the name |
| Text.FirstLineStartsWith | testsuite/driver/runtests.py:113-114 | for a prefix without a newline, the first line read by `readline` starts with it exactly when the whole file does |
| Text.Lines | testsuite/driver/runtests.py:123 | `readlines` loses nothing: the lines concatenate back to the text, and a non-empty text has at least one line |
| Text.LinesWellSplit | testsuite/driver/runtests.py:123 | every line is non-empty, holds a newline only at its end, and ends with one unless it is the last |
| Text.LinesInjective | testsuite/driver/runtests.py:119-127 | two texts have the same line sequence exactly when they are the same text |
| Text.SplitLines | testsuite/driver/runtests.py:119 | `splitlines(keepends=True)` loses nothing: its lines concatenate back to the text (where it cuts is stated by the next row) |
| Text.SplitLinesWellSplit | testsuite/driver/runtests.py:119 | `splitlines` ends a line after every line boundary and nowhere else: every line is non-empty, has no boundary before its end except the `\r` of a closing `\r\n`, ends in a boundary unless it is the last, and a line ending in a lone `\r` is never followed by one starting with `\n` |
| Text.SplitLinesIsLines | testsuite/driver/runtests.py:119-123 | on a text whose only line boundary is `\n`, `splitlines` and `readlines` give the same lines |
| Text.FormFeedKeptByLines | testsuite/driver/runtests.py:123 | `readlines` keeps a form feed inside its line |
| Text.FormFeedSplitBySplitLines | testsuite/driver/runtests.py:119 | `splitlines` ends a line at a form feed |
| Text.DecimalRoundTrip | testsuite/driver/runtests.py:59 | the exit code written into a failure message reads back as that exact integer, negative codes included |
| PosixPath.SplitExt | testsuite/driver/runtests.py:37 | `splitext` cuts a name in two: stem followed by extension is the name (where it cuts is stated by the next three rows) |
| PosixPath.SplitExtAt | testsuite/driver/runtests.py:37 | `splitext` cuts at any dot that is followed by no dot or slash and preceded, in the last path component, by a character other than a dot |
| PosixPath.SplitExtFindsIff | testsuite/driver/runtests.py:37 | `splitext` finds a non-empty extension exactly when the name has such a dot |
| PosixPath.SplitExtOfName | testsuite/driver/runtests.py:37 | a slash-free stem with a character other than a dot, followed by a dot and no further dots or slashes, splits back into that stem and extension: `add.hl` is the input of fixture `add` |
| PosixPath.SplitExtShape | testsuite/driver/runtests.py:37 | the extension is empty or a dot followed by neither dots nor slashes; a non-empty extension leaves a non-dot character in the stem's last component |
| PosixPath.BasenameHasNoSlash | testsuite/driver/runtests.py:37 | a base name never contains a slash |
| PosixPath.BasenameOfJoin | testsuite/driver/runtests.py:46-48 | the base name of `join(a, b)` is the base name of `b` |
| PosixPath.SplitAfterSlash | testsuite/driver/runtests.py:61 | `split` of `x/name` gives back `x` and `name` when `x` does not end in a slash |
| PosixPath.ArtifactLocation | testsuite/driver/runtests.py:61-63 | the executable is named after the input without its extension and lies in the `dist` directory beside the input |
| Fixtures.CollectSuite | testsuite/driver/runtests.py:32-48 | the inner loop over one directory's entries continues the fold `Collect` over the listing by exactly those entries |
| Fixtures.CollectTestFiles | testsuite/driver/runtests.py:29-50 | the nested loops build exactly the fold of the listing; keys are unique, and the key order lists exactly the keys |
| Fixtures.VisitEffect | testsuite/driver/runtests.py:33-48 | one entry: a reserved name changes nothing; otherwise its base name gets a record, and the `.hl`/`.out` path is set when the extension matches; all other records are untouched |
| Fixtures.CollectOrder | testsuite/driver/runtests.py:39-43 | keys are in order of first appearance: every entry creating the record of a later key comes after some entry creating the record of an earlier key |
| Fixtures.CollectValid | testsuite/driver/runtests.py:39-43 | the dictionary's keys are distinct and the insertion order lists exactly the keys |
| Fixtures.CollectKeys | testsuite/driver/runtests.py:39-43 | a record exists for a name exactly when some entry other than `dist`/`build` has that base name, whatever its extension |
| Fixtures.CollectLastWrite | testsuite/driver/runtests.py:45-48 | last write wins: the input (output) path is the joined path of the last `.hl` (`.out`) entry with that name |
| Fixtures.CollectNoWrite | testsuite/driver/runtests.py:45-48 | without a matching entry the input (output) path stays absent, even when the record exists |
| Fixtures.LastWriteExists | testsuite/driver/runtests.py:45-48 | whenever some entry writes a path, one of them is the last |
| Fixtures.CollectPathsMatchNames | testsuite/driver/runtests.py:37-48 | every recorded path's file name has the fixture's name as stem and `.hl`/`.out` as extension |
| Fixtures.FlattenWellSplit | testsuite/driver/runtests.py:31-37 | every listed entry carries the `splitext` of its own base name |
| Fixtures.CollectIgnoresReserved | testsuite/driver/runtests.py:33-35 | entries named `dist` or `build` have no effect: the dictionary, key order included, is the one built without them |
| Results.ColorCodes | testsuite/driver/runtests.py:95-101 | each colour code is `ESC[0;3xm` and the three results get three different colours |
| Results.StatusLineRoundTrip | testsuite/driver/runtests.py:88 | a status line can be parsed back into its fixture name and its result, whatever the name holds |
| Results.ParseStatusLineSound | testsuite/driver/runtests.py:88 | whatever parses as a status line is the status line of the name and result parsed |
| Results.RenderOnTerminal | testsuite/driver/runtests.py:84-93 | on a terminal the report is the plain report wrapped in the result's colour code and the reset sequence |
| Results.RenderPlainHasNoEscape | testsuite/driver/runtests.py:84-93 | off a terminal no escape character is written unless the name or the message holds one |
| Results.RenderShowsMessage | testsuite/driver/runtests.py:88-90 | a report starts with the status line; a non-empty message is printed after it, and an empty one is not printed |
| Executor.CompileFailureMentions | testsuite/driver/runtests.py:59 | the compiler-failure message contains the input path, the exit code and all of the compiler's output |
| Executor.RunFailureMentions | testsuite/driver/runtests.py:70 | the run-failure message contains the executable path, the exit code and all of its output |
| Executor.CompileFile | testsuite/driver/runtests.py:53-63 | raises exactly when the compiler exits non-zero, with a message naming file, code and output; otherwise it returns `dist/<stem>` beside the input |
| Executor.EvalFile | testsuite/driver/runtests.py:66-72 | a missing executable is an uncaught error on that path; a non-zero exit raises with a message naming path, code and output; otherwise it returns the output |
| Executor.ExecTest | testsuite/driver/runtests.py:104-132 | `exec_test` as written, comparison included: `TestFailure` never escapes it; the run can only end on the input file, the executable or the expected-output file |
| Executor.MissingFilesFirst | testsuite/driver/runtests.py:105-108 | a missing input is reported first and a missing expected output second, whatever the environment |
| Executor.MarkedExcludedIff | testsuite/driver/runtests.py:113-115 | the first-line marker test holds exactly when the file starts with `-- EXCLUDE` |
| Executor.MarkerBelowFirstLineIgnored | testsuite/driver/runtests.py:113-115 | a marker after the first line does not exclude the program |
| Executor.ExcludedIff | testsuite/driver/runtests.py:104-115 | a fixture is EXCLUDED, with no message, exactly when both files are known and the input starts with the marker |
| Executor.CompileFailureReported | testsuite/driver/runtests.py:117-132 | a failed compilation is reported as FAILED with the compiler-failure message, whatever the executable and the expected output |
| Executor.RunFailureReported | testsuite/driver/runtests.py:117-132 | a non-zero exit of the executable is reported as FAILED with the run-failure message |
| Executor.CompareAsWrittenIff | testsuite/driver/runtests.py:119-130 | as written, the comparison passes exactly when the expected output's `readlines` equal the output's `splitlines`, and then the texts are equal; otherwise it fails with the header and the diff |
| Executor.CompareIff | testsuite/driver/runtests.py:119-130 | with both sides split at newlines (the corrected comparison), it passes exactly when the output equals the expected text |
| Executor.PassedIff | testsuite/driver/runtests.py:104-130 | PASSED exactly when the fixture compiles, its executable exits 0, the expected output is readable, and the expected output's `readlines` equal the output's `splitlines`; a PASSED fixture printed its expected output character for character |
| Executor.MismatchReported | testsuite/driver/runtests.py:119-128 | when those line lists differ, FAILED with the fixed header followed by the non-empty diff from the expected output's `readlines` to the output's `splitlines`, joined by newlines |
| Executor.IdenticalOutputFailsAsWritten | testsuite/driver/runtests.py:119-128 | a fixture whose program prints exactly its expected text `x\fy\n` FAILS as written, and PASSES with the corrected comparison |
| Executor.IntendedPassedIff | testsuite/driver/runtests.py:104-130 | with the corrected comparison, PASSED exactly when the fixture gets as far as comparing and the output equals the expected text character for character |
| Executor.IntendedAgrees | testsuite/driver/runtests.py:119-123 | the corrected and the as-written `exec_test` agree whenever the program's output has no line boundary other than `\n` |
| Executor.CrashIff | testsuite/driver/runtests.py:110-125 | the run ends on a fixture exactly when its input is unreadable, or when it compiles and its executable is missing, or when it runs cleanly and its expected output is unreadable; it names that path |
| Driver.FilteredOutIff | testsuite/driver/runtests.py:171-173 | a fixture is kept exactly when there is no pattern, the pattern is empty, or the pattern occurs in its name |
| Driver.NameMatchesItsParts | testsuite/driver/runtests.py:171 | any part of a fixture's name selects that fixture |
| Driver.FilteredFixturesNotRun | testsuite/driver/runtests.py:171-173 | a filtered fixture is EXCLUDED without a message and nothing in the environment can change that |
| Driver.RunTests | testsuite/driver/runtests.py:170-175 | reports follow the dictionary's key order, each with the outcome of its fixture; it stops at the first uncaught error and names its path; standard output is the reports' concatenation |
| Driver.TranscriptInOrder | testsuite/driver/runtests.py:170-175 | standard output begins with the earlier reports followed by the report of fixture `k`, for every `k` |
| Driver.ArtifactNamedAfterFixture | testsuite/driver/runtests.py:37-63 | for every collected fixture with an input, that input ends in `.hl` and the executable is `dist/<fixture name>` beside it |

## Findings

| source | as written | input that shows it | evidently intended | confidence | as-written member | corrected member |
|---|---|---|---|---|---|---|
| testsuite/driver/runtests.py:119-123 | the program's output is split with `splitlines(keepends=True)`, which also ends lines at `\r`, `\v`, `\f`, `\x1c`–`\x1e`, `\x85`, U+2028 and U+2029; the expected output is split with `readlines()`, which ends lines only at `\n` | the program prints `a\fb\n` and `<name>.out` holds `a\fb\n`: the line lists are `["a\f", "b\n"]` and `["a\fb\n"]`, so the fixture is reported FAILED | output identical to the expected text passes | medium, not executed | Executor.IdenticalOutputFailsAsWritten | Executor.IntendedPassedIff |

`Executor.ExecTest`, which the main loop runs, is `exec_test` as written
(`Executor.CompareAsWritten`). The corrected run, with both sides split at
newlines (`Executor.Compare`), is `Executor.ExecTestIntended`.

## Left out

- Processes and files are not run or read. `Env` supplies the compiler's exit code and output for an input and working directory. It also supplies the readable files' texts and the executables present after compilation, with what each prints. A compiler run cannot fail to start in the model, although `subprocess.run` can raise there.
- Only a missing file or executable is modelled as an uncaught error. Permission errors, a missing compiler and failing UTF-8 decoding of output or files also end the run in the source; they are not modelled.
- Text-mode reading translates `\r\n` and `\r` to `\n` when the files are opened. The model does not do this translation.
- `difflib.unified_diff` is the function `Env.unifiedDiff`. The only property the model requires of it is that it yields no lines exactly when its two inputs are equal (`Executor.DiffReportsChanges`). The exact diff text is not modelled.
- The diff is computed from the expected lines to the actual lines. Its labels are kept as written, `fromfile` = the executable and `tofile` = the expected-output file, although the labels look swapped.
- `sys.stdout.isatty()` is the parameter `tty`. Printing is modelled as the text it writes (`Results.Render`, `Driver.Transcript`).
- These are outside the modelled core: `install`, `parse_args`, the `cabal build` step, the global `EXE`, the "Using executable" line, the script guard and the computation of the test-suite directory. `--match` is the parameter `pattern`.
- `os.listdir` is given as data (`Fixtures.Suite`), in the order the operating system returns. The source does not check that each top-level entry is a directory. A regular file there makes the inner `os.listdir` raise `NotADirectoryError`, which nothing catches, so the run ends before any fixture. A `Suite` listing always has entries, so the model cannot express this case.
- The per-name `files_dict` is updated in place and shared with the outer dictionary. The model updates a value and stores it back into the dictionary, which has the same effect because nothing else holds the inner dictionary.
- `_get_ansi_color_code` returns `None` for an unknown result. That case cannot occur here, since `Status` has exactly three values.
- Executor.CompileFile, Executor.EvalFile: the failure messages are stated to contain the path, the code and the output. The exact message text is stated by `Executor.CompileFailureReported` and `Executor.RunFailureReported` through `CompileFailure`/`RunFailure`.
