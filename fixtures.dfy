/** Fixture discovery (`collect_test_files`): a listing of suite directories
    and their entries is folded into the `test_files` dict, which maps each
    base name to the fixture's optional input (`.hl`) and expected-output
    (`.out`) paths. */
module Fixtures {
  import opened Text
  import opened PosixPath

  /** The per-name `files_dict`: its optional "in" and "out" keys. */
  datatype FixtureFiles = FixtureFiles(input: Option<string>, output: Option<string>)

  const NoFiles := FixtureFiles(None, None)

  /** The two roles a file can play in a fixture. */
  datatype Role = In | Out

  /** The extension that marks a file for `role`. */
  function RoleExt(role: Role): string {
    match role
    case In => ".hl"
    case Out => ".out"
  }

  /** The path recorded for `role` ("in" or "out"). */
  function Slot(files: FixtureFiles, role: Role): Option<string> {
    match role
    case In => files.input
    case Out => files.output
  }

  /** The `test_files` dict: its keys in insertion order (the order the
      driver later iterates in) and the record stored under each key. */
  datatype TestFiles = TestFiles(names: seq<string>, records: map<string, FixtureFiles>) {
    ghost predicate Valid() {
      (forall i, j :: 0 <= i < j < |names| ==> names[i] != names[j]) &&
      (forall n :: n in records <==> n in names)
    }
  }

  /** One entry `test_file` found while listing the suite directory
      `test_dir`, with the `(name, ext)` that `os.path.splitext` gives for its
      base name. */
  datatype Entry = Entry(testDir: string, testFile: string, name: string, ext: string)

  /** The entry for `testFile` in `testDir`, its name split as the source does. */
  function ListingEntry(testDir: string, testFile: string): Entry {
    var (name, ext) := SplitExt(Basename(testFile));
    Entry(testDir, testFile, name, ext)
  }

  predicate WellSplitEntry(e: Entry) {
    e == ListingEntry(e.testDir, e.testFile)
  }

  /** The listing of one suite directory, in the order `os.listdir` gave it. */
  datatype Suite = Suite(testDir: string, testFiles: seq<string>)

  /** Build-output directories that sit beside the fixtures and are skipped. */
  predicate Reserved(testFile: string) {
    testFile in ["dist", "build"]
  }


  /** `os.path.join(dir_path, test_dir, test_file)` */
  function EntryPath(dirPath: string, e: Entry): string {
    Join3(dirPath, e.testDir, e.testFile)
  }

  /** The entry makes sure a record exists for `name`. */
  predicate Creates(e: Entry, name: string) {
    !Reserved(e.testFile) && e.name == name
  }

  /** The entry writes the `role` path of the record for `name`. */
  predicate Writes(e: Entry, name: string, role: Role) {
    Creates(e, name) && e.ext == RoleExt(role)
  }

  /** One pass of the inner loop body of `collect_test_files`. */
  function Visit(t: TestFiles, dirPath: string, e: Entry): TestFiles {
    if Reserved(e.testFile) then t
    else
      var name := e.name;
      var t1 := if name in t.records then t else TestFiles(t.names + [name], t.records[name := NoFiles]);
      var files := t1.records[name];
      if e.ext == ".hl" then t1.(records := t1.records[name := files.(input := Some(EntryPath(dirPath, e)))])
      else if e.ext == ".out" then t1.(records := t1.records[name := files.(output := Some(EntryPath(dirPath, e)))])
      else t1
  }

  /** What one entry does to the dict: nothing for a reserved name; otherwise
      the record for its name exists afterwards, its `role` path is the
      entry's path when the extension matches and is unchanged otherwise, and
      every other record is untouched. */
  lemma VisitEffect(t: TestFiles, dirPath: string, e: Entry, n: string, role: Role)
    ensures Reserved(e.testFile) ==> Visit(t, dirPath, e) == t
    ensures n in Visit(t, dirPath, e).records <==> n in t.records || Creates(e, n)
    ensures n in Visit(t, dirPath, e).records ==>
      Slot(Visit(t, dirPath, e).records[n], role) ==
        if Writes(e, n, role) then Some(EntryPath(dirPath, e))
        else if n in t.records then Slot(t.records[n], role)
        else None
  {
  }

  /** The fold of `Visit` over a flat listing: the dict after the entries `es`. */
  function Collect(dirPath: string, es: seq<Entry>): TestFiles {
    if |es| == 0 then TestFiles([], map[])
    else Visit(Collect(dirPath, es[..|es| - 1]), dirPath, es[|es| - 1])
  }

  /** Each key is stored once and the key order lists exactly the keys. */
  lemma {:induction false} CollectValid(dirPath: string, es: seq<Entry>)
    ensures Collect(dirPath, es).Valid()
  {
    if |es| > 0 {
      var t := Collect(dirPath, es[..|es| - 1]);
      CollectValid(dirPath, es[..|es| - 1]);
      var e := es[|es| - 1];
      if !Reserved(e.testFile) && e.name !in t.records {
        var names := t.names + [e.name];
        assert forall i :: 0 <= i < |names| - 1 ==> names[i] == t.names[i];
      }
    }
  }

  /** The entries of one suite, each paired with the suite's directory name. */
  function Entries(testDir: string, files: seq<string>): (r: seq<Entry>)
    ensures |r| == |files|
  {
    if |files| == 0 then []
    else Entries(testDir, files[..|files| - 1]) + [ListingEntry(testDir, files[|files| - 1])]
  }

  lemma {:induction false} EntriesWellSplit(testDir: string, files: seq<string>)
    ensures forall k :: 0 <= k < |files| ==> WellSplitEntry(Entries(testDir, files)[k])
  {
    if |files| > 0 {
      EntriesWellSplit(testDir, files[..|files| - 1]);
    }
  }

  /** The order in which the nested loops visit entries. */
  function Flatten(listing: seq<Suite>): seq<Entry> {
    if |listing| == 0 then [] else Flatten(listing[..|listing| - 1]) + Entries(listing[|listing| - 1].testDir, listing[|listing| - 1].testFiles)
  }

  lemma CollectSnoc(dirPath: string, es: seq<Entry>, e: Entry)
    ensures Collect(dirPath, es + [e]) == Visit(Collect(dirPath, es), dirPath, e)
  {
    assert (es + [e])[..|es|] == es;
  }

  /** The inner loop's view of the fold: the files of one suite applied in
      order to `t`. */
  function CollectFiles(t: TestFiles, dirPath: string, testDir: string, files: seq<string>): TestFiles {
    if |files| == 0 then t
    else Visit(CollectFiles(t, dirPath, testDir, files[..|files| - 1]), dirPath, ListingEntry(testDir, files[|files| - 1]))
  }

  lemma AppendAssoc<T>(xs: seq<T>, ys: seq<T>, y: T)
    ensures xs + (ys + [y]) == (xs + ys) + [y]
  {
  }

  /** Folding one suite's files continues the fold over the whole listing. */
  lemma {:induction false} CollectFilesContinues(dirPath: string, done: seq<Entry>, testDir: string, files: seq<string>)
    ensures CollectFiles(Collect(dirPath, done), dirPath, testDir, files) == Collect(dirPath, done + Entries(testDir, files))
  {
    var es := Entries(testDir, files);
    if |files| == 0 {
      assert done + es == done;
    } else {
      var n := |files| - 1;
      var pre := files[..n];
      CollectFilesContinues(dirPath, done, testDir, pre);
      var esPre := Entries(testDir, pre);
      assert es == esPre + [ListingEntry(testDir, files[n])];
      AppendAssoc(done, esPre, ListingEntry(testDir, files[n]));
      CollectSnoc(dirPath, done + esPre, ListingEntry(testDir, files[n]));
    }
  }

  /** The inner loop of `collect_test_files`: the entries of one suite
      directory `testDir`, in listing order, applied to the dict built from
      the suites before it (`done` lists their entries). */
  method CollectSuite(testFiles0: TestFiles, dirPath: string, testDir: string, files: seq<string>, ghost done: seq<Entry>)
    returns (testFiles: TestFiles)
    requires testFiles0 == Collect(dirPath, done)
    ensures testFiles == Collect(dirPath, done + Entries(testDir, files))
  {
    testFiles := testFiles0;
    var j := 0;
    while j < |files|
      invariant 0 <= j <= |files|
      invariant testFiles == CollectFiles(testFiles0, dirPath, testDir, files[..j])
    {
      var testFile := files[j];
      ghost var before := testFiles;
      ghost var e := ListingEntry(testDir, testFile);
      if !Reserved(testFile) {
        var (name, ext) := SplitExt(Basename(testFile));
        assert name == e.name && ext == e.ext;
        assert Join3(dirPath, testDir, testFile) == EntryPath(dirPath, e);
        var filesDict: FixtureFiles;
        if name in testFiles.records {
          filesDict := testFiles.records[name];
        } else {
          filesDict := NoFiles;
          testFiles := TestFiles(testFiles.names + [name], testFiles.records[name := filesDict]);
        }
        if ext == ".hl" {
          filesDict := filesDict.(input := Some(Join3(dirPath, testDir, testFile)));
          testFiles := testFiles.(records := testFiles.records[name := filesDict]);
        } else if ext == ".out" {
          filesDict := filesDict.(output := Some(Join3(dirPath, testDir, testFile)));
          testFiles := testFiles.(records := testFiles.records[name := filesDict]);
        }
      }
      assert testFiles == Visit(before, dirPath, e);
      assert files[..j + 1][..j] == files[..j];
      j := j + 1;
    }
    assert files[..|files|] == files;
    CollectFilesContinues(dirPath, done, testDir, files);
  }

  /** `collect_test_files(dir_path)`, with the two levels of `os.listdir`
      given as `listing`: the outer loop over suite directories. */
  method CollectTestFiles(dirPath: string, listing: seq<Suite>) returns (testFiles: TestFiles)
    ensures testFiles == Collect(dirPath, Flatten(listing))
    ensures testFiles.Valid()
  {
    testFiles := TestFiles([], map[]);
    var i := 0;
    while i < |listing|
      invariant 0 <= i <= |listing|
      invariant testFiles == Collect(dirPath, Flatten(listing[..i]))
    {
      testFiles := CollectSuite(testFiles, dirPath, listing[i].testDir, listing[i].testFiles, Flatten(listing[..i]));
      assert listing[..i + 1][..i] == listing[..i];
      i := i + 1;
    }
    assert listing[..|listing|] == listing;
    CollectValid(dirPath, Flatten(listing));
  }

  /** A record exists for `name` exactly when some entry not named `dist` or
      `build` has that base name, whatever its extension. */
  lemma {:induction false} CollectKeys(dirPath: string, es: seq<Entry>, name: string)
    ensures name in Collect(dirPath, es).records <==> exists k :: 0 <= k < |es| && Creates(es[k], name)
  {
    if |es| > 0 {
      var pre := es[..|es| - 1];
      CollectKeys(dirPath, pre, name);
      VisitEffect(Collect(dirPath, pre), dirPath, es[|es| - 1], name, In);
      if exists k :: 0 <= k < |pre| && Creates(pre[k], name) {
        var k :| 0 <= k < |pre| && Creates(pre[k], name);
        assert es[k] == pre[k];
      }
      if exists k :: 0 <= k < |es| && Creates(es[k], name) {
        var k :| 0 <= k < |es| && Creates(es[k], name);
        if k < |pre| { assert pre[k] == es[k]; }
      }
    }
  }

  /** One entry appends its name to the key order exactly when it creates a
      record that was not there before. */
  lemma VisitNames(t: TestFiles, dirPath: string, e: Entry)
    ensures Visit(t, dirPath, e).names ==
      if !Reserved(e.testFile) && e.name !in t.records then t.names + [e.name] else t.names
  {
  }

  /** The dict's keys are ordered by first appearance: every entry creating
      the record of a later key comes after some entry creating the record
      of an earlier key. */
  lemma {:induction false} CollectOrder(dirPath: string, es: seq<Entry>, i: int, j: int, kj: int)
    requires 0 <= i < j < |Collect(dirPath, es).names|
    requires 0 <= kj < |es| && Creates(es[kj], Collect(dirPath, es).names[j])
    ensures exists ki :: 0 <= ki < kj && Creates(es[ki], Collect(dirPath, es).names[i])
  {
    var pre := es[..|es| - 1];
    var e := es[|es| - 1];
    var t := Collect(dirPath, pre);
    var names := Collect(dirPath, es).names;
    VisitNames(t, dirPath, e);
    CollectValid(dirPath, pre);
    assert names[i] == t.names[i];
    assert names[i] in t.records;
    if j < |t.names| {
      assert names[j] == t.names[j];
      var kj' := kj;
      if kj == |pre| {
        CollectKeys(dirPath, pre, names[j]);
        kj' :| 0 <= kj' < |pre| && Creates(pre[kj'], names[j]);
      } else {
        assert pre[kj] == es[kj];
      }
      CollectOrder(dirPath, pre, i, j, kj');
      var ki :| 0 <= ki < kj' && Creates(pre[ki], t.names[i]);
      assert es[ki] == pre[ki];
    } else {
      assert names[j] == e.name && e.name !in t.records;
      CollectKeys(dirPath, pre, e.name);
      assert forall m :: 0 <= m < |pre| ==> pre[m] == es[m];
      assert kj == |pre|;
      CollectKeys(dirPath, pre, names[i]);
      var ki :| 0 <= ki < |pre| && Creates(pre[ki], names[i]);
      assert es[ki] == pre[ki];
    }
  }

  /** `k` is the last entry that writes the `role` path of `name`. */
  predicate IsLastWrite(es: seq<Entry>, name: string, role: Role, k: int) {
    0 <= k < |es| && Writes(es[k], name, role) &&
    forall j :: k < j < |es| ==> !Writes(es[j], name, role)
  }

  /** Last write wins: the `role` path of a record is the path of the last
      entry with that base name and the matching extension. */
  lemma {:induction false} CollectLastWrite(dirPath: string, es: seq<Entry>, name: string, role: Role, k: int)
    requires IsLastWrite(es, name, role, k)
    ensures name in Collect(dirPath, es).records
    ensures Slot(Collect(dirPath, es).records[name], role) == Some(EntryPath(dirPath, es[k]))
  {
    var pre := es[..|es| - 1];
    VisitEffect(Collect(dirPath, pre), dirPath, es[|es| - 1], name, role);
    if k < |es| - 1 {
      assert IsLastWrite(pre, name, role, k) by {
        forall j | k < j < |pre| ensures !Writes(pre[j], name, role) { assert pre[j] == es[j]; }
      }
      CollectLastWrite(dirPath, pre, name, role, k);
    }
  }

  /** Without a matching entry the `role` path stays absent, even when the
      record exists because of entries of the other role or with other
      extensions. */
  lemma {:induction false} CollectNoWrite(dirPath: string, es: seq<Entry>, name: string, role: Role)
    requires forall k :: 0 <= k < |es| ==> !Writes(es[k], name, role)
    ensures name in Collect(dirPath, es).records ==> Slot(Collect(dirPath, es).records[name], role) == None
  {
    if |es| > 0 {
      var pre := es[..|es| - 1];
      assert forall k :: 0 <= k < |pre| ==> pre[k] == es[k];
      CollectNoWrite(dirPath, pre, name, role);
      VisitEffect(Collect(dirPath, pre), dirPath, es[|es| - 1], name, role);
    }
  }

  /** Whenever some entry writes a path, one of them is the last. */
  lemma {:induction false} LastWriteExists(es: seq<Entry>, name: string, role: Role, k: int)
    requires 0 <= k < |es| && Writes(es[k], name, role)
    ensures exists m :: IsLastWrite(es, name, role, m)
    decreases |es| - k
  {
    if !IsLastWrite(es, name, role, k) {
      var j :| k < j < |es| && Writes(es[j], name, role);
      LastWriteExists(es, name, role, j);
    }
  }

  /** Every recorded path names its own fixture: its last component has the
      fixture's name as stem and the role's extension. */
  lemma CollectPathsMatchNames(dirPath: string, es: seq<Entry>, name: string, role: Role)
    requires forall k :: 0 <= k < |es| ==> WellSplitEntry(es[k])
    requires name in Collect(dirPath, es).records
    requires Slot(Collect(dirPath, es).records[name], role).Some?
    ensures Stem(Basename(Slot(Collect(dirPath, es).records[name], role).value)) == name
    ensures Ext(Basename(Slot(Collect(dirPath, es).records[name], role).value)) == RoleExt(role)
  {
    if forall k :: 0 <= k < |es| ==> !Writes(es[k], name, role) {
      CollectNoWrite(dirPath, es, name, role);
    } else {
      var k :| 0 <= k < |es| && Writes(es[k], name, role);
      LastWriteExists(es, name, role, k);
      var m :| IsLastWrite(es, name, role, m);
      CollectLastWrite(dirPath, es, name, role, m);
      BasenameOfJoin(Join(dirPath, es[m].testDir), es[m].testFile);
    }
  }

  /** The listing's entries all carry the split of their own file name. */
  lemma {:induction false} FlattenWellSplit(listing: seq<Suite>)
    ensures forall k :: 0 <= k < |Flatten(listing)| ==> WellSplitEntry(Flatten(listing)[k])
  {
    if |listing| > 0 {
      var last := listing[|listing| - 1];
      FlattenWellSplit(listing[..|listing| - 1]);
      EntriesWellSplit(last.testDir, last.testFiles);
    }
  }

  /** The entries with the reserved names `dist` and `build` removed. */
  function WithoutReserved(es: seq<Entry>): (r: seq<Entry>)
    ensures forall k :: 0 <= k < |r| ==> !Reserved(r[k].testFile)
  {
    if |es| == 0 then []
    else WithoutReserved(es[..|es| - 1]) + (if Reserved(es[|es| - 1].testFile) then [] else [es[|es| - 1]])
  }

  /** Entries named `dist` or `build` have no effect at all: the dict,
      including the order of its keys, is the one built without them. */
  lemma {:induction false} CollectIgnoresReserved(dirPath: string, es: seq<Entry>)
    ensures Collect(dirPath, es) == Collect(dirPath, WithoutReserved(es))
  {
    if |es| > 0 {
      var pre := es[..|es| - 1];
      var last := es[|es| - 1];
      var wPre := WithoutReserved(pre);
      CollectIgnoresReserved(dirPath, pre);
      assert Collect(dirPath, es) == Visit(Collect(dirPath, wPre), dirPath, last);
      if Reserved(last.testFile) {
        assert WithoutReserved(es) == wPre;
      } else {
        var w := wPre + [last];
        assert WithoutReserved(es) == w;
        assert w[..|w| - 1] == wPre;
        assert Collect(dirPath, w) == Visit(Collect(dirPath, wPre), dirPath, last);
      }
    }
  }
}
