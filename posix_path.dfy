/** The parts of Python's `posixpath` (`os.path` on POSIX) that the test
    driver relies on: `split`, `dirname`, `basename`, `splitext` and `join`,
    together with the artifact path derived in `compile_file`. */
module PosixPath {
  import opened Text

  /** Index of the last occurrence of `c` in `p[..n]`, or -1. */
  function LastIndexBefore(p: string, c: char, n: nat): (r: int)
    requires n <= |p|
    ensures -1 <= r < n
  {
    if n == 0 then -1
    else if p[n - 1] == c then n - 1
    else LastIndexBefore(p, c, n - 1)
  }

  /** Index of the last occurrence of `c` in `p`, or -1 (`str.rfind`). */
  function LastIndexOf(p: string, c: char): (r: int)
    ensures -1 <= r < |p|
  {
    LastIndexBefore(p, c, |p|)
  }

  lemma {:induction false} LastIndexBeforeIsLast(p: string, c: char, n: nat)
    requires n <= |p|
    ensures LastIndexBefore(p, c, n) >= 0 ==> p[LastIndexBefore(p, c, n)] == c
    ensures forall j :: LastIndexBefore(p, c, n) < j < n ==> p[j] != c
  {
    if n > 0 && p[n - 1] != c {
      LastIndexBeforeIsLast(p, c, n - 1);
    }
  }

  /** `LastIndexOf` finds `c`, and there is no `c` after what it finds. */
  lemma LastIndexOfIsLast(p: string, c: char)
    ensures LastIndexOf(p, c) >= 0 ==> p[LastIndexOf(p, c)] == c
    ensures forall j :: LastIndexOf(p, c) < j < |p| ==> p[j] != c
  {
    LastIndexBeforeIsLast(p, c, |p|);
  }

  /** Any index holding `c` with no `c` after it is the last one. */
  lemma LastIndexUnique(p: string, c: char, i: int)
    requires -1 <= i < |p|
    requires i >= 0 ==> p[i] == c
    requires forall j :: i < j < |p| ==> p[j] != c
    ensures LastIndexOf(p, c) == i
  {
    LastIndexOfIsLast(p, c);
  }

  /** `s.rstrip('/')` */
  function StripTrailingSlashes(s: string): (r: string)
    ensures StartsWith(s, r)
  {
    if |s| > 0 && s[|s| - 1] == '/' then StripTrailingSlashes(s[..|s| - 1]) else s
  }

  predicate AllSlashes(s: string) {
    forall k :: 0 <= k < |s| ==> s[k] == '/'
  }

  /** `os.path.split(p)`: the tail is everything after the last slash, the
      head everything before it, with trailing slashes removed unless the
      head consists of slashes only. */
  function Split(p: string): (string, string) {
    var i := LastIndexOf(p, '/') + 1;
    var head := p[..i];
    var tail := p[i..];
    if head != "" && !AllSlashes(head) then (StripTrailingSlashes(head), tail) else (head, tail)
  }

  /** `os.path.basename(p)`, the second half of `Split(p)` */
  function Basename(p: string): string {
    p[LastIndexOf(p, '/') + 1..]
  }

  lemma BasenameHasNoSlash(p: string)
    ensures '/' !in Basename(p)
  {
    var i := LastIndexOf(p, '/') + 1;
    LastIndexOfIsLast(p, '/');
    assert forall k :: 0 <= k < |p| - i ==> p[i..][k] == p[i + k];
  }

  /** `os.path.dirname(p)`, the first half of `Split(p)` */
  function Dirname(p: string): string {
    Split(p).0
  }

  predicate AllDots(p: string, lo: int, hi: int)
    requires 0 <= lo && hi <= |p|
  {
    forall k :: lo <= k < hi ==> p[k] == '.'
  }

  /** `os.path.splitext(p)`: the extension runs from the last dot of the last
      path component to the end, unless everything in that component before
      the dot is a dot too (a leading-dot name such as `.hl` has no extension). */
  function SplitExt(p: string): (r: (string, string))
    ensures r.0 + r.1 == p
  {
    var sepIndex := LastIndexOf(p, '/');
    var dotIndex := LastIndexOf(p, '.');
    if dotIndex > sepIndex && !AllDots(p, sepIndex + 1, dotIndex) then
      (p[..dotIndex], p[dotIndex..])
    else (p, "")
  }

  /** An extension is empty, or a dot followed by neither dots nor slashes;
      when it is not empty, the last component of the stem has a character
      other than a dot. */
  lemma SplitExtShape(p: string)
    ensures var (stem, ext) := SplitExt(p);
      (ext == "" || (ext[0] == '.' && forall k :: 1 <= k < |ext| ==> ext[k] != '.' && ext[k] != '/')) &&
      (ext != "" ==> exists k :: LastIndexOf(p, '/') < k < |stem| && stem[k] != '.')
  {
    var sepIndex := LastIndexOf(p, '/');
    var dotIndex := LastIndexOf(p, '.');
    LastIndexOfIsLast(p, '/');
    LastIndexOfIsLast(p, '.');
    if dotIndex > sepIndex && !AllDots(p, sepIndex + 1, dotIndex) {
      assert forall k :: 1 <= k < |p| - dotIndex ==> p[dotIndex..][k] == p[dotIndex + k];
      var k :| sepIndex + 1 <= k < dotIndex && p[k] != '.';
      assert p[..dotIndex][k] != '.';
    }
  }

  /** `p[d]` is a dot at which an extension can start: no dot or slash
      follows it, and the last path component has a character other than a
      dot before it. */
  predicate ExtensionAt(p: string, d: int) {
    0 <= d < |p| && p[d] == '.' &&
    (forall j :: d < j < |p| ==> p[j] != '.' && p[j] != '/') &&
    exists k :: 0 <= k < d && p[k] != '.' && p[k] != '/' && forall j :: k < j < d ==> p[j] != '/'
  }

  /** Wherever such a dot is, `splitext` cuts there. */
  lemma SplitExtAt(p: string, d: int)
    requires ExtensionAt(p, d)
    ensures SplitExt(p) == (p[..d], p[d..])
  {
    LastIndexUnique(p, '.', d);
    var k :| 0 <= k < d && p[k] != '.' && p[k] != '/' && forall j :: k < j < d ==> p[j] != '/';
    var sep := LastIndexOf(p, '/');
    LastIndexOfIsLast(p, '/');
    assert sep < k;
    assert !AllDots(p, sep + 1, d) by { assert p[k] != '.'; }
  }

  /** `splitext` finds an extension exactly when some dot can start one. */
  lemma SplitExtFindsIff(p: string)
    ensures Ext(p) != "" <==> exists d :: ExtensionAt(p, d)
  {
    var sep := LastIndexOf(p, '/');
    var dot := LastIndexOf(p, '.');
    if exists d :: ExtensionAt(p, d) {
      var d :| ExtensionAt(p, d);
      SplitExtAt(p, d);
      assert p[d..][0] == '.';
    }
    if Ext(p) != "" {
      LastIndexOfIsLast(p, '/');
      LastIndexOfIsLast(p, '.');
      assert dot > sep && !AllDots(p, sep + 1, dot);
      var k :| sep + 1 <= k < dot && p[k] != '.';
      assert ExtensionAt(p, dot);
    }
  }

  /** A file name made of a stem with a character other than a dot and an
      extension of one dot and no further dots splits back into the two;
      so `add.hl` is the input of the fixture `add`. */
  lemma SplitExtOfName(stem: string, ext: string)
    requires '/' !in stem && exists k :: 0 <= k < |stem| && stem[k] != '.'
    requires |ext| > 0 && ext[0] == '.' && forall j :: 1 <= j < |ext| ==> ext[j] != '.' && ext[j] != '/'
    ensures SplitExt(stem + ext) == (stem, ext)
  {
    var p := stem + ext;
    var d := |stem|;
    var k :| 0 <= k < |stem| && stem[k] != '.';
    assert p[k] == stem[k];
    forall j | d < j < |p| ensures p[j] != '.' && p[j] != '/' {
      assert p[j] == ext[j - d];
    }
    forall j | k < j < d ensures p[j] != '/' {
      assert p[j] == stem[j];
    }
    assert p[d] == ext[0];
    assert ExtensionAt(p, d);
    SplitExtAt(p, d);
    assert p[..d] == stem && p[d..] == ext;
  }

  /** The file name without its extension (`splitext(name)[0]`). */
  function Stem(p: string): string {
    SplitExt(p).0
  }

  /** The extension, dot included (`splitext(name)[1]`). */
  function Ext(p: string): string {
    SplitExt(p).1
  }

  /** `os.path.join(a, b)`: an absolute `b` replaces `a`; otherwise a slash
      is inserted unless `a` is empty or already ends with one. */
  function Join(a: string, b: string): string {
    if StartsWith(b, "/") then b
    else if a == "" || a[|a| - 1] == '/' then a + b
    else a + "/" + b
  }

  /** `os.path.join(a, b, c)` */
  function Join3(a: string, b: string, c: string): string {
    Join(Join(a, b), c)
  }

  /** Where `compile_file` expects the compiler to have left the executable
      built from `hlFile`: `<dirname>/dist/<file name without extension>`. */
  function ArtifactPath(hlFile: string): string {
    Join3(Dirname(hlFile), "dist", Stem(Basename(hlFile)))
  }

  lemma LastIndexAfterSeparator(x: string, y: string, c: char)
    ensures c in y ==> LastIndexOf(x + y, c) == |x| + LastIndexOf(y, c)
    ensures c !in y ==> LastIndexOf(x + y, c) == LastIndexOf(x, c)
  {
    var s := x + y;
    if c in y {
      var i := LastIndexOf(y, c);
      LastIndexOfIsLast(y, c);
      var k :| 0 <= k < |y| && y[k] == c;
      assert k <= i;
      assert s[|x| + i] == c;
      forall j | |x| + i < j < |s| ensures s[j] != c { assert s[j] == y[j - |x|]; }
      LastIndexUnique(s, c, |x| + i);
    } else {
      var i := LastIndexOf(x, c);
      LastIndexOfIsLast(x, c);
      assert i >= 0 ==> s[i] == c;
      forall j | i < j < |s| ensures s[j] != c {
        if j >= |x| { assert s[j] == y[j - |x|]; } else { assert s[j] == x[j]; }
      }
      LastIndexUnique(s, c, i);
    }
  }

  lemma BasenameWithoutSlash(b: string)
    requires '/' !in b
    ensures Basename(b) == b
  {
    LastIndexUnique(b, '/', -1);
  }

  /** Joining never changes the last component: the name a joined path
      ends in is the name of what was joined on. */
  lemma BasenameOfJoin(a: string, b: string)
    ensures Basename(Join(a, b)) == Basename(b)
  {
    if StartsWith(b, "/") {
    } else {
      var x := if a == "" || a[|a| - 1] == '/' then a else a + "/";
      assert Join(a, b) == x + b;
      LastIndexAfterSeparator(x, b, '/');
      if '/' in b {
        var i := LastIndexOf(b, '/');
        assert (x + b)[|x| + i + 1..] == b[i + 1..];
      } else {
        BasenameWithoutSlash(b);
        if a == "" {
          assert x + b == b;
        } else {
          assert x[|x| - 1] == '/';
          assert (x + b)[|x|..] == b;
        }
      }
    }
  }

  /** A stem of a name without slashes has no slash either. */
  lemma StemWithoutSlash(name: string)
    requires '/' !in name
    ensures '/' !in Stem(name)
  {
    var r := SplitExt(name);
    assert forall k :: 0 <= k < |r.0| ==> r.0[k] == (r.0 + r.1)[k];
    forall k | 0 <= k < |r.0| ensures r.0[k] != '/' { assert r.0[k] == name[k]; }
  }

  /** A path built as `x/name`, with `x` not ending in a slash, splits back
      into `x` and `name`. */
  lemma SplitAfterSlash(x: string, name: string)
    requires |x| > 0 && x[|x| - 1] != '/'
    requires '/' !in name
    ensures Basename(x + "/" + name) == name
    ensures Dirname(x + "/" + name) == x
  {
    var p := x + "/" + name;
    LastIndexAfterSeparator(x + "/", name, '/');
    LastIndexUnique(x + "/", '/', |x|);
    assert LastIndexOf(p, '/') == |x|;
    assert p[|x| + 1..] == name;
    var head := p[..|x| + 1];
    assert head == x + "/";
    assert !AllSlashes(head) by { assert head[|x| - 1] != '/'; }
    assert head[..|x|] == x;
    assert StripTrailingSlashes(head) == x;
  }

  /** Joining a relative name onto a directory that does not end in a slash
      inserts exactly one slash. */
  lemma JoinRelative(x: string, name: string)
    requires |x| > 0 && x[|x| - 1] != '/'
    requires '/' !in name
    ensures Join(x, name) == x + "/" + name
  {
    if |name| > 0 { assert name[0] != '/'; }
  }

  /** Joining `dist` onto any directory gives a path ending in `dist`. */
  lemma JoinDist(dir: string)
    ensures |Join(dir, "dist")| > 0 && Join(dir, "dist")[|Join(dir, "dist")| - 1] == 't'
  {
    assert !StartsWith("dist", "/") by { assert "dist"[0] != '/'; }
  }

  /** The executable lives in the `dist` directory beside the input, and is
      named after the input with its extension removed. */
  lemma ArtifactLocation(hlFile: string)
    ensures Basename(ArtifactPath(hlFile)) == Stem(Basename(hlFile))
    ensures Dirname(ArtifactPath(hlFile)) == Join(Dirname(hlFile), "dist")
  {
    var base := Basename(hlFile);
    var stem := Stem(base);
    var x := Join(Dirname(hlFile), "dist");
    assert ArtifactPath(hlFile) == Join(x, stem);
    JoinDist(Dirname(hlFile));
    BasenameHasNoSlash(hlFile);
    StemWithoutSlash(base);
    JoinRelative(x, stem);
    SplitAfterSlash(x, stem);
  }
}
