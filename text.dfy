/** String helpers with the meaning Python gives them in the test driver:
    `str.startswith`, `t in s`, `file.readline()`, `file.readlines()` /
    `str.splitlines(keepends=True)`, `'sep'.join(parts)` and `'{}'.format(n)`
    for an integer `n`. */
module Text {

  datatype Option<+T> = None | Some(value: T)

  /** `s.startswith(prefix)` */
  predicate StartsWith(s: string, prefix: string) {
    |prefix| <= |s| && s[..|prefix|] == prefix
  }

  /** A prefix of `s` stays a prefix when more text is appended to `s`. */
  lemma StartsWithAppend(s: string, prefix: string, more: string)
    requires StartsWith(s, prefix)
    ensures StartsWith(s + more, prefix)
  {
    assert (s + more)[..|prefix|] == s[..|prefix|];
  }

  /** Cutting a string at two points and gluing the pieces back. */
  lemma SplitInThree(s: string, i: int, j: int)
    requires 0 <= i <= j <= |s|
    ensures s == s[..i] + s[i..j] + s[j..]
  {
  }

  /** `t` occurs in `s` starting at index `i`. */
  predicate OccursAt(t: string, s: string, i: int) {
    0 <= i && i + |t| <= |s| && s[i..i + |t|] == t
  }

  /** Python's substring test `t in s`. */
  predicate Contains(t: string, s: string)
    decreases |s|
  {
    StartsWith(s, t) || (|s| > 0 && Contains(t, s[1..]))
  }

  lemma {:induction false} ContainsIffOccurs(t: string, s: string)
    ensures Contains(t, s) <==> exists i :: OccursAt(t, s, i)
    decreases |s|
  {
    if Contains(t, s) {
      if StartsWith(s, t) {
        assert OccursAt(t, s, 0);
      } else {
        ContainsIffOccurs(t, s[1..]);
        var i :| OccursAt(t, s[1..], i);
        assert s[1..][i..i + |t|] == s[i + 1..i + 1 + |t|];
        assert OccursAt(t, s, i + 1);
      }
    }
    if exists i :: OccursAt(t, s, i) {
      var i :| OccursAt(t, s, i);
      if i > 0 {
        assert s[1..][i - 1..i - 1 + |t|] == s[i..i + |t|];
        assert OccursAt(t, s[1..], i - 1);
        ContainsIffOccurs(t, s[1..]);
      } else {
        assert StartsWith(s, t);
      }
    }
  }

  /** Whatever is spliced between two strings is contained in the result. */
  lemma ContainsSpliced(t: string, a: string, b: string)
    ensures Contains(t, a + t + b)
  {
    var s := a + t + b;
    assert s[|a|..|a| + |t|] == t;
    assert OccursAt(t, s, |a|);
    ContainsIffOccurs(t, s);
  }

  /** A message built from three fields between fixed texts mentions each
      of the three. */
  lemma ContainsFields(pre: string, x: string, mid1: string, y: string, mid2: string, z: string)
    ensures var s := pre + x + mid1 + y + mid2 + z;
      Contains(x, s) && Contains(y, s) && Contains(z, s)
  {
    var s := pre + x + mid1 + y + mid2 + z;
    var i := |pre|;
    var j := |pre + x + mid1|;
    var k := |pre + x + mid1 + y + mid2|;
    assert s[i..i + |x|] == x;
    assert s[j..j + |y|] == y;
    assert s[k..k + |z|] == z;
    assert OccursAt(x, s, i) && OccursAt(y, s, j) && OccursAt(z, s, k);
    ContainsIffOccurs(x, s);
    ContainsIffOccurs(y, s);
    ContainsIffOccurs(z, s);
  }

  /** `sep.join(parts)` */
  function JoinWith(sep: string, parts: seq<string>): string {
    if |parts| == 0 then ""
    else if |parts| == 1 then parts[0]
    else parts[0] + sep + JoinWith(sep, parts[1..])
  }

  /** Concatenation of a sequence of strings (`''.join(parts)`). */
  function Concat(parts: seq<string>): string {
    if |parts| == 0 then "" else parts[0] + Concat(parts[1..])
  }

  /** `f.readline()` on a file whose text is `s`: everything up to and
      including the first newline, or all of `s` when it has none. */
  function FirstLine(s: string): (r: string)
    ensures StartsWith(s, r)
  {
    if |s| == 0 then ""
    else if s[0] == '\n' then "\n"
    else [s[0]] + FirstLine(s[1..])
  }

  /** A prefix without a newline in it begins the first line exactly when it
      begins the whole text: nothing after the first line can change the answer. */
  lemma {:induction false} FirstLineStartsWith(s: string, prefix: string)
    requires '\n' !in prefix
    ensures StartsWith(FirstLine(s), prefix) <==> StartsWith(s, prefix)
  {
    if |prefix| == 0 || |s| == 0 {
    } else if s[0] == '\n' {
      assert prefix[0] != '\n';
    } else {
      assert '\n' !in prefix[1..] by {
        forall k | 0 <= k < |prefix| - 1 ensures prefix[1..][k] != '\n' {
          assert prefix[1..][k] == prefix[k + 1];
        }
      }
      FirstLineStartsWith(s[1..], prefix[1..]);
      var f := FirstLine(s[1..]);
      assert FirstLine(s) == [s[0]] + f;
      if StartsWith(s, prefix) {
        assert s[1..][..|prefix| - 1] == prefix[1..];
      }
      if StartsWith([s[0]] + f, prefix) {
        assert f[..|prefix| - 1] == prefix[1..];
      }
      if StartsWith(s[1..], prefix[1..]) && s[0] == prefix[0] {
        assert s[..|prefix|] == [s[0]] + s[1..][..|prefix| - 1];
      }
      if StartsWith(f, prefix[1..]) && s[0] == prefix[0] {
        assert ([s[0]] + f)[..|prefix|] == [s[0]] + f[..|prefix| - 1];
      }
    }
  }

  /** `f.readlines()`, splitting after each newline: every line keeps its
      terminator, and joining the lines gives back the text. */
  function Lines(s: string): (r: seq<string>)
    ensures Concat(r) == s
    ensures s != "" ==> r != []
  {
    if |s| == 0 then []
    else
      var rest := Lines(s[1..]);
      if s[0] == '\n' || rest == [] then [[s[0]]] + rest
      else [[s[0]] + rest[0]] + rest[1..]
  }

  /** The characters at which `str.splitlines` ends a line. */
  predicate IsLineBoundary(c: char) {
    c in ['\n', '\r', '\U{0B}', '\U{0C}', '\U{1C}', '\U{1D}', '\U{1E}', '\U{85}', '\U{2028}', '\U{2029}']
  }

  /** `s.splitlines(keepends=True)`: a line ends after any line boundary,
      with `\r\n` counted as one. */
  function SplitLines(s: string): (r: seq<string>)
    ensures Concat(r) == s
  {
    if |s| == 0 then []
    else if |s| > 1 && s[0] == '\r' && s[1] == '\n' then
      assert s == s[..2] + s[2..];
      [s[..2]] + SplitLines(s[2..])
    else
      var rest := SplitLines(s[1..]);
      if IsLineBoundary(s[0]) || rest == [] then [[s[0]]] + rest
      else [[s[0]] + rest[0]] + rest[1..]
  }

  /** `readlines` keeps a form feed inside its line. */
  lemma FormFeedKeptByLines(x: char, y: char)
    requires x != '\n' && y != '\n'
    ensures Lines([x, '\U{0C}', y, '\n']) == [[x, '\U{0C}', y, '\n']]
  {
    var s3 := ['\n'];
    var s2 := [y] + s3;
    var s1 := ['\U{0C}'] + s2;
    var s0 := [x] + s1;
    assert s0 == [x, '\U{0C}', y, '\n'];
    assert s0[1..] == s1 && s1[1..] == s2 && s2[1..] == s3 && s3[1..] == [];
    assert Lines(s3) == [s3];
    assert Lines(s2) == [s2];
    assert Lines(s1) == [s1];
  }

  lemma SplitLinesAtBoundary(c: char, rest: string)
    requires IsLineBoundary(c) && c != '\r'
    ensures SplitLines([c] + rest) == [[c]] + SplitLines(rest)
  {
    assert ([c] + rest)[1..] == rest;
  }

  lemma SplitLinesInside(c: char, rest: string)
    requires !IsLineBoundary(c) && SplitLines(rest) != []
    ensures SplitLines([c] + rest) == [[c] + SplitLines(rest)[0]] + SplitLines(rest)[1..]
  {
    assert c != '\r';
    assert ([c] + rest)[1..] == rest;
  }

  /** `splitlines` ends a line at a form feed. */
  lemma FormFeedSplitBySplitLines(x: char, y: char)
    requires !IsLineBoundary(x) && !IsLineBoundary(y)
    ensures SplitLines([x, '\U{0C}', y, '\n']) == [[x, '\U{0C}'], [y, '\n']]
  {
    var s3 := ['\n'];
    var s2 := [y] + s3;
    var s1 := ['\U{0C}'] + s2;
    var s0 := [x] + s1;
    assert s0 == [x, '\U{0C}', y, '\n'];
    assert IsLineBoundary('\n') && IsLineBoundary('\U{0C}');
    SplitLinesAtBoundary('\n', []);
    assert s3 == ['\n'] + [];
    SplitLinesInside(y, s3);
    assert SplitLines(s2) == [s2];
    SplitLinesAtBoundary('\U{0C}', s2);
    assert SplitLines(s1) == [['\U{0C}'], s2];
    SplitLinesInside(x, s1);
    assert [x] + ['\U{0C}'] == [x, '\U{0C}'];
  }

  /** Splitting into lines loses nothing: two texts with the same lines are
      the same text. */
  lemma LinesInjective(a: string, b: string)
    ensures Lines(a) == Lines(b) <==> a == b
  {
    if Lines(a) == Lines(b) {
      assert Concat(Lines(a)) == Concat(Lines(b));
    }
  }

  /** One line as `Lines` produces it: not empty, a newline only at its
      end, and a newline there unless it is the last line. */
  predicate LineShape(line: string, isLast: bool) {
    |line| > 0 &&
    (forall m :: 0 <= m < |line| - 1 ==> line[m] != '\n') &&
    (!isLast ==> line[|line| - 1] == '\n')
  }

  /** The shape `Lines` promises for every line. */
  predicate WellSplit(r: seq<string>) {
    forall k :: 0 <= k < |r| ==> LineShape(r[k], k == |r| - 1)
  }

  lemma LineShapeCons(c: char, line: string, isLast: bool)
    requires c != '\n' && LineShape(line, isLast)
    ensures LineShape([c] + line, isLast)
  {
    var l := [c] + line;
    forall m | 0 <= m < |l| - 1 ensures l[m] != '\n' {
      if m > 0 { assert l[m] == line[m - 1]; }
    }
    assert l[|l| - 1] == line[|line| - 1];
  }

  lemma WellSplitCons(first: string, rest: seq<string>)
    requires LineShape(first, rest == []) && WellSplit(rest)
    ensures WellSplit([first] + rest)
  {
    var r := [first] + rest;
    forall k | 0 <= k < |r| ensures LineShape(r[k], k == |r| - 1) {
      if k > 0 { assert r[k] == rest[k - 1]; }
    }
  }

  lemma {:induction false} LinesWellSplit(s: string)
    ensures WellSplit(Lines(s))
  {
    if |s| > 0 {
      var rest := Lines(s[1..]);
      LinesWellSplit(s[1..]);
      if s[0] == '\n' || rest == [] {
        assert LineShape([s[0]], rest == []);
        WellSplitCons([s[0]], rest);
      } else {
        assert LineShape(rest[0], |rest| == 1);
        LineShapeCons(s[0], rest[0], |rest| == 1);
        assert WellSplit(rest[1..]) by {
          forall k | 0 <= k < |rest| - 1 ensures LineShape(rest[1..][k], k == |rest| - 2) {
            assert rest[1..][k] == rest[k + 1];
          }
        }
        WellSplitCons([s[0]] + rest[0], rest[1..]);
      }
    }
  }

  /** One line as `SplitLines` produces it: not empty, no line boundary
      before its end except the `\r` of a closing `\r\n`, and a boundary at
      its end unless it is the last line. */
  predicate SplitLineShape(line: string, isLast: bool) {
    |line| > 0 &&
    (forall m :: 0 <= m < |line| - 1 && IsLineBoundary(line[m]) ==>
       m == |line| - 2 && line[m] == '\r' && line[m + 1] == '\n') &&
    (!isLast ==> IsLineBoundary(line[|line| - 1]))
  }

  predicate EndsInReturn(line: string) {
    |line| > 0 && line[|line| - 1] == '\r'
  }

  predicate StartsWithNewline(line: string) {
    |line| > 0 && line[0] == '\n'
  }

  /** The shape `SplitLines` promises: every line has `SplitLineShape`, and
      a line ending in a lone `\r` is never followed by one starting with
      `\n` (together they would have been one `\r\n`). */
  predicate SplitWell(r: seq<string>) {
    (forall k :: 0 <= k < |r| ==> SplitLineShape(r[k], k == |r| - 1)) &&
    (forall k :: 0 <= k < |r| - 1 ==> !(EndsInReturn(r[k]) && StartsWithNewline(r[k + 1])))
  }

  lemma SplitLineShapeCons(c: char, line: string, isLast: bool)
    requires !IsLineBoundary(c) && SplitLineShape(line, isLast)
    ensures SplitLineShape([c] + line, isLast)
    ensures EndsInReturn([c] + line) == EndsInReturn(line)
  {
    var l := [c] + line;
    forall m | 0 <= m < |l| - 1 && IsLineBoundary(l[m])
      ensures m == |l| - 2 && l[m] == '\r' && l[m + 1] == '\n'
    {
      assert m > 0;
      assert l[m] == line[m - 1] && l[m + 1] == line[m];
    }
    assert l[|l| - 1] == line[|line| - 1];
  }

  lemma SplitWellCons(first: string, rest: seq<string>)
    requires SplitLineShape(first, rest == []) && SplitWell(rest)
    requires rest != [] ==> !(EndsInReturn(first) && StartsWithNewline(rest[0]))
    ensures SplitWell([first] + rest)
  {
    var r := [first] + rest;
    forall k | 0 <= k < |r| ensures SplitLineShape(r[k], k == |r| - 1) {
      if k > 0 { assert r[k] == rest[k - 1]; }
    }
    forall k | 0 <= k < |r| - 1 ensures !(EndsInReturn(r[k]) && StartsWithNewline(r[k + 1])) {
      if k > 0 { assert r[k] == rest[k - 1] && r[k + 1] == rest[k]; }
    }
  }

  lemma SplitWellTail(r: seq<string>)
    requires |r| > 0 && SplitWell(r)
    ensures SplitWell(r[1..])
  {
    var t := r[1..];
    forall k | 0 <= k < |t| ensures SplitLineShape(t[k], k == |t| - 1) {
      assert t[k] == r[k + 1];
    }
    forall k | 0 <= k < |t| - 1 ensures !(EndsInReturn(t[k]) && StartsWithNewline(t[k + 1])) {
      assert t[k] == r[k + 1] && t[k + 1] == r[k + 2];
    }
  }

  lemma ConcatHead(r: seq<string>)
    requires |r| > 0 && |r[0]| > 0
    ensures |Concat(r)| > 0 && Concat(r)[0] == r[0][0]
  {
    assert Concat(r) == r[0] + Concat(r[1..]);
  }

  /** Where `splitlines(keepends=True)` ends its lines: after every line
      boundary, with `\r\n` kept together, and nowhere else. */
  lemma {:induction false} SplitLinesWellSplit(s: string)
    ensures SplitWell(SplitLines(s))
  {
    if |s| > 0 {
      if |s| > 1 && s[0] == '\r' && s[1] == '\n' {
        var rest := SplitLines(s[2..]);
        SplitLinesWellSplit(s[2..]);
        var first := s[..2];
        assert first == ['\r', '\n'];
        assert SplitLines(s) == [first] + rest;
        assert IsLineBoundary('\n');
        assert SplitLineShape(first, rest == []);
        SplitWellCons(first, rest);
      } else {
        var rest := SplitLines(s[1..]);
        SplitLinesWellSplit(s[1..]);
        if IsLineBoundary(s[0]) || rest == [] {
          assert SplitLineShape([s[0]], rest == []);
          if rest != [] && s[0] == '\r' {
            ConcatHead(rest);
            assert rest[0][0] == s[1];
          }
          SplitWellCons([s[0]], rest);
        } else {
          SplitLineShapeCons(s[0], rest[0], |rest| == 1);
          SplitWellTail(rest);
          if |rest| > 1 {
            assert rest[1..][0] == rest[1];
          }
          SplitWellCons([s[0]] + rest[0], rest[1..]);
        }
      }
    }
  }

  /** No line boundary other than `\n` occurs in `s`. */
  predicate OnlyNewlineBoundaries(s: string) {
    forall k :: 0 <= k < |s| ==> s[k] == '\n' || !IsLineBoundary(s[k])
  }

  /** When `\n` is the only line boundary in a text, `splitlines` and
      `readlines` split it alike. */
  lemma {:induction false} SplitLinesIsLines(s: string)
    requires OnlyNewlineBoundaries(s)
    ensures SplitLines(s) == Lines(s)
  {
    if |s| > 0 {
      assert s[0] != '\r';
      assert OnlyNewlineBoundaries(s[1..]) by {
        forall k | 0 <= k < |s| - 1 ensures s[1..][k] == '\n' || !IsLineBoundary(s[1..][k]) {
          assert s[1..][k] == s[k + 1];
        }
      }
      SplitLinesIsLines(s[1..]);
    }
  }

  predicate IsDigit(c: char) {
    '0' <= c <= '9'
  }

  function DigitChar(d: nat): (c: char)
    requires d < 10
    ensures IsDigit(c)
  {
    "0123456789"[d]
  }

  function DigitValue(c: char): (d: nat)
    requires IsDigit(c)
    ensures d < 10
  {
    (c as int - '0' as int) as nat
  }

  predicate AllDigits(s: string) {
    forall k :: 0 <= k < |s| ==> IsDigit(s[k])
  }

  /** The decimal digits of a natural number, most significant first. */
  function NatDigits(n: nat): (r: string)
    ensures |r| > 0 && AllDigits(r)
    decreases n
  {
    if n < 10 then [DigitChar(n)] else NatDigits(n / 10) + [DigitChar(n % 10)]
  }

  /** `'{}'.format(n)` for an integer `n`. */
  function Decimal(n: int): (r: string)
    ensures |r| > 0
  {
    if n < 0 then "-" + NatDigits(-n) else NatDigits(n)
  }

  /** Reading a string of decimal digits back as a number. */
  function DigitsValue(s: string): nat
    requires AllDigits(s)
  {
    if |s| == 0 then 0 else DigitsValue(s[..|s| - 1]) * 10 + DigitValue(s[|s| - 1])
  }

  /** `int(s)` restricted to an optional minus sign followed by digits. */
  function ParseInt(s: string): Option<int> {
    if |s| > 0 && s[0] == '-' then
      if |s| > 1 && AllDigits(s[1..]) then Some(-(DigitsValue(s[1..]) as int)) else None
    else if |s| > 0 && AllDigits(s) then Some(DigitsValue(s) as int)
    else None
  }

  lemma {:induction false} NatDigitsRoundTrip(n: nat)
    ensures DigitsValue(NatDigits(n)) == n
    decreases n
  {
    if n >= 10 {
      NatDigitsRoundTrip(n / 10);
      var s := NatDigits(n / 10) + [DigitChar(n % 10)];
      assert s[..|s| - 1] == NatDigits(n / 10);
    }
  }

  lemma ParseDigits(d: string)
    requires |d| > 0 && AllDigits(d)
    ensures ParseInt(d) == Some(DigitsValue(d) as int)
  {
    assert d[0] != '-' by { assert IsDigit(d[0]); }
  }

  lemma ParseNegative(d: string)
    requires |d| > 0 && AllDigits(d)
    ensures ParseInt("-" + d) == Some(-(DigitsValue(d) as int))
  {
    var s := "-" + d;
    assert s[0] == '-' && |s| > 1;
    assert s[1..] == d;
  }

  /** The decimal text of an integer reads back as that integer, so a
      message quoting `Decimal(code)` identifies the code exactly. */
  lemma DecimalRoundTrip(n: int)
    ensures ParseInt(Decimal(n)) == Some(n)
  {
    if n < 0 {
      var d := NatDigits(-n);
      assert Decimal(n) == "-" + d;
      NatDigitsRoundTrip(-n);
      ParseNegative(d);
      assert ParseInt("-" + d) == Some(n);
    } else {
      var d := NatDigits(n);
      assert Decimal(n) == d;
      NatDigitsRoundTrip(n);
      ParseDigits(d);
      assert ParseInt(d) == Some(n);
    }
  }
}
