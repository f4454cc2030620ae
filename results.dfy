/** `TestResult`: the three outcomes a fixture can have, the colour chosen
    for each, and the text `TestResult.print` writes. */
module Results {
  import opened Text

  datatype Status = Passed | Failed | Excluded

  /** `TestResult(result, msg='')` */
  datatype TestResult = TestResult(status: Status, msg: string)

  /** The class constants `PASSED`, `FAILED` and `EXCLUDED`. */
  function StatusName(s: Status): string {
    match s
    case Passed => "PASSED"
    case Failed => "FAILED"
    case Excluded => "EXCLUDED"
  }

  const Escape: char := '\U{1B}'

  /** `_get_ansi_color_code`: green, red or yellow. */
  function ColorCode(s: Status): string {
    match s
    case Passed => "\U{1B}[0;32m"
    case Failed => "\U{1B}[0;31m"
    case Excluded => "\U{1B}[0;33m"
  }

  /** The sequence that resets the terminal colour after a report. */
  const ColorReset := "\U{1B}[0m"

  /** `"[{}] {}".format(test_name, self.result)` */
  function StatusLine(name: string, s: Status): string {
    "[" + name + "] " + StatusName(s)
  }

  /** Everything `result.print(name)` writes to standard output; `tty` is
      whether standard output is a terminal. */
  function Render(result: TestResult, name: string, tty: bool): string {
    (if tty then ColorCode(result.status) else "") +
    StatusLine(name, result.status) + "\n" +
    (if result.msg != "" then result.msg + "\n" else "") +
    (if tty then ColorReset else "")
  }

  /** Every colour code is an escape sequence `ESC [ 0 ; 3 x m`, and the three
      statuses get three different colours. */
  lemma ColorCodes(s: Status, t: Status)
    ensures |ColorCode(s)| == 7 && ColorCode(s)[0] == Escape && ColorCode(s)[..5] == "\U{1B}[0;3"
    ensures ColorCode(s)[6] == 'm' && ColorCode(s)[5] in "123"
    ensures ColorCode(s) == ColorCode(t) <==> s == t
  {
    var d := match s case Passed => '2' case Failed => '1' case Excluded => '3';
    var prefix := "\U{1B}[0;3";
    assert ColorCode(s) == prefix + [d] + "m";
    assert (prefix + [d] + "m")[..5] == prefix;
    if s != t {
      assert ColorCode(s)[5] != ColorCode(t)[5] by {
        match t
        case Passed => assert ColorCode(t)[5] == '2';
        case Failed => assert ColorCode(t)[5] == '1';
        case Excluded => assert ColorCode(t)[5] == '3';
      }
    }
  }

  predicate EndsWith(s: string, suffix: string) {
    |suffix| <= |s| && s[|s| - |suffix|..] == suffix
  }

  /** What follows the fixture name on a status line. */
  function Suffix(s: Status): string {
    "] " + StatusName(s)
  }

  /** Reading a status line back: the name between the opening bracket and
      the status suffix, and the status that suffix names. */
  function ParseStatusLine(line: string): Option<(string, Status)> {
    if |line| == 0 || line[0] != '[' then None
    else if EndsWith(line, Suffix(Passed)) then Some((line[1..|line| - |Suffix(Passed)|], Passed))
    else if EndsWith(line, Suffix(Failed)) then Some((line[1..|line| - |Suffix(Failed)|], Failed))
    else if |line| > |Suffix(Excluded)| && EndsWith(line, Suffix(Excluded)) then
      Some((line[1..|line| - |Suffix(Excluded)|], Excluded))
    else None
  }

  lemma StatusLineShape(name: string, s: Status)
    ensures StatusLine(name, s) == "[" + name + Suffix(s)
    ensures var line := StatusLine(name, s);
      line[0] == '[' && EndsWith(line, Suffix(s)) && line[1..|line| - |Suffix(s)|] == name
  {
    var line := "[" + name + Suffix(s);
    assert StatusLine(name, s) == line;
    assert line[|line| - |Suffix(s)|..] == Suffix(s);
    assert line[1..|line| - |Suffix(s)|] == name;
  }

  lemma SuffixFacts()
    ensures |Suffix(Passed)| == 8 && |Suffix(Failed)| == 8 && |Suffix(Excluded)| == 10
    ensures Suffix(Passed)[0] == ']' && Suffix(Failed)[0] == ']'
    ensures Suffix(Passed)[2] == 'P' && Suffix(Failed)[2] == 'F' && Suffix(Excluded)[2] == 'E'
  {
  }

  /** A status line names its fixture and its status unambiguously: parsing
      it gives both back, whatever characters the name holds. */
  lemma StatusLineRoundTrip(name: string, s: Status)
    ensures ParseStatusLine(StatusLine(name, s)) == Some((name, s))
  {
    var line := StatusLine(name, s);
    StatusLineShape(name, s);
    SuffixFacts();
    var n := |line|;
    var k := |Suffix(s)|;
    assert line[n - k..] == Suffix(s);
    assert line[n - k + 2] == Suffix(s)[2];
    match s
    case Passed =>
      assert ParseStatusLine(line) == Some((line[1..n - k], Passed));
    case Failed =>
      assert line[n - 8..][2] != Suffix(Passed)[2];
      assert !EndsWith(line, Suffix(Passed));
      assert ParseStatusLine(line) == Some((line[1..n - k], Failed));
    case Excluded =>
      assert line[n - 8..][0] != Suffix(Passed)[0];
      assert line[n - 8..][0] != Suffix(Failed)[0];
      assert !EndsWith(line, Suffix(Passed)) && !EndsWith(line, Suffix(Failed));
      assert ParseStatusLine(line) == Some((line[1..n - k], Excluded));
  }

  /** What a successful parse has seen: an opening bracket, the name, and
      the suffix of the status it returns. */
  lemma ParsedParts(line: string, name: string, s: Status)
    requires ParseStatusLine(line) == Some((name, s))
    ensures line[0] == '[' && EndsWith(line, Suffix(s)) && name == line[1..|line| - |Suffix(s)|]
  {
    match s
    case Passed =>
    case Failed =>
    case Excluded =>
  }

  /** Parsing accepts exactly the status lines. */
  lemma ParseStatusLineSound(line: string, name: string, s: Status)
    requires ParseStatusLine(line) == Some((name, s))
    ensures StatusLine(name, s) == line
  {
    ParsedParts(line, name, s);
    var j := |line| - |Suffix(s)|;
    SplitInThree(line, 1, j);
    assert line[..1] == "[";
    StatusLineShape(name, s);
  }

  /** On a terminal the plain report is wrapped in its colour code and the
      reset sequence; the text in between is the same either way. */
  lemma RenderOnTerminal(result: TestResult, name: string)
    ensures Render(result, name, true) == ColorCode(result.status) + Render(result, name, false) + ColorReset
  {
  }

  /** Off a terminal no escape character is written unless the fixture name
      or the message brought one. */
  lemma RenderPlainHasNoEscape(result: TestResult, name: string)
    requires Escape !in name && Escape !in result.msg
    ensures Escape !in Render(result, name, false)
  {
    var tail := if result.msg != "" then result.msg + "\n" else "";
    assert Escape !in StatusName(result.status) by {
      match result.status
      case Passed => assert StatusName(result.status) == ['P', 'A', 'S', 'S', 'E', 'D'];
      case Failed => assert StatusName(result.status) == ['F', 'A', 'I', 'L', 'E', 'D'];
      case Excluded => assert StatusName(result.status) == ['E', 'X', 'C', 'L', 'U', 'D', 'E', 'D'];
    }
    assert Escape !in tail;
    assert Render(result, name, false) == "[" + name + "] " + StatusName(result.status) + "\n" + tail;
  }

  /** The report starts with the status line and shows the message, if any,
      on the lines after it. */
  lemma RenderShowsMessage(result: TestResult, name: string)
    ensures StartsWith(Render(result, name, false), StatusLine(name, result.status) + "\n")
    ensures result.msg != "" ==> Contains(result.msg, Render(result, name, false))
    ensures result.msg == "" ==> Render(result, name, false) == StatusLine(name, result.status) + "\n"
  {
    var head := StatusLine(name, result.status) + "\n";
    if result.msg != "" {
      assert Render(result, name, false) == head + result.msg + "\n";
      ContainsSpliced(result.msg, head, "\n");
    } else {
      assert Render(result, name, false) == head;
    }
    assert Render(result, name, false)[..|head|] == head;
  }
}
