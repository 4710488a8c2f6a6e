/** The SSID lookup of `get_ssid`: the exit status of the interface-listing
    command is checked, CRLF line breaks in its output become LF, and the
    value of the first line shaped like `    SSID   : name` is taken, the way
    the multi-line regular expression `^\ +?SSID\ +?:\ +?(?<ssid>.*?)$`
    finds it. Running the command and decoding its output are left to the
    caller, which passes the exit status and the decoded text in. */
module Ssid {
  import opened Wrappers
  import opened Text

  /** What `ExitStatus::success` and `ExitStatus::code` report. */
  datatype ExitStatus = ExitStatus(success: bool, code: Option<int>)

  datatype SsidError =
    | CommandFailed(code: int)  // "Command didn't run succesfully. Status code: {code}."
    | NotFound                  // "Couldn't get SSID."

  /** `s` with every `"\r\n"` replaced by `"\n"`, scanning left to right
      (`str::replace("\r\n", "\n")`). */
  function ReplaceCrlf(s: string): (r: string)
    ensures |r| <= |s|
    ensures Count(r, LF) == Count(s, LF)
    ensures CR !in s ==> r == s
  {
    if |s| >= 2 && s[0] == CR && s[1] == LF then [LF] + ReplaceCrlf(s[2..])
    else if s == [] then []
    else [s[0]] + ReplaceCrlf(s[1..])
  }

  /** Reference reading of the replacement: keep every character of `s`
      except a carriage return that a line feed directly follows. */
  function DropCrBeforeLf(s: string): string {
    if s == [] then []
    else (if s[0] == CR && |s| > 1 && s[1] == LF then [] else [s[0]]) + DropCrBeforeLf(s[1..])
  }

  /** The left-to-right replacement removes exactly the carriage returns
      that stand right before a line feed; any other carriage return stays. */
  lemma {:induction false} ReplaceCrlfDropsCrBeforeLf(s: string)
    ensures ReplaceCrlf(s) == DropCrBeforeLf(s)
  {
    if |s| >= 2 && s[0] == CR && s[1] == LF {
      ReplaceCrlfDropsCrBeforeLf(s[2..]);
      assert s[1..][1..] == s[2..];
      assert DropCrBeforeLf(s[1..]) == [LF] + DropCrBeforeLf(s[2..]);
    } else if s != [] {
      ReplaceCrlfDropsCrBeforeLf(s[1..]);
    }
  }

  /** Stripping line ends of a piece followed by more pieces strips that piece. */
  lemma {:induction false} StripLineEndsCons(x: string, p: seq<string>)
    requires |p| >= 1
    ensures StripLineEnds([x] + p) == [StripCr(x)] + StripLineEnds(p)
  {
  }

  /** Splitting text that starts with a character other than a line feed
      puts that character in front of the first piece. */
  lemma {:induction false} SplitCons(c: char, s: string)
    requires c != LF
    ensures Split([c] + s) == [[c] + Split(s)[0]] + Split(s)[1..]
  {
    assert ([c] + s)[1..] == s;
  }

  /** The lines the pattern sees are the pieces of the raw output between
      line feeds, each piece a line feed ended losing one carriage return:
      `"\r\n"` counts as one line break, a lone `'\r'` stays in its line. */
  lemma {:induction false} ReplaceCrlfPieces(s: string)
    ensures Split(ReplaceCrlf(s)) == StripLineEnds(Split(s))
    decreases |s|, 1
  {
    if |s| >= 2 && s[0] == CR && s[1] == LF {
      ReplaceCrlfPieces(s[2..]);
      var p := Split(s[2..]);
      assert [LF] + ReplaceCrlf(s[2..]) == ReplaceCrlf(s);
      assert ([LF] + ReplaceCrlf(s[2..]))[1..] == ReplaceCrlf(s[2..]);
      assert s[1..][1..] == s[2..];
      assert Split(s[1..]) == [""] + p;
      SplitCons(CR, s[1..]);
      assert [CR] + s[1..] == s;
      assert [CR] + Split(s[1..])[0] == [CR];
      assert Split(s[1..])[1..] == p;
      assert Split(s) == [[CR]] + p;
      StripLineEndsCons([CR], p);
      StripLineEndsCons("", StripLineEnds(p));
    } else if s != [] {
      CrlfStep(s);
    }
  }

  /** The step of the induction above for a first character that does not
      open a `"\r\n"`. */
  lemma {:induction false} CrlfStep(s: string)
    requires s != [] && !(|s| >= 2 && s[0] == CR && s[1] == LF)
    ensures Split(ReplaceCrlf(s)) == StripLineEnds(Split(s))
    decreases |s|, 0
  {
    ReplaceCrlfPieces(s[1..]);
    assert ReplaceCrlf(s) == [s[0]] + ReplaceCrlf(s[1..]);
    assert [s[0]] + s[1..] == s;
    if s[0] == LF {
      StripLineEndsCons("", Split(s[1..]));
    } else {
      CrlfStepPlain(s[0], s[1..]);
    }
  }

  /** Prepending a character other than a line feed commutes with removing
      carriage returns before line feeds, unless it is a carriage return
      that a line feed follows. */
  lemma {:induction false} CrlfStepPlain(c: char, t: string)
    requires c != LF && !(c == CR && |t| > 0 && t[0] == LF)
    requires Split(ReplaceCrlf(t)) == StripLineEnds(Split(t))
    ensures Split([c] + ReplaceCrlf(t)) == StripLineEnds(Split([c] + t))
  {
    var p := Split(t);
    var sp := StripLineEnds(p);
    SplitCons(c, ReplaceCrlf(t));
    assert Split([c] + ReplaceCrlf(t)) == [[c] + sp[0]] + sp[1..];
    SplitCons(c, t);
    PrependToPieces(c, t);
  }

  /** Putting a character other than a line feed in front of the pieces of
      `t` commutes with stripping their line ends, unless it is a carriage
      return that a line feed follows. */
  lemma {:induction false} PrependToPieces(c: char, t: string)
    requires c != LF && !(c == CR && |t| > 0 && t[0] == LF)
    ensures var p := Split(t);
            StripLineEnds([[c] + p[0]] + p[1..]) == [[c] + StripLineEnds(p)[0]] + StripLineEnds(p)[1..]
  {
    var p := Split(t);
    if |p| > 1 {
      if c == CR && p[0] == "" {
        SplitLastPieceFirst(t);
      }
      PrependToStrippedPieces(c, p);
    } else {
      PrependToLastPiece(c, p);
    }
  }

  /** Putting a character in front of the first of several pieces commutes
      with stripping their line ends, unless it is a carriage return in
      front of an empty piece. */
  lemma {:induction false} PrependToStrippedPieces(c: char, p: seq<string>)
    requires |p| > 1 && (p[0] != [] || c != CR)
    ensures StripLineEnds([[c] + p[0]] + p[1..]) == [[c] + StripLineEnds(p)[0]] + StripLineEnds(p)[1..]
  {
    StripCrCons(c, p[0]);
    StripLineEndsCons([c] + p[0], p[1..]);
    assert p == [p[0]] + p[1..];
    StripLineEndsCons(p[0], p[1..]);
  }

  /** Putting a character in front of a lone piece commutes with stripping
      line ends, since the last piece is never stripped. */
  lemma {:induction false} PrependToLastPiece(c: char, p: seq<string>)
    requires |p| == 1
    ensures StripLineEnds([[c] + p[0]] + p[1..]) == [[c] + StripLineEnds(p)[0]] + StripLineEnds(p)[1..]
  {
    assert [[c] + p[0]] + p[1..] == [[c] + p[0]];
    StripLineEndsSingle([c] + p[0]);
    assert p == [p[0]];
    StripLineEndsSingle(p[0]);
  }

  /** A character in front of a non-empty line, or one that is not a
      carriage return, is untouched by removing the carriage return at the
      end. */
  lemma {:induction false} StripCrCons(c: char, x: string)
    requires x != [] || c != CR
    ensures StripCr([c] + x) == [c] + StripCr(x)
  {
    if EndsWithCr(x) {
      assert ([c] + x)[..|x|] == [c] + x[..|x| - 1];
    }
  }

  /** A lone piece is the last one and keeps its carriage return. */
  lemma {:induction false} StripLineEndsSingle(x: string)
    ensures StripLineEnds([x]) == [x]
  {
  }

  /** A first piece is empty only when the text is empty or opens with a line feed. */
  lemma {:induction false} SplitLastPieceFirst(s: string)
    requires Split(s)[0] == "" && |Split(s)| > 1
    ensures s != [] && s[0] == LF
  {
  }

  /** The index of the first character at or after `i` that is not a
      space, or `|s|` when there is none. */
  function SpacesFrom(s: string, i: nat): (n: nat)
    requires i <= |s|
    ensures i <= n <= |s|
    ensures forall k :: i <= k < n ==> s[k] == ' '
    ensures n == |s| || s[n] != ' '
    decreases |s| - i
  {
    if i < |s| && s[i] == ' ' then SpacesFrom(s, i + 1) else i
  }

  /** A run of spaces from `i` that stops at `j` ends at `j`. */
  lemma {:induction false} SpacesFromStops(s: string, i: nat, j: nat)
    requires i <= j <= |s|
    requires forall k :: i <= k < j ==> s[k] == ' '
    requires j == |s| || s[j] != ' '
    ensures SpacesFrom(s, i) == j
  {
  }

  /** `n` spaces. */
  function Spaces(n: nat): (r: string)
    ensures |r| == n && forall k :: 0 <= k < n ==> r[k] == ' '
  {
    if n == 0 then "" else [' '] + Spaces(n - 1)
  }

  /** A line of the accepted shape is one line when its value is. */
  lemma {:induction false} SsidLineIsSingleLine(a: nat, b: nat, value: string)
    requires LF !in value
    ensures LF !in Spaces(a) + "SSID" + Spaces(b) + ": " + value
  {
  }

  /** What the pattern captures on one line with no line feed in it:
      everything after the first space that follows the colon. */
  function MatchLine(line: string): (r: Option<string>)
    ensures r.Some? ==> |r.value| + 6 <= |line| && r.value == line[|line| - |r.value|..]
  {
    var a := SpacesFrom(line, 0);
    if a == 0 || |line| < a + 4 || line[a..a + 4] != "SSID" then None
    else
      var b := SpacesFrom(line, a + 4);
      if b == a + 4 || |line| < b + 2 || line[b] != ':' || line[b + 1] != ' ' then None
      else Some(line[b + 2..])
  }

  /** The lines the pattern accepts, read straight off the pattern: one or
      more spaces, `SSID`, one or more spaces, a colon, the one space the
      lazy `\ +?` takes, and the captured rest of the line. */
  ghost predicate SsidLine(line: string, a: nat, b: nat, value: string) {
    a >= 1 && b >= 1 && line == Spaces(a) + "SSID" + Spaces(b) + ": " + value
  }

  /** The character at position `k` of a line of the accepted shape. */
  function ShapeChar(a: nat, b: nat, value: string, k: nat): char
    requires k < a + b + 6 + |value|
  {
    if k < a then ' '
    else if k < a + 4 then "SSID"[k - a]
    else if k < a + 4 + b then ' '
    else if k == a + 4 + b then ':'
    else if k == a + 5 + b then ' '
    else value[k - a - b - 6]
  }

  /** The accepted shape, position by position. */
  lemma {:induction false} ShapeAt(a: nat, b: nat, value: string, k: nat)
    requires k < a + b + 6 + |value|
    ensures |Spaces(a) + "SSID" + Spaces(b) + ": " + value| == a + b + 6 + |value|
    ensures (Spaces(a) + "SSID" + Spaces(b) + ": " + value)[k] == ShapeChar(a, b, value, k)
  {
  }

  /** A line that has the accepted shape position by position has it. */
  lemma {:induction false} ShapeFromChars(line: string, a: nat, b: nat, value: string)
    requires |line| == a + b + 6 + |value|
    requires forall k :: 0 <= k < |line| ==> line[k] == ShapeChar(a, b, value, k)
    ensures line == Spaces(a) + "SSID" + Spaces(b) + ": " + value
  {
    var shape := Spaces(a) + "SSID" + Spaces(b) + ": " + value;
    forall k | 0 <= k < |line|
      ensures line[k] == shape[k]
    {
      ShapeAt(a, b, value, k);
    }
  }

  /** A line of the accepted shape has it position by position. */
  lemma {:induction false} CharsFromShape(line: string, a: nat, b: nat, value: string)
    requires line == Spaces(a) + "SSID" + Spaces(b) + ": " + value
    ensures |line| == a + b + 6 + |value|
    ensures forall k :: 0 <= k < |line| ==> line[k] == ShapeChar(a, b, value, k)
  {
    forall k | 0 <= k < |line|
      ensures line[k] == ShapeChar(a, b, value, k)
    {
      ShapeAt(a, b, value, k);
    }
  }

  /** Whatever the matcher captures comes from a line of the accepted shape. */
  lemma {:induction false} MatchLineSound(line: string)
    ensures MatchLine(line).Some? ==> exists a, b :: SsidLine(line, a, b, MatchLine(line).value)
  {
    if MatchLine(line).Some? {
      var a := SpacesFrom(line, 0);
      var b := SpacesFrom(line, a + 4);
      var value := line[b + 2..];
      forall k | 0 <= k < |line|
        ensures line[k] == ShapeChar(a, b - a - 4, value, k)
      {
        if a <= k < a + 4 {
          assert line[k] == line[a..a + 4][k - a];
        }
      }
      ShapeFromChars(line, a, b - a - 4, value);
      assert SsidLine(line, a, b - a - 4, value);
    }
  }

  /** Every line of the accepted shape is matched, with the value the
      pattern captures; so the value does not depend on how the line is cut. */
  lemma {:induction false} MatchLineComplete(line: string, a: nat, b: nat, value: string)
    requires SsidLine(line, a, b, value)
    ensures MatchLine(line) == Some(value)
  {
    CharsFromShape(line, a, b, value);
    SpacesFromStops(line, 0, a);
    SpacesFromStops(line, a + 4, a + 4 + b);
    assert line[a..a + 4] == "SSID";
    assert line[a + b + 6..] == value;
  }

  /** The index of the first present entry, if any: the regex search is
      leftmost-first, so no earlier entry is present. */
  function FirstSome<T>(xs: seq<Option<T>>): (r: Option<nat>)
    ensures r.None? ==> forall i :: 0 <= i < |xs| ==> xs[i].None?
    ensures r.Some? ==> r.value < |xs| && xs[r.value].Some?
    ensures r.Some? ==> forall j :: 0 <= j < r.value ==> xs[j].None?
  {
    if |xs| == 0 then None
    else if xs[0].Some? then Some(0)
    else
      match FirstSome(xs[1..])
      case None => None
      case Some(i) => Some(i + 1)
  }

  /** The lines of the command output once `"\r\n"` has become `"\n"`. */
  function OutputLines(stdout: string): seq<string> {
    Split(ReplaceCrlf(stdout))
  }

  /** The pattern's capture on each line, if it matches there. */
  function Captures(lines: seq<string>): (m: seq<Option<string>>)
    ensures |m| == |lines| && forall i :: 0 <= i < |lines| ==> m[i] == MatchLine(lines[i])
  {
    seq(|lines|, i requires 0 <= i < |lines| => MatchLine(lines[i]))
  }

  /** The SSID in the command output: the capture on the first line of the
      accepted shape. */
  function ExtractSsid(stdout: string): (r: Option<string>)
    ensures r.None? <==> forall i :: 0 <= i < |OutputLines(stdout)| ==> MatchLine(OutputLines(stdout)[i]).None?
    ensures r.Some? ==>
              exists i :: 0 <= i < |OutputLines(stdout)| && MatchLine(OutputLines(stdout)[i]) == r
                       && forall j :: 0 <= j < i ==> MatchLine(OutputLines(stdout)[j]).None?
  {
    var m := Captures(OutputLines(stdout));
    match FirstSome(m)
    case None => None
    case Some(i) => m[i]
  }

  /** `get_ssid` once the command has run: a failed command is an error
      before the output is looked at; otherwise the first accepted line
      gives the SSID, and no such line is the error "Couldn't get SSID.". */
  function GetSsid(status: ExitStatus, stdout: string): (r: Result<string, SsidError>)
    ensures !status.success ==> r == Err(CommandFailed(status.code.GetOr(-1)))
    ensures status.success ==> r.Ok? || r == Err(NotFound)
    ensures status.success ==>
              (r == Err(NotFound) <==> forall i :: 0 <= i < |OutputLines(stdout)| ==> MatchLine(OutputLines(stdout)[i]).None?)
    ensures status.success && r.Ok? ==>
              exists i :: 0 <= i < |OutputLines(stdout)| && MatchLine(OutputLines(stdout)[i]) == Some(r.value)
                       && forall j :: 0 <= j < i ==> MatchLine(OutputLines(stdout)[j]).None?
  {
    if !status.success then Err(CommandFailed(status.code.GetOr(-1)))
    else
      match ExtractSsid(stdout)
      case None => Err(NotFound)
      case Some(v) => Ok(v)
  }

  /** A successful query's SSID is the capture of a line of the accepted
      shape in the output. */
  lemma {:induction false} GetSsidSound(status: ExitStatus, stdout: string)
    requires GetSsid(status, stdout).Ok?
    ensures exists i, a, b :: 0 <= i < |OutputLines(stdout)|
                           && SsidLine(OutputLines(stdout)[i], a, b, GetSsid(status, stdout).value)
  {
    var lines := OutputLines(stdout);
    var i := FirstSome(Captures(lines)).value;
    MatchLineSound(lines[i]);
  }

  /** A line ended by `"\r\n"` yields its value without the carriage
      return, whatever follows; a carriage return that is part of the value
      (one before the `"\r\n"`) is kept. */
  lemma {:induction false} ExtractFromCrlfLine(line: string, a: nat, b: nat, value: string, rest: string)
    requires SsidLine(line, a, b, value) && LF !in value
    ensures ExtractSsid(line + "\r\n" + rest) == Some(value)
  {
    SsidLineIsSingleLine(a, b, value);
    var s := line + "\r\n" + rest;
    assert s == (line + [CR]) + [LF] + rest;
    assert LF !in line + [CR];
    SplitFirstLine(line + [CR], rest);
    ReplaceCrlfPieces(s);
    var pieces := Split(ReplaceCrlf(s));
    StripLineEndsCons(line + [CR], Split(rest));
    assert pieces[0] == StripCr(line + [CR]);
    assert (line + [CR])[..|line|] == line;
    MatchLineComplete(line, a, b, value);
  }

  /** A last line with no line break after it keeps a trailing carriage
      return in the value. */
  lemma {:induction false} ExtractFromLastLine(line: string, a: nat, b: nat, value: string)
    requires SsidLine(line, a, b, value) && LF !in value
    ensures ExtractSsid(line) == Some(value)
  {
    SsidLineIsSingleLine(a, b, value);
    SplitSingleLine(line);
    ReplaceCrlfPieces(line);
    StripLineEndsSingle(line);
    MatchLineComplete(line, a, b, value);
  }

  /** Only spaces may stand before `SSID`: a line whose first non-space
      characters are not `SSID` never matches. */
  lemma {:induction false} OnlySpacesBeforeKey(a: nat, rest: string)
    requires rest == [] || rest[0] != ' '
    requires |rest| < 4 || rest[..4] != "SSID"
    ensures MatchLine(Spaces(a) + rest) == None
  {
    var line := Spaces(a) + rest;
    SpacesFromStops(line, 0, a);
    if |line| >= a + 4 {
      assert line[a..a + 4] == rest[..4];
    }
  }

  /** Lines naming the access point's BSSID never match, however they are
      indented and whatever follows, and neither do lines with other words
      before `SSID`, such as `AP BSSID`. */
  lemma {:induction false} BssidLinesDoNotMatch(a: nat, rest: string)
    ensures MatchLine(Spaces(a) + "BSSID" + rest) == None
    ensures MatchLine(Spaces(a) + "AP BSSID" + rest) == None
  {
    assert ("BSSID" + rest)[..4][0] == 'B';
    OnlySpacesBeforeKey(a, "BSSID" + rest);
    assert Spaces(a) + "BSSID" + rest == Spaces(a) + ("BSSID" + rest);
    assert ("AP BSSID" + rest)[..4][0] == 'A';
    OnlySpacesBeforeKey(a, "AP BSSID" + rest);
    assert Spaces(a) + "AP BSSID" + rest == Spaces(a) + ("AP BSSID" + rest);
  }

  /** Extra spaces after the colon and trailing spaces belong to the value. */
  lemma {:induction false} ValueKeepsSpaces()
    ensures MatchLine("    SSID   :   Home  ") == Some("  Home  ")
  {
    assert Spaces(4) + "SSID" + Spaces(3) + ": " + "  Home  " == "    SSID   :   Home  ";
    MatchLineComplete("    SSID   :   Home  ", 4, 3, "  Home  ");
  }

  /** A line ending in the single space after the colon gives the empty SSID. */
  lemma {:induction false} EmptyValue()
    ensures MatchLine(" SSID : ") == Some("")
  {
    assert Spaces(1) == " ";
    assert Spaces(1) + "SSID" + Spaces(1) + ": " + "" == " SSID : ";
    MatchLineComplete(" SSID : ", 1, 1, "");
  }
}
