/** The pieces of Rust's `str` and `Vec` API that the updater leans on:
    splitting at line feeds, joining with `"\n"`, `str::lines`, `str::trim`
    and `Iterator::position`, over strings modelled as `seq<char>`. */
module Text {
  import opened Wrappers

  const LF: char := '\n'
  const CR: char := '\r'

  /** Number of occurrences of `c` in `s`. */
  function Count(s: string, c: char): nat {
    if s == [] then 0 else (if s[0] == c then 1 else 0) + Count(s[1..], c)
  }

  /** A character that does not occur is counted zero times. */
  lemma {:induction false} CountAbsent(s: string, c: char)
    requires c !in s
    ensures Count(s, c) == 0
  {
    if s != [] {
      CountAbsent(s[1..], c);
    }
  }

  /** The pieces of `s` between line feeds, in order (`str::split('\n')`).
      There is one more piece than there are line feeds and no piece holds
      a line feed. */
  function Split(s: string): (pieces: seq<string>)
    ensures |pieces| == Count(s, LF) + 1
    ensures forall i :: 0 <= i < |pieces| ==> LF !in pieces[i]
  {
    if s == [] then [""]
    else
      var rest := Split(s[1..]);
      if s[0] == LF then [""] + rest
      else [[s[0]] + rest[0]] + rest[1..]
  }

  /** The pieces glued together with one line feed between neighbours
      (`[&str]::join("\n")`); no pieces give the empty string. */
  function Join(pieces: seq<string>): string {
    if |pieces| == 0 then ""
    else if |pieces| == 1 then pieces[0]
    else pieces[0] + [LF] + Join(pieces[1..])
  }

  /** Gluing the pieces back together gives the text again. */
  lemma {:induction false} JoinSplit(s: string)
    ensures Join(Split(s)) == s
  {
    if s != [] {
      JoinSplit(s[1..]);
      var rest := Split(s[1..]);
      if s[0] != LF && |rest| > 1 {
        assert Join(rest) == rest[0] + [LF] + Join(rest[1..]);
      }
    }
  }

  /** Every character of a piece occurs in the text. */
  lemma {:induction false} SplitChars(s: string, i: nat, k: nat)
    requires i < |Split(s)| && k < |Split(s)[i]|
    ensures Split(s)[i][k] in s
  {
    if s != [] {
      var rest := Split(s[1..]);
      if s[0] == LF {
        if i > 0 {
          SplitChars(s[1..], i - 1, k);
        }
      } else if i == 0 {
        if k > 0 {
          SplitChars(s[1..], 0, k - 1);
        }
      } else {
        SplitChars(s[1..], i, k);
      }
    }
  }

  /** A single-line string is its own only piece. */
  lemma {:induction false} SplitSingleLine(a: string)
    requires LF !in a
    ensures Split(a) == [a]
  {
    if a != [] {
      SplitSingleLine(a[1..]);
      assert [a[0]] + a[1..] == a;
    }
  }

  /** Joining a first piece in front of others puts one line feed after it. */
  lemma {:induction false} JoinCons(x: string, ys: seq<string>)
    requires |ys| >= 1
    ensures Join([x] + ys) == x + [LF] + Join(ys)
  {
    assert ([x] + ys)[1..] == ys;
  }

  /** Splitting after a first line that holds no line feed peels that line off. */
  lemma {:induction false} SplitFirstLine(a: string, b: string)
    requires LF !in a
    ensures Split(a + [LF] + b) == [a] + Split(b)
  {
    if a == [] {
      assert a + [LF] + b == [LF] + b;
    } else {
      assert (a + [LF] + b)[1..] == a[1..] + [LF] + b;
      SplitFirstLine(a[1..], b);
      var rest := Split(a[1..] + [LF] + b);
      assert rest == [a[1..]] + Split(b);
      assert [a[0]] + rest[0] == a;
    }
  }

  /** Joining single-line pieces and splitting again gives the pieces back. */
  lemma {:induction false} SplitJoin(pieces: seq<string>)
    requires |pieces| >= 1
    requires forall i :: 0 <= i < |pieces| ==> LF !in pieces[i]
    ensures Split(Join(pieces)) == pieces
  {
    if |pieces| == 1 {
      SplitSingleLine(pieces[0]);
    } else {
      SplitJoin(pieces[1..]);
      SplitFirstLine(pieces[0], Join(pieces[1..]));
    }
  }

  /** Joining two non-empty runs of pieces puts one line feed between the two joins. */
  lemma {:induction false} JoinAppend(xs: seq<string>, ys: seq<string>)
    requires |xs| >= 1 && |ys| >= 1
    ensures Join(xs + ys) == Join(xs) + [LF] + Join(ys)
  {
    if |xs| == 1 {
      assert (xs + ys)[1..] == ys;
    } else {
      assert (xs + ys)[1..] == xs[1..] + ys;
      JoinAppend(xs[1..], ys);
    }
  }

  /** A piece that is itself a join of several pieces may be spread out in place. */
  lemma {:induction false} JoinFlatten(xs: seq<string>, mid: seq<string>, ys: seq<string>)
    requires |mid| >= 1
    ensures Join(xs + [Join(mid)] + ys) == Join(xs + mid + ys)
  {
    if |xs| == 0 {
      assert xs + [Join(mid)] + ys == [Join(mid)] + ys;
      assert xs + mid + ys == mid + ys;
      if |ys| > 0 {
        JoinAppend([Join(mid)], ys);
        JoinAppend(mid, ys);
      } else {
        assert [Join(mid)] + ys == [Join(mid)];
        assert mid + ys == mid;
      }
    } else {
      JoinFlatten(xs[1..], mid, ys);
      assert (xs + [Join(mid)] + ys)[1..] == xs[1..] + [Join(mid)] + ys;
      assert (xs + mid + ys)[1..] == xs[1..] + mid + ys;
    }
  }

  /** The last piece is empty exactly when the text is empty or ends in a line feed. */
  lemma {:induction false} SplitLastPiece(s: string)
    ensures var pieces := Split(s); pieces[|pieces| - 1] == "" <==> (s == [] || s[|s| - 1] == LF)
  {
    if s != [] {
      SplitLastPiece(s[1..]);
    }
  }

  /** True when `line` ends in a carriage return. */
  predicate EndsWithCr(line: string) {
    |line| > 0 && line[|line| - 1] == CR
  }

  /** `line` without the one carriage return that ended it, if any. */
  function StripCr(line: string): string {
    if EndsWithCr(line) then line[..|line| - 1] else line
  }

  /** The pieces with one carriage return removed from the end of every
      piece a line feed followed, that is every piece but the last. */
  function StripLineEnds(pieces: seq<string>): seq<string> {
    seq(|pieces|, i requires 0 <= i < |pieces| => if i < |pieces| - 1 then StripCr(pieces[i]) else pieces[i])
  }

  /** The lines that the pieces of a text cut at line feeds stand for: every
      piece a line feed ended loses one carriage return at its end, and an
      empty last piece, which no line feed ends, is no line. */
  function LinesOf(pieces: seq<string>): (lines: seq<string>)
    requires |pieces| >= 1
    ensures |lines| == if pieces[|pieces| - 1] == "" then |pieces| - 1 else |pieces|
    decreases |pieces|
  {
    if |pieces| == 1 then (if pieces[0] == "" then [] else pieces)
    else [StripCr(pieces[0])] + LinesOf(pieces[1..])
  }

  /** The lines of `s` as `str::lines` yields them: `s` is cut at line feeds,
      the empty piece after a final line feed is dropped, and a line that a
      line feed ended loses one carriage return before it. A final line with
      no line feed after it keeps a trailing carriage return. */
  function Lines(s: string): (lines: seq<string>)
    ensures forall i :: 0 <= i < |lines| ==> LF !in lines[i]
  {
    var pieces := Split(s);
    var lines := LinesOf(pieces);
    assert forall i :: 0 <= i < |lines| ==> LF !in lines[i] by {
      forall i | 0 <= i < |lines|
        ensures LF !in lines[i]
      {
        LinesOfAt(pieces, i);
      }
    }
    lines
  }

  /** Every line is its piece; a piece that a line feed ended, which is
      every piece but the last, loses one final carriage return, and the
      last piece keeps it. */
  lemma {:induction false} LinesOfAt(pieces: seq<string>, i: nat)
    requires |pieces| >= 1 && i < |LinesOf(pieces)|
    ensures LinesOf(pieces)[i] == if i < |pieces| - 1 then StripCr(pieces[i]) else pieces[i]
    decreases i
  {
    if i > 0 {
      LinesOfAt(pieces[1..], i - 1);
    }
  }

  /** The empty text has no lines. */
  lemma {:induction false} LinesEmpty()
    ensures Lines("") == []
  {
    assert Split("") == [""];
  }

  /** A first line that a line feed ends reads back without one final
      carriage return, ahead of the lines of the rest. */
  lemma {:induction false} LinesAfterLine(a: string, b: string)
    requires LF !in a
    ensures Lines(a + [LF] + b) == [StripCr(a)] + Lines(b)
  {
    SplitFirstLine(a, b);
    assert ([a] + Split(b))[1..] == Split(b);
  }

  /** Non-empty text has at least one line. */
  lemma {:induction false} LinesNonEmpty(s: string)
    ensures s != [] ==> |Lines(s)| >= 1
  {
    if s != [] {
      JoinSplit(s);
      SplitLastPiece(s);
      if |Split(s)| == 1 {
        assert Join(Split(s)) == Split(s)[0];
      }
    }
  }

  /** Plain pieces whose last is not empty are their own lines. */
  lemma {:induction false} LinesOfClean(pieces: seq<string>)
    requires |pieces| >= 1 && pieces[|pieces| - 1] != "" && PlainLines(pieces)
    ensures LinesOf(pieces) == pieces
  {
    if |pieces| > 1 {
      LinesOfClean(pieces[1..]);
      assert StripCr(pieces[0]) == pieces[0];
      assert [pieces[0]] + pieces[1..] == pieces;
    }
  }

  /** Plain pieces followed by an empty last piece are their own lines once
      that empty piece is dropped. */
  lemma {:induction false} LinesOfFinalEmpty(pieces: seq<string>)
    requires PlainLines(pieces)
    ensures LinesOf(pieces + [""]) == pieces
  {
    if |pieces| > 0 {
      LinesOfFinalEmpty(pieces[1..]);
      assert (pieces + [""])[1..] == pieces[1..] + [""];
      assert StripCr(pieces[0]) == pieces[0];
      assert [pieces[0]] + pieces[1..] == pieces;
    }
  }

  /** `str::lines` undoes `join("\n")` when no piece holds a line feed or
      ends in a carriage return and the last piece is not empty. */
  lemma {:induction false} LinesJoin(pieces: seq<string>)
    requires forall i :: 0 <= i < |pieces| ==> LF !in pieces[i] && !EndsWithCr(pieces[i])
    requires |pieces| == 0 || pieces[|pieces| - 1] != ""
    ensures Lines(Join(pieces)) == pieces
  {
    if |pieces| >= 1 {
      SplitJoin(pieces);
      PlainFromAll(pieces);
      LinesOfClean(pieces);
    } else {
      assert Split("") == [""];
    }
  }

  /** `join("\n")` undoes `str::lines` on text without carriage returns that
      does not end in a line feed. */
  lemma {:induction false} JoinLines(s: string)
    requires CR !in s
    requires s == [] || s[|s| - 1] != LF
    ensures Join(Lines(s)) == s
  {
    var pieces := Split(s);
    JoinSplit(s);
    SplitLastPiece(s);
    if s != [] {
      forall i | 0 <= i < |pieces|
        ensures LF !in pieces[i] && !EndsWithCr(pieces[i])
      {
        if |pieces[i]| > 0 {
          SplitChars(s, i, |pieces[i]| - 1);
        }
      }
      PlainFromAll(pieces);
      LinesOfClean(pieces);
    }
  }

  /** The characters Rust's `char::is_whitespace` accepts: the Unicode
      White_Space property, as inclusive ranges of code points. */
  const WhitespaceRanges: seq<(char, char)> :=
    [('\t', '\r'), (' ', ' '), ('\U{85}', '\U{85}'), ('\U{A0}', '\U{A0}'),
     ('\U{1680}', '\U{1680}'), ('\U{2000}', '\U{200A}'), ('\U{2028}', '\U{2029}'),
     ('\U{202F}', '\U{202F}'), ('\U{205F}', '\U{205F}'), ('\U{3000}', '\U{3000}')]

  predicate IsWhitespace(c: char) {
    InRanges(c, WhitespaceRanges)
  }

  /** `c` lies in one of the inclusive ranges. */
  predicate InRanges(c: char, ranges: seq<(char, char)>) {
    |ranges| > 0 && ((ranges[0].0 <= c <= ranges[0].1) || InRanges(c, ranges[1..]))
  }

  /** A character below or above every range lies in none of them. */
  lemma {:induction false} OutsideRanges(c: char, ranges: seq<(char, char)>)
    requires forall k :: 0 <= k < |ranges| ==> c < ranges[k].0 || ranges[k].1 < c
    ensures !InRanges(c, ranges)
  {
    if |ranges| > 0 {
      assert forall k :: 0 <= k < |ranges| - 1 ==> ranges[1..][k] == ranges[k + 1];
      OutsideRanges(c, ranges[1..]);
    }
  }

  /** The visible ASCII characters, `!` to `~`, are not whitespace. */
  lemma {:induction false} VisibleAsciiNotWhitespace(c: char)
    requires '!' <= c <= '~'
    ensures !IsWhitespace(c)
  {
    OutsideRanges(c, WhitespaceRanges);
  }

  /** Every character of `s` is whitespace. */
  predicate AllWhitespace(s: string) {
    forall k :: 0 <= k < |s| ==> IsWhitespace(s[k])
  }

  /** The index of the first character at or after `i` that is not
      whitespace, or `|s|` when there is none. */
  function SkipForward(s: string, i: nat): (n: nat)
    requires i <= |s|
    ensures i <= n <= |s|
    ensures forall k :: i <= k < n ==> IsWhitespace(s[k])
    ensures n < |s| ==> !IsWhitespace(s[n])
    decreases |s| - i
  {
    if i < |s| && IsWhitespace(s[i]) then SkipForward(s, i + 1) else i
  }

  /** The index just past the last character before `j`, and at or after
      `lo`, that is not whitespace, or `lo` when there is none. */
  function SkipBackward(s: string, lo: nat, j: nat): (n: nat)
    requires lo <= j <= |s|
    ensures lo <= n <= j
    ensures forall k :: n <= k < j ==> IsWhitespace(s[k])
    ensures n > lo ==> !IsWhitespace(s[n - 1])
    decreases j
  {
    if j > lo && IsWhitespace(s[j - 1]) then SkipBackward(s, lo, j - 1) else j
  }

  /** `s` without leading and trailing whitespace (`str::trim`): neither
      starting nor ending in whitespace. */
  function Trim(s: string): (r: string)
    ensures |r| <= |s|
    ensures r == [] || (!IsWhitespace(r[0]) && !IsWhitespace(r[|r| - 1]))
  {
    var from := SkipForward(s, 0);
    s[from..SkipBackward(s, from, |s|)]
  }

  /** What trimming leaves is a contiguous part of `s`, and only whitespace
      is cut away on either side of it. */
  lemma {:induction false} TrimInfix(s: string)
    ensures var r := Trim(s);
            exists i :: 0 <= i <= |s| - |r| && r == s[i..i + |r|] && AllWhitespace(s[..i]) && AllWhitespace(s[i + |r|..])
  {
    var from := SkipForward(s, 0);
    var to := SkipBackward(s, from, |s|);
    assert AllWhitespace(s[..from]) by {
      forall k | 0 <= k < from
        ensures IsWhitespace(s[..from][k])
      {
        assert s[..from][k] == s[k];
      }
    }
    assert AllWhitespace(s[to..]) by {
      forall k | 0 <= k < |s| - to
        ensures IsWhitespace(s[to..][k])
      {
        assert s[to..][k] == s[to + k];
      }
    }
    assert Trim(s) == s[from..to];
    assert 0 <= from <= |s| - |Trim(s)| && Trim(s) == s[from..from + |Trim(s)|]
           && AllWhitespace(s[..from]) && AllWhitespace(s[from + |Trim(s)|..]);
  }

  /** Text that neither starts nor ends in whitespace is left alone by
      trimming, so trimming twice trims no more than once. */
  lemma {:induction false} TrimUnchanged(s: string)
    ensures (s == [] || (!IsWhitespace(s[0]) && !IsWhitespace(s[|s| - 1]))) <==> Trim(s) == s
    ensures Trim(Trim(s)) == Trim(s)
  {
    if s != [] && !IsWhitespace(s[0]) && !IsWhitespace(s[|s| - 1]) {
      assert SkipForward(s, 0) == 0;
      assert SkipBackward(s, 0, |s|) == |s|;
    }
    var r := Trim(s);
    if r != [] {
      assert SkipForward(r, 0) == 0;
      assert SkipBackward(r, 0, |r|) == |r|;
    }
  }

  /** Trimming a single line leaves a single line, and one that does not
      end in a carriage return, a whitespace character. */
  lemma {:induction false} TrimSingleLine(s: string)
    requires LF !in s
    ensures LF !in Trim(s) && !EndsWithCr(Trim(s))
  {
    TrimInfix(s);
    assert IsWhitespace(CR) by {
      assert WhitespaceRanges[0].0 <= CR <= WhitespaceRanges[0].1;
    }
  }

  /** `str::lines` drops the empty piece after a final line feed: text that
      ends in a line feed has the lines of the text before it. */
  lemma {:induction false} LinesFinalLineFeed(pieces: seq<string>)
    requires |pieces| >= 1 && PlainLines(pieces)
    ensures Lines(Join(pieces + [""])) == pieces
  {
    PlainAll(pieces);
    var ext := pieces + [""];
    assert forall i :: 0 <= i < |ext| ==> LF !in ext[i];
    SplitJoin(ext);
    LinesOfFinalEmpty(pieces);
  }

  /** Lines as `str::lines` gives them back unchanged: none holds a line
      feed or ends in a carriage return. Stated element by element from the
      front, so that it unfolds only as far as a proof asks. */
  predicate PlainLines(xs: seq<string>) {
    |xs| == 0 || (LF !in xs[0] && !EndsWithCr(xs[0]) && PlainLines(xs[1..]))
  }

  /** Each element of plain lines is a plain line. */
  lemma {:induction false} PlainAt(xs: seq<string>, i: nat)
    requires PlainLines(xs) && i < |xs|
    ensures LF !in xs[i] && !EndsWithCr(xs[i])
  {
    if i > 0 {
      PlainAt(xs[1..], i - 1);
      assert xs[1..][i - 1] == xs[i];
    }
  }

  /** Plain lines, element by element. */
  lemma {:induction false} PlainAll(xs: seq<string>)
    requires PlainLines(xs)
    ensures forall i :: 0 <= i < |xs| ==> LF !in xs[i] && !EndsWithCr(xs[i])
  {
    forall i | 0 <= i < |xs|
      ensures LF !in xs[i] && !EndsWithCr(xs[i])
    {
      PlainAt(xs, i);
    }
  }

  /** Lines that are plain one by one are plain lines. */
  lemma {:induction false} PlainFromAll(xs: seq<string>)
    requires forall i :: 0 <= i < |xs| ==> LF !in xs[i] && !EndsWithCr(xs[i])
    ensures PlainLines(xs)
  {
    if |xs| > 0 {
      assert forall i :: 0 <= i < |xs| - 1 ==> xs[1..][i] == xs[i + 1];
      PlainFromAll(xs[1..]);
    }
  }

  /** A run of plain lines cut out of plain lines. */
  lemma {:induction false} PlainSlice(xs: seq<string>, a: nat, b: nat)
    requires PlainLines(xs) && a <= b <= |xs|
    ensures PlainLines(xs[a..b])
  {
    PlainAll(xs);
    assert forall i :: 0 <= i < b - a ==> xs[a..b][i] == xs[a + i];
    PlainFromAll(xs[a..b]);
  }

  /** A prefix of plain lines. */
  lemma {:induction false} PlainPrefix(xs: seq<string>, b: nat)
    requires PlainLines(xs) && b <= |xs|
    ensures PlainLines(xs[..b])
  {
    PlainSlice(xs, 0, b);
    assert xs[..b] == xs[0..b];
  }

  /** A suffix of plain lines. */
  lemma {:induction false} PlainSuffix(xs: seq<string>, a: nat)
    requires PlainLines(xs) && a <= |xs|
    ensures PlainLines(xs[a..])
  {
    PlainSlice(xs, a, |xs|);
    assert xs[a..] == xs[a..|xs|];
  }

  /** Two runs of plain lines make one. */
  lemma {:induction false} PlainConcat(xs: seq<string>, ys: seq<string>)
    requires PlainLines(xs) && PlainLines(ys)
    ensures PlainLines(xs + ys)
  {
    PlainAll(xs);
    PlainAll(ys);
    forall i | 0 <= i < |xs + ys|
      ensures LF !in (xs + ys)[i] && !EndsWithCr((xs + ys)[i])
    {
      if i < |xs| {
        assert (xs + ys)[i] == xs[i];
      } else {
        assert (xs + ys)[i] == ys[i - |xs|];
      }
    }
    PlainFromAll(xs + ys);
  }

  /** `str::lines` undoes `join("\n")` on plain lines whose last is not empty. */
  lemma {:induction false} LinesOfPlain(xs: seq<string>)
    requires PlainLines(xs) && (|xs| == 0 || xs[|xs| - 1] != "")
    ensures Lines(Join(xs)) == xs
  {
    if |xs| >= 1 {
      PlainAll(xs);
      SplitJoin(xs);
      LinesOfClean(xs);
    } else {
      assert Split("") == [""];
    }
  }

  /** Index of the first element equal to `x`, if any (`Iterator::position`). */
  function Position<T(==)>(xs: seq<T>, x: T): (r: Option<nat>)
    ensures r.None? <==> x !in xs
    ensures r.Some? ==> r.value < |xs| && xs[r.value] == x && x !in xs[..r.value]
  {
    if |xs| == 0 then None
    else if xs[0] == x then Some(0)
    else
      match Position(xs[1..], x)
      case None => None
      case Some(i) =>
        assert xs[..i + 1] == [xs[0]] + xs[1..][..i];
        Some(i + 1)
  }

  /** The first occurrence is wherever `x` occurs with no `x` before it. */
  lemma {:induction false} PositionIs<T>(xs: seq<T>, x: T, i: nat)
    requires i < |xs| && xs[i] == x && x !in xs[..i]
    ensures Position(xs, x) == Some(i)
  {
  }
}
