/** The managed-block edit of one update tick. The hosts file text, the
    result of the SSID query and the SSID-to-value table are passed in; the
    tick's effect on the file is the returned `Outcome`. The managed block
    is the run of lines from the first start marker line to the first end
    marker line. */
module Hosts {
  import opened Wrappers
  import opened Text
  import Ssid

  const StartMarker: string := "#===[[ AUTO HOSTS UPDATER START"
  const EndMarker: string := "#===[[ AUTO HOSTS UPDATER END"

  /** Each marker is a plain line: no line feed in it, no carriage return
      at its end. */
  lemma {:induction false} MarkersPlain()
    ensures PlainLines([StartMarker]) && PlainLines([EndMarker])
  {
    assert [StartMarker][1..] == [] && [EndMarker][1..] == [];
  }

  /** What one tick does to the hosts file. */
  datatype Outcome =
    | Skip                 // the SSID's value is the empty string: warn, leave the file
    | NoWrite              // the file is left as it is
    | Write(text: string)  // the file is overwritten with `text`
    | Panic                // `Vec::drain` was handed a range whose start is past its end

  /** The SSID the tick works with: a failed query counts as not being
      connected, which is the empty SSID. */
  function ActiveSsid(query: Result<string, Ssid.SsidError>): (ssid: string)
    ensures query.Ok? ==> ssid == query.value
    ensures query.Err? ==> ssid == ""
  {
    query.GetOr("")
  }

  /** The configured value with each of its lines trimmed, the lines joined
      again with `"\n"`. Cut at line feeds, it gives back exactly the
      trimmed lines of the value, none of which starts or ends in whitespace. */
  function NormalizeValue(value: string): (block: string)
    ensures value != "" ==> |Split(block)| == |Lines(value)|
    ensures value != "" ==> forall i :: 0 <= i < |Split(block)| ==> Split(block)[i] == Trim(Lines(value)[i])
    ensures PlainLines(Split(block))
  {
    var lines := Lines(value);
    var trimmed := seq(|lines|, i requires 0 <= i < |lines| => Trim(lines[i]));
    LinesNonEmpty(value);
    TrimmedPieces(lines, trimmed);
    Join(trimmed)
  }

  /** Trimmed single lines, joined with line feeds and cut again, come back
      as themselves, each a plain line; no lines give one empty piece. */
  lemma {:induction false} TrimmedPieces(lines: seq<string>, trimmed: seq<string>)
    requires forall i :: 0 <= i < |lines| ==> LF !in lines[i]
    requires |trimmed| == |lines|
    requires forall i :: 0 <= i < |trimmed| ==> trimmed[i] == Trim(lines[i])
    ensures |lines| == 0 ==> Split(Join(trimmed)) == [""]
    ensures |lines| >= 1 ==> Split(Join(trimmed)) == trimmed
    ensures PlainLines(Split(Join(trimmed)))
  {
    forall i | 0 <= i < |trimmed|
      ensures LF !in trimmed[i] && !EndsWithCr(trimmed[i])
    {
      TrimSingleLine(lines[i]);
    }
    if |trimmed| > 0 {
      PlainFromAll(trimmed);
    }
    if |trimmed| == 0 {
      assert Split("") == [""];
    } else {
      SplitJoin(trimmed);
    }
  }

  /** A value made of whitespace only is not skipped: it normalises to line
      feeds alone, and a one-line one to the empty line. */
  lemma {:induction false} WhitespaceValueNormalizes(value: string)
    requires value != "" && AllWhitespace(value)
    ensures forall i :: 0 <= i < |Split(NormalizeValue(value))| ==> Split(NormalizeValue(value))[i] == ""
    ensures LF !in value ==> NormalizeValue(value) == ""
  {
    var block := NormalizeValue(value);
    var lines := Lines(value);
    forall i | 0 <= i < |Split(block)|
      ensures Split(block)[i] == ""
    {
      LinesAllWhitespace(value, i);
      TrimAllWhitespace(lines[i]);
    }
    if LF !in value {
      CountAbsent(value, LF);
      JoinSplit(block);
      assert Split(block) == [""];
    }
  }

  /** The lines of whitespace-only text are whitespace only. */
  lemma {:induction false} LinesAllWhitespace(value: string, i: nat)
    requires AllWhitespace(value) && i < |Lines(value)|
    ensures AllWhitespace(Lines(value)[i])
  {
    var line := Lines(value)[i];
    var pieces := Split(value);
    LinesOfAt(pieces, i);
    forall k | 0 <= k < |line|
      ensures IsWhitespace(line[k])
    {
      assert line[k] == pieces[i][k];
      SplitChars(value, i, k);
    }
  }

  /** Trimming whitespace-only text leaves nothing. */
  lemma {:induction false} TrimAllWhitespace(s: string)
    requires AllWhitespace(s)
    ensures Trim(s) == ""
  {
    TrimInfix(s);
  }

  /** The lines after the edit made for a matching SSID with a non-empty
      value, or `None` where `Vec::drain` panics. With both markers present
      and in order, the lines strictly between them are replaced by the one
      element `block` and every other line keeps its content and place; the
      markers therefore still delimit a block, now holding `block`. With a
      marker missing, a new block is appended after the unchanged lines. An
      end marker before the start marker makes the drain range reversed. */
  function MatchedLines(lines: seq<string>, block: string): (r: Option<seq<string>>)
    ensures r.None? <==> StartMarker in lines && EndMarker in lines
                         && Position(lines, EndMarker).value < Position(lines, StartMarker).value
    ensures r.Some? && StartMarker in lines && EndMarker in lines ==>
              var s := Position(lines, StartMarker).value;
              var e := Position(lines, EndMarker).value;
              && |r.value| == |lines| - (e - s - 1) + 1
              && r.value[..s + 1] == lines[..s + 1]
              && r.value[s + 1] == block
              && r.value[s + 2..] == lines[e..]
              && Position(r.value, StartMarker) == Some(s)
              && (block != EndMarker ==> Position(r.value, EndMarker) == Some(s + 2))
    ensures !(StartMarker in lines && EndMarker in lines) ==>
              && r.Some?
              && |r.value| == |lines| + 3
              && r.value[..|lines|] == lines
              && r.value[|lines|..] == [StartMarker, block, EndMarker]
  {
    var start := Position(lines, StartMarker);
    var end := Position(lines, EndMarker);
    if start.Some? && end.Some? then
      var s := start.value;
      var e := end.value;
      if e < s + 1 then None
      else
        var edited := lines[..s + 1] + [block] + lines[e..];
        ReplacedMarkers(lines, block, s, e);
        Some(edited)
    else
      var edited := lines + [StartMarker, block, EndMarker];
      assert edited[..|lines|] == lines;
      Some(edited)
  }

  /** Replacing what lies strictly between the first markers leaves the
      start marker first where it was and, unless the new element is itself
      an end marker, puts the first end marker right after the new element. */
  lemma {:induction false} ReplacedMarkers(lines: seq<string>, block: string, s: nat, e: nat)
    requires s < e < |lines|
    requires Position(lines, StartMarker) == Some(s) && Position(lines, EndMarker) == Some(e)
    ensures var edited := lines[..s + 1] + [block] + lines[e..];
            && |edited| == |lines| - (e - s - 1) + 1
            && edited[..s + 1] == lines[..s + 1]
            && edited[s + 1] == block
            && edited[s + 2..] == lines[e..]
            && Position(edited, StartMarker) == Some(s)
            && (block != EndMarker ==> Position(edited, EndMarker) == Some(s + 2))
  {
    var edited := lines[..s + 1] + [block] + lines[e..];
    assert edited[..s + 1] == lines[..s + 1];
    assert edited[s + 2..] == lines[e..];
    assert edited[..s] == lines[..s];
    PositionIs(edited, StartMarker, s);
    if block != EndMarker {
      assert edited[..s + 2] == lines[..s + 1] + [block];
      assert EndMarker !in lines[..s + 1] by {
        assert lines[..s + 1] == lines[..e][..s + 1];
      }
      PositionIs(edited, EndMarker, s + 2);
    }
  }

  /** The lines after removing the block for an SSID with no entry, or
      `None` where `Vec::drain` panics. The block, markers included, is cut
      out and the lines before and after it close up. An end marker
      directly before the start marker gives an empty range, which removes
      nothing; an end marker further before it is a reversed range. */
  function ClearedLines(lines: seq<string>): (r: Option<seq<string>>)
    requires StartMarker in lines && EndMarker in lines
    ensures var s := Position(lines, StartMarker).value;
            var e := Position(lines, EndMarker).value;
            && (r.None? <==> s > e + 1)
            && (r.Some? && s < e ==>
                  && |r.value| == |lines| - (e - s + 1)
                  && r.value[..s] == lines[..s]
                  && r.value[s..] == lines[e + 1..])
            && (s == e + 1 ==> r == Some(lines))
  {
    var s := Position(lines, StartMarker).value;
    var e := Position(lines, EndMarker).value;
    if s > e + 1 then None
    else
      var cleared := lines[..s] + lines[e + 1..];
      assert cleared[..s] == lines[..s];
      assert s == e + 1 ==> cleared == lines;
      Some(cleared)
  }

  /** Write the joined lines unless they equal the text read. */
  function WriteIfChanged(text: string, lines: seq<string>): (o: Outcome)
    ensures o.Write? <==> Join(lines) != text
    ensures o.Write? ==> o.text == Join(lines)
    ensures o.Write? || o.NoWrite?
  {
    var newText := Join(lines);
    if newText == text then NoWrite else Write(newText)
  }

  /** One tick of the updater on hosts file `text`. */
  function UpdateHosts(text: string, query: Result<string, Ssid.SsidError>, entries: map<string, string>): (o: Outcome)
    ensures o.Skip? <==> ActiveSsid(query) in entries && entries[ActiveSsid(query)] == ""
    ensures o.Panic? ==> StartMarker in Lines(text) && EndMarker in Lines(text)
                         && Position(Lines(text), EndMarker).value < Position(Lines(text), StartMarker).value
    ensures ActiveSsid(query) in entries && o.Write? ==> o.text != text
    ensures ActiveSsid(query) !in entries && !(StartMarker in Lines(text) && EndMarker in Lines(text)) ==> o.NoWrite?
  {
    var ssid := ActiveSsid(query);
    var lines := Lines(text);
    if ssid in entries then
      var value := entries[ssid];
      if value == "" then Skip
      else
        match MatchedLines(lines, NormalizeValue(value))
        case None => Panic
        case Some(edited) => WriteIfChanged(text, edited)
    else if StartMarker in lines && EndMarker in lines then
      match ClearedLines(lines)
      case None => Panic
      case Some(cleared) => Write(Join(cleared))
    else NoWrite
  }
}
