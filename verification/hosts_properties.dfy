/** Properties of one update tick: which entry is used, the shapes of the
    replace, append and clear edits, the write-only-on-change rule,
    idempotence and where it stops, and worked scenarios. */
module HostsProperties {
  import opened Wrappers
  import opened Text
  import opened Hosts
  import Ssid

  /** The file text once a tick with outcome `o` has run on `text`. */
  function AfterTick(text: string, o: Outcome): string {
    if o.Write? then o.text else text
  }

  /** Both markers present with the start marker first, or neither present. */
  predicate MarkersInOrderOrAbsent(lines: seq<string>) {
    || (StartMarker in lines && EndMarker in lines
        && Position(lines, StartMarker).value < Position(lines, EndMarker).value)
    || (StartMarker !in lines && EndMarker !in lines)
  }

  /** The value that the active SSID maps to. */
  function ActiveValue(query: Result<string, Ssid.SsidError>, entries: map<string, string>): string
    requires ActiveSsid(query) in entries
  {
    entries[ActiveSsid(query)]
  }

  /** The table cut down to the entry for `key`, if it has one. */
  function Restrict(entries: map<string, string>, key: string): map<string, string> {
    if key in entries then map[key := entries[key]] else map[]
  }

  // ---------------------------------------------------------------------
  // Which entry is used

  /** A failed SSID query behaves exactly like the empty SSID, which may
      itself have an entry. */
  lemma {:induction false} FailedQueryIsDisconnected(text: string, error: Ssid.SsidError, entries: map<string, string>)
    ensures UpdateHosts(text, Err(error), entries) == UpdateHosts(text, Ok(""), entries)
    ensures "" in entries && entries[""] == "" ==> UpdateHosts(text, Err(error), entries) == Skip
  {
  }

  /** A failing interface-listing command leaves the tick working with the
      empty SSID. */
  lemma {:induction false} FailedCommandIsDisconnected(text: string, status: Ssid.ExitStatus, stdout: string, entries: map<string, string>)
    requires !status.success
    ensures UpdateHosts(text, Ssid.GetSsid(status, stdout), entries) == UpdateHosts(text, Ok(""), entries)
  {
  }

  /** Only the entry whose key equals the active SSID matters; all other
      entries could be dropped without changing the tick. */
  lemma {:induction false} OnlyActiveEntryMatters(text: string, query: Result<string, Ssid.SsidError>, entries: map<string, string>)
    ensures UpdateHosts(text, query, entries) == UpdateHosts(text, query, Restrict(entries, ActiveSsid(query)))
  {
  }

  // ---------------------------------------------------------------------
  // The edit shapes

  /** With a value to put in place and an edit that does not panic, the tick
      writes the edited lines exactly when they change the text. */
  lemma {:induction false} MatchedTick(text: string, query: Result<string, Ssid.SsidError>, entries: map<string, string>, edited: seq<string>)
    requires ActiveSsid(query) in entries && ActiveValue(query, entries) != ""
    requires MatchedLines(Lines(text), NormalizeValue(ActiveValue(query, entries))) == Some(edited)
    ensures Join(edited) == text ==> UpdateHosts(text, query, entries) == NoWrite
    ensures Join(edited) != text ==> UpdateHosts(text, query, entries) == Write(Join(edited))
  {
  }

  /** With a value to put in place and reversed markers, the tick panics. */
  lemma {:induction false} PanicTick(text: string, query: Result<string, Ssid.SsidError>, entries: map<string, string>)
    requires ActiveSsid(query) in entries && ActiveValue(query, entries) != ""
    requires MatchedLines(Lines(text), NormalizeValue(ActiveValue(query, entries))).None?
    ensures UpdateHosts(text, query, entries) == Panic
  {
  }

  /** Replace: with the first start marker at `s` and the first end marker
      at `e` after it, the lines strictly between them become the
      normalised value, one element, and the result is written exactly when
      its joined text differs from the text read. */
  lemma {:induction false} ReplaceShape(text: string, query: Result<string, Ssid.SsidError>, entries: map<string, string>, s: nat, e: nat)
    requires ActiveSsid(query) in entries && ActiveValue(query, entries) != ""
    requires Position(Lines(text), StartMarker) == Some(s) && Position(Lines(text), EndMarker) == Some(e) && s < e
    ensures UpdateHosts(text, query, entries)
            == WriteIfChanged(text, Lines(text)[..s + 1] + [NormalizeValue(ActiveValue(query, entries))] + Lines(text)[e..])
  {
    var edited := Lines(text)[..s + 1] + [NormalizeValue(ActiveValue(query, entries))] + Lines(text)[e..];
    ReplaceEdit(Lines(text), NormalizeValue(ActiveValue(query, entries)), s, e);
    MatchedTick(text, query, entries, edited);
  }

  /** The replace edit on lines whose first start marker is at `s` and first
      end marker at `e`, in that order. */
  lemma {:induction false} ReplaceEdit(lines: seq<string>, block: string, s: nat, e: nat)
    requires Position(lines, StartMarker) == Some(s) && Position(lines, EndMarker) == Some(e) && s < e
    ensures MatchedLines(lines, block) == Some(lines[..s + 1] + [block] + lines[e..])
  {
    SpliceIs(lines, MatchedLines(lines, block).value, block, s, e);
  }

  /** A sequence that keeps the prefix through `s`, has `b` next and then
      the suffix from `e` is that splice. */
  lemma {:induction false} SpliceIs<T>(xs: seq<T>, r: seq<T>, b: T, s: nat, e: nat)
    requires s < e <= |xs|
    requires |r| == |xs| - (e - s - 1) + 1
    requires r[..s + 1] == xs[..s + 1] && r[s + 1] == b && r[s + 2..] == xs[e..]
    ensures r == xs[..s + 1] + [b] + xs[e..]
  {
    assert r == r[..s + 1] + [r[s + 1]] + r[s + 2..];
  }

  /** Append: with a marker missing, even when the other one is present, a
      new block follows the unchanged lines, and the result is written
      exactly when its joined text differs from the text read. */
  lemma {:induction false} AppendShape(text: string, query: Result<string, Ssid.SsidError>, entries: map<string, string>)
    requires ActiveSsid(query) in entries && ActiveValue(query, entries) != ""
    requires !(StartMarker in Lines(text) && EndMarker in Lines(text))
    ensures UpdateHosts(text, query, entries)
            == WriteIfChanged(text, Lines(text) + [StartMarker, NormalizeValue(ActiveValue(query, entries)), EndMarker])
  {
    var edited := Lines(text) + [StartMarker, NormalizeValue(ActiveValue(query, entries)), EndMarker];
    AppendEdit(Lines(text), NormalizeValue(ActiveValue(query, entries)));
    MatchedTick(text, query, entries, edited);
  }

  /** The append edit on lines where a marker is missing. */
  lemma {:induction false} AppendEdit(lines: seq<string>, block: string)
    requires !(StartMarker in lines && EndMarker in lines)
    ensures MatchedLines(lines, block) == Some(lines + [StartMarker, block, EndMarker])
  {
    AppendIs(lines, MatchedLines(lines, block).value, [StartMarker, block, EndMarker]);
  }

  /** A sequence that starts with `xs` and continues with `ys` is `xs + ys`. */
  lemma {:induction false} AppendIs<T>(xs: seq<T>, r: seq<T>, ys: seq<T>)
    requires |r| == |xs| + |ys| && r[..|xs|] == xs && r[|xs|..] == ys
    ensures r == xs + ys
  {
    assert r == r[..|xs|] + r[|xs|..];
  }

  /** Clear: with no entry for the SSID and both markers in order, the
      block, markers included, is cut out and the rest is written, whether
      or not that changes the text. */
  lemma {:induction false} ClearShape(text: string, query: Result<string, Ssid.SsidError>, entries: map<string, string>, s: nat, e: nat)
    requires ActiveSsid(query) !in entries
    requires Position(Lines(text), StartMarker) == Some(s) && Position(Lines(text), EndMarker) == Some(e) && s < e
    ensures UpdateHosts(text, query, entries) == Write(Join(Lines(text)[..s] + Lines(text)[e + 1..]))
  {
    ClearEdit(Lines(text), s, e);
  }

  /** The clear edit on lines whose first start marker is at `s` and first
      end marker at `e`, in that order. */
  lemma {:induction false} ClearEdit(lines: seq<string>, s: nat, e: nat)
    requires Position(lines, StartMarker) == Some(s) && Position(lines, EndMarker) == Some(e) && s < e
    ensures ClearedLines(lines) == Some(lines[..s] + lines[e + 1..])
  {
    CutIs(lines, ClearedLines(lines).value, s, e);
  }

  /** A sequence that keeps the prefix before `s` and then the suffix after
      `e` is that cut. */
  lemma {:induction false} CutIs<T>(xs: seq<T>, r: seq<T>, s: nat, e: nat)
    requires s <= e < |xs|
    requires |r| == |xs| - (e - s + 1)
    requires r[..s] == xs[..s] && r[s..] == xs[e + 1..]
    ensures r == xs[..s] + xs[e + 1..]
  {
    assert r == r[..s] + r[s..];
  }

  /** Reversed markers, the first end marker at `e` before the first start
      marker at `s`: the replace panics; the clear panics too unless the end
      marker sits right before the start marker, where the empty drain range
      removes nothing and the unchanged lines are written back. */
  lemma {:induction false} ReversedMarkers(text: string, query: Result<string, Ssid.SsidError>, entries: map<string, string>, s: nat, e: nat)
    requires Position(Lines(text), StartMarker) == Some(s) && Position(Lines(text), EndMarker) == Some(e) && e < s
    ensures ActiveSsid(query) in entries && ActiveValue(query, entries) != "" ==> UpdateHosts(text, query, entries) == Panic
    ensures ActiveSsid(query) !in entries && e + 1 < s ==> UpdateHosts(text, query, entries) == Panic
    ensures ActiveSsid(query) !in entries && e + 1 == s ==> UpdateHosts(text, query, entries) == Write(Join(Lines(text)))
  {
  }

  // ---------------------------------------------------------------------
  // Reading written text back

  /** Reading back joined lines in which one element holds a multi-line
      block gives the block's own lines in its place. */
  lemma {:induction false} LinesAroundBlock(pre: seq<string>, block: string, post: seq<string>)
    requires PlainLines(pre) && PlainLines(Split(block)) && PlainLines(post)
    requires |post| >= 1 && post[|post| - 1] != ""
    ensures Lines(Join(pre + [block] + post)) == pre + Split(block) + post
  {
    var mid := Split(block);
    SpreadBlock(pre, block, post);
    PlainAround(pre, block, post);
    assert (pre + mid + post)[|pre + mid + post| - 1] == post[|post| - 1];
    LinesOfPlain(pre + mid + post);
  }

  /** Joined lines with a block element and a final empty line, read back:
      the block spreads over its lines and the final empty line is gone. */
  lemma {:induction false} BlankReadBack(pre: seq<string>, block: string, post: seq<string>)
    requires PlainLines(pre) && PlainLines(Split(block)) && PlainLines(post)
    ensures Lines(Join(pre + [block] + post + [""])) == pre + Split(block) + post
  {
    var mid := Split(block);
    SpreadBlock(pre, block, post + [""]);
    AppendAssoc(pre + [block], post, [""]);
    AppendAssoc(pre + mid, post, [""]);
    PlainAround(pre, block, post);
    LinesFinalLineFeed(pre + mid + post);
  }

  /** Joining lines with a block element gives the text of the lines with
      the block's pieces in its place. */
  lemma {:induction false} SpreadBlock(pre: seq<string>, block: string, post: seq<string>)
    ensures Join(pre + [block] + post) == Join(pre + Split(block) + post)
  {
    JoinSplit(block);
    JoinFlatten(pre, Split(block), post);
  }

  /** Plain lines around the plain pieces of a block are plain lines. */
  lemma {:induction false} PlainAround(pre: seq<string>, block: string, post: seq<string>)
    requires PlainLines(pre) && PlainLines(Split(block)) && PlainLines(post)
    ensures PlainLines(pre + Split(block) + post)
  {
    PlainConcat(pre, Split(block));
    PlainConcat(pre + Split(block), post);
  }

  /** The lines read from text are plain exactly when none of them ends in
      a carriage return (`str::lines` already removed the line feeds). */
  lemma {:induction false} ReadLinesPlain(text: string)
    ensures PlainLines(Lines(text)) <==> forall i :: 0 <= i < |Lines(text)| ==> !EndsWithCr(Lines(text)[i])
  {
    if PlainLines(Lines(text)) {
      PlainAll(Lines(text));
    } else if forall i :: 0 <= i < |Lines(text)| ==> !EndsWithCr(Lines(text)[i]) {
      PlainFromAll(Lines(text));
    }
  }

  /** Re-running the matched edit on a block that was spread out into
      several lines collapses it back into the one element. */
  lemma {:induction false} MatchedAgain(pre: seq<string>, mid: seq<string>, post: seq<string>, block: string)
    requires |pre| >= 1 && pre[|pre| - 1] == StartMarker && StartMarker !in pre[..|pre| - 1]
    requires EndMarker !in pre && EndMarker !in mid
    requires |post| >= 1 && post[0] == EndMarker
    ensures MatchedLines(pre + mid + post, block) == Some(pre + [block] + post)
  {
    var all := pre + mid + post;
    var s := |pre| - 1;
    var e := |pre| + |mid|;
    assert all[..s] == pre[..s];
    PositionIs(all, StartMarker, s);
    assert all[..e] == pre + mid;
    PositionIs(all, EndMarker, e);
    assert all[..s + 1] == pre;
    assert all[e..] == post;
    ReplaceEdit(all, block, s, e);
  }

  /** No line of the normalised value is the end marker exactly when no
      line of the value trims to it. */
  lemma {:induction false} BlockLinesAvoidEnd(value: string)
    requires value != ""
    ensures EndMarker !in Split(NormalizeValue(value)) <==> forall i :: 0 <= i < |Lines(value)| ==> Trim(Lines(value)[i]) != EndMarker
  {
    if EndMarker in Split(NormalizeValue(value)) {
      var i :| 0 <= i < |Split(NormalizeValue(value))| && Split(NormalizeValue(value))[i] == EndMarker;
      assert Split(NormalizeValue(value))[i] == Trim(Lines(value)[i]);
    }
  }

  /** After a replace, the written lines read back and edited again give the
      same lines. */
  lemma {:induction false} RematchAfterReplace(lines: seq<string>, block: string, s: nat, e: nat)
    requires Position(lines, StartMarker) == Some(s) && Position(lines, EndMarker) == Some(e) && s < e
    requires PlainLines(lines)
    requires lines[|lines| - 1] != ""
    requires EndMarker !in Split(block)
    requires PlainLines(Split(block))
    ensures MatchedLines(Lines(Join(lines[..s + 1] + [block] + lines[e..])), block)
            == Some(lines[..s + 1] + [block] + lines[e..])
  {
    ReplaceReadBack(lines, block, s, e);
    ReplaceMatchedAgain(lines, block, s, e);
  }

  /** The lines of a replace, joined and read back, with the block spread
      over its own lines. */
  lemma {:induction false} ReplaceReadBack(lines: seq<string>, block: string, s: nat, e: nat)
    requires s < e < |lines|
    requires PlainLines(lines)
    requires lines[|lines| - 1] != ""
    requires PlainLines(Split(block))
    ensures Lines(Join(lines[..s + 1] + [block] + lines[e..])) == lines[..s + 1] + Split(block) + lines[e..]
  {
    PlainPrefix(lines, s + 1);
    PlainSuffix(lines, e);
    SliceEnds(lines, e, |lines|);
    assert lines[e..] == lines[e..|lines|];
    LinesAroundBlock(lines[..s + 1], block, lines[e..]);
  }

  /** The replace edit run again on the read-back lines, where the block is
      spread over lines none of which is the end marker, gives the same
      lines. */
  lemma {:induction false} ReplaceMatchedAgain(lines: seq<string>, block: string, s: nat, e: nat)
    requires Position(lines, StartMarker) == Some(s) && Position(lines, EndMarker) == Some(e) && s < e
    requires EndMarker !in Split(block)
    ensures MatchedLines(lines[..s + 1] + Split(block) + lines[e..], block) == Some(lines[..s + 1] + [block] + lines[e..])
  {
    FirstAtEnd(lines, StartMarker, s);
    AbsentBefore(lines, EndMarker, s, e);
    SliceEnds(lines, e, |lines|);
    assert lines[e..] == lines[e..|lines|];
    MatchedAgain(lines[..s + 1], Split(block), lines[e..], block);
  }

  /** Appending a block, and reading the written text back, spreads the
      block over its own lines. */
  lemma {:induction false} AppendReadBack(lines: seq<string>, block: string)
    requires PlainLines(lines)
    requires PlainLines(Split(block))
    ensures Lines(Join(lines + [StartMarker, block, EndMarker])) == lines + [StartMarker] + Split(block) + [EndMarker]
  {
    var pre := lines + [StartMarker];
    assert lines + [StartMarker, block, EndMarker] == pre + [block] + [EndMarker];
    MarkersPlain();
    PlainConcat(lines, [StartMarker]);
    LinesAroundBlock(pre, block, [EndMarker]);
  }

  /** After an append, the written lines read back and edited again give
      the same lines. */
  lemma {:induction false} RematchAfterAppend(lines: seq<string>, block: string)
    requires StartMarker !in lines && EndMarker !in lines
    requires PlainLines(lines)
    requires EndMarker !in Split(block)
    requires PlainLines(Split(block))
    ensures MatchedLines(Lines(Join(lines + [StartMarker, block, EndMarker])), block)
            == Some(lines + [StartMarker, block, EndMarker])
  {
    AppendReadBack(lines, block);
    var pre := lines + [StartMarker];
    assert pre[..|pre| - 1] == lines;
    assert lines + [StartMarker, block, EndMarker] == pre + [block] + [EndMarker];
    assert lines + [StartMarker] + Split(block) + [EndMarker] == pre + Split(block) + [EndMarker];
    MatchedAgain(pre, Split(block), [EndMarker], block);
  }

  // ---------------------------------------------------------------------
  // Idempotence and where it stops

  /** A second tick with the same SSID and value writes nothing, provided
      the markers are in order or absent, no line of the value trims to the
      end marker, no line read ends in a carriage return, and, when a block
      is already present, the text does not end in an empty line. */
  lemma {:induction false} Idempotent(text: string, query: Result<string, Ssid.SsidError>, entries: map<string, string>)
    requires ActiveSsid(query) in entries && ActiveValue(query, entries) != ""
    requires MarkersInOrderOrAbsent(Lines(text))
    requires EndMarker !in Split(NormalizeValue(ActiveValue(query, entries)))
    requires PlainLines(Lines(text))
    requires StartMarker in Lines(text) ==> Lines(text)[|Lines(text)| - 1] != ""
    ensures UpdateHosts(text, query, entries).Write? || UpdateHosts(text, query, entries).NoWrite?
    ensures UpdateHosts(AfterTick(text, UpdateHosts(text, query, entries)), query, entries) == NoWrite
  {
    var edited := StableEdit(Lines(text), NormalizeValue(ActiveValue(query, entries)));
    MatchedTick(text, query, entries, edited);
    MatchedTick(Join(edited), query, entries, edited);
  }

  /** Under the same conditions, the edit of the lines is the edit of the
      written text read back. */
  lemma {:induction false} StableEdit(lines: seq<string>, block: string) returns (edited: seq<string>)
    requires MarkersInOrderOrAbsent(lines)
    requires EndMarker !in Split(block)
    requires PlainLines(Split(block))
    requires PlainLines(lines)
    requires StartMarker in lines ==> lines[|lines| - 1] != ""
    ensures MatchedLines(lines, block) == Some(edited)
    ensures MatchedLines(Lines(Join(edited)), block) == Some(edited)
  {
    if StartMarker in lines && EndMarker in lines {
      var s := Position(lines, StartMarker).value;
      var e := Position(lines, EndMarker).value;
      edited := lines[..s + 1] + [block] + lines[e..];
      ReplaceEdit(lines, block, s, e);
      RematchAfterReplace(lines, block, s, e);
    } else {
      edited := lines + [StartMarker, block, EndMarker];
      AppendEdit(lines, block);
      RematchAfterAppend(lines, block);
    }
  }

  /** A stray end marker with no start marker: the first tick appends a
      block after it, and the next tick finds the end marker before the
      start marker and panics. */
  lemma {:induction false} StrayEndPanicsNextTick(text: string, query: Result<string, Ssid.SsidError>, entries: map<string, string>)
    requires ActiveSsid(query) in entries && ActiveValue(query, entries) != ""
    requires EndMarker in Lines(text) && StartMarker !in Lines(text)
    requires PlainLines(Lines(text))
    ensures UpdateHosts(text, query, entries)
            == Write(Join(Lines(text) + [StartMarker, NormalizeValue(ActiveValue(query, entries)), EndMarker]))
    ensures UpdateHosts(Join(Lines(text) + [StartMarker, NormalizeValue(ActiveValue(query, entries)), EndMarker]), query, entries)
            == Panic
  {
    var lines := Lines(text);
    var block := NormalizeValue(ActiveValue(query, entries));
    var appended := lines + [StartMarker, block, EndMarker];
    AppendEdit(lines, block);
    AppendAfterStrayEnd(lines, block);
    MatchedTick(text, query, entries, appended);
    PanicTick(Join(appended), query, entries);
  }

  /** The lines of a stray-end-marker text after the append, read back: a
      start marker now follows the end marker. */
  lemma {:induction false} AppendAfterStrayEnd(lines: seq<string>, block: string)
    requires EndMarker in lines && StartMarker !in lines
    requires PlainLines(lines)
    requires PlainLines(Split(block))
    ensures Lines(Join(lines + [StartMarker, block, EndMarker])) != lines
    ensures MatchedLines(Lines(Join(lines + [StartMarker, block, EndMarker])), block).None?
  {
    AppendReadBack(lines, block);
    var again := lines + [StartMarker] + Split(block) + [EndMarker];
    assert |again| != |lines|;
    FoundBeforeAppend(lines, StartMarker, Split(block), EndMarker, EndMarker);
    FirstAppended(lines, StartMarker, Split(block), EndMarker);
  }

  /** A stray start marker at `s` with no end marker: the first tick appends
      a block, and the next tick takes the stray start marker and the new
      end marker as one block, dropping every line between them, including
      the appended start marker. */
  lemma {:induction false} StrayStartDropsLines(text: string, query: Result<string, Ssid.SsidError>, entries: map<string, string>, s: nat)
    requires ActiveSsid(query) in entries && ActiveValue(query, entries) != ""
    requires Position(Lines(text), StartMarker) == Some(s) && EndMarker !in Lines(text)
    requires EndMarker !in Split(NormalizeValue(ActiveValue(query, entries)))
    requires PlainLines(Lines(text))
    ensures UpdateHosts(text, query, entries)
            == Write(Join(Lines(text) + [StartMarker, NormalizeValue(ActiveValue(query, entries)), EndMarker]))
    ensures UpdateHosts(Join(Lines(text) + [StartMarker, NormalizeValue(ActiveValue(query, entries)), EndMarker]), query, entries)
            == Write(Join(Lines(text)[..s + 1] + [NormalizeValue(ActiveValue(query, entries)), EndMarker]))
  {
    var lines := Lines(text);
    var block := NormalizeValue(ActiveValue(query, entries));
    var appended := lines + [StartMarker, block, EndMarker];
    var again := lines[..s + 1] + [block, EndMarker];
    AppendEdit(lines, block);
    AppendAfterStrayStart(lines, block, s);
    MatchedTick(text, query, entries, appended);
    MatchedTick(Join(appended), query, entries, again);
  }

  /** The lines of a stray-start-marker text after the append, read back and
      edited again: everything after the stray start marker is replaced. */
  lemma {:induction false} AppendAfterStrayStart(lines: seq<string>, block: string, s: nat)
    requires Position(lines, StartMarker) == Some(s) && EndMarker !in lines
    requires PlainLines(lines)
    requires EndMarker !in Split(block)
    requires PlainLines(Split(block))
    ensures Lines(Join(lines + [StartMarker, block, EndMarker])) != lines
    ensures MatchedLines(Lines(Join(lines + [StartMarker, block, EndMarker])), block)
            == Some(lines[..s + 1] + [block, EndMarker])
    ensures Join(lines[..s + 1] + [block, EndMarker]) != Join(lines + [StartMarker, block, EndMarker])
  {
    var mid := Split(block);
    AppendReadBack(lines, block);
    var again := lines + [StartMarker] + mid + [EndMarker];
    assert |again| != |lines|;
    RematchStrayStart(lines, mid, block, s);
    StrayStartTextsDiffer(lines, block, s);
  }

  /** Keeping the lines through the stray start marker and then the block
      and an end marker gives a text other than the appended one: read
      back, it has fewer lines. */
  lemma {:induction false} StrayStartTextsDiffer(lines: seq<string>, block: string, s: nat)
    requires s < |lines|
    requires PlainLines(lines)
    requires PlainLines(Split(block))
    ensures Join(lines[..s + 1] + [block, EndMarker]) != Join(lines + [StartMarker, block, EndMarker])
  {
    AppendReadBack(lines, block);
    var pre2 := lines[..s + 1];
    PairDisplay(pre2, block, EndMarker);
    MarkersPlain();
    PlainPrefix(lines, s + 1);
    LinesAroundBlock(pre2, block, [EndMarker]);
    assert |Lines(Join(pre2 + [block] + [EndMarker]))| != |Lines(Join(lines + [StartMarker, block, EndMarker]))|;
  }

  /** The second edit after a stray start marker pairs it with the new end
      marker. */
  lemma {:induction false} RematchStrayStart(lines: seq<string>, mid: seq<string>, block: string, s: nat)
    requires Position(lines, StartMarker) == Some(s) && EndMarker !in lines && EndMarker !in mid
    ensures MatchedLines(lines + [StartMarker] + mid + [EndMarker], block) == Some(lines[..s + 1] + [block, EndMarker])
  {
    var pre2 := lines[..s + 1];
    var mid2 := lines[s + 1..] + [StartMarker] + mid;
    Regroup(lines, s + 1, StartMarker, mid, EndMarker);
    assert pre2[..s] == lines[..s];
    MatchedAgain(pre2, mid2, [EndMarker], block);
    PairDisplay(pre2, block, EndMarker);
  }

  /** A text whose last line, after a block, is empty is written again on
      the tick after any first tick: `str::lines` drops the empty last line,
      so the joined result has one line feed fewer than the text it was
      read from. */
  lemma {:induction false} TrailingBlankLineRewrites(text: string, query: Result<string, Ssid.SsidError>, entries: map<string, string>, s: nat, e: nat)
    requires ActiveSsid(query) in entries && ActiveValue(query, entries) != ""
    requires Position(Lines(text), StartMarker) == Some(s) && Position(Lines(text), EndMarker) == Some(e) && s < e
    requires EndMarker !in Split(NormalizeValue(ActiveValue(query, entries)))
    requires PlainLines(Lines(text))
    requires Lines(text)[|Lines(text)| - 1] == ""
    ensures UpdateHosts(AfterTick(text, UpdateHosts(text, query, entries)), query, entries).Write?
  {
    var edited, again := BlankLineEdits(Lines(text), NormalizeValue(ActiveValue(query, entries)), s, e);
    SecondTickWrites(text, query, entries, edited, again);
  }

  /** The two edits of lines ending in an empty line: the first keeps the
      empty line, the second, on the text read back, has lost it. */
  lemma {:induction false} BlankLineEdits(lines: seq<string>, block: string, s: nat, e: nat) returns (edited: seq<string>, again: seq<string>)
    requires Position(lines, StartMarker) == Some(s) && Position(lines, EndMarker) == Some(e) && s < e
    requires PlainLines(lines)
    requires lines[|lines| - 1] == ""
    requires EndMarker !in Split(block)
    requires PlainLines(Split(block))
    ensures MatchedLines(lines, block) == Some(edited)
    ensures MatchedLines(Lines(Join(edited)), block) == Some(again)
    ensures Join(again) != Join(edited)
  {
    edited := lines[..s + 1] + [block] + lines[e..|lines| - 1] + [""];
    again := lines[..s + 1] + [block] + lines[e..|lines| - 1];
    ReplaceBeforeBlankLine(lines, block, s, e);
  }

  /** When the edit of the text read back after a first tick differs from
      that first edit, the second tick writes the second edit. */
  lemma {:induction false} SecondTickWrites(text: string, query: Result<string, Ssid.SsidError>, entries: map<string, string>,
                                            edited: seq<string>, again: seq<string>)
    requires ActiveSsid(query) in entries && ActiveValue(query, entries) != ""
    requires MatchedLines(Lines(text), NormalizeValue(ActiveValue(query, entries))) == Some(edited)
    requires MatchedLines(Lines(Join(edited)), NormalizeValue(ActiveValue(query, entries))) == Some(again)
    requires Join(again) != Join(edited)
    ensures UpdateHosts(AfterTick(text, UpdateHosts(text, query, entries)), query, entries) == Write(Join(again))
  {
    assert Join(edited) != text;
    MatchedTick(text, query, entries, edited);
    MatchedTick(Join(edited), query, entries, again);
  }

  /** The replace on lines ending in an empty line, read back and edited
      again: the empty last line is gone. */
  lemma {:induction false} ReplaceBeforeBlankLine(lines: seq<string>, block: string, s: nat, e: nat)
    requires Position(lines, StartMarker) == Some(s) && Position(lines, EndMarker) == Some(e) && s < e
    requires PlainLines(lines)
    requires lines[|lines| - 1] == ""
    requires EndMarker !in Split(block)
    requires PlainLines(Split(block))
    ensures e < |lines| - 1
    ensures MatchedLines(lines, block) == Some(lines[..s + 1] + [block] + lines[e..|lines| - 1] + [""])
    ensures MatchedLines(Lines(Join(lines[..s + 1] + [block] + lines[e..|lines| - 1] + [""])), block)
            == Some(lines[..s + 1] + [block] + lines[e..|lines| - 1])
    ensures Join(lines[..s + 1] + [block] + lines[e..|lines| - 1])
            != Join(lines[..s + 1] + [block] + lines[e..|lines| - 1] + [""])
  {
    assert e < |lines| - 1 by {
      assert lines[e] != lines[|lines| - 1];
    }
    BlankReadBackOf(lines, block, s, e);
    BlankMatchedAgain(lines, block, s, e);
    JoinAppend(lines[..s + 1] + [block] + lines[e..|lines| - 1], [""]);
    BlankTailEdit(lines, block, s, e);
  }

  /** The replace on lines ending in an empty line keeps that empty line
      last, after the end marker. */
  lemma {:induction false} BlankTailEdit(lines: seq<string>, block: string, s: nat, e: nat)
    requires Position(lines, StartMarker) == Some(s) && Position(lines, EndMarker) == Some(e) && s < e < |lines| - 1
    requires lines[|lines| - 1] == ""
    ensures MatchedLines(lines, block) == Some(lines[..s + 1] + [block] + lines[e..|lines| - 1] + [""])
  {
    ReplaceEdit(lines, block, s, e);
    ReplaceDropLast(lines, s, e, block);
  }

  /** The replace edit run again on the read-back lines of a replace whose
      final empty line is gone gives the same lines without it. */
  lemma {:induction false} BlankMatchedAgain(lines: seq<string>, block: string, s: nat, e: nat)
    requires Position(lines, StartMarker) == Some(s) && Position(lines, EndMarker) == Some(e) && s < e < |lines| - 1
    requires EndMarker !in Split(block)
    ensures MatchedLines(lines[..s + 1] + Split(block) + lines[e..|lines| - 1], block)
            == Some(lines[..s + 1] + [block] + lines[e..|lines| - 1])
  {
    FirstAtEnd(lines, StartMarker, s);
    AbsentBefore(lines, EndMarker, s, e);
    SliceEnds(lines, e, |lines| - 1);
    MatchedAgain(lines[..s + 1], Split(block), lines[e..|lines| - 1], block);
  }

  /** The lines around the block of a replace, with the final empty line
      split off, read back. */
  lemma {:induction false} BlankReadBackOf(lines: seq<string>, block: string, s: nat, e: nat)
    requires s < e < |lines| - 1
    requires PlainLines(lines)
    requires PlainLines(Split(block))
    ensures Lines(Join(lines[..s + 1] + [block] + lines[e..|lines| - 1] + [""]))
            == lines[..s + 1] + Split(block) + lines[e..|lines| - 1]
  {
    var pre := lines[..s + 1];
    var post := lines[e..|lines| - 1];
    PlainPrefix(lines, s + 1);
    PlainSlice(lines, e, |lines| - 1);
    BlankReadBack(pre, block, post);
  }

  /** A one-line text ending in a carriage return is written again on the
      second tick: the first tick appends a block after it, and reading the
      written text back takes the carriage return off, now that a line feed
      follows it. */
  lemma {:induction false} CarriageReturnLineRewrites(line: string, query: Result<string, Ssid.SsidError>, entries: map<string, string>)
    requires ActiveSsid(query) in entries && ActiveValue(query, entries) != ""
    requires EndMarker !in Split(NormalizeValue(ActiveValue(query, entries)))
    requires LF !in line && EndsWithCr(line)
    requires StripCr(line) != StartMarker && StripCr(line) != EndMarker
    ensures UpdateHosts(line, query, entries)
            == Write(Join([line, StartMarker, NormalizeValue(ActiveValue(query, entries)), EndMarker]))
    ensures UpdateHosts(Join([line, StartMarker, NormalizeValue(ActiveValue(query, entries)), EndMarker]), query, entries)
            == Write(Join([StripCr(line), StartMarker, NormalizeValue(ActiveValue(query, entries)), EndMarker]))
  {
    var block := NormalizeValue(ActiveValue(query, entries));
    var first := [line, StartMarker, block, EndMarker];
    var second := [StripCr(line), StartMarker, block, EndMarker];
    CrLineFirstEdit(line, block);
    MatchedTick(line, query, entries, first);
    CrLineSecondEdit(line, block);
    MatchedTick(Join(first), query, entries, second);
  }

  /** The first edit of a one-line text ending in a carriage return appends
      a block, and the joined result is a different text. */
  lemma {:induction false} CrLineFirstEdit(line: string, block: string)
    requires LF !in line && EndsWithCr(line)
    ensures MatchedLines(Lines(line), block) == Some([line, StartMarker, block, EndMarker])
    ensures Join([line, StartMarker, block, EndMarker]) != line
  {
    SplitSingleLine(line);
    assert Lines(line) == [line];
    MarkersPlain();
    assert line != StartMarker && line != EndMarker;
    AppendEdit([line], block);
    assert [line] + [StartMarker, block, EndMarker] == [line, StartMarker, block, EndMarker];
    assert Join([line, StartMarker, block, EndMarker]) == line + [LF] + Join([StartMarker, block, EndMarker]);
  }

  /** Read back, the appended text has lost the carriage return, and the
      edit of the read-back lines differs from the first one in its text. */
  lemma {:induction false} CrLineSecondEdit(line: string, block: string)
    requires LF !in line && EndsWithCr(line)
    requires StripCr(line) != StartMarker && StripCr(line) != EndMarker
    requires EndMarker !in Split(block)
    requires PlainLines(Split(block))
    ensures MatchedLines(Lines(Join([line, StartMarker, block, EndMarker])), block)
            == Some([StripCr(line), StartMarker, block, EndMarker])
    ensures Join([StripCr(line), StartMarker, block, EndMarker]) != Join([line, StartMarker, block, EndMarker])
  {
    CrLineReadBack(line, block);
    MatchedAfterLine(StripCr(line), Split(block), block);
    var tail := [StartMarker, block, EndMarker];
    JoinCons(line, tail);
    JoinCons(StripCr(line), tail);
    assert [line] + tail == [line, StartMarker, block, EndMarker];
    assert [StripCr(line)] + tail == [StripCr(line), StartMarker, block, EndMarker];
  }

  /** A line that is not a marker, a start marker, middle lines with no end
      marker and an end marker make the replace edit put the block between
      the markers. */
  lemma {:induction false} MatchedAfterLine(x: string, mid: seq<string>, block: string)
    requires x != StartMarker && x != EndMarker
    requires EndMarker !in mid
    ensures MatchedLines([x, StartMarker] + mid + [EndMarker], block) == Some([x, StartMarker, block, EndMarker])
  {
    var pre := [x, StartMarker];
    assert pre[..|pre| - 1] == [x];
    MatchedAgain(pre, mid, [EndMarker], block);
    assert pre + [block] + [EndMarker] == [x, StartMarker, block, EndMarker];
  }

  /** The text of a carriage-return-ended line followed by a block reads
      back with the carriage return gone and the block spread over its own
      lines. */
  lemma {:induction false} CrLineReadBack(line: string, block: string)
    requires LF !in line
    requires PlainLines(Split(block))
    ensures Lines(Join([line, StartMarker, block, EndMarker]))
            == [StripCr(line), StartMarker] + Split(block) + [EndMarker]
  {
    var tail := [StartMarker, block, EndMarker];
    JoinCons(line, tail);
    assert [line] + tail == [line, StartMarker, block, EndMarker];
    LinesAfterLine(line, Join(tail));
    BlockReadBack(block);
    ConsAround(StripCr(line), StartMarker, Split(block), EndMarker);
  }

  /** A block between the markers, alone in a text, reads back as the
      markers around the block's own lines. */
  lemma {:induction false} BlockReadBack(block: string)
    requires PlainLines(Split(block))
    ensures Lines(Join([StartMarker, block, EndMarker])) == [StartMarker] + Split(block) + [EndMarker]
  {
    AppendReadBack([], block);
    assert [] + [StartMarker, block, EndMarker] == [StartMarker, block, EndMarker];
    assert [] + [StartMarker] + Split(block) + [EndMarker] == [StartMarker] + Split(block) + [EndMarker];
  }

  /** One more element in front of an element, a sequence and an element. */
  lemma {:induction false} ConsAround<T>(x: T, a: T, ys: seq<T>, b: T)
    ensures [x] + ([a] + ys + [b]) == [x, a] + ys + [b]
  {
  }

  /** A value with a line that trims to the end marker makes the file grow
      on every tick: after the first tick appends the block, reading it back
      finds the end marker inside the value, so the next edit keeps the rest
      of the value's lines and the appended end marker after the block. */
  lemma {:induction false} EndMarkerInValueGrows(text: string, query: Result<string, Ssid.SsidError>, entries: map<string, string>)
    requires ActiveSsid(query) in entries && ActiveValue(query, entries) != ""
    requires StartMarker !in Lines(text) && EndMarker !in Lines(text)
    requires PlainLines(Lines(text))
    requires EndMarker in Split(NormalizeValue(ActiveValue(query, entries)))
    ensures UpdateHosts(text, query, entries)
            == Write(Join(Lines(text) + [StartMarker, NormalizeValue(ActiveValue(query, entries)), EndMarker]))
    ensures var o := UpdateHosts(Join(Lines(text) + [StartMarker, NormalizeValue(ActiveValue(query, entries)), EndMarker]), query, entries);
            o.Write? && |o.text| > |Join(Lines(text) + [StartMarker, NormalizeValue(ActiveValue(query, entries)), EndMarker])|
  {
    var lines := Lines(text);
    var block := NormalizeValue(ActiveValue(query, entries));
    var appended := lines + [StartMarker, block, EndMarker];
    AppendEdit(lines, block);
    AppendedTextDiffers(lines, block, text);
    MatchedTick(text, query, entries, appended);
    var again := EndMarkerReedit(lines, block);
    MatchedTick(Join(appended), query, entries, again);
  }

  /** Appending a block gives a text other than the one the lines were read
      from, since the start marker is now among its lines. */
  lemma {:induction false} AppendedTextDiffers(lines: seq<string>, block: string, text: string)
    requires lines == Lines(text) && StartMarker !in lines
    requires PlainLines(lines) && PlainLines(Split(block))
    ensures Join(lines + [StartMarker, block, EndMarker]) != text
  {
    AppendReadBack(lines, block);
    assert (lines + [StartMarker] + Split(block) + [EndMarker])[|lines|] == StartMarker;
  }

  /** The edit of the appended text read back, when the end marker is among
      the value's lines: the block is followed by the value's lines from
      that end marker on and the appended end marker, a longer text. */
  lemma {:induction false} EndMarkerReedit(lines: seq<string>, block: string) returns (again: seq<string>)
    requires StartMarker !in lines && EndMarker !in lines
    requires PlainLines(lines) && PlainLines(Split(block))
    requires EndMarker in Split(block)
    ensures MatchedLines(Lines(Join(lines + [StartMarker, block, EndMarker])), block) == Some(again)
    ensures |Join(again)| > |Join(lines + [StartMarker, block, EndMarker])|
  {
    AppendReadBack(lines, block);
    var mid := Split(block);
    var k := EndMarkerEdit(lines, mid, block);
    again := lines + [StartMarker, block] + (mid[k..] + [EndMarker]);
    GrownAppend(lines, block, mid[k..]);
  }

  /** Lines between the block and the end marker make the joined text longer. */
  lemma {:induction false} GrownAppend(lines: seq<string>, block: string, rest: seq<string>)
    requires |rest| >= 1
    ensures |Join(lines + [StartMarker, block] + (rest + [EndMarker]))| > |Join(lines + [StartMarker, block, EndMarker])|
  {
    assert lines + [StartMarker, block, EndMarker] == lines + [StartMarker, block] + [EndMarker];
    GrownJoin(lines + [StartMarker, block], rest, EndMarker);
  }

  /** With the end marker at `k` among the middle lines, the edit keeps the
      middle lines from `k` on after the block. */
  lemma {:induction false} EndMarkerEdit(lines: seq<string>, mid: seq<string>, block: string) returns (k: nat)
    requires StartMarker !in lines && EndMarker !in lines
    requires EndMarker in mid
    ensures k < |mid|
    ensures MatchedLines(lines + [StartMarker] + mid + [EndMarker], block)
            == Some(lines + [StartMarker, block] + (mid[k..] + [EndMarker]))
  {
    var read := lines + [StartMarker] + mid + [EndMarker];
    k := MarkersAround(lines, mid);
    var s, e := |lines|, |lines| + 1 + k;
    ReplaceEdit(read, block, s, e);
    SpliceAround(lines, StartMarker, mid, EndMarker, block, k);
  }

  /** Where the markers are found in the appended text read back, when the
      end marker is also among the middle lines. */
  lemma {:induction false} MarkersAround(lines: seq<string>, mid: seq<string>) returns (k: nat)
    requires StartMarker !in lines && EndMarker !in lines
    requires EndMarker in mid
    ensures k < |mid|
    ensures Position(lines + [StartMarker] + mid + [EndMarker], StartMarker) == Some(|lines|)
    ensures Position(lines + [StartMarker] + mid + [EndMarker], EndMarker) == Some(|lines| + 1 + k)
  {
    k := Position(mid, EndMarker).value;
    FirstAppended(lines, StartMarker, mid, EndMarker);
    FoundInMiddle(lines, StartMarker, mid, EndMarker, EndMarker, k);
  }

  /** Joining more lines before a last one gives a longer text. */
  lemma {:induction false} GrownJoin(xs: seq<string>, ys: seq<string>, z: string)
    requires |xs| >= 1 && |ys| >= 1
    ensures |Join(xs + (ys + [z]))| > |Join(xs + [z])|
  {
    JoinAppend(xs, ys + [z]);
    JoinAppend(ys, [z]);
    JoinAppend(xs, [z]);
  }

  /** An element first found inside the middle part of an append is found
      there, past the part before it and the one element in between. */
  lemma {:induction false} FoundInMiddle<T>(xs: seq<T>, a: T, ys: seq<T>, b: T, x: T, k: nat)
    requires x !in xs && x != a && Position(ys, x) == Some(k)
    ensures Position(xs + [a] + ys + [b], x) == Some(|xs| + 1 + k)
  {
    var zs := xs + [a] + ys + [b];
    var i := |xs| + 1 + k;
    assert zs[..i] == xs + [a] + ys[..k];
    PositionIs(zs, x, i);
  }

  /** Keeping an append up to its middle part, then `v`, then the middle
      part from `k` on. */
  lemma {:induction false} SpliceAround<T>(xs: seq<T>, a: T, ys: seq<T>, b: T, v: T, k: nat)
    requires k < |ys|
    ensures var zs := xs + [a] + ys + [b];
            zs[..|xs| + 1] + [v] + zs[|xs| + 1 + k..] == xs + [a, v] + (ys[k..] + [b])
  {
    var zs := xs + [a] + ys + [b];
    assert zs[..|xs| + 1] == xs + [a];
    assert zs[|xs| + 1 + k..] == ys[k..] + [b];
  }

  /** A replace edit whose suffix is split before its last element. */
  lemma {:induction false} ReplaceDropLast<T>(xs: seq<T>, s: nat, e: nat, b: T)
    requires s < e < |xs|
    ensures xs[..s + 1] + [b] + xs[e..] == xs[..s + 1] + [b] + xs[e..|xs| - 1] + [xs[|xs| - 1]]
  {
    assert xs[e..] == xs[e..|xs| - 1] + [xs[|xs| - 1]];
  }

  /** The lines up to and including the first `a` end in it and hold no
      other `a`. */
  lemma {:induction false} FirstAtEnd<T>(xs: seq<T>, a: T, s: nat)
    requires Position(xs, a) == Some(s)
    ensures |xs[..s + 1]| == s + 1 && xs[..s + 1][s] == a && a !in xs[..s + 1][..s]
  {
    assert xs[..s + 1][..s] == xs[..s];
  }

  /** No `b` comes before its first occurrence. */
  lemma {:induction false} AbsentBefore<T>(xs: seq<T>, b: T, s: nat, e: nat)
    requires Position(xs, b) == Some(e) && s < e
    ensures b !in xs[..s + 1]
  {
    assert xs[..s + 1] == xs[..e][..s + 1];
  }

  /** The first and last elements of a slice. */
  lemma {:induction false} SliceEnds<T>(xs: seq<T>, e: nat, k: nat)
    requires e < k <= |xs|
    ensures |xs[e..k]| >= 1 && xs[e..k][0] == xs[e] && xs[e..k][|xs[e..k]| - 1] == xs[k - 1]
  {
  }

  /** Concatenation is associative. */
  lemma {:induction false} AppendAssoc<T>(xs: seq<T>, ys: seq<T>, zs: seq<T>)
    ensures xs + (ys + zs) == xs + ys + zs
  {
  }

  /** An element already in `xs` is found where it was after more is
      appended. */
  lemma {:induction false} FoundBeforeAppend<T>(xs: seq<T>, a: T, ys: seq<T>, b: T, x: T)
    requires x in xs
    ensures Position(xs + [a] + ys + [b], x) == Position(xs, x)
  {
    var i := Position(xs, x).value;
    assert (xs + [a] + ys + [b])[..i] == xs[..i];
    PositionIs(xs + [a] + ys + [b], x, i);
  }

  /** An element not in `xs` and appended right after it is first found
      there. */
  lemma {:induction false} FirstAppended<T>(xs: seq<T>, a: T, ys: seq<T>, b: T)
    requires a !in xs
    ensures Position(xs + [a] + ys + [b], a) == Some(|xs|)
  {
    assert (xs + [a] + ys + [b])[..|xs|] == xs;
    PositionIs(xs + [a] + ys + [b], a, |xs|);
  }

  /** Cutting out one element and putting `v` in its place is an update. */
  lemma {:induction false} SpliceOne<T>(xs: seq<T>, i: nat, v: T)
    requires i < |xs|
    ensures xs[..i] + [v] + xs[i + 1..] == xs[i := v]
  {
  }

  /** A two-element display appended is two one-element ones. */
  lemma {:induction false} PairDisplay<T>(xs: seq<T>, a: T, b: T)
    ensures xs + [a, b] == xs + [a] + [b]
  {
  }

  /** Moving a cut point through a concatenation. */
  lemma {:induction false} Regroup<T>(xs: seq<T>, k: nat, a: T, ys: seq<T>, b: T)
    requires k <= |xs|
    ensures xs + [a] + ys + [b] == xs[..k] + (xs[k..] + [a] + ys) + [b]
  {
    assert xs == xs[..k] + xs[k..];
  }

  // ---------------------------------------------------------------------
  // Worked scenarios

  /** A value of one line that trimming leaves alone is its own normal form. */
  lemma {:induction false} NormalizeTrimmedLine(value: string)
    requires value != "" && LF !in value && Trim(value) == value
    ensures NormalizeValue(value) == value
  {
    SplitSingleLine(value);
    CountAbsent(value, LF);
    JoinSplit(NormalizeValue(value));
  }

  /** `1.1.1.1 x`, the value of the worked scenarios, is its own normal
      form: it is one line and starts and ends in visible characters. */
  lemma {:induction false} ScenarioValueNormal()
    ensures NormalizeValue("1.1.1.1 x") == "1.1.1.1 x"
  {
    var v := "1.1.1.1 x";
    VisibleAsciiNotWhitespace(v[0]);
    VisibleAsciiNotWhitespace(v[|v| - 1]);
    TrimUnchanged(v);
    NormalizeTrimmedLine(v);
  }

  /** The five-line document `a`, start marker, `content`, end marker, `b`. */
  function Document(content: string): seq<string> {
    ["a", StartMarker, content, EndMarker, "b"]
  }

  /** A document whose block holds one plain line that is not a marker reads
      back from its text as itself, with its markers at lines 1 and 3. */
  lemma {:induction false} DocumentLines(content: string)
    requires PlainLines([content]) && content != StartMarker && content != EndMarker
    ensures Lines(Join(Document(content))) == Document(content)
    ensures Position(Document(content), StartMarker) == Some(1)
    ensures Position(Document(content), EndMarker) == Some(3)
  {
    var doc := Document(content);
    MarkersPlain();
    assert ["a"][1..] == [];
    PlainConcat(["a"], [StartMarker]);
    PlainConcat(["a", StartMarker], [content]);
    PlainConcat(["a", StartMarker, content], [EndMarker]);
    assert ["b"][1..] == [];
    PlainConcat(["a", StartMarker, content, EndMarker], ["b"]);
    assert ["a", StartMarker, content, EndMarker] + ["b"] == doc;
    LinesOfPlain(doc);
    PositionIs(doc, StartMarker, 1);
    PositionIs(doc, EndMarker, 3);
  }

  /** Both scenario documents are made of plain lines. */
  lemma {:induction false} ScenarioContentsPlain()
    ensures PlainLines(["old"]) && PlainLines(["1.1.1.1 x"])
  {
    assert ["old"][1..] == [] && ["1.1.1.1 x"][1..] == [];
  }

  /** The replace edit on the document puts the new content in the block,
      and the text changes with it. */
  lemma {:induction false} DocumentEdit(previous: string, value: string)
    requires Position(Document(previous), StartMarker) == Some(1)
    requires Position(Document(previous), EndMarker) == Some(3)
    requires value != previous
    ensures MatchedLines(Document(previous), value) == Some(Document(value))
  {
    var doc := Document(previous);
    ReplaceEdit(doc, value, 1, 3);
    SpliceOne(doc, 2, value);
    assert doc[2 := value] == Document(value);
  }

  /** Documents with different block contents have different texts. */
  lemma {:induction false} DocumentTextsDiffer(previous: string, value: string)
    requires Lines(Join(Document(previous))) == Document(previous)
    requires Lines(Join(Document(value))) == Document(value)
    requires value != previous
    ensures Join(Document(value)) != Join(Document(previous))
  {
    assert Document(value)[2] != Document(previous)[2];
  }

  /** In the document, a matching SSID whose value is one plain, trimmed
      line replaces the block's content with it and the file is written. */
  lemma {:induction false} ReplaceInDocument(ssid: string, previous: string, value: string)
    requires PlainLines([previous]) && previous != StartMarker && previous != EndMarker
    requires PlainLines([value]) && value != StartMarker && value != EndMarker
    requires value != "" && value != previous && NormalizeValue(value) == value
    ensures UpdateHosts(Join(Document(previous)), Ok(ssid), map[ssid := value]) == Write(Join(Document(value)))
  {
    DocumentLines(previous);
    DocumentLines(value);
    DocumentEdit(previous, value);
    DocumentTextsDiffer(previous, value);
    MatchedTick(Join(Document(previous)), Ok(ssid), map[ssid := value], Document(value));
  }

  /** The block holding `old` gets `1.1.1.1 x` for the SSID `home`. */
  lemma {:induction false} ScenarioReplace()
    ensures UpdateHosts(Join(Document("old")), Ok("home"), map["home" := "1.1.1.1 x"])
            == Write(Join(Document("1.1.1.1 x")))
  {
    ScenarioContentsPlain();
    ScenarioValueNormal();
    ReplaceInDocument("home", "old", "1.1.1.1 x");
  }

  /** An entry whose value is the end marker line itself, on an empty file:
      the first tick writes a start marker and two end markers, and every
      later tick writes a longer file. */
  lemma {:induction false} ScenarioEndMarkerValue(ssid: string)
    ensures UpdateHosts("", Ok(ssid), map[ssid := EndMarker]) == Write(Join([StartMarker, EndMarker, EndMarker]))
    ensures var o := UpdateHosts(Join([StartMarker, EndMarker, EndMarker]), Ok(ssid), map[ssid := EndMarker]);
            o.Write? && |o.text| > |Join([StartMarker, EndMarker, EndMarker])|
  {
    EndMarkerNormal();
    LinesEmpty();
    EmptyAppend([StartMarker, EndMarker, EndMarker]);
    EndMarkerInValueGrows("", Ok(ssid), map[ssid := EndMarker]);
  }

  /** Nothing in front of a sequence leaves it as it is. */
  lemma {:induction false} EmptyAppend<T>(xs: seq<T>)
    ensures [] + xs == xs
  {
  }

  /** The end marker line is its own normal form and its own single piece. */
  lemma {:induction false} EndMarkerNormal()
    ensures NormalizeValue(EndMarker) == EndMarker
    ensures Split(EndMarker) == [EndMarker]
  {
    MarkersPlain();
    var v := EndMarker;
    VisibleAsciiNotWhitespace(v[0]);
    VisibleAsciiNotWhitespace(v[|v| - 1]);
    TrimUnchanged(v);
    NormalizeTrimmedLine(v);
    SplitSingleLine(v);
  }

  /** No block and no entry: nothing is written. */
  lemma {:induction false} ScenarioNothingToDo()
    ensures UpdateHosts(Join(["a", "b"]), Ok("home"), map[]) == NoWrite
  {
    LinesJoin(["a", "b"]);
  }

  /** In the document, an SSID with no entry removes the block, markers
      included, and the file is written. */
  lemma {:induction false} ClearInDocument(ssid: string, previous: string)
    requires PlainLines([previous]) && previous != StartMarker && previous != EndMarker
    ensures UpdateHosts(Join(Document(previous)), Ok(ssid), map[]) == Write(Join(["a", "b"]))
  {
    var doc := Document(previous);
    DocumentLines(previous);
    ClearShape(Join(doc), Ok(ssid), map[], 1, 3);
    assert doc[..1] + doc[4..] == ["a", "b"];
  }

  /** A block present and no entry: the block is removed entirely. */
  lemma {:induction false} ScenarioClear()
    ensures UpdateHosts(Join(Document("old")), Ok("home"), map[]) == Write(Join(["a", "b"]))
  {
    ScenarioContentsPlain();
    ClearInDocument("home", "old");
  }
}
