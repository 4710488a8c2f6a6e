# hosts-updater: the managed-block edit, in Dafny

hosts-updater keeps a block of lines in the system hosts file in step with
the wireless network the machine is connected to. Every tick it asks for the
current SSID and looks it up in an SSID-to-value table. If the SSID has an
entry, the lines between the marker lines `#===[[ AUTO HOSTS UPDATER START`
and `#===[[ AUTO HOSTS UPDATER END` are replaced by that entry's value, or
a new marked block is appended. If it has no entry, the block is cut out.

The model covers one tick of `update_hosts` and the text side of `get_ssid`.
Both are pure functions of their inputs.

- `Hosts.UpdateHosts(text, query, entries)` returns an `Outcome`:
  - `Skip`: the entry is the empty string;
  - `NoWrite`: the file is left as it is;
  - `Write(text)`: the file is overwritten;
  - `Panic`: `Vec::drain` was given a reversed range.
- `Ssid.GetSsid(status, stdout)` is the SSID query once the interface-listing
  command has run. Its result, ok or error, is the `query` that `UpdateHosts`
  takes.

Modules:

- `Wrappers`: `Option` and `Result`.
- `Text`:
  - Rust's `str::lines`: split at line feeds, drop one carriage return before each line feed, drop an empty last piece.
  - `join("\n")`.
  - `str::trim` over the Unicode White_Space characters.
  - `Iterator::position`.
  - How these undo each other.
- `Ssid`:
  - `"\r\n"` replaced by `"\n"`;
  - a hand-written matcher for the regular expression `(?m)^\ +?SSID\ +?:\ +?(?<ssid>.*?)$`;
  - the leftmost-first search over the output lines;
  - the two errors.
- `Hosts`:
  - marker search;
  - value normalisation;
  - the replace, append and clear edits, with their panics;
  - the write-only-on-change rule;
  - the tick itself.
- `HostsProperties`:
  - which entry is used;
  - the edit shapes;
  - reading written text back;
  - idempotence, with the exact conditions it needs and counterexample lemmas where it stops;
  - worked scenarios.

Some behaviours of the code that a reader might not expect:

- **Whitespace-only values.** Only a value that is exactly the empty string is skipped (src/main.rs:60). A value of whitespace only is normalised to empty lines and written into the block (`Hosts.WhitespaceValueNormalizes`).
- **Reversed markers are not "no block".** With the first end marker before the first start marker:
  - the replace path's `drain(start + 1..end)` panics;
  - the clear path's `drain(start..=end)` panics, except when the end marker sits directly before the start marker. That range is empty, so nothing is removed and the unchanged lines are written back (`HostsProperties.ReversedMarkers`).
- **Idempotence has conditions.** A second tick with the same SSID and value writes nothing when all of these hold (`HostsProperties.Idempotent`):
  - the markers are in order or both absent;
  - no line of the value trims to the end marker;
  - no line ends in a carriage return;
  - when a block exists, the text does not end in an empty line.

  These conditions are sufficient, not necessary. For example, a line ending in a carriage return does no harm when it is inside a block that gets replaced. Each condition has a lemma with a text that breaks only that condition and is written again, or panics, on the second tick:
  - `StrayEndPanicsNextTick`: a stray end marker leads to a panic on the second tick.
  - `StrayStartDropsLines`: a stray start marker makes the second tick drop lines.
  - `EndMarkerInValueGrows`: a value line that trims to the end marker makes the text longer on every tick.
  - `CarriageReturnLineRewrites`: a line ending in a carriage return loses it on the second tick, which writes again.
  - `TrailingBlankLineRewrites`: a trailing empty line is written twice.

## Model

| member | source | states |
|---|---|---|
| Text.Split | src/main.rs:52 | the pieces between line feeds number one more than the line feeds, and none holds a line feed |
| Text.JoinSplit | src/main.rs:80 | joining the pieces between line feeds with `"\n"` gives the text back |
| Text.SplitJoin | src/main.rs:69 | cutting at line feeds text joined from line-feed-free pieces gives the pieces back |
| Text.LinesOf | src/main.rs:52 | `str::lines` gives one line per piece between line feeds, one fewer when the last piece is empty |
| Text.Lines | src/main.rs:52 | no line produced by `str::lines` holds a line feed |
| Text.LinesOfAt | src/main.rs:52 | each line is its piece; every piece but the last, which a line feed ended, loses one final carriage return, and the last piece keeps it |
| Text.LinesEmpty | src/main.rs:52 | the empty text has no lines |
| Text.LinesAfterLine | src/main.rs:52 | a first line ended by a line feed reads back without one final carriage return, ahead of the lines of the rest |
| Text.JoinAppend | src/main.rs:80 | `join("\n")` of two non-empty lists is the two joins with one line feed between them |
| Text.JoinCons | src/main.rs:80 | `join("\n")` puts one line feed after the first piece and then joins the rest |
| Text.LinesNonEmpty | src/main.rs:52 | non-empty text has at least one line |
| Text.LinesJoin | src/main.rs:52 | `lines()` undoes `join("\n")` on plain lines whose last line is not empty |
| Text.JoinLines | src/main.rs:80 | `join("\n")` undoes `lines()` on text with no carriage return that does not end in a line feed |
| Text.LinesFinalLineFeed | src/main.rs:52 | plain lines followed by an empty line read back without the empty line |
| Text.LinesOfPlain | src/main.rs:52 | plain lines whose last line is not empty read back as themselves |
| Text.VisibleAsciiNotWhitespace | src/main.rs:67 | the visible ASCII characters are not whitespace for `trim` |
| Text.Trim | src/main.rs:67 | the trimmed text is no longer than the text and neither starts nor ends in whitespace |
| Text.TrimInfix | src/main.rs:67 | the trimmed text is the infix left after removing the leading and the trailing whitespace runs |
| Text.TrimUnchanged | src/main.rs:67 | trimming leaves text alone exactly when it neither starts nor ends in whitespace, and trimming twice is trimming once |
| Text.TrimSingleLine | src/main.rs:67 | trimming a line gives a line free of line feeds that does not end in a carriage return |
| Text.Position | src/main.rs:53-54 | the first index holding the element, `None` exactly when it is absent |
| Text.PositionIs | src/main.rs:53-54 | an index holding the element with no earlier occurrence is the position found |
| Ssid.GetSsid | src/wifi/info.rs:15-29 | a failed command gives the error with its exit code, or -1; a successful command gives either an SSID or the "Couldn't get SSID." error; the SSID is the capture of the first matching output line, and that error occurs exactly when no line matches |
| Ssid.ReplaceCrlf | src/wifi/info.rs:23 | replacing `"\r\n"` keeps every line feed, never lengthens the text, and leaves text with no carriage return unchanged |
| Ssid.MatchLine | src/wifi/info.rs:24 | a capture is a suffix of the line, at least six characters shorter than it (see `MatchLineSound` and `MatchLineComplete` for the exact form) |
| Ssid.ExtractSsid | src/wifi/info.rs:23-25 | nothing is found exactly when no output line matches; otherwise the result is the capture of a matching line with no matching line before it |
| Ssid.ReplaceCrlfDropsCrBeforeLf | src/wifi/info.rs:23 | replacing `"\r\n"` removes exactly the carriage returns that a line feed follows |
| Ssid.ReplaceCrlfPieces | src/wifi/info.rs:23 | the lines seen by the pattern are the raw pieces with one carriage return before each line feed removed |
| Ssid.SpacesFrom | src/wifi/info.rs:24 | the run of spaces from an index ends at the first non-space |
| Ssid.MatchLineSound | src/wifi/info.rs:24 | every capture comes from a line of the form spaces, `SSID`, spaces, `: `, value |
| Ssid.MatchLineComplete | src/wifi/info.rs:24 | every line of that form is matched and captures exactly its value |
| Ssid.FirstSome | src/wifi/info.rs:25 | the search returns the first matching line: no earlier line matches |
| Ssid.GetSsidSound | src/wifi/info.rs:24-29 | a successful query's SSID is the value of a line of the accepted form |
| Ssid.ExtractFromCrlfLine | src/wifi/info.rs:23-29 | a matching line ended by `"\r\n"` yields its value without the carriage return |
| Ssid.ExtractFromLastLine | src/wifi/info.rs:23-29 | a one-line output with no line break, matching and ending in a carriage return, keeps that carriage return in the value |
| Ssid.OnlySpacesBeforeKey | src/wifi/info.rs:24 | a line whose first non-space characters are not `SSID` never matches |
| Ssid.BssidLinesDoNotMatch | src/wifi/info.rs:24 | `BSSID` and `AP BSSID` lines never match, however indented |
| Ssid.ValueKeepsSpaces | src/wifi/info.rs:24 | spaces after the first one following the colon, and trailing spaces, belong to the value |
| Ssid.EmptyValue | src/wifi/info.rs:24 | `SSID : ` with one trailing space gives the empty SSID |
| Hosts.MarkersPlain | src/main.rs:19-20 | the marker lines hold no line feed and do not end in a carriage return |
| Hosts.NormalizeValue | src/main.rs:65-69 | cut at line feeds, the normalised value is exactly the value's lines, each trimmed |
| Hosts.TrimmedPieces | src/main.rs:65-69 | trimmed lines joined with `"\n"` and cut again come back unchanged and plain |
| Hosts.WhitespaceValueNormalizes | src/main.rs:60-69 | a whitespace-only value is not skipped: it normalises to empty lines, and a one-line one to `""` |
| Hosts.LinesAllWhitespace | src/main.rs:66 | the lines of whitespace-only text are whitespace only |
| Hosts.TrimAllWhitespace | src/main.rs:67 | trimming whitespace-only text leaves nothing |
| Hosts.MatchedLines | src/main.rs:71-78 | a panic happens exactly for reversed markers. With both markers in order, the prefix through the start marker and the suffix from the end marker are kept and the value is one element between them, with both markers still found there. With a marker missing, the lines are an unchanged prefix followed by start marker, value and end marker |
| Hosts.ReplacedMarkers | src/main.rs:72-73 | after the replace, the first start marker is where it was and the first end marker follows the value |
| Hosts.ClearedLines | src/main.rs:96-97 | a panic happens exactly when the start marker is more than one line after the end marker. With the markers in order, the lines before the start marker and after the end marker are kept and close up. With the end marker directly before the start marker, nothing is removed |
| Hosts.WriteIfChanged | src/main.rs:80-86 | a write happens exactly when the joined lines differ from the raw text read, and it writes them |
| Hosts.UpdateHosts | src/main.rs:36-111 | `Skip` exactly when the active SSID's value is `""`; a panic only with reversed markers; a matched write always changes the text; no entry and no block means no write |
| Hosts.ActiveSsid | src/main.rs:37 | the SSID used is the query's SSID, or `""` when the query failed |
| HostsProperties.FailedQueryIsDisconnected | src/main.rs:37 | a failed SSID query behaves exactly like the SSID `""`, which can itself have an entry |
| HostsProperties.FailedCommandIsDisconnected | src/wifi/info.rs:15-21 | a failing command makes the tick work with the SSID `""` |
| HostsProperties.OnlyActiveEntryMatters | src/main.rs:56-57 | only the entry whose key equals the SSID affects the tick |
| HostsProperties.MatchedTick | src/main.rs:80-86 | with a value and an edit that does not panic, the tick writes the edited lines exactly when their join differs from the text |
| HostsProperties.PanicTick | src/main.rs:72 | with a value and reversed markers, the tick panics |
| HostsProperties.ReplaceShape | src/main.rs:71-73 | with markers in order, the tick writes `L[..start+1] + [value] + L[end..]` if that changes the text |
| HostsProperties.ReplaceEdit | src/main.rs:72-73 | the replace edit is `L[..start+1] + [block] + L[end..]` |
| HostsProperties.AppendShape | src/main.rs:74-78 | with a marker missing, even if the other is present, the tick writes `L + [START, value, END]` if that changes the text |
| HostsProperties.AppendEdit | src/main.rs:75-77 | the append edit is `L + [START, block, END]` |
| HostsProperties.ClearShape | src/main.rs:95-98 | with no entry and markers in order, `L[..start] + L[end+1..]` is written, whether or not the text changes |
| HostsProperties.ClearEdit | src/main.rs:97 | the clear edit is `L[..start] + L[end+1..]` |
| HostsProperties.ReversedMarkers | src/main.rs:71-97 | with reversed markers, a matched value panics; with no entry, the tick panics unless the end marker is directly before the start marker, and then it writes the lines back unchanged |
| HostsProperties.LinesAroundBlock | src/main.rs:52 | lines around a multi-line element, joined and read back, give that element's own lines in its place |
| HostsProperties.BlankReadBack | src/main.rs:52 | the same with an empty last line after them, which is lost on reading back |
| HostsProperties.ReadLinesPlain | src/main.rs:52 | the lines read are plain exactly when none ends in a carriage return |
| HostsProperties.BlockLinesAvoidEnd | src/main.rs:65-69 | no line of the normalised value is the end marker exactly when no line of the value trims to it |
| HostsProperties.MatchedAgain | src/main.rs:71-73 | a replace run again on a block spread over several lines collapses it back into one element |
| HostsProperties.ReplaceReadBack | src/main.rs:52 | the text written by a replace reads back with the value spread over its own lines |
| HostsProperties.ReplaceMatchedAgain | src/main.rs:71-73 | the replace run on those read-back lines gives the lines written before |
| HostsProperties.RematchAfterReplace | src/main.rs:52-80 | after a replace, the written text read back and edited again gives the same lines |
| HostsProperties.AppendReadBack | src/main.rs:52 | the text written by an append reads back with the value spread over its own lines |
| HostsProperties.RematchAfterAppend | src/main.rs:52-80 | after an append, the written text read back and edited again gives the same lines |
| HostsProperties.Idempotent | src/main.rs:52-86 | under its four conditions, the first tick writes or does nothing and a second tick writes nothing |
| HostsProperties.StableEdit | src/main.rs:52-80 | under those conditions, the edit of the written text read back is the first edit again |
| HostsProperties.StrayEndPanicsNextTick | src/main.rs:53-78 | with only a stray end marker, the first tick appends a block and the second one panics |
| HostsProperties.AppendAfterStrayEnd | src/main.rs:53-78 | after that append, the read-back lines differ from the original lines and the edit panics |
| HostsProperties.StrayStartDropsLines | src/main.rs:53-78 | with only a stray start marker, the first tick appends a block, and the second one pairs the stray marker with the new end marker and drops every line in between, the appended start marker included |
| HostsProperties.AppendAfterStrayStart | src/main.rs:53-78 | after that append, the second edit drops every line after the stray start marker and changes the text |
| HostsProperties.RematchStrayStart | src/main.rs:71-73 | that second edit pairs the stray start marker with the appended end marker |
| HostsProperties.StrayStartTextsDiffer | src/main.rs:80-82 | that second edit gives a text other than the appended one |
| HostsProperties.TrailingBlankLineRewrites | src/main.rs:52-86 | a text that has a block and ends in an empty line is written again on the second tick |
| HostsProperties.BlankLineEdits | src/main.rs:52-80 | on lines ending in an empty line, the first edit keeps the empty line, and the edit of the read-back text lost it, so it changes the text |
| HostsProperties.CarriageReturnLineRewrites | src/main.rs:52-86 | a one-line text ending in a carriage return is written with a block on the first tick, and written again without the carriage return on the second |
| HostsProperties.CrLineFirstEdit | src/main.rs:74-78 | that first edit appends the block and changes the text |
| HostsProperties.CrLineReadBack | src/main.rs:52 | the written text reads back with the carriage return gone and the block spread over its own lines |
| HostsProperties.BlockReadBack | src/main.rs:52 | a block between the markers, alone in a text, reads back as the markers around the block's own lines |
| HostsProperties.CrLineSecondEdit | src/main.rs:71-82 | the edit of those read-back lines has the line without its carriage return, and a different text |
| HostsProperties.MatchedAfterLine | src/main.rs:71-73 | a line, the start marker, block lines and the end marker are edited into the line, the start marker, the block and the end marker |
| HostsProperties.EndMarkerInValueGrows | src/main.rs:52-86 | with no block and a value line that trims to the end marker, the first tick appends the block and the second writes a strictly longer text |
| HostsProperties.AppendedTextDiffers | src/main.rs:80-82 | an appended block always changes a text with no start marker |
| HostsProperties.EndMarkerReedit | src/main.rs:52-82 | the edit of that appended text read back is a longer text |
| HostsProperties.EndMarkerEdit | src/main.rs:71-73 | the replace pairs the start marker with the end marker inside the value and keeps the value's lines after it and the appended end marker |
| HostsProperties.MarkersAround | src/main.rs:53-54 | in that read-back text, the first start marker is the appended one and the first end marker is the one inside the value |
| HostsProperties.SecondTickWrites | src/main.rs:80-86 | when the edit of the read-back text differs from the first edit, the second tick writes it |
| HostsProperties.ReplaceBeforeBlankLine | src/main.rs:52-80 | the replace before an empty last line, read back and edited again, loses the empty line and one line feed |
| HostsProperties.BlankTailEdit | src/main.rs:72-73 | the replace on lines ending in an empty line keeps that empty line last |
| HostsProperties.BlankMatchedAgain | src/main.rs:71-73 | the replace run on the read-back lines collapses the spread value again |
| HostsProperties.BlankReadBackOf | src/main.rs:52 | the text written by that replace reads back without its empty last line |
| HostsProperties.NormalizeTrimmedLine | src/main.rs:65-69 | a one-line value that trimming leaves alone is its own normal form |
| HostsProperties.ScenarioValueNormal | src/main.rs:65-69 | `1.1.1.1 x` is its own normal form |
| HostsProperties.DocumentLines | src/main.rs:52-54 | the five-line document reads back as itself, with its markers at lines 1 and 3 |
| HostsProperties.DocumentEdit | src/main.rs:72-73 | the replace on the document puts the new content between the markers |
| HostsProperties.DocumentTextsDiffer | src/main.rs:82 | documents with different block contents have different texts |
| HostsProperties.ReplaceInDocument | src/main.rs:56-86 | in the document, a matching SSID with a one-line trimmed value replaces the block content and writes |
| HostsProperties.ScenarioReplace | src/main.rs:56-86 | `a`, START, `old`, END, `b` with `home` mapped to `1.1.1.1 x` is written as `a`, START, `1.1.1.1 x`, END, `b` |
| HostsProperties.ScenarioEndMarkerValue | src/main.rs:52-86 | an empty file with the end marker line as the value gets a start marker and two end markers, and the next tick writes a longer file |
| HostsProperties.EndMarkerNormal | src/main.rs:65-69 | the end marker line is its own normal form and its own single piece |
| HostsProperties.ScenarioNothingToDo | src/main.rs:95-110 | `a`, `b` with no entry is not written |
| HostsProperties.ClearInDocument | src/main.rs:95-98 | in the document, an SSID with no entry removes the block, markers included |
| HostsProperties.ScenarioClear | src/main.rs:95-98 | `a`, START, `old`, END, `b` with no entry is written as `a`, `b` |

## Left out

- Configuration loading through the `config` crate (src/main.rs:39-44). It is a library call. The SSID table is the parameter `entries`.
- `Value::to_string` (src/main.rs:58). It is a library call. Every value is taken to be the string itself.
- The hosts path existence check, the read, UTF-8 decoding and the writes (src/main.rs:46-50, 86, 98). These are I/O. A write is the `Write` outcome, and a failure of any of them is outside the model.
- Creating the default configuration (src/main.rs:171-173). This is I/O.
- Logging (src/main.rs:61, 87-90, 100-107, 113-117, 120-128). It is a side effect only.
- Command-line dispatch and auto-launch registration (src/main.rs:130-169). These are operating-system integration.
- The scheduler and its sleep loop (src/main.rs:177-188). They are timing and concurrency. A sequence of ticks is stated with `AfterTick`.
- Running `netsh`, decoding its output as UTF-8, and the non-Windows `unimplemented!` (src/wifi/info.rs:10-13, 23, 33-34). These are operating-system calls. The exit status and the decoded text are parameters of `GetSsid`.
- Compiling the regular expression (src/wifi/info.rs:24). Its `?` cannot fail for this fixed pattern, so it is not modelled.
- `HashMap` iteration order (src/main.rs:56). Keys are unique, so the order cannot change which entry matches. The table is a `map`.
- `Panic` is an outcome of the tick. The unwinding and the scheduler's handling of it are not modelled.
- Whitespace for `trim` is the fixed table of Unicode White_Space ranges. No other Unicode data is modelled.
