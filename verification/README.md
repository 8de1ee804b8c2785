# Subtitle filter: a Dafny model

This project models the core of a small subtitle-filtering application. The
application loads a SubRip-style file of numbered, time-coded records. It shows
each record's text with the parts a user-typed regular expression would remove
marked in red, and saves a new file without those parts. Records whose text
disappears entirely are dropped, and the survivors are renumbered 1, 2, 3, ...

The model covers:

- time codes: `MovieTime::from_str` and `MovieTime::to_string` (`MovieTimes`),
  with unsigned parsing and zero-padded printing (`Numerals`);
- one record built from the three buffers, with the failure order of the
  source's panics (`Subtitles`);
- the loader: the three-buffer state machine over the lines of a file and
  the stable sort by index (`Loader`, `IndexSort`);
- `format_filtered_text` and `replace_all(text, "")` over an abstract list of
  regex matches (`Filter`);
- the export loop that filters, drops and renumbers records and prints the
  blocks (`Export`);
- reading a saved file back (`SaveLoad`);
- the window's state: typing a pattern, loading a file, enabling Save, and the
  border of a record's preview (`App`).

The regex engine is a foreign library. A match list is a given sequence of
`(start, end)` ranges, each within the text, in increasing order and not
overlapping (`Filter.WellFormed`). Whether a pattern compiles is a given
function `compiles: string -> bool`. Every panic of the source (`unwrap`,
`expect`, an index out of bounds) is a failure result (`Option`/`Result`).
Strings are sequences of characters. Offsets are character offsets, which
equal the source's byte offsets for ASCII text.

Modules, in dependency order: `Results`, `Numerals`, `Text`, `MovieTimes`,
`Subtitles`, `IndexSort`, `Loader`, `Filter`, `Export`, `SaveLoad`, `App`.

Facts about the code that the model follows:

- There is no encoding fallback. The file is read as UTF-8 and the program
  panics otherwise (src/subs.rs:43).
- The timing line is split on ` --> `. Only the first two fields are read, and
  any further fields are ignored (`Subtitles.ExtraFieldsIgnored`).
- `format_filtered_text` returns the end offset of the last match, not a flag
  (src/main.rs:213). The preview compares that offset with 0. See "## Findings".
- `MovieTimes.RoundTrip` proves `FromStr(ToString(t)) == Some(t)` exactly when
  `t` is below 100 hours. `MovieTimes.CanonicalRoundTrip` proves that a
  canonical `HH:MM:SS,mmm` text is printed back unchanged.
- Indices are `u16`. An index numeral of 65536 or more fails the load like a
  non-numeric one.

## Model

| member | source | states |
|---|---|---|
| Numerals.ParseUnsigned | src/subs.rs:10-13 | `parse::<uN>()` succeeds exactly when the text after one optional leading `+` is a non-empty run of digits whose value is below the type's limit, and then yields that value |
| Numerals.ParsePadNum | src/subs.rs:25 | parsing a number printed with `{:0w}` padding gives the number back, whatever the width |
| MovieTimes.FromStr | src/subs.rs:8-15 | succeeds exactly when the text has at least 12 characters and the slices [9..12], [6..8], [3..5], [0..2] all parse; the result is `ms + 1000*(s + 60*(m + 60*h))` and never exceeds 99:99:99,999, so it cannot overflow 32 bits |
| MovieTimes.ToClock | src/subs.rs:18-24 | the four printed fields recompose the milliseconds, minutes/seconds/millis are in range, and the hour field is below 100 exactly when the time is below 100 hours |
| MovieTimes.ToString | src/subs.rs:17-26 | the text is at least 12 characters, and exactly 12 when the time is below 100 hours |
| MovieTimes.RoundTrip | src/subs.rs:8-26 | reading a printed time gives it back exactly when it is below 100 hours; from 100 hours on the read fails |
| MovieTimes.CanonicalRoundTrip | src/subs.rs:8-26 | a canonical `HH:MM:SS,mmm` text (minutes and seconds below 60) is read and printed back unchanged |
| MovieTimes.ClockUnique | src/subs.rs:18-24 | the clock fields of a time are the only in-range fields that recompose it |
| Subtitles.MakeSubtitle | src/subs.rs:58-66 | fails with BadIndex exactly when the index does not parse; with BadTime exactly when the index parses and the start time, or the stop time after a ` --> `, does not; with MissingArrow exactly when the index and start time parse and there is no ` --> `; otherwise succeeds with those values |
| Subtitles.ExtraFieldsIgnored | src/subs.rs:58-64 | when the timing line contains ` --> `, cutting it after its second field builds the same record or the same error |
| Text.Split | src/subs.rs:58 | `split` gives at least one piece, two or more exactly when the separator occurs, the first cut at the leftmost occurrence, pieces free of the separator, and joining them gives the text back |
| Text.SplitLeftmost | src/subs.rs:58 | every cut of `split` is at the leftmost occurrence of the separator in what remains, so each piece, field 1 of the timing line included, ends where `str::split` ends it |
| Text.LinesOfJoin | src/subs.rs:45 | `lines()` of newline-terminated lines without newlines or trailing carriage returns gives those lines back |
| Loader.Step | src/subs.rs:46-70 | a non-blank line fills the index buffer, else the timing buffer, else joins the text with a newline; a blank line emits the record the buffers describe and empties them, or fails as MakeSubtitle fails |
| Loader.LoadSubtitles | src/subs.rs:37-75 | fails exactly when the loop fails, with the same error; otherwise the result is a stable sort by index of the emitted records and a permutation of them |
| Loader.OneRecordPerBlankLine | src/subs.rs:57-70 | a successful load has exactly one record per blank line |
| Loader.TrailingLinesIgnored | src/subs.rs:45-71 | lines after the last blank line never reach the result, since nothing is flushed after the loop |
| Loader.EmptyRecordFails | src/subs.rs:57-62 | a blank line at the start of the file or after another blank line makes the load fail |
| Loader.RunNoBlank | src/subs.rs:46-56 | non-blank lines never emit a record and never fail |
| IndexSort.SortByIndex | src/subs.rs:72 | the result is sorted by index, keeps every index's records in their file order, and is a permutation of the input |
| IndexSort.StableSortUnique | src/subs.rs:72 | a stable sort by index has exactly one outcome, so the insertion sort agrees with the merge sort `sort_by` uses |
| Filter.FormatFilteredText | src/main.rs:194-214 | the loop appends, per match, the gap before it as kept and the match as removed, then a final kept remainder: 2·matches+1 pieces; the pointer is the end of the last match or 0; the pieces concatenate to the text; the kept pieces concatenate to the `replace_all` result |
| Filter.RemoveMatchesUncovered | src/main.rs:166 | `replace_all(text, "")` is exactly the characters that no match covers, in order |
| Filter.RemovedLength | src/main.rs:166 | the filtered text is shorter by the total length of the matches |
| Filter.RemovalChangesText | src/main.rs:166 | filtering changes the text exactly when some match is non-empty |
| Export.Survivors | src/main.rs:165-167 | the records kept from the first n all have non-empty filtered texts, and there are at most n of them |
| Export.Origins | src/main.rs:165-167 | the kept records' positions are increasing and are exactly the positions whose filtered text is non-empty |
| Export.SurvivorsFromOrigins | src/main.rs:165-168 | the k-th kept record is the record at the k-th kept position, with its times unchanged and its text filtered |
| Export.ExportText | src/main.rs:164-171 | the loop writes the kept records' blocks, numbered 1, 2, 3, ... in loaded order with no gaps |
| Export.NoSurvivors | src/main.rs:166-167 | nothing is written exactly when every record's text filters away entirely |
| Export.EmptyExport | src/main.rs:164-171 | the export writes nothing exactly when every record's text filters away entirely |
| Export.NoRemovalKeepsAll | src/main.rs:166-167 | when every record's text is non-empty, a pattern that removes nothing keeps all records unchanged |
| SaveLoad.MakeBlock | src/main.rs:168 | the number line, timing line and text of a written block build back the record, with the new number as its index, for any text, whenever both times are below 100 hours |
| SaveLoad.ExportReloads | src/main.rs:164-171 | the lines of an export load back as the written records numbered 1, 2, 3, ..., provided each time is below 100 hours, no text line is blank or ends in a carriage return, and there are fewer than 65536 records |
| SaveLoad.SavedFileReloads | src/main.rs:164-171 | what the export loop writes for loaded records loads back as the surviving records, renumbered, with their filtered texts and original times, provided the survivors are fewer than 65536 and each can be written faithfully, as for `SaveLoad.ExportReloads` |
| App.New | src/main.rs:29-31 | the application starts with the default pattern in force and valid, and no records; it does not start if that pattern does not compile |
| App.Edit | src/main.rs:148-156 | an edit keeps the state consistent: the filter in force always compiled, the flag tells whether the typed pattern compiles, and a valid pattern is the filter in force |
| App.EditsKeepLastCompiling | src/main.rs:148-156 | after any sequence of edits the filter in force is the last typed pattern that compiled (or the earlier one if none did) and the flag reflects the last edit |
| App.EditEnablesSave | src/main.rs:160 | right after an edit, Save is enabled exactly when the new pattern compiles and records are loaded |
| App.Load | src/main.rs:39-44 | loading succeeds exactly when the loader does, replaces the records with the loaded ones and changes nothing else |
| App.LoadKeepsConsistent | src/main.rs:39-44 | loading keeps the state consistent and enables Save exactly when the pattern is valid and the file has a blank line |
| App.Save | src/main.rs:160-171 | nothing is written while Save is disabled; otherwise the export text is written, and it loads back as the renumbered survivors when they can be written faithfully |
| App.EmptyMatchesMarkedRed | src/main.rs:86-95 | the preview as written (`App.PreviewAsWritten`, border chosen by the pointer) frames a record in red though nothing is removed from it |
| App.ZeroPointerRemovesNothing | src/main.rs:89 | a zero pointer is never wrong: no match then removes anything |
| App.PreviewAgreesWithoutEmptyMatches | src/main.rs:86-95 | without empty matches the preview as written (`App.PreviewAsWritten`) and the corrected one (`App.Preview`) agree |
| App.PreviewFrames | src/main.rs:69-102 | in the corrected preview (`App.Preview`, border chosen by whether a match is non-empty): plain while the pattern is invalid, red fill when the text filters away entirely, red border exactly when filtering changes the text, grey border exactly when it does not |

## Left out

- File reading and writing, file dialogs, drag and drop and `println!` are
  I/O. The loader takes the file's lines; the export produces the text it
  would write.
- The window's rendering is left out: colours, strikethrough, layout and the
  scroll area. Only the kind of each piece, kept or removed, and the frame
  kind of each preview are kept.
- The regex engine is foreign code. Its matches and the answer to whether a
  pattern compiles are parameters.
- Decoding is left out. The source reads UTF-8 only and panics otherwise.
  Slicing a string off a character boundary also panics; offsets are
  characters here.
- `Text.Lines` models `str::lines()` only for what the round trip needs: split
  on `\n`, strip a `\r` before a newline, and no line after a final newline.
  Rust versions differ on a lone `\r` at the very end; the round trip never
  produces one.
- The export counter is an `i32` in the source. Its overflow after 2^31 records
  is not modelled.
- Export idempotence is not claimed. Removing matches can join text into new
  matches, and the source promises nothing here.
- SaveLoad.ExportReloads: the round trip is proved only for records that can be
  written faithfully, as described in its row. A time of 100 hours or more is
  printed with a wide hour field that `from_str` rejects. A blank text line
  would end the record early, and a trailing carriage return is stripped when
  lines are read.
- SaveLoad.SavedFileReloads: proved under the same conditions as
  SaveLoad.ExportReloads, for the same reasons.

## Findings

| source | as written | input that shows it | evidently intended | confidence | as-written member | corrected member |
|---|---|---|---|---|---|---|
| src/main.rs:89 | the preview border is grey only when the returned pointer is 0, that is, when no match ends after offset 0 | a pattern that matches the empty string, such as `x*` on the text `ab`: matches (0,0), (1,1), (2,2), nothing removed, pointer 2, red border | red border exactly when the filter removes something | not executed | App.EmptyMatchesMarkedRed | App.PreviewFrames |

`App.PreviewAsWritten` is the frame choice as written. `App.Preview` is the
corrected choice: it tests for a non-empty match (`Filter.HasRemoval`), which
`Filter.RemovalChangesText` shows is the same as "the filtered text differs
from the original".
