/** The state behind the window: the pattern being typed, the filter in use
    (the last pattern that compiled), whether the typed pattern compiles, and
    the loaded records; with the actions that change it and the preview of
    one record. Whether a pattern compiles is the regex library's answer and
    is a parameter here; a compiled regex is identified with its source. */
module App {
  import opened Results
  import opened Text
  import opened Subtitles
  import opened Loader
  import opened Filter
  import opened Export
  import opened SaveLoad

  /** `compiles(p)` answers whether `Regex::new(p)` succeeds. */
  type Compiler = string -> bool

  /** `regex_string`, `regex_filter`, `regex_valid`, `loaded_subtitles`. */
  datatype State = State(pattern: string, filter: string, valid: bool, subtitles: seq<Subtitle>)

  /** The pattern the application starts with: an optional dash, then a
      bracketed or a ♪-delimited passage, with the surrounding whitespace. */
  const DefaultPattern: string := @"\s*(?:-\s*)?(?:\[[\S\s]*\]|♪.*♪)\s*"

  /** What every reachable state satisfies: the filter in use compiled, the
      flag says whether the typed pattern compiles, and when it does the
      filter is that pattern. */
  predicate Consistent(s: State, compiles: Compiler) {
    && compiles(s.filter)
    && (s.valid <==> compiles(s.pattern))
    && (s.valid ==> s.filter == s.pattern)
  }

  /** `MyEguiApp::new`: the default pattern compiled with `unwrap`, so there
      is no application when it does not compile. */
  function New(compiles: Compiler): (s: Option<State>)
    ensures s.Some? <==> compiles(DefaultPattern)
    ensures s.Some? ==> s.value.pattern == DefaultPattern && s.value.filter == DefaultPattern
    ensures s.Some? ==> Consistent(s.value, compiles) && s.value.valid && s.value.subtitles == []
  {
    if compiles(DefaultPattern) then Some(State(DefaultPattern, DefaultPattern, true, [])) else None
  }

  /** The pattern field changed to `text`: a pattern that compiles becomes the
      filter; one that does not only clears the flag, and the previous filter
      stays in use. */
  function Edit(s: State, text: string, compiles: Compiler): (r: State)
    ensures r.pattern == text && r.subtitles == s.subtitles
    ensures Consistent(s, compiles) ==> Consistent(r, compiles)
  {
    if compiles(text) then s.(pattern := text, filter := text, valid := true)
    else s.(pattern := text, valid := false)
  }

  /** A sequence of edits, in the order they were typed. */
  function Edits(s: State, texts: seq<string>, compiles: Compiler): State {
    if |texts| == 0 then s
    else Edit(Edits(s, texts[..|texts| - 1], compiles), texts[|texts| - 1], compiles)
  }

  /** The last of `texts` that compiles, if any. */
  function LastCompiling(texts: seq<string>, compiles: Compiler): (p: Option<string>)
    ensures p.Some? <==> exists i :: 0 <= i < |texts| && compiles(texts[i])
    ensures p.Some? ==> compiles(p.value) && p.value in texts
    ensures p.Some? ==>
              exists i :: 0 <= i < |texts| && texts[i] == p.value && forall j :: i < j < |texts| ==> !compiles(texts[j])
  {
    if |texts| == 0 then None
    else if compiles(texts[|texts| - 1]) then Some(texts[|texts| - 1])
    else
      var p := LastCompiling(texts[..|texts| - 1], compiles);
      assert forall i :: 0 <= i < |texts| - 1 ==> texts[..|texts| - 1][i] == texts[i];
      p
  }

  /** After any edits, the filter in use is the last typed pattern that
      compiled (or the one before the edits if none did), the flag says
      whether the last typed pattern compiles, and the records are untouched. */
  lemma {:induction false} EditsKeepLastCompiling(s: State, texts: seq<string>, compiles: Compiler)
    ensures Edits(s, texts, compiles).filter
              == (match LastCompiling(texts, compiles) case Some(p) => p case None => s.filter)
    ensures |texts| > 0 ==> Edits(s, texts, compiles).valid == compiles(texts[|texts| - 1])
    ensures Edits(s, texts, compiles).subtitles == s.subtitles
    decreases |texts|
  {
    if |texts| > 0 {
      EditsKeepLastCompiling(s, texts[..|texts| - 1], compiles);
    }
  }

  /** `add_enabled(self.regex_valid && (self.loaded_subtitles.len() > 0), ...)`. */
  predicate SaveEnabled(s: State) {
    s.valid && |s.subtitles| > 0
  }

  /** Save is available right after an edit exactly when the new pattern
      compiles and records are loaded. */
  lemma EditEnablesSave(s: State, text: string, compiles: Compiler)
    ensures SaveEnabled(Edit(s, text, compiles)) <==> compiles(text) && |s.subtitles| > 0
  {
  }

  /** Loading a file replaces the records and leaves the pattern alone; a file
      the loader rejects ends the application. */
  function Load(s: State, lines: seq<string>): (r: Result<State, LoadError>)
    ensures r.Ok? <==> LoadSubtitles(lines).Ok?
    ensures r.Ok? ==> r.value.subtitles == LoadSubtitles(lines).value
    ensures r.Ok? ==> r.value.(subtitles := s.subtitles) == s
  {
    var subs :- LoadSubtitles(lines);
    Ok(s.(subtitles := subs))
  }

  /** Loading keeps the state consistent, and enables Save when the pattern
      compiles and the file holds a record. */
  lemma LoadKeepsConsistent(s: State, lines: seq<string>, compiles: Compiler)
    requires Consistent(s, compiles) && Load(s, lines).Ok?
    ensures Consistent(Load(s, lines).value, compiles)
    ensures SaveEnabled(Load(s, lines).value) <==> s.valid && CountBlank(lines) > 0
  {
    OneRecordPerBlankLine(lines);
  }

  /** The "Save file" button: nothing while it is disabled, else the export
      text; what it writes loads back as the records that survive the filter,
      numbered from 1, provided each of them can be written faithfully. */
  method Save(s: State, matches: seq<seq<Match>>) returns (out: Option<string>)
    requires MatchedAll(s.subtitles, matches)
    ensures out.Some? <==> SaveEnabled(s)
    ensures out.Some? ==> out.value == Render(Survivors(s.subtitles, FilteredTexts(s.subtitles, matches), |s.subtitles|))
    ensures var kept := Survivors(s.subtitles, FilteredTexts(s.subtitles, matches), |s.subtitles|);
            out.Some? && |kept| < U16_LIMIT && (forall k :: 0 <= k < |kept| ==> Reloadable(kept[k])) ==>
              LoadSubtitles(Lines(out.value)) == Ok(Renumber(kept))
  {
    if !SaveEnabled(s) {
      return None;
    }
    var text := ExportText(s.subtitles, matches);
    var kept := Survivors(s.subtitles, FilteredTexts(s.subtitles, matches), |s.subtitles|);
    if |kept| < U16_LIMIT && forall k :: 0 <= k < |kept| ==> Reloadable(kept[k]) {
      SavedFileReloads(s.subtitles, matches);
    }
    out := Some(text);
  }

  // ---------------------------------------------------------------------------
  // The preview of one record.

  /** How one record is framed: the plain text while the pattern is invalid,
      a red-filled frame when everything would be filtered out, otherwise the
      marked-up pieces with a grey or a red border. */
  datatype Frame = Plain | Dropped | GreyBorder | RedBorder

  /** The preview as written: the border is red when the pointer returned by
      `format_filtered_text` (the end of the last match) is not 0. */
  function PreviewAsWritten(valid: bool, text: string, ms: seq<Match>): Frame
    requires WellFormed(ms, |text|)
  {
    if !valid then Plain
    else if RemoveMatches(text, ms) == "" then Dropped
    else if GapStart(ms, |ms|) == 0 then GreyBorder
    else RedBorder
  }

  /** A regex that matches the empty string at every position (`x*` on
      `ab`: matches at 0, 1 and 2) removes nothing, yet the pointer ends at 2
      and the border is red. */
  lemma EmptyMatchesMarkedRed()
    ensures var ms := [Match(0, 0), Match(1, 1), Match(2, 2)];
            && WellFormed(ms, 2)
            && RemoveMatches("ab", ms) == "ab"
            && PreviewAsWritten(true, "ab", ms) == RedBorder
  {
    var ms := [Match(0, 0), Match(1, 1), Match(2, 2)];
    assert WellFormed(ms, 2);
    RemovalChangesText("ab", ms);
    assert !HasRemoval(ms);
  }

  /** The preview as intended: red exactly when something is cut out. */
  function Preview(valid: bool, text: string, ms: seq<Match>): Frame
    requires WellFormed(ms, |text|)
  {
    if !valid then Plain
    else if RemoveMatches(text, ms) == "" then Dropped
    else if HasRemoval(ms) then RedBorder
    else GreyBorder
  }

  /** The intended preview's frames, in terms of the filtered text alone. */
  lemma PreviewFrames(valid: bool, text: string, ms: seq<Match>)
    requires WellFormed(ms, |text|)
    ensures Preview(valid, text, ms) == Plain <==> !valid
    ensures Preview(valid, text, ms) == Dropped <==> valid && RemoveMatches(text, ms) == ""
    ensures Preview(valid, text, ms) == RedBorder <==>
              valid && RemoveMatches(text, ms) != "" && RemoveMatches(text, ms) != text
    ensures Preview(valid, text, ms) == GreyBorder <==>
              valid && RemoveMatches(text, ms) != "" && RemoveMatches(text, ms) == text
  {
    RemovalChangesText(text, ms);
  }

  /** A zero pointer is never wrong: every match then ends at 0, so none
      removes anything. */
  lemma ZeroPointerRemovesNothing(text: string, ms: seq<Match>)
    requires WellFormed(ms, |text|) && GapStart(ms, |ms|) == 0
    ensures !HasRemoval(ms)
  {
    if |ms| > 0 {
      forall i | 0 <= i < |ms| ensures ms[i].end == 0 {
        if i < |ms| - 1 {
          Ordered(ms, |text|, i, |ms| - 1);
        }
      }
    }
  }

  /** Without empty matches the written preview and the intended one agree. */
  lemma PreviewAgreesWithoutEmptyMatches(valid: bool, text: string, ms: seq<Match>)
    requires WellFormed(ms, |text|)
    requires forall i :: 0 <= i < |ms| ==> ms[i].start < ms[i].end
    ensures PreviewAsWritten(valid, text, ms) == Preview(valid, text, ms)
  {
    if |ms| > 0 {
      assert ms[|ms| - 1].start < ms[|ms| - 1].end;
    }
  }
}
