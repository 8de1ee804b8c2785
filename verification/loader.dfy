/** `subs::load_subtitles` without the file read: a fold of a three-buffer
    state machine over the lines of the file, then a stable sort by index. */
module Loader {
  import opened Results
  import opened Numerals
  import opened Subtitles
  import opened IndexSort

  /** The buffers `index_buffer`, `timming_buffer`, `text_buffer` and the
      records pushed so far. */
  datatype Scan = Scan(index: string, timing: string, text: string, emitted: seq<Subtitle>)

  const Start := Scan("", "", "", [])

  /** One iteration of the loop. A non-blank line goes to the first empty of
      the index and timing buffers, else it is appended to the text with a
      newline in between; a blank line turns the buffers into a record and
      empties them. */
  function Step(st: Scan, line: string): (r: Result<Scan, LoadError>)
    ensures line != "" ==> r.Ok? && r.value.emitted == st.emitted
    ensures line != "" && st.index == "" ==> r.value == st.(index := line)
    ensures line != "" && st.index != "" && st.timing == "" ==> r.value == st.(timing := line)
    ensures line != "" && st.index != "" && st.timing != "" ==>
              r.value == st.(text := if st.text == "" then line else st.text + "\n" + line)
    ensures line == "" ==> (r.Ok? <==> MakeSubtitle(st.index, st.timing, st.text).Ok?)
    ensures line == "" && r.Err? ==> r.error == MakeSubtitle(st.index, st.timing, st.text).error
    ensures line == "" && r.Ok? ==>
              r.value == Scan("", "", "", st.emitted + [MakeSubtitle(st.index, st.timing, st.text).value])
  {
    if line != "" then
      if st.index == "" then Ok(st.(index := line))
      else if st.timing == "" then Ok(st.(timing := line))
      else Ok(st.(text := (if |st.text| > 0 then st.text + "\n" else "") + line))
    else
      var sub :- MakeSubtitle(st.index, st.timing, st.text);
      Ok(Scan("", "", "", st.emitted + [sub]))
  }

  /** The `for line in contents.lines()` loop; the first failing record stops it. */
  function Run(st: Scan, lines: seq<string>): Result<Scan, LoadError>
    decreases |lines|
  {
    if |lines| == 0 then Ok(st)
    else
      var next :- Step(st, lines[0]);
      Run(next, lines[1..])
  }

  /** The records the loop pushes, in file order. */
  function Emit(lines: seq<string>): Result<seq<Subtitle>, LoadError> {
    var st :- Run(Start, lines);
    Ok(st.emitted)
  }

  /** `load_subtitles`: the emitted records stable-sorted by index. */
  function LoadSubtitles(lines: seq<string>): (r: Result<seq<Subtitle>, LoadError>)
    ensures r.Ok? <==> Emit(lines).Ok?
    ensures r.Err? ==> r.error == Emit(lines).error
    ensures r.Ok? ==> StableSortOf(r.value, Emit(lines).value)
    ensures r.Ok? ==> multiset(r.value) == multiset(Emit(lines).value)
  {
    var recs :- Emit(lines);
    Ok(SortByIndex(recs))
  }

  /** The number of blank lines. */
  function CountBlank(lines: seq<string>): nat {
    if |lines| == 0 then 0 else (if lines[0] == "" then 1 else 0) + CountBlank(lines[1..])
  }

  predicate NoBlank(lines: seq<string>) {
    forall i :: 0 <= i < |lines| ==> lines[i] != ""
  }

  /** Running over `a + b` is running over `a`, then over `b`. */
  lemma {:induction false} RunAppend(st: Scan, a: seq<string>, b: seq<string>)
    ensures Run(st, a + b) == (match Run(st, a) case Err(e) => Err(e) case Ok(m) => Run(m, b))
    decreases |a|
  {
    if |a| == 0 {
      assert a + b == b;
    } else {
      assert (a + b)[0] == a[0];
      assert (a + b)[1..] == a[1..] + b;
      var r := Step(st, a[0]);
      if r.Ok? {
        assert Run(st, a + b) == Run(r.value, a[1..] + b);
        assert Run(st, a) == Run(r.value, a[1..]);
        RunAppend(r.value, a[1..], b);
      } else {
        assert Run(st, a + b) == Err(r.error);
        assert Run(st, a) == Err(r.error);
      }
    }
  }

  /** Every blank line pushes exactly one record. */
  lemma {:induction false} RunCount(st: Scan, lines: seq<string>)
    requires Run(st, lines).Ok?
    ensures |Run(st, lines).value.emitted| == |st.emitted| + CountBlank(lines)
    ensures Run(st, lines).value.emitted[..|st.emitted|] == st.emitted
    decreases |lines|
  {
    if |lines| > 0 {
      var next := Step(st, lines[0]).value;
      RunCount(next, lines[1..]);
      var out := Run(st, lines).value.emitted;
      assert out[..|st.emitted|] == out[..|next.emitted|][..|st.emitted|];
    }
  }

  /** A successful load has one record per blank line of the file. */
  lemma OneRecordPerBlankLine(lines: seq<string>)
    requires LoadSubtitles(lines).Ok?
    ensures |LoadSubtitles(lines).value| == CountBlank(lines)
  {
    RunCount(Start, lines);
    assert |multiset(LoadSubtitles(lines).value)| == |multiset(Emit(lines).value)|;
  }

  /** Lines without a blank line among them never push a record and never fail. */
  lemma {:induction false} RunNoBlank(st: Scan, lines: seq<string>)
    requires NoBlank(lines)
    ensures Run(st, lines).Ok? && Run(st, lines).value.emitted == st.emitted
    decreases |lines|
  {
    if |lines| > 0 {
      RunNoBlank(Step(st, lines[0]).value, lines[1..]);
    }
  }

  /** Nothing after the last blank line reaches the result: there is no flush
      after the loop, so an unterminated last record is lost. */
  lemma TrailingLinesIgnored(lines: seq<string>, tail: seq<string>)
    requires NoBlank(tail)
    ensures LoadSubtitles(lines + tail) == LoadSubtitles(lines)
  {
    RunAppend(Start, lines, tail);
    if Run(Start, lines).Ok? {
      RunNoBlank(Run(Start, lines).value, tail);
    }
  }

  /** After a blank line the buffers are empty. */
  lemma {:induction false} RunEndsBlank(st: Scan, lines: seq<string>)
    requires |lines| > 0 && lines[|lines| - 1] == "" && Run(st, lines).Ok?
    ensures Run(st, lines).value.index == ""
  {
    var init := lines[..|lines| - 1];
    LastSplit(lines);
    RunAppend(st, init, [""]);
    var m := Run(st, init).value;
    var r := Step(m, "");
    assert Run(m, [""]) == Run(r.value, []);
  }

  /** A non-empty sequence is its prefix followed by its last element. */
  lemma LastSplit<T>(s: seq<T>)
    requires |s| > 0
    ensures s == s[..|s| - 1] + [s[|s| - 1]]
  {
  }

  /** A blank line that opens the file or follows another blank line has an
      empty index buffer, so the load fails (unless an earlier record already
      failed): the error is always reported, never skipped. */
  lemma EmptyRecordFails(lines: seq<string>, i: nat)
    requires i < |lines| && lines[i] == "" && (i == 0 || lines[i - 1] == "")
    ensures LoadSubtitles(lines).Err?
  {
    RunFailsAtEmptyRecord(lines, i);
  }

  lemma RunFailsAtEmptyRecord(lines: seq<string>, i: nat)
    requires i < |lines| && lines[i] == "" && (i == 0 || lines[i - 1] == "")
    ensures Run(Start, lines).Err?
  {
    var before, rest := lines[..i], lines[i..];
    assert lines == before + rest;
    RunAppend(Start, before, rest);
    if Run(Start, before).Ok? {
      EmptyIndexBefore(lines, i);
      BlankWithoutIndex(Run(Start, before).value, rest);
    }
  }

  /** At the start of the file and after a blank line the index buffer is empty. */
  lemma EmptyIndexBefore(lines: seq<string>, i: nat)
    requires i < |lines| && (i == 0 || lines[i - 1] == "") && Run(Start, lines[..i]).Ok?
    ensures Run(Start, lines[..i]).value.index == ""
  {
    var before := lines[..i];
    if i > 0 {
      assert before[|before| - 1] == lines[i - 1];
      RunEndsBlank(Start, before);
    } else {
      assert before == [];
    }
  }

  /** A blank line read with an empty index buffer fails the load. */
  lemma BlankWithoutIndex(m: Scan, rest: seq<string>)
    requires m.index == "" && |rest| > 0 && rest[0] == ""
    ensures Run(m, rest) == Err(BadIndex)
  {
    assert ParseUnsigned("", U16_LIMIT).None?;
    assert Step(m, rest[0]) == Err(BadIndex);
  }
}
