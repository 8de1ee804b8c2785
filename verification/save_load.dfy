/** Reading a saved file back: the text the export writes, cut into lines the
    way `load_subtitles` reads a file, loads as the exported records numbered
    1, 2, 3, ... in the order they were written, with their times and their
    filtered texts. */
module SaveLoad {
  import opened Results
  import opened Numerals
  import opened Text
  import opened MovieTimes
  import opened Subtitles
  import opened IndexSort
  import opened Loader
  import opened Filter
  import opened Export

  /** The lines of one exported block: the number, the timing line, the text's
      lines and the blank line that ends the record. */
  function BlockLines(number: nat, sub: Subtitle): seq<string> {
    TextLines(Show(number), TimingLine(sub), sub.text)
  }

  function TextLines(number: string, timing: string, text: string): seq<string> {
    [number, timing] + Split(text, "\n") + [""]
  }

  /** The lines of an export of `recs`. */
  function ExportLines(recs: seq<Subtitle>): seq<string> {
    if |recs| == 0 then []
    else ExportLines(recs[..|recs| - 1]) + BlockLines(|recs|, recs[|recs| - 1])
  }

  /** What a record needs to come back as it was written: both times below one
      hundred hours (so that they print in twelve characters), and no line of
      its text blank (a blank line would end the record early) or ending in a
      carriage return (which reading lines strips). */
  predicate Reloadable(sub: Subtitle) {
    && sub.start.mili < HUNDRED_HOURS && sub.stop.mili < HUNDRED_HOURS
    && forall i :: 0 <= i < |Split(sub.text, "\n")| ==>
         Split(sub.text, "\n")[i] != "" && !EndsCR(Split(sub.text, "\n")[i])
  }

  /** The records numbered by position from 1. */
  function Renumber(recs: seq<Subtitle>): (r: seq<Subtitle>)
    requires |recs| < U16_LIMIT
    ensures |r| == |recs|
    ensures forall i :: 0 <= i < |r| ==> r[i] == recs[i].(index := i + 1)
  {
    if |recs| == 0 then []
    else Renumber(recs[..|recs| - 1]) + [recs[|recs| - 1].(index := |recs|)]
  }

  // ---------------------------------------------------------------------------
  // From the exported text to its lines.

  /** A block is its lines joined by newlines, plus a final newline. */
  lemma BlockJoin(number: string, timing: string, text: string)
    ensures BlockText(number, timing, text) == Join(TextLines(number, timing, text), "\n") + "\n"
  {
    var p := Split(text, "\n");
    JoinSnoc(p, "", "\n");
    JoinAppend([number, timing], p + [""], "\n");
    assert TextLines(number, timing, text) == [number, timing] + (p + [""]);
    assert Join([number, timing], "\n") == number + "\n" + timing;
  }

  /** The export is its lines joined by newlines, plus a final newline. */
  lemma {:induction false} RenderLines(recs: seq<Subtitle>)
    requires |recs| >= 1
    ensures |ExportLines(recs)| >= 1
    ensures Render(recs) == Join(ExportLines(recs), "\n") + "\n"
    decreases |recs|
  {
    var n := |recs|;
    if n == 1 {
      RenderOne(recs);
    } else {
      RenderLines(recs[..n - 1]);
      RenderNext(recs);
    }
  }

  /** One block is its own lines, newline-terminated. */
  lemma BlockLinesJoin(number: nat, sub: Subtitle)
    ensures |BlockLines(number, sub)| >= 1
    ensures Block(number, sub) == Join(BlockLines(number, sub), "\n") + "\n"
  {
    BlockJoin(Show(number), TimingLine(sub), sub.text);
  }

  lemma RenderOne(recs: seq<Subtitle>)
    requires |recs| == 1
    ensures |ExportLines(recs)| >= 1
    ensures Render(recs) == Join(ExportLines(recs), "\n") + "\n"
  {
    var r := recs[0];
    assert recs == [] + [r];
    RenderSnoc([], r);
    ExportLinesSnoc([], r);
    BlockLinesJoin(1, r);
    var block, lines := Block(1, r), BlockLines(1, r);
    assert Render([]) == "" && ExportLines([]) == [];
    assert "" + block == block && [] + lines == lines;
  }

  lemma ExportLinesSnoc(recs: seq<Subtitle>, rec: Subtitle)
    ensures ExportLines(recs + [rec]) == ExportLines(recs) + BlockLines(|recs| + 1, rec)
  {
    assert (recs + [rec])[..|recs|] == recs;
  }

  lemma RenderNext(recs: seq<Subtitle>)
    requires |recs| >= 2
    requires |ExportLines(recs[..|recs| - 1])| >= 1
    requires Render(recs[..|recs| - 1]) == Join(ExportLines(recs[..|recs| - 1]), "\n") + "\n"
    ensures |ExportLines(recs)| >= 1
    ensures Render(recs) == Join(ExportLines(recs), "\n") + "\n"
  {
    var n := |recs|;
    var init, last := recs[..n - 1], recs[n - 1];
    BlockLinesJoin(n, last);
    JoinEnded(ExportLines(init), BlockLines(n, last));
    assert Render(recs) == Render(init) + Block(n, last);
    assert ExportLines(recs) == ExportLines(init) + BlockLines(n, last);
  }

  /** A line the loader reads back unchanged: no newline inside it, no
      carriage return at its end. */
  predicate Clean(line: string) {
    !Contains(line, "\n") && !EndsCR(line)
  }

  predicate AllClean(lines: seq<string>) {
    forall i :: 0 <= i < |lines| ==> Clean(lines[i])
  }

  lemma AllCleanAppend(a: seq<string>, b: seq<string>)
    requires AllClean(a) && AllClean(b)
    ensures AllClean(a + b)
  {
    forall i | 0 <= i < |a + b| ensures Clean((a + b)[i]) {
      if i >= |a| {
        assert (a + b)[i] == b[i - |a|];
      }
    }
  }

  /** Time-code text is clean. */
  lemma TimeTextClean(s: string)
    requires TimeText(s)
    ensures Clean(s)
  {
    Lacks(s, "\n");
  }

  lemma BlockLinesClean(number: nat, sub: Subtitle)
    requires Reloadable(sub)
    ensures AllClean(BlockLines(number, sub))
  {
    var a, b := Show(number), TimingLine(sub);
    var p := Split(sub.text, "\n");
    assert TimeText(a);
    TimeTextClean(a);
    ToStringChars(sub.start);
    ToStringChars(sub.stop);
    Lacks(Arrow, "\n");
    assert !EndsCR(Arrow);
    TimeTextClean(ToString(sub.stop));
    LacksAppend(ToString(sub.start), Arrow, "\n");
    LacksAppend(ToString(sub.start) + Arrow, ToString(sub.stop), "\n");
    assert Clean(b);
    assert AllClean(p);
    assert AllClean([a, b]);
    Lacks("", "\n");
    assert AllClean([""]);
    AllCleanAppend([a, b], p);
    AllCleanAppend([a, b] + p, [""]);
  }

  /** Gluing two texts without newlines cannot create one: the separator here
      is a single character. */
  lemma LacksAppend(a: string, b: string, sep: string)
    requires |sep| == 1 && !Contains(a, sep) && !Contains(b, sep)
    ensures !Contains(a + b, sep)
  {
    forall j | 0 <= j <= |a + b| ensures !OccursAt(a + b, sep, j) {
      if OccursAt(a + b, sep, j) {
        if j < |a| {
          assert a[j..j + 1] == (a + b)[j..j + 1];
          assert OccursAt(a, sep, j);
        } else {
          assert b[j - |a|..j - |a| + 1] == (a + b)[j..j + 1];
          assert OccursAt(b, sep, j - |a|);
        }
      }
    }
  }

  lemma {:induction false} ExportLinesClean(recs: seq<Subtitle>)
    requires forall i :: 0 <= i < |recs| ==> Reloadable(recs[i])
    ensures AllClean(ExportLines(recs))
    decreases |recs|
  {
    if |recs| > 0 {
      var n := |recs|;
      ExportLinesClean(recs[..n - 1]);
      BlockLinesClean(n, recs[n - 1]);
      AllCleanAppend(ExportLines(recs[..n - 1]), BlockLines(n, recs[n - 1]));
    }
  }

  /** Reading the lines of an export gives back the lines it was built from. */
  lemma LinesOfRender(recs: seq<Subtitle>)
    requires |recs| >= 1
    requires forall i :: 0 <= i < |recs| ==> Reloadable(recs[i])
    ensures Lines(Render(recs)) == ExportLines(recs)
  {
    RenderLines(recs);
    ExportLinesClean(recs);
    LinesOfClean(Render(recs), ExportLines(recs));
  }

  lemma LinesOfClean(text: string, lines: seq<string>)
    requires |lines| >= 1 && AllClean(lines)
    requires text == Join(lines, "\n") + "\n"
    ensures Lines(text) == lines
  {
    LinesOfJoin(lines);
  }

  // ---------------------------------------------------------------------------
  // Loading the lines.

  /** The timing line splits into exactly the two printed times. */
  lemma SplitTiming(a: string, b: string)
    requires TimeText(a) && TimeText(b)
    ensures Split(a + Arrow + b, Arrow) == [a, b]
  {
    var s := a + Arrow + b;
    assert s[|a|..|a| + |Arrow|] == Arrow;
    forall j | 0 <= j < |a| ensures !OccursAt(s, Arrow, j) {
      assert s[j] == a[j];
      if j + |Arrow| <= |s| {
        assert s[j..j + |Arrow|][0] == s[j];
      }
    }
    FindLeftmost(s, Arrow, |a|);
    assert s[..|a|] == a;
    assert s[|a| + |Arrow|..] == b;
    Lacks(b, Arrow);
  }

  /** The record built from a block's number, timing line and text. */
  lemma MakeBlock(number: nat, sub: Subtitle)
    requires 1 <= number < U16_LIMIT && sub.start.mili < HUNDRED_HOURS && sub.stop.mili < HUNDRED_HOURS
    ensures MakeSubtitle(Show(number), TimingLine(sub), sub.text) == Ok(sub.(index := number))
  {
    ParsePadNum(number, 1, U16_LIMIT);
    ToStringChars(sub.start);
    ToStringChars(sub.stop);
    SplitTiming(ToString(sub.start), ToString(sub.stop));
    RoundTrip(sub.start);
    RoundTrip(sub.stop);
  }

  /** Non-blank text lines after the index and timing lines build up the text
      joined by newlines. */
  lemma {:induction false} RunText(st: Scan, p: seq<string>)
    requires st.index != "" && st.timing != "" && st.text == ""
    requires |p| >= 1 && forall i :: 0 <= i < |p| ==> p[i] != ""
    ensures Run(st, p) == Ok(st.(text := Join(p, "\n")))
    decreases |p|
  {
    var n := |p|;
    if n == 1 {
      assert p[1..] == [];
      assert "" + p[0] == p[0];
    } else {
      var q, x := p[..n - 1], p[n - 1];
      assert p == q + [x];
      RunText(st, q);
      RunAppend(st, q, [x]);
      JoinSnoc(q, x, "\n");
      JoinStarts(q, "\n");
      var mid := st.(text := Join(q, "\n"));
      assert Run(mid, [x]) == Run(Step(mid, x).value, []);
    }
  }

  /** A join is at least as long as its first part. */
  lemma JoinStarts(parts: seq<string>, sep: string)
    requires |parts| >= 1
    ensures |Join(parts, sep)| >= |parts[0]|
  {
  }

  /** One block read from a clean state pushes its record, renumbered, and
      leaves the buffers empty again. */
  lemma RunBlock(emitted: seq<Subtitle>, number: nat, sub: Subtitle)
    requires 1 <= number < U16_LIMIT && Reloadable(sub)
    ensures Run(Scan("", "", "", emitted), BlockLines(number, sub))
              == Ok(Scan("", "", "", emitted + [sub.(index := number)]))
  {
    var a, b := Show(number), TimingLine(sub);
    var p := Split(sub.text, "\n");
    var st0 := Scan("", "", "", emitted);
    var st2 := Scan(a, b, "", emitted);
    assert |b| >= |Arrow|;
    RunHeader(st0, a, b);
    RunText(st2, p);
    var st3 := st2.(text := sub.text);
    RunAppend(st0, [a, b], p);
    MakeBlock(number, sub);
    RunClose(st3);
    RunAppend(st0, [a, b] + p, [""]);
  }

  /** The first two lines of a record fill the index and timing buffers. */
  lemma RunHeader(st: Scan, a: string, b: string)
    requires st.index == "" && st.timing == "" && a != "" && b != ""
    ensures Run(st, [a, b]) == Ok(st.(index := a, timing := b))
  {
    var st1 := st.(index := a);
    assert Step(st, a) == Ok(st1);
    var st2 := st1.(timing := b);
    assert Step(st1, b) == Ok(st2);
    assert [a, b][1..] == [b];
    assert [b][1..] == [];
    assert Run(st1, [b]) == Run(st2, []);
    assert Run(st, [a, b]) == Run(st1, [b]);
  }

  /** A blank line pushes the record the buffers describe. */
  lemma RunClose(st: Scan)
    requires MakeSubtitle(st.index, st.timing, st.text).Ok?
    ensures Run(st, [""]) == Ok(Scan("", "", "", st.emitted + [MakeSubtitle(st.index, st.timing, st.text).value]))
  {
    assert [""][1..] == [];
  }

  /** Loading the lines of an export pushes the records renumbered, in order. */
  lemma {:induction false} RunExport(recs: seq<Subtitle>)
    requires |recs| < U16_LIMIT
    requires forall i :: 0 <= i < |recs| ==> Reloadable(recs[i])
    ensures Run(Start, ExportLines(recs)) == Ok(Scan("", "", "", Renumber(recs)))
    decreases |recs|
  {
    if |recs| > 0 {
      var n := |recs|;
      var init := recs[..n - 1];
      RunExport(init);
      RunAppend(Start, ExportLines(init), BlockLines(n, recs[n - 1]));
      RunBlock(Renumber(init), n, recs[n - 1]);
    }
  }

  /** Sorting what is already sorted changes nothing. */
  lemma SortSorted(s: seq<Subtitle>)
    requires SortedByIndex(s)
    ensures SortByIndex(s) == s
  {
    StableSortUnique(SortByIndex(s), s, s);
  }

  /** Numbering by position gives increasing indices. */
  lemma RenumberSorted(recs: seq<Subtitle>)
    requires |recs| < U16_LIMIT
    ensures SortedByIndex(Renumber(recs))
  {
  }

  /** Lines whose loop ends with empty buffers and records already in index
      order load as those records. */
  lemma LoadOfRun(lines: seq<string>, recs: seq<Subtitle>)
    requires Run(Start, lines) == Ok(Scan("", "", "", recs)) && SortedByIndex(recs)
    ensures LoadSubtitles(lines) == Ok(recs)
  {
    assert Emit(lines) == Ok(recs);
    SortSorted(recs);
  }

  /** Reading the lines of an export, empty or not. */
  lemma ExportLinesRead(recs: seq<Subtitle>)
    requires forall i :: 0 <= i < |recs| ==> Reloadable(recs[i])
    ensures Lines(Render(recs)) == ExportLines(recs)
  {
    if |recs| == 0 {
      EmptyExportRead(recs);
    } else {
      LinesOfRender(recs);
    }
  }

  lemma EmptyExportRead(recs: seq<Subtitle>)
    requires |recs| == 0
    ensures Lines(Render(recs)) == ExportLines(recs)
  {
    assert Render(recs) == "" && ExportLines(recs) == [];
    LinesEmpty();
  }

  /** Saving then loading: the loaded records are the saved ones, numbered
      1, 2, 3, ... in the order they were written. */
  lemma ExportReloads(recs: seq<Subtitle>)
    requires |recs| < U16_LIMIT
    requires forall i :: 0 <= i < |recs| ==> Reloadable(recs[i])
    ensures LoadSubtitles(Lines(Render(recs))) == Ok(Renumber(recs))
  {
    ExportLinesRead(recs);
    RunExport(recs);
    RenumberSorted(recs);
    LoadOfRun(ExportLines(recs), Renumber(recs));
  }

  /** What the "Save file" button writes loads back as the surviving records,
      renumbered from 1, with their filtered texts and their original times. */
  lemma SavedFileReloads(subs: seq<Subtitle>, matches: seq<seq<Match>>)
    requires MatchedAll(subs, matches)
    requires |Survivors(subs, FilteredTexts(subs, matches), |subs|)| < U16_LIMIT
    requires forall k :: 0 <= k < |Survivors(subs, FilteredTexts(subs, matches), |subs|)| ==>
               Reloadable(Survivors(subs, FilteredTexts(subs, matches), |subs|)[k])
    ensures LoadSubtitles(Lines(Render(Survivors(subs, FilteredTexts(subs, matches), |subs|))))
              == Ok(Renumber(Survivors(subs, FilteredTexts(subs, matches), |subs|)))
  {
    ExportReloads(Survivors(subs, FilteredTexts(subs, matches), |subs|));
  }
}
