/** The export loop of the "Save file" button: every record's text is
    filtered, records whose filtered text is empty are dropped, and the rest
    are written as numbered blocks, counting from 1 with no gaps. The file
    itself is not modelled; the export produces the text that is written. */
module Export {
  import opened Numerals
  import opened MovieTimes
  import opened Subtitles
  import opened Filter

  /** One match list per record, each well-formed for that record's text: what
      the regex finds in each text. */
  predicate MatchedAll(subs: seq<Subtitle>, matches: seq<seq<Match>>) {
    |matches| == |subs| && forall i :: 0 <= i < |subs| ==> WellFormed(matches[i], |subs[i].text|)
  }

  /** `replace_all(&subtitle.text, "")` for every record. */
  function FilteredTexts(subs: seq<Subtitle>, matches: seq<seq<Match>>): (f: seq<string>)
    requires MatchedAll(subs, matches)
    ensures |f| == |subs|
    ensures forall i :: 0 <= i < |f| ==> f[i] == RemoveMatches(subs[i].text, matches[i])
  {
    seq(|subs|, i requires 0 <= i < |subs| => RemoveMatches(subs[i].text, matches[i]))
  }

  /** Among the first `n` records, those whose filtered text is not empty,
      carrying that filtered text, in loaded order. */
  function Survivors(subs: seq<Subtitle>, filtered: seq<string>, n: nat): (r: seq<Subtitle>)
    requires |filtered| == |subs| && n <= |subs|
    ensures |r| <= n
    ensures forall k :: 0 <= k < |r| ==> r[k].text != ""
  {
    if n == 0 then []
    else
      var f := filtered[n - 1];
      Survivors(subs, filtered, n - 1) + (if f != "" then [subs[n - 1].(text := f)] else [])
  }

  /** The second line of a block: `<start> --> <stop>`. */
  function TimingLine(sub: Subtitle): string {
    ToString(sub.start) + Arrow + ToString(sub.stop)
  }

  /** `format!("{index}\n{} --> {}\n{filtered_text}\n\n", ...)`. */
  function Block(number: nat, sub: Subtitle): string {
    BlockText(Show(number), TimingLine(sub), sub.text)
  }

  /** The layout of a block: number line, timing line, text, blank line. */
  function BlockText(number: string, timing: string, text: string): string {
    number + "\n" + timing + "\n" + text + "\n\n"
  }

  /** The blocks of `recs`, the k-th numbered k + 1. */
  function Render(recs: seq<Subtitle>): string {
    if |recs| == 0 then ""
    else Render(recs[..|recs| - 1]) + Block(|recs|, recs[|recs| - 1])
  }

  /** The export loop, counter and all: what it writes is the survivors'
      blocks numbered 1, 2, 3, ... in loaded order. The filtered texts are
      computed up front; filtering is pure, so this is the same as filtering
      inside the loop. */
  method ExportText(subs: seq<Subtitle>, matches: seq<seq<Match>>) returns (out: string)
    requires MatchedAll(subs, matches)
    ensures out == Render(Survivors(subs, FilteredTexts(subs, matches), |subs|))
  {
    var all := FilteredTexts(subs, matches);
    out := "";
    var index := 1;
    var i := 0;
    while i < |subs|
      invariant i <= |subs|
      invariant out == Render(Survivors(subs, all, i))
      invariant index == |Survivors(subs, all, i)| + 1
    {
      var filtered := all[i];
      ExportStep(subs, all, i, out, index);
      if filtered != "" {
        out := out + Block(index, subs[i].(text := filtered));
        index := index + 1;
      }
      i := i + 1;
    }
  }

  /** One more record either adds its block, numbered after the blocks so
      far, or adds nothing. */
  lemma ExportStep(subs: seq<Subtitle>, filtered: seq<string>, i: nat, out: string, index: nat)
    requires |filtered| == |subs| && i < |subs|
    requires out == Render(Survivors(subs, filtered, i)) && index == |Survivors(subs, filtered, i)| + 1
    ensures filtered[i] == "" ==>
              out == Render(Survivors(subs, filtered, i + 1)) && index == |Survivors(subs, filtered, i + 1)| + 1
    ensures filtered[i] != "" ==>
              && out + Block(index, subs[i].(text := filtered[i])) == Render(Survivors(subs, filtered, i + 1))
              && index + 1 == |Survivors(subs, filtered, i + 1)| + 1
  {
    var kept := Survivors(subs, filtered, i);
    var rec := subs[i].(text := filtered[i]);
    if filtered[i] != "" {
      assert Survivors(subs, filtered, i + 1) == kept + [rec];
      RenderSnoc(kept, rec);
    } else {
      assert Survivors(subs, filtered, i + 1) == kept + [];
      assert kept + [] == kept;
    }
  }

  /** A record appended to the export gets the next number. */
  lemma RenderSnoc(recs: seq<Subtitle>, rec: Subtitle)
    ensures Render(recs + [rec]) == Render(recs) + Block(|recs| + 1, rec)
  {
    assert (recs + [rec])[..|recs|] == recs;
  }

  /** The positions of the surviving records among the first `n`: increasing,
      and exactly the positions whose filtered text is not empty. */
  function Origins(subs: seq<Subtitle>, filtered: seq<string>, n: nat): (o: seq<nat>)
    requires |filtered| == |subs| && n <= |subs|
    ensures forall k :: 0 <= k < |o| ==> o[k] < n
    ensures forall k, l :: 0 <= k < l < |o| ==> o[k] < o[l]
    ensures forall i :: 0 <= i < n ==> (i in o <==> filtered[i] != "")
  {
    if n == 0 then []
    else
      var prev := Origins(subs, filtered, n - 1);
      prev + (if filtered[n - 1] != "" then [n - 1] else [])
  }

  /** The k-th survivor is the record at the k-th surviving position, with its
      index and times unchanged and its text filtered. */
  lemma {:induction false} SurvivorsFromOrigins(subs: seq<Subtitle>, filtered: seq<string>, n: nat)
    requires |filtered| == |subs| && n <= |subs|
    ensures |Survivors(subs, filtered, n)| == |Origins(subs, filtered, n)|
    ensures forall k :: 0 <= k < |Survivors(subs, filtered, n)| ==>
              var i := Origins(subs, filtered, n)[k];
              Survivors(subs, filtered, n)[k] == subs[i].(text := filtered[i])
  {
    if n > 0 {
      SurvivorsFromOrigins(subs, filtered, n - 1);
      var prev, o := Survivors(subs, filtered, n - 1), Origins(subs, filtered, n - 1);
      if filtered[n - 1] != "" {
        var s, o' := Survivors(subs, filtered, n), Origins(subs, filtered, n);
        assert s == prev + [subs[n - 1].(text := filtered[n - 1])];
        assert o' == o + [n - 1];
        forall k | 0 <= k < |s| ensures s[k] == subs[o'[k]].(text := filtered[o'[k]]) {
          if k < |prev| {
            assert s[k] == prev[k] && o'[k] == o[k];
          }
        }
      } else {
        assert Survivors(subs, filtered, n) == prev + [];
        assert Origins(subs, filtered, n) == o + [];
      }
    }
  }

  /** Nothing is exported exactly when every record's text filters away
      entirely. */
  lemma {:induction false} NoSurvivors(subs: seq<Subtitle>, filtered: seq<string>, n: nat)
    requires |filtered| == |subs| && n <= |subs|
    ensures Survivors(subs, filtered, n) == [] <==>
              forall i :: 0 <= i < n ==> filtered[i] == ""
  {
    if n > 0 {
      NoSurvivors(subs, filtered, n - 1);
    }
  }

  /** A filter that cuts nothing out of any text keeps every record with a
      non-empty text, unchanged. */
  lemma {:induction false} NothingRemoved(subs: seq<Subtitle>, filtered: seq<string>, n: nat)
    requires |filtered| == |subs| && n <= |subs|
    requires forall i :: 0 <= i < n ==> filtered[i] == subs[i].text != ""
    ensures Survivors(subs, filtered, n) == subs[..n]
  {
    if n > 0 {
      NothingRemoved(subs, filtered, n - 1);
      assert subs[..n] == subs[..n - 1] + [subs[n - 1]];
    }
  }

  /** A regex that cuts nothing out of any text (no match, or only empty
      matches) exports every record unchanged, provided none has an empty text. */
  lemma NoRemovalKeepsAll(subs: seq<Subtitle>, matches: seq<seq<Match>>)
    requires MatchedAll(subs, matches)
    requires forall i :: 0 <= i < |subs| ==> !HasRemoval(matches[i]) && subs[i].text != ""
    ensures Survivors(subs, FilteredTexts(subs, matches), |subs|) == subs
  {
    var f := FilteredTexts(subs, matches);
    forall i | 0 <= i < |subs| ensures f[i] == subs[i].text {
      RemovalChangesText(subs[i].text, matches[i]);
    }
    NothingRemoved(subs, f, |subs|);
    assert subs[..|subs|] == subs;
  }

  /** The export writes nothing exactly when every record's text filters
      away entirely. */
  lemma EmptyExport(subs: seq<Subtitle>, matches: seq<seq<Match>>)
    requires MatchedAll(subs, matches)
    ensures Render(Survivors(subs, FilteredTexts(subs, matches), |subs|)) == "" <==>
              forall i :: 0 <= i < |subs| ==> RemoveMatches(subs[i].text, matches[i]) == ""
  {
    var f := FilteredTexts(subs, matches);
    RenderEmpty(Survivors(subs, f, |subs|));
    NoSurvivors(subs, f, |subs|);
  }

  /** The empty export: no records means no text. */
  lemma RenderEmpty(recs: seq<Subtitle>)
    ensures Render(recs) == "" <==> recs == []
  {
    if recs != [] {
      assert |Block(|recs|, recs[|recs| - 1])| > 0;
    }
  }
}
