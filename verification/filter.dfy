/** The filter engine: a text cut into kept and removed pieces by the matches
    of the user's regex (`format_filtered_text`), and `replace_all(text, "")`,
    which keeps only the gaps between matches. The regex engine is not part of
    this model: its matches are given as a list of ranges. */
module Filter {

  /** One match of `find_iter`: the half-open character range [start, end). */
  datatype Match = Match(start: nat, end: nat)

  /** What `find_iter` guarantees about its matches in a text of length `n`:
      each lies inside the text, and each starts no earlier than the previous
      one ends, so they come in order without overlapping. Empty matches are
      allowed. */
  predicate WellFormed(ms: seq<Match>, n: nat) {
    && (forall i :: 0 <= i < |ms| ==> ms[i].start <= ms[i].end <= n)
    && (forall i :: 0 < i < |ms| ==> ms[i - 1].end <= ms[i].start)
  }

  /** Any earlier match ends before any later one starts. */
  lemma {:induction false} Ordered(ms: seq<Match>, n: nat, i: nat, k: nat)
    requires WellFormed(ms, n) && i < k < |ms|
    ensures ms[i].end <= ms[k].start
    decreases k - i
  {
    if i + 1 < k {
      Ordered(ms, n, i + 1, k);
    }
  }

  /** A piece of the preview: plain text, or text the filter removes (shown
      struck through in red). */
  datatype Piece = Kept(text: string) | Removed(text: string)

  /** All pieces' text, in order. */
  function Concat(pieces: seq<Piece>): string {
    if |pieces| == 0 then ""
    else Concat(pieces[..|pieces| - 1]) + pieces[|pieces| - 1].text
  }

  /** The text of the kept pieces only, in order. */
  function KeptText(pieces: seq<Piece>): string {
    if |pieces| == 0 then ""
    else
      var last := pieces[|pieces| - 1];
      KeptText(pieces[..|pieces| - 1]) + (if last.Kept? then last.text else "")
  }

  /** Where the gap before match `i` begins: the end of the previous match, or
      the start of the text. */
  function GapStart(ms: seq<Match>, i: nat): nat
    requires i <= |ms|
  {
    if i == 0 then 0 else ms[i - 1].end
  }

  /** The gaps from offset `p` on, starting with the gap before match `i`. */
  function GapsFrom(text: string, ms: seq<Match>, i: nat, p: nat): string
    requires WellFormed(ms, |text|) && i <= |ms| && p <= |text|
    requires i < |ms| ==> p <= ms[i].start
    decreases |ms| - i
  {
    if i == |ms| then text[p..]
    else text[p..ms[i].start] + GapsFrom(text, ms, i + 1, ms[i].end)
  }

  /** `re.replace_all(text, "")`: the text with every match cut out. */
  function RemoveMatches(text: string, ms: seq<Match>): string
    requires WellFormed(ms, |text|)
  {
    GapsFrom(text, ms, 0, 0)
  }

  /** The text between the previous match (or the start) and match `i`, kept. */
  function GapPiece(text: string, ms: seq<Match>, i: nat): Piece
    requires WellFormed(ms, |text|) && i < |ms|
  {
    Kept(text[GapStart(ms, i)..ms[i].start])
  }

  /** The text of match `i`, removed. */
  function MatchPiece(text: string, ms: seq<Match>, i: nat): Piece
    requires WellFormed(ms, |text|) && i < |ms|
  {
    Removed(text[ms[i].start..ms[i].end])
  }

  /** The pieces laid out for the first `i` matches: each one's preceding gap
      as a kept piece, then the match as a removed piece. */
  function Layout(text: string, ms: seq<Match>, i: nat): seq<Piece>
    requires WellFormed(ms, |text|) && i <= |ms|
  {
    if i == 0 then []
    else Layout(text, ms, i - 1) + [GapPiece(text, ms, i - 1), MatchPiece(text, ms, i - 1)]
  }

  /** `format_filtered_text`: for each match, the gap before it as a kept piece
      and the match itself as a removed piece; then the rest of the text as a
      final kept piece, possibly empty. The returned pointer is the end of the
      last match, or 0 when there is none. The pieces spell out the whole text,
      and their kept part is exactly what `replace_all` leaves. */
  method FormatFilteredText(text: string, ms: seq<Match>) returns (pieces: seq<Piece>, pointer: nat)
    requires WellFormed(ms, |text|)
    ensures |pieces| == 2 * |ms| + 1
    ensures forall i :: 0 <= i < |ms| ==>
              pieces[2 * i] == GapPiece(text, ms, i) && pieces[2 * i + 1] == MatchPiece(text, ms, i)
    ensures pointer == GapStart(ms, |ms|) && pointer <= |text|
    ensures pieces[2 * |ms|] == Kept(text[pointer..])
    ensures Concat(pieces) == text
    ensures KeptText(pieces) == RemoveMatches(text, ms)
  {
    pieces := [];
    pointer := 0;
    var i := 0;
    while i < |ms|
      invariant i <= |ms| && pieces == Layout(text, ms, i) && pointer == GapStart(ms, i)
    {
      pieces := pieces + [Kept(text[pointer..ms[i].start]), Removed(text[ms[i].start..ms[i].end])];
      pointer := ms[i].end;
      i := i + 1;
    }
    LayoutShape(text, ms, i);
    LayoutConcat(text, ms, i);
    LayoutKept(text, ms, i);
    var rest := Kept(text[pointer..]);
    AppendKept(pieces, rest);
    assert text[..pointer] + text[pointer..] == text;
    pieces := pieces + [rest];
  }

  /** The layout holds two pieces per match, gap first. */
  lemma {:induction false} LayoutShape(text: string, ms: seq<Match>, i: nat)
    requires WellFormed(ms, |text|) && i <= |ms|
    ensures |Layout(text, ms, i)| == 2 * i
    ensures forall j :: 0 <= j < i ==>
              Layout(text, ms, i)[2 * j] == GapPiece(text, ms, j)
              && Layout(text, ms, i)[2 * j + 1] == MatchPiece(text, ms, j)
  {
    if i > 0 {
      LayoutShape(text, ms, i - 1);
      var prev := Layout(text, ms, i - 1);
      var l := Layout(text, ms, i);
      forall j | 0 <= j < i
        ensures l[2 * j] == GapPiece(text, ms, j) && l[2 * j + 1] == MatchPiece(text, ms, j)
      {
        if j < i - 1 {
          assert l[2 * j] == prev[2 * j] && l[2 * j + 1] == prev[2 * j + 1];
        }
      }
    }
  }

  /** The gap before match `i` starts inside the text and before the match. */
  lemma GapStartBounds(ms: seq<Match>, n: nat, i: nat)
    requires WellFormed(ms, n) && i <= |ms|
    ensures GapStart(ms, i) <= n
    ensures i < |ms| ==> GapStart(ms, i) <= ms[i].start
  {
  }

  /** The layout spells out the text up to the end of the last match laid out. */
  lemma {:induction false} LayoutConcat(text: string, ms: seq<Match>, i: nat)
    requires WellFormed(ms, |text|) && i <= |ms|
    ensures GapStart(ms, i) <= |text|
    ensures Concat(Layout(text, ms, i)) == text[..GapStart(ms, i)]
  {
    GapStartBounds(ms, |text|, i);
    if i > 0 {
      LayoutConcat(text, ms, i - 1);
      var m := ms[i - 1];
      var g := GapStart(ms, i - 1);
      GapStartBounds(ms, |text|, i - 1);
      AppendPair(Layout(text, ms, i - 1), GapPiece(text, ms, i - 1), MatchPiece(text, ms, i - 1));
      SliceJoin(text, g, m.start, m.end);
    }
  }

  /** The kept part of the layout followed by the gaps still to come is
      `replace_all`. */
  lemma {:induction false} LayoutKept(text: string, ms: seq<Match>, i: nat)
    requires WellFormed(ms, |text|) && i <= |ms|
    ensures GapStart(ms, i) <= |text| && (i < |ms| ==> GapStart(ms, i) <= ms[i].start)
    ensures KeptText(Layout(text, ms, i)) + GapsFrom(text, ms, i, GapStart(ms, i)) == RemoveMatches(text, ms)
  {
    GapStartBounds(ms, |text|, i);
    if i > 0 {
      LayoutKept(text, ms, i - 1);
      var m := ms[i - 1];
      var g := GapStart(ms, i - 1);
      GapStartBounds(ms, |text|, i - 1);
      AppendPair(Layout(text, ms, i - 1), GapPiece(text, ms, i - 1), MatchPiece(text, ms, i - 1));
      assert GapsFrom(text, ms, i - 1, g) == text[g..m.start] + GapsFrom(text, ms, i, m.end);
    }
  }

  /** Appending a kept and a removed piece extends the full text by both and
      the kept text by the first. */
  lemma AppendPair(pieces: seq<Piece>, a: Piece, b: Piece)
    requires a.Kept? && b.Removed?
    ensures Concat(pieces + [a, b]) == Concat(pieces) + a.text + b.text
    ensures KeptText(pieces + [a, b]) == KeptText(pieces) + a.text
  {
    assert (pieces + [a, b])[..|pieces| + 1] == pieces + [a];
    AppendKept(pieces, a);
  }

  /** Appending a kept piece extends both texts by it. */
  lemma AppendKept(pieces: seq<Piece>, a: Piece)
    requires a.Kept?
    ensures Concat(pieces + [a]) == Concat(pieces) + a.text
    ensures KeptText(pieces + [a]) == KeptText(pieces) + a.text
  {
    assert (pieces + [a])[..|pieces|] == pieces;
  }

  lemma SliceJoin(text: string, p: nat, s: nat, e: nat)
    requires p <= s <= e <= |text|
    ensures text[..p] + text[p..s] + text[s..e] == text[..e]
  {
  }

  // ---------------------------------------------------------------------------
  // An independent description of `replace_all(text, "")`: the characters of
  // the text that no match covers.

  /** Position `j` lies inside some match. */
  predicate Covered(ms: seq<Match>, j: nat) {
    exists i :: 0 <= i < |ms| && ms[i].start <= j < ms[i].end
  }

  /** The characters of `text[lo..hi]` at positions no match covers. */
  function Uncovered(text: string, ms: seq<Match>, lo: nat, hi: nat): string
    requires lo <= hi <= |text|
    decreases hi - lo
  {
    if lo == hi then ""
    else (if Covered(ms, lo) then "" else [text[lo]]) + Uncovered(text, ms, lo + 1, hi)
  }

  /** Removing the matches keeps exactly the characters no match covers. */
  lemma RemoveMatchesUncovered(text: string, ms: seq<Match>)
    requires WellFormed(ms, |text|)
    ensures RemoveMatches(text, ms) == Uncovered(text, ms, 0, |text|)
  {
    GapsUncovered(text, ms, 0, 0);
  }

  lemma {:induction false} GapsUncovered(text: string, ms: seq<Match>, i: nat, p: nat)
    requires WellFormed(ms, |text|) && i <= |ms| && p <= |text|
    requires i < |ms| ==> p <= ms[i].start
    requires forall k :: 0 <= k < i ==> ms[k].end <= p
    ensures GapsFrom(text, ms, i, p) == Uncovered(text, ms, p, |text|)
    decreases |ms| - i
  {
    if i == |ms| {
      UncoveredNone(text, ms, p, |text|);
    } else {
      UncoveredAround(text, ms, i, p);
      GapsUncovered(text, ms, i + 1, ms[i].end);
    }
  }

  /** Of the text from `p` on, the uncovered characters are the gap before
      match `i`, then those after it. */
  lemma UncoveredAround(text: string, ms: seq<Match>, i: nat, p: nat)
    requires WellFormed(ms, |text|) && i < |ms| && p <= ms[i].start
    requires forall k :: 0 <= k < i ==> ms[k].end <= p
    ensures Uncovered(text, ms, p, |text|) == text[p..ms[i].start] + Uncovered(text, ms, ms[i].end, |text|)
  {
    var n := |text|;
    var s, e := ms[i].start, ms[i].end;
    UncoveredSplit(text, ms, p, s, n);
    UncoveredSplit(text, ms, s, e, n);
    GapUncovered(text, ms, i, p);
    MatchUncovered(text, ms, i);
    var u := Uncovered(text, ms, e, n);
    assert Uncovered(text, ms, s, n) == "" + u;
    assert "" + u == u;
  }

  /** The gap before match `i` is kept whole. */
  lemma GapUncovered(text: string, ms: seq<Match>, i: nat, p: nat)
    requires WellFormed(ms, |text|) && i < |ms| && p <= ms[i].start
    requires forall k :: 0 <= k < i ==> ms[k].end <= p
    ensures Uncovered(text, ms, p, ms[i].start) == text[p..ms[i].start]
  {
    forall j | p <= j < ms[i].start ensures !Covered(ms, j) {
      GapNotCovered(ms, |text|, i, p, j);
    }
    UncoveredNone(text, ms, p, ms[i].start);
  }

  /** Match `i` is dropped whole. */
  lemma MatchUncovered(text: string, ms: seq<Match>, i: nat)
    requires WellFormed(ms, |text|) && i < |ms|
    ensures Uncovered(text, ms, ms[i].start, ms[i].end) == ""
  {
    forall j | ms[i].start <= j < ms[i].end ensures Covered(ms, j) {
      assert ms[i].start <= j < ms[i].end;
    }
    UncoveredAll(text, ms, ms[i].start, ms[i].end);
  }

  /** A position between the end of the earlier matches and the start of
      match `i` is covered by no match. */
  lemma GapNotCovered(ms: seq<Match>, n: nat, i: nat, p: nat, j: nat)
    requires WellFormed(ms, n) && i < |ms| && p <= j < ms[i].start
    requires forall k :: 0 <= k < i ==> ms[k].end <= p
    ensures !Covered(ms, j)
  {
    forall k | 0 <= k < |ms| ensures !(ms[k].start <= j < ms[k].end) {
      if k > i {
        Ordered(ms, n, i, k);
      }
    }
  }

  lemma {:induction false} UncoveredSplit(text: string, ms: seq<Match>, lo: nat, mid: nat, hi: nat)
    requires lo <= mid <= hi <= |text|
    ensures Uncovered(text, ms, lo, hi) == Uncovered(text, ms, lo, mid) + Uncovered(text, ms, mid, hi)
    decreases mid - lo
  {
    if lo < mid {
      UncoveredSplit(text, ms, lo + 1, mid, hi);
    }
  }

  lemma {:induction false} UncoveredNone(text: string, ms: seq<Match>, lo: nat, hi: nat)
    requires lo <= hi <= |text|
    requires forall j :: lo <= j < hi ==> !Covered(ms, j)
    ensures Uncovered(text, ms, lo, hi) == text[lo..hi]
    decreases hi - lo
  {
    if lo < hi {
      UncoveredNone(text, ms, lo + 1, hi);
      assert text[lo..hi] == [text[lo]] + text[lo + 1..hi];
    }
  }

  lemma {:induction false} UncoveredAll(text: string, ms: seq<Match>, lo: nat, hi: nat)
    requires lo <= hi <= |text|
    requires forall j :: lo <= j < hi ==> Covered(ms, j)
    ensures Uncovered(text, ms, lo, hi) == ""
    decreases hi - lo
  {
    if lo < hi {
      UncoveredAll(text, ms, lo + 1, hi);
    }
  }

  // ---------------------------------------------------------------------------
  // How much the filter removes.

  /** The total length of the matches from match `i` on. */
  function MatchedLength(ms: seq<Match>, i: nat): nat
    requires i <= |ms| && forall k :: 0 <= k < |ms| ==> ms[k].start <= ms[k].end
    decreases |ms| - i
  {
    if i == |ms| then 0 else (ms[i].end - ms[i].start) + MatchedLength(ms, i + 1)
  }

  /** Removing the matches shortens the text by exactly their total length. */
  lemma RemovedLength(text: string, ms: seq<Match>)
    requires WellFormed(ms, |text|)
    ensures |RemoveMatches(text, ms)| == |text| - MatchedLength(ms, 0)
  {
    GapsLength(text, ms, 0, 0);
  }

  lemma {:induction false} GapsLength(text: string, ms: seq<Match>, i: nat, p: nat)
    requires WellFormed(ms, |text|) && i <= |ms| && p <= |text|
    requires i < |ms| ==> p <= ms[i].start
    ensures |GapsFrom(text, ms, i, p)| + MatchedLength(ms, i) == |text| - p
    decreases |ms| - i
  {
    if i < |ms| {
      GapsLength(text, ms, i + 1, ms[i].end);
    }
  }

  /** Some match is non-empty, so something is actually cut out. */
  predicate HasRemoval(ms: seq<Match>) {
    exists i :: 0 <= i < |ms| && ms[i].start < ms[i].end
  }

  /** `replace_all` changes the text exactly when some match is non-empty. */
  lemma RemovalChangesText(text: string, ms: seq<Match>)
    requires WellFormed(ms, |text|)
    ensures RemoveMatches(text, ms) != text <==> HasRemoval(ms)
  {
    RemovedLength(text, ms);
    if HasRemoval(ms) {
      var k :| 0 <= k < |ms| && ms[k].start < ms[k].end;
      MatchedLengthAtLeast(ms, 0, k);
    } else {
      RemoveMatchesUncovered(text, ms);
      assert forall j :: 0 <= j < |text| ==> !Covered(ms, j);
      UncoveredNone(text, ms, 0, |text|);
    }
  }

  lemma {:induction false} MatchedLengthAtLeast(ms: seq<Match>, i: nat, k: nat)
    requires i <= k < |ms| && forall j :: 0 <= j < |ms| ==> ms[j].start <= ms[j].end
    ensures MatchedLength(ms, i) >= ms[k].end - ms[k].start
    decreases |ms| - i
  {
    if i < k {
      MatchedLengthAtLeast(ms, i + 1, k);
    }
  }
}
