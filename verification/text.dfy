/** The string operations the loader relies on: `str::split` on a separator
    and joining lines with a separator. */
module Text {
  import opened Results

  /** `sep` occurs in `s` starting at offset `j`. */
  predicate OccursAt(s: string, sep: string, j: int) {
    0 <= j && j + |sep| <= |s| && s[j..j + |sep|] == sep
  }

  predicate Contains(s: string, sep: string) {
    exists j | 0 <= j <= |s| :: OccursAt(s, sep, j)
  }

  /** The offset of the leftmost occurrence of `sep` in `s`. */
  function Find(s: string, sep: string): (r: Option<nat>)
    requires |sep| > 0
    ensures r.Some? ==> OccursAt(s, sep, r.value)
    ensures r.Some? ==> forall j :: 0 <= j < r.value ==> !OccursAt(s, sep, j)
    ensures r.None? <==> !Contains(s, sep)
    decreases |s|
  {
    if |s| < |sep| then None
    else if s[..|sep|] == sep then Some(0)
    else
      var rest := Find(s[1..], sep);
      ShiftOccurrence(s, sep);
      assert !OccursAt(s, sep, 0) by { assert s[0..|sep|] == s[..|sep|]; }
      match rest
      case None =>
        assert forall j | 0 <= j <= |s| :: !OccursAt(s, sep, j) by {
          forall j | 0 < j <= |s| ensures !OccursAt(s, sep, j) {
            assert !OccursAt(s[1..], sep, j - 1);
          }
        }
        None
      case Some(k) =>
        assert forall j :: 0 < j < k + 1 ==> !OccursAt(s, sep, j) by {
          forall j | 0 < j < k + 1 ensures !OccursAt(s, sep, j) {
            assert !OccursAt(s[1..], sep, j - 1);
          }
        }
        Some(k + 1)
  }

  /** Occurrences in `s[1..]` are the occurrences in `s` shifted by one. */
  lemma ShiftOccurrence(s: string, sep: string)
    requires |s| > 0
    ensures forall j :: 0 <= j ==> (OccursAt(s[1..], sep, j) <==> OccursAt(s, sep, j + 1))
  {
    forall j | 0 <= j ensures OccursAt(s[1..], sep, j) <==> OccursAt(s, sep, j + 1) {
      if 0 <= j && j + |sep| <= |s| - 1 {
        assert s[1..][j..j + |sep|] == s[j + 1..j + 1 + |sep|];
      }
    }
  }

  /** `parts` joined with `sep` between consecutive parts. */
  function Join(parts: seq<string>, sep: string): string {
    if |parts| == 0 then ""
    else if |parts| == 1 then parts[0]
    else parts[0] + sep + Join(parts[1..], sep)
  }

  /** `s.split(sep).collect()`: the pieces between successive leftmost,
      non-overlapping occurrences of `sep`. There is always at least one
      piece; there are two or more exactly when `sep` occurs; joining the
      pieces with `sep` gives `s` back, and no piece contains `sep`. */
  function Split(s: string, sep: string): (parts: seq<string>)
    requires |sep| > 0
    ensures |parts| >= 1
    ensures |parts| >= 2 <==> Contains(s, sep)
    ensures |parts| >= 2 ==> Find(s, sep) == Some(|parts[0]|)
    ensures Join(parts, sep) == s
    ensures forall i :: 0 <= i < |parts| ==> !Contains(parts[i], sep)
    decreases |s|
  {
    match Find(s, sep)
    case None => [s]
    case Some(k) =>
      var head := s[..k];
      var rest := Split(s[k + |sep|..], sep);
      assert !Contains(head, sep) by {
        forall j | OccursAt(head, sep, j) ensures false {
          assert s[j..j + |sep|] == head[j..j + |sep|];
          assert OccursAt(s, sep, j);
        }
      }
      assert s == head + sep + s[k + |sep|..];
      [head] + rest
  }

  /** Every cut of `Split` is at the leftmost occurrence of `sep` in what
      remains: each piece but the last, followed by `sep`, has its first
      occurrence right after the piece. */
  lemma {:induction false} SplitLeftmost(s: string, sep: string)
    requires |sep| > 0
    ensures var parts := Split(s, sep);
            forall i :: 0 <= i < |parts| - 1 ==> Find(parts[i] + sep, sep) == Some(|parts[i]|)
    decreases |s|
  {
    var parts := Split(s, sep);
    if |parts| >= 2 {
      var k := Find(s, sep).value;
      var rest := s[k + |sep|..];
      SplitLeftmost(rest, sep);
      assert parts == [s[..k]] + Split(rest, sep);
      FindPrefix(s, s[..k] + sep, sep, k);
      forall i | 1 <= i < |parts| - 1
        ensures Find(parts[i] + sep, sep) == Some(|parts[i]|)
      {
        assert parts[i] == Split(rest, sep)[i - 1];
      }
    }
  }

  /** The leftmost occurrence only depends on the text up to and including it. */
  lemma FindPrefix(s: string, t: string, sep: string, k: nat)
    requires |sep| > 0 && OccursAt(s, sep, k) && forall j :: 0 <= j < k ==> !OccursAt(s, sep, j)
    requires k + |sep| <= |t| && s[..k + |sep|] == t[..k + |sep|]
    ensures Find(t, sep) == Some(k)
  {
    PrefixOccurrences(s, t, sep, k + |sep|, k);
    FindLeftmost(t, sep, k);
  }

  /** A leftmost occurrence inside a shared prefix is leftmost in both texts. */
  lemma PrefixOccurrences(s: string, t: string, sep: string, n: nat, k: nat)
    requires k + |sep| <= n <= |s| && n <= |t| && s[..n] == t[..n]
    requires OccursAt(s, sep, k) && forall j :: 0 <= j < k ==> !OccursAt(s, sep, j)
    ensures OccursAt(t, sep, k) && forall j :: 0 <= j < k ==> !OccursAt(t, sep, j)
  {
    OccursAtPrefix(s, t, sep, n, k);
    forall j | 0 <= j < k ensures !OccursAt(t, sep, j) {
      OccursAtPrefix(s, t, sep, n, j);
    }
  }

  /** `Find` answers the leftmost occurrence. */
  lemma FindLeftmost(s: string, sep: string, k: nat)
    requires |sep| > 0 && OccursAt(s, sep, k)
    requires forall j :: 0 <= j < k ==> !OccursAt(s, sep, j)
    ensures Find(s, sep) == Some(k)
  {
    assert Contains(s, sep);
  }

  /** Whether `sep` occurs at `j` only depends on a prefix covering it. */
  lemma OccursAtPrefix(s: string, t: string, sep: string, n: nat, j: nat)
    requires j + |sep| <= n <= |s| && n <= |t| && s[..n] == t[..n]
    ensures OccursAt(s, sep, j) <==> OccursAt(t, sep, j)
  {
    assert s[j..j + |sep|] == s[..n][j..j + |sep|];
    assert t[j..j + |sep|] == t[..n][j..j + |sep|];
  }

  /** Joining one more part adds the separator and the part. */
  lemma {:induction false} JoinSnoc(parts: seq<string>, x: string, sep: string)
    requires |parts| >= 1
    ensures Join(parts + [x], sep) == Join(parts, sep) + sep + x
    decreases |parts|
  {
    if |parts| == 1 {
      assert parts + [x] == [parts[0], x];
    } else {
      assert (parts + [x])[1..] == parts[1..] + [x];
      JoinSnoc(parts[1..], x, sep);
    }
  }

  /** Joining two non-empty lists of parts puts one separator between them. */
  lemma {:induction false} JoinAppend(a: seq<string>, b: seq<string>, sep: string)
    requires |a| >= 1 && |b| >= 1
    ensures Join(a + b, sep) == Join(a, sep) + sep + Join(b, sep)
    decreases |a|
  {
    if |a| == 1 {
      assert (a + b)[1..] == b;
    } else {
      assert (a + b)[1..] == a[1..] + b;
      JoinAppend(a[1..], b, sep);
    }
  }

  /** Two newline-terminated joins glue into one. */
  lemma JoinEnded(a: seq<string>, b: seq<string>)
    requires |a| >= 1 && |b| >= 1
    ensures (Join(a, "\n") + "\n") + (Join(b, "\n") + "\n") == Join(a + b, "\n") + "\n"
  {
    JoinAppend(a, b, "\n");
  }

  /** A text without the separator's first character does not contain it. */
  lemma Lacks(s: string, sep: string)
    requires |sep| > 0 && forall i :: 0 <= i < |s| ==> s[i] != sep[0]
    ensures !Contains(s, sep)
  {
    forall j | 0 <= j <= |s| ensures !OccursAt(s, sep, j) {
      if j + |sep| <= |s| {
        assert s[j..j + |sep|][0] == s[j];
      }
    }
  }

  /** For a one-character separator, splitting undoes joining parts that do
      not contain it. (Longer separators can straddle a part boundary.) */
  lemma {:induction false} SplitJoin(parts: seq<string>, sep: string)
    requires |sep| == 1 && |parts| >= 1
    requires forall i :: 0 <= i < |parts| ==> !Contains(parts[i], sep)
    ensures Split(Join(parts, sep), sep) == parts
    decreases |parts|
  {
    if |parts| > 1 {
      var h, rest := parts[0], Join(parts[1..], sep);
      assert Join(parts, sep) == h + sep + rest;
      SplitAtFirst(h, rest, sep);
      SplitJoin(parts[1..], sep);
      assert parts == [h] + parts[1..];
    }
  }

  /** A one-character separator after a part that lacks it is the first
      occurrence, so splitting cuts there. */
  lemma SplitAtFirst(h: string, rest: string, sep: string)
    requires |sep| == 1 && !Contains(h, sep)
    ensures Split(h + sep + rest, sep) == [h] + Split(rest, sep)
  {
    var s := h + sep + rest;
    assert s[|h|..|h| + 1] == sep;
    forall j | 0 <= j < |h| ensures !OccursAt(s, sep, j) {
      if OccursAt(s, sep, j) {
        assert h[j..j + 1] == s[j..j + 1];
        assert OccursAt(h, sep, j);
      }
    }
    FindLeftmost(s, sep, |h|);
    assert s[..|h|] == h && s[|h| + 1..] == rest;
  }

  /** `line` ends with a carriage return. */
  predicate EndsCR(line: string) {
    |line| > 0 && line[|line| - 1] == '\r'
  }

  function StripCR(line: string): string {
    if EndsCR(line) then line[..|line| - 1] else line
  }

  /** `str::lines()`: the pieces between newlines, each without the carriage
      return that may precede its newline; a newline at the very end does not
      start another line, and the empty text has no lines. */
  function Lines(s: string): (ls: seq<string>)
    ensures |ls| <= |Split(s, "\n")|
  {
    var parts := Split(s, "\n");
    var n := |parts| - 1;
    var ended := seq(n, i requires 0 <= i < n => StripCR(parts[i]));
    if parts[n] == "" then ended else ended + [parts[n]]
  }

  /** An empty file has no lines. */
  lemma LinesEmpty()
    ensures Lines("") == []
  {
    assert !Contains("", "\n");
    assert Split("", "\n") == [""];
  }

  /** Lines joined with newlines and ended by one read back as themselves. */
  lemma LinesOfJoin(ls: seq<string>)
    requires |ls| >= 1
    requires forall i :: 0 <= i < |ls| ==> !Contains(ls[i], "\n") && !EndsCR(ls[i])
    ensures Lines(Join(ls, "\n") + "\n") == ls
  {
    SplitEnded(ls);
    LinesOfPieces(Join(ls, "\n") + "\n", ls);
  }

  /** The newline-separated pieces of lines joined and ended by a newline. */
  lemma SplitEnded(ls: seq<string>)
    requires |ls| >= 1
    requires forall i :: 0 <= i < |ls| ==> !Contains(ls[i], "\n")
    ensures Split(Join(ls, "\n") + "\n", "\n") == ls + [""]
  {
    JoinSnoc(ls, "", "\n");
    assert Join(ls, "\n") + "\n" == Join(ls + [""], "\n");
    EndedPartsLack(ls);
    SplitJoin(ls + [""], "\n");
  }

  lemma EndedPartsLack(ls: seq<string>)
    requires forall i :: 0 <= i < |ls| ==> !Contains(ls[i], "\n")
    ensures forall i :: 0 <= i < |ls + [""]| ==> !Contains((ls + [""])[i], "\n")
  {
    Lacks("", "\n");
    forall i | 0 <= i < |ls + [""]| ensures !Contains((ls + [""])[i], "\n") {
      if i < |ls| {
        assert (ls + [""])[i] == ls[i];
      }
    }
  }

  /** A text whose newline-separated pieces are `ls` and then an empty piece
      has the lines `ls`, when none of them ends with a carriage return. */
  lemma LinesOfPieces(s: string, ls: seq<string>)
    requires Split(s, "\n") == ls + [""]
    requires forall i :: 0 <= i < |ls| ==> !EndsCR(ls[i])
    ensures Lines(s) == ls
  {
    var parts := Split(s, "\n");
    var n := |ls|;
    assert parts[n] == "";
    var ended := seq(n, i requires 0 <= i < n => StripCR(parts[i]));
    forall i | 0 <= i < n ensures ended[i] == ls[i] {
      assert parts[i] == ls[i];
    }
    assert ended == ls;
  }
}
