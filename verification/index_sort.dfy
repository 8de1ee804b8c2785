/** `subtitles.sort_by(|a, b| a.index.partial_cmp(&b.index).unwrap())`: a
    stable sort on the index. `partial_cmp` on `u16` always answers, so the
    `unwrap` never panics. */
module IndexSort {
  import opened Subtitles

  predicate SortedByIndex(s: seq<Subtitle>) {
    forall i, j :: 0 <= i < j < |s| ==> s[i].index <= s[j].index
  }

  /** The records of `s` whose index is `k`, in their order in `s`. */
  function WithIndex(s: seq<Subtitle>, k: nat): seq<Subtitle> {
    if |s| == 0 then []
    else (if s[0].index == k then [s[0]] else []) + WithIndex(s[1..], k)
  }

  /** `r` is what a stable sort by index makes of `s`: ordered by index, and
      for every index the records carrying it appear in their original order. */
  ghost predicate StableSortOf(r: seq<Subtitle>, s: seq<Subtitle>) {
    SortedByIndex(r) && forall k: nat :: WithIndex(r, k) == WithIndex(s, k)
  }

  /** Puts `x` in front of the first record whose index is not smaller. */
  function Insert(r: seq<Subtitle>, x: Subtitle): (out: seq<Subtitle>)
    ensures multiset(out) == multiset(r) + multiset{x}
    ensures |out| == |r| + 1 && (out[0] == x || (|r| > 0 && out[0] == r[0]))
  {
    if |r| == 0 then [x]
    else if x.index <= r[0].index then [x] + r
    else
      assert r == [r[0]] + r[1..];
      [r[0]] + Insert(r[1..], x)
  }

  /** Insertion keeps a sorted sequence sorted. */
  lemma {:induction false} InsertSorted(r: seq<Subtitle>, x: Subtitle)
    requires SortedByIndex(r)
    ensures SortedByIndex(Insert(r, x))
    decreases |r|
  {
    if |r| == 0 {
    } else if x.index <= r[0].index {
      SortedCons(x, r);
    } else {
      assert SortedByIndex(r[1..]);
      InsertSorted(r[1..], x);
      var tail := Insert(r[1..], x);
      assert tail[0] == x || tail[0] == r[1];
      SortedCons(r[0], tail);
    }
  }

  /** A record no larger than the head of a sorted sequence extends it. */
  lemma SortedCons(h: Subtitle, t: seq<Subtitle>)
    requires SortedByIndex(t) && (|t| == 0 || h.index <= t[0].index)
    ensures SortedByIndex([h] + t)
  {
    var s := [h] + t;
    forall i, j | 0 <= i < j < |s| ensures s[i].index <= s[j].index {
      if i == 0 {
        assert s[j] == t[j - 1];
        assert t[0].index <= t[j - 1].index;
      } else {
        assert s[i] == t[i - 1] && s[j] == t[j - 1];
      }
    }
  }

  /** Inserting `x` adds it in front of the records with its index. */
  lemma {:induction false} InsertWithIndex(r: seq<Subtitle>, x: Subtitle, k: nat)
    ensures WithIndex(Insert(r, x), k) == WithIndex([x], k) + WithIndex(r, k)
    decreases |r|
  {
    if |r| == 0 || x.index <= r[0].index {
      assert Insert(r, x) == [x] + r;
      WithIndexAppend([x], r, k);
    } else {
      InsertWithIndex(r[1..], x, k);
      var tail := Insert(r[1..], x);
      assert Insert(r, x) == [r[0]] + tail;
      WithIndexAppend([r[0]], tail, k);
      assert r == [r[0]] + r[1..];
      WithIndexAppend([r[0]], r[1..], k);
    }
  }

  /** Selecting by index distributes over concatenation. */
  lemma {:induction false} WithIndexAppend(a: seq<Subtitle>, b: seq<Subtitle>, k: nat)
    ensures WithIndex(a + b, k) == WithIndex(a, k) + WithIndex(b, k)
    decreases |a|
  {
    if |a| == 0 {
      assert a + b == b;
    } else {
      var x, t := a[0], a[1..];
      assert a == [x] + t;
      assert a + b == [x] + (t + b);
      WithIndexAppend(t, b, k);
      WithIndexCons(x, t + b, k);
      WithIndexCons(x, t, k);
      var h := if x.index == k then [x] else [];
      assert h + (WithIndex(t, k) + WithIndex(b, k)) == (h + WithIndex(t, k)) + WithIndex(b, k);
    }
  }

  lemma WithIndexCons(x: Subtitle, s: seq<Subtitle>, k: nat)
    ensures WithIndex([x] + s, k) == (if x.index == k then [x] else []) + WithIndex(s, k)
  {
    assert ([x] + s)[0] == x;
    assert ([x] + s)[1..] == s;
  }

  /** Insertion sort: each record goes in front of the records after it that
      carry an equal or larger index, so ties keep their order. */
  function SortByIndex(s: seq<Subtitle>): (r: seq<Subtitle>)
    ensures StableSortOf(r, s)
    ensures multiset(r) == multiset(s)
  {
    if |s| == 0 then []
    else
      var rest := SortByIndex(s[1..]);
      InsertStable(rest, s);
      Insert(rest, s[0])
  }

  /** Inserting the first record into a stable sort of the others gives a
      stable sort of the whole. */
  lemma InsertStable(rest: seq<Subtitle>, s: seq<Subtitle>)
    requires |s| > 0 && StableSortOf(rest, s[1..]) && multiset(rest) == multiset(s[1..])
    ensures StableSortOf(Insert(rest, s[0]), s)
    ensures multiset(Insert(rest, s[0])) == multiset(s)
  {
    assert s == [s[0]] + s[1..];
    InsertSorted(rest, s[0]);
    forall k: nat ensures WithIndex(Insert(rest, s[0]), k) == WithIndex(s, k) {
      InsertWithIndex(rest, s[0], k);
      WithIndexAppend([s[0]], s[1..], k);
    }
  }

  /** A stable sort by index has exactly one possible outcome, so the model's
      insertion sort agrees with the merge sort `sort_by` uses. */
  lemma StableSortUnique(a: seq<Subtitle>, b: seq<Subtitle>, s: seq<Subtitle>)
    requires StableSortOf(a, s) && StableSortOf(b, s)
    ensures a == b
  {
    assert forall k: nat :: WithIndex(a, k) == WithIndex(b, k);
    SortedUnique(a, b);
  }

  lemma {:induction false} SortedUnique(a: seq<Subtitle>, b: seq<Subtitle>)
    requires SortedByIndex(a) && SortedByIndex(b)
    requires forall k: nat :: WithIndex(a, k) == WithIndex(b, k)
    ensures a == b
    decreases |a|
  {
    if |a| == 0 && |b| == 0 {
    } else if |a| == 0 {
      WithIndexHead(b);
      assert false;
    } else if |b| == 0 {
      WithIndexHead(a);
      assert false;
    } else {
      var m := a[0].index;
      var n := b[0].index;
      assert WithIndex(a, m) != [];
      WithIndexMember(b, m);
      assert WithIndex(b, n) != [];
      WithIndexMember(a, n);
      assert m == n;
      assert WithIndex(a, m)[0] == a[0] && WithIndex(b, m)[0] == b[0];
      assert a[0] == b[0];
      forall k: nat ensures WithIndex(a[1..], k) == WithIndex(b[1..], k) {
        var h := if a[0].index == k then [a[0]] else [];
        assert WithIndex(a, k) == h + WithIndex(a[1..], k);
        assert WithIndex(b, k) == h + WithIndex(b[1..], k);
        assert WithIndex(a[1..], k) == (h + WithIndex(a[1..], k))[|h|..];
        assert WithIndex(b[1..], k) == (h + WithIndex(b[1..], k))[|h|..];
      }
      SortedUnique(a[1..], b[1..]);
      assert a == [a[0]] + a[1..] && b == [b[0]] + b[1..];
    }
  }

  /** The first record is selected by its own index. */
  lemma WithIndexHead(s: seq<Subtitle>)
    requires |s| > 0
    ensures WithIndex(s, s[0].index) != []
  {
  }

  /** A sorted sequence that holds a record with index `k` starts with an
      index no larger than `k`. */
  lemma {:induction false} WithIndexMember(s: seq<Subtitle>, k: nat)
    requires SortedByIndex(s) && WithIndex(s, k) != []
    ensures |s| > 0 && s[0].index <= k
    decreases |s|
  {
    if s[0].index != k {
      WithIndexMember(s[1..], k);
    }
  }
}
