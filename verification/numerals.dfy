/** Decimal numerals as Rust's `str::parse::<uN>()` reads them and as
    `format!("{:0w}", n)` writes them. */
module Numerals {
  import opened Results

  predicate IsDigit(c: char) {
    '0' <= c <= '9'
  }

  predicate AllDigits(s: string) {
    forall i :: 0 <= i < |s| ==> IsDigit(s[i])
  }

  function DigitValue(c: char): nat
    requires IsDigit(c)
  {
    c as int - '0' as int
  }

  function DigitChar(d: nat): (c: char)
    requires d < 10
    ensures IsDigit(c) && DigitValue(c) == d
  {
    ('0' as int + d) as char
  }

  function Pow10(n: nat): (p: nat)
    ensures p >= 1
  {
    if n == 0 then 1 else 10 * Pow10(n - 1)
  }

  lemma SmallPowers()
    ensures Pow10(1) == 10 && Pow10(2) == 100 && Pow10(3) == 1000 && Pow10(4) == 10000
  {
  }

  /** The number a string of decimal digits denotes, most significant digit first. */
  function Value(s: string): nat
    requires AllDigits(s)
  {
    if |s| == 0 then 0 else 10 * Value(s[..|s| - 1]) + DigitValue(s[|s| - 1])
  }

  /** A numeral of `n` digits denotes less than 10^n. */
  lemma {:induction false} ValueBound(s: string)
    requires AllDigits(s)
    ensures Value(s) < Pow10(|s|)
    decreases |s|
  {
    if |s| > 0 {
      ValueBound(s[..|s| - 1]);
    }
  }

  /** The text after one optional leading '+': the part that must be digits. */
  function Unsigned(s: string): string {
    if |s| > 0 && s[0] == '+' then s[1..] else s
  }

  /** `str::parse::<uN>()`: an optional leading '+', then at least one ASCII
      digit and nothing else; `limit` is 2^N and a larger value overflows. */
  function ParseUnsigned(s: string, limit: nat): (r: Option<nat>)
    ensures r.Some? <==> |Unsigned(s)| > 0 && AllDigits(Unsigned(s)) && Value(Unsigned(s)) < limit
    ensures r.Some? ==> AllDigits(Unsigned(s)) && r.value == Value(Unsigned(s))
    ensures r.Some? ==> r.value < limit && r.value < Pow10(|s|)
  {
    var digits := Unsigned(s);
    if |digits| == 0 || !AllDigits(digits) then None
    else
      ValueBound(digits);
      assert Pow10(|digits|) <= Pow10(|s|) by {
        if |digits| < |s| { assert Pow10(|s|) == 10 * Pow10(|digits|); }
      }
      if Value(digits) < limit then Some(Value(digits)) else None
  }

  /** `format!("{:0width$}", n)`: the decimal numeral of `n`, left-padded with
      zeros to at least `width` characters (never truncated). */
  function PadNum(n: nat, width: nat): (s: string)
    ensures AllDigits(s) && |s| >= 1 && |s| >= width
    decreases n + width
  {
    if n < 10 && width <= 1 then [DigitChar(n)]
    else PadNum(n / 10, if width == 0 then 0 else width - 1) + [DigitChar(n % 10)]
  }

  /** The plain `{}` rendering of an unsigned number. */
  function Show(n: nat): string {
    PadNum(n, 1)
  }

  /** Reading a rendered numeral gives back the number. */
  lemma {:induction false} PadNumValue(n: nat, width: nat)
    ensures Value(PadNum(n, width)) == n
    decreases n + width
  {
    if !(n < 10 && width <= 1) {
      var w' := if width == 0 then 0 else width - 1;
      PadNumValue(n / 10, w');
      var s := PadNum(n, width);
      assert s[..|s| - 1] == PadNum(n / 10, w');
    }
  }

  /** The rendering is exactly `width` characters wide iff the number fits in
      `width` digits; otherwise it is wider. */
  lemma {:induction false} PadNumLength(n: nat, width: nat)
    requires width >= 1
    ensures |PadNum(n, width)| == width <==> n < Pow10(width)
    ensures n < Pow10(width) ==> |PadNum(n, width)| == width
    decreases width
  {
    if n < 10 && width <= 1 {
    } else if width == 1 {
      assert Pow10(1) == 10;
    } else {
      PadNumLength(n / 10, width - 1);
      assert n < Pow10(width) <==> n / 10 < Pow10(width - 1);
    }
  }

  /** A number with at most `k` digits is rendered in at most `k` characters
      whenever the requested width is at most `k`. */
  lemma {:induction false} PadNumAtMost(n: nat, width: nat, k: nat)
    requires 1 <= width <= k && n < Pow10(k)
    ensures |PadNum(n, width)| <= k
    decreases k
  {
    if k == 1 {
      assert Pow10(1) == 10;
    } else if n < 10 && width <= 1 {
    } else {
      var w' := if width == 0 then 0 else width - 1;
      if w' == 0 {
        PadNumAtMost(n / 10, 1, k - 1);
        assert PadNum(n / 10, 0) == PadNum(n / 10, 1);
      } else {
        PadNumAtMost(n / 10, w', k - 1);
      }
    }
  }

  /** Rendering the value of a `width`-digit numeral at that width gives the
      numeral back, leading zeros included. */
  lemma {:induction false} PadNumOfDigits(s: string)
    requires |s| >= 1 && AllDigits(s)
    ensures PadNum(Value(s), |s|) == s
    decreases |s|
  {
    var n := Value(s);
    var init := s[..|s| - 1];
    if |s| == 1 {
      assert init == [];
    } else {
      ValueBound(init);
      assert n / 10 == Value(init) && n % 10 == DigitValue(s[|s| - 1]);
      PadNumOfDigits(init);
      assert DigitChar(n % 10) == s[|s| - 1];
    }
  }

  /** A plain numeral that fits is read as its value. */
  lemma ParseDigits(s: string, limit: nat)
    requires |s| > 0 && AllDigits(s) && Value(s) < limit
    ensures ParseUnsigned(s, limit) == Some(Value(s))
  {
    assert IsDigit(s[0]);
  }

  /** `parse` reads back what `format!` wrote. */
  lemma ParsePadNum(n: nat, width: nat, limit: nat)
    requires n < limit
    ensures ParseUnsigned(PadNum(n, width), limit) == Some(n)
  {
    PadNumValue(n, width);
    ParseDigits(PadNum(n, width), limit);
  }
}
