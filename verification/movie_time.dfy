/** `subs::MovieTime`: a time code held as unsigned 32-bit milliseconds, read
    from and written as `HH:MM:SS,mmm`. */
module MovieTimes {
  import opened Results
  import opened Numerals

  const U32_LIMIT: nat := 0x1_0000_0000
  type u32 = n: nat | n < U32_LIMIT

  /** One hundred hours: the first time whose hour field needs three digits. */
  const HUNDRED_HOURS: nat := 360_000_000

  /** The largest value `from_str` can produce: 99:99:99,999. */
  const MAX_PARSED: nat := 362_439_999

  datatype MovieTime = MovieTime(mili: u32)

  /** `timming[lo..hi].parse::<u32>()`. */
  function Field(s: string, lo: nat, hi: nat): Option<nat>
    requires lo <= hi <= |s|
  {
    ParseUnsigned(s[lo..hi], U32_LIMIT)
  }

  /** `MovieTime::from_str`: fixed offsets, hours [0..2], minutes [3..5],
      seconds [6..8], milliseconds [9..12]. The characters at 2, 5 and 8 and
      anything after offset 12 are never looked at. A string shorter than 12
      characters or a non-numeric field is a failure (a panic in the source).
      The result never exceeds 99:99:99,999, so the u32 arithmetic cannot
      overflow. */
  function FromStr(s: string): (r: Option<MovieTime>)
    ensures r.Some? <==> |s| >= 12 && Field(s, 9, 12).Some? && Field(s, 6, 8).Some?
                          && Field(s, 3, 5).Some? && Field(s, 0, 2).Some?
    ensures r.Some? ==> r.value.mili <= MAX_PARSED
    ensures r.Some? ==>
              r.value.mili == Field(s, 9, 12).value
                              + 1000 * (Field(s, 6, 8).value
                                        + 60 * (Field(s, 3, 5).value + 60 * Field(s, 0, 2).value))
  {
    if |s| < 12 then None
    else
      var ms :- Field(s, 9, 12);
      var sec :- Field(s, 6, 8);
      var min :- Field(s, 3, 5);
      var hour :- Field(s, 0, 2);
      SmallPowers();
      var minutes := min + 60 * hour;
      assert minutes <= 6039;
      var seconds := sec + 60 * minutes;
      assert seconds <= 362439;
      Some(MovieTime(ms + 1000 * seconds))
  }

  /** The four fields `to_string` prints, each taken from the remaining
      quotient exactly as the source divides it down. */
  datatype Clock = Clock(hours: nat, minutes: nat, seconds: nat, millis: nat)

  function ToClock(mili: nat): (c: Clock)
    ensures c.millis < 1000 && c.seconds < 60 && c.minutes < 60
    ensures mili == c.millis + 1000 * (c.seconds + 60 * (c.minutes + 60 * c.hours))
    ensures c.hours < 100 <==> mili < HUNDRED_HOURS
  {
    var secs := mili / 1000;
    var mins := secs / 60;
    var c := Clock(mins / 60, mins % 60, secs % 60, mili % 1000);
    assert mili < HUNDRED_HOURS <==> secs < 360_000;
    assert secs < 360_000 <==> mins < 6000;
    c
  }

  /** `MovieTime::to_string`: `HH:MM:SS,mmm`, each field zero-padded; hours
      take as many digits as they need beyond two. */
  function ToString(t: MovieTime): (s: string)
    ensures |s| >= 12
    ensures |s| == 12 <==> t.mili < HUNDRED_HOURS
  {
    var c := ToClock(t.mili);
    SmallPowers();
    PadNumLength(c.hours, 2);
    PadNumLength(c.minutes, 2);
    PadNumLength(c.seconds, 2);
    PadNumLength(c.millis, 3);
    PadNum(c.hours, 2) + ":" + PadNum(c.minutes, 2) + ":" + PadNum(c.seconds, 2)
      + "," + PadNum(c.millis, 3)
  }

  /** A time code in the canonical form `to_string` produces for times below
      one hundred hours. */
  predicate Canonical(s: string) {
    && |s| == 12
    && s[2] == ':' && s[5] == ':' && s[8] == ','
    && AllDigits(s[0..2]) && AllDigits(s[3..5]) && AllDigits(s[6..8]) && AllDigits(s[9..12])
    && Value(s[3..5]) < 60 && Value(s[6..8]) < 60
  }

  /** Rendering then reading a time gives it back exactly when it is below one
      hundred hours; from one hundred hours on, the hour field is three or four
      digits wide, the fixed offsets land on a separator and reading fails. */
  lemma RoundTrip(t: MovieTime)
    ensures FromStr(ToString(t)) == (if t.mili < HUNDRED_HOURS then Some(t) else None)
  {
    if t.mili < HUNDRED_HOURS {
      RoundTripBelow(t);
    } else {
      RoundTripAbove(t);
    }
  }

  lemma RoundTripBelow(t: MovieTime)
    requires t.mili < HUNDRED_HOURS
    ensures FromStr(ToString(t)) == Some(t)
  {
    var c := ToClock(t.mili);
    ToStringLayout(t, c);
    PaddedClock(c);
    ReadClock(ToString(t), PadNum(c.hours, 2), PadNum(c.minutes, 2), PadNum(c.seconds, 2),
              PadNum(c.millis, 3), c, t.mili);
  }

  /** Text laid out from four fields that read as the clock of a time reads
      back as that time. */
  lemma ReadClock(s: string, h: string, m: string, sec: string, ms: string, c: Clock, mili: u32)
    requires |h| == 2 && |m| == 2 && |sec| == 2 && |ms| == 3
    requires s == h + ":" + m + ":" + sec + "," + ms
    requires ParseUnsigned(h, U32_LIMIT) == Some(c.hours) && ParseUnsigned(m, U32_LIMIT) == Some(c.minutes)
    requires ParseUnsigned(sec, U32_LIMIT) == Some(c.seconds) && ParseUnsigned(ms, U32_LIMIT) == Some(c.millis)
    requires mili == c.millis + 1000 * (c.seconds + 60 * (c.minutes + 60 * c.hours))
    ensures FromStr(s) == Some(MovieTime(mili))
  {
    LayoutSlices(h, m, sec, ms);
    ReadFields(s, c.hours, c.minutes, c.seconds, c.millis);
    var r := FromStr(s);
    assert r.Some? && r.value.mili == mili;
    assert r.value == MovieTime(mili);
  }

  /** Clock fields below one hundred hours print at their fixed widths and read back. */
  lemma PaddedClock(c: Clock)
    requires c.hours < 100 && c.minutes < 60 && c.seconds < 60 && c.millis < 1000
    ensures |PadNum(c.hours, 2)| == 2 && ParseUnsigned(PadNum(c.hours, 2), U32_LIMIT) == Some(c.hours)
    ensures |PadNum(c.minutes, 2)| == 2 && ParseUnsigned(PadNum(c.minutes, 2), U32_LIMIT) == Some(c.minutes)
    ensures |PadNum(c.seconds, 2)| == 2 && ParseUnsigned(PadNum(c.seconds, 2), U32_LIMIT) == Some(c.seconds)
    ensures |PadNum(c.millis, 3)| == 3 && ParseUnsigned(PadNum(c.millis, 3), U32_LIMIT) == Some(c.millis)
  {
    PaddedField(c.hours, 2);
    PaddedField(c.minutes, 2);
    PaddedField(c.seconds, 2);
    PaddedField(c.millis, 3);
  }

  /** A clock field below 10^width is printed in exactly `width` characters and read back. */
  lemma PaddedField(n: nat, width: nat)
    requires (width == 2 && n < 100) || (width == 3 && n < 1000)
    ensures |PadNum(n, width)| == width
    ensures ParseUnsigned(PadNum(n, width), U32_LIMIT) == Some(n)
  {
    SmallPowers();
    PadNumLength(n, width);
    ParsePadNum(n, width, U32_LIMIT);
  }

  /** `to_string` prints the four clock fields. */
  lemma ToStringLayout(t: MovieTime, c: Clock)
    requires c == ToClock(t.mili)
    ensures ToString(t) == PadNum(c.hours, 2) + ":" + PadNum(c.minutes, 2) + ":" + PadNum(c.seconds, 2)
                           + "," + PadNum(c.millis, 3)
  {
  }

  /** `from_str` once its four fields have been read. */
  lemma ReadFields(s: string, h: nat, m: nat, sec: nat, ms: nat)
    requires |s| >= 12
    requires Field(s, 0, 2) == Some(h) && Field(s, 3, 5) == Some(m)
    requires Field(s, 6, 8) == Some(sec) && Field(s, 9, 12) == Some(ms)
    ensures FromStr(s).Some? && FromStr(s).value.mili == ms + 1000 * (sec + 60 * (m + 60 * h))
  {
  }

  /** Where the four fields sit in the `HH:MM:SS,mmm` layout. */
  lemma LayoutSlices(h: string, m: string, sec: string, ms: string)
    requires |h| == 2 && |m| == 2 && |sec| == 2 && |ms| == 3
    ensures var s := h + ":" + m + ":" + sec + "," + ms;
              |s| == 12 && s[0..2] == h && s[3..5] == m && s[6..8] == sec && s[9..12] == ms
  {
    var s := h + ":" + m + ":" + sec + "," + ms;
    assert s[0..2] == h;
    assert s[3..5] == m;
    assert s[6..8] == sec;
    assert s[9..12] == ms;
  }

  lemma RoundTripAbove(t: MovieTime)
    requires t.mili >= HUNDRED_HOURS
    ensures FromStr(ToString(t)).None?
  {
    var c := ToClock(t.mili);
    var h := PadNum(c.hours, 2);
    var s := ToString(t);
    assert s == h + ":" + PadNum(c.minutes, 2) + ":" + PadNum(c.seconds, 2) + "," + PadNum(c.millis, 3);
    SmallPowers();
    PadNumLength(c.hours, 2);
    PadNumAtMost(c.hours, 2, 4);
    assert 3 <= |h| <= 4;
    assert s[|h|] == ':';
    assert !IsDigit(s[3..5][|h| - 3]);
    assert Field(s, 3, 5).None?;
  }

  /** Reading then rendering a canonical time code gives back the same text. */
  lemma CanonicalRoundTrip(s: string)
    requires Canonical(s)
    ensures FromStr(s).Some? && ToString(FromStr(s).value) == s
  {
    var hh, mm, ss, mmm := s[0..2], s[3..5], s[6..8], s[9..12];
    ValueBound(hh);
    ValueBound(mmm);
    SmallPowers();
    var t := FromStr(s).value;
    var c := ToClock(t.mili);
    var v := Value(mmm) + 1000 * (Value(ss) + 60 * (Value(mm) + 60 * Value(hh)));
    assert t.mili == v;
    ClockUnique(v, Clock(Value(hh), Value(mm), Value(ss), Value(mmm)));
    PadNumOfDigits(hh);
    PadNumOfDigits(mm);
    PadNumOfDigits(ss);
    PadNumOfDigits(mmm);
    assert s == hh + ":" + mm + ":" + ss + "," + mmm;
  }

  /** The clock fields of a time are unique. */
  lemma ClockUnique(mili: nat, c: Clock)
    requires c.millis < 1000 && c.seconds < 60 && c.minutes < 60
    requires mili == c.millis + 1000 * (c.seconds + 60 * (c.minutes + 60 * c.hours))
    ensures ToClock(mili) == c
  {
    var secs := c.seconds + 60 * (c.minutes + 60 * c.hours);
    assert mili / 1000 == secs && mili % 1000 == c.millis;
    var mins := c.minutes + 60 * c.hours;
    assert secs / 60 == mins && secs % 60 == c.seconds;
    assert mins / 60 == c.hours && mins % 60 == c.minutes;
  }

  /** A character `to_string` can print. */
  predicate TimeChar(c: char) {
    IsDigit(c) || c == ':' || c == ','
  }

  predicate TimeText(s: string) {
    forall i :: 0 <= i < |s| ==> TimeChar(s[i])
  }

  lemma TimeTextAppend(a: string, b: string)
    requires TimeText(a) && TimeText(b)
    ensures TimeText(a + b)
  {
    forall i | 0 <= i < |a + b| ensures TimeChar((a + b)[i]) {
      if i >= |a| {
        assert (a + b)[i] == b[i - |a|];
      }
    }
  }

  /** `to_string` prints only digits, colons and a comma. */
  lemma ToStringChars(t: MovieTime)
    ensures TimeText(ToString(t))
  {
    var c := ToClock(t.mili);
    ToStringLayout(t, c);
    var h, m, s, ms := PadNum(c.hours, 2), PadNum(c.minutes, 2), PadNum(c.seconds, 2), PadNum(c.millis, 3);
    TimeTextAppend(h, ":");
    TimeTextAppend(h + ":", m);
    TimeTextAppend(h + ":" + m, ":");
    TimeTextAppend(h + ":" + m + ":", s);
    TimeTextAppend(h + ":" + m + ":" + s, ",");
    TimeTextAppend(h + ":" + m + ":" + s + ",", ms);
  }
}
