/** `subs::Subtitle` and the conversion of one record's three buffers into a
    subtitle (the struct literal in `load_subtitles`). */
module Subtitles {
  import opened Results
  import opened Numerals
  import opened Text
  import opened MovieTimes

  const U16_LIMIT: nat := 0x1_0000
  type u16 = n: nat | n < U16_LIMIT

  datatype Subtitle = Subtitle(index: u16, start: MovieTime, stop: MovieTime, text: string)

  /** The three ways a record can be malformed; each is a panic in the source. */
  datatype LoadError =
    | BadIndex      // the index line is not a u16 numeral (also: it is empty)
    | BadTime       // a time code is too short or has a non-numeric field
    | MissingArrow  // the timing line has no " --> ", so there is no field 1

  const Arrow := " --> "

  /** Field `i` of the timing line split on the arrow. */
  function TimingField(timing: string, i: nat): string
    requires i < |Split(timing, Arrow)|
  {
    Split(timing, Arrow)[i]
  }

  /** Builds one record from the buffers, failing the way the source panics,
      in the order it evaluates the struct literal: the index, then the start
      time, then field 1 of the timing line, then the stop time. Fields after
      the second are never read. */
  function MakeSubtitle(index: string, timing: string, text: string): (r: Result<Subtitle, LoadError>)
    ensures r == Err(BadIndex) <==> ParseUnsigned(index, U16_LIMIT).None?
    ensures r == Err(BadTime) <==>
              && ParseUnsigned(index, U16_LIMIT).Some?
              && (|| FromStr(TimingField(timing, 0)).None?
                  || (Contains(timing, Arrow) && FromStr(TimingField(timing, 1)).None?))
    ensures r == Err(MissingArrow) <==>
              && ParseUnsigned(index, U16_LIMIT).Some?
              && FromStr(TimingField(timing, 0)).Some?
              && !Contains(timing, Arrow)
    ensures r.Ok? <==>
              && ParseUnsigned(index, U16_LIMIT).Some?
              && Contains(timing, Arrow)
              && FromStr(TimingField(timing, 0)).Some?
              && FromStr(TimingField(timing, 1)).Some?
    ensures r.Ok? ==>
              && r.value.index == ParseUnsigned(index, U16_LIMIT).value
              && Some(r.value.start) == FromStr(TimingField(timing, 0))
              && Some(r.value.stop) == FromStr(TimingField(timing, 1))
              && r.value.text == text
  {
    var fields := Split(timing, Arrow);
    var idx := ParseUnsigned(index, U16_LIMIT);
    if idx.None? then Err(BadIndex)
    else
      var start := FromStr(fields[0]);
      if start.None? then Err(BadTime)
      else if |fields| < 2 then Err(MissingArrow)
      else
        var stop := FromStr(fields[1]);
        if stop.None? then Err(BadTime)
        else Ok(Subtitle(idx.value, start.value, stop.value, text))
  }

  /** Whatever follows the second field of the timing line is ignored:
      cutting the line after field 1 builds the same record. */
  lemma ExtraFieldsIgnored(index: string, timing: string, text: string)
    requires Contains(timing, Arrow)
    ensures MakeSubtitle(index, timing, text)
              == MakeSubtitle(index, TimingField(timing, 0) + Arrow + TimingField(timing, 1), text)
  {
    var f := Split(timing, Arrow);
    var k := Find(timing, Arrow).value;
    var cut := f[0] + Arrow + f[1];
    assert f[0] == timing[..k];
    FindPrefix(timing, cut, Arrow, k);
    var rest := timing[k + |Arrow|..];
    assert Split(rest, Arrow)[0] == f[1];
    assert cut[k + |Arrow|..] == f[1];
    assert Split(f[1], Arrow) == [f[1]];
    assert Split(cut, Arrow) == [f[0], f[1]];
  }
}
