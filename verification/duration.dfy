/** The elapsed-time codec. The backend stores `ClockOut - ClockIn` as an `xs:duration` lexical
    string (W3C XML Schema Part 2: Datatypes, section 3.2.6, as `XmlConvert.ToString(TimeSpan)`
    writes it: `PnDTnHnMnS` with zero fields omitted), and the frontend reads it back to decimal
    hours with one of two regular expressions:

      timeclock component   /P(?:(\d+)D)?T(?:(\d+)H)?(?:(\d+)M)?(?:(\d+(\.\d+)?)S)?/
      user-time report      /PT(?:(\d+)H)?(?:(\d+)M)?(?:(\d+(\.\d+)?)S)?/

    `String.prototype.match` finds the leftmost position where the pattern matches; every
    group after the mandatory `T` is optional and greedy, so the first path the engine tries
    succeeds. A string with no match yields 0 hours. */
module Duration {
  import opened Common
  import opened Text

  const SecondsPerDay: nat := 86400
  const SecondsPerHour: nat := 3600

  // ---------------------------------------------------------------------------
  // Encoder

  /** One `nU` field of the lexical form, omitted when the value is zero. */
  function Field(v: nat, unit: char): string {
    if v > 0 then NatToString(v) + [unit] else ""
  }

  /** The time-of-day fields after `T` for `r` seconds within a day. */
  function ClockFields(r: nat): string {
    ClockText(r / 3600, r % 3600 / 60, r % 60)
  }

  /** The lexical form of a non-negative span of whole seconds: days, then a `T` part when
      some time-of-day field is non-zero, and `PT0S` for the zero span. */
  function EncodeSpan(n: nat): (s: string)
    ensures |s| > 0 && s[0] == 'P'
  {
    var d := n / SecondsPerDay;
    var r := n % SecondsPerDay;
    "P" + Field(d, 'D') + (if r > 0 then "T" + ClockFields(r) else if d == 0 then "T0S" else "")
  }

  /** `XmlConvert.ToString(TimeSpan)` for a span of whole seconds; a negative span is the
      positive form with a leading minus sign. */
  function Encode(n: int): (s: string)
    ensures n >= 0 ==> s == EncodeSpan(n)
    ensures n < 0 ==> s == "-" + EncodeSpan(-n)
  {
    if n < 0 then "-" + EncodeSpan(-n) else EncodeSpan(n)
  }

  // ---------------------------------------------------------------------------
  // Decoders

  /** The values the regular expressions capture; an absent group reads as 0. */
  datatype Captures = Captures(days: nat, hours: nat, minutes: nat, seconds: real)

  /** `days * 24 + hours + minutes / 60 + seconds / 3600`: the captured span in hours. */
  function DecimalHours(c: Captures): (h: real)
    ensures h * 3600.0 == (c.days * 86400 + c.hours * 3600 + c.minutes * 60) as real + c.seconds
  {
    c.days as real * 24.0 + c.hours as real + c.minutes as real / 60.0 + c.seconds / 3600.0
  }

  lemma DecimalHoursNonNegative(c: Captures)
    requires c.seconds >= 0.0
    ensures DecimalHours(c) >= 0.0
  {
  }

  /** A positive natural, so that a power of ten can divide. */
  type Positive = n: nat | n >= 1 witness 1

  function Pow10(k: nat): Positive {
    if k == 0 then 1 else 10 * Pow10(k - 1)
  }

  /** What an optional group read: the captured value and the position after the group. */
  datatype GroupRead = NoMatch | Read(value: nat, next: nat)

  /** What the optional seconds group read, as `parseFloat` gives it. */
  datatype SecondsRead = NoSeconds | Seconds(value: real, next: nat)

  /** The optional group `(?:(\d+)U)?` at position `p`: the numeral's value and the position
      after the unit letter, or `NoMatch` when the group does not match there. */
  function Group(s: string, p: nat, unit: char): (r: GroupRead)
    requires p <= |s|
    ensures r.Read? ==> p < r.next <= |s|
  {
    var k := DigitRun(s, p);
    DigitRunDigits(s, p);
    if k > 0 && p + k < |s| && s[p + k] == unit then Read(DigitsValue(s[p..p + k]), p + k + 1)
    else NoMatch
  }

  /** The optional group `(?:(\d+(\.\d+)?)S)?` at position `p`, read with `parseFloat`. */
  function SecondsGroup(s: string, p: nat): (r: SecondsRead)
    requires p <= |s|
    ensures r.Seconds? ==> r.value >= 0.0
  {
    var k := DigitRun(s, p);
    var q := p + k;
    DigitRunDigits(s, p);
    if k == 0 then NoSeconds
    else if q < |s| && s[q] == '.' && DigitRun(s, q + 1) > 0
         && q + 1 + DigitRun(s, q + 1) < |s| && s[q + 1 + DigitRun(s, q + 1)] == 'S' then
      var f := DigitRun(s, q + 1);
      DigitRunDigits(s, q + 1);
      var fraction := DigitsValue(s[q + 1..q + 1 + f]) as real / Pow10(f) as real;
      Seconds(DigitsValue(s[p..q]) as real + fraction, q + f + 2)
    else if q < |s| && s[q] == 'S' then Seconds(DigitsValue(s[p..q]) as real, q + 1)
    else NoSeconds
  }

  /** `(?:(\d+)H)?(?:(\d+)M)?(?:(\d+(\.\d+)?)S)?` from position `p`, with `days` already read. */
  function TimeGroups(days: nat, s: string, p: nat): (c: Captures)
    requires p <= |s|
    ensures c.days == days && c.seconds >= 0.0
  {
    var hg := Group(s, p, 'H');
    var p1 := if hg.Read? then hg.next else p;
    var mg := Group(s, p1, 'M');
    var p2 := if mg.Read? then mg.next else p1;
    var sg := SecondsGroup(s, p2);
    Captures(days, if hg.Read? then hg.value else 0, if mg.Read? then mg.value else 0,
             if sg.Seconds? then sg.value else 0.0)
  }

  /** The three patterns: the timeclock component's, the user-time report's, and the
      timeclock pattern with an optional `T` part (used by the correction in `Hours`). */
  datatype Pattern = DayTime | TimeOnly | DayOptionalTime

  /** Whether the pattern matches starting exactly at position `i`, and what it captures. */
  function MatchAt(pat: Pattern, s: string, i: nat): (r: Option<Captures>)
    ensures r.Some? ==> i < |s| && s[i] == 'P'
    ensures r.Some? && pat != DayOptionalTime ==> i + 1 < |s| && exists t :: i < t < |s| && s[t] == 'T'
    ensures r.Some? && pat == TimeOnly ==> s[i + 1] == 'T' && r.value.days == 0
    ensures pat == DayOptionalTime ==> (r.Some? <==> i < |s| && s[i] == 'P')
  {
    if i + 1 >= |s| || s[i] != 'P' then
      (if pat == DayOptionalTime && i < |s| && s[i] == 'P' then Some(Captures(0, 0, 0, 0.0)) else None)
    else match pat
      case TimeOnly =>
        if s[i + 1] == 'T' then Some(TimeGroups(0, s, i + 2)) else None
      case DayTime =>
        var d := Group(s, i + 1, 'D');
        if d.Read? && d.next < |s| && s[d.next] == 'T' then Some(TimeGroups(d.value, s, d.next + 1))
        else if s[i + 1] == 'T' then Some(TimeGroups(0, s, i + 2))
        else None
      case DayOptionalTime =>
        var d := Group(s, i + 1, 'D');
        var days := if d.Read? then d.value else 0;
        var t := if d.Read? then d.next else i + 1;
        if t < |s| && s[t] == 'T' then Some(TimeGroups(days, s, t + 1)) else Some(Captures(days, 0, 0, 0.0))
  }

  /** The outcome of trying the pattern at every position of `s`. */
  function Attempts(pat: Pattern, s: string): (ms: seq<Option<Captures>>)
    ensures |ms| == |s| && forall j :: 0 <= j < |s| ==> ms[j] == MatchAt(pat, s, j)
  {
    seq(|s|, (j: int) requires 0 <= j < |s| => MatchAt(pat, s, j))
  }

  /** The first successful attempt from index `i` on. */
  function FirstSome<T>(ms: seq<Option<T>>, i: nat): (r: Option<T>)
    requires i <= |ms|
    ensures r.Some? ==> exists j :: i <= j < |ms| && ms[j] == r && forall k :: i <= k < j ==> ms[k].None?
    ensures r.None? <==> forall j :: i <= j < |ms| ==> ms[j].None?
    decreases |ms| - i
  {
    if i == |ms| then None
    else if ms[i].Some? then ms[i]
    else FirstSome(ms, i + 1)
  }

  /** `String.prototype.match` without the global flag: the match at the leftmost position
      where the pattern matches. */
  function Leftmost(pat: Pattern, s: string): (r: Option<Captures>)
    ensures r.None? <==> forall i :: 0 <= i < |s| ==> MatchAt(pat, s, i).None?
    ensures r.Some? ==> exists i :: 0 <= i < |s| && MatchAt(pat, s, i) == r
                          && forall j :: 0 <= j < i ==> MatchAt(pat, s, j).None?
  {
    FirstSome(Attempts(pat, s), 0)
  }

  /** Decimal hours from a match, or 0 when the pattern matches nowhere. */
  function HoursBy(pat: Pattern, s: string): (h: real)
    ensures h >= 0.0
  {
    match Leftmost(pat, s)
    case None => 0.0
    case Some(c) => DecimalHours(c)
  }

  /** `TimeclockComponent.convertIsoToDecimalHours`. */
  function TimeclockHours(s: string): (h: real)
    ensures h >= 0.0
  {
    HoursBy(DayTime, s)
  }

  /** `UserTimeComponent.convertIsoToDecimalHours`. */
  function UserTimeHours(s: string): (h: real)
    ensures h >= 0.0
  {
    HoursBy(TimeOnly, s)
  }

  /** The timeclock parser with its `T` part made optional, so that whole-day spans decode. */
  function Hours(s: string): (h: real)
    ensures h >= 0.0
  {
    HoursBy(DayOptionalTime, s)
  }

  // ---------------------------------------------------------------------------
  // Reading the encoder's fields back

  lemma GroupReadsField(pre: string, v: nat, unit: char, post: string)
    requires v > 0 && !IsDigit(unit)
    ensures Group(pre + Field(v, unit) + post, |pre|, unit) == Read(v, |pre| + |Field(v, unit)|)
  {
    var s := pre + Field(v, unit) + post;
    assert s == pre + NatToString(v) + [unit] + post;
    NumeralRun(pre, v, unit, post);
    NatToStringValue(v);
  }

  lemma GroupAtEnd(s: string, unit: char)
    ensures Group(s, |s|, unit).NoMatch?
  {
  }

  lemma SecondsGroupAtEnd(s: string)
    ensures SecondsGroup(s, |s|).NoSeconds?
  {
  }

  lemma SecondsGroupReadsField(pre: string, v: nat)
    requires v > 0
    ensures SecondsGroup(pre + Field(v, 'S'), |pre|) == Seconds(v as real, |pre| + |Field(v, 'S')|)
  {
    var s := pre + Field(v, 'S');
    assert s == pre + NatToString(v) + ['S'] + "";
    NumeralRun(pre, v, 'S', "");
    NatToStringValue(v);
  }

  /** The text after `T`: the hour, minute and second fields. */
  function ClockText(h: nat, m: nat, sec: nat): string {
    Field(h, 'H') + Field(m, 'M') + Field(sec, 'S')
  }

  lemma ClockTextSplits(pre: string, h: nat, m: nat, sec: nat)
    ensures pre + ClockText(h, m, sec) == pre + Field(h, 'H') + Field(m, 'M') + Field(sec, 'S')
    ensures pre + ClockText(h, m, sec) == pre + Field(h, 'H') + (Field(m, 'M') + Field(sec, 'S'))
  {
  }

  lemma SecondsStep(pre: string, h: nat, m: nat, sec: nat)
    ensures sec > 0 ==> SecondsGroup(pre + ClockText(h, m, sec), |pre| + |Field(h, 'H')| + |Field(m, 'M')|)
                        == Seconds(sec as real, |pre + ClockText(h, m, sec)|)
    ensures sec == 0 ==> SecondsGroup(pre + ClockText(h, m, sec), |pre| + |Field(h, 'H')| + |Field(m, 'M')|).NoSeconds?
  {
    var preM := pre + Field(h, 'H') + Field(m, 'M');
    ClockTextSplits(pre, h, m, sec);
    if sec > 0 {
      SecondsGroupReadsField(preM, sec);
    } else {
      SecondsGroupAtEnd(preM);
    }
  }

  lemma MinutesStep(pre: string, h: nat, m: nat, sec: nat)
    ensures m > 0 ==> Group(pre + ClockText(h, m, sec), |pre| + |Field(h, 'H')|, 'M')
                      == Read(m, |pre| + |Field(h, 'H')| + |Field(m, 'M')|)
    ensures m == 0 ==> Group(pre + ClockText(h, m, sec), |pre| + |Field(h, 'H')|, 'M').NoMatch?
  {
    var preH := pre + Field(h, 'H');
    ClockTextSplits(pre, h, m, sec);
    if m > 0 {
      GroupReadsField(preH, m, 'M', Field(sec, 'S'));
    } else {
      GroupSkipsSeconds(preH, sec, 'M');
    }
  }

  /** Neither the hour nor the minute group matches at a seconds field or at the end. */
  lemma GroupSkipsSeconds(pre: string, sec: nat, unit: char)
    requires unit == 'H' || unit == 'M'
    ensures Group(pre + Field(sec, 'S'), |pre|, unit).NoMatch?
  {
    if sec > 0 {
      var s := pre + Field(sec, 'S');
      assert s == pre + NatToString(sec) + ['S'] + "";
      NumeralRun(pre, sec, 'S', "");
    } else {
      assert pre + Field(sec, 'S') == pre;
    }
  }

  lemma HoursStep(pre: string, h: nat, m: nat, sec: nat)
    ensures h > 0 ==> Group(pre + ClockText(h, m, sec), |pre|, 'H') == Read(h, |pre| + |Field(h, 'H')|)
    ensures h == 0 ==> Group(pre + ClockText(h, m, sec), |pre|, 'H').NoMatch?
  {
    ClockTextSplits(pre, h, m, sec);
    if h > 0 {
      GroupReadsField(pre, h, 'H', Field(m, 'M') + Field(sec, 'S'));
    } else if m > 0 {
      var s := pre + Field(m, 'M') + Field(sec, 'S');
      assert s == pre + NatToString(m) + ['M'] + Field(sec, 'S');
      NumeralRun(pre, m, 'M', Field(sec, 'S'));
    } else {
      GroupSkipsSeconds(pre, sec, 'H');
    }
  }

  /** The time groups combine whatever the three groups read. */
  lemma TimeGroupsFrom(days: nat, s: string, p: nat, h: nat, p1: nat, m: nat, p2: nat, sec: nat)
    requires p <= p1 <= p2 <= |s|
    requires h > 0 ==> Group(s, p, 'H') == Read(h, p1)
    requires h == 0 ==> Group(s, p, 'H').NoMatch? && p1 == p
    requires m > 0 ==> Group(s, p1, 'M') == Read(m, p2)
    requires m == 0 ==> Group(s, p1, 'M').NoMatch? && p2 == p1
    requires sec > 0 ==> SecondsGroup(s, p2) == Seconds(sec as real, |s|)
    requires sec == 0 ==> SecondsGroup(s, p2).NoSeconds?
    ensures TimeGroups(days, s, p) == Captures(days, h, m, sec as real)
  {
  }

  /** Where the fields of the time part start and end. */
  lemma ClockLengths(pre: string, h: nat, m: nat, sec: nat)
    ensures |pre + ClockText(h, m, sec)| == |pre| + |Field(h, 'H')| + |Field(m, 'M')| + |Field(sec, 'S')|
    ensures h == 0 ==> |Field(h, 'H')| == 0
    ensures m == 0 ==> |Field(m, 'M')| == 0
  {
  }

  /** The time groups read back exactly the hour, minute and second fields written after `T`. */
  lemma TimeGroupsReadClock(days: nat, pre: string, h: nat, m: nat, sec: nat)
    ensures TimeGroups(days, pre + ClockText(h, m, sec), |pre|) == Captures(days, h, m, sec as real)
  {
    ClockLengths(pre, h, m, sec);
    HoursStep(pre, h, m, sec);
    MinutesStep(pre, h, m, sec);
    SecondsStep(pre, h, m, sec);
    TimeGroupsFrom(days, pre + ClockText(h, m, sec), |pre|, h, |pre| + |Field(h, 'H')|, m,
                   |pre| + |Field(h, 'H')| + |Field(m, 'M')|, sec);
  }

  /** `T0S`, the zero span's time part, reads as zero. */
  lemma TimeGroupsReadZero(pre: string)
    ensures TimeGroups(0, pre + "0S", |pre|) == Captures(0, 0, 0, 0.0)
  {
    var s := pre + "0S";
    assert s == pre + NatToString(0) + ['S'] + "";
    NumeralRun(pre, 0, 'S', "");
    NatToStringValue(0);
  }
}
