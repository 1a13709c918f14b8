/** What the two frontend parsers make of the backend's elapsed-time strings: the round trip
    through the timeclock parser, where it breaks (whole-day spans), and where the user-time
    report's parser diverges from it (spans of a day or more). */
module DurationLaws {
  import opened Common
  import opened Text
  import opened Duration

  /** The fields the encoder writes for `n` seconds. */
  function SpanCaptures(n: nat): Captures {
    var r := n % SecondsPerDay;
    Captures(n / SecondsPerDay, r / 3600, r % 3600 / 60, (r % 60) as real)
  }

  lemma SpanCapturesHours(n: nat)
    ensures DecimalHours(SpanCaptures(n)) == n as real / 3600.0
  {
    var d := n / SecondsPerDay;
    var r := n % SecondsPerDay;
    var h := r / 3600;
    var m := r % 3600 / 60;
    var sec := r % 60;
    assert r == h * 3600 + m * 60 + sec;
    assert n == d * 86400 + r;
    calc {
      DecimalHours(SpanCaptures(n));
      d as real * 24.0 + h as real + m as real / 60.0 + sec as real / 3600.0;
      (d * 86400 + h * 3600 + m * 60 + sec) as real / 3600.0;
    }
  }

  /** The encoder's time part sits after `pre`: `T` + the clock fields, or `T0S` for zero. */
  lemma TimePartReads(days: nat, pre: string, n: nat)
    requires n < SecondsPerDay
    ensures n > 0 ==> TimeGroups(days, pre + ClockFields(n), |pre|) == Captures(days, n / 3600, n % 3600 / 60, (n % 60) as real)
    ensures TimeGroups(0, pre + "0S", |pre|) == Captures(0, 0, 0, 0.0)
  {
    TimeGroupsReadClock(days, pre, n / 3600, n % 3600 / 60, n % 60);
    TimeGroupsReadZero(pre);
  }

  /** Where the day part of an encoding ends: just after `P` and the optional `nD` field. */
  function DayEnd(n: nat): nat {
    1 + |Field(n / SecondsPerDay, 'D')|
  }

  /** The optional day group of both day-aware patterns reads the encoder's day field. */
  lemma EncodingDayPart(n: nat)
    ensures DayEnd(n) <= |EncodeSpan(n)|
    ensures n / SecondsPerDay > 0 ==> Group(EncodeSpan(n), 1, 'D') == Read(n / SecondsPerDay, DayEnd(n))
    ensures n / SecondsPerDay == 0 ==> Group(EncodeSpan(n), 1, 'D').NoMatch?
  {
    var d := n / SecondsPerDay;
    var r := n % SecondsPerDay;
    var tail := if r > 0 then "T" + ClockFields(r) else if d == 0 then "T0S" else "";
    var s := EncodeSpan(n);
    assert s == "P" + Field(d, 'D') + tail;
    if d > 0 {
      GroupReadsField("P", d, 'D', tail);
    } else {
      assert s[1] == 'T';
    }
  }

  /** When the encoding has a `T` part, it starts at `DayEnd(n)` and the time groups after it
      read back every field the encoder wrote. */
  lemma EncodingTimePart(n: nat)
    requires n % SecondsPerDay != 0 || n == 0
    ensures DayEnd(n) < |EncodeSpan(n)| && EncodeSpan(n)[DayEnd(n)] == 'T'
    ensures TimeGroups(n / SecondsPerDay, EncodeSpan(n), DayEnd(n) + 1) == SpanCaptures(n)
  {
    var d := n / SecondsPerDay;
    var r := n % SecondsPerDay;
    var s := EncodeSpan(n);
    var pre := "P" + Field(d, 'D') + "T";
    if r > 0 {
      assert s == pre + ClockFields(r);
      TimeGroupsReadClock(d, pre, r / 3600, r % 3600 / 60, r % 60);
    } else {
      assert s == "PT" + "0S";
      TimeGroupsReadZero("PT");
    }
  }

  /** Both day-aware patterns, at a `P` whose day group (if any) is followed by `T`, go on to
      read the time groups after that `T`. */
  lemma DayPartThenT(s: string, d: nat, t: nat)
    requires 2 <= |s| && s[0] == 'P'
    requires t < |s| && s[t] == 'T'
    requires d > 0 ==> Group(s, 1, 'D') == Read(d, t)
    requires d == 0 ==> Group(s, 1, 'D').NoMatch? && t == 1
    ensures MatchAt(DayTime, s, 0) == Some(TimeGroups(d, s, t + 1))
    ensures MatchAt(DayOptionalTime, s, 0) == Some(TimeGroups(d, s, t + 1))
  {
  }

  /** Whenever the encoding has a `T` part, the timeclock pattern matches at its first character
      and captures every field the encoder wrote. */
  lemma DayTimeMatchesEncoding(n: nat)
    requires n % SecondsPerDay != 0 || n == 0
    ensures MatchAt(DayTime, EncodeSpan(n), 0) == Some(SpanCaptures(n))
    ensures MatchAt(DayOptionalTime, EncodeSpan(n), 0) == Some(SpanCaptures(n))
  {
    EncodingDayPart(n);
    EncodingTimePart(n);
    DayPartThenT(EncodeSpan(n), n / SecondsPerDay, DayEnd(n));
  }

  /** The first character of every encoding is where its leftmost match starts. */
  lemma LeftmostAtStart(pat: Pattern, s: string)
    requires MatchAt(pat, s, 0).Some?
    ensures Leftmost(pat, s) == MatchAt(pat, s, 0)
  {
    var ms := Attempts(pat, s);
    assert ms[0] == MatchAt(pat, s, 0);
  }

  /** Round trip: a non-negative whole-second span whose encoding has a `T` part decodes,
      through the timeclock parser, to its length in hours. */
  lemma TimeclockRoundTrip(n: nat)
    requires n % SecondsPerDay != 0 || n == 0
    ensures TimeclockHours(Encode(n)) == n as real / 3600.0
  {
    DayTimeMatchesEncoding(n);
    LeftmostAtStart(DayTime, EncodeSpan(n));
    SpanCapturesHours(n);
  }

  /** Every character of an encoding after the leading `P` is a digit or a unit letter. */
  lemma NoLaterP(n: nat)
    ensures forall j :: 1 <= j < |EncodeSpan(n)| ==> EncodeSpan(n)[j] != 'P'
  {
    var d := n / SecondsPerDay;
    var r := n % SecondsPerDay;
    var s := EncodeSpan(n);
    var tail := s[1..];
    assert tail == Field(d, 'D') + (if r > 0 then "T" + ClockFields(r) else if d == 0 then "T0S" else "");
    NoPInFields(d, r / 3600, r % 3600 / 60, r % 60);
    forall j | 1 <= j < |s|
      ensures s[j] != 'P'
    {
      assert s[j] == tail[j - 1];
    }
  }

  predicate NoP(t: string) {
    forall j :: 0 <= j < |t| ==> t[j] != 'P'
  }

  lemma NoPInField(v: nat, unit: char)
    requires unit != 'P'
    ensures NoP(Field(v, unit))
  {
    if v > 0 {
      var f := Field(v, unit);
      var ds := NatToString(v);
      forall j | 0 <= j < |f|
        ensures f[j] != 'P'
      {
        if j < |ds| {
          assert f[j] == ds[j];
        }
      }
    }
  }

  lemma NoPInFields(d: nat, h: nat, m: nat, sec: nat)
    ensures NoP(Field(d, 'D') + (if h + m + sec > 0 then "T" + ClockText(h, m, sec) else if d == 0 then "T0S" else ""))
    ensures NoP(Field(d, 'D') + "T" + ClockText(h, m, sec))
  {
    NoPInField(d, 'D');
    NoPInField(h, 'H');
    NoPInField(m, 'M');
    NoPInField(sec, 'S');
    NoPConcat(Field(h, 'H'), Field(m, 'M'));
    NoPConcat(Field(h, 'H') + Field(m, 'M'), Field(sec, 'S'));
    NoPConcat("T", ClockText(h, m, sec));
    NoPConcat(Field(d, 'D'), "T" + ClockText(h, m, sec));
    NoPConcat(Field(d, 'D'), "T0S");
    NoPConcat(Field(d, 'D'), "");
    assert Field(d, 'D') + "T" + ClockText(h, m, sec) == Field(d, 'D') + ("T" + ClockText(h, m, sec));
  }

  lemma NoPConcat(a: string, b: string)
    requires NoP(a) && NoP(b)
    ensures NoP(a + b)
  {
    forall j | 0 <= j < |a + b|
      ensures (a + b)[j] != 'P'
    {
      if j >= |a| {
        assert (a + b)[j] == b[j - |a|];
      }
    }
  }

  /** Where the pattern can only start at index 0 and fails there, nothing matches. */
  lemma NoMatchAnywhere(pat: Pattern, s: string)
    requires MatchAt(pat, s, 0).None?
    requires forall j :: 1 <= j < |s| ==> s[j] != 'P'
    ensures Leftmost(pat, s).None?
    ensures HoursBy(pat, s) == 0.0
  {
    var ms := Attempts(pat, s);
    forall j | 0 <= j < |ms|
      ensures ms[j].None?
    {
      assert ms[j] == MatchAt(pat, s, j);
    }
  }

  /** A span of whole days is written without a `T` part (`P1D`), and the timeclock pattern,
      whose `T` is mandatory, does not match it: the span reads as 0 hours. */
  lemma WholeDaysReadAsZero(n: nat)
    requires n > 0 && n % SecondsPerDay == 0
    ensures TimeclockHours(Encode(n)) == 0.0
    ensures n as real / 3600.0 >= 24.0
  {
    var d := n / SecondsPerDay;
    var s := EncodeSpan(n);
    assert s == "P" + Field(d, 'D') + "";
    assert s == "P" + NatToString(d) + ['D'] + "";
    NumeralRun("P", d, 'D', "");
    assert Group(s, 1, 'D') == Read(d, |s|) by {
      NatToStringValue(d);
    }
    assert IsDigit(s[1]);
    NoLaterP(n);
    NoMatchAnywhere(DayTime, s);
  }

  /** The day-aware pattern with an optional `T` part matches every encoding at its start. */
  lemma DayOptionalMatchesEncoding(n: nat)
    ensures MatchAt(DayOptionalTime, EncodeSpan(n), 0) == Some(SpanCaptures(n))
  {
    if n % SecondsPerDay != 0 || n == 0 {
      DayTimeMatchesEncoding(n);
    } else {
      EncodingDayPart(n);
      assert |EncodeSpan(n)| == DayEnd(n);
    }
  }

  /** The corrected parser reads every non-negative span back to its length in hours. */
  lemma HoursRoundTrip(n: nat)
    ensures Hours(Encode(n)) == n as real / 3600.0
  {
    DayOptionalMatchesEncoding(n);
    LeftmostAtStart(DayOptionalTime, EncodeSpan(n));
    SpanCapturesHours(n);
  }

  /** Below one day the encoding starts with `PT`, and the user-time parser agrees with the
      timeclock parser: both give the span's length in hours. */
  lemma UserTimeRoundTrip(n: nat)
    requires n < SecondsPerDay
    ensures UserTimeHours(Encode(n)) == n as real / 3600.0
    ensures UserTimeHours(Encode(n)) == TimeclockHours(Encode(n))
  {
    var s := EncodeSpan(n);
    DayTimeMatchesEncoding(n);
    assert s[1] == 'T';
    assert MatchAt(TimeOnly, s, 0) == MatchAt(DayTime, s, 0) by {
      assert Group(s, 1, 'D').NoMatch?;
    }
    LeftmostAtStart(TimeOnly, s);
    LeftmostAtStart(DayTime, s);
    SpanCapturesHours(n);
  }

  /** From one day on, the encoding carries a day field and no `PT` anywhere, so the
      user-time parser reads it as 0 hours. */
  lemma UserTimeDropsDays(n: nat)
    requires n >= SecondsPerDay
    ensures UserTimeHours(Encode(n)) == 0.0
  {
    var d := n / SecondsPerDay;
    var s := EncodeSpan(n);
    assert s[1..1 + |NatToString(d)|] == NatToString(d);
    assert IsDigit(s[1]);
    NoLaterP(n);
    NoMatchAnywhere(TimeOnly, s);
  }

  /** For a span of a day or more that is not whole days, the two frontend parsers disagree:
      the timeclock view counts it in full, the user-time report counts nothing. */
  lemma ParsersDiverge(n: nat)
    requires n >= SecondsPerDay && n % SecondsPerDay != 0
    ensures TimeclockHours(Encode(n)) == n as real / 3600.0
    ensures UserTimeHours(Encode(n)) == 0.0
  {
    TimeclockRoundTrip(n);
    UserTimeDropsDays(n);
  }

  /** The user-time pattern matches exactly when the input contains `PT`; without it the
      parser yields 0. */
  lemma UserTimeMatchesIffPT(s: string)
    ensures Leftmost(TimeOnly, s).Some? <==> exists i :: 0 <= i < |s| - 1 && s[i] == 'P' && s[i + 1] == 'T'
    ensures (forall i :: 0 <= i < |s| - 1 ==> !(s[i] == 'P' && s[i + 1] == 'T')) ==> UserTimeHours(s) == 0.0
  {
    var ms := Attempts(TimeOnly, s);
    if exists i :: 0 <= i < |s| - 1 && s[i] == 'P' && s[i + 1] == 'T' {
      var i :| 0 <= i < |s| - 1 && s[i] == 'P' && s[i + 1] == 'T';
      assert ms[i].Some?;
    } else {
      forall j | 0 <= j < |ms|
        ensures ms[j].None?
      {
        assert ms[j] == MatchAt(TimeOnly, s, j);
      }
    }
  }

  /** `P1D`, one whole day, and the timeclock component's fallback `'0'` both read as 0. */
  lemma TimeclockFallbacks()
    ensures Encode(86400) == "P1D"
    ensures TimeclockHours("P1D") == 0.0
    ensures TimeclockHours("0") == 0.0
  {
    assert NatToString(1) == "1";
    WholeDaysReadAsZero(86400);
    var ms := Attempts(DayTime, "0");
    assert ms[0] == MatchAt(DayTime, "0", 0);
  }

  /** Clocking in at 09:00 and out at 17:30 stores `PT8H30M`, which reads as 8.5 hours. */
  lemma EightAndAHalfHours()
    ensures Encode(17 * 3600 + 30 * 60 - 9 * 3600) == "PT8H30M"
    ensures TimeclockHours("PT8H30M") == 8.5
  {
    var n := 30600;
    assert n / SecondsPerDay == 0 && n % SecondsPerDay == n;
    assert Field(0, 'D') == "";
    assert ClockFields(n) == ClockText(8, 30, 0);
    assert Field(8, 'H') == "8H";
    assert Field(30, 'M') == "30M" by {
      assert NatToString(30) == NatToString(3) + [DigitChar(0)];
    }
    assert ClockText(8, 30, 0) == "8H30M";
    assert EncodeSpan(n) == "PT8H30M";
    TimeclockRoundTrip(n);
  }

  /** `0H0M0S` after `T` reads as zero in every field. */
  lemma TimeGroupsReadZeroFields(pre: string)
    ensures TimeGroups(0, pre + "0H0M0S", |pre|) == Captures(0, 0, 0, 0.0)
  {
    var s := pre + "0H0M0S";
    NatToStringValue(0);
    assert s == pre + NatToString(0) + ['H'] + "0M0S";
    NumeralRun(pre, 0, 'H', "0M0S");
    assert s == (pre + "0H") + NatToString(0) + ['M'] + "0S";
    NumeralRun(pre + "0H", 0, 'M', "0S");
    assert s == (pre + "0H0M") + NatToString(0) + ['S'] + "";
    NumeralRun(pre + "0H0M", 0, 'S', "");
  }

  /** At a `PT` both the timeclock and the user-time pattern go straight to the time groups. */
  lemma PTStartsTimeGroups(s: string)
    requires 2 <= |s| && s[0] == 'P' && s[1] == 'T'
    ensures MatchAt(DayTime, s, 0) == Some(TimeGroups(0, s, 2))
    ensures MatchAt(TimeOnly, s, 0) == Some(TimeGroups(0, s, 2))
  {
    assert DigitRun(s, 1) == 0;
  }

  /** `PT0H0M0S`, the fallback for a missing duration, reads as 0 in both parsers. */
  lemma ZeroSpanReadsZero()
    ensures TimeclockHours("PT0H0M0S") == 0.0
    ensures UserTimeHours("PT0H0M0S") == 0.0
  {
    var s := "PT0H0M0S";
    TimeGroupsReadZeroFields("PT");
    assert "PT" + "0H0M0S" == s;
    PTStartsTimeGroups(s);
    LeftmostAtStart(DayTime, s);
    LeftmostAtStart(TimeOnly, s);
  }
}
