/** The timeclock page's own arithmetic: the `Xh Ym Zs` text of a running shift, the
    bi-monthly pay period, the today / pay-period view and its total hours. Dates are local
    calendar dates (months numbered 0-11 as in JavaScript); how an instant maps to one is left
    to the platform. */
module Timeclock {
  import opened Common
  import opened Text
  import opened Duration
  import opened DurationLaws

  // ---------------------------------------------------------------------------
  // calculateDuration

  /** JavaScript's `%`, whose result takes the sign of the dividend (truncating division). */
  function JsRem(a: int, b: nat): (r: int)
    requires b > 0
    ensures a >= 0 ==> r == a % b
    ensures -(b as int) < r < b
    ensures a >= 0 ==> r >= 0
  {
    if a >= 0 then a % b else -((-a) % b)
  }

  /** The hour, minute and second counts `calculateDuration` prints for a span between two
      instants in milliseconds. `Math.floor` is floor division, which is Dafny's `/` for a
      positive divisor. */
  function Clock(startMs: int, endMs: int): (int, int, int) {
    var secs := (endMs - startMs) / 1000;
    (secs / 3600, JsRem(secs, 3600) / 60, JsRem(secs, 60))
  }

  /** The text `${hours}h ${minutes}m ${seconds}s`; `ClockSplitsSeconds` states what it shows. */
  function DurationText(startMs: int, endMs: int): string {
    var (h, m, sec) := Clock(startMs, endMs);
    IntToString(h) + "h " + IntToString(m) + "m " + IntToString(sec) + "s"
  }

  /** For a forward span the three counts are the whole seconds elapsed, split into hours,
      minutes below 60 and seconds below 60, and the text prints them as plain numerals. */
  lemma ClockSplitsSeconds(startMs: int, endMs: int)
    requires endMs >= startMs
    ensures var (h, m, sec) := Clock(startMs, endMs);
      && h >= 0 && 0 <= m < 60 && 0 <= sec < 60
      && h * 3600 + m * 60 + sec == (endMs - startMs) / 1000
      && DurationText(startMs, endMs) == NatToString(h) + "h " + NatToString(m) + "m " + NatToString(sec) + "s"
  {
    var secs := (endMs - startMs) / 1000;
    assert secs >= 0;
    assert Clock(startMs, endMs) == (secs / 3600, secs % 3600 / 60, secs % 60);
    SecondsSplit(secs);
  }

  lemma SecondsSplit(secs: nat)
    ensures secs / 3600 * 3600 + secs % 3600 / 60 * 60 + secs % 60 == secs
    ensures 0 <= secs % 3600 / 60 < 60
  {
    var r := secs % 3600;
    assert secs == secs / 3600 * 3600 + r;
    assert r == r / 60 * 60 + r % 60;
    assert r % 60 == secs % 60 by {
      assert secs == (secs / 3600 * 60 + r / 60) * 60 + r % 60;
    }
  }

  /** A span one second backwards prints as `-1h -1m -1s`: each count is negative and they no
      longer add up to the elapsed seconds. */
  lemma BackwardSpanCounts()
    ensures Clock(1000, 0) == (-1, -1, -1)
    ensures var (h, m, sec) := Clock(1000, 0); h * 3600 + m * 60 + sec != (0 - 1000) / 1000
  {
  }

  // ---------------------------------------------------------------------------
  // Calendar

  /** A local calendar date: `getFullYear()`, `getMonth()` (0-11) and `getDate()`. */
  datatype Date = Date(year: int, month: int, day: int)

  predicate LeapYear(y: int) {
    (y % 4 == 0 && y % 100 != 0) || y % 400 == 0
  }

  /** Days of month `m` (0-11) of year `y` in the proleptic Gregorian calendar. */
  function DaysInMonth(y: int, m: int): (n: int)
    requires 0 <= m < 12
    ensures 28 <= n <= 31
  {
    if m == 1 then (if LeapYear(y) then 29 else 28)
    else if m == 3 || m == 5 || m == 8 || m == 10 then 30
    else 31
  }

  predicate ValidDate(d: Date) {
    0 <= d.month < 12 && 1 <= d.day <= DaysInMonth(d.year, d.month)
  }

  /** The first day of the month after month `m` of year `y`: JavaScript carries month 12 into
      January of the next year. */
  function FirstOfNextMonth(y: int, m: int): (d: Date)
    requires 0 <= m < 12
    ensures ValidDate(d) && d.day == 1
  {
    if m == 11 then Date(y + 1, 0, 1) else Date(y, m + 1, 1)
  }

  /** The day before a valid date: what JavaScript makes of day 0 of a month. */
  function DayBefore(d: Date): (r: Date)
    requires ValidDate(d)
    ensures ValidDate(r)
  {
    if d.day > 1 then Date(d.year, d.month, d.day - 1)
    else if d.month > 0 then Date(d.year, d.month - 1, DaysInMonth(d.year, d.month - 1))
    else Date(d.year - 1, 11, 31)
  }

  /** `new Date(y, m + 1, 0)` is the last day of month `m`. */
  lemma DayZeroIsMonthEnd(y: int, m: int)
    requires 0 <= m < 12
    ensures DayBefore(FirstOfNextMonth(y, m)) == Date(y, m, DaysInMonth(y, m))
  {
  }

  /** A local date and time of day in milliseconds; ordered lexicographically. */
  datatype Stamp = Stamp(date: Date, ms: int)

  predicate DateBefore(a: Date, b: Date) {
    a.year < b.year || (a.year == b.year && (a.month < b.month || (a.month == b.month && a.day <= b.day)))
  }

  predicate StampAtMost(a: Stamp, b: Stamp) {
    (DateBefore(a.date, b.date) && a.date != b.date) || (a.date == b.date && a.ms <= b.ms)
  }

  const EndOfDayMs: int := 23 * 3600000 + 59 * 60000 + 59 * 1000 + 999

  /** `calculatePayPeriodDates`: the 1st to the 15th when today is on or before the 15th,
      otherwise the 16th to the month's last day, from midnight to 23:59:59.999. */
  function PayPeriod(today: Date): (p: (Stamp, Stamp))
    requires ValidDate(today)
    ensures p.0.date.year == today.year && p.0.date.month == today.month && p.0.ms == 0
    ensures p.1.date.year == today.year && p.1.date.month == today.month && p.1.ms == EndOfDayMs
    ensures today.day <= 15 ==> p.0.date.day == 1 && p.1.date.day == 15
    ensures today.day > 15 ==> p.0.date.day == 16 && p.1.date.day == DaysInMonth(today.year, today.month)
  {
    var secondHalf := today.day > 15;
    var start := Date(today.year, today.month, if secondHalf then 16 else 1);
    var end := if secondHalf then DayBefore(FirstOfNextMonth(today.year, today.month))
               else Date(today.year, today.month, 15);
    (Stamp(start, 0), Stamp(end, EndOfDayMs))
  }

  /** Every moment of today lies within the pay period computed today. */
  lemma PayPeriodContainsToday(today: Date, ms: int)
    requires ValidDate(today) && 0 <= ms <= EndOfDayMs
    ensures StampAtMost(PayPeriod(today).0, Stamp(today, ms))
    ensures StampAtMost(Stamp(today, ms), PayPeriod(today).1)
  {
  }

  /** The two halves of a month meet: the first ends on the 15th, the second starts on the
      16th, and together they cover every day of the month. */
  lemma PayPeriodsCoverMonth(y: int, m: int, d: int)
    requires 0 <= m < 12 && 1 <= d <= DaysInMonth(y, m)
    ensures var p := PayPeriod(Date(y, m, d));
      p.0.date.day <= d <= p.1.date.day
    ensures d <= 15 ==> PayPeriod(Date(y, m, d)) == PayPeriod(Date(y, m, 1))
    ensures d > 15 ==> PayPeriod(Date(y, m, d)) == PayPeriod(Date(y, m, 16))
  {
  }

  /** `isSameDay`: same year, month and day of the month. */
  predicate IsSameDay(a: Date, b: Date) {
    a.year == b.year && a.month == b.month && a.day == b.day
  }

  // ---------------------------------------------------------------------------
  // The entries view and its total

  /** An entry as the page holds it: its clock-in date and the stored elapsed time, if any. */
  datatype ViewEntry = ViewEntry(clockIn: Date, duration: Option<string>)

  datatype TimeRange = Today | PayPeriodRange | OtherRange

  /** `entry.duration || 'PT0H0M0S'`: a missing or empty duration becomes the zero span. */
  function DurationOrZero(d: Option<string>): (s: string)
    ensures d.Some? && d.value != "" ==> s == d.value
  {
    if d.None? || d.value == "" then "PT0H0M0S" else d.value
  }

  /** The hours one entry adds to the total. */
  function EntryHours(e: ViewEntry): real {
    TimeclockHours(DurationOrZero(e.duration))
  }

  /** The sum of the entries' hours, as an independent recursive definition. */
  function SumHours(s: seq<ViewEntry>): real {
    if |s| == 0 then 0.0 else EntryHours(s[0]) + SumHours(s[1..])
  }

  lemma {:induction false} SumHoursAppend(a: seq<ViewEntry>, b: seq<ViewEntry>)
    ensures SumHours(a + b) == SumHours(a) + SumHours(b)
    decreases |a|
  {
    if |a| == 0 {
      assert a + b == b;
    } else {
      assert (a + b)[0] == a[0];
      assert (a + b)[1..] == a[1..] + b;
      SumHoursAppend(a[1..], b);
    }
  }

  /** `reduce((total, entry) => total + hours(entry), 0)`, a left fold. */
  method TotalDuration(s: seq<ViewEntry>) returns (total: real)
    ensures total == SumHours(s)
  {
    total := 0.0;
    var i := 0;
    while i < |s|
      invariant 0 <= i <= |s|
      invariant total == SumHours(s[..i])
    {
      SumHoursAppend(s[..i], [s[i]]);
      assert s[..i + 1] == s[..i] + [s[i]];
      total := total + EntryHours(s[i]);
      i := i + 1;
    }
    assert s[..i] == s;
  }

  /** `updateDisplayedEntries`: 'today' keeps the entries clocked in on today's date,
      'payPeriod' keeps them all, any other range keeps the previous list; the total is
      computed over the resulting list. */
  method UpdateDisplayedEntries(range: TimeRange, entries: seq<ViewEntry>, previous: seq<ViewEntry>, today: Date)
    returns (filtered: seq<ViewEntry>, total: real)
    ensures range == Today ==> forall e :: e in filtered <==> e in entries && IsSameDay(e.clockIn, today)
    ensures range == Today ==> |filtered| <= |entries|
    ensures range == PayPeriodRange ==> filtered == entries
    ensures range == OtherRange ==> filtered == previous
    ensures total == SumHours(filtered)
  {
    if range == Today {
      filtered := Filter(entries, (e: ViewEntry) => IsSameDay(e.clockIn, today));
    } else if range == PayPeriodRange {
      filtered := entries;
    } else {
      filtered := previous;
    }
    total := TotalDuration(filtered);
  }

  /** An entry without a stored duration adds nothing to the total. */
  lemma MissingDurationCountsZero(d: Date)
    ensures EntryHours(ViewEntry(d, None)) == 0.0
    ensures EntryHours(ViewEntry(d, Some(""))) == 0.0
  {
    ZeroSpanReadsZero();
  }
}
