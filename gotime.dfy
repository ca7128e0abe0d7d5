/** The part of Go's time package that the utility relies on: instants in
    UTC on the proleptic Gregorian calendar, time.Date with its
    normalization of out-of-range fields, Time.IsZero, and Time.Format for
    the two layout elements "01" (zero-padded month) and "2006" (year).

    Go represents an instant as a count of seconds and nanoseconds; here an
    instant is the calendar record Go reports for it in UTC.  InstantNanos
    maps every valid record to its nanosecond count since
    0001-01-01 00:00:00 UTC and is one-to-one (InstantNanosInjective), so
    the two views agree. */
module GoTime {
  import Decimal

  datatype DateTime = DateTime(year: int, month: int, day: int, hour: int, min: int, sec: int, nsec: int)

  const NanosPerSecond: int := 1_000_000_000
  const NanosPerDay: int := 86_400 * NanosPerSecond

  /** Leap years of the Gregorian calendar.  Only divisibility is tested, so
      Go's truncating % and Dafny's Euclidean % agree for negative years. */
  predicate IsLeap(year: int) {
    year % 4 == 0 && (year % 100 != 0 || year % 400 == 0)
  }

  /** Days before the first of each month in a non-leap year; entry 12 is
      the length of such a year (Go's daysBefore table). */
  const DaysBeforeTable: seq<int> := [0, 31, 59, 90, 120, 151, 181, 212, 243, 273, 304, 334, 365]

  /** Go's daysIn. */
  function DaysIn(year: int, month: int): (n: int)
    requires 1 <= month <= 12
    ensures 28 <= n <= 31
    ensures n == 31 <==> month in {1, 3, 5, 7, 8, 10, 12}
    ensures n == 30 <==> month in {4, 6, 9, 11}
    ensures month == 2 ==> (n == 29 <==> IsLeap(year))
  {
    if month == 2 && IsLeap(year) then 29 else DaysBeforeTable[month] - DaysBeforeTable[month - 1]
  }

  predicate ValidDateTime(d: DateTime) {
    && 1 <= d.month <= 12
    && 1 <= d.day <= DaysIn(d.year, d.month)
    && 0 <= d.hour < 24
    && 0 <= d.min < 60
    && 0 <= d.sec < 60
    && 0 <= d.nsec < NanosPerSecond
  }

  /** A UTC instant as the fields Year(), Month(), Day(), Hour(), Minute(),
      Second() and Nanosecond() report it. */
  type Instant = d: DateTime | ValidDateTime(d) witness DateTime(1, 1, 1, 0, 0, 0, 0)

  /** The zero value of Go's time.Time: January 1, year 1, 00:00:00 UTC. */
  const ZeroInstant: Instant := DateTime(1, 1, 1, 0, 0, 0, 0)

  /** Days from 0001-01-01 to January 1 of year (negative before year 1).
      The divisors are positive, so Dafny's division is floor division. */
  function DaysBeforeYear(year: int): int {
    var y := year - 1;
    365 * y + y / 4 - y / 100 + y / 400
  }

  function DaysBeforeMonth(year: int, month: int): int
    requires 1 <= month <= 12
  {
    DaysBeforeTable[month - 1] + (if IsLeap(year) && month >= 3 then 1 else 0)
  }

  /** The day number of (year, month, day) counted from 0001-01-01 as day 0;
      day may lie outside the month, as in the arguments of time.Date. */
  function DayNumber(year: int, month: int, day: int): int
    requires 1 <= month <= 12
  {
    DaysBeforeYear(year) + DaysBeforeMonth(year, month) + day - 1
  }

  /** Nanoseconds since 0001-01-01 00:00:00 UTC (what Go's Time stores). */
  function InstantNanos(t: Instant): int {
    (DayNumber(t.year, t.month, t.day) * 86_400 + t.hour * 3_600 + t.min * 60 + t.sec) * NanosPerSecond + t.nsec
  }

  /** The instant that time.Date(year, month, day, hour, min, sec, nsec, UTC)
      denotes: the month carries into the year by floor division, and every
      other field is an offset from the start of that month. */
  function DateNanos(year: int, month: int, day: int, hour: int, min: int, sec: int, nsec: int): int {
    var y := year + (month - 1) / 12;
    var m := (month - 1) % 12 + 1;
    (DayNumber(y, m, day) * 86_400 + hour * 3_600 + min * 60 + sec) * NanosPerSecond + nsec
  }

  /** Go's Time.IsZero: the instant is 0001-01-01 00:00:00 UTC, that is its
      second and nanosecond counts are both zero. */
  predicate IsZero(t: Instant) {
    InstantNanos(t) == 0
  }

  /** Go's norm(hi, lo, base): moves whole multiples of base from lo into hi
      until 0 <= lo < base, keeping hi * base + lo unchanged. */
  function Norm(hi: int, lo: int, base: int): (r: (int, int))
    requires base > 0
    ensures 0 <= r.1 < base
    ensures r.0 * base + r.1 == hi * base + lo
  {
    var (hi1, lo1) :=
      if lo < 0 then
        var n := (-lo - 1) / base + 1;
        NormBorrow(lo, base, n);
        (hi - n, lo + n * base)
      else (hi, lo);
    if lo1 >= base then
      var n := lo1 / base;
      (hi1 + n, lo1 - n * base)
    else (hi1, lo1)
  }

  lemma NormBorrow(lo: int, base: int, n: int)
    requires base > 0 && lo < 0 && n == (-lo - 1) / base + 1
    ensures 0 <= lo + n * base < base
  {
    var q, r := (-lo - 1) / base, (-lo - 1) % base;
    assert -lo - 1 == q * base + r;
    assert n * base == q * base + base;
  }

  function PreviousMonthOf(year: int, month: int): (int, int)
    requires 1 <= month <= 12
  {
    if month == 1 then (year - 1, 12) else (year, month - 1)
  }

  function NextMonthOf(year: int, month: int): (int, int)
    requires 1 <= month <= 12
  {
    if month == 12 then (year + 1, 1) else (year, month + 1)
  }

  /** Floor division by k steps up by one exactly at the multiples of k. */
  lemma FloorStep(x: int, k: int)
    requires k > 0
    ensures x / k - (x - 1) / k == if x % k == 0 then 1 else 0
  {
    var q, r := x / k, x % k;
    if r > 0 {
      DivisionUnique(x - 1, k, q, r - 1);
    } else {
      DivisionUnique(x - 1, k, q - 1, k - 1);
    }
  }

  /** The quotient of x by k is the q with x == q * k + r and 0 <= r < k. */
  lemma DivisionUnique(x: int, k: int, q: int, r: int)
    requires k > 0 && 0 <= r < k && x == q * k + r
    ensures x / k == q
  {
    var q', r' := x / k, x % k;
    assert x == q' * k + r' && 0 <= r' < k;
    MultipleBounds(q - q', k);
    assert (q - q') * k == q * k - q' * k;
  }

  /** A non-zero multiple of k is at least k away from zero. */
  lemma MultipleBounds(a: int, k: int)
    requires k > 0
    ensures a >= 1 ==> a * k >= k
    ensures a <= -1 ==> a * k <= -k
  {
  }

  /** A year has 366 days when it is a leap year and 365 otherwise. */
  lemma YearLength(year: int)
    ensures DaysBeforeYear(year + 1) - DaysBeforeYear(year) == if IsLeap(year) then 366 else 365
  {
    FloorStep(year, 4);
    FloorStep(year, 100);
    FloorStep(year, 400);
  }

  /** The day after the last day of a month is the first day of the next. */
  lemma MonthEnd(year: int, month: int)
    requires 1 <= month <= 12
    ensures var (ny, nm) := NextMonthOf(year, month);
      DayNumber(year, month, DaysIn(year, month) + 1) == DayNumber(ny, nm, 1)
  {
    if month == 12 {
      YearLength(year);
    }
  }

  /** Day normalization of time.Date: day 0 and below borrow the length of
      the previous month, days past the end of the month carry into the
      next one.  The result is a valid date with the same day number. */
  function NormalizeDay(year: int, month: int, day: int): (r: (int, int, int))
    requires 1 <= month <= 12
    ensures 1 <= r.1 <= 12 && 1 <= r.2 <= DaysIn(r.0, r.1)
    ensures DayNumber(r.0, r.1, r.2) == DayNumber(year, month, day)
    decreases if day < 1 then 1 else 0, if day < 1 then -day else day
  {
    if day < 1 then
      var (py, pm) := PreviousMonthOf(year, month);
      MonthEnd(py, pm);
      NormalizeDay(py, pm, day + DaysIn(py, pm))
    else if day > DaysIn(year, month) then
      var (ny, nm) := NextMonthOf(year, month);
      MonthEnd(year, month);
      NormalizeDay(ny, nm, day - DaysIn(year, month))
    else
      (year, month, day)
  }

  /** Go's time.Date in UTC: the month is normalized into the year, then
      nanoseconds, seconds, minutes and hours carry upward into the day, and
      the day is normalized within the calendar.  The result denotes exactly
      the instant the arguments describe. */
  function Date(year: int, month: int, day: int, hour: int, min: int, sec: int, nsec: int): (t: Instant)
    ensures InstantNanos(t) == DateNanos(year, month, day, hour, min, sec, nsec)
  {
    var (y, m0) := Norm(year, month - 1, 12);
    var (sec1, nsec1) := Norm(sec, nsec, NanosPerSecond);
    var (min1, sec2) := Norm(min, sec1, 60);
    var (hour1, min2) := Norm(hour, min1, 60);
    var (day1, hour2) := Norm(day, hour1, 24);
    var (y2, m2, d2) := NormalizeDay(y, m0 + 1, day1);
    assert y == year + (month - 1) / 12 && m0 == (month - 1) % 12;
    DateTime(y2, m2, d2, hour2, min2, sec2, nsec1)
  }

  // ----- The day number orders valid dates -----

  /** Later years start later. */
  lemma {:induction false} YearStartsIncrease(y1: int, y2: int)
    requires y1 < y2
    ensures DaysBeforeYear(y1) + 365 <= DaysBeforeYear(y2)
    decreases y2 - y1
  {
    YearLength(y2 - 1);
    if y1 < y2 - 1 {
      YearStartsIncrease(y1, y2 - 1);
    }
  }

  /** Every valid day of a year has a day number inside that year. */
  lemma DayWithinYear(year: int, month: int, day: int)
    requires 1 <= month <= 12 && 1 <= day <= DaysIn(year, month)
    ensures DaysBeforeYear(year) <= DayNumber(year, month, day) < DaysBeforeYear(year + 1)
  {
    YearLength(year);
  }

  /** Every valid day of a month has a day number before the next month. */
  lemma {:induction false} MonthStartsIncrease(year: int, m1: int, m2: int)
    requires 1 <= m1 < m2 <= 12
    ensures DaysBeforeMonth(year, m1) + DaysIn(year, m1) <= DaysBeforeMonth(year, m2)
    decreases m2 - m1
  {
    if m1 < m2 - 1 {
      MonthStartsIncrease(year, m1, m2 - 1);
    }
  }

  /** Two valid dates with the same day number are the same date. */
  lemma DayNumberInjective(y1: int, m1: int, d1: int, y2: int, m2: int, d2: int)
    requires 1 <= m1 <= 12 && 1 <= d1 <= DaysIn(y1, m1)
    requires 1 <= m2 <= 12 && 1 <= d2 <= DaysIn(y2, m2)
    requires DayNumber(y1, m1, d1) == DayNumber(y2, m2, d2)
    ensures y1 == y2 && m1 == m2 && d1 == d2
  {
    DayWithinYear(y1, m1, d1);
    DayWithinYear(y2, m2, d2);
    if y1 < y2 {
      YearStartsIncrease(y1 + 1, y2);
      assert false;
    } else if y2 < y1 {
      YearStartsIncrease(y2 + 1, y1);
      assert false;
    }
    if m1 < m2 {
      MonthStartsIncrease(y1, m1, m2);
      assert false;
    } else if m2 < m1 {
      MonthStartsIncrease(y1, m2, m1);
      assert false;
    }
  }

  /** Distinct instants have distinct nanosecond counts, so a valid record
      is determined by the instant it denotes. */
  lemma InstantNanosInjective(a: Instant, b: Instant)
    requires InstantNanos(a) == InstantNanos(b)
    ensures a == b
  {
    var da, db := DayNumber(a.year, a.month, a.day), DayNumber(b.year, b.month, b.day);
    var ta := (a.hour * 3_600 + a.min * 60 + a.sec) * NanosPerSecond + a.nsec;
    var tb := (b.hour * 3_600 + b.min * 60 + b.sec) * NanosPerSecond + b.nsec;
    assert InstantNanos(a) == da * NanosPerDay + ta && 0 <= ta < NanosPerDay;
    assert InstantNanos(b) == db * NanosPerDay + tb && 0 <= tb < NanosPerDay;
    assert da == db;
    DayNumberInjective(a.year, a.month, a.day, b.year, b.month, b.day);
  }

  /** IsZero holds of exactly one record, 0001-01-01 00:00:00.000000000. */
  lemma IsZeroIff(t: Instant)
    ensures IsZero(t) <==> t == ZeroInstant
  {
    assert InstantNanos(ZeroInstant) == 0;
    if IsZero(t) {
      InstantNanosInjective(t, ZeroInstant);
    }
  }

  /** time.Date gives the one valid record that denotes the instant its
      arguments describe. */
  lemma DateDenotes(t: Instant, year: int, month: int, day: int, hour: int, min: int, sec: int, nsec: int)
    requires InstantNanos(t) == DateNanos(year, month, day, hour, min, sec, nsec)
    ensures Date(year, month, day, hour, min, sec, nsec) == t
  {
    InstantNanosInjective(Date(year, month, day, hour, min, sec, nsec), t);
  }

  // ----- The two normalizations the utility relies on -----

  /** Day 0 of the month after p is the last day of p, in the same year,
      for every p in 1..12 (for p = 12, month 13 first carries into the
      next year's January). */
  lemma NextMonthDayZero(year: int, p: int)
    requires 1 <= p <= 12
    ensures Date(year, p + 1, 0, 0, 0, 0, 0) == DateTime(year, p, DaysIn(year, p), 0, 0, 0, 0)
  {
    LastDayNanos(year, p);
    DateDenotes(DateTime(year, p, DaysIn(year, p), 0, 0, 0, 0), year, p + 1, 0, 0, 0, 0, 0);
  }

  lemma LastDayNanos(year: int, p: int)
    requires 1 <= p <= 12
    ensures DateNanos(year, p + 1, 0, 0, 0, 0, 0) == InstantNanos(DateTime(year, p, DaysIn(year, p), 0, 0, 0, 0))
  {
    assert InstantNanos(DateTime(year, p, DaysIn(year, p), 0, 0, 0, 0)) == DayNumber(year, p, DaysIn(year, p)) * NanosPerDay;
    MonthEnd(year, p);
    if p == 12 {
      assert DateNanos(year, 13, 0, 0, 0, 0, 0) == DayNumber(year + 1, 1, 0) * NanosPerDay;
    } else {
      assert DateNanos(year, p + 1, 0, 0, 0, 0, 0) == DayNumber(year, p + 1, 0) * NanosPerDay;
    }
  }

  /** Month 0, day 0 of year Y + 1 is November 30 of year Y: month 0 is
      December of Y, and its day 0 is the last day of November. */
  lemma NextYearMonthZeroDayZero(year: int)
    ensures Date(year + 1, 0, 0, 0, 0, 0, 0) == DateTime(year, 11, 30, 0, 0, 0, 0)
  {
    var nov30: Instant := DateTime(year, 11, 30, 0, 0, 0, 0);
    MonthEnd(year, 11);
    assert DateNanos(year + 1, 0, 0, 0, 0, 0, 0) == DayNumber(year, 12, 0) * NanosPerDay;
    DateDenotes(nov30, year + 1, 0, 0, 0, 0, 0, 0);
  }

  // ----- Formatting -----

  /** The layout element for a zero-padded two-digit month. */
  const StdZeroMonth: string := "01"
  /** The layout element for a year of at least four digits. */
  const StdLongYear: string := "2006"

  /** Time.Format for a layout made of one of the two elements above.
      "01" always gives two digits reading as the month; "2006" gives the
      year zero-padded to exactly four digits, with more digits (and no
      leading zero) past 9999, and a leading '-' before year 0. */
  function Format(t: Instant, layout: string): (s: string)
    requires layout == StdZeroMonth || layout == StdLongYear
    ensures layout == StdZeroMonth ==>
      |s| == 2 && Decimal.AllDigits(s) && Decimal.Value(s) == t.month
    ensures layout == StdLongYear && 0 <= t.year ==>
      |s| >= 4 && Decimal.AllDigits(s) && Decimal.Value(s) == t.year
    ensures layout == StdLongYear && 0 <= t.year < 10_000 ==> |s| == 4
    ensures layout == StdLongYear && 10_000 <= t.year ==> s[0] != '0'
    ensures layout == StdLongYear && t.year < 0 ==>
      |s| >= 5 && s[0] == '-' && Decimal.AllDigits(s[1..]) && Decimal.Value(s[1..]) == -t.year
    ensures layout == StdLongYear && -10_000 < t.year < 0 ==> |s| == 5
    ensures layout == StdLongYear && t.year <= -10_000 ==> s[1] != '0'
  {
    if layout == StdZeroMonth then
      Decimal.FormatIntNonNegative(t.month, 2);
      Decimal.FormatInt(t.month, 2)
    else if 0 <= t.year then
      Decimal.FormatIntNonNegative(t.year, 4);
      Decimal.ValueBelowPow10(Decimal.FormatInt(t.year, 4), 4);
      assert Decimal.Pow10(4) == 10_000;
      Decimal.FormatInt(t.year, 4)
    else
      Decimal.FormatIntNegative(t.year, 4);
      Decimal.FormatIntNonNegative(-t.year, 4);
      Decimal.ValueBelowPow10(Decimal.FormatInt(-t.year, 4), 4);
      assert Decimal.Pow10(4) == 10_000;
      Decimal.FormatInt(t.year, 4)
  }
}
