/** The utility's time.go: previous-month and previous-year labels derived
    from a reference instant, the panic on an empty reference, and the
    package-level override of "now" used to make tests deterministic. */
module TimeUtil {
  import opened GoTime
  import Decimal

  /** Layout for a zero-padded two-digit month. */
  const Month: string := "01"
  /** Layout for a four-digit year. */
  const Year: string := "2006"

  /** The message of errorEmptyTime ("the time is empty"). */
  const ErrorEmptyTime: string := "빈 시간입니다."

  /** What a call does: return a string, or panic with a message. */
  datatype Outcome = Returned(value: string) | Panicked(message: string)

  datatype Option<T> = None | Some(value: T)

  /** The utility's Time value: a zone name (used only by CurrentTime, which
      is not part of this model) and the reference instant.  Time{} has the
      empty zone name and Go's zero instant. */
  datatype Time = Time(location: string, current: Instant)

  /** The calendar month before m, as the utility computes it. */
  function PreviousMonthNumber(m: int): (p: int)
    requires 1 <= m <= 12
    ensures 1 <= p <= 12 && p % 12 + 1 == m
  {
    if m == 1 then 12 else m - 1
  }

  /** Time.PreviousMonth: panics on the zero instant; otherwise steps the
      month back (January to December) and renders the month of
      time.Date(0, previous + 1, 0, 0, 0, 0, 0, UTC) with layout "01". */
  function PreviousMonth(t: Time): (r: Outcome)
    ensures r.Panicked? <==> IsZero(t.current)
    ensures r.Panicked? ==> r.message == ErrorEmptyTime
    ensures r.Returned? ==>
      && |r.value| == 2
      && Decimal.AllDigits(r.value)
      && 1 <= Decimal.Value(r.value) <= 12
      && Decimal.Value(r.value) % 12 + 1 == t.current.month
  {
    if IsZero(t.current) then
      Panicked(ErrorEmptyTime)
    else
      var previousMonth := PreviousMonthNumber(t.current.month);
      NextMonthDayZero(0, previousMonth);
      Returned(Format(Date(0, previousMonth + 1, 0, 0, 0, 0, 0), Month))
  }

  /** Time.PreviousYear: panics on the zero instant; otherwise renders the
      year of time.Date(year, 0, 0, 0, 0, 0, 0, UTC), where year is one more
      than the decremented reference year, with layout "2006".  The result
      is the reference year minus one: exactly four digits for reference
      years 1 through 10000, more digits without a leading zero above, and
      below that a '-' followed by the magnitude padded to four digits. */
  function PreviousYear(t: Time): (r: Outcome)
    ensures r.Panicked? <==> IsZero(t.current)
    ensures r.Panicked? ==> r.message == ErrorEmptyTime
    ensures r.Returned? && 1 <= t.current.year <= 10_000 ==>
      && |r.value| == 4
      && Decimal.AllDigits(r.value)
      && Decimal.Value(r.value) == t.current.year - 1
    ensures r.Returned? && 10_000 < t.current.year ==>
      && |r.value| >= 5
      && r.value[0] != '0'
      && Decimal.AllDigits(r.value)
      && Decimal.Value(r.value) == t.current.year - 1
    ensures r.Returned? && t.current.year < 1 ==>
      && |r.value| >= 5
      && r.value[0] == '-'
      && Decimal.AllDigits(r.value[1..])
      && Decimal.Value(r.value[1..]) == 1 - t.current.year
      && (-9_998 <= t.current.year ==> |r.value| == 5)
      && (t.current.year < -9_998 ==> r.value[1] != '0')
  {
    if IsZero(t.current) then
      Panicked(ErrorEmptyTime)
    else
      var previousYear := t.current.year - 1;
      NextYearMonthZeroDayZero(previousYear);
      var s := Format(Date(previousYear + 1, 0, 0, 0, 0, 0, 0), Year);
      if 0 <= previousYear then
        Decimal.ValueBelowPow10(s, 4);
        assert Decimal.Pow10(4) == 10_000;
        Returned(s)
      else
        Returned(s)
  }

  // ----- Properties of PreviousMonth -----

  /** For a January reference the result is "12", whatever the year, day
      and time of day. */
  lemma PreviousMonthOfJanuary(t: Time)
    requires t.current.month == 1 && !IsZero(t.current)
    ensures PreviousMonth(t) == Returned("12")
  {
    NextMonthDayZero(0, 12);
    assert Decimal.Digits(12) == "12";
  }

  /** For a reference month m in 2..12 the result is m - 1 zero-padded to
      two digits. */
  lemma PreviousMonthOfLaterMonth(t: Time)
    requires 2 <= t.current.month <= 12 && !IsZero(t.current)
    ensures PreviousMonth(t) == Returned(Decimal.FormatInt(t.current.month - 1, 2))
  {
    NextMonthDayZero(0, t.current.month - 1);
  }

  /** The result depends on the month of the reference instant alone. */
  lemma PreviousMonthDependsOnlyOnMonth(a: Time, b: Time)
    requires !IsZero(a.current) && !IsZero(b.current)
    requires a.current.month == b.current.month
    ensures PreviousMonth(a) == PreviousMonth(b)
  {
    var p := PreviousMonthNumber(a.current.month);
    NextMonthDayZero(0, p);
  }

  /** The example of the utility's tests: 2023-07-31 12:00 gives "06". */
  lemma PreviousMonthExample()
    ensures PreviousMonth(Time("", DateTime(2023, 7, 31, 12, 0, 0, 0))) == Returned("06")
  {
    var t := Time("", DateTime(2023, 7, 31, 12, 0, 0, 0));
    assert !IsZero(t.current) by {
      IsZeroIff(t.current);
    }
    PreviousMonthOfLaterMonth(t);
    assert Decimal.FormatInt(6, 2) == "06";
  }

  // ----- Properties of PreviousYear -----

  /** The example of the utility's tests: 2023-07-31 12:00 gives "2022". */
  lemma PreviousYearExample()
    ensures PreviousYear(Time("", DateTime(2023, 7, 31, 12, 0, 0, 0))) == Returned("2022")
  {
    var t := Time("", DateTime(2023, 7, 31, 12, 0, 0, 0));
    assert !IsZero(t.current) by {
      IsZeroIff(t.current);
    }
    NextYearMonthZeroDayZero(2022);
    assert Decimal.Digits(2022) == "2022";
  }

  /** Past the four-digit range the year is not padded further: reference
      year 10001 gives "10000". */
  lemma PreviousYearOfYear10001()
    ensures PreviousYear(Time("", DateTime(10_001, 1, 1, 0, 0, 0, 0))) == Returned("10000")
  {
    var t: Instant := DateTime(10_001, 1, 1, 0, 0, 0, 0);
    IsZeroIff(t);
    NextYearMonthZeroDayZero(10_000);
    assert Decimal.Digits(10_000) == "10000";
  }

  /** Before year 1 the magnitude is padded to four digits after the '-':
      reference year 0 gives "-0001". */
  lemma PreviousYearOfYear0()
    ensures PreviousYear(Time("", DateTime(0, 1, 1, 0, 0, 0, 0))) == Returned("-0001")
  {
    var t: Instant := DateTime(0, 1, 1, 0, 0, 0, 0);
    IsZeroIff(t);
    NextYearMonthZeroDayZero(-1);
    assert Decimal.FormatInt(-1, 4) == "-0001";
  }

  /** The result depends on the year of the reference instant alone. */
  lemma PreviousYearDependsOnlyOnYear(a: Time, b: Time)
    requires !IsZero(a.current) && !IsZero(b.current)
    requires a.current.year == b.current.year
    ensures PreviousYear(a) == PreviousYear(b)
  {
    NextYearMonthZeroDayZero(a.current.year - 1);
  }

  // ----- The empty reference -----

  /** Time{} (and any Time whose reference is the zero instant) makes both
      operations panic with errorEmptyTime's message, and only those do. */
  lemma EmptyTimePanics(t: Time)
    ensures PreviousMonth(t) == Panicked(ErrorEmptyTime) <==> t.current == ZeroInstant
    ensures PreviousYear(t) == Panicked(ErrorEmptyTime) <==> t.current == ZeroInstant
  {
    IsZeroIff(t.current);
  }

  // ----- The clock override -----

  /** The package-level nowFunc variable.  None stands for Go's nil, which
      makes now() fall back to the real clock. */
  class Clock {
    var nowFunc: Option<() -> Instant>

    /** The variable starts out nil. */
    constructor ()
      ensures nowFunc == None
    {
      nowFunc := None;
    }

    /** SetNowTime: installs fn (None to restore the real clock).  From then
        on, until the next SetNowTime, every now() gives fn's instant
        whatever the real clock reads, or the real clock's reading if fn is
        None. */
    method SetNowTime(fn: Option<() -> Instant>)
      modifies this
      ensures nowFunc == fn
      ensures forall wall: Instant :: Now(wall) == (if fn.Some? then fn.value() else wall)
    {
      nowFunc := fn;
    }

    /** now(): the override's instant when one is installed, otherwise the
        real clock's reading in UTC, which is passed in as wall. */
    function Now(wall: Instant): (t: Instant)
      reads this
      ensures nowFunc.Some? ==> t == nowFunc.value()
      ensures nowFunc.None? ==> t == wall
    {
      match nowFunc
      case None => wall
      case Some(f) => f()
    }
  }

  /** After SetNowTime(f), now() gives f() on every call whatever the real
      clock says, until another override is installed; after
      SetNowTime(nil) it gives the real clock again. */
  method OverrideLastsUntilReplaced(f: () -> Instant, g: () -> Instant, w1: Instant, w2: Instant, w3: Instant, w4: Instant)
    returns (a: Instant, b: Instant, c: Instant, d: Instant)
    ensures a == f() && b == f()
    ensures c == g()
    ensures d == w4
  {
    var clock := new Clock();
    clock.SetNowTime(Some(f));
    a := clock.Now(w1);
    b := clock.Now(w2);
    clock.SetNowTime(Some(g));
    c := clock.Now(w3);
    clock.SetNowTime(None);
    d := clock.Now(w4);
  }
}
