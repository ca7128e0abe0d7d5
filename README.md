# Previous month / previous year labels and the mockable clock, in Dafny

This project models `time.go` of a small Go date/time utility. The utility
has three parts:

- `Time.PreviousMonth` turns a reference instant into the two-digit label of
  the calendar month before it ("06" for any day of July, "12" for any day of
  January).
- `Time.PreviousYear` turns a reference instant into the label of the year
  before it ("2022" for any instant in 2023).
- A package-level `nowFunc` override, installed with `SetNowTime` and read by
  `now()`, lets tests fix "now".

Both labels are computed with a normalization trick of Go's `time.Date`.
`PreviousMonth` builds day 0 of the month after the wanted month. `PreviousYear`
builds month 0, day 0 of the year after the wanted year. Then the result is
formatted with the layout `"01"` or `"2006"`. The Go code does no arithmetic
on month lengths itself, so the model also covers the part of Go's time
package that the trick relies on:

- `decimal.dfy` (module `Decimal`) models Go's `appendInt`: zero-padding to a
  minimum width and a leading '-'. `Value` reads a digit string back, so that
  contracts can say which number a label denotes.
- `gotime.dfy` (module `GoTime`) models the rest of Go's time package that the
  code uses:
  - UTC instants as calendar records (`Instant`, a subset type of `DateTime`).
  - `norm`.
  - `time.Date`, which normalizes out-of-range months, days and times of day.
  - `IsZero`.
  - `Format` for the two layout elements the utility uses.

  Go's `Date` computes an absolute day count and converts it back to a date.
  The model normalizes the day one month at a time instead. `Date`'s contract
  says that the result denotes the same nanosecond count as its arguments.
  `InstantNanosInjective` shows that a valid record is determined by that
  count. So the model's result is the one Go computes.
- `timeutil.dfy` (module `TimeUtil`) models the utility itself:
  - the `Month`/`Year` layouts;
  - the `errorEmptyTime` message;
  - the value type `Time`;
  - `PreviousMonth` and `PreviousYear`, whose panic is the `Panicked` case of
    `Outcome`;
  - the `nowFunc` override, as class `Clock`.

## Model

| member | source | states |
|---|---|---|
| `TimeUtil.PreviousMonth` | time.go:70-81 | Panics with the `errorEmptyTime` message exactly when the reference is the zero instant. Otherwise it returns two decimal digits. Their value v is in 1..12, and the month after v is the reference month (v mod 12 + 1 = month). |
| `TimeUtil.PreviousMonthNumber` | time.go:74-79 | The stepped-back month p is in 1..12, and p mod 12 + 1 is the reference month, so January steps back to December. |
| `TimeUtil.PreviousMonthOfJanuary` | time.go:77-80 | A non-zero reference in January gives "12", whatever its year, day and time of day. |
| `TimeUtil.PreviousMonthOfLaterMonth` | time.go:74-80 | A non-zero reference in month m in 2..12 gives m - 1, zero-padded to two digits. |
| `TimeUtil.PreviousMonthDependsOnlyOnMonth` | time.go:74-80 | Two non-zero references with the same month give the same result. Year, day and time of day do not matter. |
| `TimeUtil.PreviousMonthExample` | time_test.go:25-32 | 2023-07-31 12:00:00 UTC gives "06". |
| `TimeUtil.PreviousYear` | time.go:83-90 | Panics with the `errorEmptyTime` message exactly when the reference is the zero instant. Otherwise: reference years 1..10000 give exactly four digits denoting year - 1. Larger years give five or more digits denoting year - 1, with no leading zero. Years below 1 give '-' followed by the digits of 1 - year: five characters in all down to year -9998, and no zero after the '-' below that. |
| `TimeUtil.PreviousYearOfYear10001` | time.go:87-89 | Reference year 10001 gives "10000": the year is not padded beyond four digits. |
| `TimeUtil.PreviousYearOfYear0` | time.go:87-89 | Reference year 0 gives "-0001": the magnitude is padded to four digits after the '-'. |
| `TimeUtil.PreviousYearDependsOnlyOnYear` | time.go:87-89 | Two non-zero references with the same year give the same result. |
| `TimeUtil.PreviousYearExample` | time_test.go:48-55 | 2023-07-31 12:00:00 UTC gives "2022". |
| `TimeUtil.EmptyTimePanics` | time.go:64-86 | Both operations give `Panicked(errorEmptyTime)` if and only if the reference is 0001-01-01 00:00:00 UTC, the reference of `Time{}`. |
| `TimeUtil.Clock.constructor` | time.go:25-27 | `nowFunc` starts out nil. |
| `TimeUtil.Clock.SetNowTime` | time.go:39-41 | After the call, the override is exactly the given function, or nil. For every real-clock reading, `now()` then returns the override's value, or the reading itself when the override is nil. |
| `TimeUtil.Clock.Now` | time.go:33-38 | Returns the override's value when one is installed. Otherwise returns the real clock's UTC reading. |
| `TimeUtil.OverrideLastsUntilReplaced` | time.go:33-41 | After `SetNowTime(f)`, every `now()` returns `f()` whatever the real clock reads. After another override g, it returns `g()`. After `SetNowTime(nil)`, it returns the real clock's reading. |
| `GoTime.NextMonthDayZero` | time.go:80 | For every p in 1..12 and every year, day 0 of month p + 1 normalizes to the last day of month p in the same year. For p = 12, month 13 first carries into the next January. |
| `GoTime.NextYearMonthZeroDayZero` | time.go:89 | Month 0, day 0 of year Y + 1 normalizes to November 30 of year Y, so its year is Y. |
| `GoTime.Date` | time.go:80 | The normalized record denotes the same instant as the arguments. The month carries into the year by floor division. Nanoseconds, seconds, minutes, hours and days are offsets from the start of that month. |
| `GoTime.DateDenotes` | time.go:89 | Any valid record that denotes the arguments' instant is the one `Date` returns. |
| `GoTime.NormalizeDay` | time.go:80 | Day normalization gives a valid date (month 1..12, day 1..days in month) with the same day number as its arguments. |
| `GoTime.Norm` | time.go:80 | `norm` leaves lo in [0, base) and keeps hi * base + lo unchanged. |
| `GoTime.InstantNanosInjective` | time.go:71 | Two valid records that denote the same instant are equal. |
| `GoTime.IsZeroIff` | time.go:71 | `IsZero` holds of exactly one record, 0001-01-01 00:00:00.000000000 UTC. |
| `GoTime.Format` | time.go:17-18 | `"01"` gives two digits denoting the month. `"2006"` gives digits denoting the year: exactly four below 10000, more with no leading zero from 10000 on. A negative year gives '-' and the digits of its magnitude: five characters in all above -10000, and no zero after the '-' from -10000 down. |
| `Decimal.FormatIntNonNegative` | time.go:17-18 | A non-negative number renders as digits only, at least `width` of them. It renders as exactly `width` digits when it is below 10^width. A rendering longer than `width` does not start with '0'. Reading the digits back gives the number. |

## Left out

- `Time.CurrentTime` (time.go:52-62) is not modelled. It reads the real clock and loads a zone from the operating system's time-zone database.
- The real-clock branch of `now()` (time.go:35) is the parameter `wall` of `Clock.Now`. It stands for `time.Now().UTC()`.
- Overrides are pure Dafny functions `() -> Instant`. A Go override may return a different value on each call, or panic. That is not modelled.
- There is no synchronization on `nowFunc`, and concurrent access to it is not modelled.
- Instants carry no location. The model has UTC only: `Month()` and `Year()` read the fields of a UTC record. Go reads them in the `Time`'s own location, and `IsZero` compares the absolute instant. Go's monotonic clock reading is not modelled either.
- `Format` covers only the layouts `"01"` and `"2006"`. General layout parsing is not modelled.
- The constants `DateLayout6` to `DateLayout19`, `AsiaSeoul` and `Local` (time.go:9-16) are not modelled. No code in time.go parses or converts with them. time.go has no date-string conversion and no past-date check.
- Years are unbounded integers. Go's `time.Date` wraps around outside the range of an int64 count of seconds, roughly ±292 billion years. That is not modelled.
- A panic is a returned `Panicked(message)` value. Stack unwinding and `recover` are not modelled.

## Notes on the code

- The month wraps from January back to December (time.go:77-79).
- The year label has exactly four digits only for previous years 0 to 9999. Go's `"2006"` element pads to four digits but never truncates, and writes '-' before negative years.
- The normalized date inside `PreviousYear` is November 30 of the previous year, not December 31 (time.go:89). Only its year is formatted, so the label is the same.
