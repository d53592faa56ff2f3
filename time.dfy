/** `java.time` as the core uses it: date-times as whole seconds and dates as epoch days of
    the proleptic Gregorian calendar, with no time zone. */
module Time {
  import opened Wrappers

  /** A `LocalDateTime`: seconds since 1970-01-01T00:00. */
  type Timestamp = int

  /** A `LocalDate`: days since 1970-01-01. */
  type Day = int

  const SecondsPerDay: int := 86400

  /** `LocalDateTime.toLocalDate()`: the day the instant falls on. */
  function DayOf(t: Timestamp): (d: Day)
    ensures d * SecondsPerDay <= t < d * SecondsPerDay + SecondsPerDay
  {
    t / SecondsPerDay
  }

  /** `ChronoUnit.DAYS.between(a, b)` on date-times: the complete days from `a` to `b`,
      truncated toward zero and negative when `b` is before `a`. */
  function DaysBetween(a: Timestamp, b: Timestamp): (n: int)
    ensures a <= b ==> 0 <= n && n * SecondsPerDay <= b - a < n * SecondsPerDay + SecondsPerDay
    ensures b < a ==> n <= 0 && -n * SecondsPerDay <= a - b < -n * SecondsPerDay + SecondsPerDay
  {
    if a <= b then (b - a) / SecondsPerDay else -((a - b) / SecondsPerDay)
  }

  predicate IsLeap(y: int) {
    y % 4 == 0 && (y % 100 != 0 || y % 400 == 0)
  }

  /** The epoch day of January 1 of year `y`: 365 days a year plus the leap days since 1970. */
  function YearStart(y: int): Day {
    var p := y - 1;
    365 * (y - 1970) + (p / 4 - 492) - (p / 100 - 19) + (p / 400 - 4)
  }

  /** A year has 366 days exactly when it is a leap year. */
  lemma YearLength(y: int)
    ensures YearStart(y + 1) - YearStart(y) == if IsLeap(y) then 366 else 365
  {
    DivStep(y, 4);
    DivStep(y, 100);
    DivStep(y, 400);
  }

  lemma DivStep(y: int, k: int)
    requires k == 4 || k == 100 || k == 400
    ensures y / k - (y - 1) / k == if y % k == 0 then 1 else 0
  {
  }

  lemma {:induction false} YearStartMonotone(a: int, b: int)
    requires a < b
    ensures YearStart(a) < YearStart(b)
    decreases b - a
  {
    YearLength(a);
    if a + 1 < b {
      YearStartMonotone(a + 1, b);
    }
  }

  /** The year of an epoch day (`LocalDate.year`). */
  function YearOf(d: Day): (y: int)
    ensures YearStart(y) <= d < YearStart(y + 1)
  {
    if d >= 0 then YearFrom(d, 1970) else YearBefore(d, 1969)
  }

  function YearFrom(d: Day, y: int): (r: int)
    requires YearStart(y) <= d
    ensures YearStart(r) <= d < YearStart(r + 1)
    decreases d - YearStart(y)
  {
    YearLength(y);
    if d < YearStart(y + 1) then y else YearFrom(d, y + 1)
  }

  function YearBefore(d: Day, y: int): (r: int)
    requires d < YearStart(y + 1)
    ensures YearStart(r) <= d < YearStart(r + 1)
    decreases YearStart(y + 1) - d
  {
    YearLength(y);
    if YearStart(y) <= d then y else YearBefore(d, y - 1)
  }

  /** Every day belongs to exactly one year: the one whose January 1 is the last one not after it. */
  lemma YearOfIff(d: Day, y: int)
    ensures YearOf(d) == y <==> YearStart(y) <= d < YearStart(y + 1)
  {
    var z := YearOf(d);
    if z < y {
      YearStartMonotone(z, y);
      if z + 1 < y {
        YearStartMonotone(z + 1, y);
      }
    } else if y < z {
      YearStartMonotone(y, z);
      if y + 1 < z {
        YearStartMonotone(y + 1, z);
      }
    }
  }

  /** The year range `LocalDate` accepts. */
  const MinYear: int := -999_999_999
  const MaxYear: int := 999_999_999

  function DaysInMonth(y: int, m: int): int
    requires 1 <= m <= 12
  {
    if m == 2 then (if IsLeap(y) then 29 else 28)
    else if m == 4 || m == 6 || m == 9 || m == 11 then 30
    else 31
  }

  /** The days of year `y` before the first of month `m`. */
  function DaysBeforeMonth(y: int, m: int): (n: int)
    requires 1 <= m <= 12
    ensures 0 <= n && n + DaysInMonth(y, m) <= YearStart(y + 1) - YearStart(y)
  {
    YearLength(y);
    [0, 31, 59, 90, 120, 151, 181, 212, 243, 273, 304, 334][m - 1] + (if m > 2 && IsLeap(y) then 1 else 0)
  }

  /** `LocalDate.of(year, month, dayOfMonth)`, which throws DateTimeException for a field out of range. */
  function DateOf(year: int, month: int, dayOfMonth: int): (r: Result<Day>)
    ensures r.Success? <==>
      MinYear <= year <= MaxYear && 1 <= month <= 12 && 1 <= dayOfMonth <= DaysInMonth(year, month)
    ensures r.Success? ==> YearOf(r.value) == year
    ensures r.Success? && month == 1 && dayOfMonth == 1 ==> r.value == YearStart(year)
  {
    if !(MinYear <= year <= MaxYear) then Failure(DateTime("Invalid value for Year"))
    else if !(1 <= month <= 12) then Failure(DateTime("Invalid value for MonthOfYear"))
    else if !(1 <= dayOfMonth <= DaysInMonth(year, month)) then Failure(DateTime("Invalid date"))
    else
      var d := YearStart(year) + DaysBeforeMonth(year, month) + dayOfMonth - 1;
      YearOfIff(d, year);
      Success(d)
  }

  /** December 31 is the last day of its year. */
  lemma LastDayOfYear(year: int)
    requires MinYear <= year <= MaxYear
    ensures DateOf(year, 12, 31).Success?
    ensures DateOf(year, 12, 31).value == YearStart(year + 1) - 1
  {
    YearLength(year);
    assert DaysBeforeMonth(year, 12) == 334 + (if IsLeap(year) then 1 else 0);
  }
}
