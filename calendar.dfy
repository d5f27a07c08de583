/** The part of `System.DateTime` the date rules read: a proleptic Gregorian
    civil date in years 1..9999, its day number counted from 0001-01-01 (which
    is how .NET stores a date), the weekday derived from that number, a short
    `AddDays`, and a timestamp with its tick count. */
module Calendar {
  import opened Common

  datatype Date = Date(year: int, month: int, day: int)

  predicate IsLeapYear(y: int) {
    y % 4 == 0 && (y % 100 != 0 || y % 400 == 0)
  }

  function DaysInMonth(y: int, m: int): (n: int)
    requires 1 <= m <= 12
    ensures 28 <= n <= 31
  {
    if m == 2 then (if IsLeapYear(y) then 29 else 28)
    else if m == 4 || m == 6 || m == 9 || m == 11 then 30
    else 31
  }

  /** The dates `System.DateTime` can represent. */
  predicate ValidDate(d: Date) {
    1 <= d.year <= 9999 && 1 <= d.month <= 12 && 1 <= d.day <= DaysInMonth(d.year, d.month)
  }

  /** `new DateTime(year, month, day)`, which throws for a date that does not exist. */
  function NewDate(year: int, month: int, day: int): (r: Result<Date>)
    ensures r.Ok? <==> ValidDate(Date(year, month, day))
    ensures r.Ok? ==> r.value == Date(year, month, day)
    ensures r.Throw? ==> r.error == ArgumentOutOfRange
  {
    if ValidDate(Date(year, month, day)) then Ok(Date(year, month, day)) else Throw(ArgumentOutOfRange)
  }

  /** Days from 0001-01-01 to January 1 of year `y`. */
  function DaysBeforeYear(y: int): int
    requires y >= 1
  {
    var p := y - 1;
    365 * p + p / 4 - p / 100 + p / 400
  }

  /** Days from January 1 to the first day of month `m`. */
  function DaysBeforeMonth(y: int, m: int): int
    requires 1 <= m <= 12
  {
    [0, 31, 59, 90, 120, 151, 181, 212, 243, 273, 304, 334][m - 1]
    + (if m > 2 && IsLeapYear(y) then 1 else 0)
  }

  /** Days from 0001-01-01 to `d` (`DateTime.Ticks / TimeSpan.TicksPerDay`). */
  function DayNumber(d: Date): (n: int)
    requires ValidDate(d)
    ensures n >= 0
  {
    DaysBeforeYear(d.year) + DaysBeforeMonth(d.year, d.month) + d.day - 1
  }

  /** `System.DayOfWeek`, in its own order (Sunday is 0). */
  datatype DayOfWeek = Sunday | Monday | Tuesday | Wednesday | Thursday | Friday | Saturday

  const WeekDays: seq<DayOfWeek> := [Sunday, Monday, Tuesday, Wednesday, Thursday, Friday, Saturday]

  /** `DateTime.DayOfWeek`: 0001-01-01 was a Monday, so the weekday index is (day number + 1) mod 7. */
  function WeekdayIndex(d: Date): (w: int)
    requires ValidDate(d)
    ensures 0 <= w < 7
  {
    (DayNumber(d) + 1) % 7
  }

  function DayOfWeekOf(d: Date): DayOfWeek
    requires ValidDate(d)
  {
    WeekDays[WeekdayIndex(d)]
  }

  /** A day whose number is one short of a multiple of 7 is a Sunday, like 0000-12-31 would be. */
  lemma SundayByDayNumber(d: Date)
    requires ValidDate(d) && (DayNumber(d) + 1) % 7 == 0
    ensures DayOfWeekOf(d) == Sunday
  {
  }

  /** `date.AddDays(k)` for a step of at most four weeks, which crosses at most one month end.
      .NET throws past 9999-12-31; the single caller never gets near it. */
  function AddDays(d: Date, k: int): (r: Date)
    requires ValidDate(d) && 0 <= k <= 28
    requires !(d.year == 9999 && d.month == 12 && d.day + k > 31)
    ensures ValidDate(r)
    ensures DayNumber(r) == DayNumber(d) + k
  {
    var dim := DaysInMonth(d.year, d.month);
    if d.day + k <= dim then
      Date(d.year, d.month, d.day + k)
    else if d.month < 12 then
      assert DaysBeforeMonth(d.year, d.month + 1) == DaysBeforeMonth(d.year, d.month) + dim;
      Date(d.year, d.month + 1, d.day + k - dim)
    else
      DaysBeforeNextYear(d.year);
      Date(d.year + 1, 1, d.day + k - dim)
  }

  // ---------------------------------------------------------------------
  // Arithmetic behind the day numbers
  // ---------------------------------------------------------------------

  /** Stepping a positive year by one adds one to its quotient by 4, 100 or 400 exactly
      when it becomes a multiple of that divisor. */
  lemma DivStep(y: int)
    requires y >= 1
    ensures y / 4 == (y - 1) / 4 + (if y % 4 == 0 then 1 else 0)
    ensures y / 100 == (y - 1) / 100 + (if y % 100 == 0 then 1 else 0)
    ensures y / 400 == (y - 1) / 400 + (if y % 400 == 0 then 1 else 0)
  {
  }

  /** A year has 366 days exactly when it is a leap year. */
  lemma DaysBeforeNextYear(y: int)
    requires y >= 1
    ensures DaysBeforeYear(y + 1) == DaysBeforeYear(y) + (if IsLeapYear(y) then 366 else 365)
  {
    DivStep(y);
    LeapYearByMultiples(y);
  }

  /** The leap-year rule as a count of the divisors 4, 100 and 400. */
  lemma LeapYearByMultiples(y: int)
    requires y >= 1
    ensures (if IsLeapYear(y) then 1 else 0)
         == (if y % 4 == 0 then 1 else 0) - (if y % 100 == 0 then 1 else 0) + (if y % 400 == 0 then 1 else 0)
  {
    if y % 100 == 0 {
      MultipleOfFactor(y / 100, 25, 4);
    }
    if y % 400 == 0 {
      MultipleOfFactor(y / 400, 4, 100);
    }
  }

  /** A multiple of `a * b` is a multiple of `b`. */
  lemma MultipleOfFactor(q: int, a: int, b: int)
    requires (a == 25 && b == 4) || (a == 4 && b == 100)
    ensures (a * b * q) % b == 0
  {
    assert a * b * q == b * (a * q);
  }

  /** January 1 follows December 31 of the year before. */
  lemma {:induction false} NewYearFollows(y: int)
    requires 2 <= y <= 9999
    ensures DayNumber(Date(y, 1, 1)) == DayNumber(Date(y - 1, 12, 31)) + 1
  {
    DaysBeforeNextYear(y - 1);
  }

  // ---------------------------------------------------------------------
  // Timestamps
  // ---------------------------------------------------------------------

  const TicksPerSecond: int := 10_000_000
  const TicksPerMinute: int := 600_000_000
  const TicksPerHour: int := 36_000_000_000
  const TicksPerDay: int := 864_000_000_000

  /** A `DateTime` with its time of day; `fraction` is the ticks (100 ns) below the second. */
  datatype DateTime = DateTime(date: Date, hour: int, minute: int, second: int, fraction: int)

  predicate ValidDateTime(t: DateTime) {
    ValidDate(t.date) && 0 <= t.hour < 24 && 0 <= t.minute < 60 && 0 <= t.second < 60
    && 0 <= t.fraction < TicksPerSecond
  }

  /** `DateTime.Ticks`, which `>` compares. */
  function Ticks(t: DateTime): int
    requires ValidDateTime(t)
  {
    DayNumber(t.date) * TicksPerDay + t.hour * TicksPerHour + t.minute * TicksPerMinute
    + t.second * TicksPerSecond + t.fraction
  }
}
