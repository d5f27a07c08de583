/** The `DateExtensions` class: the same calendar rules as `Dates`, written as
    extension methods (`GetCatholicEaster` extends `int`). Each is modelled from
    its own text and proved to agree with the `Dates` version, so every property
    proved there carries over. */
module DateExtensions {
  import opened Common
  import opened Calendar
  import Dates

  /** `IsFederalHoliday`: the chain of `if (...) return true;` tests is the disjunction of their conditions. */
  function IsFederalHoliday(date: Date): (holiday: bool)
    requires ValidDate(date)
    ensures holiday ==> DayOfWeekOf(date) != Saturday && DayOfWeekOf(date) != Sunday
  {
    var nthWeekDay := (date.day + 6) / 7;
    var dayName := DayOfWeekOf(date);
    var isThursday := dayName == Thursday;
    var isFriday := dayName == Friday;
    var isMonday := dayName == Monday;
    var isWeekend := dayName == Saturday || dayName == Sunday;
    (date.month == 12 && date.day == 31 && isFriday)
    || (date.month == 1 && date.day == 1 && !isWeekend)
    || (date.month == 1 && date.day == 2 && isMonday)
    || (date.month == 1 && isMonday && nthWeekDay == 3)
    || (date.month == 2 && isMonday && nthWeekDay == 3)
    || (date.month == 5 && isMonday && AddDays(date, 7).month == 6)
    || (date.month == 7 && date.day == 3 && isFriday)
    || (date.month == 7 && date.day == 4 && !isWeekend)
    || (date.month == 7 && date.day == 5 && isMonday)
    || (date.month == 9 && isMonday && nthWeekDay == 1)
    || (date.month == 10 && isMonday && nthWeekDay == 2)
    || (date.month == 11 && date.day == 10 && isFriday)
    || (date.month == 11 && date.day == 11 && !isWeekend)
    || (date.month == 11 && date.day == 12 && isMonday)
    || (date.month == 11 && isThursday && nthWeekDay == 4)
    || (date.month == 12 && date.day == 24 && isFriday)
    || (date.month == 12 && date.day == 25 && !isWeekend)
    || (date.month == 12 && date.day == 26 && isMonday)
  }

  /** `GetCatholicEaster(this int Year)`. Its arithmetic is character for character that of
      `Dates.GetCatholicEaster`, so the steps of the computus are the ones defined there;
      this copy keeps its own `Month` variable and `P -= 31` adjustment. */
  function GetCatholicEaster(year: int): (r: Result<Date>)
    ensures r.Ok? ==> ValidDate(r.value) && r.value.year == year
    ensures r.Throw? ==> r.error == ArgumentOutOfRange
  {
    var p := Dates.EasterMarchDay(year);
    var month := if p > 31 then 4 else 3;
    var day := if p > 31 then p - 31 else p;
    NewDate(year, month, day)
  }

  /** `IsChristmasEve`: December 24 and later than 13:00:00 that day, to the tick. */
  function IsChristmasEve(dateTimeRequested: DateTime): (r: bool)
    requires ValidDateTime(dateTimeRequested)
    ensures var t := dateTimeRequested;
      r <==> t.date.month == 12 && t.date.day == 24
             && (t.hour > 13 || (t.hour == 13 && (t.minute > 0 || t.second > 0 || t.fraction > 0)))
  {
    var closingTime := DateTime(Date(dateTimeRequested.date.year, 12, 24), 13, 0, 0, 0);
    dateTimeRequested.date.month == 12 && dateTimeRequested.date.day == 24
    && Ticks(dateTimeRequested) > Ticks(closingTime)
  }

  // ---------------------------------------------------------------------
  // Agreement with `Dates`
  // ---------------------------------------------------------------------

  /** Both holiday tests give the same answer on every date. */
  lemma FederalHolidayAgrees(date: Date)
    requires ValidDate(date)
    ensures IsFederalHoliday(date) == Dates.IsFederalHoliday(date)
  {
  }

  /** Both Easter computations give the same date, or the same exception, for every year. */
  lemma EasterAgrees(year: int)
    ensures GetCatholicEaster(year) == Dates.GetCatholicEaster(year)
  {
  }

  /** Both Christmas Eve tests give the same answer at every instant. */
  lemma ChristmasEveAgrees(t: DateTime)
    requires ValidDateTime(t)
    ensures IsChristmasEve(t) == Dates.IsChristmasEve(t)
  {
  }

  // ---------------------------------------------------------------------
  // The `Dates` properties, for this copy
  // ---------------------------------------------------------------------

  /** The nth-weekday rules as day ranges, and Memorial Day as a May Monday from the 25th on. */
  lemma FederalHolidayRules(date: Date)
    requires ValidDate(date)
    ensures IsFederalHoliday(date) <==> Dates.HolidayByCalendarRules(date)
  {
    FederalHolidayAgrees(date);
    Dates.FederalHolidayRules(date);
  }

  /** In each year exactly one day of each observed triple is a holiday. */
  lemma {:induction false} ObservedTriplesExactlyOne(year: int)
    requires 2 <= year <= 9999
    ensures (if IsFederalHoliday(Date(year - 1, 12, 31)) then 1 else 0) + (if IsFederalHoliday(Date(year, 1, 1)) then 1 else 0)
      + (if IsFederalHoliday(Date(year, 1, 2)) then 1 else 0) == 1
    ensures (if IsFederalHoliday(Date(year, 7, 3)) then 1 else 0) + (if IsFederalHoliday(Date(year, 7, 4)) then 1 else 0)
      + (if IsFederalHoliday(Date(year, 7, 5)) then 1 else 0) == 1
    ensures (if IsFederalHoliday(Date(year, 11, 10)) then 1 else 0) + (if IsFederalHoliday(Date(year, 11, 11)) then 1 else 0)
      + (if IsFederalHoliday(Date(year, 11, 12)) then 1 else 0) == 1
    ensures (if IsFederalHoliday(Date(year, 12, 24)) then 1 else 0) + (if IsFederalHoliday(Date(year, 12, 25)) then 1 else 0)
      + (if IsFederalHoliday(Date(year, 12, 26)) then 1 else 0) == 1
  {
    var days := [Date(year - 1, 12, 31), Date(year, 1, 1), Date(year, 1, 2),
                 Date(year, 7, 3), Date(year, 7, 4), Date(year, 7, 5),
                 Date(year, 11, 10), Date(year, 11, 11), Date(year, 11, 12),
                 Date(year, 12, 24), Date(year, 12, 25), Date(year, 12, 26)];
    forall i | 0 <= i < |days|
      ensures IsFederalHoliday(days[i]) == Dates.IsFederalHoliday(days[i])
    {
      FederalHolidayAgrees(days[i]);
    }
    Dates.NewYearsDayExactlyOne(year);
    Dates.IndependenceDayExactlyOne(year);
    Dates.VeteransDayExactlyOne(year);
    Dates.ChristmasDayExactlyOne(year);
  }

  /** Before the year 9000 Easter is a Sunday between March 22 and April 25. */
  lemma {:induction false} EasterSundayWindow(year: int)
    requires 1 <= year <= 8999
    ensures GetCatholicEaster(year).Ok?
    ensures var d := GetCatholicEaster(year).value;
      DayOfWeekOf(d) == Sunday
      && ((d.month == 3 && 22 <= d.day <= 31) || (d.month == 4 && 1 <= d.day <= 25))
  {
    EasterAgrees(year);
    Dates.EasterWindow(year);
    Dates.EasterIsSunday(year);
  }
}
