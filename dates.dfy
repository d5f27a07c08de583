/** The calendar rules of the static `Dates` class: United States federal
    holidays with their weekend "observed" shifts, the date of Easter by
    Gauss's computus, and the Christmas Eve closing time. */
module Dates {
  import opened Common
  import opened Calendar

  /** `(int)Math.Ceiling(day / 7.0)`: which occurrence of its weekday the day is within the month. */
  function NthWeekDay(day: int): (n: int)
    requires day >= 1
    ensures n >= 1
    ensures 7 * (n - 1) < day <= 7 * n
  {
    (day + 6) / 7
  }

  /** Whether `date` is a federal holiday, or the weekday on which a weekend holiday is observed. */
  function IsFederalHoliday(date: Date): (holiday: bool)
    requires ValidDate(date)
    ensures holiday ==> DayOfWeekOf(date) != Saturday && DayOfWeekOf(date) != Sunday
  {
    var nthWeekDay := NthWeekDay(date.day);
    var dayName := DayOfWeekOf(date);
    var isThursday := dayName == Thursday;
    var isFriday := dayName == Friday;
    var isMonday := dayName == Monday;
    var isWeekend := dayName == Saturday || dayName == Sunday;
    // New Year's Day
    if (date.month == 12 && date.day == 31 && isFriday)
       || (date.month == 1 && date.day == 1 && !isWeekend)
       || (date.month == 1 && date.day == 2 && isMonday) then true
    // Martin Luther King Jr. Day and Presidents' Day: third Monday
    else if date.month == 1 && isMonday && nthWeekDay == 3 then true
    else if date.month == 2 && isMonday && nthWeekDay == 3 then true
    // Memorial Day: a May Monday a week before June
    else if date.month == 5 && isMonday && AddDays(date, 7).month == 6 then true
    // Independence Day
    else if (date.month == 7 && date.day == 3 && isFriday)
       || (date.month == 7 && date.day == 4 && !isWeekend)
       || (date.month == 7 && date.day == 5 && isMonday) then true
    // Labor Day and Columbus Day: first and second Monday
    else if date.month == 9 && isMonday && nthWeekDay == 1 then true
    else if date.month == 10 && isMonday && nthWeekDay == 2 then true
    // Veterans Day
    else if (date.month == 11 && date.day == 10 && isFriday)
       || (date.month == 11 && date.day == 11 && !isWeekend)
       || (date.month == 11 && date.day == 12 && isMonday) then true
    // Thanksgiving: fourth Thursday
    else if date.month == 11 && isThursday && nthWeekDay == 4 then true
    // Christmas Day
    else if (date.month == 12 && date.day == 24 && isFriday)
       || (date.month == 12 && date.day == 25 && !isWeekend)
       || (date.month == 12 && date.day == 26 && isMonday) then true
    else false
  }

  // Gauss's computus, step by step, with C# arithmetic (truncating `/` and `%`).

  /** "G": the year's place in the 19-year lunar cycle, plus one. */
  function GoldenNumber(year: int): (g: int)
    ensures year >= 0 ==> 1 <= g <= 19
  {
    CMod(year, 19) + 1
  }

  /** "Century": the year's century, counted from 1. */
  function CenturyNumber(year: int): int
  {
    CDiv(year, 100) + 1
  }

  /** "X": the century years that were not leap years. */
  function LeapCorrection(century: int): int
  {
    CDiv(3 * century, 4) - 12
  }

  /** "Y": the moon correction. */
  function MoonCorrection(century: int): int
  {
    CDiv(8 * century + 5, 25) - 5
  }

  /** "Z": the offset that finds Sunday. */
  function SundayOffset(year: int, x: int): int
  {
    CDiv(5 * year, 4) - x - 10
  }

  /** "E": the age of the moon on January 1, with its two exceptional bumps. */
  function Epact(g: int, x: int, y: int): (e: int)
    ensures 11 * g + 20 + y - x >= 0 ==> 0 <= e <= 29 && e != 24
  {
    var e0 := CMod(11 * g + 20 + y - x, 30);
    var e1 := if e0 == 24 then e0 + 1 else e0;
    if e1 == 25 && g > 11 then e1 + 1 else e1
  }

  /** "N": the day of the paschal full moon, counted from March 1. */
  function FullMoon(e: int): (n: int)
    ensures 0 <= e <= 29 && e != 24 ==> 21 <= n <= 49
  {
    var n0 := 44 - e;
    if n0 < 21 then n0 + 30 else n0
  }

  /** "P": the first day after day `n` that is congruent to `-z` modulo 7. */
  function SundayAfter(n: int, z: int): (p: int)
    ensures z + n >= 0 ==> n < p <= n + 7 && (p + z) % 7 == 0
  {
    var p := n + 7 - CMod(z + n, 7);
    assert z + n >= 0 ==> p + z == 7 * ((z + n) / 7 + 1);
    p
  }

  /** The Easter Sunday counted as a day of March. */
  function EasterMarchDay(year: int): int
  {
    var g := GoldenNumber(year);
    var century := CenturyNumber(year);
    var x := LeapCorrection(century);
    var y := MoonCorrection(century);
    var z := SundayOffset(year, x);
    var n := FullMoon(Epact(g, x, y));
    SundayAfter(n, z)
  }

  /** `new DateTime(year, month, P)` after a `P` past 31 has been moved into April. For a year
      outside 1..9999 the constructor throws whatever the intermediate values are, so the
      32-bit overflow of `5 * Year` for huge years cannot change the outcome and is not
      written out. */
  function GetCatholicEaster(year: int): (r: Result<Date>)
    ensures r.Ok? ==> ValidDate(r.value) && r.value.year == year
    ensures r.Throw? ==> r.error == ArgumentOutOfRange
  {
    var p := EasterMarchDay(year);
    if p > 31 then NewDate(year, 4, p - 31) else NewDate(year, 3, p)
  }

  /** Whether `dateTimeRequested` is on December 24 strictly after 13:00:00, compared down to
      the tick. */
  function IsChristmasEve(dateTimeRequested: DateTime): (r: bool)
    requires ValidDateTime(dateTimeRequested)
    ensures var t := dateTimeRequested;
      r <==> t.date.month == 12 && t.date.day == 24
             && (t.hour > 13 || (t.hour == 13 && (t.minute > 0 || t.second > 0 || t.fraction > 0)))
  {
    var closingTime := DateTime(Date(dateTimeRequested.date.year, 12, 24), 13, 0, 0, 0);
    if dateTimeRequested.date.month == 12 && dateTimeRequested.date.day == 24
       && Ticks(dateTimeRequested) > Ticks(closingTime)
    then true
    else false
  }

  // ---------------------------------------------------------------------
  // Federal holidays
  // ---------------------------------------------------------------------

  /** A holiday fixed on day `k` of month `m`, moved to Friday when it falls on a Saturday
      and to Monday when it falls on a Sunday. */
  predicate ObservedFixed(date: Date, m: int, k: int)
    requires ValidDate(date)
  {
    date.month == m
    && ((date.day == k - 1 && DayOfWeekOf(date) == Friday)
        || (date.day == k && DayOfWeekOf(date) != Saturday && DayOfWeekOf(date) != Sunday)
        || (date.day == k + 1 && DayOfWeekOf(date) == Monday))
  }

  /** A weekday of the given month on a day between `lo` and `hi`. */
  predicate WeekdayInRange(date: Date, m: int, w: DayOfWeek, lo: int, hi: int)
    requires ValidDate(date)
  {
    date.month == m && DayOfWeekOf(date) == w && lo <= date.day <= hi
  }

  /** The federal holidays written as calendar rules: nth weekdays as day ranges, the last
      Monday of May as a Monday in the last seven days of May. */
  predicate HolidayByCalendarRules(date: Date)
    requires ValidDate(date)
  {
    (date.month == 12 && date.day == 31 && DayOfWeekOf(date) == Friday)
    || ObservedFixed(date, 1, 1)
    || WeekdayInRange(date, 1, Monday, 15, 21)
    || WeekdayInRange(date, 2, Monday, 15, 21)
    || WeekdayInRange(date, 5, Monday, 25, 31)
    || ObservedFixed(date, 7, 4)
    || WeekdayInRange(date, 9, Monday, 1, 7)
    || WeekdayInRange(date, 10, Monday, 8, 14)
    || ObservedFixed(date, 11, 11)
    || WeekdayInRange(date, 11, Thursday, 22, 28)
    || ObservedFixed(date, 12, 25)
  }

  /** A May date is a week before June exactly when it is one of the last seven days of May. */
  lemma MemorialDayWindow(date: Date)
    requires ValidDate(date) && date.month == 5
    ensures AddDays(date, 7).month == 6 <==> date.day >= 25
  {
  }

  /** The holiday chain is the calendar-rule description, in both directions. */
  lemma FederalHolidayRules(date: Date)
    requires ValidDate(date)
    ensures IsFederalHoliday(date) <==> HolidayByCalendarRules(date)
  {
    if date.month == 5 {
      MemorialDayWindow(date);
    }
  }

  /** The weekday of the next day is the next weekday. */
  lemma NextWeekday(a: Date, b: Date)
    requires ValidDate(a) && ValidDate(b)
    requires DayNumber(b) == DayNumber(a) + 1
    ensures WeekdayIndex(b) == (WeekdayIndex(a) + 1) % 7
  {
    ModSevenStep(DayNumber(a) + 1);
  }

  lemma ModSevenStep(n: int)
    ensures (n + 1) % 7 == (n % 7 + 1) % 7
  {
    var q, w := n / 7, n % 7;
    if w < 6 {
      assert n + 1 == 7 * q + (w + 1);
    } else {
      assert n + 1 == 7 * (q + 1);
    }
  }

  /** Near a fixed-date holiday no other rule applies: a holiday there is the observed one. */
  lemma HolidayNearFixedDay(date: Date, m: int, k: int)
    requires ValidDate(date)
    requires (m == 1 && k == 1) || (m == 7 && k == 4) || (m == 11 && k == 11) || (m == 12 && k == 25)
    requires date.month == m && k - 1 <= date.day <= k + 1
    ensures IsFederalHoliday(date) <==> ObservedFixed(date, m, k)
  {
    FederalHolidayRules(date);
  }

  /** On December 31 only the New Year's rule applies: it is a holiday exactly on a Friday. */
  lemma HolidayOnNewYearsEve(date: Date)
    requires ValidDate(date) && date.month == 12 && date.day == 31
    ensures IsFederalHoliday(date) <==> DayOfWeekOf(date) == Friday
  {
    FederalHolidayRules(date);
  }

  /** Of a Friday rule, a weekday rule and a Monday rule on three consecutive weekdays,
      exactly one holds. */
  lemma ExactlyOneOfThree(wb: int, hb: bool, ho: bool, ha: bool)
    requires 0 <= wb < 7
    requires hb <==> wb == 5
    requires ho <==> ((wb + 1) % 7 != 6 && (wb + 1) % 7 != 0)
    requires ha <==> ((wb + 1) % 7 + 1) % 7 == 1
    ensures (if hb then 1 else 0) + (if ho then 1 else 0) + (if ha then 1 else 0) == 1
  {
  }

  /** Three consecutive days of one month around a fixed-date holiday: exactly one of them
      is a holiday. */
  lemma {:induction false} ObservedTripleExactlyOne(year: int, m: int, k: int)
    requires 1 <= year <= 9999
    requires (m == 7 && k == 4) || (m == 11 && k == 11) || (m == 12 && k == 25)
    ensures var before, on, after := Date(year, m, k - 1), Date(year, m, k), Date(year, m, k + 1);
      (if IsFederalHoliday(before) then 1 else 0) + (if IsFederalHoliday(on) then 1 else 0)
      + (if IsFederalHoliday(after) then 1 else 0) == 1
  {
    var before, on, after := Date(year, m, k - 1), Date(year, m, k), Date(year, m, k + 1);
    NextWeekday(before, on);
    NextWeekday(on, after);
    HolidayNearFixedDay(before, m, k);
    HolidayNearFixedDay(on, m, k);
    HolidayNearFixedDay(after, m, k);
    ExactlyOneOfThree(WeekdayIndex(before), IsFederalHoliday(before), IsFederalHoliday(on), IsFederalHoliday(after));
  }

  /** Exactly one of July 3, 4 and 5 is a holiday. */
  lemma IndependenceDayExactlyOne(year: int)
    requires 1 <= year <= 9999
    ensures (if IsFederalHoliday(Date(year, 7, 3)) then 1 else 0) + (if IsFederalHoliday(Date(year, 7, 4)) then 1 else 0)
      + (if IsFederalHoliday(Date(year, 7, 5)) then 1 else 0) == 1
  {
    ObservedTripleExactlyOne(year, 7, 4);
  }

  /** Exactly one of November 10, 11 and 12 is a holiday. */
  lemma VeteransDayExactlyOne(year: int)
    requires 1 <= year <= 9999
    ensures (if IsFederalHoliday(Date(year, 11, 10)) then 1 else 0) + (if IsFederalHoliday(Date(year, 11, 11)) then 1 else 0)
      + (if IsFederalHoliday(Date(year, 11, 12)) then 1 else 0) == 1
  {
    ObservedTripleExactlyOne(year, 11, 11);
  }

  /** Exactly one of December 24, 25 and 26 is a holiday. */
  lemma ChristmasDayExactlyOne(year: int)
    requires 1 <= year <= 9999
    ensures (if IsFederalHoliday(Date(year, 12, 24)) then 1 else 0) + (if IsFederalHoliday(Date(year, 12, 25)) then 1 else 0)
      + (if IsFederalHoliday(Date(year, 12, 26)) then 1 else 0) == 1
  {
    ObservedTripleExactlyOne(year, 12, 25);
  }

  /** Exactly one of December 31 of the year before, January 1 and January 2 is a holiday. */
  lemma {:induction false} NewYearsDayExactlyOne(year: int)
    requires 2 <= year <= 9999
    ensures (if IsFederalHoliday(Date(year - 1, 12, 31)) then 1 else 0) + (if IsFederalHoliday(Date(year, 1, 1)) then 1 else 0)
      + (if IsFederalHoliday(Date(year, 1, 2)) then 1 else 0) == 1
  {
    var before, on, after := Date(year - 1, 12, 31), Date(year, 1, 1), Date(year, 1, 2);
    NewYearFollows(year);
    NextWeekday(before, on);
    NextWeekday(on, after);
    HolidayOnNewYearsEve(before);
    HolidayNearFixedDay(on, 1, 1);
    HolidayNearFixedDay(after, 1, 1);
    ExactlyOneOfThree(WeekdayIndex(before), IsFederalHoliday(before), IsFederalHoliday(on), IsFederalHoliday(after));
  }

  // ---------------------------------------------------------------------
  // Easter
  // ---------------------------------------------------------------------

  /** The epact dividend `11G + 20 + Y - X` is never negative before the year 9000. */
  lemma EpactDividendNonNegative(century: int)
    requires 1 <= century <= 90
    ensures 11 + 20 + ((8 * century + 5) / 25 - 5) - (3 * century / 4 - 12) >= 0
  {
    if century > 86 {
      assert century == 87 || century == 88 || century == 89 || century == 90;
    }
  }

  /** The two century corrections of the computus add back up to the century. */
  lemma CenturyCorrections(c: int)
    requires c >= 0
    ensures c / 4 + 3 * (c + 1) / 4 == c
  {
    var q, r := c / 4, c % 4;
    assert c == 4 * q + r;
    assert 3 * (c + 1) == 4 * (3 * q) + (3 * r + 3);
  }

  /** The March or April `day` as a day number in terms of whole-year quotients of `y`. */
  lemma SpringDayNumber(y: int, m: int, day: int)
    requires ValidDate(Date(y, m, day)) && (m == 3 || m == 4)
    ensures DayNumber(Date(y, m, day)) + 1
         == 365 * y + y / 4 - y / 100 + (y / 100) / 4 + day + (if m == 4 then 31 else 0) - 306
  {
    DivStep(y);
    LeapYearByMultiples(y);
    assert y / 400 == (y / 100) / 4;
  }

  /** For a positive year each C# division of the computus is the Euclidean one. */
  lemma {:induction false} EasterDivisionsAgree(year: int, x: int)
    requires 1 <= year
    ensures GoldenNumber(year) == year % 19 + 1
    ensures CenturyNumber(year) == year / 100 + 1
    ensures LeapCorrection(year / 100 + 1) == 3 * (year / 100 + 1) / 4 - 12
    ensures MoonCorrection(year / 100 + 1) == (8 * (year / 100 + 1) + 5) / 25 - 5
    ensures SundayOffset(year, x) == year + year / 4 - x - 10
  {
    assert 5 * year / 4 == year + year / 4;
  }

  /** The integer facts behind the computus before the year 9000: the epact dividend and
      `Z + N` are non-negative. */
  lemma ComputusDividends(year: int, c: int, x: int, y: int, z: int)
    requires 1 <= year <= 8999
    requires c == year / 100 + 1 && x == 3 * c / 4 - 12 && y == (8 * c + 5) / 25 - 5
    requires z == year + year / 4 - x - 10
    ensures 11 * (year % 19 + 1) + 20 + y - x >= 0
    ensures z + 21 >= 0
  {
    EpactDividendNonNegative(c);
    assert c <= year && 3 * c / 4 <= c;
  }

  /** For a positive year, Easter is the Sunday after the full moon, each computed with
      Euclidean division. */
  lemma {:induction false} EasterMarchDayEuclidean(year: int)
    requires 1 <= year
    ensures var x := 3 * (year / 100 + 1) / 4 - 12;
            var z := year + year / 4 - x - 10;
            var n := FullMoon(Epact(year % 19 + 1, x, (8 * (year / 100 + 1) + 5) / 25 - 5));
            EasterMarchDay(year) == SundayAfter(n, z)
  {
    var c := CenturyNumber(year);
    var x := LeapCorrection(c);
    EasterDivisionsAgree(year, x);
    assert EasterMarchDay(year)
        == SundayAfter(FullMoon(Epact(GoldenNumber(year), x, MoonCorrection(c))), SundayOffset(year, x));
  }

  /** Before the year 9000 every dividend of the computus is non-negative, the full moon
      falls between March 21 and April 18, and Easter is the Sunday after it. */
  lemma {:induction false} EasterSteps(year: int)
    requires 1 <= year <= 8999
    ensures var x := 3 * (year / 100 + 1) / 4 - 12;
            var z := year + year / 4 - x - 10;
            var n := FullMoon(Epact(year % 19 + 1, x, (8 * (year / 100 + 1) + 5) / 25 - 5));
            21 <= n <= 49 && z + n >= 0 && EasterMarchDay(year) == SundayAfter(n, z)
  {
    var c := year / 100 + 1;
    var x := 3 * c / 4 - 12;
    var y := (8 * c + 5) / 25 - 5;
    var z := year + year / 4 - x - 10;
    ComputusDividends(year, c, x, y, z);
    EasterMarchDayEuclidean(year);
  }

  /** Before the year 9000 the March day lies between 22 and 56, and it is congruent to
      `-Z` modulo 7, which is what makes it a Sunday. */
  lemma {:induction false} EasterMarchDayBounds(year: int)
    requires 1 <= year <= 8999
    ensures 22 <= EasterMarchDay(year) <= 56
    ensures (EasterMarchDay(year) + year + year / 4 - 3 * (year / 100 + 1) / 4 + 2) % 7 == 0
  {
    EasterSteps(year);
  }

  lemma MultipleOfSeven(m: int)
    ensures (7 * m) % 7 == 0
  {
  }

  /** Before the year 9000 Easter falls between March 22 and April 25. */
  lemma {:induction false} EasterWindow(year: int)
    requires 1 <= year <= 8999
    ensures GetCatholicEaster(year).Ok?
    ensures var d := GetCatholicEaster(year).value;
      (d.month == 3 && 22 <= d.day <= 31) || (d.month == 4 && 1 <= d.day <= 25)
  {
    EasterMarchDayBounds(year);
  }

  /** Before the year 9000 the computed Easter is a Sunday. */
  lemma {:induction false} EasterIsSunday(year: int)
    requires 1 <= year <= 8999
    ensures GetCatholicEaster(year).Ok?
    ensures DayOfWeekOf(GetCatholicEaster(year).value) == Sunday
  {
    EasterDayNumber(year);
    EasterMarchDayBounds(year);
    SundayOfMarchDay(year, EasterMarchDay(year), GetCatholicEaster(year).value);
  }

  /** A date whose day number is that of March `p`, with `p` congruent to `-Z` modulo 7,
      is a Sunday. */
  lemma SundayOfMarchDay(year: int, p: int, d: Date)
    requires year >= 1 && ValidDate(d)
    requires DayNumber(d) + 1 == 365 * year + year / 4 - year / 100 + (year / 100) / 4 + p - 306
    requires (p + year + year / 4 - 3 * (year / 100 + 1) / 4 + 2) % 7 == 0
    ensures DayOfWeekOf(d) == Sunday
  {
    SundayArithmetic(year, p, DayNumber(d) + 1);
    SundayByDayNumber(d);
  }

  /** With `p` congruent to `-Z` modulo 7, the day number of March `p` plus one is a
      multiple of 7: the two century corrections cancel the dropped leap days. */
  lemma SundayArithmetic(year: int, p: int, dn: int)
    requires year >= 1
    requires dn == 365 * year + year / 4 - year / 100 + (year / 100) / 4 + p - 306
    requires (p + year + year / 4 - 3 * (year / 100 + 1) / 4 + 2) % 7 == 0
    ensures dn % 7 == 0
  {
    var c := year / 100;
    CenturyCorrections(c);
    var w := p + year + year / 4 - 3 * (c + 1) / 4 + 2;
    var m := w / 7 + 52 * year - 44;
    assert dn == 7 * m;
    MultipleOfSeven(m);
  }

  /** The day number of Easter, read off the March day. */
  lemma {:induction false} EasterDayNumber(year: int)
    requires 1 <= year <= 8999
    ensures GetCatholicEaster(year).Ok?
    ensures DayNumber(GetCatholicEaster(year).value) + 1
         == 365 * year + year / 4 - year / 100 + (year / 100) / 4 + EasterMarchDay(year) - 306
  {
    EasterWindow(year);
    var d := GetCatholicEaster(year).value;
    assert d.day + (if d.month == 4 then 31 else 0) == EasterMarchDay(year);
    SpringDayNumber(year, d.month, d.day);
  }

  /** Easter 2024 is March 31. */
  lemma Easter2024()
    ensures GetCatholicEaster(2024) == Ok(Date(2024, 3, 31))
  {
    assert CMod(2024, 19) == 10 && CDiv(2024, 100) == 20;
    assert CDiv(63, 4) == 15 && CDiv(173, 25) == 6 && CDiv(10120, 4) == 2530;
    assert CMod(11 * 11 + 20 + 1 - 3, 30) == 19;
    assert CMod(2517 + 25, 7) == 1;
  }

  /** Easter 2025 is April 20. */
  lemma Easter2025()
    ensures GetCatholicEaster(2025) == Ok(Date(2025, 4, 20))
  {
    assert CMod(2025, 19) == 11 && CDiv(2025, 100) == 20;
    assert CDiv(63, 4) == 15 && CDiv(173, 25) == 6 && CDiv(10125, 4) == 2531;
    assert CMod(11 * 12 + 20 + 1 - 3, 30) == 0;
    assert CMod(2518 + 44, 7) == 0;
  }

  /** Easter 2000 is April 23: its epact of 24 is bumped to 25. */
  lemma Easter2000()
    ensures GetCatholicEaster(2000) == Ok(Date(2000, 4, 23))
  {
    assert CMod(2000, 19) == 5 && CDiv(2000, 100) == 20;
    assert CDiv(63, 4) == 15 && CDiv(173, 25) == 6 && CDiv(10000, 4) == 2500;
    assert CMod(11 * 6 + 20 + 1 - 3, 30) == 24;
    assert CMod(2487 + 49, 7) == 2;
  }

  /** Outside the years `DateTime` can hold there is no Easter, only the exception. */
  lemma EasterOutOfRange(year: int)
    requires year < 1 || year > 9999
    ensures GetCatholicEaster(year) == Throw(ArgumentOutOfRange)
  {
  }

  // ---------------------------------------------------------------------
  // Christmas Eve
  // ---------------------------------------------------------------------

  /** At 13:00:00 exactly it is not yet Christmas Eve; one tick later it is. */
  lemma ChristmasEveBoundary(year: int)
    requires 1 <= year <= 9999
    ensures !IsChristmasEve(DateTime(Date(year, 12, 24), 13, 0, 0, 0))
    ensures IsChristmasEve(DateTime(Date(year, 12, 24), 13, 0, 0, 1))
  {
  }
}
