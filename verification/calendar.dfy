/**
 * The slice of Joda-Time's ISO calendar that the extension uses: MonthDay
 * (a month and day with no year), calendar dates, the Gregorian leap-year
 * rule, whole-day differences and year addition. Time of day and time
 * zones are not modelled: a DateTime is reduced to its calendar date.
 */
module Calendar {
  import opened JavaLang

  /** org.joda.time.MonthDay: a day of the year without a year. */
  datatype MonthDay = MonthDay(month: int, day: int)

  /** A calendar date (the date part of a Joda DateTime). */
  datatype Date = Date(year: int, month: int, day: int)

  /** Gregorian rule: every 4th year, except centuries not divisible by 400. */
  predicate IsLeapYear(year: int) {
    year % 4 == 0 && (year % 100 != 0 || year % 400 == 0)
  }

  /** Longest a month can be in any year, the limit MonthDay's constructor checks. */
  function MaxDaysInMonth(month: int): int
    requires 1 <= month <= 12
  {
    if month == 2 then 29
    else if month == 4 || month == 6 || month == 9 || month == 11 then 30
    else 31
  }

  function DaysInMonth(year: int, month: int): (n: int)
    requires 1 <= month <= 12
    ensures 28 <= n <= MaxDaysInMonth(month)
    ensures n < MaxDaysInMonth(month) <==> month == 2 && !IsLeapYear(year)
  {
    if month == 2 && !IsLeapYear(year) then 28 else MaxDaysInMonth(month)
  }

  /** `new MonthDay(month, day)` succeeds exactly for these values; otherwise it throws. */
  predicate ValidMonthDay(md: MonthDay) {
    1 <= md.month <= 12 && 1 <= md.day <= MaxDaysInMonth(md.month)
  }

  predicate ValidDate(d: Date) {
    1 <= d.month <= 12 && 1 <= d.day <= DaysInMonth(d.year, d.month)
  }

  const FEBRUARY_29: MonthDay := MonthDay(2, 29)
  const MARCH_1: MonthDay := MonthDay(3, 1)

  /** MonthDay.compareTo: month first, then day; -1, 0 or 1. */
  function CompareMonthDay(a: MonthDay, b: MonthDay): int {
    if a.month != b.month then (if a.month < b.month then -1 else 1)
    else if a.day != b.day then (if a.day < b.day then -1 else 1)
    else 0
  }

  /** MonthDay.isBefore. */
  predicate IsBefore(a: MonthDay, b: MonthDay) {
    CompareMonthDay(a, b) < 0
  }

  /** `new MonthDay()` evaluated on the given day. */
  function MonthDayOf(d: Date): MonthDay {
    MonthDay(d.month, d.day)
  }

  /**
   * MonthDay.toDateTime(today): the month/day placed in today's year;
   * None when that date does not exist (IllegalFieldValueException).
   */
  function InYear(md: MonthDay, year: int): (d: Option<Date>)
    ensures d.Some? <==> ValidDate(Date(year, md.month, md.day))
    ensures d.Some? ==> d.value == Date(year, md.month, md.day)
  {
    var candidate := Date(year, md.month, md.day);
    if ValidDate(candidate) then Some(candidate) else None
  }

  /** A valid MonthDay fails to exist in a year only as Feb 29 of a common year. */
  lemma InYearFailsOnlyOnLeapDay(md: MonthDay, year: int)
    requires ValidMonthDay(md)
    ensures InYear(md, year).None? <==> md == FEBRUARY_29 && !IsLeapYear(year)
  {
  }

  /** DateTime.plusYears: same month and day, clamped to the end of a shorter month. */
  function PlusYears(d: Date, years: int): (r: Date)
    requires ValidDate(d)
    ensures ValidDate(r) && r.year == d.year + years && r.month == d.month
    ensures r.day == d.day || (d.month == 2 && d.day == 29 && r.day == 28 && !IsLeapYear(r.year))
  {
    var y := d.year + years;
    var last := DaysInMonth(y, d.month);
    Date(y, d.month, if d.day <= last then d.day else last)
  }

  /** Chronological order on dates: year, then month, then day. */
  predicate DateBefore(a: Date, b: Date) {
    a.year < b.year || (a.year == b.year && (a.month < b.month || (a.month == b.month && a.day < b.day)))
  }

  // ---------------------------------------------------------------------------
  // Day numbers
  // ---------------------------------------------------------------------------

  function YearLength(year: int): int {
    if IsLeapYear(year) then 366 else 365
  }

  /** Days from 0001-01-01 to the first day of `year` in the proleptic Gregorian calendar. */
  function DaysBeforeYear(year: int): int {
    var y := year - 1;
    365 * y + y / 4 - y / 100 + y / 400
  }

  /** Days from the first of January to the first day of `month`. */
  function DaysBeforeMonth(year: int, month: int): int
    requires 1 <= month <= 12
  {
    var common :=
      if month == 1 then 0 else if month == 2 then 31 else if month == 3 then 59
      else if month == 4 then 90 else if month == 5 then 120 else if month == 6 then 151
      else if month == 7 then 181 else if month == 8 then 212 else if month == 9 then 243
      else if month == 10 then 273 else if month == 11 then 304 else 334;
    if month > 2 && IsLeapYear(year) then common + 1 else common
  }

  /** The ordinal of a date, counting days from 0001-01-01. */
  function DayNumber(d: Date): int
    requires ValidDate(d)
  {
    DaysBeforeYear(d.year) + DaysBeforeMonth(d.year, d.month) + d.day - 1
  }

  /** Days.daysBetween(from, to).getDays() for two instants at the same time of day. */
  function DaysBetween(from: Date, to: Date): int
    requires ValidDate(from) && ValidDate(to)
  {
    DayNumber(to) - DayNumber(from)
  }

  /** Consecutive years are exactly one year-length apart. */
  lemma DaysBeforeNextYear(year: int)
    ensures DaysBeforeYear(year + 1) == DaysBeforeYear(year) + YearLength(year)
  {
    var y := year - 1;
    Step4(y);
    Step100(y);
    Step400(y);
    Divisors(year);
    assert DaysBeforeYear(year + 1) - DaysBeforeYear(year)
      == 365 + ((y + 1) / 4 - y / 4) - ((y + 1) / 100 - y / 100) + ((y + 1) / 400 - y / 400);
  }

  /** A multiple of 400 is one of 100, and a multiple of 100 is one of 4. */
  lemma Divisors(n: int)
    ensures n % 400 == 0 ==> n % 100 == 0
    ensures n % 100 == 0 ==> n % 4 == 0
  {
    if n % 400 == 0 {
      HundredsOf(n, 4 * (n / 400));
    }
    if n % 100 == 0 {
      FoursOf(n, 25 * (n / 100));
    }
  }

  lemma HundredsOf(n: int, k: int)
    requires n == 100 * k
    ensures n % 100 == 0
  {
  }

  lemma FoursOf(n: int, k: int)
    requires n == 4 * k
    ensures n % 4 == 0
  {
  }

  // Incrementing a dividend bumps the quotient exactly when it reaches a multiple.
  lemma Step4(y: int)
    ensures (y + 1) / 4 == y / 4 + (if (y + 1) % 4 == 0 then 1 else 0)
  {
  }

  lemma Step100(y: int)
    ensures (y + 1) / 100 == y / 100 + (if (y + 1) % 100 == 0 then 1 else 0)
  {
  }

  lemma Step400(y: int)
    ensures (y + 1) / 400 == y / 400 + (if (y + 1) % 400 == 0 then 1 else 0)
  {
  }

  /** Any later year starts after the whole of an earlier one. */
  lemma {:induction false} DaysBeforeLaterYear(y1: int, y2: int)
    requires y1 < y2
    ensures DaysBeforeYear(y2) >= DaysBeforeYear(y1) + YearLength(y1)
    decreases y2 - y1
  {
    DaysBeforeNextYear(y1);
    if y1 + 1 < y2 {
      DaysBeforeLaterYear(y1 + 1, y2);
    }
  }

  /** A valid date lies inside its year. */
  lemma DayOfYearBounds(d: Date)
    requires ValidDate(d)
    ensures 0 <= DaysBeforeMonth(d.year, d.month) + d.day - 1 < YearLength(d.year)
  {
  }

  /** Within one year, a later month/day has a larger day-of-year. */
  lemma DayOfYearOrder(a: Date, b: Date)
    requires ValidDate(a) && ValidDate(b) && a.year == b.year && DateBefore(a, b)
    ensures DaysBeforeMonth(a.year, a.month) + a.day < DaysBeforeMonth(b.year, b.month) + b.day
  {
  }

  /** Day numbers follow the calendar: the numbering is strictly increasing. */
  lemma DayNumberMonotone(a: Date, b: Date)
    requires ValidDate(a) && ValidDate(b) && DateBefore(a, b)
    ensures DayNumber(a) < DayNumber(b)
  {
    if a.year < b.year {
      DaysBeforeLaterYear(a.year, b.year);
      DayOfYearBounds(a);
      DayOfYearBounds(b);
    } else {
      DayOfYearOrder(a, b);
    }
  }

  /** Equal day numbers mean equal dates, and order of day numbers is the order of dates. */
  lemma DayNumberOrder(a: Date, b: Date)
    requires ValidDate(a) && ValidDate(b)
    ensures DayNumber(a) < DayNumber(b) <==> DateBefore(a, b)
    ensures DayNumber(a) == DayNumber(b) <==> a == b
  {
    if DateBefore(a, b) {
      DayNumberMonotone(a, b);
    } else if DateBefore(b, a) {
      DayNumberMonotone(b, a);
    }
  }

  /** The next calendar day has the next day number. */
  lemma DayNumberNextDay(d: Date)
    requires ValidDate(d)
    ensures d.day < DaysInMonth(d.year, d.month) ==> DayNumber(Date(d.year, d.month, d.day + 1)) == DayNumber(d) + 1
    ensures d.day == DaysInMonth(d.year, d.month) && d.month < 12 ==> DayNumber(Date(d.year, d.month + 1, 1)) == DayNumber(d) + 1
    ensures d.day == 31 && d.month == 12 ==> DayNumber(Date(d.year + 1, 1, 1)) == DayNumber(d) + 1
  {
    DaysBeforeNextYear(d.year);
  }
}
