/** getDayDifference (src/utils/getDayDifference.ts): the number of whole calendar days
    between two dates, computed from the UTC time stamps of their midnights.

    Date.UTC is the day arithmetic of section 21.4.1 of ECMA-262, 13th edition (2022): Day
    and msPerDay (21.4.1.2), DayFromYear (21.4.1.3), MakeDay (21.4.1.12) and MakeDate
    (21.4.1.13), in which every day is exactly 86 400 000 ms.  Section numbers below are of
    that edition.  Date.UTC itself (section 21.4.3.4) adds the rule that a year argument
    from 0 to 99 means 1900 to 1999.  A Date argument is the
    local calendar date its getters report, with the time of day it carries. */
module Calendar {

  /** 1000 * 60 * 60 * 24 (line 2). */
  const MsPerDay: int := 86400000

  /** What getFullYear, getMonth (0-based) and getDate report, and the time of day the
      getters drop. */
  datatype DateTime = DateTime(year: int, month: int, day: int, msOfDay: int)

  predicate IsLeap(y: int) {
    y % 4 == 0 && (y % 100 != 0 || y % 400 == 0)
  }

  /** DaysInYear of section 21.4.1.3 (Year Number). */
  function DaysInYear(y: int): (n: int)
    ensures n == 365 || n == 366
    ensures n == 366 <==> IsLeap(y)
  {
    if IsLeap(y) then 366 else 365
  }

  function DaysInMonth(y: int, m: int): (n: int)
    requires 0 <= m < 12
    ensures 28 <= n <= 31
    ensures m == 1 ==> (n == 29 <==> IsLeap(y))
  {
    if m == 1 then (if IsLeap(y) then 29 else 28)
    else if m == 3 || m == 5 || m == 8 || m == 10 then 30
    else 31
  }

  /** The days of year y before the first of month m: the lengths of the months before it,
      which is how the month table of section 21.4.1.4 (Month Number) is built. */
  function DaysBeforeMonth(y: int, m: int): (n: int)
    requires 0 <= m <= 12
    ensures 28 * m <= n <= 31 * m
    decreases m
  {
    if m == 0 then 0 else DaysBeforeMonth(y, m - 1) + DaysInMonth(y, m - 1)
  }

  /** The table itself: 0, 31, 59 (60 in a leap year), ..., and the twelve months fill the
      year. */
  lemma MonthTable(y: int)
    ensures var l := if IsLeap(y) then 1 else 0;
      DaysBeforeMonth(y, 1) == 31 && DaysBeforeMonth(y, 2) == 59 + l
      && DaysBeforeMonth(y, 3) == 90 + l && DaysBeforeMonth(y, 4) == 120 + l
      && DaysBeforeMonth(y, 5) == 151 + l && DaysBeforeMonth(y, 6) == 181 + l
      && DaysBeforeMonth(y, 7) == 212 + l && DaysBeforeMonth(y, 8) == 243 + l
      && DaysBeforeMonth(y, 9) == 273 + l && DaysBeforeMonth(y, 10) == 304 + l
      && DaysBeforeMonth(y, 11) == 334 + l && DaysBeforeMonth(y, 12) == 365 + l
    ensures DaysBeforeMonth(y, 12) == DaysInYear(y)
  {
    var l := if IsLeap(y) then 1 else 0;
    assert DaysBeforeMonth(y, 1) == 31;
    assert DaysBeforeMonth(y, 2) == 59 + l;
    assert DaysBeforeMonth(y, 3) == 90 + l;
    assert DaysBeforeMonth(y, 4) == 120 + l;
    assert DaysBeforeMonth(y, 5) == 151 + l;
    assert DaysBeforeMonth(y, 6) == 181 + l;
    assert DaysBeforeMonth(y, 7) == 212 + l;
    assert DaysBeforeMonth(y, 8) == 243 + l;
    assert DaysBeforeMonth(y, 9) == 273 + l;
    assert DaysBeforeMonth(y, 10) == 304 + l;
    assert DaysBeforeMonth(y, 11) == 334 + l;
  }

  predicate ValidDate(t: DateTime) {
    0 <= t.month < 12 && 1 <= t.day <= DaysInMonth(t.year, t.month)
    && 0 <= t.msOfDay < MsPerDay
  }

  /** DayFromYear of section 21.4.1.3: the day number of 1 January of year y, counted from
      1 January 1970.  Dafny's division by a positive constant is the floor the standard
      uses. */
  function DayFromYear(y: int): (d: int) {
    365 * (y - 1970) + (y - 1969) / 4 - (y - 1901) / 100 + (y - 1601) / 400
  }

  /** MakeDay of section 21.4.1.12 for integral arguments: the month may be out of range and
      carries into the year, and the date is added to the first of the month. */
  function MakeDay(year: int, month: int, date: int): (d: int) {
    var ym := year + month / 12;
    var mn := month % 12;
    DayFromYear(ym) + DaysBeforeMonth(ym, mn) + date - 1
  }

  /** The year Date.UTC uses for its first argument (section 21.4.3.4): 0 to 99 mean 1900
      to 1999. */
  function UtcYear(y: int): (r: int)
    ensures 0 <= y <= 99 ==> r == 1900 + y
    ensures !(0 <= y <= 99) ==> r == y
  {
    if 0 <= y <= 99 then 1900 + y else y
  }

  /** Date.UTC(year, month, date): MakeDate(MakeDay(...), 0). */
  function DateUtc(year: int, month: int, date: int): (ms: int) {
    MakeDay(UtcYear(year), month, date) * MsPerDay
  }

  function Abs(x: int): (r: int)
    ensures r >= 0 && (r == x || r == -x)
  {
    if x < 0 then -x else x
  }

  /** getDayDifference as written. */
  function GetDayDifferenceAsWritten(startDate: DateTime, endDate: DateTime): (r: int)
    ensures r >= 0
  {
    var start := DateUtc(startDate.year, startDate.month, startDate.day);
    var end := DateUtc(endDate.year, endDate.month, endDate.day);
    Abs(end - start) / MsPerDay
  }

  /** The day number of a date: days since 1 January 1970, proleptic Gregorian. */
  function DayNumber(t: DateTime): (d: int) {
    MakeDay(t.year, t.month, t.day)
  }

  /** The UTC time stamp of the midnight that starts the date, taking the year as it is
      (what setUTCFullYear(y, m, d) on a zero time gives). */
  function UtcMidnight(t: DateTime): (ms: int) {
    DayNumber(t) * MsPerDay
  }

  /** getDayDifference with the year taken literally. */
  function GetDayDifference(startDate: DateTime, endDate: DateTime): (r: int)
    ensures r >= 0
  {
    Abs(UtcMidnight(endDate) - UtcMidnight(startDate)) / MsPerDay
  }

  // -------------------------------------------------------------------------------------
  // The count is exact

  lemma DivMsPerDay(k: int)
    ensures (k * MsPerDay) / MsPerDay == k
  {
  }

  /** The floor division is exact: the result is the distance between the day numbers. */
  lemma DayDifferenceExact(a: DateTime, b: DateTime)
    ensures GetDayDifference(a, b) == Abs(DayNumber(b) - DayNumber(a))
  {
    var k := Abs(DayNumber(b) - DayNumber(a));
    assert Abs(UtcMidnight(b) - UtcMidnight(a)) == k * MsPerDay;
    DivMsPerDay(k);
  }

  lemma Symmetric(a: DateTime, b: DateTime)
    ensures GetDayDifference(a, b) == GetDayDifference(b, a)
  {
    DayDifferenceExact(a, b);
    DayDifferenceExact(b, a);
  }

  /** Only the calendar date counts: the time of day is dropped by the getters. */
  lemma TimeOfDayIgnored(a: DateTime, b: DateTime, msA: int, msB: int)
    ensures GetDayDifference(a.(msOfDay := msA), b.(msOfDay := msB)) == GetDayDifference(a, b)
  {
  }

  /** The same calendar date gives 0, whatever the two times of day. */
  lemma SameDateZero(a: DateTime, b: DateTime)
    requires a.year == b.year && a.month == b.month && a.day == b.day
    ensures GetDayDifference(a, b) == 0
  {
    DayDifferenceExact(a, b);
  }

  // -------------------------------------------------------------------------------------
  // Day numbers count days

  /** One more year adds that year's length. */
  lemma YearStep(y: int)
    ensures DayFromYear(y + 1) == DayFromYear(y) + DaysInYear(y)
  {
    Step4(y);
    Step100(y);
    Step400(y);
    DivisorChain(y);
    assert DayFromYear(y + 1) - DayFromYear(y)
        == 365 + ((y - 1968) / 4 - (y - 1969) / 4) - ((y - 1900) / 100 - (y - 1901) / 100)
           + ((y - 1600) / 400 - (y - 1601) / 400);
  }

  /** A multiple of 400 is a multiple of 100, and a multiple of 100 one of 4. */
  lemma DivisorChain(y: int)
    ensures y % 400 == 0 ==> y % 100 == 0
    ensures y % 100 == 0 ==> y % 4 == 0
  {
    var q4, q100, q400 := y / 4, y / 100, y / 400;
    assert y == 4 * q4 + y % 4 && y == 100 * q100 + y % 100 && y == 400 * q400 + y % 400;
    if y % 400 == 0 {
      assert y == 100 * (4 * q400);
      assert 100 * (q100 - 4 * q400) == -(y % 100);
    }
    if y % 100 == 0 {
      assert y == 4 * (25 * q100);
      assert 4 * (q4 - 25 * q100) == -(y % 4);
    }
  }

  /** Each floor quotient of DayFromYear grows by one from year y to year y + 1 exactly
      when y is a multiple of its divisor (1968, 1900 and 1600 being multiples of 4, 100
      and 400). */
  lemma Step4(y: int)
    ensures (y - 1968) / 4 == (y - 1969) / 4 + (if y % 4 == 0 then 1 else 0)
  {
    var q, r := y / 4, y % 4;
    if r == 0 {
      assert y - 1968 == 4 * (q - 492) && y - 1969 == 4 * (q - 493) + 3;
    } else {
      assert y - 1968 == 4 * (q - 492) + r && y - 1969 == 4 * (q - 492) + (r - 1);
    }
  }

  lemma Step100(y: int)
    ensures (y - 1900) / 100 == (y - 1901) / 100 + (if y % 100 == 0 then 1 else 0)
  {
    var q, r := y / 100, y % 100;
    if r == 0 {
      assert y - 1900 == 100 * (q - 19) && y - 1901 == 100 * (q - 20) + 99;
    } else {
      assert y - 1900 == 100 * (q - 19) + r && y - 1901 == 100 * (q - 19) + (r - 1);
    }
  }

  lemma Step400(y: int)
    ensures (y - 1600) / 400 == (y - 1601) / 400 + (if y % 400 == 0 then 1 else 0)
  {
    var q, r := y / 400, y % 400;
    if r == 0 {
      assert y - 1600 == 400 * (q - 4) && y - 1601 == 400 * (q - 5) + 399;
    } else {
      assert y - 1600 == 400 * (q - 4) + r && y - 1601 == 400 * (q - 4) + (r - 1);
    }
  }

  /** The 1 January of a later year comes after the whole of the earlier year. */
  lemma {:induction false} YearsOrdered(y1: int, y2: int)
    requires y1 < y2
    ensures DayFromYear(y1) + DaysInYear(y1) <= DayFromYear(y2)
    decreases y2 - y1
  {
    YearStep(y1);
    if y1 + 1 < y2 {
      YearsOrdered(y1 + 1, y2);
    }
  }

  lemma {:induction false} MonthsOrdered(y: int, m1: int, m2: int)
    requires 0 <= m1 < m2 <= 12
    ensures DaysBeforeMonth(y, m1) + DaysInMonth(y, m1) <= DaysBeforeMonth(y, m2)
    decreases m2 - m1
  {
    if m1 + 1 < m2 {
      MonthsOrdered(y, m1 + 1, m2);
    }
  }

  /** For a month in range, the day number is the first day of the year plus the days of
      the months before plus the date. */
  lemma DayNumberOfDate(t: DateTime)
    requires 0 <= t.month < 12
    ensures DayNumber(t) == DayFromYear(t.year) + DaysBeforeMonth(t.year, t.month) + t.day - 1
  {
    assert t.month / 12 == 0 && t.month % 12 == t.month;
  }

  /** For a valid date, the day number is its year's first day plus its offset in the
      year, which is less than the year's length. */
  lemma DayInYear(t: DateTime)
    requires ValidDate(t)
    ensures DayNumber(t) == DayFromYear(t.year) + DaysBeforeMonth(t.year, t.month) + t.day - 1
    ensures DayFromYear(t.year) <= DayNumber(t) < DayFromYear(t.year) + DaysInYear(t.year)
  {
    DayNumberOfDate(t);
    MonthsOrdered(t.year, t.month, 12);
    MonthTable(t.year);
  }

  /** Calendar order of the dates, ignoring the time of day. */
  predicate DateBefore(a: DateTime, b: DateTime) {
    a.year < b.year
    || (a.year == b.year && a.month < b.month)
    || (a.year == b.year && a.month == b.month && a.day < b.day)
  }

  predicate SameDate(a: DateTime, b: DateTime) {
    a.year == b.year && a.month == b.month && a.day == b.day
  }

  /** Day numbers follow the calendar order. */
  lemma DayNumberOrdered(a: DateTime, b: DateTime)
    requires ValidDate(a) && ValidDate(b) && DateBefore(a, b)
    ensures DayNumber(a) < DayNumber(b)
  {
    DayInYear(a);
    DayInYear(b);
    if a.year < b.year {
      YearsOrdered(a.year, b.year);
    } else if a.month < b.month {
      MonthsOrdered(a.year, a.month, b.month);
    }
  }

  /** The difference is 0 exactly for the same calendar date. */
  lemma ZeroIffSameDate(a: DateTime, b: DateTime)
    requires ValidDate(a) && ValidDate(b)
    ensures GetDayDifference(a, b) == 0 <==> SameDate(a, b)
  {
    DayDifferenceExact(a, b);
    if DateBefore(a, b) {
      DayNumberOrdered(a, b);
    } else if DateBefore(b, a) {
      DayNumberOrdered(b, a);
    }
  }

  /** The calendar date after t. */
  function NextDay(t: DateTime): (r: DateTime)
    requires ValidDate(t)
    ensures ValidDate(r) && DateBefore(t, r)
  {
    if t.day < DaysInMonth(t.year, t.month) then t.(day := t.day + 1)
    else if t.month < 11 then t.(month := t.month + 1, day := 1)
    else t.(year := t.year + 1, month := 0, day := 1)
  }

  lemma NextDayNumber(t: DateTime)
    requires ValidDate(t)
    ensures DayNumber(NextDay(t)) == DayNumber(t) + 1
  {
    if t.day < DaysInMonth(t.year, t.month) {
      SameMonthStep(t);
    } else if t.month < 11 {
      MonthEndStep(t);
    } else {
      YearEndStep(t);
    }
  }

  lemma SameMonthStep(t: DateTime)
    requires ValidDate(t) && t.day < DaysInMonth(t.year, t.month)
    ensures DayNumber(NextDay(t)) == DayNumber(t) + 1
  {
    var u := t.(day := t.day + 1);
    assert NextDay(t) == u;
    DayNumberOfDate(t);
    DayNumberOfDate(u);
  }

  lemma MonthEndStep(t: DateTime)
    requires ValidDate(t) && t.day == DaysInMonth(t.year, t.month) && t.month < 11
    ensures DayNumber(NextDay(t)) == DayNumber(t) + 1
  {
    var u := t.(month := t.month + 1, day := 1);
    assert NextDay(t) == u;
    DayNumberOfDate(t);
    DayNumberOfDate(u);
    assert DaysBeforeMonth(t.year, u.month) == DaysBeforeMonth(t.year, t.month) + t.day;
  }

  lemma YearEndStep(t: DateTime)
    requires ValidDate(t) && t.day == DaysInMonth(t.year, t.month) && t.month == 11
    ensures DayNumber(NextDay(t)) == DayNumber(t) + 1
  {
    var u := t.(year := t.year + 1, month := 0, day := 1);
    assert NextDay(t) == u;
    DayNumberOfDate(t);
    DayNumberOfDate(u);
    MonthTable(t.year);
    YearStep(t.year);
  }

  /** Consecutive calendar days, across month ends, year ends and 29 February, are one day
      apart, whatever the times of day. */
  lemma ConsecutiveDays(a: DateTime, b: DateTime)
    requires ValidDate(a) && SameDate(b, NextDay(a))
    ensures GetDayDifference(a, b) == 1
  {
    NextDayNumber(a);
    DayDifferenceExact(a, b);
  }

  /** Counting from a to b through c: the differences add up for dates in calendar order. */
  lemma Triangle(a: DateTime, b: DateTime, c: DateTime)
    requires ValidDate(a) && ValidDate(b) && ValidDate(c)
    requires !DateBefore(b, a) && !DateBefore(c, b)
    ensures GetDayDifference(a, c) == GetDayDifference(a, b) + GetDayDifference(b, c)
  {
    DayDifferenceExact(a, b);
    DayDifferenceExact(b, c);
    DayDifferenceExact(a, c);
    DayNumberMonotone(a, b);
    DayNumberMonotone(b, c);
    AbsAdd(DayNumber(a), DayNumber(b), DayNumber(c));
  }

  /** A date not before another has a day number not below it. */
  lemma DayNumberMonotone(a: DateTime, b: DateTime)
    requires ValidDate(a) && ValidDate(b) && !DateBefore(b, a)
    ensures DayNumber(a) <= DayNumber(b)
  {
    if DateBefore(a, b) {
      DayNumberOrdered(a, b);
    }
  }

  lemma AbsAdd(x: int, y: int, z: int)
    requires x <= y <= z
    ensures Abs(z - x) == Abs(y - x) + Abs(z - y)
  {
  }

  /** 1 January 1970 is day 0, the epoch of the time values. */
  lemma Epoch(t: DateTime)
    requires t.year == 1970 && t.month == 0 && t.day == 1
    ensures DayNumber(t) == 0 && UtcMidnight(t) == 0
  {
  }

  // -------------------------------------------------------------------------------------
  // The code as written

  /** Outside the years 0 to 99 the code computes the exact difference. */
  lemma AsWrittenAgrees(a: DateTime, b: DateTime)
    requires !(0 <= a.year <= 99) && !(0 <= b.year <= 99)
    ensures GetDayDifferenceAsWritten(a, b) == GetDayDifference(a, b)
  {
  }

  /** The date Date.UTC actually reads: a year 0 to 99 is taken as 1900 to 1999. */
  function UtcDate(t: DateTime): (r: DateTime)
    ensures r.month == t.month && r.day == t.day && r.msOfDay == t.msOfDay
    ensures r.year == UtcYear(t.year)
  {
    t.(year := UtcYear(t.year))
  }

  /** For every pair of dates, the code as written is the exact day difference of the
      dates Date.UTC reads. */
  lemma AsWrittenExact(a: DateTime, b: DateTime)
    ensures GetDayDifferenceAsWritten(a, b) == Abs(DayNumber(UtcDate(b)) - DayNumber(UtcDate(a)))
  {
    assert DateUtc(a.year, a.month, a.day) == UtcMidnight(UtcDate(a));
    assert DateUtc(b.year, b.month, b.day) == UtcMidnight(UtcDate(b));
    DayDifferenceExact(UtcDate(a), UtcDate(b));
  }

  /** The code as written is symmetric for every pair of dates, years 0 to 99 included. */
  lemma AsWrittenSymmetric(a: DateTime, b: DateTime)
    ensures GetDayDifferenceAsWritten(a, b) == GetDayDifferenceAsWritten(b, a)
  {
    AsWrittenExact(a, b);
    AsWrittenExact(b, a);
  }

  /** The code as written ignores the time of day for every pair of dates. */
  lemma AsWrittenTimeOfDayIgnored(a: DateTime, b: DateTime, msA: int, msB: int)
    ensures GetDayDifferenceAsWritten(a.(msOfDay := msA), b.(msOfDay := msB))
         == GetDayDifferenceAsWritten(a, b)
  {
  }

  /** The code as written gives 0 on the same calendar date, years 0 to 99 included. */
  lemma AsWrittenSameDateZero(a: DateTime, b: DateTime)
    requires a.year == b.year && a.month == b.month && a.day == b.day
    ensures GetDayDifferenceAsWritten(a, b) == 0
  {
    AsWrittenExact(a, b);
  }

  /** A date in the years 0 to 99 is counted as the same date 1900 years later. */
  lemma TwoDigitYearShifted(a: DateTime, b: DateTime)
    requires 0 <= a.year <= 99 && !(0 <= b.year <= 99)
    ensures GetDayDifferenceAsWritten(a, b) == GetDayDifference(a.(year := a.year + 1900), b)
  {
    var shifted := a.(year := a.year + 1900);
    assert UtcYear(a.year) == shifted.year && UtcYear(b.year) == b.year;
    assert DateUtc(a.year, a.month, a.day) == UtcMidnight(shifted);
    assert DateUtc(b.year, b.month, b.day) == UtcMidnight(b);
  }

  /** 31 December of year 99 and 1 January of year 100 are consecutive days, but Date.UTC
      reads the first as 31 December 1999, so the code does not answer 1. */
  lemma TwoDigitYearCrossing(a: DateTime, b: DateTime)
    requires a == DateTime(99, 11, 31, 0) && b == DateTime(100, 0, 1, 0)
    ensures ValidDate(a) && SameDate(b, NextDay(a))
    ensures GetDayDifference(a, b) == 1
    ensures GetDayDifferenceAsWritten(a, b) != 1
  {
    LastDayOfYear99(a, b);
    ConsecutiveDays(a, b);
    var late := DateTime(1999, 11, 31, 0);
    TwoDigitYearShifted(a, b);
    assert a.(year := a.year + 1900) == late;
    FarApart(b, late);
  }

  lemma LastDayOfYear99(a: DateTime, b: DateTime)
    requires a == DateTime(99, 11, 31, 0) && b == DateTime(100, 0, 1, 0)
    ensures ValidDate(a) && NextDay(a) == b
  {
  }


  /** 1 January 100 and 31 December 1999 are more than a day apart. */
  lemma FarApart(b: DateTime, late: DateTime)
    requires b == DateTime(100, 0, 1, 0) && late == DateTime(1999, 11, 31, 0)
    ensures GetDayDifference(late, b) >= 2
  {
    DayDifferenceExact(late, b);
    DayNumberOrdered(NextDay(b), late);
    NextDayNumber(b);
  }

  /** 1 January 50 and 1 January 1950 are 1900 years apart, but the code answers 0. */
  lemma TwoDigitYearAlias(a: DateTime, b: DateTime)
    requires a == DateTime(50, 0, 1, 0) && b == DateTime(1950, 0, 1, 0)
    ensures ValidDate(a) && ValidDate(b) && DateBefore(a, b)
    ensures GetDayDifferenceAsWritten(a, b) == 0
    ensures GetDayDifference(a, b) > 0
  {
    ZeroIffSameDate(a, b);
    assert UtcYear(a.year) == b.year && UtcYear(b.year) == b.year;
    assert DateUtc(a.year, a.month, a.day) == DateUtc(b.year, b.month, b.day);
  }
}
