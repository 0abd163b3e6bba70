/**
 * The proleptic Gregorian calendar that JavaScript's `Date` implements, reduced to
 * whole local calendar days: leap years, month lengths, a day number counting days
 * from 0000-01-01, the next day, and the normalisation `new Date(y, m - 1, d)`
 * applies to a day past the end of its month.
 */
module Calendar {

  /** A local calendar date; `month` and `day` are 1-based, as `getMonth() + 1` and `getDate()`. */
  datatype Date = Date(year: int, month: int, day: int)

  /** The Gregorian leap rule: every fourth year, except centuries not divisible by 400. */
  predicate IsLeap(y: int) {
    (y % 4 == 0 && y % 100 != 0) || y % 400 == 0
  }

  function DaysInMonth(y: int, m: int): (n: int)
    requires 1 <= m <= 12
    ensures 28 <= n <= 31
    ensures n == 29 <==> m == 2 && IsLeap(y)
  {
    if m == 2 then (if IsLeap(y) then 29 else 28)
    else if m == 4 || m == 6 || m == 9 || m == 11 then 30
    else 31
  }

  function DaysInYear(y: int): int {
    if IsLeap(y) then 366 else 365
  }

  /** A date that exists: a month of the year and a day of that month. */
  predicate ValidDate(d: Date) {
    1 <= d.month <= 12 && 1 <= d.day <= DaysInMonth(d.year, d.month)
  }

  /** Days from 0000-01-01 to January 1 of year `y` (negative before year 0). */
  function DaysBeforeYear(y: int): int {
    365 * y + (y + 3) / 4 - (y + 99) / 100 + (y + 399) / 400
  }

  /** Days from January 1 to the first day of month `m` of year `y`. */
  function DaysBeforeMonth(y: int, m: int): int
    requires 1 <= m <= 12
  {
    var common :=
      if m == 1 then 0 else if m == 2 then 31 else if m == 3 then 59
      else if m == 4 then 90 else if m == 5 then 120 else if m == 6 then 151
      else if m == 7 then 181 else if m == 8 then 212 else if m == 9 then 243
      else if m == 10 then 273 else if m == 11 then 304 else 334;
    common + (if m > 2 && IsLeap(y) then 1 else 0)
  }

  /** A year holds exactly its own number of days. */
  lemma DaysBeforeNextYear(y: int)
    ensures DaysBeforeYear(y + 1) == DaysBeforeYear(y) + DaysInYear(y)
  {
    FourthYears(y);
    Centuries(y);
    FourthCenturies(y);
    DivisorsOfCenturies(y);
    var extra := (if y % 4 == 0 then 1 else 0) - (if y % 100 == 0 then 1 else 0) + (if y % 400 == 0 then 1 else 0);
    assert DaysBeforeYear(y + 1) - DaysBeforeYear(y) == 365 + extra;
    assert extra == if IsLeap(y) then 1 else 0;
  }

  /** A multiple of 400 is one of 100, and a multiple of 100 is one of 4. */
  lemma DivisorsOfCenturies(y: int)
    ensures y % 400 == 0 ==> y % 100 == 0
    ensures y % 100 == 0 ==> y % 4 == 0
  {
    if y % 400 == 0 {
      assert y == 400 * (y / 400);
    }
    if y % 100 == 0 {
      assert y == 100 * (y / 100);
    }
  }

  /** Counting year `y` too adds one multiple of 4 exactly when `y` is one; likewise for 100 and 400. */
  lemma FourthYears(y: int)
    ensures (y + 4) / 4 - (y + 3) / 4 == if y % 4 == 0 then 1 else 0
  {
  }

  lemma Centuries(y: int)
    ensures (y + 100) / 100 - (y + 99) / 100 == if y % 100 == 0 then 1 else 0
  {
  }

  lemma FourthCenturies(y: int)
    ensures (y + 400) / 400 - (y + 399) / 400 == if y % 400 == 0 then 1 else 0
  {
  }

  lemma {:induction false} DaysBeforeYearMonotone(y1: int, y2: int)
    requires y1 <= y2
    ensures DaysBeforeYear(y1) <= DaysBeforeYear(y2)
    ensures y1 < y2 ==> DaysBeforeYear(y1) + DaysInYear(y1) <= DaysBeforeYear(y2)
    decreases y2 - y1
  {
    if y1 < y2 {
      DaysBeforeNextYear(y1);
      DaysBeforeYearMonotone(y1 + 1, y2);
    }
  }

  /** Day number of a date: days since 0000-01-01 (what `getTime()` counts, in days). */
  function DayNumber(d: Date): (n: int)
    requires ValidDate(d)
    ensures DaysBeforeYear(d.year) <= n < DaysBeforeYear(d.year + 1)
  {
    DaysBeforeNextYear(d.year);
    DaysBeforeYear(d.year) + DaysBeforeMonth(d.year, d.month) + d.day - 1
  }

  /** The calendar day after `d`. */
  function NextDay(d: Date): (r: Date)
    requires ValidDate(d)
    ensures ValidDate(r)
    ensures DayNumber(r) == DayNumber(d) + 1
  {
    if d.day < DaysInMonth(d.year, d.month) then Date(d.year, d.month, d.day + 1)
    else if d.month < 12 then Date(d.year, d.month + 1, 1)
    else
      DaysBeforeNextYear(d.year);
      Date(d.year + 1, 1, 1)
  }

  /** `a` comes strictly before `b`: comparison on (year, month, day) in that order. */
  predicate DateBefore(a: Date, b: Date) {
    a.year < b.year
    || (a.year == b.year && a.month < b.month)
    || (a.year == b.year && a.month == b.month && a.day < b.day)
  }

  /** Within a year, a month that ends before month `m2` begins. */
  lemma MonthsAreOrdered(y: int, m1: int, m2: int)
    requires 1 <= m1 < m2 <= 12
    ensures DaysBeforeMonth(y, m1) + DaysInMonth(y, m1) <= DaysBeforeMonth(y, m2)
  {
  }

  /** Later dates have larger day numbers. */
  lemma DayNumberMonotone(a: Date, b: Date)
    requires ValidDate(a) && ValidDate(b)
    requires DateBefore(a, b)
    ensures DayNumber(a) < DayNumber(b)
  {
    if a.year < b.year {
      DaysBeforeYearMonotone(a.year + 1, b.year);
    } else if a.month < b.month {
      MonthsAreOrdered(a.year, a.month, b.month);
    }
  }

  /** Different dates have different day numbers. */
  lemma DayNumberInjective(a: Date, b: Date)
    requires ValidDate(a) && ValidDate(b)
    requires DayNumber(a) == DayNumber(b)
    ensures a == b
  {
    if DateBefore(a, b) {
      DayNumberMonotone(a, b);
    } else if DateBefore(b, a) {
      DayNumberMonotone(b, a);
    }
  }

  /**
   * `new Date(y, m - 1, d)` read back through `getFullYear`, `getMonth() + 1` and
   * `getDate()`, for a day `d >= 1`: a day past the end of the month rolls over into
   * the next months. The result is the one real date whose day number is that of the
   * first of the month plus `d - 1` (see DayNumberInjective), which is how the
   * ECMAScript MakeDay operation defines it. The model stands for years from 100 on:
   * JavaScript reads a year argument from 0 to 99 as 1900-1999, and birth dates only
   * ever call it with years from 1900 to 2099.
   */
  function MakeDate(y: int, m: int, d: int): (r: Date)
    requires 1 <= m <= 12 && 1 <= d
    ensures ValidDate(r)
    ensures DayNumber(r) == DayNumber(Date(y, m, 1)) + d - 1
    decreases d
  {
    var length := DaysInMonth(y, m);
    if d <= length then Date(y, m, d)
    else if m < 12 then
      assert DayNumber(Date(y, m + 1, 1)) == DayNumber(Date(y, m, 1)) + length;
      MakeDate(y, m + 1, d - length)
    else
      DaysBeforeNextYear(y);
      assert DayNumber(Date(y + 1, 1, 1)) == DayNumber(Date(y, m, 1)) + length;
      MakeDate(y + 1, 1, d - length)
  }

  /** The `Date` round trip reproduces (y, m, d) exactly when d is a day of that month. */
  lemma MakeDateRoundTrip(y: int, m: int, d: int)
    requires 1 <= m <= 12 && 1 <= d
    ensures MakeDate(y, m, d) == Date(y, m, d) <==> d <= DaysInMonth(y, m)
  {
  }
}
