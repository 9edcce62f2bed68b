/** Proleptic Gregorian calendar arithmetic.

    The JavaScript code asks the platform `Date` object two questions: how
    long a month is (`new Date(y, m + 1, 0).getDate()`) and which weekday a
    date falls on (`new Date(y, m, d).getDay()`). This module answers both
    with day counting, so that the model needs no clock and no time zone.
 */
module Gregorian {

  /** `new Date(year, …)` reads a year in 0..99 as 1900 + year (section
      21.4.2.1 of ECMA-262); every other year is taken as given. */
  function JsYear(year: int): (y: int)
    ensures 0 <= year <= 99 ==> y == 1900 + year
    ensures !(0 <= year <= 99) ==> y == year
  {
    if 0 <= year <= 99 then 1900 + year else year
  }

  predicate IsLeapYear(y: int) {
    (y % 4 == 0 && y % 100 != 0) || y % 400 == 0
  }

  /** Length of month `m` (0 = January) of year `y`. */
  function MonthLength(y: int, m: int): (n: int)
    requires 0 <= m < 12
    ensures 28 <= n <= 31
  {
    if m == 1 then (if IsLeapYear(y) then 29 else 28)
    else if m == 3 || m == 5 || m == 8 || m == 10 then 30
    else 31
  }

  function YearLength(y: int): int {
    if IsLeapYear(y) then 366 else 365
  }

  /** Days in the years before year `y`, counted from 0001-01-01
      (floor division, so negative years count backwards). */
  function DaysBeforeYear(y: int): int {
    365 * (y - 1) + (y - 1) / 4 - (y - 1) / 100 + (y - 1) / 400
  }

  /** Days in the months of year `y` before month `m`. */
  function DaysBeforeMonth(y: int, m: int): int
    requires 0 <= m <= 12
  {
    if m == 0 then 0 else DaysBeforeMonth(y, m - 1) + MonthLength(y, m - 1)
  }

  /** Day number of day `d` of month `m` of year `y`, where 0001-01-01 is
      day 1. Like ECMA-262's MakeDay, the month may lie outside 0..11 (it
      carries into the year) and the day may lie outside the month. */
  function DayNumber(y: int, m: int, d: int): int {
    DaysBeforeYear(y + m / 12) + DaysBeforeMonth(y + m / 12, m % 12) + d
  }

  /** `getDay()`: 0 = Sunday … 6 = Saturday. 0001-01-01 was a Monday. */
  function Weekday(y: int, m: int, d: int): (w: int)
    ensures 0 <= w < 7
  {
    DayNumber(y, m, d) % 7
  }

  predicate IsWeekend(weekday: int) {
    weekday == 0 || weekday == 6
  }

  /** Floor division by a positive constant steps up by one exactly at the
      multiples of the divisor. */
  lemma FloorDivStep(y: int, c: int)
    requires c == 4 || c == 100 || c == 400
    ensures y / c - (y - 1) / c == (if y % c == 0 then 1 else 0)
  {
    var q, r := (y - 1) / c, (y - 1) % c;
    assert y - 1 == c * q + r && 0 <= r < c;
    if r == c - 1 {
      assert y == c * (q + 1);
    } else {
      assert y == c * q + (r + 1) && 0 <= r + 1 < c;
    }
  }

  /** A multiple of 400 is a multiple of 100, and a multiple of 100 is a
      multiple of 4. */
  lemma DivisorChain(y: int)
    ensures y % 400 == 0 ==> y % 100 == 0
    ensures y % 100 == 0 ==> y % 4 == 0
  {
    if y % 400 == 0 {
      var k := y / 400;
      assert y == 100 * (4 * k);
    }
    if y % 100 == 0 {
      var k := y / 100;
      assert y == 4 * (25 * k);
    }
  }

  /** Counting days by the floor-division formula gives each year its
      length: 366 exactly in a leap year. */
  lemma YearLengthIsLeapDayCount(y: int)
    ensures DaysBeforeYear(y + 1) - DaysBeforeYear(y) == YearLength(y)
  {
    FloorDivStep(y, 4);
    FloorDivStep(y, 100);
    FloorDivStep(y, 400);
    DivisorChain(y);
    var d4, d100, d400 := y / 4 - (y - 1) / 4, y / 100 - (y - 1) / 100, y / 400 - (y - 1) / 400;
    assert DaysBeforeYear(y + 1) - DaysBeforeYear(y) == 365 + d4 - d100 + d400;
  }

  lemma DaysBeforeDecember(y: int)
    ensures DaysBeforeMonth(y, 11) == YearLength(y) - 31
  {
    assert DaysBeforeMonth(y, 1) == 31;
    assert DaysBeforeMonth(y, 2) == 31 + MonthLength(y, 1);
    assert DaysBeforeMonth(y, 3) == DaysBeforeMonth(y, 2) + 31;
    assert DaysBeforeMonth(y, 4) == DaysBeforeMonth(y, 2) + 61;
    assert DaysBeforeMonth(y, 5) == DaysBeforeMonth(y, 2) + 92;
    assert DaysBeforeMonth(y, 6) == DaysBeforeMonth(y, 2) + 122;
    assert DaysBeforeMonth(y, 7) == DaysBeforeMonth(y, 2) + 153;
    assert DaysBeforeMonth(y, 8) == DaysBeforeMonth(y, 2) + 184;
    assert DaysBeforeMonth(y, 9) == DaysBeforeMonth(y, 2) + 214;
    assert DaysBeforeMonth(y, 10) == DaysBeforeMonth(y, 2) + 245;
  }

  /** Day 0 of the month after `m` is the last day of month `m`: this is
      how `new Date(y, m + 1, 0)` finds the length of month `m`, including
      December, whose "next month" is January of the following year. */
  lemma DayZeroOfNextMonth(y: int, m: int)
    requires 0 <= m < 12
    ensures DayNumber(y, m + 1, 0) == DayNumber(y, m, MonthLength(y, m))
  {
    assert m / 12 == 0 && m % 12 == m;
    if m == 11 {
      assert (m + 1) / 12 == 1 && (m + 1) % 12 == 0;
      DaysBeforeDecember(y);
      YearLengthIsLeapDayCount(y);
    } else {
      assert (m + 1) / 12 == 0 && (m + 1) % 12 == m + 1;
    }
  }

  /** Consecutive days have consecutive weekdays. */
  lemma WeekdayOfNextDay(y: int, m: int, d: int)
    ensures Weekday(y, m, d + 1) == (Weekday(y, m, d) + 1) % 7
  {
  }

  /** Two reference dates: 1 January 1970 was a Thursday and 3 February
      2024 was a Saturday. */
  lemma KnownWeekdays()
    ensures Weekday(1970, 0, 1) == 4
    ensures Weekday(2024, 1, 3) == 6
  {
    assert DaysBeforeMonth(2024, 1) == 31;
  }
}
