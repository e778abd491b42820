/**
 * The proleptic Gregorian calendar, standing in for the JavaScript `Date`
 * arithmetic the month view uses: `new Date(y, m, 1).getDay()` for the
 * weekday of the first day and `new Date(y, m + 1, 0).getDate()` for the
 * length of the month. Months are 0-based (0 = January), as in `Date`.
 *
 * Days are counted from 0001-01-01, which is day 0 and a Monday. Dafny's
 * `/` and `%` round toward negative infinity for a positive divisor, so the
 * count is correct for every integer year.
 */
module Gregorian {

  predicate IsLeapYear(y: int)
  {
    y % 4 == 0 && (y % 100 != 0 || y % 400 == 0)
  }

  function YearLength(y: int): nat
  {
    if IsLeapYear(y) then 366 else 365
  }

  /** Number of days in month `m0` (0-based) of year `y`. */
  function DaysInMonth(y: int, m0: int): (n: nat)
    requires 0 <= m0 < 12
    ensures 28 <= n <= 31
  {
    if m0 == 1 then (if IsLeapYear(y) then 29 else 28)
    else if m0 == 3 || m0 == 5 || m0 == 8 || m0 == 10 then 30
    else 31
  }

  /** Days of year `y` before the first of month `m0`: a cumulative table plus the leap day. */
  function DaysBeforeMonth(y: int, m0: int): nat
    requires 0 <= m0 < 12
  {
    [0, 31, 59, 90, 120, 151, 181, 212, 243, 273, 304, 334][m0]
      + (if m0 >= 2 && IsLeapYear(y) then 1 else 0)
  }

  /** Days from 0001-01-01 to January 1 of year `y`. */
  function DaysBeforeYear(y: int): int
  {
    var x := y - 1;
    365 * x + x / 4 - x / 100 + x / 400
  }

  /** Day number of (y, m0, d); `d` may lie outside the month, as `Date` allows. */
  function DayNumber(y: int, m0: int, d: int): int
    requires 0 <= m0 < 12
  {
    DaysBeforeYear(y) + DaysBeforeMonth(y, m0) + d - 1
  }

  /**
   * The month `m` counted from January of year `y`, carried into a year and
   * a month in 0..11, as `Date` normalises an out-of-range month.
   */
  function NormalizeMonth(y: int, m: int): (r: (int, int))
    ensures 0 <= r.1 < 12
    ensures 12 * r.0 + r.1 == 12 * y + m
  {
    (y + m / 12, m % 12)
  }

  /** Day number of `new Date(y, m, d)` for the years `Date` takes literally. */
  function JsDayNumber(y: int, m: int, d: int): int
  {
    var ym := NormalizeMonth(y, m);
    DayNumber(ym.0, ym.1, d)
  }

  /** `getDay()`: 0 = Sunday, ..., 6 = Saturday. Day 0 is a Monday. */
  function JsWeekday(y: int, m: int, d: int): (w: nat)
    ensures w < 7
  {
    (JsDayNumber(y, m, d) + 1) % 7
  }

  /** `inicioSemana`: the weekday of the first of the month shifted to Monday = 0. */
  function FirstWeekday(y: int, m0: int): (w: nat)
    requires 0 <= m0 < 12
    ensures w < 7
  {
    (JsWeekday(y, m0, 1) + 6) % 7
  }

  /** Shifting a Sunday-first weekday by six is the same as counting from a Monday. */
  lemma ShiftToMonday(n: int)
    ensures ((n + 1) % 7 + 6) % 7 == n % 7
  {
    var q, r := n / 7, n % 7;
    assert n == 7 * q + r;
    if r == 6 {
      assert n + 1 == 7 * (q + 1);
      assert (n + 1) % 7 == 0;
    } else {
      assert n + 1 == 7 * q + (r + 1);
      assert (n + 1) % 7 == r + 1;
      assert r + 1 + 6 == 7 + r;
    }
  }

  lemma FirstWeekdayIsMondayBased(y: int, m0: int)
    requires 0 <= m0 < 12
    ensures FirstWeekday(y, m0) == DayNumber(y, m0, 1) % 7
  {
    assert NormalizeMonth(y, m0) == (y, m0);
    ShiftToMonday(DayNumber(y, m0, 1));
  }

  /** Stepping from `y - 1` to `y` moves `y / 4` by one exactly when `y` is a multiple of 4. */
  lemma FloorStep4(y: int)
    ensures y / 4 == (y - 1) / 4 + (if y % 4 == 0 then 1 else 0)
  {
    var q, r := (y - 1) / 4, (y - 1) % 4;
    if r == 3 { assert y == 4 * (q + 1); } else { assert y == 4 * q + (r + 1); }
  }

  lemma FloorStep100(y: int)
    ensures y / 100 == (y - 1) / 100 + (if y % 100 == 0 then 1 else 0)
  {
    var q, r := (y - 1) / 100, (y - 1) % 100;
    if r == 99 { assert y == 100 * (q + 1); } else { assert y == 100 * q + (r + 1); }
  }

  lemma FloorStep400(y: int)
    ensures y / 400 == (y - 1) / 400 + (if y % 400 == 0 then 1 else 0)
  {
    var q, r := (y - 1) / 400, (y - 1) % 400;
    if r == 399 { assert y == 400 * (q + 1); } else { assert y == 400 * q + (r + 1); }
  }

  /** A multiple of 400 is a multiple of 100, and a multiple of 100 a multiple of 4. */
  lemma MultiplesNest(y: int)
    ensures y % 400 == 0 ==> y % 100 == 0
    ensures y % 100 == 0 ==> y % 4 == 0
  {
    if y % 400 == 0 {
      var k := 4 * (y / 400);
      assert y == 100 * k;
      assert y % 100 == 100 * (k - y / 100);
    }
    if y % 100 == 0 {
      var k := 25 * (y / 100);
      assert y == 4 * k;
      assert y % 4 == 4 * (k - y / 4);
    }
  }

  /** The year-start count advances by exactly the length of the year, leap day included. */
  lemma YearStep(y: int)
    ensures DaysBeforeYear(y + 1) == DaysBeforeYear(y) + YearLength(y)
  {
    FloorStep4(y);
    FloorStep100(y);
    FloorStep400(y);
    MultiplesNest(y);
    assert DaysBeforeYear(y + 1) == 365 * y + y / 4 - y / 100 + y / 400;
    assert DaysBeforeYear(y) == 365 * (y - 1) + (y - 1) / 4 - (y - 1) / 100 + (y - 1) / 400;
  }

  /** The cumulative table agrees with the month lengths, and its last month closes the year. */
  lemma MonthStep(y: int, m0: int)
    requires 0 <= m0 < 12
    ensures m0 < 11 ==> DaysBeforeMonth(y, m0 + 1) == DaysBeforeMonth(y, m0) + DaysInMonth(y, m0)
    ensures m0 == 11 ==> DaysBeforeMonth(y, m0) + DaysInMonth(y, m0) == YearLength(y)
  {
  }

  /**
   * The "day 0 of the next month" trick: `new Date(y, m0 + 1, 0)` is the
   * last day of month `m0`, including for December, so its `getDate()` is
   * the month's length.
   */
  lemma DayZeroOfNextMonth(y: int, m0: int)
    requires 0 <= m0 < 12
    ensures JsDayNumber(y, m0 + 1, 0) == DayNumber(y, m0, DaysInMonth(y, m0))
  {
    MonthStep(y, m0);
    if m0 == 11 {
      assert NormalizeMonth(y, m0 + 1) == (y + 1, 0);
      YearStep(y);
    } else {
      assert NormalizeMonth(y, m0 + 1) == (y, m0 + 1);
    }
  }

  lemma ModAddSeven(n: int, d: int)
    ensures (n % 7 + d) % 7 == (n + d) % 7
  {
    var q := n / 7;
    assert n + d == (n % 7 + d) + 7 * q;
    var a := n % 7 + d;
    var qa, ra := a / 7, a % 7;
    assert n + d == 7 * (q + qa) + ra;
  }

  /** Consecutive months tile the week: the next month starts right after this one ends. */
  lemma NextMonthFirstWeekday(y: int, m0: int)
    requires 0 <= m0 < 12
    ensures var next := NormalizeMonth(y, m0 + 1);
      FirstWeekday(next.0, next.1) == (FirstWeekday(y, m0) + DaysInMonth(y, m0)) % 7
  {
    var next := NormalizeMonth(y, m0 + 1);
    DayZeroOfNextMonth(y, m0);
    FirstWeekdayIsMondayBased(y, m0);
    FirstWeekdayIsMondayBased(next.0, next.1);
    assert JsDayNumber(y, m0 + 1, 0) == DayNumber(next.0, next.1, 1) - 1;
    assert DayNumber(y, m0, DaysInMonth(y, m0)) == DayNumber(y, m0, 1) + DaysInMonth(y, m0) - 1;
    assert DayNumber(next.0, next.1, 1) == DayNumber(y, m0, 1) + DaysInMonth(y, m0);
    ModAddSeven(DayNumber(y, m0, 1), DaysInMonth(y, m0));
  }

  lemma CalendarExamples()
    ensures DaysInMonth(2024, 1) == 29 && DaysInMonth(2023, 1) == 28 && DaysInMonth(2025, 3) == 30
    ensures FirstWeekday(2025, 0) == 2   // 2025-01-01 is a Wednesday
    ensures FirstWeekday(2024, 1) == 3   // 2024-02-01 is a Thursday
  {
    assert NormalizeMonth(2025, 0) == (2025, 0);
    assert NormalizeMonth(2024, 1) == (2024, 1);
  }

  // ---------------------------------------------------------------------
  // `new Date(y, m, d)` reads a year 0..99 as 1900 + y. The month view
  // passes the selected year straight in, so for those years it lays out
  // the weeks of a different year.

  function JsDateYear(y: int): int
  {
    if 0 <= y <= 99 then 1900 + y else y
  }

  /** `inicioSemana` as calendario.js computes it, two-digit-year mapping included. */
  function FirstWeekdayAsWritten(y: int, m0: int): (w: nat)
    requires 0 <= m0 < 12
    ensures w < 7
    ensures !(0 <= y <= 99) ==> w == FirstWeekday(y, m0)
  {
    FirstWeekday(JsDateYear(y), m0)
  }

  /** `totalDias` as calendario.js computes it, two-digit-year mapping included. */
  function DaysInMonthAsWritten(y: int, m0: int): (n: nat)
    requires 0 <= m0 < 12
    ensures !(0 <= y <= 99) ==> n == DaysInMonth(y, m0)
  {
    DaysInMonth(JsDateYear(y), m0)
  }

  lemma ModOfMultiple(q: int, r: int)
    requires 0 <= r < 7
    ensures (7 * q + r) % 7 == r
  {
  }

  lemma YearOneStartsOnMonday()
    ensures FirstWeekday(1, 0) == 0
  {
    FirstWeekdayIsMondayBased(1, 0);
  }

  lemma Year1901StartsOnTuesday()
    ensures FirstWeekday(1901, 0) == 1
  {
    assert DayNumber(1901, 0, 1) == 7 * 99137 + 1 by {
      assert DaysBeforeYear(1901) == 693960 by {
        assert 1900 / 4 == 475 && 1900 / 100 == 19 && 1900 / 400 == 4;
      }
    }
    ModOfMultiple(99137, 1);
    FirstWeekdayIsMondayBased(1901, 0);
  }

  lemma AsWrittenYearOne()
    ensures FirstWeekdayAsWritten(1, 0) == 1
  {
    Year1901StartsOnTuesday();
    assert JsDateYear(1) == 1901;
  }

  /** Year 1 starts on a Monday, but the code lays it out from a Tuesday, the weekday of 1901-01-01. */
  lemma TwoDigitYearWeekday()
    ensures FirstWeekday(1, 0) == 0 && FirstWeekdayAsWritten(1, 0) == 1
  {
    YearOneStartsOnMonday();
    AsWrittenYearOne();
  }

  /** Year 0 is a leap year, but the code gives its February the 28 days of 1900. */
  lemma TwoDigitYearLeapDay()
    ensures DaysInMonth(0, 1) == 29 && DaysInMonthAsWritten(0, 1) == 28
  {
  }
}
