/**
 * The proleptic Gregorian calendar that `Date` uses (section 21.4.1 of
 * ECMA-262): conversion between day numbers counted from 1970-01-01 and
 * (year, month, day) dates, with astronomical year numbering (year 0 exists).
 */
module Civil {

  const EpochYear: int := 1970

  predicate IsLeapYear(y: int) {
    y % 4 == 0 && (y % 100 != 0 || y % 400 == 0)
  }

  function DaysInYear(y: int): (n: int)
    ensures n == 365 || n == 366
  {
    if IsLeapYear(y) then 366 else 365
  }

  /** Days from 1 January of `y` to the first day of month `m`; m = 13 gives the whole year. */
  function DaysBeforeMonth(y: int, m: int): (n: int)
    requires 1 <= m <= 13
    ensures m == 1 ==> n == 0
    ensures m == 13 ==> n == DaysInYear(y)
    ensures 0 <= n <= DaysInYear(y)
  {
    var common := [0, 31, 59, 90, 120, 151, 181, 212, 243, 273, 304, 334, 365][m - 1];
    if IsLeapYear(y) && m > 2 then common + 1 else common
  }

  function DaysInMonth(y: int, m: int): (n: int)
    requires 1 <= m <= 12
    ensures 28 <= n <= 31
    ensures m == 2 ==> (n == 29 <==> IsLeapYear(y))
  {
    DaysBeforeMonth(y, m + 1) - DaysBeforeMonth(y, m)
  }

  /** Day number of 1 January of year `y` (negative before 1970). */
  function DaysToYear(y: int): int
    decreases if y >= EpochYear then y - EpochYear else EpochYear - y
  {
    if y == EpochYear then 0
    else if y > EpochYear then DaysToYear(y - 1) + DaysInYear(y - 1)
    else DaysToYear(y + 1) - DaysInYear(y)
  }

  lemma YearStep(y: int)
    ensures DaysToYear(y + 1) == DaysToYear(y) + DaysInYear(y)
  {
  }

  /** Day numbers of year starts strictly increase with the year. */
  lemma {:induction false} DaysToYearIncreasing(a: int, b: int)
    requires a < b
    ensures DaysToYear(a) + 365 * (b - a) <= DaysToYear(b) <= DaysToYear(a) + 366 * (b - a)
    decreases b - a
  {
    YearStep(b - 1);
    if a < b - 1 {
      DaysToYearIncreasing(a, b - 1);
    }
  }

  datatype Date = Date(year: int, month: int, day: int)

  predicate ValidDate(d: Date) {
    1 <= d.month <= 12 && 1 <= d.day <= DaysInMonth(d.year, d.month)
  }

  /** The day number of a calendar date. */
  function DaysFromCivil(d: Date): int
    requires ValidDate(d)
  {
    DaysToYear(d.year) + DaysBeforeMonth(d.year, d.month) + d.day - 1
  }

  /** The year containing day `n`, searching upward from `y`. */
  function YearUp(n: int, y: int): (r: int)
    requires DaysToYear(y) <= n
    ensures DaysToYear(r) <= n < DaysToYear(r + 1)
    decreases n - DaysToYear(y)
  {
    YearStep(y);
    if n < DaysToYear(y + 1) then y else YearUp(n, y + 1)
  }

  /** The year containing day `n`, searching downward from `y`. */
  function YearDown(n: int, y: int): (r: int)
    requires n < DaysToYear(y + 1)
    ensures DaysToYear(r) <= n < DaysToYear(r + 1)
    decreases DaysToYear(y + 1) - n
  {
    YearStep(y);
    YearStep(y - 1);
    if DaysToYear(y) <= n then y else YearDown(n, y - 1)
  }

  /** The year that contains day number `n`. */
  function YearOfDay(n: int): (y: int)
    ensures DaysToYear(y) <= n < DaysToYear(y + 1)
  {
    if n >= 0 then YearUp(n, EpochYear) else YearDown(n, EpochYear - 1)
  }

  /** The month holding day `k` (0-based) of year `y`, searching upward from `m`. */
  function MonthFrom(y: int, k: int, m: int): (r: int)
    requires 1 <= m <= 12 && DaysBeforeMonth(y, m) <= k < DaysInYear(y)
    ensures 1 <= r <= 12 && DaysBeforeMonth(y, r) <= k < DaysBeforeMonth(y, r + 1)
    decreases 12 - m
  {
    if k < DaysBeforeMonth(y, m + 1) then m else MonthFrom(y, k, m + 1)
  }

  /** The calendar date of day number `n`; `DaysFromCivil` undoes it. */
  function CivilFromDays(n: int): (d: Date)
    ensures ValidDate(d) && DaysFromCivil(d) == n
  {
    var y := YearOfDay(n);
    YearStep(y);
    var k := n - DaysToYear(y);
    var m := MonthFrom(y, k, 1);
    Date(y, m, k - DaysBeforeMonth(y, m) + 1)
  }

  /** Distinct valid dates have distinct day numbers. */
  lemma DaysFromCivilInjective(a: Date, b: Date)
    requires ValidDate(a) && ValidDate(b) && DaysFromCivil(a) == DaysFromCivil(b)
    ensures a == b
  {
    YearStep(a.year);
    YearStep(b.year);
    if a.year < b.year {
      DaysToYearIncreasing(a.year + 1, b.year);
    } else if b.year < a.year {
      DaysToYearIncreasing(b.year + 1, a.year);
    }
    assert a.year == b.year;
    if a.month < b.month {
      MonthsDisjoint(a.year, a.month, b.month);
    } else if b.month < a.month {
      MonthsDisjoint(a.year, b.month, a.month);
    }
  }

  lemma MonthsDisjoint(y: int, m1: int, m2: int)
    requires 1 <= m1 < m2 <= 12
    ensures DaysBeforeMonth(y, m1 + 1) <= DaysBeforeMonth(y, m2)
  {
  }

  /** Every valid date is the date of its own day number. */
  lemma CivilFromDaysOfCivil(d: Date)
    requires ValidDate(d)
    ensures CivilFromDays(DaysFromCivil(d)) == d
  {
    DaysFromCivilInjective(CivilFromDays(DaysFromCivil(d)), d);
  }

  /** The years reachable by `Date` time values fit in six digits. */
  lemma YearOfDayBounds(n: int)
    requires -100000000 <= n <= 100000000
    ensures -999999 <= YearOfDay(n) <= 999999
  {
    var y := YearOfDay(n);
    if y > EpochYear {
      DaysToYearIncreasing(EpochYear, y);
    } else if y + 1 < EpochYear {
      DaysToYearIncreasing(y + 1, EpochYear);
    }
  }
}
