/**
  Calendar days as integers. The views compare `YYYY-MM-DD` dates, subtract
  them in whole days and read back the year and the month; a date-only value
  is a whole number of days, so a day number since 1970-01-01 (negative
  before it) carries all of that, under the proleptic Gregorian calendar.
 */
module Calendar {

  /** Days since 1970-01-01. */
  type Date = int

  predicate IsLeapYear(y: int)
  {
    y % 4 == 0 && (y % 100 != 0 || y % 400 == 0)
  }

  function DaysInYear(y: int): int
  {
    if IsLeapYear(y) then 366 else 365
  }

  /** The day number of January 1 of year `y`. */
  function JanFirst(y: int): Date
    decreases if y < 1970 then 1970 - y else y - 1970
  {
    if y == 1970 then 0
    else if y > 1970 then JanFirst(y - 1) + DaysInYear(y - 1)
    else JanFirst(y + 1) - DaysInYear(y)
  }

  /** The day number of December 31 of year `y`. */
  function DecThirtyFirst(y: int): Date
  {
    JanFirst(y + 1) - 1
  }

  lemma NextJanFirst(y: int)
    ensures JanFirst(y + 1) == JanFirst(y) + DaysInYear(y)
  {
  }

  /** Later years start later. */
  lemma {:induction false} JanFirstIncreasing(y: int, z: int)
    requires y < z
    ensures JanFirst(y) < JanFirst(z)
    decreases z - y
  {
    NextJanFirst(y);
    if y + 1 < z {
      JanFirstIncreasing(y + 1, z);
    }
  }

  function YearUp(y: int, d: Date): (r: int)
    requires JanFirst(y) <= d
    ensures JanFirst(r) <= d < JanFirst(r + 1)
    decreases d - JanFirst(y)
  {
    NextJanFirst(y);
    if d < JanFirst(y + 1) then y else YearUp(y + 1, d)
  }

  function YearDown(y: int, d: Date): (r: int)
    requires d < JanFirst(y + 1)
    ensures JanFirst(r) <= d < JanFirst(r + 1)
    decreases JanFirst(y + 1) - d
  {
    NextJanFirst(y);
    if JanFirst(y) <= d then y else YearDown(y - 1, d)
  }

  /** The calendar year of a day (JavaScript's `getFullYear`). */
  function YearOf(d: Date): (y: int)
    ensures JanFirst(y) <= d < JanFirst(y + 1)
  {
    if 0 <= d then YearUp(1970, d) else YearDown(1969, d)
  }

  /** A day lies in year `y` exactly when it falls between January 1 and December 31 of `y`. */
  lemma YearOfIff(d: Date, y: int)
    ensures YearOf(d) == y <==> JanFirst(y) <= d <= DecThirtyFirst(y)
  {
    var x := YearOf(d);
    if x < y {
      JanFirstIncreasing(x + 1, y + 1);
      if x + 1 < y {
        JanFirstIncreasing(x + 1, y);
      }
    } else if y < x {
      JanFirstIncreasing(y, x);
      if y + 1 < x {
        JanFirstIncreasing(y + 1, x);
      }
    }
  }

  function DaysInMonth(m: int, leap: bool): int
    requires 0 <= m < 12
  {
    if m == 1 then (if leap then 29 else 28)
    else if m == 3 || m == 5 || m == 8 || m == 10 then 30
    else 31
  }

  /** Days of the year before the first of month `m` (0 = January). */
  function DaysBeforeMonth(m: int, leap: bool): int
    requires 0 <= m <= 12
  {
    if m == 0 then 0 else DaysBeforeMonth(m - 1, leap) + DaysInMonth(m - 1, leap)
  }

  function MonthFrom(m: int, dayOfYear: int, leap: bool): (r: int)
    requires 0 <= m < 12 && DaysBeforeMonth(m, leap) <= dayOfYear
    ensures m <= r < 12
    ensures DaysBeforeMonth(r, leap) <= dayOfYear
    ensures r < 11 ==> dayOfYear < DaysBeforeMonth(r + 1, leap)
    decreases 12 - m
  {
    if m == 11 || dayOfYear < DaysBeforeMonth(m + 1, leap) then m
    else MonthFrom(m + 1, dayOfYear, leap)
  }

  /** The month of a day, 0 for January to 11 for December (JavaScript's `getMonth`). */
  function MonthOf(d: Date): (m: int)
    ensures 0 <= m < 12
    ensures JanFirst(YearOf(d)) + DaysBeforeMonth(m, IsLeapYear(YearOf(d))) <= d
    ensures m < 11 ==> d < JanFirst(YearOf(d)) + DaysBeforeMonth(m + 1, IsLeapYear(YearOf(d)))
  {
    var y := YearOf(d);
    MonthFrom(0, d - JanFirst(y), IsLeapYear(y))
  }

  /** The twelve months fill the year exactly. */
  lemma MonthsFillYear(leap: bool)
    ensures DaysBeforeMonth(12, leap) == if leap then 366 else 365
  {
    var m := 0;
    var total := 0;
    while m < 12
      invariant 0 <= m <= 12
      invariant total == DaysBeforeMonth(m, leap)
      invariant total == 31 * m - (if m >= 2 then (if leap then 2 else 3) else 0)
                         - (if m >= 4 then 1 else 0) - (if m >= 6 then 1 else 0)
                         - (if m >= 9 then 1 else 0) - (if m >= 11 then 1 else 0)
    {
      total := total + DaysInMonth(m, leap);
      m := m + 1;
    }
  }

  /** Each later month starts later in the year. */
  lemma {:induction false} DaysBeforeMonthIncreasing(i: int, j: int, leap: bool)
    requires 0 <= i < j <= 12
    ensures DaysBeforeMonth(i, leap) < DaysBeforeMonth(j, leap)
    decreases j - i
  {
    if i + 1 < j {
      DaysBeforeMonthIncreasing(i + 1, j, leap);
    }
  }

  /** January 1 falls in month 0 and December 31 in month 11 of the same year. */
  lemma YearRunsJanuaryToDecember(y: int)
    ensures YearOf(JanFirst(y)) == y && MonthOf(JanFirst(y)) == 0
    ensures YearOf(DecThirtyFirst(y)) == y && MonthOf(DecThirtyFirst(y)) == 11
  {
    var leap := IsLeapYear(y);
    NextJanFirst(y);
    YearOfIff(JanFirst(y), y);
    YearOfIff(DecThirtyFirst(y), y);
    MonthsFillYear(leap);
    var m0 := MonthOf(JanFirst(y));
    if m0 > 0 {
      DaysBeforeMonthIncreasing(0, m0, leap);
    }
    var m1 := MonthOf(DecThirtyFirst(y));
    if m1 < 11 {
      DaysBeforeMonthIncreasing(m1 + 1, 12, leap);
    }
  }
}
