/**
 The proleptic Gregorian calendar that JavaScript dates use (section 21.4.1
 of ECMA-262): civil dates, and day numbers counted from 1970-01-01 (day 0),
 with conversions both ways.
 */
module Calendar {
  import opened JsText

  datatype Date = Date(year: int, month: int, day: int)

  predicate IsLeapYear(y: int)
  {
    y % 4 == 0 && (y % 100 != 0 || y % 400 == 0)
  }

  function DaysInYear(y: int): int
  {
    if IsLeapYear(y) then 366 else 365
  }

  function DaysInMonth(y: int, m: int): int
  {
    if m == 2 then (if IsLeapYear(y) then 29 else 28)
    else if m == 4 || m == 6 || m == 9 || m == 11 then 30
    else 31
  }

  /** A date that exists: a month 1..12 and a day within it. */
  predicate Valid(d: Date)
  {
    1 <= d.month <= 12 && 1 <= d.day <= DaysInMonth(d.year, d.month)
  }

  /** Days of year `y` before the first of month `m`. */
  function DaysBeforeMonth(y: int, m: int): int
    requires 1 <= m <= 12
  {
    [0, 31, 59, 90, 120, 151, 181, 212, 243, 273, 304, 334][m - 1]
      + (if m > 2 && IsLeapYear(y) then 1 else 0)
  }

  /** Each month starts where the previous one ends, and December ends the year. */
  lemma MonthTable(y: int, m: int)
    requires 1 <= m <= 12
    ensures DaysBeforeMonth(y, m) + DaysInMonth(y, m) ==
            if m < 12 then DaysBeforeMonth(y, m + 1) else DaysInYear(y)
  {
  }

  /** Leap years from year 1 up to, not including, year `y` (negative before year 1). */
  function Leaps(y: int): int
  {
    (y - 1) / 4 - (y - 1) / 100 + (y - 1) / 400
  }

  /** The day number of January 1 of year `y`. */
  function DaysBeforeYear(y: int): int
  {
    365 * (y - 1970) + Leaps(y) - 477
  }

  /** The number of days from 1970-01-01 to `d`. */
  function DayNumber(d: Date): int
    requires 1 <= d.month <= 12
  {
    DaysBeforeYear(d.year) + DaysBeforeMonth(d.year, d.month) + d.day - 1
  }

  lemma FloorStep(a: int, k: int)
    requires k > 0
    ensures a / k - (a - 1) / k == if a % k == 0 then 1 else 0
  {
    var q, r := (a - 1) / k, (a - 1) % k;
    if r == k - 1 {
      DivModUnique(a, k, q + 1, 0);
    } else {
      DivModUnique(a, k, q, r + 1);
    }
  }

  /** Consecutive years are a year's length apart. */
  lemma DaysBeforeYearStep(y: int)
    ensures DaysBeforeYear(y + 1) == DaysBeforeYear(y) + DaysInYear(y)
  {
    FloorStep(y, 4);
    FloorStep(y, 100);
    FloorStep(y, 400);
  }

  lemma {:induction false} DaysBeforeYearMonotone(a: int, b: int)
    requires a <= b
    ensures DaysBeforeYear(a) <= DaysBeforeYear(b)
    ensures a < b ==> DaysBeforeYear(a + 1) <= DaysBeforeYear(b)
    decreases b - a
  {
    if a < b {
      DaysBeforeYearStep(a);
      DaysBeforeYearMonotone(a + 1, b);
    }
  }

  /** January 1 of the year `400a + 100b + 4c + e + 1`, counted in whole cycles of 400, 100, 4 and 1 years. */
  lemma DaysBeforeYearDecomposed(a: int, b: int, c: int, e: int)
    requires 0 <= b <= 3 && 0 <= c <= 24 && 0 <= e <= 3
    ensures DaysBeforeYear(400 * a + 100 * b + 4 * c + e + 1) ==
            146097 * a + 36524 * b + 1461 * c + 365 * e - 719162
  {
    var y1 := 400 * a + 100 * b + 4 * c + e;
    DivModUnique(y1, 4, 100 * a + 25 * b + c, e);
    DivModUnique(y1, 100, 4 * a + b, 4 * c + e);
    DivModUnique(y1, 400, a, 100 * b + 4 * c + e);
  }

  /** The month and day of the day with index `r` (from 0) in year `y`. */
  function MonthDay(y: int, r: int): (d: Date)
    requires 0 <= r < DaysInYear(y)
    ensures d.year == y && Valid(d) && DaysBeforeMonth(y, d.month) + d.day - 1 == r
  {
    var m := FindMonth(y, r, 12);
    MonthTable(y, m);
    Date(y, m, r - DaysBeforeMonth(y, m) + 1)
  }

  /** The last month, not after `m`, that starts on or before day index `r`. */
  function FindMonth(y: int, r: int, m: int): (k: int)
    requires 1 <= m <= 12 && 0 <= r
    requires r < (if m < 12 then DaysBeforeMonth(y, m + 1) else DaysInYear(y))
    ensures 1 <= k <= m
    ensures DaysBeforeMonth(y, k) <= r < DaysBeforeMonth(y, k) + DaysInMonth(y, k)
    decreases m
  {
    MonthTable(y, m);
    if r >= DaysBeforeMonth(y, m) then m else FindMonth(y, r, m - 1)
  }

  /** The civil date of day number `n`. */
  function FromDayNumber(n: int): (d: Date)
    ensures Valid(d) && DayNumber(d) == n
  {
    var z := n + 719162;
    var a, r := z / 146097, z % 146097;
    var b, r2 := r / 36524, r % 36524;
    var c, r3 := r2 / 1461, r2 % 1461;
    var e, r4 := r3 / 365, r3 % 365;
    assert r == 36524 * b + 1461 * c + 365 * e + r4;
    DateInCycle(a, b, c, e, r4)
  }

  /**
   The date `r4` days into the year reached after `a` cycles of 400 years,
   `b` of 100, `c` of 4 and `e` of 1 since 0001-01-01; both 4s stand for
   the extra day that ends a leap cycle.
   */
  function DateInCycle(a: int, b: int, c: int, e: int, r4: int): (d: Date)
    requires 0 <= b <= 4 && 0 <= c <= 24 && 0 <= e <= 4 && 0 <= r4 < 365
    requires 36524 * b + 1461 * c + 365 * e + r4 < 146097
    requires 1461 * c + 365 * e + r4 < 36524 && 365 * e + r4 < 1461
    ensures Valid(d) && DayNumber(d) == 146097 * a + 36524 * b + 1461 * c + 365 * e + r4 - 719162
  {
    if b == 4 then
      LastDayOfQuadricentury(a)
    else if e == 4 then
      LastDayOfOlympiad(a, b, c)
    else
      var y := 400 * a + 100 * b + 4 * c + e + 1;
      DaysBeforeYearDecomposed(a, b, c, e);
      MonthDay(y, r4)
  }

  function LastDayOfQuadricentury(a: int): (d: Date)
    ensures Valid(d) && DayNumber(d) == 146097 * a + 146096 - 719162
  {
    DaysBeforeYearDecomposed(a, 3, 24, 3);
    DivModUnique(400 * a + 400, 400, a + 1, 0);
    DivModUnique(400 * a + 400, 100, 4 * a + 4, 0);
    DivModUnique(400 * a + 400, 4, 100 * a + 100, 0);
    Date(400 * a + 400, 12, 31)
  }

  function LastDayOfOlympiad(a: int, b: int, c: int): (d: Date)
    requires 0 <= b <= 3 && 0 <= c <= 23
    ensures Valid(d) && DayNumber(d) == 146097 * a + 36524 * b + 1461 * c + 1460 - 719162
  {
    var y := 400 * a + 100 * b + 4 * c + 4;
    DaysBeforeYearDecomposed(a, b, c, 3);
    DivModUnique(y, 4, 100 * a + 25 * b + c + 1, 0);
    DivModUnique(y, 100, 4 * a + b, 4 * c + 4);
    Date(y, 12, 31)
  }

  /** A valid date lies between January 1 of its year and January 1 of the next. */
  lemma DayNumberInYear(d: Date)
    requires Valid(d)
    ensures DaysBeforeYear(d.year) <= DayNumber(d) < DaysBeforeYear(d.year + 1)
  {
    MonthTable(d.year, d.month);
    DaysBeforeYearStep(d.year);
    assert d.month < 12 ==> DaysBeforeMonth(d.year, d.month + 1) <= DaysBeforeMonth(d.year, 12) + 31;
  }

  /** Distinct valid dates have distinct day numbers. */
  lemma DayNumberInjective(d1: Date, d2: Date)
    requires Valid(d1) && Valid(d2) && DayNumber(d1) == DayNumber(d2)
    ensures d1 == d2
  {
    DayNumberInYear(d1);
    DayNumberInYear(d2);
    if d1.year < d2.year {
      DaysBeforeYearMonotone(d1.year, d2.year);
    } else if d2.year < d1.year {
      DaysBeforeYearMonotone(d2.year, d1.year);
    }
    MonthTable(d1.year, d1.month);
    MonthTable(d2.year, d2.month);
  }

  /** The two conversions are inverse on valid dates. */
  lemma FromDayNumberOfDayNumber(d: Date)
    requires Valid(d)
    ensures FromDayNumber(DayNumber(d)) == d
  {
    DayNumberInjective(FromDayNumber(DayNumber(d)), d);
  }

  /** A day number falls in year `y` exactly when it lies between the starts of `y` and `y + 1`. */
  lemma YearOfDayNumber(n: int, y: int)
    ensures FromDayNumber(n).year == y <==> DaysBeforeYear(y) <= n < DaysBeforeYear(y + 1)
  {
    var d := FromDayNumber(n);
    DayNumberInYear(d);
    if d.year < y {
      DaysBeforeYearMonotone(d.year, y);
    } else if y < d.year {
      DaysBeforeYearMonotone(y, d.year);
    }
  }
}
