/** Proleptic Gregorian calendar arithmetic on day numbers: day 0 is
    1970-01-01, and every integer is a day (negative ones lie before 1970).
    This is the calendar that the JavaScript runtime uses for UTC dates. */
module Calendar {

  /** A civil date: year (any integer), month 1..12, day of month. */
  datatype Date = Date(year: int, month: int, day: int)

  predicate IsLeapYear(y: int) {
    y % 4 == 0 && (y % 100 != 0 || y % 400 == 0)
  }

  function DaysInYear(y: int): int {
    if IsLeapYear(y) then 366 else 365
  }

  function DaysInMonth(y: int, m: int): int
    requires 1 <= m <= 12
  {
    if m == 2 then (if IsLeapYear(y) then 29 else 28)
    else if m == 4 || m == 6 || m == 9 || m == 11 then 30
    else 31
  }

  predicate ValidDate(c: Date) {
    1 <= c.month <= 12 && 1 <= c.day <= DaysInMonth(c.year, c.month)
  }

  /** Days of year y that precede the first of month m; m == 13 gives the
      whole year. (367 * m - 362) / 12 counts as if February had 30 days. */
  function DaysBeforeMonth(y: int, m: int): int
    requires 1 <= m <= 13
  {
    (367 * m - 362) / 12 - (if m <= 2 then 0 else if IsLeapYear(y) then 1 else 2)
  }

  lemma DaysBeforeMonthStep(y: int, m: int)
    requires 1 <= m <= 12
    ensures DaysBeforeMonth(y, m + 1) == DaysBeforeMonth(y, m) + DaysInMonth(y, m)
    ensures DaysBeforeMonth(y, 13) == DaysInYear(y)
  {
    if m == 1 {} else if m == 2 {} else if m == 3 {} else if m == 4 {}
    else if m == 5 {} else if m == 6 {} else if m == 7 {} else if m == 8 {}
    else if m == 9 {} else if m == 10 {} else if m == 11 {} else {}
  }

  lemma {:induction false} DaysBeforeMonthMonotone(y: int, a: int, b: int)
    requires 1 <= a <= b <= 13
    ensures DaysBeforeMonth(y, b) - DaysBeforeMonth(y, a) >= 28 * (b - a)
    decreases b - a
  {
    if a < b {
      DaysBeforeMonthStep(y, a);
      DaysBeforeMonthMonotone(y, a + 1, b);
    }
  }

  /** Leap years among 1 .. y-1 (for y <= 0 the same closed form, continued downwards). */
  function LeapYearsBefore(y: int): int {
    (y - 1) / 4 - (y - 1) / 100 + (y - 1) / 400
  }

  /** Day number of January 1 of year y. */
  function YearStart(y: int): int {
    365 * (y - 1970) + LeapYearsBefore(y) - LeapYearsBefore(1970)
  }

  /** Each of the counts of multiples of 4, 100 and 400 steps up by one exactly at a multiple. */
  lemma LeapCountStep(y: int)
    ensures y / 4 - (y - 1) / 4 == (if y % 4 == 0 then 1 else 0)
    ensures y / 100 - (y - 1) / 100 == (if y % 100 == 0 then 1 else 0)
    ensures y / 400 - (y - 1) / 400 == (if y % 400 == 0 then 1 else 0)
  {
  }

  lemma YearStartNext(y: int)
    ensures YearStart(y + 1) == YearStart(y) + DaysInYear(y)
  {
    LeapCountStep(y);
  }

  /** Every year has at least 365 days, so year starts grow at least that fast. */
  lemma {:induction false} YearStartGrowth(a: int, b: int)
    requires a <= b
    ensures YearStart(b) - YearStart(a) >= 365 * (b - a)
    decreases b - a
  {
    if a < b {
      YearStartNext(a);
      YearStartGrowth(a + 1, b);
    }
  }

  /** Four hundred Gregorian years are exactly 146097 days. */
  const DaysPerEra: int := 146097

  lemma YearStartEras(k: int, era: int)
    ensures YearStart(400 * era + k) == YearStart(k) + DaysPerEra * era
  {
    assert (400 * era + k - 1) / 4 == 100 * era + (k - 1) / 4;
    assert (400 * era + k - 1) / 100 == 4 * era + (k - 1) / 100;
    assert (400 * era + k - 1) / 400 == era + (k - 1) / 400;
  }

  /** Day number of the civil date (y, m, d). The day of month is not
      bounded: a day past the end of the month runs on into the next months
      by plain addition, as the runtime's date construction does. */
  function DayNumber(y: int, m: int, d: int): int
    requires 1 <= m <= 12
  {
    YearStart(y) + DaysBeforeMonth(y, m) + d - 1
  }

  /** The year of era day doe (0 <= doe < DaysPerEra), searching down from k. */
  function YearOfEra(doe: int, k: nat): nat
    decreases k
  {
    if k == 0 || YearStart(k) - YearStart(0) <= doe then k else YearOfEra(doe, k - 1)
  }

  lemma {:induction false} YearOfEraBounds(doe: int, k: nat)
    requires 0 <= doe < YearStart(k + 1) - YearStart(0)
    ensures YearStart(YearOfEra(doe, k)) - YearStart(0) <= doe
    ensures doe < YearStart(YearOfEra(doe, k) + 1) - YearStart(0)
    decreases k
  {
    if k != 0 && YearStart(k) - YearStart(0) > doe {
      YearOfEraBounds(doe, k - 1);
    }
  }

  /** The 400-year era that day n falls in, counted from year 0. */
  function EraOf(n: int): int {
    (n - YearStart(0)) / DaysPerEra
  }

  /** The position of day n within its era. */
  function DayOfEra(n: int): int {
    (n - YearStart(0)) % DaysPerEra
  }

  lemma EraSplit(n: int)
    ensures n - YearStart(0) == DaysPerEra * EraOf(n) + DayOfEra(n)
    ensures 0 <= DayOfEra(n) < DaysPerEra
  {
  }

  /** The year that day n falls in. */
  function YearOf(n: int): int {
    400 * EraOf(n) + YearOfEra(DayOfEra(n), DayOfEra(n) / 365)
  }

  /** Searching down from doe / 365 finds the year of era day doe. */
  lemma YearOfEraFromGuess(doe: int)
    requires 0 <= doe
    ensures var r := YearOfEra(doe, doe / 365);
      YearStart(r) - YearStart(0) <= doe < YearStart(r + 1) - YearStart(0)
  {
    YearStartGrowth(0, doe / 365 + 1);
    YearOfEraBounds(doe, doe / 365);
  }

  /** A year y = 400 * era + k starts, and ends, era whole eras after year k. */
  lemma YearStartEraShift(y: int, era: int, k: int)
    requires y == 400 * era + k
    ensures YearStart(y) == YearStart(k) + DaysPerEra * era
    ensures YearStart(y + 1) == YearStart(k + 1) + DaysPerEra * era
  {
    YearStartEras(k, era);
    YearStartEras(k + 1, era);
    assert y + 1 == 400 * era + (k + 1);
  }

  lemma YearOfBounds(n: int)
    ensures YearStart(YearOf(n)) <= n < YearStart(YearOf(n) + 1)
  {
    EraSplit(n);
    YearOfEraFromGuess(DayOfEra(n));
    YearStartEraShift(YearOf(n), EraOf(n), YearOfEra(DayOfEra(n), DayOfEra(n) / 365));
  }

  /** YearOf(n) is the only year whose span holds day n. */
  lemma YearOfUnique(n: int, y: int)
    requires YearStart(y) <= n < YearStart(y + 1)
    ensures YearOf(n) == y
  {
    var x := YearOf(n);
    YearOfBounds(n);
    if x < y {
      YearStartGrowth(x + 1, y);
    } else if y < x {
      YearStartGrowth(y + 1, x);
    }
  }

  /** The month of day-of-year doy in year y, searching down from m. */
  function MonthOf(y: int, doy: int, m: int): int
    requires 1 <= m <= 12
    decreases m
  {
    if m == 1 || DaysBeforeMonth(y, m) <= doy then m else MonthOf(y, doy, m - 1)
  }

  lemma {:induction false} MonthOfBounds(y: int, doy: int, m: int)
    requires 1 <= m <= 12
    requires 0 <= doy < DaysBeforeMonth(y, m + 1)
    ensures 1 <= MonthOf(y, doy, m) <= m
    ensures DaysBeforeMonth(y, MonthOf(y, doy, m)) <= doy < DaysBeforeMonth(y, MonthOf(y, doy, m) + 1)
    decreases m
  {
    if m != 1 && DaysBeforeMonth(y, m) > doy {
      MonthOfBounds(y, doy, m - 1);
    }
  }

  lemma {:induction false} MonthOfUnique(y: int, doy: int, m: int, k: int)
    requires 1 <= m <= k <= 12
    requires DaysBeforeMonth(y, m) <= doy < DaysBeforeMonth(y, m + 1)
    ensures MonthOf(y, doy, k) == m
    decreases k
  {
    if k > m {
      DaysBeforeMonthMonotone(y, m + 1, k);
      MonthOfUnique(y, doy, m, k - 1);
    }
  }

  /** The civil date of day n. */
  function FromDayNumber(n: int): Date {
    var y := YearOf(n);
    YearOfBounds(n);
    YearStartNext(y);
    var doy := n - YearStart(y);
    DaysBeforeMonthStep(y, 12);
    MonthOfBounds(y, doy, 12);
    var m := MonthOf(y, doy, 12);
    Date(y, m, doy - DaysBeforeMonth(y, m) + 1)
  }

  /** Every day number decodes to a valid date that numbers back to it. */
  lemma FromDayNumberValid(n: int)
    ensures ValidDate(FromDayNumber(n))
    ensures var c := FromDayNumber(n); DayNumber(c.year, c.month, c.day) == n
  {
    var y := YearOf(n);
    YearOfBounds(n);
    YearStartNext(y);
    var doy := n - YearStart(y);
    DaysBeforeMonthStep(y, 12);
    MonthOfBounds(y, doy, 12);
    var m := MonthOf(y, doy, 12);
    DaysBeforeMonthStep(y, m);
  }

  /** Numbering a valid date and decoding the number gives the date back. */
  lemma DayNumberRoundTrip(c: Date)
    requires ValidDate(c)
    ensures FromDayNumber(DayNumber(c.year, c.month, c.day)) == c
  {
    var n := DayNumber(c.year, c.month, c.day);
    DaysBeforeMonthStep(c.year, c.month);
    DaysBeforeMonthMonotone(c.year, c.month + 1, 13);
    DaysBeforeMonthStep(c.year, 12);
    YearStartNext(c.year);
    YearOfUnique(n, c.year);
    MonthOfUnique(c.year, n - YearStart(c.year), c.month, 12);
  }

  /** Within one year, the day numbers of valid dates follow (month, day) order. */
  lemma DayNumberOrderInYear(y: int, m1: int, d1: int, m2: int, d2: int)
    requires ValidDate(Date(y, m1, d1)) && ValidDate(Date(y, m2, d2))
    ensures DayNumber(y, m1, d1) < DayNumber(y, m2, d2) <==> (m1 < m2 || (m1 == m2 && d1 < d2))
  {
    if m1 < m2 {
      DaysBeforeMonthStep(y, m1);
      DaysBeforeMonthMonotone(y, m1 + 1, m2);
    } else if m2 < m1 {
      DaysBeforeMonthStep(y, m2);
      DaysBeforeMonthMonotone(y, m2 + 1, m1);
    }
  }
}
