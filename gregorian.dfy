/**
 * Proleptic Gregorian calendar arithmetic on valid dates.
 *
 * This module stands in for the date library the calendar widget uses
 * (a `LocalDate` with `plusWeeks`, `withDayOfWeek`, `getDayOfWeek`).
 * Weekdays follow ISO 8601: Monday = 1 ... Sunday = 7.
 *
 * Every date is given a day number, the count of days since 0001-01-01
 * (which is a Monday in the proleptic Gregorian calendar). Day numbers
 * are injective on valid dates, so two dates are proved equal by
 * showing that their day numbers agree.
 */
module Gregorian {

  datatype LocalDate = LocalDate(year: int, month: int, day: int)

  datatype YearMonth = YearMonth(year: int, month: int)

  predicate IsLeapYear(y: int) {
    y % 4 == 0 && (y % 100 != 0 || y % 400 == 0)
  }

  function DaysInMonth(y: int, m: int): (n: int)
    requires 1 <= m <= 12
    ensures 28 <= n <= 31
    ensures n == 29 <==> m == 2 && IsLeapYear(y)
  {
    if m == 2 then (if IsLeapYear(y) then 29 else 28)
    else if m == 4 || m == 6 || m == 9 || m == 11 then 30
    else 31
  }

  predicate IsValid(d: LocalDate) {
    1 <= d.month <= 12 && 1 <= d.day <= DaysInMonth(d.year, d.month)
  }

  function YearLength(y: int): int {
    if IsLeapYear(y) then 366 else 365
  }

  /** Days from 0001-01-01 to January 1st of year `y` (negative before year 1). */
  function DaysBeforeYear(y: int): int
    decreases if y < 1 then 1 - y else y - 1
  {
    if y == 1 then 0
    else if y > 1 then DaysBeforeYear(y - 1) + YearLength(y - 1)
    else DaysBeforeYear(y + 1) - YearLength(y)
  }

  /** Days from January 1st of year `y` to the 1st of month `m`. */
  function DaysBeforeMonth(y: int, m: int): int
    requires 1 <= m <= 12
  {
    (if m > 2 && IsLeapYear(y) then 1 else 0) +
    (if m == 1 then 0 else if m == 2 then 31 else if m == 3 then 59 else if m == 4 then 90
     else if m == 5 then 120 else if m == 6 then 151 else if m == 7 then 181
     else if m == 8 then 212 else if m == 9 then 243 else if m == 10 then 273
     else if m == 11 then 304 else 334)
  }

  /** Days since 0001-01-01. */
  function DayNumber(d: LocalDate): int
    requires IsValid(d)
  {
    DaysBeforeYear(d.year) + DaysBeforeMonth(d.year, d.month) + d.day - 1
  }

  lemma YearStep(y: int)
    ensures DaysBeforeYear(y + 1) == DaysBeforeYear(y) + YearLength(y)
  {
  }

  lemma MonthStep(y: int, m: int)
    requires 1 <= m < 12
    ensures DaysBeforeMonth(y, m + 1) == DaysBeforeMonth(y, m) + DaysInMonth(y, m)
  {
  }

  lemma YearEnd(y: int)
    ensures DaysBeforeMonth(y, 12) + DaysInMonth(y, 12) == YearLength(y)
  {
  }

  /** Months of one year occupy disjoint, increasing ranges of days. */
  lemma MonthsOrdered(y: int, m1: int, m2: int)
    requires 1 <= m1 < m2 <= 12
    ensures DaysBeforeMonth(y, m1) + DaysInMonth(y, m1) <= DaysBeforeMonth(y, m2)
  {
  }

  lemma {:induction false} YearsOrdered(a: int, b: int)
    requires a < b
    ensures DaysBeforeYear(a) + YearLength(a) <= DaysBeforeYear(b)
    decreases b - a
  {
    YearStep(b - 1);
    if a < b - 1 {
      YearsOrdered(a, b - 1);
    }
  }

  lemma DayNumberWithinYear(d: LocalDate)
    requires IsValid(d)
    ensures DaysBeforeYear(d.year) <= DayNumber(d) < DaysBeforeYear(d.year) + YearLength(d.year)
  {
    if d.month < 12 {
      MonthsOrdered(d.year, d.month, 12);
    }
    YearEnd(d.year);
  }

  /** Distinct valid dates have distinct day numbers. */
  lemma DayNumberInjective(a: LocalDate, b: LocalDate)
    requires IsValid(a) && IsValid(b)
    requires DayNumber(a) == DayNumber(b)
    ensures a == b
  {
    DayNumberWithinYear(a);
    DayNumberWithinYear(b);
    if a.year < b.year {
      YearsOrdered(a.year, b.year);
    } else if b.year < a.year {
      YearsOrdered(b.year, a.year);
    } else if a.month < b.month {
      MonthsOrdered(a.year, a.month, b.month);
    } else if b.month < a.month {
      MonthsOrdered(a.year, b.month, a.month);
    }
  }

  function FirstOfMonth(y: int, m: int): (d: LocalDate)
    requires 1 <= m <= 12
    ensures IsValid(d)
  {
    LocalDate(y, m, 1)
  }

  function LastOfMonth(y: int, m: int): (d: LocalDate)
    requires 1 <= m <= 12
    ensures IsValid(d)
    ensures DayNumber(d) == DayNumber(FirstOfMonth(y, m)) + DaysInMonth(y, m) - 1
  {
    LocalDate(y, m, DaysInMonth(y, m))
  }

  function MonthAfter(y: int, m: int): (r: YearMonth)
    requires 1 <= m <= 12
    ensures 1 <= r.month <= 12
    ensures 12 * r.year + r.month == 12 * y + m + 1
  {
    if m == 12 then YearMonth(y + 1, 1) else YearMonth(y, m + 1)
  }

  function MonthBefore(y: int, m: int): (r: YearMonth)
    requires 1 <= m <= 12
    ensures 1 <= r.month <= 12
    ensures 12 * r.year + r.month == 12 * y + m - 1
  {
    if m == 1 then YearMonth(y - 1, 12) else YearMonth(y, m - 1)
  }

  /** The day after `d`; its day number is one more. */
  function NextDay(d: LocalDate): (r: LocalDate)
    requires IsValid(d)
    ensures IsValid(r)
    ensures DayNumber(r) == DayNumber(d) + 1
  {
    if d.day < DaysInMonth(d.year, d.month) then
      LocalDate(d.year, d.month, d.day + 1)
    else if d.month < 12 then
      MonthStep(d.year, d.month);
      LocalDate(d.year, d.month + 1, 1)
    else
      YearEnd(d.year);
      YearStep(d.year);
      LocalDate(d.year + 1, 1, 1)
  }

  /** The day before `d`; its day number is one less. */
  function PrevDay(d: LocalDate): (r: LocalDate)
    requires IsValid(d)
    ensures IsValid(r)
    ensures DayNumber(r) == DayNumber(d) - 1
  {
    if d.day > 1 then
      LocalDate(d.year, d.month, d.day - 1)
    else if d.month > 1 then
      MonthStep(d.year, d.month - 1);
      LocalDate(d.year, d.month - 1, DaysInMonth(d.year, d.month - 1))
    else
      YearEnd(d.year - 1);
      YearStep(d.year - 1);
      LocalDate(d.year - 1, 12, 31)
  }

  /** The 1st of the following month comes the day after the last of this one. */
  lemma MonthBoundary(y: int, m: int)
    requires 1 <= m <= 12
    ensures var n := MonthAfter(y, m);
      DayNumber(FirstOfMonth(n.year, n.month)) == DayNumber(LastOfMonth(y, m)) + 1
  {
    assert NextDay(LastOfMonth(y, m)) == FirstOfMonth(MonthAfter(y, m).year, MonthAfter(y, m).month);
  }

  /** The year holding day number `n`, searching upwards from year `y`. */
  function YearUp(n: int, y: int): (r: int)
    requires DaysBeforeYear(y) <= n
    ensures DaysBeforeYear(r) <= n < DaysBeforeYear(r) + YearLength(r)
    decreases n - DaysBeforeYear(y)
  {
    YearStep(y);
    if n < DaysBeforeYear(y) + YearLength(y) then y else YearUp(n, y + 1)
  }

  /** The year holding day number `n`, searching downwards from year `y`. */
  function YearDown(n: int, y: int): (r: int)
    requires n < DaysBeforeYear(y) + YearLength(y)
    ensures DaysBeforeYear(r) <= n < DaysBeforeYear(r) + YearLength(r)
    decreases DaysBeforeYear(y) - n
  {
    YearStep(y - 1);
    if DaysBeforeYear(y) <= n then y else YearDown(n, y - 1)
  }

  /** The month of year `y` holding day `t` of the year, searching downwards from month `m`. */
  function MonthDown(y: int, t: int, m: int): (r: int)
    requires 1 <= m <= 12 && 0 <= t < DaysBeforeMonth(y, m) + DaysInMonth(y, m)
    ensures 1 <= r <= 12 && DaysBeforeMonth(y, r) <= t < DaysBeforeMonth(y, r) + DaysInMonth(y, r)
    decreases m
  {
    if DaysBeforeMonth(y, m) <= t || m == 1 then m
    else
      MonthStep(y, m - 1);
      MonthDown(y, t, m - 1)
  }

  /** The date with day number `n`, found by searching its year and then its month. */
  function SearchDayNumber(n: int): (r: LocalDate)
    ensures IsValid(r) && DayNumber(r) == n
  {
    var y := if n >= 0 then YearUp(n, 1) else YearDown(n, 1);
    var t := n - DaysBeforeYear(y);
    YearEnd(y);
    var m := MonthDown(y, t, 12);
    LocalDate(y, m, t - DaysBeforeMonth(y, m) + 1)
  }

  /**
   * The valid date with day number `n`, given by that property alone: the
   * search shows there is one, and injectivity that there is only one.
   * Proofs about moved dates then see the property and not the search.
   */
  function FromDayNumber(n: int): (r: LocalDate)
    ensures IsValid(r) && DayNumber(r) == n
  {
    var found := SearchDayNumber(n);
    assert forall a: LocalDate, b: LocalDate | IsValid(a) && IsValid(b) && DayNumber(a) == n && DayNumber(b) == n :: a == b by {
      forall a: LocalDate, b: LocalDate | IsValid(a) && IsValid(b) && DayNumber(a) == n && DayNumber(b) == n
        ensures a == b
      {
        DayNumberInjective(a, b);
      }
    }
    var r :| IsValid(r) && DayNumber(r) == n;
    r
  }

  /** `d` moved by `k` days (backwards when `k` is negative). */
  function AddDays(d: LocalDate, k: int): (r: LocalDate)
    requires IsValid(d)
    ensures IsValid(r)
    ensures DayNumber(r) == DayNumber(d) + k
  {
    FromDayNumber(DayNumber(d) + k)
  }

  /** Moves that reach the same day number reach the same date. */
  lemma AddDaysShift(a: LocalDate, k: int, b: LocalDate, l: int)
    requires IsValid(a) && IsValid(b) && DayNumber(a) + k == DayNumber(b) + l
    ensures AddDays(a, k) == AddDays(b, l)
  {
  }

  /** ISO 8601 day of the week: Monday = 1 ... Sunday = 7. */
  function DayOfWeek(d: LocalDate): (w: int)
    requires IsValid(d)
    ensures 1 <= w <= 7
  {
    DayNumber(d) % 7 + 1
  }

  lemma ModSevenShift(x: int, q: int)
    ensures (7 * q + x) % 7 == x % 7
  {
    var s, t := x / 7, x % 7;
    assert 7 * q + x == 7 * (q + s) + t;
    assert 0 <= t < 7;
  }

  /** The remainder modulo 7 of the next number: one more, wrapping from 6 to 0. */
  lemma ModSevenSucc(n: int)
    ensures (n + 1) % 7 == if n % 7 == 6 then 0 else n % 7 + 1
  {
    ModSevenShift(n % 7 + 1, n / 7);
  }

  /** Moving `n` back to its multiple of 7 and then on by w - 1 leaves remainder w - 1. */
  lemma WeekdayAlign(n: int, w: int)
    requires 1 <= w <= 7
    ensures (n + w - (n % 7 + 1)) % 7 == w - 1
  {
    var q := n / 7;
    assert n + w - (n % 7 + 1) == 7 * q + (w - 1);
    ModSevenShift(w - 1, q);
  }

  /** A week later is the same day of the week. */
  lemma DayOfWeekPlusWeek(d: LocalDate, e: LocalDate)
    requires IsValid(d) && IsValid(e) && DayNumber(e) == DayNumber(d) + 7
    ensures DayOfWeek(e) == DayOfWeek(d)
  {
    ModSevenShift(DayNumber(d), 1);
  }

  /**
   * The date of the Monday-to-Sunday week of `d` whose weekday is `w`
   * (the library's `withDayOfWeek`).
   */
  function WithDayOfWeek(d: LocalDate, w: int): (r: LocalDate)
    requires IsValid(d) && 1 <= w <= 7
    ensures IsValid(r) && DayOfWeek(r) == w
    ensures DayNumber(r) - DayOfWeek(r) == DayNumber(d) - DayOfWeek(d)
  {
    WeekdayAlign(DayNumber(d), w);
    AddDays(d, w - DayOfWeek(d))
  }

  /** The Monday of the week of `d`. */
  function WeekStart(d: LocalDate): (r: LocalDate)
    requires IsValid(d)
    ensures IsValid(r) && DayOfWeek(r) == 1
    ensures DayNumber(d) - 6 <= DayNumber(r) <= DayNumber(d)
    ensures DayNumber(r) == DayNumber(d) + 1 - DayOfWeek(d)
  {
    WithDayOfWeek(d, 1)
  }

  /** Stepping a non-negative numerator by one raises its quotient by `d` exactly at multiples of `d`. */
  lemma QuotientStep4(x: int)
    requires x >= 0
    ensures (x + 1) / 4 == x / 4 + (if (x + 1) % 4 == 0 then 1 else 0)
  {
  }

  lemma QuotientStep100(x: int)
    requires x >= 0
    ensures (x + 1) / 100 == x / 100 + (if (x + 1) % 100 == 0 then 1 else 0)
  {
  }

  lemma QuotientStep400(x: int)
    requires x >= 0
    ensures (x + 1) / 400 == x / 400 + (if (x + 1) % 400 == 0 then 1 else 0)
  {
  }

  /** A multiple of a positive constant leaves no remainder. */
  lemma ModMultiple(k: int, q: int)
    requires k == 4 || k == 100
    ensures (k * q) % k == 0
  {
    if k == 4 {
      assert (4 * q) % 4 == 0;
    } else {
      assert (100 * q) % 100 == 0;
    }
  }

  /** Multiples of 400 are multiples of 100, which are multiples of 4. */
  lemma CenturyDivisors(n: int)
    ensures n % 400 == 0 ==> n % 100 == 0
    ensures n % 100 == 0 ==> n % 4 == 0
  {
    var q400, q100 := n / 400, n / 100;
    assert n == 400 * q400 + n % 400;
    assert n == 100 * q100 + n % 100;
    if n % 400 == 0 {
      ModMultiple(100, 4 * q400);
    }
    if n % 100 == 0 {
      ModMultiple(4, 25 * q100);
    }
  }

  /** The leap-year count in closed form: days before January 1st of a year from 1 on. */
  lemma {:induction false} DaysBeforeYearClosed(y: int)
    requires y >= 1
    ensures DaysBeforeYear(y) == 365 * (y - 1) + (y - 1) / 4 - (y - 1) / 100 + (y - 1) / 400
    decreases y
  {
    if y > 1 {
      DaysBeforeYearClosed(y - 1);
      QuotientStep4(y - 2);
      QuotientStep100(y - 2);
      QuotientStep400(y - 2);
      CenturyDivisors(y - 1);
      assert DaysBeforeYear(y) == DaysBeforeYear(y - 1) + YearLength(y - 1);
      assert YearLength(y - 1) == 365 + (if (y - 1) % 4 == 0 then 1 else 0)
        - (if (y - 1) % 100 == 0 then 1 else 0) + (if (y - 1) % 400 == 0 then 1 else 0);
    }
  }

  /** The day number of New Year 2020. */
  lemma DaysBefore2020(y: int)
    requires y == 2020
    ensures DaysBeforeYear(y) == 737424
  {
    DaysBeforeYearClosed(y);
    assert (y - 1) / 4 == 504 && (y - 1) / 100 == 20 && (y - 1) / 400 == 5;
  }

  /** The day number of New Year 2021. */
  lemma DaysBefore2021(y: int)
    requires y == 2021
    ensures DaysBeforeYear(y) == 737790
  {
    DaysBeforeYearClosed(y);
    assert (y - 1) / 4 == 505 && (y - 1) / 100 == 20 && (y - 1) / 400 == 5;
  }

  /** 2021 began on a Friday; the Monday before was 2020-12-28. */
  lemma NewYear2021(first: LocalDate, monday: LocalDate)
    requires first.year == 2021 && first.month == 1 && first.day == 1
    requires monday.year == 2020 && monday.month == 12 && monday.day == 28
    ensures DayOfWeek(first) == 5 && DayOfWeek(monday) == 1
    ensures DayNumber(monday) == DayNumber(first) - 4
  {
    DaysBefore2021(first.year);
    DaysBefore2020(monday.year);
    assert DayNumber(first) == 737790;
    assert DayNumber(monday) == 737786;
  }

  /** A number r (0 <= r < 7) past whole weeks after a multiple of 7 leaves remainder r. */
  lemma WeekdayOffset(na: int, nb: int, k: int, r: int)
    requires na % 7 == 0 && 0 <= r < 7 && nb == na + 7 * k + r
    ensures nb % 7 == r
  {
    var q := na / 7;
    assert na == 7 * q;
    ModSevenShift(r, q + k);
  }

  /** A date r days (0 <= r < 7) past a whole number of weeks after a Monday has weekday r + 1. */
  lemma DayOfWeekFromMonday(a: LocalDate, b: LocalDate, k: int, r: int)
    requires IsValid(a) && IsValid(b) && DayOfWeek(a) == 1 && 0 <= r < 7
    requires DayNumber(b) == DayNumber(a) + 7 * k + r
    ensures DayOfWeek(b) == r + 1
  {
    WeekdayOffset(DayNumber(a), DayNumber(b), k, r);
  }

  /** The Monday of the week of `d` is the date DayOfWeek(d) - 1 days before it. */
  lemma WeekStartIs(d: LocalDate, monday: LocalDate)
    requires IsValid(d) && IsValid(monday)
    requires DayNumber(monday) == DayNumber(d) + 1 - DayOfWeek(d)
    ensures WeekStart(d) == monday
  {
    DayNumberInjective(WeekStart(d), monday);
  }

  /** Adding the day-number distance between two dates leads from one to the other. */
  lemma AddDaysReaches(d: LocalDate, k: int, e: LocalDate)
    requires IsValid(d) && IsValid(e)
    requires DayNumber(e) == DayNumber(d) + k
    ensures AddDays(d, k) == e
  {
    DayNumberInjective(AddDays(d, k), e);
  }

  /**
   * Where a date within four weeks of month (y, m) lies: in the month
   * before (counting back from its last day), in the month itself, or in
   * the month after (counting on from its 1st).
   */
  lemma MonthNeighbourhood(y: int, m: int, c: LocalDate)
    requires 1 <= m <= 12 && IsValid(c)
    requires DayNumber(FirstOfMonth(y, m)) - 28 <= DayNumber(c) <= DayNumber(LastOfMonth(y, m)) + 28
    ensures var b := MonthBefore(y, m);
      DayNumber(c) < DayNumber(FirstOfMonth(y, m)) ==>
        c == LocalDate(b.year, b.month, DaysInMonth(b.year, b.month) + 1 - (DayNumber(FirstOfMonth(y, m)) - DayNumber(c)))
    ensures DayNumber(FirstOfMonth(y, m)) <= DayNumber(c) <= DayNumber(LastOfMonth(y, m)) ==>
        c == LocalDate(y, m, DayNumber(c) - DayNumber(FirstOfMonth(y, m)) + 1)
    ensures var a := MonthAfter(y, m);
      DayNumber(LastOfMonth(y, m)) < DayNumber(c) ==>
        c == LocalDate(a.year, a.month, DayNumber(c) - DayNumber(LastOfMonth(y, m)))
  {
    var first, last := FirstOfMonth(y, m), LastOfMonth(y, m);
    if DayNumber(c) < DayNumber(first) {
      var b := MonthBefore(y, m);
      assert MonthAfter(b.year, b.month) == YearMonth(y, m);
      MonthBoundary(b.year, b.month);
      var e := LocalDate(b.year, b.month, DaysInMonth(b.year, b.month) + 1 - (DayNumber(first) - DayNumber(c)));
      assert DayNumber(e) == DayNumber(LastOfMonth(b.year, b.month)) - (DayNumber(first) - DayNumber(c) - 1);
      DayNumberInjective(c, e);
    } else if DayNumber(c) <= DayNumber(last) {
      var e := LocalDate(y, m, DayNumber(c) - DayNumber(first) + 1);
      DayNumberInjective(c, e);
    } else {
      var a := MonthAfter(y, m);
      MonthBoundary(y, m);
      var e := LocalDate(a.year, a.month, DayNumber(c) - DayNumber(last));
      assert DayNumber(e) == DayNumber(FirstOfMonth(a.year, a.month)) + DayNumber(c) - DayNumber(last) - 1;
      DayNumberInjective(c, e);
    }
  }
}
