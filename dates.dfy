/** Calendar dates of the proleptic Gregorian calendar, the month-end markers
    that resampling to month frequency uses as keys, and the date order. */
module Dates {

  datatype Ymd = Ymd(year: int, month: int, day: int)

  predicate IsLeapYear(y: int) {
    y % 4 == 0 && (y % 100 != 0 || y % 400 == 0)
  }

  function DaysInMonth(y: int, m: int): (n: int)
    requires 1 <= m <= 12
    ensures 28 <= n <= 31
    ensures n == 29 <==> m == 2 && IsLeapYear(y)
  {
    if m == 2 then (if IsLeapYear(y) then 29 else 28)
    else if m == 4 || m == 6 || m == 9 || m == 11 then 30
    else 31
  }

  predicate IsValid(d: Ymd) {
    1 <= d.month <= 12 && 1 <= d.day <= DaysInMonth(d.year, d.month)
  }

  /** A date as a parsed timestamp: always a real calendar day. */
  type Date = d: Ymd | IsValid(d) witness Ymd(1970, 1, 1)

  /** Strict chronological order. */
  predicate Before(a: Date, b: Date) {
    a.year < b.year
    || (a.year == b.year && (a.month < b.month || (a.month == b.month && a.day < b.day)))
  }

  predicate NotAfter(a: Date, b: Date) {
    a == b || Before(a, b)
  }

  /** The calendar month of a date as one integer (months since year 0). */
  function MonthOf(d: Date): int {
    d.year * 12 + d.month - 1
  }

  /** The last day of month number `k` (as counted by MonthOf). */
  function MonthEnd(k: int): (d: Date)
    ensures MonthOf(d) == k
    ensures d.day == DaysInMonth(d.year, d.month)
  {
    var y, m := k / 12, k % 12 + 1;
    Ymd(y, m, DaysInMonth(y, m))
  }

  /** December 31 of year `y`, the key an annual observation is given. */
  function YearEnd(y: int): (d: Date)
    ensures d == MonthEnd(12 * y + 11)
  {
    Ymd(y, 12, 31)
  }

  lemma BeforeIsStrictTotalOrder(a: Date, b: Date, c: Date)
    ensures !Before(a, a)
    ensures Before(a, b) ==> !Before(b, a)
    ensures Before(a, b) && Before(b, c) ==> Before(a, c)
    ensures a == b || Before(a, b) || Before(b, a)
  {
  }

  /** Chronological order never reverses the order of months. */
  lemma MonthOfMonotone(a: Date, b: Date)
    requires NotAfter(a, b)
    ensures MonthOf(a) <= MonthOf(b)
  {
  }

  /** A date in an earlier month is an earlier date. */
  lemma EarlierMonthIsBefore(a: Date, b: Date)
    requires MonthOf(a) < MonthOf(b)
    ensures Before(a, b)
  {
  }

  /** Every date is at or before the end of its own month. */
  lemma AtOrBeforeMonthEnd(d: Date)
    ensures NotAfter(d, MonthEnd(MonthOf(d)))
  {
    var e := MonthEnd(MonthOf(d));
    assert e.year == d.year && e.month == d.month;
  }

  /** Month ends are strictly increasing in their month number. */
  lemma MonthEndStrictlyIncreasing(j: int, k: int)
    requires j < k
    ensures Before(MonthEnd(j), MonthEnd(k))
  {
    EarlierMonthIsBefore(MonthEnd(j), MonthEnd(k));
  }

  /** A date is at or before the end of its own month and of every later one. */
  lemma AtOrBeforeLaterMonthEnd(d: Date, k: int)
    requires MonthOf(d) <= k
    ensures NotAfter(d, MonthEnd(k))
  {
    if k == MonthOf(d) {
      AtOrBeforeMonthEnd(d);
    } else {
      EarlierMonthIsBefore(d, MonthEnd(k));
    }
  }

  /** Month ends are non-decreasing in their month number. */
  lemma MonthEndMonotone(j: int, k: int)
    requires j <= k
    ensures NotAfter(MonthEnd(j), MonthEnd(k))
  {
    if j < k {
      MonthEndStrictlyIncreasing(j, k);
    }
  }
}
