/**
  Gregorian calendar facts used by the age computation, and the one
  JavaScript `Date` construction it performs: the last day of the month
  before a given month.

  Months are 1-based here (1 = January). The JavaScript getters report
  0-based month indices; `MonthIndex` is the explicit mapping, and
  `LastDayOfPreviousMonth` takes a 0-based index as the source passes it.
*/
module Calendar {

  /** A calendar date as the `Date` getters decode it (local time). */
  datatype Date = Date(year: int, month: int, day: int)

  /** A month of a particular year. */
  datatype YearMonth = YearMonth(year: int, month: int)

  /** The proleptic Gregorian leap-year rule. */
  predicate IsLeapYear(y: int) {
    y % 4 == 0 && (y % 100 != 0 || y % 400 == 0)
  }

  function DaysInMonth(y: int, m: int): (n: int)
    requires 1 <= m <= 12
    ensures 28 <= n <= 31
  {
    if m == 2 then (if IsLeapYear(y) then 29 else 28)
    else if m == 4 || m == 6 || m == 9 || m == 11 then 30
    else 31
  }

  predicate ValidDate(d: Date) {
    1 <= d.month <= 12 && 1 <= d.day <= DaysInMonth(d.year, d.month)
  }

  function MonthOf(d: Date): YearMonth {
    YearMonth(d.year, d.month)
  }

  /**
    A number that grows with calendar order, as a date's time value does:
    31 slots per month, 12 months per year.
  */
  function DaySlot(d: Date): int {
    d.year * 372 + (d.month - 1) * 31 + (d.day - 1)
  }

  /**
    `a` is strictly later than `b` in calendar order. For valid dates that is
    comparing their slots, the way `dob > now` compares two time values.
  */
  predicate After(a: Date, b: Date)
    ensures After(a, b) ==> a != b
    ensures ValidDate(a) && ValidDate(b) ==> (After(a, b) <==> DaySlot(a) > DaySlot(b))
  {
    a.year > b.year
    || (a.year == b.year && (a.month > b.month || (a.month == b.month && a.day > b.day)))
  }

  /** The 0-based month index that `Date.prototype.getMonth` reports. */
  function MonthIndex(d: Date): (i: int)
    requires ValidDate(d)
    ensures 0 <= i <= 11
    ensures i + 1 == d.month
  {
    d.month - 1
  }

  /**
    The year the `Date(year, monthIndex, day)` constructor actually uses:
    ECMAScript reads a year in 0..99 as 1900 + year.
  */
  function ConstructorYear(y: int): (fy: int)
    ensures 0 <= y <= 99 ==> 1900 <= fy <= 1999 && fy % 100 == y
    ensures !(0 <= y <= 99) ==> fy == y
  {
    if 0 <= y <= 99 then 1900 + y else y
  }

  /**
    `new Date(year, monthIndex, 0).getDate()`. Day 0 of a month is the last
    day of the month before it, so this is the length of the month before
    month index `monthIndex`; index 0 (January) wraps to December of the
    year before.
  */
  function LastDayOfPreviousMonth(year: int, monthIndex: int): (n: int)
    requires 0 <= monthIndex <= 11
    ensures 28 <= n <= 31
  {
    var fy := ConstructorYear(year);
    if monthIndex == 0 then DaysInMonth(fy - 1, 12) else DaysInMonth(fy, monthIndex)
  }

  /** The month before `ym`. */
  function PreviousMonth(ym: YearMonth): (p: YearMonth)
    requires 1 <= ym.month <= 12
    ensures 1 <= p.month <= 12
    ensures p.year * 12 + p.month + 1 == ym.year * 12 + ym.month
  {
    if ym.month == 1 then YearMonth(ym.year - 1, 12) else YearMonth(ym.year, ym.month - 1)
  }

  /** The month after `ym`. */
  function NextMonth(ym: YearMonth): (n: YearMonth)
    requires 1 <= ym.month <= 12
    ensures 1 <= n.month <= 12
    ensures n.year * 12 + n.month == ym.year * 12 + ym.month + 1
  {
    if ym.month == 12 then YearMonth(ym.year + 1, 1) else YearMonth(ym.year, ym.month + 1)
  }

  /** The month `k` months after (or, for negative `k`, before) `ym`. */
  function AddMonths(ym: YearMonth, k: int): (r: YearMonth)
    requires 1 <= ym.month <= 12
    ensures 1 <= r.month <= 12
    ensures r.year * 12 + r.month == ym.year * 12 + ym.month + k
  {
    var index := ym.year * 12 + (ym.month - 1) + k;
    YearMonth(index / 12, index % 12 + 1)
  }

  /** The calendar day after `d`. */
  function NextDay(d: Date): (n: Date)
    requires ValidDate(d)
    ensures ValidDate(n) && After(n, d)
  {
    if d.day < DaysInMonth(d.year, d.month) then Date(d.year, d.month, d.day + 1)
    else var nm := NextMonth(MonthOf(d)); Date(nm.year, nm.month, 1)
  }

  /** Two months with the same position in the year-month order are the same month. */
  lemma MonthOrderInjective(a: YearMonth, b: YearMonth)
    requires 1 <= a.month <= 12 && 1 <= b.month <= 12
    requires a.year * 12 + a.month == b.year * 12 + b.month
    ensures a == b
  {
  }

  /** Day 0 of January is December 31 of the year before. */
  lemma JanuaryBorrowsFromDecember(year: int)
    ensures LastDayOfPreviousMonth(year, 0) == 31
  {
  }

  /**
    Day 0 of March is February 29 exactly when the year the constructor
    uses is a Gregorian leap year, and February 28 otherwise.
  */
  lemma MarchBorrowsFromFebruary(year: int)
    ensures LastDayOfPreviousMonth(year, 2) == 29 <==> IsLeapYear(ConstructorYear(year))
    ensures LastDayOfPreviousMonth(year, 2) == 28 <==> !IsLeapYear(ConstructorYear(year))
    ensures !(0 <= year <= 99) ==> (LastDayOfPreviousMonth(year, 2) == 29 <==> IsLeapYear(year))
  {
  }

  /** Reading a year 1..99 as 1900 + year does not change whether it is a leap year. */
  lemma TwoDigitYearKeepsLeap(y: int)
    requires 1 <= y <= 99
    ensures IsLeapYear(1900 + y) <==> IsLeapYear(y)
  {
    assert (1900 + y) % 4 == y % 4;
    assert (1900 + y) % 100 == y;
  }

  /**
    The constructed day 0 is the real length of the calendar month before
    `now`'s month, except in March of year 0, where the constructor reads
    the year as 1900 (not a leap year) although year 0 is one.
  */
  lemma LastDayIsPreviousMonthLength(d: Date)
    requires ValidDate(d)
    requires !(d.year == 0 && d.month == 3)
    ensures var p := PreviousMonth(MonthOf(d));
            LastDayOfPreviousMonth(d.year, MonthIndex(d)) == DaysInMonth(p.year, p.month)
  {
    if d.month == 3 && 1 <= d.year <= 99 {
      TwoDigitYearKeepsLeap(d.year);
    }
  }

  /** The exception: in March of year 0 the constructed February is one day short. */
  lemma YearZeroFebruaryIsShort()
    ensures LastDayOfPreviousMonth(0, 2) == 28
    ensures DaysInMonth(0, 2) == 29
  {
  }
}
