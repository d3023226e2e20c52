/**
  The form submit handler of the age calculator: validate the entered birth
  date against the current date, then break the interval down into years,
  months and days by naive component subtraction with a day borrow and a
  month borrow.

  `SubmitAge` follows the handler step by step. `AgeOf` is an independent
  reference definition (the whole months elapsed, split into years and a
  remainder by Euclidean division); the handler is proved to compute it,
  and the properties of the breakdown are proved about `AgeOf`.
*/
module AgeCalculator {
  import opened Calendar

  /** The three numbers the result panel shows. */
  datatype Age = Age(years: int, months: int, days: int)

  /** The two reasons the handler refuses to compute. */
  datatype AgeError = InvalidInput | FutureDate

  /** What the date field holds on submit: nothing, or a calendar date. */
  datatype DateField = Empty | Entered(date: Date)

  datatype Outcome = Computed(age: Age) | Rejected(error: AgeError)

  /** The day difference is negative, so one month is borrowed. */
  predicate DayBorrow(dob: Date, now: Date) {
    now.day < dob.day
  }

  /** The length of the month borrowed from: the month before `now`'s month. */
  function BorrowedMonthLength(now: Date): int
    requires ValidDate(now)
  {
    LastDayOfPreviousMonth(now.year, MonthIndex(now))
  }

  /** Whole months from `dob` to `now`, one fewer when the day borrow fires. */
  function TotalMonths(dob: Date, now: Date): int
    requires ValidDate(dob) && ValidDate(now)
  {
    (now.year - dob.year) * 12 + (MonthIndex(now) - MonthIndex(dob))
    - (if DayBorrow(dob, now) then 1 else 0)
  }

  /** Reference definition of the breakdown the handler computes. */
  function AgeOf(dob: Date, now: Date): (a: Age)
    requires ValidDate(dob) && ValidDate(now)
    ensures 0 <= a.months <= 11
    ensures a.years * 12 + a.months == TotalMonths(dob, now)
    ensures !DayBorrow(dob, now) ==> a.days == now.day - dob.day && 0 <= a.days <= 30
    ensures DayBorrow(dob, now) ==>
              a.days == now.day - dob.day + BorrowedMonthLength(now) && a.days < BorrowedMonthLength(now)
    ensures -2 <= a.days <= 30
  {
    var total := TotalMonths(dob, now);
    var days := now.day - dob.day;
    Age(total / 12, total % 12, if DayBorrow(dob, now) then days + BorrowedMonthLength(now) else days)
  }

  /**
    The submit handler. An empty field is rejected first, a birth date after
    today next; only then is anything subtracted.
  */
  method SubmitAge(field: DateField, now: Date) returns (r: Outcome)
    requires ValidDate(now)
    requires field.Entered? ==> ValidDate(field.date)
    ensures field.Empty? ==> r == Rejected(InvalidInput)
    ensures field.Entered? && After(field.date, now) ==> r == Rejected(FutureDate)
    ensures field.Entered? && !After(field.date, now) ==> r == Computed(AgeOf(field.date, now))
  {
    if field.Empty? {
      return Rejected(InvalidInput);
    }
    var dob := field.date;
    if After(dob, now) {
      return Rejected(FutureDate);
    }

    var years := now.year - dob.year;
    var months := MonthIndex(now) - MonthIndex(dob);
    var days := now.day - dob.day;

    if days < 0 {
      months := months - 1;
      var prevMonthLastDay := LastDayOfPreviousMonth(now.year, MonthIndex(now));
      days := days + prevMonthLastDay;
    }
    assert -12 <= months <= 11;
    assert years * 12 + months == TotalMonths(dob, now);
    if months < 0 {
      years := years - 1;
      months := months + 12;
    }
    SplitTotalMonths(TotalMonths(dob, now), years, months);
    r := Computed(Age(years, months, days));
  }

  /** A month count written as whole years plus 0..11 months is its Euclidean split. */
  lemma SplitTotalMonths(total: int, years: int, months: int)
    requires 0 <= months <= 11
    requires years * 12 + months == total
    ensures total / 12 == years && total % 12 == months
  {
  }

  /** A birth date on or before today never yields a negative year count. */
  lemma YearsNonNegative(dob: Date, now: Date)
    requires ValidDate(dob) && ValidDate(now)
    requires !After(dob, now)
    ensures AgeOf(dob, now).years >= 0
  {
    var total := TotalMonths(dob, now);
    if now.year == dob.year {
      assert now.month >= dob.month;
      assert now.month == dob.month ==> !DayBorrow(dob, now);
      assert total >= 0;
    } else {
      assert now.year >= dob.year + 1;
      assert total >= 0;
    }
  }

  /** The year borrow never changes the total month count; only the day borrow removes one. */
  lemma MonthTotal(dob: Date, now: Date)
    requires ValidDate(dob) && ValidDate(now)
    ensures var a := AgeOf(dob, now);
            a.years * 12 + a.months
            == (now.year - dob.year) * 12 + (now.month - dob.month) - (if now.day < dob.day then 1 else 0)
  {
  }

  /**
    The day count is negative exactly when the birth day exceeds today's day
    plus the borrowed month's length. That can only happen on March 1 or 2,
    borrowing from February, with a birth day of 30 or 31: exactly on March 1
    with a birth day of 30 or 31 when February has 28 days, March 2 with a
    birth day of 31 when it has 28, and March 1 with a birth day of 31 when it
    has 29.
  */
  lemma NegativeDays(dob: Date, now: Date)
    requires ValidDate(dob) && ValidDate(now)
    ensures AgeOf(dob, now).days < 0 <==> dob.day > now.day + BorrowedMonthLength(now)
    ensures AgeOf(dob, now).days < 0 ==> now.month == 3 && now.day <= 2 && dob.day >= 30
    ensures AgeOf(dob, now).days < 0
            <==> now.month == 3
                 && ((BorrowedMonthLength(now) == 28
                      && ((now.day == 1 && dob.day >= 30) || (now.day == 2 && dob.day == 31)))
                     || (BorrowedMonthLength(now) == 29 && now.day == 1 && dob.day == 31))
  {
  }

  /** Birth date and today the same: a zero breakdown. */
  lemma SameDay(d: Date)
    requires ValidDate(d)
    ensures AgeOf(d, d) == Age(0, 0, 0)
  {
  }

  /** Submitting tomorrow's date is rejected as a future date. */
  method SubmitTomorrow(now: Date) returns (r: Outcome)
    requires ValidDate(now)
    ensures r == Rejected(FutureDate)
  {
    r := SubmitAge(Entered(NextDay(now)), now);
  }

  /**
    Adding a breakdown back to a birth date: advance by the whole months,
    then by the days, carrying a day past the end of the month into the
    next month.
  */
  function AddAge(dob: Date, a: Age): Date
    requires ValidDate(dob)
  {
    var ym := AddMonths(MonthOf(dob), a.years * 12 + a.months);
    var day := dob.day + a.days;
    var length := DaysInMonth(ym.year, ym.month);
    if day > length then
      var next := NextMonth(ym);
      Date(next.year, next.month, day - length)
    else
      Date(ym.year, ym.month, day)
  }

  /**
    Round trip: adding the computed breakdown to the birth date gives back
    today's date. The one exception is March of year 0, where the borrowed
    February is one day short (see `YearZeroRoundTripFails`).
  */
  lemma RoundTrip(dob: Date, now: Date)
    requires ValidDate(dob) && ValidDate(now)
    requires !(now.year == 0 && now.month == 3)
    ensures AddAge(dob, AgeOf(dob, now)) == now
  {
    var a := AgeOf(dob, now);
    var ym := AddMonths(MonthOf(dob), a.years * 12 + a.months);
    if DayBorrow(dob, now) {
      var p := PreviousMonth(MonthOf(now));
      MonthOrderInjective(ym, p);
      LastDayIsPreviousMonthLength(now);
      MonthOrderInjective(NextMonth(p), MonthOf(now));
    } else {
      MonthOrderInjective(ym, MonthOf(now));
    }
  }

  /** Adding a zero breakdown gives back the birth date. */
  lemma AddNothing(dob: Date)
    requires ValidDate(dob)
    ensures AddAge(dob, Age(0, 0, 0)) == dob
  {
    MonthOrderInjective(AddMonths(MonthOf(dob), 0), MonthOf(dob));
  }

  /** In March of year 0 the round trip misses by one day. */
  lemma YearZeroRoundTripFails()
    ensures AgeOf(Date(0, 2, 29), Date(0, 3, 1)) == Age(0, 0, 0)
    ensures AddAge(Date(0, 2, 29), Age(0, 0, 0)) != Date(0, 3, 1)
  {
    var dob, now := Date(0, 2, 29), Date(0, 3, 1);
    assert BorrowedMonthLength(now) == 28;
    assert TotalMonths(dob, now) == 0;
    AddNothing(dob);
  }

  /** January 31 to March 1 of a common year: one month and minus two days. */
  lemma EndOfJanuaryToMarch()
    ensures AgeOf(Date(2023, 1, 31), Date(2023, 3, 1)) == Age(0, 1, -2)
  {
  }

  /** 2000-03-15 to 2024-01-10: both borrows fire, December gives 31 days. */
  lemma BothBorrows()
    ensures AgeOf(Date(2000, 3, 15), Date(2024, 1, 10)) == Age(23, 9, 26)
  {
  }
}
