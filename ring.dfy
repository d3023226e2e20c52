/**
  The ring gauges: each of the three breakdown numbers is normalised to a
  fraction, and `setRing` turns a fraction into the circle's
  stroke-dashoffset, where 100 is an empty ring and 0 a full one.
  Arithmetic is over exact reals.
*/
module RingGauge {
  import opened Calendar
  import opened AgeCalculator

  /** `Math.min` on two numbers. */
  function Min(a: real, b: real): real {
    if a <= b then a else b
  }

  /** `Math.max` on two numbers. */
  function Max(a: real, b: real): real {
    if a >= b then a else b
  }

  /**
    The stroke offset `setRing` writes for `percent`: the percentage is
    clamped into 0..100 and subtracted from 100.
  */
  function StrokeOffset(percent: real): (offset: real)
    ensures 0.0 <= offset <= 100.0
    ensures percent >= 1.0 ==> offset == 0.0
    ensures percent <= 0.0 ==> offset == 100.0
    ensures 0.0 <= percent <= 1.0 ==> offset + 100.0 * percent == 100.0
  {
    var pct := Max(0.0, Min(100.0, percent * 100.0));
    100.0 - pct
  }

  /** A fuller gauge never has a larger offset. */
  lemma StrokeOffsetNonIncreasing(p: real, q: real)
    requires p <= q
    ensures StrokeOffset(q) <= StrokeOffset(p)
  {
  }

  /** Years are shown as a share of 100, capped at a full ring. */
  function YearsFraction(years: int): (f: real)
    ensures f <= 1.0
    ensures years >= 0 ==> f >= 0.0
    ensures years <= 100 ==> f * 100.0 == years as real
    ensures years >= 100 ==> f == 1.0
  {
    Min(1.0, years as real / 100.0)
  }

  /** Months are shown as a share of a year. */
  function MonthsFraction(months: int): (f: real)
    ensures f * 12.0 == months as real
    ensures 0 <= months <= 11 ==> 0.0 <= f < 1.0
  {
    months as real / 12.0
  }

  /** Days are shown as a share of 31 days. */
  function DaysFraction(days: int): (f: real)
    ensures f * 31.0 == days as real
    ensures days <= 30 ==> f < 1.0
    ensures days < 0 <==> f < 0.0
  {
    days as real / 31.0
  }

  /** The three offsets the handler writes. */
  datatype Rings = Rings(yearsOffset: real, monthsOffset: real, daysOffset: real)

  function RingsFor(a: Age): (r: Rings)
    ensures 0.0 <= r.yearsOffset <= 100.0
    ensures 0.0 <= r.monthsOffset <= 100.0
    ensures 0.0 <= r.daysOffset <= 100.0
  {
    Rings(StrokeOffset(YearsFraction(a.years)),
          StrokeOffset(MonthsFraction(a.months)),
          StrokeOffset(DaysFraction(a.days)))
  }

  /**
    For a computed breakdown the months and days fractions stay below 1, so
    the upper clamp never bites there: the months and days rings are never
    full. Only a negative day count is clamped, to an empty ring.
  */
  lemma ComputedRings(dob: Date, now: Date)
    requires ValidDate(dob) && ValidDate(now)
    ensures var a := AgeOf(dob, now);
            var r := RingsFor(a);
            && 0.0 <= MonthsFraction(a.months) < 1.0
            && DaysFraction(a.days) < 1.0
            && r.monthsOffset == 100.0 - 100.0 * MonthsFraction(a.months)
            && r.monthsOffset > 0.0
            && r.daysOffset > 0.0
            && (a.days < 0 ==> r.daysOffset == 100.0)
            && (a.days >= 0 ==> r.daysOffset == 100.0 - 100.0 * DaysFraction(a.days))
  {
    var a := AgeOf(dob, now);
    assert a.months as real <= 11.0;
    assert a.days as real <= 30.0;
  }
}
