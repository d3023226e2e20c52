# Age calculator — verified model

This project models the computational core of a browser age calculator
widget (one script, `script.js`). Its form submit handler reads a birth date,
rejects an empty field or a birth date after today, and breaks the interval
from the birth date to today into years, months and days. It subtracts the
components naively, then does two borrows. A negative day difference borrows
one month and adds the length of the month before today's month. A negative
month difference then borrows one year and adds 12. The three numbers then
drive two displays:

* ring gauges: each number is normalised to a fraction (years / 100 capped
  at 1, months / 12, days / 31), and `setRing` turns the fraction into a
  stroke offset `100 - clamp(100 * fraction, 0, 100)`;
* animated counters: each animation frame shows
  `floor(start + (end - start) * easeOutCubic(progress))`, with
  `progress = min(elapsed / duration, 1)`. The frame where progress reaches 1
  shows `end` exactly and requests no further frame.

Modules:

* `Calendar` (`calendar.dfy`): dates as `(year, month, day)` with 1-based
  months, the Gregorian leap-year rule and validity. `MonthIndex` is the
  explicit mapping to the 0-based index of `getMonth`. It also models
  `new Date(year, monthIndex, 0).getDate()` as `LastDayOfPreviousMonth`. That
  function includes the ECMAScript rule that this constructor reads a year
  in 0..99 as 1900 + year.
* `AgeCalculator` (`age.dfy`): the submit handler `SubmitAge`. It is written
  step by step, with local variables updated in the two borrow branches, as
  the source does. It is proved to compute `AgeOf`, an independent reference
  definition: the whole months elapsed (one fewer when the day borrow fires),
  split into years and months by Euclidean division, plus the day count. The
  properties of the breakdown are lemmas about `AgeOf`. They include the
  round trip: adding the breakdown back to the birth date gives today.
* `RingGauge` (`ring.dfy`): `setRing`'s offset and the three normalisations,
  over exact reals.
* `Counter` (`counter.dfy`): the ease-out curve, progress, the per-frame
  value and termination rule, and the frame chain driven by a given sequence
  of elapsed times.

Inputs that come from the host are parameters. Today's date is `now`. The
field's content is a `DateField`, either `Empty` or an already decoded date.
Each frame's elapsed time (frame timestamp minus start time) is an element of
`elapsedTimes`.

Some facts about the code a reader might not expect:

* The day count is not always non-negative. Take January 31 to March 1 of a
  common year: the code gives 1 month and −2 days (`EndOfJanuaryToMarch`).
  `AgeOf` states the real bounds: −2..30, and below the borrowed month's
  length when a borrow fires. `NegativeDays` says the count is negative
  exactly when the birth day exceeds today's day plus the borrowed month's
  length. This can only happen on March 1 or 2 with a birth day of 30 or 31,
  and the lemma lists the exact cases.
* For a computed breakdown the months and days fractions never reach 1, so
  `setRing`'s upper clamp never applies to them (`ComputedRings`): months is
  at most 11 and days at most 30. The only clamp that ever applies is a
  negative day count's, which shows an empty ring.
* `animateCount`'s default duration is 800 ms. The handler passes 900 ms.
* A frame's timestamp can come before the start time taken when the
  animation begins, and then its progress is negative. `RenderFrame` models
  that case as the code computes it: counting from 0 to 10 over 900 ms, a
  frame 90 ms early shows −4 (`EarlyFrameUndershoots`). The range and
  monotonicity lemmas (`FrameWithinRange`, `FrameWithinRangeCountingDown`,
  `FramesNonDecreasing`) cover non-negative elapsed times only.
* In March of year 0 the constructor reads the year as 1900. That year is
  not a leap year, so the borrowed February has 28 days, although year 0 is a
  leap year. The round trip fails there (`YearZeroRoundTripFails`), and
  `RoundTrip` excludes that one month. Today's date comes from the host
  clock, so this case is not reachable in practice.

## Model

| member | source | states |
|---|---|---|
| `Calendar.DaysInMonth` | script.js:168 | a month's length is 28..31 days |
| `Calendar.MonthIndex` | script.js:162 | `getMonth`'s 0-based index is in 0..11 and is the 1-based month minus one |
| `Calendar.After` | script.js:155 | `dob > now` as calendar order: for valid dates, later exactly when its day slot (a number growing with calendar order, as a time value does) is larger; never true of equal dates |
| `Calendar.ConstructorYear` | script.js:168 | the constructor reads a year 0..99 as the year in the 1900s with the same last two digits, and leaves every other year as it is |
| `Calendar.LastDayOfPreviousMonth` | script.js:167-168 | day 0 of a month lies between 28 and 31 |
| `Calendar.AddMonths` | script.js:161-174 | moving k months lands on a valid month whose position in month order is k further on |
| `Calendar.NextDay` | script.js:155-158 | the day after a valid date is valid and strictly later in calendar order |
| `Calendar.JanuaryBorrowsFromDecember` | script.js:168 | for January the borrowed month wraps to December of the year before: 31 days |
| `Calendar.MarchBorrowsFromFebruary` | script.js:168 | the borrowed February has 29 days exactly in a Gregorian leap year of the constructor's year, otherwise 28; for years outside 0..99 that is the year itself |
| `Calendar.TwoDigitYearKeepsLeap` | script.js:168 | reading a year 1..99 as 1900 + year does not change whether it is a leap year |
| `Calendar.LastDayIsPreviousMonthLength` | script.js:167-168 | day 0 of today's month is the real length of the calendar month before it, except in March of year 0 |
| `Calendar.YearZeroFebruaryIsShort` | script.js:168 | in March of year 0 the constructed February has 28 days, although February of year 0 has 29 |
| `AgeCalculator.AgeOf` | script.js:161-174 | months in 0..11; years·12 + months is the whole-month count, less one when the day borrow fires; with no borrow, days is the day difference and lies in 0..30; with a borrow, days is below the borrowed month's length; days always in −2..30 |
| `AgeCalculator.SubmitAge` | script.js:146-174 | an empty field is rejected with `InvalidInput`; a birth date after today is rejected with `FutureDate`; otherwise the stepwise subtraction and borrows give exactly the reference breakdown `AgeOf` |
| `AgeCalculator.SplitTotalMonths` | script.js:171-174 | whole years plus 0..11 months is the Euclidean split of a month count, so the year borrow agrees with division by 12 |
| `AgeCalculator.YearsNonNegative` | script.js:155-174 | a birth date on or before today gives years ≥ 0 |
| `AgeCalculator.MonthTotal` | script.js:161-174 | years·12 + months = (now.y − dob.y)·12 + (now.m − dob.m) − (1 if the day borrow fired), so the year borrow never changes the total |
| `AgeCalculator.NegativeDays` | script.js:163-170 | days < 0 exactly when the birth day exceeds today's day plus the borrowed length; equivalently, exactly when today is in March and either February has 28 days and (March 1 with a birth day of 30 or 31, or March 2 with 31), or February has 29 days, today is March 1 and the birth day is 31 |
| `AgeCalculator.SameDay` | script.js:161-174 | birth date equal to today gives (0, 0, 0) |
| `AgeCalculator.SubmitTomorrow` | script.js:153-158 | submitting the day after today is rejected with `FutureDate` |
| `AgeCalculator.RoundTrip` | script.js:161-174 | adding the computed years and months to the birth date, then the days with a carry past the month end, gives today (outside March of year 0) |
| `AgeCalculator.AddNothing` | script.js:161-174 | adding a zero breakdown to a birth date gives back that date |
| `AgeCalculator.YearZeroRoundTripFails` | script.js:168 | from 0000-02-29 to 0000-03-01 the breakdown is (0, 0, 0), and adding it back misses today |
| `AgeCalculator.EndOfJanuaryToMarch` | script.js:161-174 | from 2023-01-31 to 2023-03-01 the breakdown is (0, 1, −2) |
| `AgeCalculator.BothBorrows` | script.js:161-174 | from 2000-03-15 to 2024-01-10 the breakdown is (23, 9, 26) |
| `RingGauge.StrokeOffset` | script.js:38-43 | the offset lies in [0, 100]; it is 0 for percent ≥ 1 and 100 for percent ≤ 0; in between it is linear: offset + 100·percent = 100 |
| `RingGauge.StrokeOffsetNonIncreasing` | script.js:40-42 | a larger percent never gives a larger offset |
| `RingGauge.YearsFraction` | script.js:183 | the years fraction never exceeds 1; it is years/100 up to 100 years, exactly 1 from 100 on, and non-negative for a non-negative count |
| `RingGauge.MonthsFraction` | script.js:184 | the months fraction times 12 is the month count; for 0..11 months it lies in [0, 1) |
| `RingGauge.DaysFraction` | script.js:185 | the days fraction times 31 is the day count; it is below 1 for at most 30 days, and negative exactly for a negative count |
| `RingGauge.RingsFor` | script.js:183-188 | all three offsets the handler writes lie in [0, 100] |
| `RingGauge.ComputedRings` | script.js:184-188 | for a computed breakdown the months and days fractions are below 1, so those rings are never full; a negative day count gives an empty days ring |
| `Counter.EaseOutCubic` | script.js:35 | easeOutCubic(0) = 0 and easeOutCubic(1) = 1; its range and monotonicity on [0, 1] are `EaseInUnitInterval` and `EaseNonDecreasing` |
| `Counter.Interpolate` | script.js:28 | the eased value is `start` at progress 0 and `end` at progress 1 |
| `Counter.RenderFrame` | script.js:26-31 | a frame requests another exactly while elapsed < duration; the frame that reaches the duration shows `end` exactly; earlier frames show the floor of the eased value at progress elapsed/duration |
| `Counter.EarlyFrameUndershoots` | script.js:25-28 | a frame 90 ms before the start time, counting 0 to 10 over 900 ms, shows −4 and requests another frame |
| `Counter.Progress` | script.js:27 | progress ≤ 1; it equals 1 exactly once elapsed ≥ duration; it is elapsed/duration before that and non-negative for non-negative elapsed time |
| `Counter.ProgressNonDecreasing` | script.js:27 | progress never decreases as time goes on |
| `Counter.CubeMonotone` | script.js:35 | cubing is monotone on non-negative reals |
| `Counter.EaseInUnitInterval` | script.js:35 | on [0, 1] the curve stays in [0, 1] |
| `Counter.EaseNonDecreasing` | script.js:35 | on [0, 1] the curve is non-decreasing |
| `Counter.FrameWithinRange` | script.js:28-31 | counting up, every frame at a non-negative elapsed time shows a number between `start` and `end` |
| `Counter.FrameWithinRangeCountingDown` | script.js:28-31 | counting down (`end` < `start`, as for a negative day count), every frame shows a number between `end` and `start` |
| `Counter.InterpolateNonDecreasing` | script.js:28 | counting up, the eased value grows with the progress |
| `Counter.FramesNonDecreasing` | script.js:26-31 | counting up, a later frame never shows a smaller number than an earlier one |
| `Counter.RunCounter` | script.js:24-33 | the frame chain renders each frame by the frame rule; every frame but the last requested a successor; the chain finishes exactly when a frame's elapsed time reaches the duration, and the finishing frame shows `end` |

## Left out

- DOM lookups, the `max` attribute set from `toISOString`, `alert`, and the
  writes to `textContent`, styles and the result sentence (script.js:3-21,
  150, 156, 176-203). These are display plumbing. The handler's result is a
  returned `Outcome`, and the ring offsets are returned `Rings` values.
- Parsing the field's string with `new Date` and reading it back with local
  getters (script.js:153-154, 161-163). `new Date(dobStr)` parses as UTC
  midnight while the getters read local time, so a time zone can shift the
  date by one day. The model takes both dates as decoded calendar triples.
  It models `dob > now` as strictly later in calendar order. A string that
  parses to an invalid date (NaN) is not modelled; a date input field yields
  either an empty string or a valid date.
- `Date` range limits (about ±275 000 years) are not modelled. Years are
  unbounded integers.
- Frame scheduling with `requestAnimationFrame`, and overlapping animations
  from repeated submits (script.js:30, 33). These are host timing and
  concurrency concerns. `RunCounter` takes the frames' elapsed times as a
  given sequence.
- The confetti emitter (script.js:56-96). It depends on randomness,
  trigonometry and canvas drawing, and is purely decorative.
- The ripple effect and its injected stylesheet (script.js:112-143), and the
  icon bounce timers (script.js:46-53, 191-193). These are DOM geometry,
  styling and timers.
- The asynchronous clipboard copy (script.js:99-109). It is a foreign API
  with a success/failure continuation.
- Counter.Progress: requires a positive duration. Every call passes 900 ms,
  or the 800 ms default.
- Floating point. `setRing`, the normalisations and `easeOutCubic` are over
  exact `real`s, so IEEE-754 rounding and NaN inputs are not modelled.
