# Countdown, tenure and carousel arithmetic

A model of the pure integer logic of a one-page countdown widget. The page
shows three things:

- a countdown to a fixed target instant;
- the tenure since a fixed start instant, as a civil
  years/months/days/hours/minutes/seconds difference in the
  `America/Los_Angeles` time zone;
- a carousel of memories that wraps in both directions.

The model has six modules:

- `Arith`: uniqueness of the Euclidean quotient and remainder, a helper
  used by the others.
- `Calendar`: civil parts, the Gregorian leap-year rule, month lengths,
  and the host's `daysInMonth` trick. That trick is `new Date(year, month, 0).getDate()`,
  with the date constructor's reading of years 0..99 as 1900..1999 and its
  roll-over of months outside 1..12.
- `Countdown`: the clamp of a millisecond difference to whole seconds, and
  its breakdown into days, hours, minutes and seconds.
- `CivilDiff`: the calendar-difference engine `calendarDiff`.
  - It has one function per borrow step, the field-wise subtraction and the
    clamp at zero.
  - It is paired with an independent reference definition, `RawDiff`. That
    definition takes the time-of-day difference modulo a day, corrects the
    day difference by one month length, and splits a month-index difference
    into years and months.
  - A forward addition, `AddDuration`, inverts the reference.
- `Scenarios`: concrete instants in the configured zone, with lemmas
  stating what the engine gives for them.
- `Carousel`: the slide and dot `is-active` marks and the current index,
  with `initCarousel`'s choice of the first slide, `setActive`, `goNext` and
  `goPrev`.

An instant is a `ZonedInstant`: its epoch milliseconds together with the
civil parts the zone lookup gives for it. The engine compares the
milliseconds (script.js:110) and computes on the parts.

Behaviour of the code that the proofs bring out:

- The day clamp makes the tenure non-monotone in the end instant
  (`Scenarios.LaterEndSmallerDuration`). From
  31 January 2024 10:00:
  - 1 March 09:00 gives one month and 23 hours, the raw days -2 having been
    clamped to 0;
  - an hour later, 1 March 10:00 gives exactly one month.
  - `CivilDiff.AddDuration` adds the first result back to the start and
    lands on 3 March 09:00, two days past the end
    (`Scenarios.ClampedResultOvershoots`). Its convention is the host
    `Date`'s: a day past the end of the month rolls into the next month.
    A month addition that clamps the day to the month's length would land
    exactly on 1 March 09:00.
- The guard compares epoch milliseconds, but the borrows use wall-clock
  parts. When clocks fall back, an end forty minutes after the start can
  read earlier on the wall clock. From 01:30 PDT to 01:10 PST on
  5 November 2023 the engine reports 11 months, 30 days, 23 hours and
  40 minutes. The configured start is at midnight, and no transition
  happens at midnight in that zone, so the page never meets this case.
- `daysInMonth` differs from the Gregorian month length only for year 0.
  The constructor reads year 0 as 1900, so February has 28 days where the
  proleptic Gregorian calendar gives 29. `daysInMonth` is modelled with the
  date constructor's own year and month handling, and
  `Calendar.DaysInMonthIsGregorian` shows it equals the Gregorian table for
  every year but 0.

## Model

| member | source | states |
|---|---|---|
| Calendar.DaysInMonth | script.js:212-214 | the host's length of the month before zero-based `month` is 28 to 31 days, for every year and month argument |
| Calendar.DaysInMonthIsGregorian | script.js:212-214 | for every year but 0 and every month 1..12, the host's month length is the Gregorian one: 29 exactly in February of a leap year, 30 exactly in April, June, September and November |
| Calendar.DaysInMonthYearZero | script.js:212-214 | year 0 is a Gregorian leap year, but the constructor reads it as 1900, so its February has 28 days |
| Calendar.MonthLength | script.js:212-214 | the Gregorian reference month length is 28 to 31, and 29 exactly for February of a leap year |
| Calendar.PreviousMonth | script.js:140-144 | stepping a month back gives a month in 1..12 whose month index is one less, so January goes to December of the year before |
| Countdown.TotalSeconds | script.js:68-69 | for a non-negative difference, the whole seconds are the floor of the milliseconds over 1000; the result is 0 exactly when the difference is under one second |
| Countdown.Breakdown | script.js:71-74 | hours below 24, minutes and seconds below 60, and days*86400 + hours*3600 + minutes*60 + seconds equals the total |
| Countdown.BreakdownUnique | script.js:71-74 | any normalized days/hours/minutes/seconds value standing for the total equals the breakdown, so the breakdown is the only one |
| Countdown.CountdownAt | script.js:67-74 | the countdown display is normalized and stands for the remaining time rounded down to a second; it is all zeros exactly when less than a second remains |
| Countdown.ZeroDisplayPrecedesTarget | script.js:68-87 | once the target is reached (`diffMs <= 0`) the display is all zeros, and half a second before the target it already is, though the target is not yet reached |
| CivilDiff.EmptyDuration | script.js:224-226 | the empty duration is what any civil parts minus themselves give |
| CivilDiff.BorrowSecond | script.js:124-127 | seconds + 60*minutes is kept; the minutes drop by at most one; seconds within a minute of the start's end up in [start, start+60); other fields are unchanged |
| CivilDiff.BorrowMinute | script.js:129-132 | minutes + 60*hours is kept; the hours drop by at most one; the window bound holds; other fields are unchanged |
| CivilDiff.BorrowHour | script.js:134-137 | hours + 24*days is kept; the days drop by at most one; the window bound holds; other fields are unchanged |
| CivilDiff.BorrowDay | script.js:139-146 | a day borrow moves to the previous month, wrapping January to December of the year before, and adds that month's host length to the days; without a borrow nothing changes |
| CivilDiff.BorrowMonth | script.js:148-151 | 12*years + months is kept; months within a year of the start's end up in [start, start+12); other fields are unchanged |
| CivilDiff.Clamp | script.js:153-160 | each field of the result is `Math.max(0, x)` of the raw field: at least 0, at least the raw value, and equal to one of them; so a negative field becomes 0 and a non-negative one is kept |
| CivilDiff.CalendarDiff | script.js:109-161 | the all-zero duration when the end precedes the start; every field is non-negative; equal parts give zero; on in-range parts, months < 12, days <= 30, hours < 24, minutes < 60 and seconds < 60 |
| CivilDiff.Tenure | script.js:90-98 | the early return for `now < START` gives the same result as the engine's own guard |
| CivilDiff.TimeBorrowsMatchReference | script.js:124-137 | the three time borrows take one day exactly when the end's time of day is below the start's, and leave the time-of-day difference modulo a day |
| CivilDiff.DateBorrowsMatchReference | script.js:139-151 | the day and month borrows give the reference's years, months and days |
| CivilDiff.CalendarDiffMatchesReference | script.js:117-160 | on in-range parts, the borrow cascade equals the reference difference, clamped |
| CivilDiff.RawDiffNonNegativeWhenOrdered | script.js:153-160 | when the start is not after the end in civil order, only the days can fall below zero, and they cannot when the start's day fits in the month before the end month |
| CivilDiff.AddDurationInvertsRawDiff | script.js:117-160 | adding the reference difference to the start, counting forward, reaches the end exactly, for every in-range start and every real end date |
| CivilDiff.CalendarDiffAddsBack | script.js:109-161 | when civil order matches and no day is clamped, the engine's result is the reference difference, and adding it to the start reproduces the end |
| Scenarios.StartToTarget | script.js:47 | the total from the configured start to the configured target is 6 years, 6 months, 12 days and 17 hours |
| Scenarios.FirstAnniversaryEve | script.js:117-160 | 2019-09-01 00:00:00 to 2020-08-31 23:59:59 gives 0 years, 11 months, 30 days, 23:59:59; only the months borrow |
| Scenarios.BorrowCascade | script.js:117-160 | 2019-09-28 12:30:30 to 2020-03-01 00:00:00 borrows in every unit, the days taking February 2020's 29, and gives 0 years, 5 months, 1 day, 11:29:30 |
| Scenarios.LeapFebruaryReference | script.js:139-146 | from 31 January to 1 March 2024 an hour earlier in the day, the days borrow February's 29 days and still come out at -2 |
| Scenarios.LeapFebruaryBorrowClamps | script.js:139-160 | the engine clamps those -2 days to 0 and reports one month and 23 hours |
| Scenarios.ClampedResultOvershoots | script.js:153-160 | adding the clamped result to 31 January 10:00 lands on 3 March 09:00, two days past the end |
| Scenarios.LeapFebruaryHourLater | script.js:134-160 | an hour later, at 1 March 10:00, the result is exactly one month |
| Scenarios.LaterEndSmallerDuration | script.js:109-161 | a later end instant yields a lexicographically smaller duration for the same start |
| Scenarios.FallBackHour | script.js:110-160 | across the fall-back hour, an end 40 minutes after the start that reads earlier yields 11 months, 30 days, 23 hours and 40 minutes |
| Carousel.FirstMarked | script.js:244-246 | `findIndex` on the marks gives -1 exactly when no slide is marked, and otherwise a marked index with no marked slide before it |
| Carousel.Init | script.js:240-263 | no carousel exactly when there are no slides or no dots container; otherwise the current slide is the first marked one, or slide 0 when none is, and it is now marked; exactly its dot is marked; other slides keep their marks; a single marked slide gives consistent marks |
| Carousel.Wrap | script.js:269 | `(index + n) % n` lies in [0, n) and differs from `index` by a multiple of n; it is `index + n` for negative indexes, `index` inside the range, and `index - n` up to 2n |
| Carousel.SetActive | script.js:265-273 | the new index is the wrapped one; the old current slide and dot lose their mark unless the index is unchanged; the new slide and dot are marked; every other slide and dot keeps its mark; consistent marks stay consistent |
| Carousel.GoNext | script.js:275-277 | moves to the next slide, and from the last slide to slide 0, keeping the marks consistent |
| Carousel.GoPrev | script.js:279-281 | moves to the previous slide, and from slide 0 to the last slide, keeping the marks consistent |
| Carousel.GoPrevUndoesGoNext | script.js:275-281 | `goPrev` after `goNext` returns to the same slide, and with consistent marks to the same state |
| Carousel.GoNextUndoesGoPrev | script.js:275-281 | `goNext` after `goPrev` returns to the same slide, and with consistent marks to the same state |
| Carousel.AdvanceMovesBy | script.js:275-277 | k successive `goNext` calls move the current slide k places on, modulo the number of slides |
| Carousel.FullRoundReturns | script.js:275-277 | as many `goNext` calls as there are slides return to the starting slide |

## Left out

- `getParts`, `getTimeZoneOffsetMinutes` and `makeZonedDate` (script.js:163-210) are not modelled. They call the host's `Intl.DateTimeFormat` and its time-zone database. The engine takes the civil parts as input, and the scenarios give the milliseconds and parts of each instant as a pair. Some engines format midnight as hour `24`; in the model that is just an out-of-range hour. The borrow functions accept any integers, and `InRange` is assumed only where a property needs it.
- DOM lookup and rendering are not modelled: `updateDuration`, the status text and body class, the target-date formatting, and `pad` and `formatNumber`. They have no arithmetic content.
- `tick`, `setInterval` and `new Date()` are not modelled. The current instant is a parameter.
- The carousel's auto-advance timer, its reduced-motion and visibility pauses, and its hover and focus listeners (script.js:293-330) are not modelled. `Carousel.Advance` models only the repeated `goNext` calls the timer makes.
- Milliseconds are integers. The floating-point division in `Math.floor(diffMs / 1000)` is modelled as integer floor division, which gives the same result on integral values. The date range of the host (±8.64e15 ms) is not modelled.
- Carousel.SetActive: requires `index >= -n`, because JavaScript's `%` truncates toward zero and would give a negative index below that. Every call site passes at least `-1`.
- Carousel.Init: the dot buttons are modelled only by their marks. Their labels and click handlers are not modelled.
- CivilDiff.AddDuration: carries the days into the next month at most once. It is the inverse of the reference difference for in-range parts, not a general date addition.
