/**
 The calendar-difference engine behind the tenure display: the civil
 parts of the end instant are borrowed from unit by unit (seconds into
 minutes, minutes into hours, hours into days, days into months, months
 into years), the start parts are subtracted field by field, and each field
 is clamped at zero.
 */
module CivilDiff {
  import opened Calendar
  import Countdown
  import opened Arith

  /** Elapsed time in calendar units. */
  datatype Duration = Duration(years: int, months: int, days: int, hours: int, minutes: int, seconds: int)

  /** An instant as the engine sees it: its epoch milliseconds and the civil
      parts read from it in the configured time zone. */
  datatype ZonedInstant = ZonedInstant(epochMs: int, parts: CivilParts)

  /** `emptyDuration()`: what any parts minus themselves give. */
  function EmptyDuration(): (d: Duration)
    ensures forall p: CivilParts :: Subtract(p, p) == d
  {
    Duration(0, 0, 0, 0, 0, 0)
  }

  predicate NonNegative(d: Duration) {
    && d.years >= 0
    && d.months >= 0
    && d.days >= 0
    && d.hours >= 0
    && d.minutes >= 0
    && d.seconds >= 0
  }

  /** Seconds since midnight. */
  function TimeOfDay(p: CivilParts): int {
    3600 * p.hour + 60 * p.minute + p.second
  }

  // The borrow steps. Each takes the start parts and the carry fields
  // (initially the end parts) and returns the carry fields after the step.

  /** Seconds borrow from minutes when they fall short of the start's. */
  function BorrowSecond(start: CivilParts, c: CivilParts): (r: CivilParts)
    ensures r.second + 60 * r.minute == c.second + 60 * c.minute
    ensures r.minute == c.minute || r.minute == c.minute - 1
    ensures start.second - 60 <= c.second < start.second + 60 ==>
              start.second <= r.second < start.second + 60
    ensures r.(second := c.second, minute := c.minute) == c
  {
    if c.second < start.second then c.(second := c.second + 60, minute := c.minute - 1) else c
  }

  /** Minutes borrow from hours when they fall short of the start's. */
  function BorrowMinute(start: CivilParts, c: CivilParts): (r: CivilParts)
    ensures r.minute + 60 * r.hour == c.minute + 60 * c.hour
    ensures r.hour == c.hour || r.hour == c.hour - 1
    ensures start.minute - 60 <= c.minute < start.minute + 60 ==>
              start.minute <= r.minute < start.minute + 60
    ensures r.(minute := c.minute, hour := c.hour) == c
  {
    if c.minute < start.minute then c.(minute := c.minute + 60, hour := c.hour - 1) else c
  }

  /** Hours borrow from days when they fall short of the start's. */
  function BorrowHour(start: CivilParts, c: CivilParts): (r: CivilParts)
    ensures r.hour + 24 * r.day == c.hour + 24 * c.day
    ensures r.day == c.day || r.day == c.day - 1
    ensures start.hour - 24 <= c.hour < start.hour + 24 ==>
              start.hour <= r.hour < start.hour + 24
    ensures r.(hour := c.hour, day := c.day) == c
  {
    if c.hour < start.hour then c.(hour := c.hour + 24, day := c.day - 1) else c
  }

  /** Days borrow from months when they fall short of the start's: the
      month steps back (January wraps to December of the year before) and
      the days gain the length of that month. */
  function BorrowDay(start: CivilParts, c: CivilParts): (r: CivilParts)
    ensures c.day < start.day ==> r.day == c.day + DaysInMonth(r.year, r.month)
    ensures c.day < start.day && 1 <= c.month <= 12 ==>
              (r.year, r.month) == PreviousMonth(c.year, c.month)
    ensures !(c.day < start.day) ==> r == c
    ensures 1 <= c.month <= 12 ==> 1 <= r.month <= 12
    ensures r.(year := c.year, month := c.month, day := c.day) == c
  {
    if c.day < start.day then
      var month := c.month - 1;
      var year := if month < 1 then c.year - 1 else c.year;
      var month' := if month < 1 then 12 else month;
      c.(year := year, month := month', day := c.day + DaysInMonth(year, month'))
    else
      c
  }

  /** Months borrow from years when they fall short of the start's. */
  function BorrowMonth(start: CivilParts, c: CivilParts): (r: CivilParts)
    ensures 12 * r.year + r.month == 12 * c.year + c.month
    ensures start.month - 12 <= c.month < start.month + 12 ==>
              start.month <= r.month < start.month + 12
    ensures r.(year := c.year, month := c.month) == c
  {
    if c.month < start.month then c.(month := c.month + 12, year := c.year - 1) else c
  }

  /** The five borrows, in the order the engine applies them. */
  function Borrow(start: CivilParts, end: CivilParts): CivilParts {
    BorrowMonth(start, BorrowDay(start, BorrowHour(start, BorrowMinute(start, BorrowSecond(start, end)))))
  }

  function Subtract(c: CivilParts, start: CivilParts): Duration {
    Duration(c.year - start.year, c.month - start.month, c.day - start.day,
             c.hour - start.hour, c.minute - start.minute, c.second - start.second)
  }

  function Max0(x: int): int {
    if x < 0 then 0 else x
  }

  /** `r` is `Math.max(0, x)`: the least value that is at least 0 and at
      least `x`. */
  predicate IsMax0(r: int, x: int) {
    r >= 0 && r >= x && (r == 0 || r == x)
  }

  /** Every field clamped at zero. */
  function Clamp(d: Duration): (r: Duration)
    ensures NonNegative(r)
    ensures NonNegative(d) ==> r == d
    ensures IsMax0(r.years, d.years) && IsMax0(r.months, d.months) && IsMax0(r.days, d.days)
    ensures IsMax0(r.hours, d.hours) && IsMax0(r.minutes, d.minutes) && IsMax0(r.seconds, d.seconds)
  {
    Duration(Max0(d.years), Max0(d.months), Max0(d.days), Max0(d.hours), Max0(d.minutes), Max0(d.seconds))
  }

  /** `calendarDiff(start, end)`: zero when the end instant precedes the
      start instant, otherwise the clamped field-wise difference of the
      borrowed end parts and the start parts. */
  function CalendarDiff(start: ZonedInstant, end: ZonedInstant): (d: Duration)
    ensures end.epochMs < start.epochMs ==> d == EmptyDuration()
    ensures NonNegative(d)
    ensures start.parts == end.parts ==> d == EmptyDuration()
    ensures InRange(start.parts) && InRange(end.parts) ==>
              d.months < 12 && d.days <= 30 && d.hours < 24 && d.minutes < 60 && d.seconds < 60
  {
    if end.epochMs < start.epochMs then
      EmptyDuration()
    else
      Clamp(Subtract(Borrow(start.parts, end.parts), start.parts))
  }

  /** `updateTenure`: the display shows the zero duration before the start
      instant and the calendar difference afterwards. */
  function Tenure(start: ZonedInstant, now: ZonedInstant): (d: Duration)
    ensures d == CalendarDiff(start, now)
  {
    if now.epochMs < start.epochMs then EmptyDuration() else CalendarDiff(start, now)
  }

  // A reference definition of the borrowed difference, stated without the
  // borrow cascade.

  /** One when the end's time of day is below the start's, else zero. */
  function DayShort(start: CivilParts, end: CivilParts): int {
    if TimeOfDay(end) < TimeOfDay(start) then 1 else 0
  }

  /** The time-of-day difference modulo a day, in hours, minutes and
      seconds. */
  function TimeDiff(start: CivilParts, end: CivilParts): (c: Countdown.Clock)
    ensures Countdown.Normalized(c)
  {
    Countdown.Breakdown((TimeOfDay(end) - TimeOfDay(start)) % 86400)
  }

  /** The end's day, after the time-of-day shortfall, is below the start's. */
  predicate MonthShort(start: CivilParts, end: CivilParts) {
    end.day - DayShort(start, end) < start.day
  }

  /** The month-index difference, one short when the days fall short. */
  function MonthsBetween(start: CivilParts, end: CivilParts): int {
    MonthIndex(end.year, end.month) - MonthIndex(start.year, start.month)
    - (if MonthShort(start, end) then 1 else 0)
  }

  /** The day difference after the time-of-day shortfall, plus the length
      of the month before the end month when the days fall short. */
  function DaysBetween(start: CivilParts, end: CivilParts): int {
    var prev := PreviousMonth(end.year, end.month);
    end.day - DayShort(start, end) - start.day
    + (if MonthShort(start, end) then DaysInMonth(prev.0, prev.1) else 0)
  }

  /** The difference as a person counts it, stated without the borrow
      cascade: time of day modulo a day, the day difference corrected by a
      month length, the month difference split into years and months.
      Fields are not clamped. */
  function RawDiff(start: CivilParts, end: CivilParts): Duration {
    var clock := TimeDiff(start, end);
    var months := MonthsBetween(start, end);
    Duration(months / 12, months % 12, DaysBetween(start, end), clock.hours, clock.minutes, clock.seconds)
  }

  /** On in-range parts the time-of-day difference is below a day, and it
      takes the start's time of day to the end's, a day later when the
      end's is below the start's. */
  lemma TimeDiffSeconds(start: CivilParts, end: CivilParts)
    requires InRange(start) && InRange(end)
    ensures TimeDiff(start, end).days == 0
    ensures TimeOfDay(start) + Countdown.ClockSeconds(TimeDiff(start, end))
            == TimeOfDay(end) + 86400 * DayShort(start, end)
  {
    var span := TimeOfDay(end) - TimeOfDay(start);
    var short := DayShort(start, end);
    DivModUnique(span, 86400, -short, span + 86400 * short);
  }

  /** The three time borrows take one day exactly when the end's time of
      day is below the start's, and leave the time-of-day difference modulo
      a day in hours, minutes and seconds. */
  lemma TimeBorrowsMatchReference(s: CivilParts, e: CivilParts)
    requires InRange(s) && InRange(e)
    ensures var c3 := BorrowHour(s, BorrowMinute(s, BorrowSecond(s, e)));
              && c3.year == e.year && c3.month == e.month
              && c3.day == e.day - DayShort(s, e)
              && TimeDiff(s, e) == Countdown.Clock(0, c3.hour - s.hour, c3.minute - s.minute, c3.second - s.second)
  {
    var c3 := BorrowHour(s, BorrowMinute(s, BorrowSecond(s, e)));
    var clock := Countdown.Clock(0, c3.hour - s.hour, c3.minute - s.minute, c3.second - s.second);
    var within := Countdown.ClockSeconds(clock);
    assert within + 86400 * c3.day == TimeOfDay(e) - TimeOfDay(s) + 86400 * e.day;
    TimeDiffSeconds(s, e);
    assert c3.day == e.day - DayShort(s, e);
    Countdown.BreakdownUnique(within, clock);
    Countdown.BreakdownUnique(within, TimeDiff(s, e));
  }

  /** The day and month borrows, from the carry fields left by the time
      borrows, produce the reference's days, months and years. */
  lemma DateBorrowsMatchReference(s: CivilParts, e: CivilParts, c3: CivilParts)
    requires InRange(s) && InRange(e)
    requires c3.year == e.year && c3.month == e.month && c3.day == e.day - DayShort(s, e)
    ensures var c5 := BorrowMonth(s, BorrowDay(s, c3));
              && c5.year - s.year == MonthsBetween(s, e) / 12
              && c5.month - s.month == MonthsBetween(s, e) % 12
              && c5.day - s.day == DaysBetween(s, e)
  {
    var c4 := BorrowDay(s, c3);
    var c5 := BorrowMonth(s, c4);
    if MonthShort(s, e) {
      assert (c4.year, c4.month) == PreviousMonth(e.year, e.month);
    }
    assert 12 * c5.year + c5.month - 12 * s.year - s.month == MonthsBetween(s, e);
    DivModUnique(MonthsBetween(s, e), 12, c5.year - s.year, c5.month - s.month);
  }

  /** On in-range parts, the borrow cascade computes the reference
      difference, clamped. */
  lemma CalendarDiffMatchesReference(start: ZonedInstant, end: ZonedInstant)
    requires InRange(start.parts) && InRange(end.parts)
    requires !(end.epochMs < start.epochMs)
    ensures CalendarDiff(start, end) == Clamp(RawDiff(start.parts, end.parts))
  {
    var s, e := start.parts, end.parts;
    var c3 := BorrowHour(s, BorrowMinute(s, BorrowSecond(s, e)));
    TimeBorrowsMatchReference(s, e);
    DateBorrowsMatchReference(s, e, c3);
    assert Subtract(Borrow(s, e), s) == RawDiff(s, e);
  }

  /** Civil order on in-range parts: an earlier month, or the same month and
      an earlier day, or the same day and no later time of day. */
  predicate CivilNotAfter(a: CivilParts, b: CivilParts) {
    || MonthIndex(a.year, a.month) < MonthIndex(b.year, b.month)
    || (MonthIndex(a.year, a.month) == MonthIndex(b.year, b.month)
        && (a.day < b.day || (a.day == b.day && TimeOfDay(a) <= TimeOfDay(b))))
  }

  /** When the start is not after the end in civil order, no field of the
      reference difference but the days can be negative, and the days
      cannot either when the start's day fits in the month before the end
      month. */
  lemma RawDiffNonNegativeWhenOrdered(start: CivilParts, end: CivilParts)
    requires InRange(start) && InRange(end)
    requires CivilNotAfter(start, end)
    ensures var d := RawDiff(start, end);
              d.years >= 0 && d.months >= 0 && d.hours >= 0 && d.minutes >= 0 && d.seconds >= 0
    ensures var prev := PreviousMonth(end.year, end.month);
              start.day <= DaysInMonth(prev.0, prev.1) ==> NonNegative(RawDiff(start, end))
  {
    assert MonthsBetween(start, end) >= 0;
  }

  /** The date `day` days into the month with index `month`, as year,
      month and day, carried once into the next month when `day` passes
      the month's length. */
  function CarryDay(month: int, day: int): (int, int, int) {
    var length := DaysInMonth(month / 12, month % 12 + 1);
    var m := if day > length then month + 1 else month;
    (m / 12, m % 12 + 1, if day > length then day - length else day)
  }

  /** The start's time of day advanced by a duration's time fields, in
      seconds from the start's midnight. */
  function EndTime(start: CivilParts, d: Duration): int {
    TimeOfDay(start) + 3600 * d.hours + 60 * d.minutes + d.seconds
  }

  /** Adds a duration to civil parts, counting forward: hours, minutes and
      seconds carry into days; years and months move the month; a day past
      the end of that month carries into the next month. */
  function AddDuration(start: CivilParts, d: Duration): CivilParts {
    var tod := EndTime(start, d);
    var date := CarryDay(MonthIndex(start.year, start.month) + 12 * d.years + d.months,
                         start.day + d.days + tod / 86400);
    var clock := Countdown.Breakdown(tod % 86400);
    CivilParts(date.0, date.1, date.2, clock.hours, clock.minutes, clock.seconds)
  }

  /** The end is a real calendar date: its day exists in its month. */
  predicate ValidDate(p: CivilParts) {
    InRange(p) && p.day <= DaysInMonth(p.year, p.month)
  }

  /** A month index splits back into its year and 1-based month. */
  lemma MonthIndexSplits(year: int, month: int)
    requires 1 <= month <= 12
    ensures MonthIndex(year, month) / 12 == year
    ensures MonthIndex(year, month) % 12 + 1 == month
  {
    DivModUnique(MonthIndex(year, month), 12, year, month - 1);
  }

  /** A day within its month is not carried. */
  lemma CarryDayWithin(year: int, month: int, day: int, index: int)
    requires 1 <= month <= 12
    requires day <= DaysInMonth(year, month)
    requires index == MonthIndex(year, month)
    ensures CarryDay(index, day) == (year, month, day)
  {
    MonthIndexSplits(year, month);
  }

  /** A positive day counted from the month before, plus that month's
      length, is carried into the month. */
  lemma CarryDayPast(year: int, month: int, day: int, index: int, total: int)
    requires 1 <= month <= 12
    requires day >= 1
    requires index == MonthIndex(year, month) - 1
    requires var prev := PreviousMonth(year, month);
             total == day + DaysInMonth(prev.0, prev.1)
    ensures CarryDay(index, total) == (year, month, day)
  {
    MonthIndexSplits(year, month);
  }

  /** A count of seconds that is the time of day of in-range parts, `days`
      whole days later, splits back into those days and that time. */
  lemma TimeOfDayLater(p: CivilParts, days: int, tod: int)
    requires InRange(p)
    requires tod == TimeOfDay(p) + 86400 * days
    ensures tod / 86400 == days
    ensures Countdown.Breakdown(tod % 86400) == Countdown.Clock(0, p.hour, p.minute, p.second)
  {
    DivModUnique(tod, 86400, days, TimeOfDay(p));
    Countdown.BreakdownUnique(TimeOfDay(p), Countdown.Clock(0, p.hour, p.minute, p.second));
  }

  /** The time fields of the reference difference, added to the start's
      time of day, reach the end's time of day, one day later when the
      end's is below the start's. */
  lemma AddTimeInvertsRawDiff(start: CivilParts, end: CivilParts)
    requires InRange(start) && InRange(end)
    ensures EndTime(start, RawDiff(start, end)) == TimeOfDay(end) + 86400 * DayShort(start, end)
  {
    TimeDiffSeconds(start, end);
  }

  /** The date fields of the reference difference, added to the start's
      month index and day, give the end's month index and day, or the
      month before with the end's day plus that month's length. */
  lemma RawDiffDateFields(start: CivilParts, end: CivilParts)
    ensures var d := RawDiff(start, end);
            var prev := PreviousMonth(end.year, end.month);
              && MonthIndex(start.year, start.month) + 12 * d.years + d.months
                 == MonthIndex(end.year, end.month) - (if MonthShort(start, end) then 1 else 0)
              && start.day + d.days + DayShort(start, end)
                 == end.day + (if MonthShort(start, end) then DaysInMonth(prev.0, prev.1) else 0)
  {
  }

  /** A duration whose time fields reach the end's time of day, `days`
      days later, and whose date fields carry to the end's date, takes the
      start to the end. */
  lemma AddDurationCarries(start: CivilParts, d: Duration, end: CivilParts, days: int)
    requires InRange(end)
    requires EndTime(start, d) == TimeOfDay(end) + 86400 * days
    requires CarryDay(MonthIndex(start.year, start.month) + 12 * d.years + d.months,
                      start.day + d.days + days) == (end.year, end.month, end.day)
    ensures AddDuration(start, d) == end
  {
    TimeOfDayLater(end, days, EndTime(start, d));
  }

  /** A duration whose time fields reach the end's time of day, `days`
      days later, and whose date fields reach the end's month index and
      day (or the month before, with the day past its length) takes the
      start to the end. */
  lemma AddDurationReaches(start: CivilParts, d: Duration, end: CivilParts, days: int, monthShort: bool)
    requires ValidDate(end)
    requires EndTime(start, d) == TimeOfDay(end) + 86400 * days
    requires var prev := PreviousMonth(end.year, end.month);
               && MonthIndex(start.year, start.month) + 12 * d.years + d.months
                  == MonthIndex(end.year, end.month) - (if monthShort then 1 else 0)
               && start.day + d.days + days
                  == end.day + (if monthShort then DaysInMonth(prev.0, prev.1) else 0)
    ensures AddDuration(start, d) == end
  {
    var index := MonthIndex(start.year, start.month) + 12 * d.years + d.months;
    if monthShort {
      CarryDayPast(end.year, end.month, end.day, index, start.day + d.days + days);
    } else {
      CarryDayWithin(end.year, end.month, end.day, index);
    }
    AddDurationCarries(start, d, end, days);
  }

  /** Adding the reference difference back to the start gives the end. */
  lemma AddDurationInvertsRawDiff(start: CivilParts, end: CivilParts)
    requires InRange(start) && ValidDate(end)
    ensures AddDuration(start, RawDiff(start, end)) == end
  {
    AddTimeInvertsRawDiff(start, end);
    RawDiffDateFields(start, end);
    AddDurationReaches(start, RawDiff(start, end), end, DayShort(start, end), MonthShort(start, end));
  }

  /** With civil order matching and no day clamp, re-adding the computed
      difference to the start reproduces the end. */
  lemma CalendarDiffAddsBack(start: ZonedInstant, end: ZonedInstant)
    requires InRange(start.parts) && ValidDate(end.parts)
    requires !(end.epochMs < start.epochMs)
    requires CivilNotAfter(start.parts, end.parts)
    requires var prev := PreviousMonth(end.parts.year, end.parts.month);
               start.parts.day <= DaysInMonth(prev.0, prev.1)
    ensures CalendarDiff(start, end) == RawDiff(start.parts, end.parts)
    ensures AddDuration(start.parts, CalendarDiff(start, end)) == end.parts
  {
    CalendarDiffMatchesReference(start, end);
    RawDiffNonNegativeWhenOrdered(start.parts, end.parts);
    AddDurationInvertsRawDiff(start.parts, end.parts);
  }
}
