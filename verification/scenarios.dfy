/**
 Concrete instants in America/Los_Angeles, the zone the page is configured
 with, and lemmas stating what the calendar-difference engine gives for
 them. Each instant's epoch milliseconds are those of its civil parts in
 that zone.
 */
module Scenarios {
  import opened Calendar
  import opened CivilDiff
  import Countdown

  /** The configured start, 2019-09-01 00:00:00 (PDT). */
  function Start(): ZonedInstant {
    ZonedInstant(1567321200000, CivilParts(2019, 9, 1, 0, 0, 0))
  }

  /** The configured target, 2026-03-13 17:00:00 (PDT). */
  function Target(): ZonedInstant {
    ZonedInstant(1773446400000, CivilParts(2026, 3, 13, 17, 0, 0))
  }

  /** Strict lexicographic order on equally long sequences: they agree
      up to some position, where the first is smaller. */
  predicate LexLess(a: seq<int>, b: seq<int>)
    requires |a| == |b|
  {
    exists k :: 0 <= k < |a| && a[k] < b[k] && forall j :: 0 <= j < k ==> a[j] == b[j]
  }

  /** A duration's fields, largest unit first. */
  function Fields(d: Duration): seq<int> {
    [d.years, d.months, d.days, d.hours, d.minutes, d.seconds]
  }

  /** The total shown once at load time: start to target. */
  lemma StartToTarget()
    ensures CalendarDiff(Start(), Target()) == Duration(6, 6, 12, 17, 0, 0)
  {
    var s, e := Start().parts, Target().parts;
    assert BorrowHour(s, BorrowMinute(s, BorrowSecond(s, e))) == e;
    assert BorrowDay(s, e) == e;
    assert Borrow(s, e) == CivilParts(2025, 15, 13, 17, 0, 0);
  }

  /** One second before the first anniversary: from a start at midnight on
      the first, no time or day unit can borrow; only the months borrow from
      the year. */
  lemma FirstAnniversaryEve()
    ensures CalendarDiff(Start(), ZonedInstant(1598943599000, CivilParts(2020, 8, 31, 23, 59, 59)))
            == Duration(0, 11, 30, 23, 59, 59)
  {
    var s, e := Start().parts, CivilParts(2020, 8, 31, 23, 59, 59);
    assert BorrowHour(s, BorrowMinute(s, BorrowSecond(s, e))) == e;
    assert BorrowDay(s, e) == e;
    assert Borrow(s, e) == CivilParts(2019, 20, 31, 23, 59, 59);
  }

  /** The time borrows from 2020-03-01 00:00:00 against 12:30:30 on the
      28th reach back into day 0, and the day borrow takes February 2020's
      29 days. */
  lemma CascadeBorrowSteps()
    ensures var s := CivilParts(2019, 9, 28, 12, 30, 30);
            var e := CivilParts(2020, 3, 1, 0, 0, 0);
            var c3 := BorrowHour(s, BorrowMinute(s, BorrowSecond(s, e)));
              && c3 == CivilParts(2020, 3, 0, 23, 59, 60)
              && BorrowDay(s, c3) == CivilParts(2020, 2, 29, 23, 59, 60)
  {
    assert DaysInMonth(2020, 2) == 29;
  }

  /** From 2019-09-28 12:30:30 (PDT) to 2020-03-01 00:00:00 (PST) every unit
      borrows: seconds from minutes, minutes from hours, hours from days,
      days from months (February 2020's 29 days), and months from the year. */
  lemma BorrowCascade()
    ensures CalendarDiff(ZonedInstant(1569699030000, CivilParts(2019, 9, 28, 12, 30, 30)),
                         ZonedInstant(1583049600000, CivilParts(2020, 3, 1, 0, 0, 0)))
            == Duration(0, 5, 1, 11, 29, 30)
  {
    var s, e := CivilParts(2019, 9, 28, 12, 30, 30), CivilParts(2020, 3, 1, 0, 0, 0);
    assert Borrow(s, e) == CivilParts(2019, 14, 29, 23, 59, 60) by {
      CascadeBorrowSteps();
    }
  }

  /** 31 January 2024 10:00 (PST). */
  function JanuaryLast(): ZonedInstant {
    ZonedInstant(1706724000000, CivilParts(2024, 1, 31, 10, 0, 0))
  }

  /** 1 March 2024 09:00 (PST). */
  function MarchFirstNine(): ZonedInstant {
    ZonedInstant(1709312400000, CivilParts(2024, 3, 1, 9, 0, 0))
  }

  /** 1 March 2024 10:00 (PST), an hour later. */
  function MarchFirstTen(): ZonedInstant {
    ZonedInstant(1709316000000, CivilParts(2024, 3, 1, 10, 0, 0))
  }

  /** From 31 January 10:00 to 1 March 09:00 the reference difference is
      one month, 23 hours and -2 days: February's 29 days still fall two
      days short of the start's day 31. */
  lemma LeapFebruaryReference()
    ensures DaysInMonth(2024, 2) == 29
    ensures RawDiff(JanuaryLast().parts, MarchFirstNine().parts) == Duration(0, 1, -2, 23, 0, 0)
  {
    var s, e := JanuaryLast().parts, MarchFirstNine().parts;
    assert DaysInMonth(2024, 2) == 29;
    assert TimeOfDay(s) == 36000 && TimeOfDay(e) == 32400;
    assert TimeDiff(s, e) == Countdown.Clock(0, 23, 0, 0) by {
      assert (32400 - 36000) % 86400 == 82800;
      assert Countdown.Breakdown(82800) == Countdown.Clock(0, 23, 0, 0);
    }
    assert DayShort(s, e) == 1 && MonthShort(s, e);
    assert PreviousMonth(2024, 3) == (2024, 2);
    assert MonthsBetween(s, e) == 1;
    assert DaysBetween(s, e) == -2;
  }

  /** The time borrows from 1 March 09:00 against a 10:00 start reach back
      into day 0, and the day borrow takes February's 29 days. */
  lemma LeapFebruaryBorrowSteps()
    ensures var s, e := JanuaryLast().parts, MarchFirstNine().parts;
            var c3 := BorrowHour(s, BorrowMinute(s, BorrowSecond(s, e)));
              && c3 == CivilParts(2024, 3, 0, 33, 0, 0)
              && BorrowDay(s, c3) == CivilParts(2024, 2, 29, 33, 0, 0)
  {
    assert DaysInMonth(2024, 2) == 29;
  }

  /** The whole borrow cascade from 1 March 09:00 against 31 January 10:00
      ends on 29 February with 33 hours. */
  lemma LeapFebruaryBorrowed()
    ensures Borrow(JanuaryLast().parts, MarchFirstNine().parts) == CivilParts(2024, 2, 29, 33, 0, 0)
  {
    LeapFebruaryBorrowSteps();
  }

  /** The borrow cascade takes February's 29 days, and the clamp turns the
      -2 days into 0. */
  lemma LeapFebruaryBorrowClamps()
    ensures CalendarDiff(JanuaryLast(), MarchFirstNine()) == Duration(0, 1, 0, 23, 0, 0)
  {
    LeapFebruaryBorrowed();
  }

  /** Adding that clamped result back to 31 January 10:00 lands on 3 March
      09:00, two days past the end. */
  lemma ClampedResultOvershoots()
    ensures AddDuration(JanuaryLast().parts, Duration(0, 1, 0, 23, 0, 0)) == CivilParts(2024, 3, 3, 9, 0, 0)
  {
    var s := JanuaryLast().parts;
    assert EndTime(s, Duration(0, 1, 0, 23, 0, 0)) == 118800;
    assert 118800 / 86400 == 1 && 118800 % 86400 == 32400;
    assert Countdown.Breakdown(32400) == Countdown.Clock(0, 9, 0, 0);
    assert DaysInMonth(2024, 2) == 29;
    assert 24289 / 12 == 2024 && 24289 % 12 + 1 == 2;
    assert 24290 / 12 == 2024 && 24290 % 12 + 1 == 3;
    assert CarryDay(24289, 32) == (2024, 3, 3);
  }

  /** An hour later, at 1 March 10:00, no time unit borrows and the days
      clamp from -1 to 0. */
  lemma LeapFebruaryHourLater()
    ensures CalendarDiff(JanuaryLast(), MarchFirstTen()) == Duration(0, 1, 0, 0, 0, 0)
  {
    var s, e := JanuaryLast().parts, MarchFirstTen().parts;
    assert BorrowHour(s, BorrowMinute(s, BorrowSecond(s, e))) == e;
    assert DaysInMonth(2024, 2) == 29;
    assert BorrowDay(s, e) == CivilParts(2024, 2, 30, 10, 0, 0);
    assert Borrow(s, e) == CivilParts(2024, 2, 30, 10, 0, 0);
  }

  /** The clamp makes the result non-monotone in the end instant: an hour
      later, the same start yields a lexicographically smaller duration. */
  lemma LaterEndSmallerDuration()
    ensures MarchFirstNine().epochMs < MarchFirstTen().epochMs
    ensures LexLess(Fields(CalendarDiff(JanuaryLast(), MarchFirstTen())),
                    Fields(CalendarDiff(JanuaryLast(), MarchFirstNine())))
  {
    assert MarchFirstNine().epochMs < MarchFirstTen().epochMs;
    LeapFebruaryBorrowClamps();
    LeapFebruaryHourLater();
    FewerHoursIsSmallerDiff(JanuaryLast(), MarchFirstTen(), MarchFirstNine());
  }

  /** Differences from one start that agree down to the days are ordered
      by their hours. */
  lemma FewerHoursIsSmallerDiff(start: ZonedInstant, end1: ZonedInstant, end2: ZonedInstant)
    requires var x, y := CalendarDiff(start, end1), CalendarDiff(start, end2);
             x.years == y.years && x.months == y.months && x.days == y.days && x.hours < y.hours
    ensures LexLess(Fields(CalendarDiff(start, end1)), Fields(CalendarDiff(start, end2)))
  {
    FewerHoursIsSmaller(CalendarDiff(start, end1), CalendarDiff(start, end2));
  }

  /** Durations that agree down to the days are ordered by their hours. */
  lemma FewerHoursIsSmaller(x: Duration, y: Duration)
    requires x.years == y.years && x.months == y.months && x.days == y.days
    requires x.hours < y.hours
    ensures LexLess(Fields(x), Fields(y))
  {
    var a, b := Fields(x), Fields(y);
    assert a[3] < b[3] && forall j :: 0 <= j < 3 ==> a[j] == b[j];
  }

  /** When clocks fall back on 5 November 2023, 01:10 PST comes forty
      minutes after 01:30 PDT but reads earlier. The epoch guard lets the
      pair through and the borrows run past a whole year: the result is
      eleven months and thirty days. */
  lemma FallBackHour()
    ensures var s := ZonedInstant(1699173000000, CivilParts(2023, 11, 5, 1, 30, 0));
            var e := ZonedInstant(1699175400000, CivilParts(2023, 11, 5, 1, 10, 0));
              && e.epochMs - s.epochMs == 40 * 60000
              && !CivilNotAfter(s.parts, e.parts)
              && CalendarDiff(s, e) == Duration(0, 11, 30, 23, 40, 0)
  {
    var s := CivilParts(2023, 11, 5, 1, 30, 0);
    var e := CivilParts(2023, 11, 5, 1, 10, 0);
    assert TimeOfDay(s) == 5400 && TimeOfDay(e) == 4200;
    var c3 := CivilParts(2023, 11, 4, 24, 70, 0);
    assert BorrowHour(s, BorrowMinute(s, BorrowSecond(s, e))) == c3;
    assert DaysInMonth(2023, 10) == 31;
    assert BorrowDay(s, c3) == CivilParts(2023, 10, 35, 24, 70, 0);
    assert Borrow(s, e) == CivilParts(2022, 22, 35, 24, 70, 0);
  }
}
