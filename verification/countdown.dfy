/**
 The countdown to the target instant: the millisecond difference is clamped
 to whole non-negative seconds and split into days, hours, minutes and
 seconds.
 */
module Countdown {
  import opened Arith

  /** A flat time span in clock units (no calendar months or years). */
  datatype Clock = Clock(days: int, hours: int, minutes: int, seconds: int)

  /** Hours below 24, minutes and seconds below 60, nothing negative. */
  predicate Normalized(c: Clock) {
    && 0 <= c.days
    && 0 <= c.hours < 24
    && 0 <= c.minutes < 60
    && 0 <= c.seconds < 60
  }

  /** The span a clock value stands for, in seconds. */
  function ClockSeconds(c: Clock): int {
    c.days * 86400 + c.hours * 3600 + c.minutes * 60 + c.seconds
  }

  /** `Math.max(0, Math.floor(diffMs / 1000))` on an integral `diffMs`: the
      whole seconds remaining, never negative. */
  function TotalSeconds(diffMs: int): (t: nat)
    ensures diffMs >= 0 ==> t * 1000 <= diffMs < t * 1000 + 1000
    ensures diffMs < 1000 <==> t == 0
  {
    if diffMs / 1000 < 0 then 0 else diffMs / 1000
  }

  /** Days by division, the rest by remainders of 86400, 3600 and 60. */
  function Breakdown(total: nat): (c: Clock)
    ensures Normalized(c)
    ensures ClockSeconds(c) == total
  {
    var days, r := total / 86400, total % 86400;
    var inHour := r % 3600;
    assert total % 3600 == inHour by {
      DivModUnique(total, 3600, 24 * days + r / 3600, inHour);
    }
    assert total % 60 == inHour % 60 by {
      DivModUnique(total, 60, 1440 * days + 60 * (r / 3600) + inHour / 60, inHour % 60);
    }
    Clock(days, r / 3600, (total % 3600) / 60, total % 60)
  }

  /** A normalized clock value is determined by the seconds it stands for:
      the only one that stands for `total` is `Breakdown(total)`. */
  lemma BreakdownUnique(total: nat, c: Clock)
    requires Normalized(c)
    requires ClockSeconds(c) == total
    ensures c == Breakdown(total)
  {
    var inHour := 60 * c.minutes + c.seconds;
    var within := 3600 * c.hours + inHour;
    DivModUnique(total, 86400, c.days, within);
    DivModUnique(within, 3600, c.hours, inHour);
    DivModUnique(total, 3600, 24 * c.days + c.hours, inHour);
    DivModUnique(inHour, 60, c.minutes, c.seconds);
    DivModUnique(total, 60, 1440 * c.days + 60 * c.hours + c.minutes, c.seconds);
  }

  /** A whole-second total is shown as all zeros exactly when it is 0. */
  lemma BreakdownZero(t: nat)
    ensures Breakdown(t) == Clock(0, 0, 0, 0) <==> t == 0
  {
    if t == 0 {
      BreakdownUnique(0, Clock(0, 0, 0, 0));
    }
  }

  /** What `updateCountdown` shows for the target and the current instant,
      both as epoch milliseconds. */
  function CountdownAt(targetMs: int, nowMs: int): (c: Clock)
    ensures Normalized(c)
    ensures targetMs - nowMs >= 0 ==>
              ClockSeconds(c) * 1000 <= targetMs - nowMs < ClockSeconds(c) * 1000 + 1000
    ensures c == Clock(0, 0, 0, 0) <==> targetMs - nowMs < 1000
  {
    var t := TotalSeconds(targetMs - nowMs);
    BreakdownZero(t);
    Breakdown(t)
  }

  /** `diffMs <= 0` decides whether the target has been reached. */
  predicate TargetReached(targetMs: int, nowMs: int) {
    targetMs - nowMs <= 0
  }

  /** Once the target is reached the display is all zeros; it already
      shows all zeros during the last second before. */
  lemma ZeroDisplayPrecedesTarget(targetMs: int, nowMs: int)
    ensures TargetReached(targetMs, nowMs) ==> CountdownAt(targetMs, nowMs) == Clock(0, 0, 0, 0)
    ensures nowMs == targetMs - 500 ==>
              !TargetReached(targetMs, nowMs) && CountdownAt(targetMs, nowMs) == Clock(0, 0, 0, 0)
  {
  }
}
