/**
 Civil calendar facts used by the tenure computation: the civil parts a
 wall clock shows, the Gregorian leap-year rule, month lengths, and the
 host's `daysInMonth` trick built on its date constructor.
 */
module Calendar {

  /** The wall-clock fields an observer in the configured time zone reads
      at some instant. The zone lookup that produces them is not modelled;
      the fields are arbitrary integers unless `InRange` is assumed. */
  datatype CivilParts = CivilParts(year: int, month: int, day: int, hour: int, minute: int, second: int)

  /** Month 1..12, day 1..31, hour 0..23, minute and second 0..59. */
  predicate InRange(p: CivilParts) {
    && 1 <= p.month <= 12
    && 1 <= p.day <= 31
    && 0 <= p.hour < 24
    && 0 <= p.minute < 60
    && 0 <= p.second < 60
  }

  /** Gregorian rule: divisible by 4, except centuries, unless divisible by 400. */
  predicate IsLeapYear(year: int) {
    year % 4 == 0 && (year % 100 != 0 || year % 400 == 0)
  }

  /** Length of the 1-based month `month` of the proleptic Gregorian `year`. */
  function MonthLength(year: int, month: int): (n: int)
    requires 1 <= month <= 12
    ensures 28 <= n <= 31
    ensures n == 29 <==> month == 2 && IsLeapYear(year)
  {
    if month == 2 then (if IsLeapYear(year) then 29 else 28)
    else if month == 4 || month == 6 || month == 9 || month == 11 then 30
    else 31
  }

  /** The year the host's date constructor uses: a year argument in 0..99
      stands for 1900 + year. */
  function ConstructorYear(year: int): int {
    if 0 <= year <= 99 then 1900 + year else year
  }

  /** `new Date(year, month, 0).getDate()`: day 0 of zero-based month
      `month` is the last day of the 1-based month `month`; a month outside
      1..12 rolls into a neighbouring year, as the constructor does. */
  function DaysInMonth(year: int, month: int): (n: int)
    ensures 28 <= n <= 31
  {
    if 1 <= month <= 12 then MonthLength(ConstructorYear(year), month)
    else
      var y := ConstructorYear(year) + (month - 1) / 12;
      var m := (month - 1) % 12 + 1;
      MonthLength(y, m)
  }

  lemma LeapYearShift1900(year: int)
    requires 1 <= year <= 99
    ensures IsLeapYear(1900 + year) == IsLeapYear(year)
  {
    assert (1900 + year) % 4 == year % 4;
    assert (1900 + year) % 100 != 0;
    assert year % 100 != 0;
  }

  /** For every year except 0, the host's month length is the Gregorian
      one: the 1900 offset for two-digit years keeps divisibility by 4 and
      never lands on a century. */
  lemma DaysInMonthIsGregorian(year: int, month: int)
    requires 1 <= month <= 12
    requires year != 0
    ensures DaysInMonth(year, month) == MonthLength(year, month)
    ensures 28 <= DaysInMonth(year, month) <= 31
    ensures DaysInMonth(year, month) == 29 <==> month == 2 && IsLeapYear(year)
    ensures DaysInMonth(year, month) == 30 <==> month == 4 || month == 6 || month == 9 || month == 11
  {
    if 1 <= year <= 99 {
      LeapYearShift1900(year);
    }
  }

  /** Year 0 is a Gregorian leap year, but the constructor reads it as 1900,
      which is not. */
  lemma DaysInMonthYearZero()
    ensures IsLeapYear(0)
    ensures DaysInMonth(0, 2) == 28
  {
  }

  /** Months counted from January of year 0. */
  function MonthIndex(year: int, month: int): int {
    12 * year + (month - 1)
  }

  /** The month immediately before `month` of `year`, found by month-index
      arithmetic. */
  function PreviousMonth(year: int, month: int): (r: (int, int))
    ensures 1 <= r.1 <= 12
    ensures MonthIndex(r.0, r.1) == MonthIndex(year, month) - 1
  {
    var i := MonthIndex(year, month) - 1;
    (i / 12, i % 12 + 1)
  }
}
