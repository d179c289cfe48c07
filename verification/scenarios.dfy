/** Worked examples of the elapsed-time calculation and its rendering, each
    stated for every year (and, where the calendar allows, every month) at
    once. Month numbers are 0-based, as in JavaScript. */
module Scenarios {
  import opened Wrappers
  import opened Calendar
  import opened Elapsed
  import opened Display

  /** `t` is midnight at the start of day `day` of its month. */
  predicate MidnightOn(t: Instant, day: int) {
    t.day == day && TimeInDay(t) == 0
  }

  /** One second before the first anniversary of a mid-January start no
      whole year has passed yet, while eleven whole months and thirty days
      have. */
  lemma OneSecondShortOfAYear(start: Instant, now: Instant)
    requires start.month == 0 && MidnightOn(start, 15)
    requires now.year == start.year + 1 && now.month == 0 && now.day == 14
    requires now.hour == 23 && now.minute == 59 && now.second == 59 && now.ms == 0
    ensures Compute(start, now).years == 0
    ensures Compute(start, now).months == 11
    ensures Compute(start, now).days == 30
    ensures Format(Compute(start, now), Full) == "11mo 30d"
  {
    var k := MonthIndex(start);
    var dec := MonthStart(k + 11);
    assert (k + 11) / 12 == start.year && (k + 11) % 12 == 11;
    MonthStartStep(k + 11);
    assert MonthStart(k + 12) == dec + 31;
    assert EpochMs(start) == (MonthStart(k) + 14) * MsPerDay;
    assert EpochMs(now) == (dec + 31 + 13) * MsPerDay + 86399000;
    assert ShiftYears(start, 1) == (dec + 31 + 14) * MsPerDay;
    assert ShiftMonths(start, 12) == (dec + 31 + 14) * MsPerDay;
    assert ShiftMonths(start, 11) == (dec + 14) * MsPerDay;
    ShiftMonthsMonotone(start, 0, 11);
    assert YearsElapsed(start, now) == 0;
    assert MonthsElapsed(start, now) == 11;
  }

  /** On the first anniversary itself the year count turns to one, with no
      days since it. */
  lemma ExactlyOneYear(start: Instant, now: Instant)
    requires MidnightOn(start, 15)
    requires now.year == start.year + 1 && now.month == start.month && MidnightOn(now, 15)
    ensures Compute(start, now).years == 1
    ensures Compute(start, now).yearlyDays == Some(0)
    ensures Format(Compute(start, now), Full) == "1Y 0d"
  {
    var k := MonthIndex(start);
    assert EpochMs(now) == (MonthStart(k + 12) + 14) * MsPerDay;
    assert ShiftYears(start, 1) == EpochMs(now);
    ShiftYearsMonotone(start, 0, 1);
    assert YearsElapsed(start, now) == 1;
    var r := Compute(start, now);
    assert r.years == 1;
    assert EpochMs(now) - ShiftYears(start, r.years) == 0;
    assert IsFloor(r.yearlyDays.value, 0, MsPerDay);
  }

  /** Within the first month the full format shows whole days and the clock. */
  lemma NineteenDays(start: Instant, now: Instant)
    requires MidnightOn(start, 1)
    requires now.year == start.year && now.month == start.month && MidnightOn(now, 20)
    ensures Compute(start, now) == Breakdown(0, 0, 19, Some(19), 0, 0, 0, 19, 456, 27360)
    ensures Format(Compute(start, now), Full) == "19d 00:00:00"
    ensures Format(Compute(start, now), Days) == "19d"
    ensures Format(Compute(start, now), TotalHours) == "456h"
  {
    var m := MonthStart(MonthIndex(start));
    assert EpochMs(start) == m * MsPerDay;
    assert EpochMs(now) == (m + 19) * MsPerDay;
    assert ShiftYears(start, 0) == EpochMs(start);
    assert ShiftMonths(start, 0) == EpochMs(start);
    assert YearsElapsed(start, now) == 0;
    assert MonthsElapsed(start, now) == 0;
    var r := Compute(start, now);
    assert r.years == 0 && r.months == 0;
    assert ClockOf(r, 19 * MsPerDay);
    assert IsFloor(r.yearlyDays.value, 19 * MsPerDay, MsPerDay);
    assert IsFloor(r.days, 19 * MsPerDay, MsPerDay);
    assert r.totalDays == 19 && r.totalHours == 456 && r.totalMinutes == 27360;
    assert r.hours == 0 && r.minutes == 0 && r.seconds == 0;
    assert r == Breakdown(0, 0, 19, Some(19), 0, 0, 0, 19, 456, 27360);
    RenderNineteenDays();
  }

  lemma RenderNineteenDays()
    ensures var b := Breakdown(0, 0, 19, Some(19), 0, 0, 0, 19, 456, 27360);
      && Format(b, Full) == "19d 00:00:00"
      && Format(b, Days) == "19d"
      && Format(b, TotalHours) == "456h"
  {
  }

  /** Past the first monthly anniversary the full format shows months and
      the days since that anniversary, across a year end too. */
  lemma OneMonthNineDays(start: Instant, now: Instant)
    requires MidnightOn(start, 1)
    requires MonthIndex(now) == MonthIndex(start) + 1 && MidnightOn(now, 10)
    ensures Compute(start, now).months == 1
    ensures Compute(start, now).days == 9
    ensures Format(Compute(start, now), Full) == "1mo 9d"
  {
    var k := MonthIndex(start);
    assert EpochMs(now) == (MonthStart(k + 1) + 9) * MsPerDay;
    assert ShiftMonths(start, 1) == MonthStart(k + 1) * MsPerDay;
    assert MonthsElapsed(start, now) == 1;
    if now.year != start.year {
      assert now.year == start.year + 1;
      MonthStartMonotone(k + 1, k + 12);
      assert ShiftYears(start, 1) == MonthStart(k + 12) * MsPerDay;
    }
    assert YearsElapsed(start, now) == 0;
    var r := Compute(start, now);
    assert r.years == 0 && r.months == 1;
    assert IsFloor(r.days, 9 * MsPerDay, MsPerDay);
  }

  /** Past the second yearly anniversary the full format shows years and the
      days since that anniversary, whatever leap days lie between. */
  lemma TwoYearsFourDays(start: Instant, now: Instant)
    requires MidnightOn(start, 1)
    requires now.year == start.year + 2 && now.month == start.month && MidnightOn(now, 5)
    ensures Compute(start, now).years == 2
    ensures Compute(start, now).yearlyDays == Some(4)
    ensures Format(Compute(start, now), Full) == "2Y 4d"
  {
    TwoYearsCounts(start, now);
    var r := Compute(start, now);
    assert EpochMs(now) - ShiftYears(start, r.years) == 4 * MsPerDay;
    assert IsFloor(r.yearlyDays.value, 4 * MsPerDay, MsPerDay);
  }

  /** The calendar side of `TwoYearsFourDays`: the walk-backs land on the
      second anniversary, four days before now. */
  lemma TwoYearsCounts(start: Instant, now: Instant)
    requires MidnightOn(start, 1)
    requires now.year == start.year + 2 && now.month == start.month && MidnightOn(now, 5)
    ensures EpochMs(start) <= EpochMs(now)
    ensures YearsElapsed(start, now) == 2 && MonthsElapsed(start, now) == 24
    ensures EpochMs(now) - ShiftYears(start, 2) == 4 * MsPerDay
  {
    var k := MonthIndex(start);
    assert EpochMs(now) == (MonthStart(k + 24) + 4) * MsPerDay;
    assert ShiftYears(start, 2) == MonthStart(k + 24) * MsPerDay;
    assert YearsElapsed(start, now) == 2;
    assert ShiftMonths(start, 24) == MonthStart(k + 24) * MsPerDay;
    assert MonthsElapsed(start, now) == 24;
    MonthStartMonotone(k, k + 24);
  }

  /** A start in the future renders as zero days at midnight, the `hm` format
      shows whole hours and the minute of the hour, and clock fields are
      padded to two digits. */
  lemma RenderingExamples()
    ensures Format(NotStarted, Full) == "0d 00:00:00"
    ensures Format(NotStarted, Hm) == "0h 0m"
    ensures Format(Breakdown(0, 0, 0, None, 6, 7, 0, 1, 30, 1807), Hm) == "30h 7m"
    ensures Format(Breakdown(0, 0, 0, None, 0, 0, 0, 3, 72, 4320), TotalHours) == "72h"
    ensures Format(Breakdown(0, 0, 0, None, 0, 0, 0, 5, 120, 7200), Days) == "5d"
    ensures Format(Breakdown(0, 0, 0, Some(0), 1, 2, 3, 0, 1, 62), Full) == "0d 01:02:03"
  {
  }

  /** The negative day count of the single monthly walk-back reaches the
      screen: from January 31st to March 1st the full format shows `1mo -2d`. */
  lemma NegativeDaysRendering(start: Instant, now: Instant)
    requires start == DateTime(2023, 0, 31, 0, 0, 0, 0)
    requires now == DateTime(2023, 2, 1, 0, 0, 0, 0)
    ensures Format(Compute(start, now), Full) == "1mo -2d"
    ensures Read("1mo -2d") == Some(MonthsDaysShown(1, -2))
  {
    NegativeDaysWitness(start, now);
    YearlyAnniversary(start, now);
    var r := Compute(start, now);
    if r.years > 0 {
      ShiftYearsAsMonths(start, r.years);
      ShiftMonthsMonotone(start, 1, 12 * r.years);
      assert false;
    }
    assert r.years == 0 && r.months == 1 && r.days == -2;
    ReadFormat(r, Full);
  }
}
