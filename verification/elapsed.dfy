/** The elapsed-time calculation of `calculateTimeElapsed`: totals, the yearly
    and monthly anniversary walk-backs and the clock remainders. The current
    instant is a parameter instead of a clock read. */
module Elapsed {
  import opened Wrappers
  import opened Calendar

  /** The calculation's result object. `yearlyDays` is the
      `daysSinceYearlyAnniversary` property, which the not-started result
      lacks (`None`). `days` is an `int`: it can be negative (see
      `NegativeDaysWitness`). */
  datatype Breakdown = Breakdown(
    years: int,
    months: int,
    days: int,
    yearlyDays: Option<int>,
    hours: int,
    minutes: int,
    seconds: int,
    totalDays: int,
    totalHours: int,
    totalMinutes: int)

  /** The result for a start instant that lies in the future. */
  const NotStarted: Breakdown := Breakdown(0, 0, 0, None, 0, 0, 0, 0, 0, 0)

  /** `q` is the floor of `x / unit`, the value `Math.floor(x / unit)` gives. */
  ghost predicate IsFloor(q: int, x: int, unit: int) {
    q * unit <= x < (q + 1) * unit
  }

  /** The totals and the clock fields of `b` are the whole days, hours, minutes
      and the remainder seconds of a non-negative duration of `diff` ms. */
  ghost predicate ClockOf(b: Breakdown, diff: int) {
    && IsFloor(b.totalDays, diff, MsPerDay)
    && IsFloor(b.totalHours, diff, MsPerHour)
    && IsFloor(b.totalMinutes, diff, MsPerMinute)
    && b.totalHours == 24 * b.totalDays + b.hours && 0 <= b.hours < 24
    && b.totalMinutes == 60 * b.totalHours + b.minutes && 0 <= b.minutes < 60
    && 0 <= b.seconds < 60
    && b.totalMinutes * MsPerMinute + b.seconds * MsPerSecond <= diff
    && diff < b.totalMinutes * MsPerMinute + (b.seconds + 1) * MsPerSecond
  }

  /** Whole years: the year difference, walked back once when this year's
      anniversary of `start` has not yet come. */
  function YearsElapsed(start: Instant, now: Instant): int {
    var years := now.year - start.year;
    if ShiftYears(start, years) > EpochMs(now) then years - 1 else years
  }

  /** Whole months: the month difference, walked back once when this month's
      anniversary of `start` has not yet come. */
  function MonthsElapsed(start: Instant, now: Instant): int {
    var months := (now.year - start.year) * 12 + (now.month - start.month);
    if ShiftMonths(start, months) > EpochMs(now) then months - 1 else months
  }

  /** `calculateTimeElapsed(start)` evaluated at the instant `now`. */
  function Compute(start: Instant, now: Instant): (r: Breakdown)
    ensures EpochMs(now) < EpochMs(start) ==> r == NotStarted
    ensures EpochMs(start) <= EpochMs(now) ==> ClockOf(r, EpochMs(now) - EpochMs(start))
    ensures EpochMs(start) <= EpochMs(now) ==>
      && r.yearlyDays.Some?
      && IsFloor(r.yearlyDays.value, EpochMs(now) - ShiftYears(start, r.years), MsPerDay)
      && IsFloor(r.days, EpochMs(now) - ShiftMonths(start, r.months), MsPerDay)
  {
    var nowMs := EpochMs(now);
    var startMs := EpochMs(start);
    if nowMs < startMs then NotStarted
    else
      var diff := nowMs - startMs;
      var years := YearsElapsed(start, now);
      var months := MonthsElapsed(start, now);
      ClockRemainders(diff);
      Breakdown(
        years := years,
        months := months,
        days := (nowMs - ShiftMonths(start, months)) / MsPerDay,
        yearlyDays := Some((nowMs - ShiftYears(start, years)) / MsPerDay),
        hours := (diff / MsPerHour) % 24,
        minutes := (diff / MsPerMinute) % 60,
        seconds := (diff / MsPerSecond) % 60,
        totalDays := diff / MsPerDay,
        totalHours := diff / MsPerHour,
        totalMinutes := diff / MsPerMinute)
  }

  /** Nested floor divisions: whole hours split into whole days and the hour of
      the day, whole minutes into whole hours and the minute of the hour. */
  lemma ClockRemainders(diff: int)
    requires diff >= 0
    ensures diff / MsPerHour == 24 * (diff / MsPerDay) + (diff / MsPerHour) % 24
    ensures diff / MsPerMinute == 60 * (diff / MsPerHour) + (diff / MsPerMinute) % 60
    ensures (diff / MsPerSecond) % 60 * MsPerSecond + diff / MsPerMinute * MsPerMinute <= diff
    ensures diff < diff / MsPerMinute * MsPerMinute + ((diff / MsPerSecond) % 60 + 1) * MsPerSecond
  {
    var s := diff / MsPerSecond;
    var m := diff / MsPerMinute;
    var h := diff / MsPerHour;
    assert m == s / 60;
    assert h == m / 60;
    assert diff / MsPerDay == h / 24;
  }

  /** The yearly walk-back finds the last yearly anniversary: `years` is the
      largest number of years by which `start` can be advanced (with
      February 29th rolling to March 1st) without passing `now`, and the
      yearly day count is never negative. */
  lemma YearlyAnniversary(start: Instant, now: Instant)
    requires EpochMs(start) <= EpochMs(now)
    ensures var r := Compute(start, now);
      && r.years >= 0
      && ShiftYears(start, r.years) <= EpochMs(now) < ShiftYears(start, r.years + 1)
      && (forall k :: ShiftYears(start, k) <= EpochMs(now) <==> k <= r.years)
      && r.yearlyDays.Some? && r.yearlyDays.value >= 0
  {
    var y := YearsElapsed(start, now);
    YearsBracket(start, now);
    assert Compute(start, now).years == y;
    forall k
      ensures ShiftYears(start, k) <= EpochMs(now) <==> k <= y
    {
      if k < y {
        ShiftYearsMonotone(start, k, y);
      } else if k > y + 1 {
        ShiftYearsMonotone(start, y + 1, k);
      }
    }
  }

  /** The single walk-back of the year count already brackets `now`. */
  lemma YearsBracket(start: Instant, now: Instant)
    requires EpochMs(start) <= EpochMs(now)
    ensures var y := YearsElapsed(start, now);
      && y >= 0
      && ShiftYears(start, y) <= EpochMs(now) < ShiftYears(start, y + 1)
  {
    var y0 := now.year - start.year;
    assert y0 >= 0 by {
      OrderedMonths(start, now);
    }
    if ShiftYears(start, y0) > EpochMs(now) {
      assert y0 != 0 by {
        ShiftZero(start);
      }
      YearBefore(start, now, y0 - 1);
    } else {
      YearAfter(start, now, y0 + 1);
    }
  }

  /** The anniversary in the year before `now`'s year has already passed. */
  lemma YearBefore(start: Instant, now: Instant, j: int)
    requires start.year + j + 1 == now.year
    ensures ShiftYears(start, j) <= EpochMs(now)
  {
    AnniversaryInYear(start, j);
    InstantInMonth(now);
    MonthStartMonotone(12 * now.year, MonthIndex(now));
    DayScale(MonthStart(12 * now.year), MonthStart(MonthIndex(now)));
  }

  /** The anniversary in the year after `now`'s year is still to come. */
  lemma YearAfter(start: Instant, now: Instant, j: int)
    requires start.year + j == now.year + 1
    ensures EpochMs(now) < ShiftYears(start, j)
  {
    AnniversaryInYear(start, j);
    InstantInMonth(now);
    MonthStartMonotone(MonthIndex(now) + 1, 12 * (now.year + 1));
    DayScale(MonthStart(MonthIndex(now) + 1), MonthStart(12 * (now.year + 1)));
  }

  /** The anniversary `j` years after `start` falls inside year `start.year + j`:
      a rolled-over February 29th lands on March 1st of that year. */
  lemma AnniversaryInYear(start: Instant, j: int)
    ensures MonthStart(12 * (start.year + j)) * MsPerDay <= ShiftYears(start, j)
    ensures ShiftYears(start, j) < MonthStart(12 * (start.year + j + 1)) * MsPerDay
  {
    var y := start.year + j;
    var k := 12 * y + start.month;
    var day := MakeDay(y, start.month, start.day);
    assert day == MonthStart(k) + start.day - 1;
    assert ShiftYears(start, j) == day * MsPerDay + TimeInDay(start);
    assert 12 * (start.year + j) == 12 * y && 12 * (start.year + j + 1) == 12 * y + 12;
    assert MonthStart(12 * y) <= day by {
      MonthStartMonotone(12 * y, k);
    }
    assert day + 1 <= MonthStart(12 * y + 12) by {
      MonthStartStep(k);
      if start.month < 11 {
        MonthStartStep(k + 1);
        MonthStartMonotone(k + 2, 12 * y + 12);
      } else {
        assert k / 12 == y && k % 12 == 11;
      }
    }
    DayScale(MonthStart(12 * y), day);
    DayScale(day + 1, MonthStart(12 * y + 12));
  }

  /** The monthly walk-back: `months` is never negative and the next monthly
      anniversary always lies after `now`. When the start day of month exists
      in every month (at most 28) the anniversary `months` months after
      `start` is at or before `now`, so `months` is the largest such count and
      `days` is not negative. Longer start days are not covered: see
      `NegativeDaysWitness`. */
  lemma MonthlyAnniversary(start: Instant, now: Instant)
    requires EpochMs(start) <= EpochMs(now)
    ensures var r := Compute(start, now);
      && r.months >= 0
      && EpochMs(now) < ShiftMonths(start, r.months + 1)
      && (forall k :: k > r.months ==> EpochMs(now) < ShiftMonths(start, k))
    ensures var r := Compute(start, now);
      start.day <= 28 ==>
        && ShiftMonths(start, r.months) <= EpochMs(now)
        && (forall k :: ShiftMonths(start, k) <= EpochMs(now) <==> k <= r.months)
        && r.days >= 0
  {
    var m := MonthsElapsed(start, now);
    MonthsBracket(start, now);
    assert Compute(start, now).months == m;
    forall k
      ensures k > m ==> EpochMs(now) < ShiftMonths(start, k)
      ensures start.day <= 28 && k < m ==> ShiftMonths(start, k) <= EpochMs(now)
    {
      if k > m + 1 {
        ShiftMonthsMonotone(start, m + 1, k);
      } else if k < m {
        ShiftMonthsMonotone(start, k, m);
      }
    }
  }

  /** The single walk-back of the month count: never negative, always short of
      the next anniversary, and at or past the current one for start days up
      to 28. */
  lemma MonthsBracket(start: Instant, now: Instant)
    requires EpochMs(start) <= EpochMs(now)
    ensures var m := MonthsElapsed(start, now);
      && m >= 0
      && EpochMs(now) < ShiftMonths(start, m + 1)
      && (start.day <= 28 ==> ShiftMonths(start, m) <= EpochMs(now))
  {
    var nowMs := EpochMs(now);
    var m0 := (now.year - start.year) * 12 + (now.month - start.month);
    assert m0 == MonthIndex(now) - MonthIndex(start);
    assert m0 >= 0 by {
      OrderedMonths(start, now);
    }
    if ShiftMonths(start, m0) > nowMs {
      assert m0 != 0 by {
        ShiftZero(start);
      }
      assert start.day <= 28 ==> ShiftMonths(start, m0 - 1) <= nowMs by {
        InstantInMonth(now);
        ShiftMonthsBounds(start, m0 - 1);
        assert MonthIndex(start) + (m0 - 1) + 1 == MonthIndex(now);
      }
    } else {
      assert nowMs < ShiftMonths(start, m0 + 1) by {
        InstantInMonth(now);
        ShiftMonthsBounds(start, m0 + 1);
        assert MonthIndex(start) + (m0 + 1) == MonthIndex(now) + 1;
      }
    }
  }

  /** For a fixed start, a later `now` never shows fewer years, months, whole
      days, whole hours or whole minutes. */
  lemma ComputeMonotone(start: Instant, now1: Instant, now2: Instant)
    requires EpochMs(now1) <= EpochMs(now2)
    ensures var r1, r2 := Compute(start, now1), Compute(start, now2);
      && r1.years <= r2.years
      && r1.months <= r2.months
      && r1.totalDays <= r2.totalDays
      && r1.totalHours <= r2.totalHours
      && r1.totalMinutes <= r2.totalMinutes
  {
    var r1, r2 := Compute(start, now1), Compute(start, now2);
    if EpochMs(start) <= EpochMs(now2) {
      YearlyAnniversary(start, now2);
      MonthlyAnniversary(start, now2);
    }
    if EpochMs(start) <= EpochMs(now1) {
      YearlyAnniversary(start, now1);
      assert ShiftYears(start, r1.years) <= EpochMs(now2);
      MonthsMonotone(start, now1, now2);
    }
  }

  /** The month count grows with `now`, even where `days` comes out negative. */
  lemma MonthsMonotone(start: Instant, now1: Instant, now2: Instant)
    requires EpochMs(start) <= EpochMs(now1) <= EpochMs(now2)
    ensures MonthsElapsed(start, now1) <= MonthsElapsed(start, now2)
  {
    OrderedMonths(now1, now2);
    var d1 := MonthIndex(now1) - MonthIndex(start);
    var d2 := MonthIndex(now2) - MonthIndex(start);
    assert (now1.year - start.year) * 12 + (now1.month - start.month) == d1;
    assert (now2.year - start.year) * 12 + (now2.month - start.month) == d2;
    assert d1 <= d2;
    if d1 == d2 && ShiftMonths(start, d2) > EpochMs(now2) {
      assert ShiftMonths(start, d1) > EpochMs(now1);
    }
  }

  /** Start on January 31st, look on March 1st: the month count walks back to
      one, whose anniversary "February 31st" rolls over to March 3rd, still
      after `now`, so `days` is -2 and the monthly bound fails. */
  lemma NegativeDaysWitness(start: Instant, now: Instant)
    requires start == DateTime(2023, 0, 31, 0, 0, 0, 0)
    requires now == DateTime(2023, 2, 1, 0, 0, 0, 0)
    ensures var r := Compute(start, now);
      && EpochMs(start) <= EpochMs(now)
      && r.months == 1
      && ShiftMonths(start, r.months) > EpochMs(now)
      && r.days == -2
  {
    var k := MonthIndex(start);
    assert MonthStart(k) == 19358 by {
      MonthStartClosedForm(k);
    }
    assert MonthStart(k + 1) == 19389 by {
      MonthStartClosedForm(k + 1);
    }
    assert MonthStart(k + 2) == 19417 by {
      MonthStartClosedForm(k + 2);
    }
    assert EpochMs(now) == 19417 * MsPerDay;
    assert ShiftMonths(start, 2) == (19417 + 30) * MsPerDay;
    assert ShiftMonths(start, 1) == (19389 + 30) * MsPerDay;
  }

  /** At the start instant itself every count is zero and the yearly day count
      is present and zero. */
  lemma ComputeAtStart(start: Instant, now: Instant)
    requires EpochMs(now) == EpochMs(start)
    ensures Compute(start, now) == NotStarted.(yearlyDays := Some(0))
  {
    var r := Compute(start, now);
    YearlyAnniversary(start, now);
    ShiftZero(start);
    if r.years > 0 {
      ShiftYearsMonotone(start, 0, r.years);
      assert false;
    }
    OrderedMonths(start, now);
    OrderedMonths(now, start);
    assert MonthsElapsed(start, now) == 0;
  }

  /** The intended monthly walk-back: step the month count back until its
      anniversary is no longer after `nowMs`. */
  function WalkBackMonths(start: Instant, nowMs: int, k: int): (r: int)
    requires EpochMs(start) <= nowMs
    requires k >= 0 && nowMs < ShiftMonths(start, k + 1)
    ensures 0 <= r <= k
    ensures ShiftMonths(start, r) <= nowMs < ShiftMonths(start, r + 1)
    decreases k
  {
    ShiftZero(start);
    if ShiftMonths(start, k) <= nowMs then k
    else WalkBackMonths(start, nowMs, k - 1)
  }

  /** The calculation with the monthly walk-back repeated until it lands on
      or before `now`; every other field is the source's. */
  function ComputeIntended(start: Instant, now: Instant): (r: Breakdown)
    ensures EpochMs(now) < EpochMs(start) ==> r == NotStarted
    ensures r == Compute(start, now).(months := r.months, days := r.days)
  {
    var b := Compute(start, now);
    if EpochMs(now) < EpochMs(start) then b
    else
      MonthsBracket(start, now);
      var months := WalkBackMonths(start, EpochMs(now), MonthsElapsed(start, now));
      b.(months := months, days := (EpochMs(now) - ShiftMonths(start, months)) / MsPerDay)
  }

  /** With the repeated walk-back, `months` is exactly the number of monthly
      anniversaries passed and `days` is never negative, whatever the start
      day of month; for start days up to 28 nothing changes. */
  lemma IntendedMonthlyAnniversary(start: Instant, now: Instant)
    requires EpochMs(start) <= EpochMs(now)
    ensures var r := ComputeIntended(start, now);
      && r.months >= 0
      && (forall k :: ShiftMonths(start, k) <= EpochMs(now) <==> k <= r.months)
      && IsFloor(r.days, EpochMs(now) - ShiftMonths(start, r.months), MsPerDay)
      && r.days >= 0
    ensures start.day <= 28 ==> ComputeIntended(start, now) == Compute(start, now)
  {
    var nowMs := EpochMs(now);
    var m0 := MonthsElapsed(start, now);
    MonthsBracket(start, now);
    var m := WalkBackMonths(start, nowMs, m0);
    assert ComputeIntended(start, now).months == m;
    BracketCounts(start, nowMs, m);
    if start.day <= 28 {
      assert ShiftMonths(start, m0) <= nowMs;
      assert m == m0;
    }
  }

  /** Between anniversaries `m` and `m + 1`, anniversary `k` is at or before
      the instant exactly when `k <= m`. */
  lemma BracketCounts(start: Instant, nowMs: int, m: int)
    requires ShiftMonths(start, m) <= nowMs < ShiftMonths(start, m + 1)
    ensures forall k :: ShiftMonths(start, k) <= nowMs <==> k <= m
  {
    forall k
      ensures ShiftMonths(start, k) <= nowMs <==> k <= m
    {
      if k < m {
        ShiftMonthsMonotone(start, k, m);
      } else if k > m + 1 {
        ShiftMonthsMonotone(start, m + 1, k);
      }
    }
  }
}
