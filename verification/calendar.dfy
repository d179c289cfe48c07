/** A single fixed-offset civil calendar (proleptic Gregorian, no daylight
    saving), with the day arithmetic of ECMA-262 section 21.4.1 (Date
    objects): DayFromYear, the month table, MakeDay and MakeDate. A JavaScript
    `Date` read through `getFullYear`/`getMonth`/... is modelled by its civil
    fields; its time value is `EpochMs`. */
module Calendar {

  const MsPerSecond: int := 1000
  const MsPerMinute: int := 60000
  const MsPerHour: int := 3600000
  const MsPerDay: int := 86400000

  predicate IsLeap(y: int) {
    y % 4 == 0 && (y % 100 != 0 || y % 400 == 0)
  }

  function DaysInYear(y: int): int {
    if IsLeap(y) then 366 else 365
  }

  /** Length of month `m` (0 = January) of year `y`. */
  function DaysInMonth(y: int, m: int): int
    requires 0 <= m < 12
  {
    if m == 1 then (if IsLeap(y) then 29 else 28)
    else if m == 3 || m == 5 || m == 8 || m == 10 then 30
    else 31
  }

  /** Days of year `y` before the first of month `m`; `m == 12` gives the year
      length. From March on, month lengths repeat the 31-30-31-30-31 pattern,
      which the closed form below counts; `MonthTable` checks it entry by entry. */
  function DaysBeforeMonth(y: int, m: int): int
    requires 0 <= m <= 12
  {
    if m < 2 then 31 * m
    else (153 * (m - 2) + 2) / 5 + 59 + (if IsLeap(y) then 1 else 0)
  }

  /** The cumulative month table of ECMA-262 (DayWithinYear boundaries), and the
      agreement of consecutive entries with the month lengths. */
  lemma MonthTable(y: int)
    ensures var leap := if IsLeap(y) then 1 else 0;
      && DaysBeforeMonth(y, 0) == 0 && DaysBeforeMonth(y, 1) == 31
      && DaysBeforeMonth(y, 2) == 59 + leap && DaysBeforeMonth(y, 3) == 90 + leap
      && DaysBeforeMonth(y, 4) == 120 + leap && DaysBeforeMonth(y, 5) == 151 + leap
      && DaysBeforeMonth(y, 6) == 181 + leap && DaysBeforeMonth(y, 7) == 212 + leap
      && DaysBeforeMonth(y, 8) == 243 + leap && DaysBeforeMonth(y, 9) == 273 + leap
      && DaysBeforeMonth(y, 10) == 304 + leap && DaysBeforeMonth(y, 11) == 334 + leap
      && DaysBeforeMonth(y, 12) == DaysInYear(y)
    ensures forall m :: 0 <= m < 12 ==> DaysBeforeMonth(y, m + 1) == DaysBeforeMonth(y, m) + DaysInMonth(y, m)
  {
  }

  /** Day number (days since 1970-01-01) of January 1st of year `y`. */
  function DayFromYear(y: int): int {
    365 * (y - 1970) + (y - 1969) / 4 - (y - 1901) / 100 + (y - 1601) / 400
  }

  /** Absolute month index of January 1970, the month of day number 0. */
  const EpochMonth: int := 12 * 1970

  /** Day number of the first day of the month with absolute index `k`
      (`k == 12 * year + month`), counted month by month from January 1970;
      `MonthStartClosedForm` shows it agrees with DayFromYear and the month table. */
  function MonthStart(k: int): int
    decreases if k >= EpochMonth then k - EpochMonth else EpochMonth - k
  {
    if k == EpochMonth then 0
    else if k > EpochMonth then MonthStart(k - 1) + DaysInMonth((k - 1) / 12, (k - 1) % 12)
    else MonthStart(k + 1) - DaysInMonth(k / 12, k % 12)
  }

  /** ECMA-262 MakeDay: month `m` may lie outside 0..11 and day `d` outside the
      month; both overflow into the following months (`MakeDayIsEcma` gives the
      standard's own formula). */
  function MakeDay(y: int, m: int, d: int): int {
    MonthStart(12 * y + m) + d - 1
  }

  datatype DateTime = DateTime(year: int, month: int, day: int,
                               hour: int, minute: int, second: int, ms: int)

  /** The fields a `Date` reports are always normalised. */
  predicate Valid(t: DateTime) {
    && 0 <= t.month < 12
    && 1 <= t.day <= DaysInMonth(t.year, t.month)
    && 0 <= t.hour < 24
    && 0 <= t.minute < 60
    && 0 <= t.second < 60
    && 0 <= t.ms < 1000
  }

  type Instant = t: DateTime | Valid(t) witness DateTime(1970, 0, 1, 0, 0, 0, 0)

  /** Absolute month index of an instant. */
  function MonthIndex(t: Instant): int {
    12 * t.year + t.month
  }

  /** ECMA-262 TimeWithinDay of an instant. */
  function TimeInDay(t: Instant): (r: int)
    ensures 0 <= r < MsPerDay
  {
    ((t.hour * 60 + t.minute) * 60 + t.second) * 1000 + t.ms
  }

  /** ECMA-262 MakeDate: the time value of an instant. */
  function EpochMs(t: Instant): int {
    MakeDay(t.year, t.month, t.day) * MsPerDay + TimeInDay(t)
  }

  /** Time value of `new Date(t)` after `setFullYear(t.getFullYear() + k)`:
      month, day of month and time of day are kept, and a day the target month
      lacks (February 29th) rolls into the next month. */
  function ShiftYears(t: Instant, k: int): int {
    MakeDay(t.year + k, t.month, t.day) * MsPerDay + TimeInDay(t)
  }

  /** Time value of `new Date(t)` after `setMonth(t.getMonth() + k)`: the day of
      month and time of day are kept; a day the target month lacks rolls over. */
  function ShiftMonths(t: Instant, k: int): int {
    MakeDay(t.year, t.month + k, t.day) * MsPerDay + TimeInDay(t)
  }

  /** Advancing by `k` years is advancing by `12 * k` months. */
  lemma ShiftYearsAsMonths(t: Instant, k: int)
    ensures ShiftYears(t, k) == ShiftMonths(t, 12 * k)
  {
    assert 12 * (t.year + k) + t.month == 12 * t.year + (t.month + 12 * k);
  }

  /** The month shift lies at or after the start of the target month, and no
      later than three days into the month after it; a start day of month up to
      28 exists in every month and stays inside the target month. */
  lemma ShiftMonthsBounds(t: Instant, k: int)
    ensures var r := ShiftMonths(t, k);
      && MonthStart(MonthIndex(t) + k) * MsPerDay <= r
      && r < (MonthStart(MonthIndex(t) + k + 1) + 3) * MsPerDay
      && (t.day <= 28 ==> r < MonthStart(MonthIndex(t) + k + 1) * MsPerDay)
  {
    var day := MakeDay(t.year, t.month + k, t.day);
    var first := MonthStart(MonthIndex(t) + k);
    var next := MonthStart(MonthIndex(t) + k + 1);
    assert first <= day && day + 1 <= next + 3 && (t.day <= 28 ==> day + 1 <= next) by {
      MonthStartStep(MonthIndex(t) + k);
    }
    DayScale(first, day);
    DayScale(day + 1, next + 3);
    if t.day <= 28 {
      DayScale(day + 1, next);
    }
  }

  /** The month-by-month count agrees with ECMA-262's DayFromYear plus the
      cumulative month table. */
  lemma {:induction false} MonthStartClosedForm(k: int)
    ensures MonthStart(k) == DayFromYear(k / 12) + DaysBeforeMonth(k / 12, k % 12)
    decreases if k >= EpochMonth then k - EpochMonth else EpochMonth - k
  {
    if k > EpochMonth {
      MonthStartClosedForm(k - 1);
      ClosedFormStep(k - 1);
    } else if k < EpochMonth {
      MonthStartClosedForm(k + 1);
      ClosedFormStep(k);
    }
  }

  lemma ClosedFormStep(k: int)
    ensures DayFromYear((k + 1) / 12) + DaysBeforeMonth((k + 1) / 12, (k + 1) % 12)
         == DayFromYear(k / 12) + DaysBeforeMonth(k / 12, k % 12) + DaysInMonth(k / 12, k % 12)
  {
    MonthTable(k / 12);
    if k % 12 == 11 {
      assert (k + 1) / 12 == k / 12 + 1 && (k + 1) % 12 == 0;
      DayFromYearStep(k / 12);
    } else {
      assert (k + 1) / 12 == k / 12 && (k + 1) % 12 == k % 12 + 1;
    }
  }

  /** MakeDay is the formula of ECMA-262: normalise the month into a year and a
      month 0..11, then add the day of month to the first of that month. */
  lemma MakeDayIsEcma(y: int, m: int, d: int)
    ensures MakeDay(y, m, d) == DayFromYear(y + m / 12) + DaysBeforeMonth(y + m / 12, m % 12) + d - 1
  {
    MonthStartClosedForm(12 * y + m);
    assert (12 * y + m) / 12 == y + m / 12;
    assert (12 * y + m) % 12 == m % 12;
  }

  /** One floor-division step: `(a + 1) / k` exceeds `a / k` exactly when `k`
      divides `a + 1`, and the remainder is unchanged by multiples of `k`. */
  lemma FloorStep(a: int, k: int)
    requires k == 4 || k == 100 || k == 400
    ensures (a + 1) / k == a / k + (if (a + 1) % k == 0 then 1 else 0)
  {
  }

  /** Consecutive years start the length of the earlier year apart. */
  lemma DayFromYearStep(y: int)
    ensures DayFromYear(y + 1) == DayFromYear(y) + DaysInYear(y)
  {
    FloorStep(y - 1969, 4);
    FloorStep(y - 1901, 100);
    FloorStep(y - 1601, 400);
    assert (y + 1 - 1969) % 4 == y % 4;
    assert (y + 1 - 1901) % 100 == y % 100;
    assert (y + 1 - 1601) % 400 == y % 400;
  }

  /** Consecutive months start the length of the earlier month apart. */
  lemma MonthStartStep(k: int)
    ensures MonthStart(k + 1) == MonthStart(k) + DaysInMonth(k / 12, k % 12)
    ensures MonthStart(k) + 28 <= MonthStart(k + 1) <= MonthStart(k) + 31
  {
  }

  /** Month starts increase strictly with the month index. */
  lemma {:induction false} MonthStartMonotone(a: int, b: int)
    requires a <= b
    ensures MonthStart(a) + 28 * (b - a) <= MonthStart(b)
    decreases b - a
  {
    if a < b {
      MonthStartMonotone(a, b - 1);
      MonthStartStep(b - 1);
    }
  }

  /** An instant lies within its own month. */
  lemma InstantInMonth(t: Instant)
    ensures MonthStart(MonthIndex(t)) * MsPerDay <= EpochMs(t)
    ensures EpochMs(t) < MonthStart(MonthIndex(t) + 1) * MsPerDay
  {
    MonthStartStep(MonthIndex(t));
    assert MonthIndex(t) / 12 == t.year && MonthIndex(t) % 12 == t.month;
  }

  /** Scaling day numbers to milliseconds keeps their order. */
  lemma DayScale(a: int, b: int)
    requires a <= b
    ensures a * MsPerDay <= b * MsPerDay
    ensures a < b ==> a * MsPerDay + MsPerDay <= b * MsPerDay
  {
  }

  /** Time values and calendar months are ordered alike: an instant that is not
      later than another lies in the same or an earlier month and year. */
  lemma OrderedMonths(a: Instant, b: Instant)
    requires EpochMs(a) <= EpochMs(b)
    ensures MonthIndex(a) <= MonthIndex(b)
    ensures a.year <= b.year
  {
    if MonthIndex(b) < MonthIndex(a) {
      EarlierMonthEarlierTime(b, a);
      assert false;
    }
    assert 12 * a.year <= 12 * b.year + 11;
  }

  /** Every instant of an earlier month precedes every instant of a later one. */
  lemma EarlierMonthEarlierTime(a: Instant, b: Instant)
    requires MonthIndex(a) < MonthIndex(b)
    ensures EpochMs(a) < EpochMs(b)
  {
    var ia, ib := MonthIndex(a), MonthIndex(b);
    var sa, sb := MonthStart(ia + 1), MonthStart(ib);
    assert sa <= sb by {
      MonthStartMonotone(ia + 1, ib);
    }
    InstantInMonth(a);
    InstantInMonth(b);
    DayScale(sa, sb);
  }

  /** Shifting by zero months or years gives back the instant's own time value. */
  lemma ShiftZero(t: Instant)
    ensures ShiftMonths(t, 0) == EpochMs(t)
    ensures ShiftYears(t, 0) == EpochMs(t)
  {
  }

  /** Shifting by more months gives a strictly later time value. */
  lemma ShiftMonthsMonotone(t: Instant, a: int, b: int)
    requires a < b
    ensures ShiftMonths(t, a) < ShiftMonths(t, b)
  {
    MakeDayMonotone(t.year, t.month + a, t.month + b, t.day);
    DayScale(MakeDay(t.year, t.month + a, t.day), MakeDay(t.year, t.month + b, t.day));
  }

  lemma MakeDayMonotone(y: int, m1: int, m2: int, d: int)
    requires m1 < m2
    ensures MakeDay(y, m1, d) < MakeDay(y, m2, d)
  {
    MonthStartMonotone(12 * y + m1, 12 * y + m2);
  }

  /** Advancing by more years gives a strictly later time value. */
  lemma ShiftYearsMonotone(t: Instant, a: int, b: int)
    requires a < b
    ensures ShiftYears(t, a) < ShiftYears(t, b)
  {
    ShiftYearsAsMonths(t, a);
    ShiftYearsAsMonths(t, b);
    ShiftMonthsMonotone(t, 12 * a, 12 * b);
  }
}
