/** `formatTimeDisplay` and `getRelativeColor`: rendering a breakdown in one of
    the four display formats, and the colour-class lookup. `Read` is an
    independent parser of the rendered strings, used to show that each format
    shows exactly the fields it names. */
module Display {
  import opened Wrappers
  import opened Decimal
  import opened Elapsed
  import Calendar

  datatype DisplayFormat = Full | Days | Hm | TotalHours

  /** The tag a format is stored under. */
  function Tag(f: DisplayFormat): string {
    match f
    case Full => "full"
    case Days => "days"
    case Hm => "hm"
    case TotalHours => "total-hours"
  }

  /** The format a stored tag selects: any tag other than the three named ones,
      `"full"` included, falls through to `full`. */
  function FromTag(tag: string): (f: DisplayFormat)
    ensures f == Full <==> tag != "days" && tag != "hm" && tag != "total-hours"
  {
    if tag == "days" then Days
    else if tag == "hm" then Hm
    else if tag == "total-hours" then TotalHours
    else Full
  }

  /** Every format survives being stored as its tag, and a tag that selects a
      format other than `full` is that format's own tag. */
  lemma TagRoundTrip(f: DisplayFormat, tag: string)
    ensures FromTag(Tag(f)) == f
    ensures FromTag(tag) != Full ==> Tag(FromTag(tag)) == tag
  {
  }

  /** A property read in a template literal: a missing one prints "undefined". */
  function FieldText(o: Option<int>): string {
    match o
    case Some(n) => IntToString(n)
    case None => "undefined"
  }

  /** Two-digit clock field, `n.toString().padStart(2, '0')`. */
  function ClockText(n: int): string {
    PadStart2(IntToString(n))
  }

  /** `formatTimeDisplay(b, f)`. */
  function Format(b: Breakdown, f: DisplayFormat): string {
    match f
    case Days => IntToString(b.totalDays) + "d"
    case Hm => IntToString(b.totalHours) + "h " + IntToString(b.minutes) + "m"
    case TotalHours => IntToString(b.totalHours) + "h"
    case Full =>
      if b.years > 0 then IntToString(b.years) + "Y " + FieldText(b.yearlyDays) + "d"
      else if b.months > 0 then IntToString(b.months) + "mo " + IntToString(b.days) + "d"
      else IntToString(b.totalDays) + "d " + ClockString(b.hours, b.minutes, b.seconds)
  }

  /** The `HH:MM:SS` part of the sub-month tier. */
  function ClockString(h: int, m: int, sec: int): string {
    ClockText(h) + ":" + ClockText(m) + ":" + ClockText(sec)
  }

  // ---------------------------------------------------------------------------
  // What a rendered string shows, and a parser for it

  /** The fields a display string shows, one alternative per format or tier. */
  datatype Shown =
    | DaysShown(days: nat)
    | HoursMinutesShown(hours: nat, minutes: nat)
    | HoursShown(hours: nat)
    | YearsDaysShown(years: nat, days: nat)
    | MonthsDaysShown(months: nat, sinceMonth: int)
    | ClockShown(days: nat, hh: nat, mm: nat, ss: nat)

  /** The fields format `f` shows are present, non-negative and, on the clock,
      below 100 (so that two digits hold them). The day count of the month
      tier is the exception: it is printed with its sign, so any value reads
      back. */
  predicate Legible(b: Breakdown, f: DisplayFormat) {
    match f
    case Days => b.totalDays >= 0
    case Hm => b.totalHours >= 0 && b.minutes >= 0
    case TotalHours => b.totalHours >= 0
    case Full =>
      if b.years > 0 then b.yearlyDays.Some? && b.yearlyDays.value >= 0
      else
        || b.months > 0
        || (&& b.totalDays >= 0
            && 0 <= b.hours < 100 && 0 <= b.minutes < 100 && 0 <= b.seconds < 100)
  }

  /** What format `f` promises to show of `b`: `days` the whole days, `hm` the
      whole hours and the minute of the hour, `total-hours` the whole hours,
      and `full` the first tier that applies: years with the days since the
      yearly anniversary, else months with the days since the monthly
      anniversary, else whole days and the clock. */
  function Expected(b: Breakdown, f: DisplayFormat): Shown
    requires Legible(b, f)
  {
    match f
    case Days => DaysShown(b.totalDays)
    case Hm => HoursMinutesShown(b.totalHours, b.minutes)
    case TotalHours => HoursShown(b.totalHours)
    case Full =>
      if b.years > 0 then YearsDaysShown(b.years, b.yearlyDays.value)
      else if b.months > 0 then MonthsDaysShown(b.months, b.days)
      else ClockShown(b.totalDays, b.hours, b.minutes, b.seconds)
  }

  /** Number of leading decimal digits of `s`. */
  function DigitSpan(s: string): (k: nat)
    ensures k <= |s| && AllDigits(s[..k])
    ensures k < |s| ==> !IsDigit(s[k])
  {
    if |s| == 0 || !IsDigit(s[0]) then 0
    else
      var k := 1 + DigitSpan(s[1..]);
      assert s[..k] == [s[0]] + s[1..][..k - 1];
      k
  }

  /** A number followed by exactly `suffix`. */
  function ReadNumber(s: string, suffix: string): Option<nat> {
    var k := DigitSpan(s);
    if 0 < k && s[k..] == suffix then Some(DigitsValue(s[..k])) else None
  }

  /** A number with an optional leading minus sign, followed by exactly
      `suffix`. */
  function ReadSignedNumber(s: string, suffix: string): Option<int> {
    if |s| > 0 && s[0] == '-' then
      match ReadNumber(s[1..], suffix)
      case Some(d) => Some(-(d as int))
      case None => None
    else
      match ReadNumber(s, suffix)
      case Some(d) => Some(d)
      case None => None
  }

  /** A two-digit clock field. */
  function ReadTwoDigits(s: string): Option<nat>
    requires |s| == 2
  {
    if IsDigit(s[0]) && IsDigit(s[1]) then Some(10 * DigitValue(s[0]) + DigitValue(s[1])) else None
  }

  /** Parses any of the six shapes a display string takes: a number, then
      one of the unit texts the formats write. */
  function Read(s: string): Option<Shown> {
    var k := DigitSpan(s);
    if k == 0 then None else ReadUnits(DigitsValue(s[..k]), s[k..])
  }

  /** What follows the leading number `n` of a display string. */
  function ReadUnits(n: nat, rest: string): Option<Shown> {
    if rest == "d" then Some(DaysShown(n))
    else if rest == "h" then Some(HoursShown(n))
    else if |rest| >= 2 && rest[..2] == "h " then
      match ReadNumber(rest[2..], "m")
      case Some(m) => Some(HoursMinutesShown(n, m))
      case None => None
    else if |rest| >= 2 && rest[..2] == "Y " then
      match ReadNumber(rest[2..], "d")
      case Some(d) => Some(YearsDaysShown(n, d))
      case None => None
    else if |rest| >= 3 && rest[..3] == "mo " then
      match ReadSignedNumber(rest[3..], "d")
      case Some(d) => Some(MonthsDaysShown(n, d))
      case None => None
    else if |rest| == 10 && rest[..2] == "d " then
      match ReadClock(rest[2..])
      case Some((hh, mm, ss)) => Some(ClockShown(n, hh, mm, ss))
      case None => None
    else None
  }

  /** Three two-digit fields separated by colons. */
  function ReadClock(t: string): Option<(nat, nat, nat)>
    requires |t| == 8
  {
    if t[2] != ':' || t[5] != ':' then None
    else
      match (ReadTwoDigits(t[..2]), ReadTwoDigits(t[3..5]), ReadTwoDigits(t[6..]))
      case (Some(hh), Some(mm), Some(ss)) => Some((hh, mm, ss))
      case _ => None
  }

  lemma {:induction false} DigitSpanAppend(a: string, t: string)
    requires AllDigits(a)
    ensures DigitSpan(a + t) == |a| + DigitSpan(t)
    decreases |a|
  {
    if |a| == 0 {
      assert a + t == t;
    } else {
      assert (a + t)[0] == a[0];
      assert (a + t)[1..] == a[1..] + t;
      DigitSpanAppend(a[1..], t);
    }
  }

  /** The digits of `n` followed by a text that does not start with a digit
      read as `n` followed by that text. */
  lemma ReadSplit(n: nat, t: string)
    requires |t| == 0 || !IsDigit(t[0])
    ensures Read(NatToString(n) + t) == ReadUnits(n, t)
  {
    var s := NatToString(n) + t;
    DigitSpanAppend(NatToString(n), t);
    assert s[..|NatToString(n)|] == NatToString(n);
    assert s[|NatToString(n)|..] == t;
    NatRoundTrip(n);
  }

  lemma ReadNumberOf(n: nat, suffix: string)
    requires |suffix| > 0 && !IsDigit(suffix[0])
    ensures ReadNumber(NatToString(n) + suffix, suffix) == Some(n)
  {
    var s := NatToString(n) + suffix;
    DigitSpanAppend(NatToString(n), suffix);
    assert s[..|NatToString(n)|] == NatToString(n);
    assert s[|NatToString(n)|..] == suffix;
    NatRoundTrip(n);
  }

  lemma ReadClockField(n: int)
    requires 0 <= n < 100
    ensures ClockText(n) == [DigitChar(n / 10), DigitChar(n % 10)]
    ensures ReadTwoDigits(ClockText(n)) == Some(n)
  {
    PadStart2Digits(n);
  }

  lemma ReadClockOf(h: int, m: int, sec: int)
    requires 0 <= h < 100 && 0 <= m < 100 && 0 <= sec < 100
    ensures |ClockString(h, m, sec)| == 8
    ensures ReadClock(ClockString(h, m, sec)) == Some((h, m, sec))
  {
    ReadClockField(h);
    ReadClockField(m);
    ReadClockField(sec);
    var t := ClockString(h, m, sec);
    assert t == ClockText(h) + [':'] + ClockText(m) + [':'] + ClockText(sec);
    assert t[..2] == ClockText(h) && t[3..5] == ClockText(m) && t[6..] == ClockText(sec);
  }

  lemma ReadHmText(n: nat, m: nat)
    ensures Read(NatToString(n) + ("h " + NatToString(m) + "m")) == Some(HoursMinutesShown(n, m))
  {
    var rest := "h " + NatToString(m) + "m";
    ReadSplit(n, rest);
    assert rest[..2] == "h " && rest[2..] == NatToString(m) + "m";
    ReadNumberOf(m, "m");
  }

  lemma ReadYearsText(n: nat, d: nat)
    ensures Read(NatToString(n) + ("Y " + NatToString(d) + "d")) == Some(YearsDaysShown(n, d))
  {
    var rest := "Y " + NatToString(d) + "d";
    ReadSplit(n, rest);
    assert rest[..2] == "Y " && rest[2..] == NatToString(d) + "d";
    assert rest[..2][0] != 'h';
    ReadNumberOf(d, "d");
  }

  lemma ReadMonthsText(n: nat, d: int)
    ensures Read(NatToString(n) + ("mo " + IntToString(d) + "d")) == Some(MonthsDaysShown(n, d))
  {
    var rest := "mo " + IntToString(d) + "d";
    assert rest[0] == 'm' && rest[..3] == "mo " && rest[3..] == IntToString(d) + "d";
    assert rest != "d" && rest != "h";
    assert rest[..2] != "h " && rest[..2] != "Y " by {
      assert rest[..2][0] == 'm';
    }
    ReadSignedOf(d, "d");
    assert ReadUnits(n, rest) == Some(MonthsDaysShown(n, d));
    ReadSplit(n, rest);
  }

  /** The text of any integer followed by a suffix reads back as that
      integer, sign included. */
  lemma ReadSignedOf(d: int, suffix: string)
    requires |suffix| > 0 && !IsDigit(suffix[0]) && suffix[0] != '-'
    ensures ReadSignedNumber(IntToString(d) + suffix, suffix) == Some(d)
  {
    var text := IntToString(d);
    var s := text + suffix;
    if d < 0 {
      var digits := NatToString(-d);
      assert text == "-" + digits;
      assert s == "-" + (digits + suffix);
      assert s[1..] == digits + suffix;
      ReadNumberOf(-d, suffix);
      assert ReadNumber(s[1..], suffix) == Some(-d);
    } else {
      var digits := NatToString(d);
      assert s == digits + suffix;
      assert s[0] == digits[0];
      assert IsDigit(digits[0]);
      ReadNumberOf(d, suffix);
    }
  }

  lemma ReadClockText(n: nat, h: int, m: int, sec: int)
    requires 0 <= h < 100 && 0 <= m < 100 && 0 <= sec < 100
    ensures Read(NatToString(n) + ("d " + ClockString(h, m, sec))) == Some(ClockShown(n, h, m, sec))
  {
    var t := ClockString(h, m, sec);
    var rest := "d " + t;
    ReadClockOf(h, m, sec);
    assert |rest| == 10 && rest[0] == 'd';
    assert rest[..2] == "d " && rest[2..] == t;
    assert rest != "d" && rest != "h";
    assert rest[..2] != "h " && rest[..2] != "Y " && rest[..3] != "mo " by {
      assert rest[..2][0] == 'd' && rest[..3][0] == 'd';
    }
    assert ReadUnits(n, rest) == Some(ClockShown(n, h, m, sec));
    ReadSplit(n, rest);
  }

  /** Reading a rendered string recovers exactly the fields its format shows. */
  lemma ReadFormat(b: Breakdown, f: DisplayFormat)
    requires Legible(b, f)
    ensures Read(Format(b, f)) == Some(Expected(b, f))
  {
    match f
    case Days =>
      ReadSplit(b.totalDays, "d");
    case TotalHours =>
      ReadSplit(b.totalHours, "h");
    case Hm =>
      ReadFormatHm(b);
    case Full =>
      if b.years > 0 {
        ReadFormatYears(b);
      } else if b.months > 0 {
        ReadFormatMonths(b);
      } else {
        ReadFormatClock(b);
      }
  }

  lemma ReadFormatHm(b: Breakdown)
    requires Legible(b, Hm)
    ensures Read(Format(b, Hm)) == Some(Expected(b, Hm))
  {
    assert Format(b, Hm) == NatToString(b.totalHours) + ("h " + NatToString(b.minutes) + "m");
    ReadHmText(b.totalHours, b.minutes);
  }

  lemma ReadFormatYears(b: Breakdown)
    requires Legible(b, Full) && b.years > 0
    ensures Read(Format(b, Full)) == Some(Expected(b, Full))
  {
    assert Format(b, Full) == NatToString(b.years) + ("Y " + NatToString(b.yearlyDays.value) + "d");
    ReadYearsText(b.years, b.yearlyDays.value);
  }

  lemma ReadFormatMonths(b: Breakdown)
    requires Legible(b, Full) && b.years <= 0 && b.months > 0
    ensures Read(Format(b, Full)) == Some(Expected(b, Full))
  {
    assert Format(b, Full) == NatToString(b.months) + ("mo " + IntToString(b.days) + "d");
    ReadMonthsText(b.months, b.days);
  }

  lemma ReadFormatClock(b: Breakdown)
    requires Legible(b, Full) && b.years <= 0 && b.months <= 0
    ensures Read(Format(b, Full)) == Some(Expected(b, Full))
  {
    var text := FullClockText(b);
    ReadClockText(b.totalDays, b.hours, b.minutes, b.seconds);
    assert Read(text) == Some(ClockShown(b.totalDays, b.hours, b.minutes, b.seconds));
  }

  /** The sub-month tier of the full format, with the day count unsigned. */
  lemma FullClockText(b: Breakdown) returns (text: string)
    requires Legible(b, Full) && b.years <= 0 && b.months <= 0
    ensures text == Format(b, Full)
    ensures text == NatToString(b.totalDays) + ("d " + ClockString(b.hours, b.minutes, b.seconds))
  {
    text := IntToString(b.totalDays) + "d " + ClockString(b.hours, b.minutes, b.seconds);
    assert IntToString(b.totalDays) == NatToString(b.totalDays);
  }

  /** Two legible breakdowns render alike in a format exactly when they agree
      on the fields that format shows: the other fields are ignored, and the
      shown ones are never confused. */
  lemma FormatInjective(b1: Breakdown, b2: Breakdown, f: DisplayFormat)
    requires Legible(b1, f) && Legible(b2, f)
    ensures Format(b1, f) == Format(b2, f) <==> Expected(b1, f) == Expected(b2, f)
  {
    ReadFormat(b1, f);
    ReadFormat(b2, f);
  }

  /** What the calculation produces can always be read back, in every
      format and for every start day, a negative monthly day count included;
      so can what the repeated walk-back produces. */
  lemma ComputeLegible(start: Calendar.Instant, now: Calendar.Instant, f: DisplayFormat)
    ensures Legible(Compute(start, now), f)
    ensures Legible(ComputeIntended(start, now), f)
  {
    if Calendar.EpochMs(start) <= Calendar.EpochMs(now) {
      YearlyAnniversary(start, now);
    }
  }

  // ---------------------------------------------------------------------------
  // Colour classes

  /** The six named colours and their CSS classes. */
  const Palette: map<string, string> := map[
    "blue" := "bg-blue-500",
    "green" := "bg-emerald-500",
    "red" := "bg-rose-500",
    "purple" := "bg-violet-500",
    "orange" := "bg-orange-500",
    "pink" := "bg-pink-500"]

  const FallbackColor: string := "bg-slate-500"

  /** `getRelativeColor(color)`: the palette's class for a named colour (every
      class is a non-empty, hence truthy, string), otherwise the slate class. */
  function RelativeColor(color: string): (cls: string)
    ensures color in Palette ==> cls == Palette[color]
    ensures color !in Palette ==> cls == FallbackColor
  {
    if color == "blue" then "bg-blue-500"
    else if color == "green" then "bg-emerald-500"
    else if color == "red" then "bg-rose-500"
    else if color == "purple" then "bg-violet-500"
    else if color == "orange" then "bg-orange-500"
    else if color == "pink" then "bg-pink-500"
    else FallbackColor
  }

  /** The fallback is returned exactly for unnamed colours, and distinct named
      colours get distinct classes. */
  lemma RelativeColorDistinct(c1: string, c2: string)
    ensures RelativeColor(c1) == FallbackColor <==> c1 !in Palette
    ensures c1 in Palette && c2 in Palette && c1 != c2 ==> RelativeColor(c1) != RelativeColor(c2)
  {
  }
}
