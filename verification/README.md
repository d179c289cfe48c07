# ChronoTrack elapsed-time core in Dafny

ChronoTrack keeps a list of counters. Each counter shows how long ago its start
date was. This project models two parts of it:

- **Time logic** (`utils/time.ts`):
  - `calculateTimeElapsed` splits the time between a start instant and "now"
    into a breakdown. The breakdown holds whole years with the days since the
    yearly anniversary, whole months with the days since the monthly
    anniversary, the clock fields, and total days, hours and minutes.
  - `formatTimeDisplay` renders a breakdown in one of four display formats.
  - `getRelativeColor` maps a colour name to a CSS class.
- **Counter list logic** (`App.tsx`): adding, deleting and patching counters,
  reordering them by drag and drop, merging an imported list, and picking out
  the widgets.

Files (one module each):

- `wrappers.dfy`: `Option`, which stands for an absent or `undefined` property.
- `seqs.dfy`: `Filter`, `RemoveAt`, `InsertAt` and `Move` on sequences, the
  counterparts of `Array.prototype.filter` and `splice`.
- `calendar.dfy`: the parts of ECMA-262 section 21.4.1 (Date objects) the code
  relies on:
  - the time value of a civil date-time: DayFromYear, the month table, MakeDay
    with month and day overflow, and TimeWithinDay;
  - `setFullYear`/`setMonth` on a copy of the start (`ShiftYears`,
    `ShiftMonths`), including the roll-over of a day the target month lacks.
- `elapsed.dfy`: `calculateTimeElapsed` (`Compute`), with "now" as a parameter.
  It also holds the corrected monthly walk-back (`ComputeIntended`).
- `decimal.dfy`: number-to-string conversion of integers and `padStart(2, '0')`.
- `display.dfy`: `formatTimeDisplay` (`Format`) and `getRelativeColor`.
  - It contains an independent parser, `Read`, of the rendered strings.
  - The parser is used to prove that each format shows exactly the fields it
    names.
- `counters.dfy`: the counter list operations.
- `scenarios.dfy`: worked examples. Most are about dates and are stated for
  every year at once. `NegativeDaysRendering` is about one pair of dates in
  2023. `RenderNineteenDays` and `RenderingExamples` render fixed breakdowns.

In the code, `days` can come out negative. It walks the month count back only
once, and a start day of 29, 30 or 31 can land the "anniversary" after now. The
comment at utils/time.ts:53 calls `days` the days since the last monthly
anniversary, which cannot be negative. The model follows the code: `Compute`
can give a negative `days`. The monthly bounds are proved only for start days
up to 28 (see Findings).

## Model

| member | source | states |
|---|---|---|
| Seqs.Filter | App.tsx:106 | `Array.prototype.filter`: the result keeps exactly the elements that pass the test, in their order, each as often as in the input. |
| Seqs.Move | App.tsx:122-123 | Taking out the element at the dragged index and re-inserting it at the target index (counted before the removal) is a permutation. The moved element lands at the target index. The elements between the two positions shift one place towards the old position, and all others stay put. |
| Calendar.ShiftYearsAsMonths | utils/time.ts:24-25 | `ShiftYears` models `setFullYear(y + k)` and `ShiftMonths` models `setMonth(m + k)`, both through MakeDay. `setFullYear(y + k)` on a copy of the start gives the same time value as advancing its month by `12 * k`. |
| Calendar.ShiftMonthsBounds | utils/time.ts:40-41 | `setMonth(m + k)` (`ShiftMonths`) lands no earlier than the first of the target month and less than three days past its end. For a start day of at most 28 it lands inside the target month. |
| Calendar.ShiftMonthsMonotone | utils/time.ts:43-46 | Later monthly anniversaries are strictly later instants. |
| Calendar.ShiftYearsMonotone | utils/time.ts:28-31 | Later yearly anniversaries are strictly later instants. |
| Calendar.MonthStartClosedForm | utils/time.ts:5 | The first day of each month, counted month by month from the epoch, equals ECMA-262's DayFromYear plus the cumulative month table. |
| Calendar.MakeDayIsEcma | utils/time.ts:25 | MakeDay normalises an out-of-range month into the year before adding the day of month, as ECMA-262's MakeDay does. |
| Elapsed.Compute | utils/time.ts:4-63 | If now is before the start, every field is zero and the yearly day count is absent. Otherwise: total days, hours and minutes are the floors of the elapsed milliseconds; hours, minutes and seconds are the remainders of the next larger unit; the yearly day count is the floor of the whole days since the year anniversary; `days` is the same for the month anniversary. |
| Elapsed.ClockRemainders | utils/time.ts:54-59 | For a non-negative duration: the whole hours are 24 times the whole days plus the hour of the day; the whole minutes are 60 times the whole hours plus the minute of the hour; the second of the minute lies within that minute. |
| Elapsed.YearlyAnniversary | utils/time.ts:20-36 | Once started, `years` (the single walk-back `YearsElapsed`) is exactly the number of yearly anniversaries on or before now: anniversary `k` is at or before now if and only if `k <= years`. Now lies between anniversaries `years` and `years + 1`, and the yearly day count is never negative. |
| Elapsed.MonthlyAnniversary | utils/time.ts:39-48 | Once started, `months` (the single walk-back `MonthsElapsed`) is non-negative and every later monthly anniversary is after now. For a start day of at most 28: anniversary `k` is at or before now if and only if `k <= months`, and `days` is non-negative. |
| Elapsed.ComputeMonotone | utils/time.ts:16-59 | For a fixed start, a later now never gives fewer years, months, total days, total hours or total minutes. |
| Elapsed.MonthsMonotone | utils/time.ts:39-47 | Once started, the month count grows with now. |
| Elapsed.ComputeAtStart | utils/time.ts:8-36 | When now equals the start, every count is zero and the yearly day count is present and zero. |
| Elapsed.NegativeDaysWitness | utils/time.ts:43-48 | Start 2023-01-31 and now 2023-03-01: the single walk-back gives one month, whose anniversary is still after now, and `days` is -2. |
| Elapsed.BracketCounts | utils/time.ts:43-47 | Between monthly anniversaries `m` and `m + 1`, anniversary `k` is at or before the instant if and only if `k <= m`. |
| Elapsed.WalkBackMonths | utils/time.ts:43-47 | The repeated walk-back stops at the last month count whose anniversary is not after now. |
| Elapsed.ComputeIntended | utils/time.ts:39-48 | The calculation with the repeated walk-back differs from the code's only in `months` and `days`. |
| Elapsed.IntendedMonthlyAnniversary | utils/time.ts:39-48 | With the repeated walk-back, anniversary `k` is at or before now if and only if `k <= months`, and `days` is the non-negative floor of the days since that anniversary, for any start day. For start days up to 28 the result equals the code's. |
| Decimal.NatToString | utils/time.ts:68 | The decimal text of a natural number is a non-empty string of digits with no leading zero. |
| Decimal.NatRoundTrip | utils/time.ts:68 | Reading the digits of the decimal text gives back the number. |
| Decimal.IntToString | utils/time.ts:68 | A negative number renders as `-` followed by the text of its magnitude; others render without a sign. |
| Decimal.IntToStringInjective | utils/time.ts:68 | Distinct integers render as distinct strings. |
| Decimal.PadStart2 | utils/time.ts:86 | `padStart(2, '0')` leaves strings of length two or more alone. Shorter strings are left-filled with zeros to length two and keep themselves as the suffix. |
| Decimal.PadStart2Digits | utils/time.ts:86 | A number below 100 pads to exactly its tens digit followed by its units digit. |
| Display.FromTag | utils/time.ts:65-74 | A stored format tag other than `days`, `hm` or `total-hours` selects the full format (the `default` branch). |
| Display.TagRoundTrip | utils/time.ts:66-73 | Each format's own tag selects that format. |
| Display.ReadFormat | utils/time.ts:65-88 | `Format` models `formatTimeDisplay`. For a breakdown whose shown fields are non-negative, with clock fields below 100 (`Legible`), parsing the rendered string recovers exactly the fields the format promises. The exception is the month tier's day count: any value, negative included, reads back with its sign. `days`: total days. `hm`: total hours and minute of the hour. `total-hours`: total hours. `full`: years and yearly days if `years > 0`, else months and days if `months > 0`, else total days and the zero-padded clock. |
| Display.ReadFormatHm | utils/time.ts:69-70 | The `hm` rendering parses back to the total hours and the minute of the hour. |
| Display.ReadFormatYears | utils/time.ts:76-78 | The first full tier parses back to the years and the days since the yearly anniversary. |
| Display.ReadFormatMonths | utils/time.ts:81-83 | The second full tier, reached only when `years` is not positive, parses back to the months and the day count, a negative day count with its minus sign. |
| Display.ReadFormatClock | utils/time.ts:85-87 | The third full tier parses back to the total days and the three two-digit clock fields. |
| Display.FormatInjective | utils/time.ts:65-88 | Two breakdowns that are both `Legible` in a format render alike in it if and only if they agree on the fields that format shows. The month tier's negative day counts are included. |
| Display.ComputeLegible | utils/time.ts:50-88 | Every breakdown the calculation produces is `Legible` in every format, for every start day, including a negative `days`. So is every breakdown the repeated walk-back produces. |
| Display.RelativeColor | utils/time.ts:91-101 | Each of the six named colours gets its palette class; any other name gets `bg-slate-500`. |
| Display.RelativeColorDistinct | utils/time.ts:92-100 | The fallback class is returned exactly for unnamed colours, and distinct named colours get distinct classes. |
| Counters.ApplyIdempotent | App.tsx:111 | `Apply` models the spread `{ ...c, ...updates }`, each field the patch carries replacing the counter's. Spreading the same patch twice is spreading it once, and the empty patch changes nothing. |
| Counters.IndexOf | App.tsx:119-120 | `findIndex` gives -1 exactly when no counter has the id. Otherwise it gives the first position holding the id. |
| Counters.Add | App.tsx:101 | `[newCounter, ...counters]`: the given counter is put in front, and the old list follows unchanged. |
| Counters.AddCounter | App.tsx:90-102 | `addCounter` builds a counter through `NewCounter`. The id and creation timestamp are supplied from outside. The new counter carries exactly the given fields and goes in front of the unchanged old list. If no counter already has its id, deleting that id gives back the old list. |
| Counters.AddThenDelete | App.tsx:90-108 | Deleting a counter just added under an id no other counter has gives back the old list. |
| Counters.Delete | App.tsx:104-108 | After deletion no counter has the id. A counter survives if and only if it was there and has another id. Survivors keep their order and their number of occurrences. |
| Counters.DeleteAbsent | App.tsx:106 | Deleting an id no counter has leaves the list unchanged. |
| Counters.DeleteIdempotent | App.tsx:106 | Deleting twice is deleting once. |
| Counters.Update | App.tsx:110-112 | The length is kept. Every counter with the id gets the patch spread over it, and every other counter is unchanged. |
| Counters.UpdateIdempotent | App.tsx:110-112 | Applying the same update twice is applying it once, even when the patch changes the id. |
| Counters.UpdateAbsent | App.tsx:110-112 | Updating an id no counter has leaves the list unchanged. |
| Counters.UpdateNoChange | App.tsx:110-112 | An empty patch leaves the list unchanged. |
| Counters.DeleteAfterUpdate | App.tsx:104-112 | An update that keeps the id, followed by deleting that id, gives the same list as the deletion alone. |
| Counters.Drop | App.tsx:116-127 | With no drag in progress (absent or empty id), or a drop onto the dragged counter itself, nothing changes, not even the drag state. Otherwise the drag state is reset. The list is always a permutation of the old one. |
| Counters.DropMissing | App.tsx:121-126 | When the dragged or the target id is not in the list, the list is unchanged and the drag is reset. |
| Counters.DropMoves | App.tsx:119-124 | When both ids are present, the dragged counter ends up at the target's old index. That is just after the target when dragged downwards, and just before it when dragged upwards. Removing the dragged counter from the old and the new list gives the same list, so the others keep their relative order. |
| Counters.ImportMerge | App.tsx:80 | The merged list starts with the imported counters in order. A kept counter is one that was in the list and whose id the import lacks, and kept counters keep their order. Each kept counter occurs as often as in the old list. An id is in the result if and only if it is in the import or in the old list. |
| Counters.ImportIdempotent | App.tsx:80 | Importing the same list twice is importing it once. |
| Counters.ImportedNotKept | App.tsx:80 | No imported counter passes the filter against its own import. |
| Counters.ImportNothing | App.tsx:80 | Importing an empty array keeps the list. |
| Counters.ImportIntoEmpty | App.tsx:80 | Importing into an empty list gives the import. |
| Counters.Widgets | App.tsx:129 | A counter is a widget shown on the home view if and only if it is in the list and flagged as a widget. Widgets keep their order. |
| Counters.WidgetsOfAdd | App.tsx:90-102 | A new counter heads the widgets exactly when it is added as a widget. Otherwise the widgets are unchanged. |
| Counters.WidgetsOfDelete | App.tsx:104-108 | Deleting and then picking widgets equals picking widgets and then deleting. |
| Scenarios.OneSecondShortOfAYear | utils/time.ts:20-48 | From January 15th to one second before the next January 15th: 0 years, 11 months and 30 days, rendered `11mo 30d`. |
| Scenarios.ExactlyOneYear | utils/time.ts:20-36 | On the first anniversary (a start day of 15): 1 year and 0 yearly days, rendered `1Y 0d`. |
| Scenarios.NineteenDays | utils/time.ts:16-87 | From midnight on the 1st to midnight on the 20th of the same month: 19 whole days, 456 hours and 27360 minutes. This renders `19d 00:00:00`, `19d` and `456h`. |
| Scenarios.RenderNineteenDays | utils/time.ts:67-87 | A 19-day breakdown renders as `19d 00:00:00` in `full`, `19d` in `days` and `456h` in `total-hours`. |
| Scenarios.OneMonthNineDays | utils/time.ts:39-48 | From the 1st of a month to the 10th of the next, across a year end too: 1 month and 9 days, rendered `1mo 9d`. |
| Scenarios.TwoYearsFourDays | utils/time.ts:20-36 | From the 1st of a month to the 5th of that month two years later: 2 years and 4 yearly days, whatever leap days lie between, rendered `2Y 4d`. |
| Scenarios.NegativeDaysRendering | utils/time.ts:43-82 | From January 31st to March 1st the full format shows `1mo -2d`, which reads back as one month and -2 days. |
| Scenarios.RenderingExamples | utils/time.ts:65-88 | The not-started breakdown renders `0d 00:00:00` in `full` and `0h 0m` in `hm`. Clock fields are zero-padded (`0d 01:02:03`). Sample `hm`, `total-hours` and `days` outputs (`30h 7m`, `72h`, `5d`) follow their templates. |

## Left out

- Parsing `startDateStr` with `new Date` (utils/time.ts:5) is not modelled. The model takes already-parsed civil date-times. Invalid dates (NaN time values) are out of scope.
- The clock read by `new Date()` (utils/time.ts:6) is a parameter.
- Local time zone and daylight saving are not modelled: the calendar is one fixed offset. Under daylight saving, `setMonth`/`setFullYear` and the elapsed milliseconds can differ by the offset change.
- The ECMA-262 time-value range limit (TimeClip, ±8.64e15 ms) is not modelled: instants are unbounded.
- Floating point is not modelled. Time values are integers, so every `Math.floor(x / unit)` is written as Dafny's `/` by a positive divisor, which is floor division for negative `x` too (as for `days`, utils/time.ts:48). `Math.floor((x / unit) % n)` is written as the remainder of that floor, which agrees for the non-negative durations it is applied to.
- Decimal.IntToString: does not model JavaScript's exponent notation for magnitudes of 1e21 and above, which no elapsed count reaches.
- Display.RelativeColor: does not model names inherited from `Object.prototype` (such as `toString` or `constructor`). `colors[color]` would return a function for those, and the class string would be that function. The model gives them the fallback class.
- The guard object omits `daysSinceYearlyAnniversary` (utils/time.ts:9-13). The model represents it as absent and renders it as `undefined`. The full format never reaches that field when `years` is 0.
- `addCounter`'s `crypto.randomUUID()` and `new Date().toISOString()` (App.tsx:92, 95) are parameters of `Counters.AddCounter`.
- `deleteCounter`'s `confirm` dialog (App.tsx:105) is not modelled: `Counters.Delete` is the confirmed branch, and a declined dialog leaves the list as it was.
- Reading the import file, `JSON.parse`, the `Array.isArray` check and the alerts (App.tsx:71-87) are not modelled. `Counters.ImportMerge` takes the parsed array and assumes its elements are counters. A `null` element, which makes `i.id` throw into the error alert, is out of scope.
- Counters.Update: a patch that sets a required field explicitly to `undefined` is not modelled. A patch field is either absent or a value of the field's type.
- `handleDragStart` and `handleDragOver` (App.tsx:114-115) only set the drag id and call `preventDefault`. The drag id is the `dragged` parameter of `Counters.Drop`.
- Persistence to `localStorage`, JSON export, React rendering and everything under `components/` are not modelled.

## Findings

| source | as written | input that shows it | evidently intended | confidence | as-written member | corrected member |
|---|---|---|---|---|---|---|
| utils/time.ts:43-48 | The month count is walked back once when the month anniversary is after now, and `days` is taken from whatever anniversary that gives. | start 2023-01-31T00:00, now 2023-03-01T00:00: `months` is 1, the "February 31st" anniversary rolls over to 2023-03-03, and `days` is -2. A full-format counter then shows `1mo -2d` (`Scenarios.NegativeDaysRendering`). | Keep walking back until the anniversary is not after now (here `months` 0, `days` 29), so `days` is never negative. | not executed | Elapsed.NegativeDaysWitness | Elapsed.IntendedMonthlyAnniversary |
