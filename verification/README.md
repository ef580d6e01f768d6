# School-bell controller core, in Dafny

A model of the scheduling core of a simulated school-bell controller (an
Arduino/DS3231 bell shown in a web page). Given the current wall-clock
timestamp, the core decides whether the day is a school day ("lectivo"),
whether a scheduled bell rings at this instant, what the 16x2 character
display shows, and which rows of the schedule are still to come
("Pendiente") or already past ("Pasado"). The relay is a two-state machine,
Idle and Ringing, that returns to Idle when its reset timer fires.

Modules, one per source file plus two support modules:

- `Types` (types.ts): bell events, holiday ranges, single holidays, and a
  timestamp record `(year, month0, day, hour, minute, second, ms)` whose field
  ranges are those of a normalised `Date`.
- `Calendar`: leap years, month lengths, the day count since 1970-01-01 and
  the weekday `Date.getDay` reports (0 = Sunday), computed from the date.
- `JsString`: the JavaScript built-ins the display uses: `String(n)`,
  `padStart`, `padEnd` and `substring`.
- `Constants` (constants.ts): the schedule, the holiday tables and the ring
  duration, with their well-formedness facts.
- `BellLogic` (utils/bellLogic.ts): `isDateInRange`, `isNonSchoolDay`, `formatTime`.
- `LcdSimulator` (components/LCDSimulator.tsx): the pad-then-cut line normaliser.
- `App` (App.tsx): the tick handler, `triggerBell`, the reset timer, the two
  LCD lines and the row status.

The current time is a parameter of every operation. The one-second interval,
the manual button and the reset timer are events of the relay machine
(`App.Step`).

## Model

| member | source | states |
|---|---|---|
| `Calendar.WeekdayAdvances` | utils/bellLogic.ts:12 | the weekday computed from the date moves Sunday, Monday, ..., Saturday, Sunday from each valid date to the next |
| `Calendar.NextDateIsOneDayLater` | utils/bellLogic.ts:12 | the day count behind `getDay` grows by exactly one per calendar day, across month, February and year ends |
| `Calendar.Weekday` | utils/bellLogic.ts:12 | `getDay`: a weekday number from 0 (Sunday) to 6 (Saturday), computed from the date; `Calendar.EpochIsThursday` and `Calendar.WeekdayAdvances` pin it to the calendar |
| `Calendar.EpochIsThursday` | utils/bellLogic.ts:12 | the day count is anchored at 1970-01-01, a Thursday (weekday 4) |
| `Calendar.MarchYearLength` | utils/bellLogic.ts:12 | a year ending in February has 366 days exactly when that February is a leap February |
| `BellLogic.IsDateInRange` | utils/bellLogic.ts:4-9 | true exactly when the date of `now` lies between the dates of `start` and `end`, both inclusive; the times of day of `start` and `end` do not matter |
| `BellLogic.StartOfDay` | utils/bellLogic.ts:6 | the normalised start keeps the date and is no later than any instant of that date |
| `BellLogic.EndOfDay` | utils/bellLogic.ts:7 | the normalised end keeps the date and is no earlier than any instant of that date |
| `BellLogic.InAnyRange` | utils/bellLogic.ts:21-23 | the early-returning loop over holiday ranges is true exactly when some range holds `now` |
| `BellLogic.OnAnyHoliday` | utils/bellLogic.ts:26-28 | the early-returning loop over single holidays is true exactly when day, zero-based month and year equal some entry |
| `BellLogic.IsNonSchoolDayWith` | utils/bellLogic.ts:11-31 | non-school exactly when weekend, in some range, or on some listed date; school day exactly when none of the three holds |
| `BellLogic.IsNonSchoolDay` | utils/bellLogic.ts:11-31 | over the configured tables: non-school exactly when weekend, when the date lies inside one of the holiday ranges, or when it is one of the listed dates |
| `BellLogic.WeekendIsNonSchool` | utils/bellLogic.ts:17-18 | weekday 0 or 6 is non-school whatever the tables hold |
| `BellLogic.HolidayRangeIsNonSchool` | utils/bellLogic.ts:21-23 | any instant whose date lies in a configured range is non-school |
| `BellLogic.SpecificHolidayIsNonSchool` | utils/bellLogic.ts:26-28 | any instant on a configured single holiday (zero-based month) is non-school |
| `BellLogic.ClassificationIgnoresTimeOfDay` | utils/bellLogic.ts:12-15 | two instants on the same date are classified alike |
| `BellLogic.HispanidadIsNonSchool` | constants.ts:22 | 2025-10-12 is a Sunday and non-school |
| `BellLogic.ChristmasEveIsNonSchool` | constants.ts:16 | 2025-12-24 lies in the Christmas range and is non-school |
| `BellLogic.OrdinaryTuesdayIsSchool` | utils/bellLogic.ts:30 | 2025-10-14, a Tuesday in no range and on no listed date, is a school day |
| `BellLogic.InmaculadaIsNonSchool` | constants.ts:27 | 2025-12-08, a Monday, is non-school |
| `BellLogic.DayAfterInmaculadaIsSchool` | constants.ts:26-27 | 2025-12-09, the day after a single holiday, is a school day again |
| `BellLogic.TwoDigitsRoundTrip` | utils/bellLogic.ts:34-36 | below 100, `String(n).padStart(2,'0')` is two digits that read back as `n` |
| `BellLogic.FormatTime` | utils/bellLogic.ts:33-38 | eight characters, colons at 2 and 5, and the three two-digit fields read back as hour, minute and second |
| `BellLogic.FormatTimeDeterminesClock` | utils/bellLogic.ts:33-38 | two instants print the same time exactly when their hour, minute and second agree |
| `BellLogic.FormatTimeExample` | utils/bellLogic.ts:33-38 | 07:05:09 prints as `07:05:09` |
| `JsString.DecimalString` | utils/bellLogic.ts:34 | `String(n)` is a digit string without leading zero that reads back as `n`, one digit below 10 and two from 10 to 99 |
| `JsString.PadStart` | utils/bellLogic.ts:34-36 | `padStart`: a string at least as wide is unchanged; a shorter one is filled on the left to the width and ends with the original |
| `JsString.PadEnd` | components/LCDSimulator.tsx:11 | `padEnd`: the original comes first, followed by filler up to the width; a string at least as wide is unchanged |
| `JsString.Substring` | App.tsx:46 | `substring`: with indices in order and in range, the slice between them; an end past the string stops at its end |
| `Constants.ScheduleIsWellFormed` | constants.ts:4-13 | the schedule is non-empty, every time is in range and the entries increase strictly by (hour, minute) |
| `Constants.AdjacentOrderIsTotal` | constants.ts:4-13 | a schedule ordered between neighbours is ordered between any two entries |
| `Constants.ScheduleMinutesDistinct` | constants.ts:4-13 | no two entries share an (hour, minute) |
| `Constants.RangesAreWellFormed` | constants.ts:15-19 | every range has valid dates with start not after end; the ranges are disjoint and in chronological order |
| `Constants.SpecificHolidaysAreWellFormed` | constants.ts:21-31 | every single holiday is a valid date with a zero-based month, and no date is listed twice |
| `Constants.SpecificHolidaysOutsideRanges` | constants.ts:15-31 | no single holiday falls inside a holiday range |
| `Constants.BellDurationPositive` | constants.ts:33 | the ring lasts a positive time |
| `LcdSimulator.NormalizeLine` | components/LCDSimulator.tsx:11-12 | always 16 characters: a short line followed by spaces up to 16, a long line cut to its first 16 |
| `LcdSimulator.NormalizeKeepsPrefix` | components/LCDSimulator.tsx:11-12 | the first min(length, 16) characters are shown unchanged |
| `LcdSimulator.NormalizeIdempotent` | components/LCDSimulator.tsx:11-12 | normalising a normalised line changes nothing |
| `LcdSimulator.NormalizeExamples` | components/LCDSimulator.tsx:11-12 | `LECTIVO` gains nine spaces; a 20-character line keeps its first 16 |
| `App.FindTrigger` | App.tsx:23-25 | none exactly when no entry matches `h:m` at second 0; otherwise the first matching entry |
| `App.TriggerIsUnique` | App.tsx:23-25 | in an ordered schedule a trigger exists exactly at second 0 of a listed minute, and at most one entry matches |
| `App.TriggerExamples` | App.tsx:23-25 | 08:30:00 finds "Entrada"; 08:30:01 and 08:31:00 find nothing |
| `App.OnTick` | App.tsx:18-29 | from Idle the handler runs `triggerBell` (ring and start the reset timer) exactly when the day is a school day, the second is 0 and the minute is scheduled; a ringing relay and a non-ringing instant change nothing |
| `App.TriggerBell` | App.tsx:36-42 | `triggerBell` while ringing changes nothing; from Idle it rings and starts one more reset timer |
| `App.ResetFires` | App.tsx:39-41 | the reset timer's callback turns the relay off and retires that timer; with no timer pending nothing happens |
| `App.RingCycle` | App.tsx:36-42 | `triggerBell` from Idle rings with one reset pending, a second `triggerBell` changes nothing, and the reset returns the relay to where it was |
| `App.RunKeepsConsistent` | App.tsx:12-42 | whatever the sequence of ticks, button presses and resets, one reset is pending while ringing and none while idle, so rings never overlap |
| `App.StepKeepsConsistent` | App.tsx:36-42 | each single event keeps that invariant |
| `App.NoRingOnHispanidad` | App.tsx:18 | at 2025-10-12 09:20:00 an entry matches but the non-school day suppresses the ring |
| `App.RingOnSchoolMorning` | App.tsx:18-29 | at 2025-10-14 08:30:00 the idle relay starts ringing |
| `App.LcdLine1` | App.tsx:45-46 | `HORA ` then two hour digits, a colon and two minute digits that read back as the hour and minute: ten characters |
| `App.LcdLine2` | App.tsx:44-47 | fourteen characters: `LECTIVO` on a school day, `NO LECTIVO` otherwise, then spaces |
| `App.Display` | components/LCDSimulator.tsx:11-12 | both shown lines are 16 characters: line 1 plus six spaces, line 2 plus two |
| `App.IsUpcoming` | App.tsx:114 | a row with a valid minute is upcoming exactly when its minute of the day is later than now's; at the bell's own minute it is past |
| `App.UpcomingIsMonotone` | App.tsx:111-114 | in an ordered schedule, a row after an upcoming row is upcoming too |
| `App.RowsAtTrigger` | App.tsx:111-114 | at the instant an entry rings, exactly the rows after it are upcoming |

## Left out

- Rendering: JSX, styles, icons and the static explanatory text of App.tsx and LCDSimulator.tsx are presentation.
- The `uppercase` style of the display is a CSS class, not a string operation, so the lines are modelled in the case the code writes them.
- Timers: `setInterval`, `setTimeout` and the effect re-subscription are replaced by the events of `App.Step`; missed or late ticks and drift belong to the host scheduler.
- `Date` internals: epoch milliseconds, the local time zone and daylight-saving effects of `setHours` are not modelled. Instants are ordered by date and then time of day (`BellLogic.InstantLe`), which is the order of normalised `Date` values.
- The holiday tables are the configured ones only; `BellLogic.IsNonSchoolDayWith` takes them as parameters so that the classifier is stated for any tables.
- Strings are sequences of Unicode scalar values, while JavaScript's `length`, `padEnd` and `substring` count UTF-16 code units. The two agree on the ASCII lines App.tsx writes; a line with characters outside the Basic Multilingual Plane would be padded and cut differently.
- The `label` field of a bell entry is named `activity`, because `label` is a reserved word in Dafny.

## Notes on the code

- `App.LcdLine2` is 14 characters, as App.tsx:47 writes it; `LcdSimulator.NormalizeLine` pads it to 16, as `App.Display` states.
- Trigger detection is inline in the tick handler as `BELL_SCHEDULE.find` (App.tsx:23-25); `App.FindTrigger` models that search and `App.OnTick` the handler around it.
