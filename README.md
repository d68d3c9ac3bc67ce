# Julian Date conversion of the moment plug-in, in Dafny

This project models the two conversions in `src/lib/moment/juliandate.js`, which follow
the Julian Period algorithm of Claus Tøndering's Calendar FAQ:

- `toJD` turns the accessor values of a date-time into a Julian Date. It first shifts a
  negative year up by one. It rejects the ten days the Gregorian reform dropped
  (1582-10-05 .. 1582-10-14). It then picks the Julian or the Gregorian day count by a
  decimal-year estimate, and adds the time since noon in UTC. Only the Gregorian branch
  counts milliseconds.
- `fromJD` turns a Julian Date into the fields it hands to a UTC date-time's setters (the
  month 1-based, the month setter receiving it less one). It
  picks the inversion by the size of the Julian Date and inverts the day count with floor
  arithmetic. It splits the fractional day into noon, the exact midnight (day + 1) and the
  other hours. Finally it lowers years up to 0 by one.

Both are pure, so the model is datatypes, functions and lemmas:

- `JsArith` holds the JavaScript number operations the code uses, over exact rationals:
  `Math.floor`, the truncating `%` and `toFixed(0)`.
- `JulianDate` holds the conversions as written. A date-time's accessor values are a
  `DateInput`. `toJD` is `ToJD`, which returns `Option<real>` with `None` for the gap.
  `fromJD` is `FromJD`, which returns the provisional `Fields` before the setters run.
  It also holds the corrected variants `FromJDFixed` and `ToJDReformAware` (see Findings).
- `DayClock` reads an instant as a civil UTC day number and seconds since its midnight.
- `SplitDayProofs` proves what the time-of-day split computes. Its result is the civil day
  holding the instant, the whole seconds since midnight as hour, minute and second, and
  the rounded milliseconds left over.
- `JulianDateProofs` holds the rest:
  - the regime facts and known values;
  - successor lemmas for both day counts and for the historical calendar across the reform;
  - the inversion theorems (the fields fromJD computes denote the instant it was given);
  - worked examples;
  - round trips in both directions.

The conversion is meant to round-trip every date-time outside the gap to the
millisecond. As written it does not, and the model follows the code:

- The Julian branch drops milliseconds.
- The decimal-year estimate misplaces dates around the reform.
- The Gregorian inversion is off by one day on the mornings of March 1 in some century years.
- The provisional day can lie outside its month; the date-time's setters carry it over.

The round trips below are therefore stated per calendar range, against the corrected
inversion where the written one is wrong. Where they promise a date "with the same day
number", `DayNumberInjective` makes that the same date whenever both are valid dates of
that calendar.

## Model

| member | source | states |
|---|---|---|
| JsArith.ToFixed0 | src/lib/moment/juliandate.js:117 | toFixed(0) read back as a number is within half a unit of its argument, halves rounding away from zero, and is not negative for a non-negative argument |
| JsArith.Trunc | src/lib/moment/juliandate.js:98-117 | the truncation inside `%` rounds toward zero: it is the floor for a non-negative argument and the ceiling for a negative one |
| JsArith.JsRem | src/lib/moment/juliandate.js:98-117 | no contract of its own; RemOneIsFrac, WholeRemSixty and RemSixtyResidual state what `% 1` and `% 60` compute where the conversion uses them |
| JsArith.RemOneIsFrac | src/lib/moment/juliandate.js:98 | for a non-negative value, `% 1` is its fractional part |
| JsArith.WholeRemSixty | src/lib/moment/juliandate.js:115-116 | `(x - x % 1) % 60` is the whole part of x modulo 60, for x not negative |
| JsArith.RemSixtyResidual | src/lib/moment/juliandate.js:117 | `x % 60` less the whole seconds modulo 60 is the fractional part of x |
| JulianDate.FormulaYear | src/lib/moment/juliandate.js:12 | no contract of its own; EncodeYear and JulianDateProofs.YearShiftsRoundTrip state that it undoes the output shift and that it is undone by it except at year 0 |
| JulianDate.InReformGap | src/lib/moment/juliandate.js:15 | no contract of its own; ToJD's contract states that it is exactly the case where toJD gives no Julian Date |
| JulianDate.DecimalYear | src/lib/moment/juliandate.js:21-24 | no contract of its own; JulianDateProofs.JulianUpTo1580, GregorianFrom1583, ReformBoundaryDates and ProxyBreaksDayOrder state where the estimate falls |
| JulianDate.UsesJulianCalendar | src/lib/moment/juliandate.js:21-25 | no contract of its own; the same lemmas state which dates take the Julian count: all up to 1580, none from 1583, and some Gregorian ones of 1581 and 1582 |
| JulianDate.MarchShift | src/lib/moment/juliandate.js:27 | no contract of its own; JulianDateProofs.PlacedInYear and MarchYearUnique state that it moves January and February into the March-based year that holds their day number |
| JulianDate.MonthTerm | src/lib/moment/juliandate.js:29-31 | no contract of its own; JulianDateProofs.PlacedInYear and DateOfDayOfMarchYear state that month term plus date is the day of the March-based year and determines the date |
| JulianDate.JulianDayNumber | src/lib/moment/juliandate.js:27-34 | no contract of its own; JulianDateProofs.JulianNextDay, DayNumberInjective, JulianInversion and KnownValues state that it numbers Julian dates consecutively and one to one, and that fromJD inverts it |
| JulianDate.GregorianDayNumber | src/lib/moment/juliandate.js:42-51 | no contract of its own; JulianDateProofs.GregorianNextDay, DayNumberInjective, GregorianInversion and KnownValues state the same for Gregorian dates |
| JulianDate.UtcHour | src/lib/moment/juliandate.js:37 | no contract of its own; JulianDateProofs.ToJDHonoursOffset states that a local hour at an offset of k minutes counts as the UTC hour k minutes earlier |
| JulianDate.JulianTimeOfDay | src/lib/moment/juliandate.js:35-39 | no contract of its own; JulianDateProofs.ToJDPlacesInstant and MillisecondsOnlyGregorian state that it is the time since noon in whole seconds, ignoring milliseconds |
| JulianDate.GregorianTimeOfDay | src/lib/moment/juliandate.js:52-56 | no contract of its own; JulianDateProofs.ToJDPlacesInstant and MillisecondsOnlyGregorian state that it is the time since noon, milliseconds included |
| JulianDate.EncodeYear | src/lib/moment/juliandate.js:162 | the reported year is never 0, positive years are kept, and the input shift of line 12 undoes it |
| JulianDate.ToJD | src/lib/moment/juliandate.js:12-59 | toJD gives no Julian Date exactly for the ten dates 1582-10-05 .. 1582-10-14 |
| JulianDate.JulianSplit | src/lib/moment/juliandate.js:81-84 | no contract of its own; RestBounds and JulianDateProofs.JulianInversion state that its rest feeds an inversion that undoes the Julian count |
| JulianDate.GregorianSplit | src/lib/moment/juliandate.js:85-89 | no contract of its own; JulianDateProofs.SplitAgreesWhenRestNonNegative, GregorianInversion and CenturyMidnightOffByOne state when it inverts the Gregorian count and where its rest goes negative |
| JulianDate.RestBounds | src/lib/moment/juliandate.js:91-92 | what remains after the whole four-year cycles lies between 0 and 366 days |
| JulianDate.CivilFromSplit | src/lib/moment/juliandate.js:91-96 | the inverted month lies in 1..12 and the fractional day in [0.2, 31.6) |
| JulianDate.SplitDay | src/lib/moment/juliandate.js:98-131 | no contract of its own; SplitDayRanges and SplitDayProofs.SplitDayIsClockTime state what it computes: the field ranges, and the civil day and clock time of the instant |
| JulianDate.SplitDayRanges | src/lib/moment/juliandate.js:98-131 | hour 0..23, minute and second 0..59, millisecond 0..1000, and the day is the floor of the fractional day or one more |
| JulianDate.FieldsFromSplit | src/lib/moment/juliandate.js:91-131 | the provisional fields have month 1..12, year not 0, day 0..32 and the time ranges above |
| JulianDate.FromJD | src/lib/moment/juliandate.js:62-162 | fromJD's provisional fields lie in those ranges for every Julian Date |
| JulianDate.GregorianSplitFixed | src/lib/moment/juliandate.js:86-89 | the corrected century split leaves a rest within one Gregorian century, 0 to 36525 days |
| JulianDate.FromJDFixed | src/lib/moment/juliandate.js:81-96 | the corrected fromJD keeps the same field ranges |
| JulianDate.ToJDReformAware | src/lib/moment/juliandate.js:15-56 | the corrected toJD rejects exactly the same ten gap dates |
| DayClock.SecondsOfDay | src/lib/moment/juliandate.js:35-39 | the seconds elapsed since the civil day's midnight lie in [0, 86400) |
| DayClock.ClockOfShift | src/lib/moment/juliandate.js:91-96 | moving an instant back k whole days lowers its civil day by k and keeps its clock time |
| SplitDayProofs.NoonAndMidnight | src/lib/moment/juliandate.js:98-108 | a whole fractional day is 12:00:00.000 of that day; a half is 00:00:00.000 of the next day |
| SplitDayProofs.AfternoonAndMorning | src/lib/moment/juliandate.js:110-123 | below a half the hour is 12..23 on the same day, above it 0..11 on the next; minute and second 0..59, millisecond 0..1000 |
| SplitDayProofs.ClockOfFraction | src/lib/moment/juliandate.js:110-117 | hour, minute and second of a fraction are the whole seconds of the fraction divided into hours, minutes and seconds, and the residual is the sub-second fraction |
| SplitDayProofs.SplitDayHalf | src/lib/moment/juliandate.js:110-123 | off noon and midnight, the split is the clock reading of the instant |
| SplitDayProofs.SplitDayNoon | src/lib/moment/juliandate.js:125-131 | a whole fractional day is the clock reading of noon of that civil day |
| SplitDayProofs.SplitDayMidnight | src/lib/moment/juliandate.js:102-108 | the fractional day n - 1/2 gives 00:00:00.000 of day n |
| SplitDayProofs.SplitDayIsClockTime | src/lib/moment/juliandate.js:98-131 | for every positive fractional day, the split gives the civil day holding it, the whole seconds since its midnight and the rounded milliseconds left over |
| JulianDateProofs.YearShiftsRoundTrip | src/lib/moment/juliandate.js:12 | the output shift undoes the input shift for every year but 0, which comes back as -1; the input shift undoes the output shift |
| JulianDateProofs.JulianUpTo1580 | src/lib/moment/juliandate.js:21-26 | every valid date of a year up to 1580 takes the Julian count |
| JulianDateProofs.GregorianFrom1583 | src/lib/moment/juliandate.js:21-25 | every date from 1583 on takes the Gregorian count |
| JulianDateProofs.ReformBoundaryDates | src/lib/moment/juliandate.js:19-25 | 1582-10-04 is Julian and 1582-10-15 Gregorian under the decimal-year estimate |
| JulianDateProofs.KnownValues | src/lib/moment/juliandate.js:27-56 | 1582-10-15 00:00 UTC is 2299160.5, 1582-10-04 00:00 UTC is 2299159.5, and 2000-01-01 00:00 UTC is 2451544.5 |
| JulianDateProofs.ToJDPlacesInstant | src/lib/moment/juliandate.js:35-39 | toJD of a valid UTC time lies in the civil day of the day count, at the clock time since midnight; milliseconds count only on the Gregorian branch |
| JulianDateProofs.ToJDHonoursOffset | src/lib/moment/juliandate.js:37 | a local time at an offset of k minutes gives the UTC Julian Date less k minutes |
| JulianDateProofs.MillisecondsOnlyGregorian | src/lib/moment/juliandate.js:52-56 | changing the milliseconds moves the Gregorian result by that many milliseconds and leaves the Julian one unchanged |
| JulianDateProofs.LeapStep | src/lib/moment/juliandate.js:28-51 | the year terms of each count grow by that calendar's leap day when the March-based year advances |
| JulianDateProofs.JulianMonthEnd | src/lib/moment/juliandate.js:27-34 | the last day of every Julian month and the next day get consecutive day numbers |
| JulianDateProofs.GregorianMonthEnd | src/lib/moment/juliandate.js:42-51 | the last day of every Gregorian month and the next day get consecutive day numbers |
| JulianDateProofs.GregorianFebruaryEnd | src/lib/moment/juliandate.js:42-51 | the last of February and March 1 are consecutive in the Gregorian count, leap year or not |
| JulianDateProofs.JulianNextDay | src/lib/moment/juliandate.js:27-34 | a Julian-calendar date and the next one get consecutive Julian day numbers |
| JulianDateProofs.GregorianNextDay | src/lib/moment/juliandate.js:42-51 | a Gregorian-calendar date and the next one get consecutive Gregorian day numbers |
| JulianDateProofs.YearStartIncreasing | src/lib/moment/juliandate.js:28-51 | the count of the day before March 1 grows strictly with the March-based year, in both counts |
| JulianDateProofs.PlacedInYear | src/lib/moment/juliandate.js:27-51 | a valid date's day number lies in its own March-based year, at the month term plus the date |
| JulianDateProofs.MarchYearUnique | src/lib/moment/juliandate.js:27-51 | no other March-based year holds a valid date's day number |
| JulianDateProofs.DayNumberInjective | src/lib/moment/juliandate.js:27-51 | two valid dates of one calendar with the same day number are the same date |
| JulianDateProofs.NextReformDateValid | src/lib/moment/juliandate.js:15-25 | the day after a valid date of the historical calendar is valid, in the same count except from 1582-10-04 |
| JulianDateProofs.ReformDayNumberConsecutive | src/lib/moment/juliandate.js:15-51 | the historical count, Julian before the reform and Gregorian after, numbers consecutive days, 1582-10-04 to 1582-10-15 included |
| JulianDateProofs.ReformAwareCountsConsecutively | src/lib/moment/juliandate.js:15-56 | the corrected toJD advances by exactly one day from each date to the next at the same UTC time |
| JulianDateProofs.ProxyBreaksDayOrder | src/lib/moment/juliandate.js:21-25 | the decimal-year estimate sends 1581-12-31 and 1582-01-29 to the Gregorian count, and toJD of 1581-12-31 lies nine days before that of 1581-12-30 |
| JulianDateProofs.ProxyMisplacesSomeDate | src/lib/moment/juliandate.js:21-25 | some date before 1582-10-05 takes the Gregorian count, and toJD then differs from the reform-aware count |
| JulianDateProofs.CivilShape | src/lib/moment/juliandate.js:91-96 | the inversion's month index is 0..11, and year and month give back the March-based year and month it computed |
| JulianDateProofs.JulianInversion | src/lib/moment/juliandate.js:81-96 | the Julian inversion undoes the Julian day count, fraction of the day included |
| JulianDateProofs.GregorianInversion | src/lib/moment/juliandate.js:86-96 | the Gregorian inversion undoes the Gregorian day count whenever the century split leaves a rest within a century |
| JulianDateProofs.SplitAgreesWhenRestNonNegative | src/lib/moment/juliandate.js:87-89 | wherever the split as written leaves a rest that is not negative, it equals the corrected split |
| JulianDateProofs.FieldsDenoteInstant | src/lib/moment/juliandate.js:91-131 | the provisional fields of such a split name the civil day of the instant and its clock time to the rounded millisecond |
| JulianDateProofs.PiecesDenoteInstant | src/lib/moment/juliandate.js:94-131 | fields made of a civil date lying whole days after jd and of the clock reading of its fractional day denote jd: day count, whole seconds and rounded milliseconds |
| JulianDateProofs.FromJDFixedDenotesInstant | src/lib/moment/juliandate.js:81-131 | for every Julian Date, the corrected fromJD's day count is the civil day of the instant and its clock fields the time since midnight |
| JulianDateProofs.FromJDAgreesWithFixed | src/lib/moment/juliandate.js:81-90 | fromJD as written equals the corrected one on the Julian branch and wherever its rest is not negative |
| JulianDateProofs.FromJDDenotesInstant | src/lib/moment/juliandate.js:81-131 | fromJD as written denotes the instant under those conditions |
| JulianDateProofs.DocumentedExample | src/lib/moment/juliandate.js:68-72 | 2299159.1414699075 gives year 1582 and hour 15 (1582-10-03, Julian) |
| JulianDateProofs.J2000Noon | src/lib/moment/juliandate.js:125-131 | 2451545.0 gives 2000-01-01 12:00:00.000 |
| JulianDateProofs.LeapDayOverflow | src/lib/moment/juliandate.js:91-96 | 2451970.0 gives the provisional 2001-02-29, which the Gregorian count places on 2001-03-01 |
| JulianDateProofs.DayZero | src/lib/moment/juliandate.js:91-94 | 2086398.3 gives the provisional day 0 of April 1000, the same day as 1000-03-31 |
| JulianDateProofs.CenturyMidnightOffByOne | src/lib/moment/juliandate.js:87-89 | at 1700-03-01 00:00 UTC (2342031.5) the split as written leaves a rest of -1/2 and names 1700-02-30, one day late; the corrected split names 1700-02-29, which is 1700-03-01 |
| JulianDateProofs.WrittenSplitLeavesCentury | src/lib/moment/juliandate.js:87-89 | some Julian Date on the Gregorian branch gets a negative rest from the split as written, and fromJD then differs from the corrected one |
| JulianDateProofs.CenturyMorningOffByOne | src/lib/moment/juliandate.js:87-89 | at 1700-03-01 06:00 UTC (2342031.75) the split as written leaves a rest of -1/4 and names 1700-02-30 06:00, against the corrected 1700-02-29 06:00; at 1800-03-01 06:00 (2378555.75) the rest is -1/4 too |
| JulianDateProofs.LeapCenturyMidnightAgrees | src/lib/moment/juliandate.js:87-96 | at 2000-03-01 00:00 UTC (2451604.5) the written rest is negative, yet fromJD names 2000-02-30, as the corrected one does, which is 2000-03-01 in the leap year 2000 |
| JulianDateProofs.FixedReadsClock | src/lib/moment/juliandate.js:85-131 | on the Gregorian branch, an instant with a known civil day and clock time reads back as exactly those fields |
| JulianDateProofs.JulianReadsClock | src/lib/moment/juliandate.js:81-131 | on the Julian branch, an instant at a whole second reads back as exactly its day and clock time |
| JulianDateProofs.GregorianRoundTrip | src/lib/moment/juliandate.js:40-56 | a valid UTC date-time from 1583 on comes back through toJD and the corrected fromJD with the same time to the millisecond, on a date with the same Gregorian day number |
| JulianDateProofs.JulianRoundTrip | src/lib/moment/juliandate.js:25-39 | a valid UTC date-time up to 1580 comes back through toJD and fromJD with the same whole seconds, milliseconds 0, on a date with the same Julian day number |
| JulianDateProofs.FixedYearFrom1600 | src/lib/moment/juliandate.js:85-96 | from noon of 1600-03-01 on, the corrected fromJD's year is at least 1600 |
| JulianDateProofs.JulianYearUpTo1580 | src/lib/moment/juliandate.js:81-96 | before noon of 1580-03-01 (2298213), fromJD's year is at most 1580 |
| JulianDateProofs.GregorianFieldsBack | src/lib/moment/juliandate.js:42-56 | fields from 1600 on that name an instant to the rounded millisecond give back, through toJD, that instant to within half a millisecond |
| JulianDateProofs.GregorianRoundTripFromJD | src/lib/moment/juliandate.js:62-162 | from noon of 1600-03-01 on, toJD of the corrected fromJD's fields is the Julian Date to within half a millisecond |
| JulianDateProofs.JulianFieldsBack | src/lib/moment/juliandate.js:27-39 | Julian fields naming an instant's day and whole seconds give back, through toJD, the instant cut down to the whole second |
| JulianDateProofs.JulianRoundTripFromJD | src/lib/moment/juliandate.js:62-162 | before noon of 1580-03-01 (2298213), toJD of fromJD's fields is the Julian Date cut down to the whole second, for any month length from 28 days |

## Left out

- The diagnostic `console.log` for a gap date (line 17) is not modelled; its only effect on the result is the `undefined` return, which is the `None` of `ToJD`.
- The import of the date-time prototype (line 1) is not modelled. Neither is the construction of the UTC date-time by its setters (lines 153-160), since those belong to the external date-time type. That includes the carry-over of a day past the month's end (2001-02-29), of day 0 and of millisecond 1000. `FromJD` stops at the provisional fields.
- Line 162 reads the year back from the date-time after the setters have run. The model applies the year shift to the provisional year, so a carry-over into the next year is not seen by it.
- `toFixed(0)` returns a string that the millisecond setter coerces to a number; the model takes the number.
- Julian Dates are exact rationals, not IEEE-754 doubles, so rounding of the intermediate values is not modelled. The constant 1582.994623655914 is taken as that exact decimal.
- The accessors `daysInMonth()`, `utcOffset()` and the UTC flag are inputs of `DateInput`, not computed from a date.
- The commented-out carry-over code (lines 133-146), the commented-out log (line 165) and the alternative return (lines 177-184) are not live code and are not modelled.
- SplitDayProofs.SplitDayIsClockTime, SplitDayProofs.NoonAndMidnight, SplitDayProofs.AfternoonAndMorning: these require a positive fractional day. `JulianDate.CivilFromSplit` proves that fromJD only ever passes one of at least 0.2.
- JulianDate.FromJD: the day is bounded below by 0, not 1. The provisional day can be 0, as `JulianDateProofs.DayZero` shows for 2086398.3; the date-time's setters carry it back to the last day of the previous month.
- JulianDateProofs.GregorianRoundTrip, JulianDateProofs.JulianRoundTrip: these are stated for UTC inputs from 1583 and up to 1580. The decimal-year estimate misplaces dates of 1581 and 1582 (see Findings). `JulianDateProofs.ToJDHonoursOffset` relates other offsets to UTC. GregorianRoundTrip goes through the corrected `FromJDFixed`, since the written split is a day late on some century mornings (`CenturyMidnightOffByOne`, `CenturyMorningOffByOne`).
- JulianDateProofs.GregorianRoundTripFromJD: stated from noon of 1600-03-01 (2305508) on. The estimate already picks the Gregorian count from 1583; the later bound is a proof convenience: 1600-03-01 opens a 400-year Gregorian cycle, at century split 64, where the year bound of `FixedYearFrom1600` follows in one step. It uses the corrected inversion, since the written one is a day late on the mornings of March 1 in some century years.
- JulianDateProofs.FromJDDenotesInstant: its requires is stated on the rest of the written split, not on jd. The rest is negative on the mornings of March 1 in some century years: from midnight on 1700-03-01 (`CenturyMidnightOffByOne`), from 06:00 on 1800-03-01 (`CenturyMorningOffByOne`). It is also negative on some mornings where the written fromJD is still right, such as 2000-03-01 00:00 (`LeapCenturyMidnightAgrees`), and the lemma does not cover those.
- JulianDateProofs.JulianRoundTripFromJD: stated below 2298213, noon of 1580-03-01 in the Julian calendar. It needs a month length of at least 28 so that the decimal-year estimate of the fields stays Julian.
- JulianDateProofs.ReformAwareCountsConsecutively: requires milliseconds 0, because the Julian branch drops them and the two branches then disagree on the time of day.

## Findings

| source | as written | input that shows it | evidently intended | confidence | as-written member | corrected member |
|---|---|---|---|---|---|---|
| src/lib/moment/juliandate.js:87-89 | the century count b is computed from the fractional a = jd + 32044, and c = a - floor(146097 b / 4) can then be negative, on the mornings of March 1 in some century years | jd = 2342031.5, which toJD gives for 1700-03-01 00:00 UTC: c = -0.5, and fromJD names 1700-02-30 00:00, one day late; at 06:00 (2342031.75) it names 1700-02-30 06:00 | Tøndering's integer algorithm takes b from the whole part of a, giving c = 36523.5 and 1700-02-29 00:00, which is 1700-03-01 | not executed | JulianDateProofs.CenturyMidnightOffByOne | JulianDateProofs.FromJDFixedDenotesInstant |
| src/lib/moment/juliandate.js:21-25 | the Julian count is chosen when year + (month+1)/12 + date/daysInMonth < 1582.994623655914 | 1581-12-31 (31-day month) estimates as 1583.0 and takes the Gregorian count: 2298872.5, nine days before 1581-12-30's 2298881.5 | the Julian count for exactly the dates before 1582-10-05, so consecutive dates get consecutive Julian Dates | not executed | JulianDateProofs.ProxyBreaksDayOrder | JulianDateProofs.ReformAwareCountsConsecutively |

`JulianDate.FromJDFixed` is the corrected inversion; the Gregorian round trips use it.
`JulianDate.ToJDReformAware` is the corrected choice of count. `ToJD` keeps the estimate as
written, and its round trips are stated only where the estimate picks the right calendar.
