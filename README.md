# OmegaDate, modelled in Dafny

OmegaDate is a small Kotlin library for Android. Its class `OmegaDate` wraps a
single `java.util.Calendar` and offers chainable setters and adders, period
boundaries (start and end of day, week, month and year), ages, range and
weekday checks, differences in several units, and comparisons. The enum
`DaysOfWeek` names the seven weekdays with their `Calendar.DAY_OF_WEEK`
codes.

What the model covers:

- `JavaTypes` holds the JVM pieces the code relies on:
  - Kotlin's `Int` and `Long`;
  - the two's-complement wrap-around of `Long` subtraction and of `Int` addition;
  - Java's integer division, which truncates toward zero (this is what `TimeUnit` conversions use);
  - the exception an out-of-bounds array index raises.
- `Types` is the `DaysOfWeek` enum: its `dayOfWeek` codes, its declaration order (`values()`), and indexing into `values()`, which can fail.
- `GregorianCalendar` stands in for the JDK's `java.util.GregorianCalendar` in UTC:
  - the leap-year rule, and the conversion between civil dates and days since 1970-01-01;
  - lenient `computeTime` (`TimeOf`): out-of-range fields carry into the next larger field;
  - `computeFields` (`FieldsOf`);
  - `add(MONTH)` and `add(YEAR)`, which clamp the day to the target month;
  - `set(DAY_OF_WEEK)`, which stays inside the current week as the calendar's first day of week defines it.
- `OmegaDateSpec` gives, for each composite OmegaDate operation, the instant that its chain of Calendar calls produces. Lemmas then state what that instant is in calendar terms, such as:
  - the date and time of day it denotes;
  - how far it lies from the input;
  - the weekday it falls on.
- `OmegaDates.OmegaDate` is the class. It has two pieces of state:
  - `instant`: the wrapped Calendar's time.
  - `firstDayOfWeek`: the Calendar's first day of week, fixed by the locale.

  Each mutator changes `instant` and returns the receiver, as the Kotlin methods do. Each method's `ensures` gives the new instant in terms of the old one:
  - the adders of fixed units by plain arithmetic on milliseconds;
  - the field setters by the lenient `TimeOf` of the changed fields, and `setDayOfWeek`, `addMonth` and `addYears` by the matching `GregorianCalendar` function;
  - the composite operations (clearing the time, period boundaries) by an `OmegaDateSpec` function.

  Lemmas in `GregorianCalendar` and `OmegaDateSpec` then say what that instant is in calendar terms.

Calendar `set` calls are deferred: they only record fields, and the time is computed at the next read. So a chain such as `setYear(y).setMonth(m).setDayOfMonth(d)` inside one OmegaDate method resolves all its fields together. The model treats the chains in three ways:
- The field setters `setDate(d, m, y)` and `setTimeOfDay` compute `TimeOf(FieldsOf(t).(…changed fields…))` once.
- The month and year boundaries are defined step by step: first the time of day is cleared or filled, then the day is set. The lemmas `StartOfMonthResolvedTogether`, `EndOfMonthResolvedTogether`, `StartOfYearResolvedTogether` and `EndOfYearResolvedTogether` prove that this gives the same instant as resolving all the fields at once, as Calendar does. They agree because the time fields involved are in range.
- The week boundaries resolve `set(DAY_OF_WEEK)` on the instant whose time was already cleared or filled. This is the same instant as resolving all the fields together, because the day chosen depends only on the date. `StartOfWeekSpec` and `EndOfWeekSpec` state the result from the epoch day of `t` alone. `getEndOfWeek`'s final `add(DAY_OF_YEAR, 6)` is a separate step in the source as well, because `add` resolves the pending fields before it adds.

## Model

| member | source | states |
|---|---|---|
| `Types.DaysOfWeek.DayOfWeek` | omega_date/src/main/java/omega/com/omegadate/types/DaysOfWeek.kt:5-13 | each constant's code is a Calendar weekday code, 1 to 7 |
| `Types.DaysOfWeek.Ordinal` | omega_date/src/main/java/omega/com/omegadate/types/DaysOfWeek.kt:7-13 | the declaration position of the constant, which `values()` returns at that index |
| `Types.Values` | omega_date/src/main/java/omega/com/omegadate/types/DaysOfWeek.kt:7-13 | `values()` holds seven distinct constants |
| `Types.ValueAt` | omega_date/src/main/java/omega/com/omegadate/OmegaDate.kt:557 | `values()[i]` succeeds exactly for 0 ≤ i < 7, giving the constant with code i + 1; otherwise it fails with ArrayIndexOutOfBounds(i) |
| `Types.FromCode` | omega_date/src/main/java/omega/com/omegadate/types/DaysOfWeek.kt:5-13 | the constant carrying a given code |
| `Types.CodeIsOrdinalPlusOne` | omega_date/src/main/java/omega/com/omegadate/types/DaysOfWeek.kt:7-13 | SUNDAY..SATURDAY are declared in Calendar order: code = ordinal + 1 |
| `Types.ValuesInCalendarOrder` | omega_date/src/main/java/omega/com/omegadate/types/DaysOfWeek.kt:7-13 | the i-th value has code i + 1 |
| `Types.CodesDistinct` | omega_date/src/main/java/omega/com/omegadate/types/DaysOfWeek.kt:5-13 | distinct constants carry distinct codes |
| `Types.CodesCoverOneToSeven` | omega_date/src/main/java/omega/com/omegadate/types/DaysOfWeek.kt:5-13 | the set of codes is exactly {1, …, 7} |
| `Types.CodeRoundTrip` | omega_date/src/main/java/omega/com/omegadate/types/DaysOfWeek.kt:5-13 | code → constant → code and constant → code → constant are identities |
| `JavaTypes.WrapLong` | omega_date/src/main/java/omega/com/omegadate/OmegaDate.kt:660 | the Long result equals the exact value when it fits, and is congruent to it modulo 2^64 in general |
| `JavaTypes.WrapInt` | omega_date/src/main/java/omega/com/omegadate/OmegaDate.kt:469-472 | the Int result equals the exact value when it fits, and is congruent to it modulo 2^32 in general |
| `JavaTypes.TruncDiv` | omega_date/src/main/java/omega/com/omegadate/OmegaDate.kt:619-651 | the quotient rounds toward zero: quotient times divisor lies less than one divisor from the dividend, on the side of zero |
| `GregorianCalendar.DaysInMonth` | omega_date/src/main/java/omega/com/omegadate/OmegaDate.kt:285 | getActualMaximum(DAY_OF_MONTH) lies in 28..31 and is 29 exactly for February of a leap year |
| `GregorianCalendar.DaysBeforeMonthStep` | omega_date/src/main/java/omega/com/omegadate/OmegaDate.kt:220-227 | the cumulative day count before month m + 1 adds month m's length, and reaching month 12 gives the year's length |
| `GregorianCalendar.DaysBeforeYearStep` | omega_date/src/main/java/omega/com/omegadate/OmegaDate.kt:294 | consecutive January 1sts are one year length apart |
| `GregorianCalendar.DaysBeforeYearMonotone` | omega_date/src/main/java/omega/com/omegadate/OmegaDate.kt:294 | a later year starts at least 365 days after an earlier one (proof by induction) |
| `GregorianCalendar.DayOfYear` | omega_date/src/main/java/omega/com/omegadate/OmegaDate.kt:227 | DAY_OF_YEAR of a valid date lies in 1 to the year's length |
| `GregorianCalendar.YearFrom` | omega_date/src/main/java/omega/com/omegadate/OmegaDate.kt:294 | the year found is the one whose days contain the epoch day |
| `GregorianCalendar.MonthFrom` | omega_date/src/main/java/omega/com/omegadate/OmegaDate.kt:269 | the month found is the one whose days contain the day of the year |
| `GregorianCalendar.DateOfEpochDay` | omega_date/src/main/java/omega/com/omegadate/OmegaDate.kt:220-294 | computeFields' date is a valid date with exactly that epoch day |
| `GregorianCalendar.EpochDayWithinYear` | omega_date/src/main/java/omega/com/omegadate/OmegaDate.kt:294 | a valid date's epoch day lies inside its year |
| `GregorianCalendar.EpochDayWithinMonth` | omega_date/src/main/java/omega/com/omegadate/OmegaDate.kt:269 | a valid date's day of the year lies inside its month's share of the year |
| `GregorianCalendar.EpochDayInjective` | omega_date/src/main/java/omega/com/omegadate/OmegaDate.kt:220-294 | distinct valid dates have distinct epoch days |
| `GregorianCalendar.DateRoundTrip` | omega_date/src/main/java/omega/com/omegadate/OmegaDate.kt:220-294 | date → epoch day → date is the identity on valid dates from 1583 on |
| `GregorianCalendar.LenientAgreesOnValidDates` | omega_date/src/main/java/omega/com/omegadate/OmegaDate.kt:447-450 | lenient resolution of an in-range date is the plain day count |
| `GregorianCalendar.LenientDayRollsForward` | omega_date/src/main/java/omega/com/omegadate/OmegaDate.kt:447-450 | day dim + k of a month of dim days resolves as day k of the next month |
| `GregorianCalendar.Weekday` | omega_date/src/main/java/omega/com/omegadate/OmegaDate.kt:182 | DAY_OF_WEEK is a code 1..7 |
| `GregorianCalendar.WeekdayAnchors` | omega_date/src/main/java/omega/com/omegadate/OmegaDate.kt:182 | 1970-01-01 falls on THURSDAY (5) and 2000-01-01 on SATURDAY (7) |
| `GregorianCalendar.WeekdaySuccessor` | omega_date/src/main/java/omega/com/omegadate/OmegaDate.kt:182 | the weekday advances by one each day, from SATURDAY back to SUNDAY |
| `GregorianCalendar.WeekdayShift` | omega_date/src/main/java/omega/com/omegadate/OmegaDate.kt:458-461 | k days on, the weekday code has advanced by k modulo 7 |
| `GregorianCalendar.TimeOfDayRoundTrip` | omega_date/src/main/java/omega/com/omegadate/OmegaDate.kt:359-428 | in-range hour, minute, second and millisecond are recovered from their millisecond count |
| `GregorianCalendar.TimeOfSplit` | omega_date/src/main/java/omega/com/omegadate/OmegaDate.kt:111-136 | computeTime of valid fields falls on their date at their time of day |
| `GregorianCalendar.FieldsOf` | omega_date/src/main/java/omega/com/omegadate/OmegaDate.kt:182-294 | computeFields yields valid fields from which computeTime gives back the instant |
| `GregorianCalendar.FieldsRoundTrip` | omega_date/src/main/java/omega/com/omegadate/OmegaDate.kt:111-136 | fields → instant → fields is the identity on valid fields |
| `GregorianCalendar.AddMonthsSpec` | omega_date/src/main/java/omega/com/omegadate/OmegaDate.kt:469-472 | add(MONTH, n) moves to the month MONTH + n (that sum taken as a wrapping Int), which is n months on whenever the sum fits; it clamps the day to the target month's length and keeps the hour, minute, second and millisecond; the result reads back exactly |
| `GregorianCalendar.AddYearsSpec` | omega_date/src/main/java/omega/com/omegadate/OmegaDate.kt:491-494 | add(YEAR, n) keeps the month and moves the year; February 29 clamps to 28; the hour, minute, second and millisecond are kept; the result reads back exactly |
| `GregorianCalendar.WeekStartSpec` | omega_date/src/main/java/omega/com/omegadate/OmegaDate.kt:248-251 | the week start is 0 to 6 days back and falls on firstDayOfWeek |
| `GregorianCalendar.SetDayOfWeekSpec` | omega_date/src/main/java/omega/com/omegadate/OmegaDate.kt:191-194 | set(DAY_OF_WEEK, d) lands on the weekday congruent to d, in the same week, at the same time of day |
| `GregorianCalendar.OffsetInWeek` | omega_date/src/main/java/omega/com/omegadate/OmegaDate.kt:191-194 | the offset (d − firstDayOfWeek) mod 7 from the week start reaches weekday d without leaving the week |
| `OmegaDateSpec.StartOfDayIsMidnight` | omega_date/src/main/java/omega/com/omegadate/OmegaDate.kt:335-340 | clearTime leaves the first millisecond of the same day |
| `OmegaDateSpec.EndOfDayIsLastMillisecond` | omega_date/src/main/java/omega/com/omegadate/OmegaDate.kt:208-213 | getEndOfDay leaves the last millisecond of the same day |
| `OmegaDateSpec.StartOfDaySpec` | omega_date/src/main/java/omega/com/omegadate/OmegaDate.kt:335-340 | the start of day is at or before t and less than a day earlier; its fields are t's date at 00:00:00.000 |
| `OmegaDateSpec.EndOfDaySpec` | omega_date/src/main/java/omega/com/omegadate/OmegaDate.kt:208-213 | the end of day is at or after t and less than a day later; its fields are t's date at 23:59:59.999 |
| `OmegaDateSpec.StartOfWeekSpec` | omega_date/src/main/java/omega/com/omegadate/OmegaDate.kt:248-251 | the start of week is midnight, 0 to 6 days back, on firstDayOfWeek, and not after t |
| `OmegaDateSpec.EndOfWeekSpec` | omega_date/src/main/java/omega/com/omegadate/OmegaDate.kt:258-262 | the end of week is 23:59:59.999 of week start + 6: 0 to 6 days ahead, not before t, on the weekday before firstDayOfWeek |
| `OmegaDateSpec.StartOfMonthSpec` | omega_date/src/main/java/omega/com/omegadate/OmegaDate.kt:276 | the start of month reads as day 1 of the same year and month at 00:00:00.000, and is not after t |
| `OmegaDateSpec.EndOfMonthSpec` | omega_date/src/main/java/omega/com/omegadate/OmegaDate.kt:283-287 | the end of month reads as the month's last day (28 to 31, leap-aware) at 23:59:59.999, and is not before t |
| `OmegaDateSpec.StartOfYearSpec` | omega_date/src/main/java/omega/com/omegadate/OmegaDate.kt:301-305 | the start of year reads as January 1 of the same year at 00:00:00.000, and is not after t |
| `OmegaDateSpec.EndOfYearSpec` | omega_date/src/main/java/omega/com/omegadate/OmegaDate.kt:312-316 | the end of year reads as December 31 at 23:59:59.999, day 365 or 366 of the same year, and is not before t |
| `OmegaDateSpec.StartOfMonthResolvedTogether` | omega_date/src/main/java/omega/com/omegadate/OmegaDate.kt:276 | clearing the time and setting day 1 together, as one deferred resolution, gives `StartOfMonthTime` |
| `OmegaDateSpec.EndOfMonthResolvedTogether` | omega_date/src/main/java/omega/com/omegadate/OmegaDate.kt:283-287 | filling the time with 23:59:59.999 and setting the month's last day together gives `EndOfMonthTime` |
| `OmegaDateSpec.StartOfYearResolvedTogether` | omega_date/src/main/java/omega/com/omegadate/OmegaDate.kt:301-305 | clearing the time and setting day 1 of the year together gives `StartOfYearTime` |
| `OmegaDateSpec.EndOfYearResolvedTogether` | omega_date/src/main/java/omega/com/omegadate/OmegaDate.kt:312-316 | filling the time and setting the year's last day together gives `EndOfYearTime` |
| `OmegaDateSpec.LastDayOfYear` | omega_date/src/main/java/omega/com/omegadate/OmegaDate.kt:314 | day getActualMaximum(DAY_OF_YEAR) is December 31, the day before the next January 1 |
| `OmegaDateSpec.SetDateSpec` | omega_date/src/main/java/omega/com/omegadate/OmegaDate.kt:111-115 | setting a valid (year, month, day) reads back exactly, with the other fields and the time of day unchanged |
| `OmegaDateSpec.SetTimeOfDaySpec` | omega_date/src/main/java/omega/com/omegadate/OmegaDate.kt:131-136 | the time fields set together give the date's midnight plus their milliseconds; in-range values read back exactly on the same date |
| `OmegaDateSpec.RolledOverSpec` | omega_date/src/main/java/omega/com/omegadate/OmegaDate.kt:447-450 | a day up to 28 past the month's end names a valid date of the next month (December rolls into January) with the same day count |
| `OmegaDateSpec.SetDateRollsForward` | omega_date/src/main/java/omega/com/omegadate/OmegaDate.kt:111-115 | setDate with a day past the month's end reads back as the rolled-over date of the following month |
| `OmegaDateSpec.MillisDifference` | omega_date/src/main/java/omega/com/omegadate/OmegaDate.kt:659-661 | the Long difference of two times (see `WrapLong`) |
| `OmegaDateSpec.MillisDifferenceZero` | omega_date/src/main/java/omega/com/omegadate/OmegaDate.kt:659-661 | the wrapped difference of two modelled instants is 0 exactly when they are equal |
| `OmegaDateSpec.DayDifferenceOfMidnights` | omega_date/src/main/java/omega/com/omegadate/OmegaDate.kt:708-710 | between two midnights, the truncated day difference is −1 exactly when the first is the day before the second |
| `OmegaDateSpec.DayOfYearOrderIsMonthDayOrder` | omega_date/src/main/java/omega/com/omegadate/OmegaDate.kt:514-520 | in two years of the same kind, comparing days of the year is comparing (month, day), both directions |
| `OmegaDateSpec.MarchFirstAcrossLeapYears` | omega_date/src/main/java/omega/com/omegadate/OmegaDate.kt:516 | March 1 is day 61 of 2000 and day 60 of 2023, though the (month, day) are equal |
| `OmegaDates.OmegaDate.constructor` | omega_date/src/main/java/omega/com/omegadate/OmegaDate.kt:10-35 | a new OmegaDate holds the given time |
| `OmegaDates.OmegaDate.Copy` | omega_date/src/main/java/omega/com/omegadate/OmegaDate.kt:29 | a copy holds the same time and first day of week |
| `OmegaDates.OmegaDate.CompanionClearTime` | omega_date/src/main/java/omega/com/omegadate/OmegaDate.kt:24-26 | a fresh copy at the start of the day (see `StartOfDaySpec`); the argument is left unchanged |
| `OmegaDates.OmegaDate.CalendarFields` | omega_date/src/main/java/omega/com/omegadate/OmegaDate.kt:182-294 | the Calendar's fields are valid and denote its time |
| `OmegaDates.OmegaDate.CalendarDate` | omega_date/src/main/java/omega/com/omegadate/OmegaDate.kt:220-294 | the Calendar's date is valid and falls on the instant's day |
| `OmegaDates.OmegaDate.GetYear` | omega_date/src/main/java/omega/com/omegadate/OmegaDate.kt:294 | YEAR is 1583 or later, and its days contain the instant's day |
| `OmegaDates.OmegaDate.GetMonth` | omega_date/src/main/java/omega/com/omegadate/OmegaDate.kt:269 | MONTH is 0..11, and its days contain the instant's day |
| `OmegaDates.OmegaDate.GetDayOfMonth` | omega_date/src/main/java/omega/com/omegadate/OmegaDate.kt:220 | DAY_OF_MONTH is 1 to the month's length, and (year, month, day) falls on the instant's day |
| `OmegaDates.OmegaDate.GetDayOfYear` | omega_date/src/main/java/omega/com/omegadate/OmegaDate.kt:227 | DAY_OF_YEAR is 1 to the year's length, counted from January 1 |
| `OmegaDates.OmegaDate.GetDayOfWeek` | omega_date/src/main/java/omega/com/omegadate/OmegaDate.kt:182 | DAY_OF_WEEK is a code 1..7; `WeekdayAnchors` and `WeekdaySuccessor` fix which day carries which code |
| `OmegaDates.OmegaDate.ActualMaximumDayOfMonth` | omega_date/src/main/java/omega/com/omegadate/OmegaDate.kt:285 | the current month's length is 28..31, and 29 exactly in a leap February |
| `OmegaDates.OmegaDate.SetInstant` | omega_date/src/main/java/omega/com/omegadate/OmegaDate.kt:54-57 | the Calendar takes the given time; the receiver is returned |
| `OmegaDates.OmegaDate.SetDateFrom` | omega_date/src/main/java/omega/com/omegadate/OmegaDate.kt:66-68 | the Calendar takes the other date's time |
| `OmegaDates.OmegaDate.SetTime` | omega_date/src/main/java/omega/com/omegadate/OmegaDate.kt:144-147 | as written, nothing changes: the time goes into a copy of the Calendar's Date |
| `OmegaDates.OmegaDate.SetTimeIntended` | omega_date/src/main/java/omega/com/omegadate/OmegaDate.kt:138-147 | as documented, the Calendar takes the given time |
| `OmegaDates.OmegaDate.SetDate` | omega_date/src/main/java/omega/com/omegadate/OmegaDate.kt:111-115 | year, month and day are set together and resolved together, from a YEAR argument of 1582 on (Gregorian resolution); `SetDateSpec` and `SetDateRollsForward` say what that reads back as |
| `OmegaDates.OmegaDate.SetTimeOfDay` | omega_date/src/main/java/omega/com/omegadate/OmegaDate.kt:131-136 | the four time fields are set together on the same date (`SetTimeOfDaySpec`) |
| `OmegaDates.OmegaDate.SetYear` | omega_date/src/main/java/omega/com/omegadate/OmegaDate.kt:502-505 | set(YEAR) resolved leniently: February 29 into a common year becomes March 1 (`SetDateRollsForward`); otherwise the year alone changes (`SetDateSpec`) |
| `OmegaDates.OmegaDate.SetMonth` | omega_date/src/main/java/omega/com/omegadate/OmegaDate.kt:480-483 | set(MONTH) resolved leniently; a day past the new month's end rolls into the next month (`SetDateRollsForward`) |
| `OmegaDates.OmegaDate.SetDayOfMonth` | omega_date/src/main/java/omega/com/omegadate/OmegaDate.kt:447-450 | set(DAY_OF_MONTH) resolved leniently (`SetDateSpec`, `SetDateRollsForward`) |
| `OmegaDates.OmegaDate.SetHoursOfDay` | omega_date/src/main/java/omega/com/omegadate/OmegaDate.kt:425-428 | set(HOUR_OF_DAY): the date's midnight plus the new hour and the old minutes, seconds and milliseconds (`SetTimeOfDaySpec`) |
| `OmegaDates.OmegaDate.SetMin` | omega_date/src/main/java/omega/com/omegadate/OmegaDate.kt:403-406 | set(MINUTE), as `SetTimeOfDaySpec` resolves it |
| `OmegaDates.OmegaDate.SetSeconds` | omega_date/src/main/java/omega/com/omegadate/OmegaDate.kt:381-384 | set(SECOND), as `SetTimeOfDaySpec` resolves it |
| `OmegaDates.OmegaDate.SetMillis` | omega_date/src/main/java/omega/com/omegadate/OmegaDate.kt:359-362 | set(MILLISECOND), as `SetTimeOfDaySpec` resolves it |
| `OmegaDates.OmegaDate.SetDayOfWeek` | omega_date/src/main/java/omega/com/omegadate/OmegaDate.kt:191-194 | the new day has the weekday congruent to the argument, in the same week, at the same time of day |
| `OmegaDates.OmegaDate.AddMillis` | omega_date/src/main/java/omega/com/omegadate/OmegaDate.kt:348-351 | the time moves by the given milliseconds |
| `OmegaDates.OmegaDate.AddSeconds` | omega_date/src/main/java/omega/com/omegadate/OmegaDate.kt:370-373 | the time moves by 1000 ms per second |
| `OmegaDates.OmegaDate.AddMin` | omega_date/src/main/java/omega/com/omegadate/OmegaDate.kt:392-395 | the time moves by 60 000 ms per minute |
| `OmegaDates.OmegaDate.AddHours` | omega_date/src/main/java/omega/com/omegadate/OmegaDate.kt:414-417 | the time moves by 3 600 000 ms per hour |
| `OmegaDates.OmegaDate.AddDays` | omega_date/src/main/java/omega/com/omegadate/OmegaDate.kt:436-439 | the date moves by the given days and the time of day is kept |
| `OmegaDates.OmegaDate.AddWeeks` | omega_date/src/main/java/omega/com/omegadate/OmegaDate.kt:458-461 | the date moves by seven days per week, on the same weekday at the same time of day |
| `OmegaDates.OmegaDate.AddMonth` | omega_date/src/main/java/omega/com/omegadate/OmegaDate.kt:469-472 | add(MONTH), with MONTH + months as a wrapping Int, as `AddMonthsSpec` describes it |
| `OmegaDates.OmegaDate.AddYears` | omega_date/src/main/java/omega/com/omegadate/OmegaDate.kt:491-494 | add(YEAR), as `AddYearsSpec` describes it |
| `OmegaDates.OmegaDate.ClearTime` | omega_date/src/main/java/omega/com/omegadate/OmegaDate.kt:335-340 | the receiver moves to the start of its day (`StartOfDaySpec`) |
| `OmegaDates.OmegaDate.GetEndOfDay` | omega_date/src/main/java/omega/com/omegadate/OmegaDate.kt:208-213 | the receiver moves to the end of its day (`EndOfDaySpec`) |
| `OmegaDates.OmegaDate.GetStartOfDay` | omega_date/src/main/java/omega/com/omegadate/OmegaDate.kt:201 | a fresh copy at the start of the day; the receiver is unchanged |
| `OmegaDates.OmegaDate.GetStartOfWeek` | omega_date/src/main/java/omega/com/omegadate/OmegaDate.kt:248-251 | a fresh copy at the start of the week (`StartOfWeekSpec`); the receiver is unchanged |
| `OmegaDates.OmegaDate.GetEndOfWeek` | omega_date/src/main/java/omega/com/omegadate/OmegaDate.kt:258-262 | the receiver moves to the end of its week (`EndOfWeekSpec`) |
| `OmegaDates.OmegaDate.GetStartOfMonth` | omega_date/src/main/java/omega/com/omegadate/OmegaDate.kt:276 | a fresh copy at the start of the month (`StartOfMonthSpec`); the receiver is unchanged |
| `OmegaDates.OmegaDate.GetEndOfMonth` | omega_date/src/main/java/omega/com/omegadate/OmegaDate.kt:283-287 | the receiver moves to the end of its month (`EndOfMonthSpec`) |
| `OmegaDates.OmegaDate.GetStartOfYear` | omega_date/src/main/java/omega/com/omegadate/OmegaDate.kt:301-305 | a fresh copy at the start of the year (`StartOfYearSpec`); the receiver is unchanged |
| `OmegaDates.OmegaDate.GetEndOfYear` | omega_date/src/main/java/omega/com/omegadate/OmegaDate.kt:312-316 | the receiver moves to the end of its year (`EndOfYearSpec`) |
| `OmegaDates.OmegaDate.GetAges` | omega_date/src/main/java/omega/com/omegadate/OmegaDate.kt:514-520 | the year difference, less one exactly when the current day of the year comes before this one's; in two years of the same kind, the whole-years age |
| `OmegaDates.OmegaDate.GetAgesIntended` | omega_date/src/main/java/omega/com/omegadate/OmegaDate.kt:508-520 | the year difference, less one exactly while the (month, day) anniversary is still ahead |
| `OmegaDates.OmegaDate.IsAllowableAge` | omega_date/src/main/java/omega/com/omegadate/OmegaDate.kt:532-535 | true exactly when getAges lies in minAge..maxAge, both ends included; then the year difference lies in minAge..maxAge + 1; in two years of the same kind, true exactly when the whole-years age lies in minAge..maxAge |
| `OmegaDates.OmegaDate.IsInRange` | omega_date/src/main/java/omega/com/omegadate/OmegaDate.kt:546-548 | true exactly when minDate ≤ this ≤ maxDate, as instants |
| `OmegaDates.OmegaDate.IsDayOfWeek` | omega_date/src/main/java/omega/com/omegadate/OmegaDate.kt:579-591 | true exactly when the date's DAY_OF_WEEK is the constant's code |
| `OmegaDates.OmegaDate.IsStartOfWeek` | omega_date/src/main/java/omega/com/omegadate/OmegaDate.kt:556-558 | as written: fails with index 7 when the week starts on SATURDAY, and otherwise holds on the day after firstDayOfWeek |
| `OmegaDates.OmegaDate.IsEndOfWeek` | omega_date/src/main/java/omega/com/omegadate/OmegaDate.kt:566-570 | as written: holds exactly on firstDayOfWeek itself |
| `OmegaDates.OmegaDate.IsStartOfWeekIntended` | omega_date/src/main/java/omega/com/omegadate/OmegaDate.kt:550-558 | holds exactly on the day that getStartOfWeek's week begins with |
| `OmegaDates.OmegaDate.IsEndOfWeekIntended` | omega_date/src/main/java/omega/com/omegadate/OmegaDate.kt:560-570 | holds exactly on the sixth day after the week start, the day getEndOfWeek lands on |
| `OmegaDates.OmegaDate.IsStartOfMonth` | omega_date/src/main/java/omega/com/omegadate/OmegaDate.kt:599-601 | true exactly on day 1, that is, on getStartOfMonth's day |
| `OmegaDates.OmegaDate.IsEndOfMonth` | omega_date/src/main/java/omega/com/omegadate/OmegaDate.kt:609-611 | true exactly on the month's last day, that is, on getEndOfMonth's day |
| `OmegaDates.OmegaDate.DifferenceBetweenDatesInMillis` | omega_date/src/main/java/omega/com/omegadate/OmegaDate.kt:659-661 | this time minus the other, exact when it fits in a Long, and 0 exactly for equal times |
| `OmegaDates.OmegaDate.DifferenceBetweenDatesInSec` | omega_date/src/main/java/omega/com/omegadate/OmegaDate.kt:619-621 | whole seconds of the difference, truncated toward zero |
| `OmegaDates.OmegaDate.DifferenceBetweenDatesInMin` | omega_date/src/main/java/omega/com/omegadate/OmegaDate.kt:629-631 | whole minutes, truncated toward zero |
| `OmegaDates.OmegaDate.DifferenceBetweenDatesInHour` | omega_date/src/main/java/omega/com/omegadate/OmegaDate.kt:639-641 | whole hours, truncated toward zero |
| `OmegaDates.OmegaDate.DifferenceBetweenDatesInDays` | omega_date/src/main/java/omega/com/omegadate/OmegaDate.kt:649-651 | whole days of 86 400 000 ms, truncated toward zero |
| `OmegaDates.OmegaDate.IsYesterday` | omega_date/src/main/java/omega/com/omegadate/OmegaDate.kt:708-710 | true exactly when this date's day is the day before currentDate's |
| `OmegaDates.OmegaDate.CompareTo` | omega_date/src/main/java/omega/com/omegadate/OmegaDate.kt:712-714 | −1, 0 or 1 as this time is earlier than, equal to or later than the other |
| `OmegaDates.OmegaDate.After` | omega_date/src/main/java/omega/com/omegadate/OmegaDate.kt:673 | true exactly when this time is later |
| `OmegaDates.OmegaDate.Before` | omega_date/src/main/java/omega/com/omegadate/OmegaDate.kt:685 | true exactly when this time is earlier |
| `OmegaDates.OmegaDate.IsSameDate` | omega_date/src/main/java/omega/com/omegadate/OmegaDate.kt:696 | true exactly for the same instant, not merely the same day |
| `OmegaDates.OmegaDate.Equals` | omega_date/src/main/java/omega/com/omegadate/OmegaDate.kt:718-725 | null is never equal; otherwise equal exactly when time and first day of week agree |
| `OmegaDates.OrderTrichotomy` | omega_date/src/main/java/omega/com/omegadate/OmegaDate.kt:673-714 | exactly one of after, before and isSameDate holds, matching compareTo's sign |
| `OmegaDates.CompareToIsTotalOrder` | omega_date/src/main/java/omega/com/omegadate/OmegaDate.kt:712-714 | compareTo is antisymmetric and transitive, and before is the converse of after |
| `OmegaDates.EqualsIsSameDate` | omega_date/src/main/java/omega/com/omegadate/OmegaDate.kt:696-725 | equals implies isSameDate; with equal first days of week the converse holds; equals is reflexive |
| `OmegaDates.RangeIsInclusive` | omega_date/src/main/java/omega/com/omegadate/OmegaDate.kt:546-548 | a date is in its own one-point range, and a non-empty range has min not after max |
| `OmegaDates.WeekEdgeChecksAreOffByOne` | omega_date/src/main/java/omega/com/omegadate/OmegaDate.kt:556-570 | on a day that falls on firstDayOfWeek (getStartOfWeek's day), isStartOfWeek does not answer true while isEndOfWeek does |
| `OmegaDates.AgesMisfireAcrossLeapYears` | omega_date/src/main/java/omega/com/omegadate/OmegaDate.kt:514-520 | born 2000-03-01, on 2023-03-01 getAges gives 22, while the whole-years age is 23 |
| `OmegaDates.AllowableAgeMisfiresAcrossLeapYears` | omega_date/src/main/java/omega/com/omegadate/OmegaDate.kt:532-535 | born 2000-03-01, on 2023-03-01 the whole-years age is 23, yet isAllowableAge(23, 23) is false |
| `OmegaDates.AgesInSameKindYears` | omega_date/src/main/java/omega/com/omegadate/OmegaDate.kt:514-520 | when both years are leap or both common, getAges' day-of-year test holds exactly when the (month, day) anniversary is still ahead |
| `OmegaDates.AgesIntendedOnAnniversary` | omega_date/src/main/java/omega/com/omegadate/OmegaDate.kt:508-520 | on the (month, day) anniversary the intended age is the year difference |
| `OmegaDates.AgesIntendedDayBeforeAnniversary` | omega_date/src/main/java/omega/com/omegadate/OmegaDate.kt:508-520 | the day before an anniversary in the same month, it is one less |

## Left out

- Time zones, daylight saving and the locale:
  - `Calendar.getInstance()` returns a non-Gregorian calendar in some locales: the Buddhist calendar for th_TH, and the Japanese imperial calendar for ja_JP_JP. The model assumes a GregorianCalendar throughout.
  - The model's calendar is GregorianCalendar in UTC.
  - `setTimeZone` and `getTimeZone` are not modelled.
  - The locale's first day of week is a constructor parameter, `firstDayOfWeek`, and copies inherit it. In the source, every new OmegaDate asks the default locale again.
- Dates before 1583 and the Julian calendar:
  - Instants are restricted to 1583-01-01T00:00Z through Long.MAX_VALUE milliseconds.
  - Every mutator requires that its result stays in that range, so the 1582 Gregorian cutover, years before it and Long overflow in `add` are outside the model.
  - Calendar chooses Julian or Gregorian rules from the YEAR field as set, before an out-of-range month carries into it. So the field setters also require a YEAR field of 1582 or later, and `setDate(1, 24, 1581)`, which Calendar resolves by the Julian rules, is outside the model.
  - `SetDate`, `SetYear`, `SetMonth`, `SetDayOfMonth`, `SetHoursOfDay`, `SetMin`, `SetSeconds`, `SetMillis`, `SetTimeOfDay`, `SetDayOfWeek`, the `Add*` methods, `GetStartOfWeek`, `GetEndOfDay`, `GetEndOfWeek`, `GetEndOfMonth` and `GetEndOfYear` carry this range as a precondition. The source has no such precondition.
- Deferred `set` across separate client calls:
  - Each OmegaDate method resolves its own pending fields before it returns.
  - Calendar would wait for the next read, so two separate client calls such as `setMonth(1)` and then `setDayOfMonth(30)` could resolve differently. Client chains of OmegaDate calls are not modelled.
  - Composite methods resolve their fields together, as Calendar does.
- Three operations depend on client input or the clock, and are not modelled:
  - formatting (`formatDate`) and parsing (`setDate(String, SimpleDateFormat)`);
  - `setDate(Calendar)` and the `Calendar` constructor;
  - the no-argument constructor, and the "now" default arguments of `getAges`, `isAllowableAge`, `isDayOfWeek`, `isYesterday`, `differenceBetweenDatesInSec`, `differenceBetweenDatesInMin` and `differenceBetweenDatesInHour`. Callers pass the current date explicitly.
- `getWeekOfMonth` and `getWeekOfYear` are not modelled. Their values depend on the locale's minimal days in the first week.
- `getCalendar` and `getDate` expose JDK objects, and are not modelled.
- `toString`, `hashCode` and `Serializable` are not modelled.
- Equals: Calendar equality also compares leniency, time zone and minimal days in the first week, and those are not modelled. The model compares the time and the first day of week.
- GetEndOfWeek: the source's documentation promises a new OmegaDate, but the code moves the receiver. The model follows the code. `GetEndOfDay`, `GetEndOfMonth` and `GetEndOfYear` also move the receiver, as in the source.
- SetDate, SetYear, SetMonth, SetDayOfMonth, SetHoursOfDay, SetMin, SetSeconds, SetMillis: each contract gives the new instant as the lenient resolution of the changed fields. What that reads back as is proved in the neighbouring lemmas (`SetDateSpec`, `SetDateRollsForward`, `SetTimeOfDaySpec`), not restated in each method's `ensures`.
- GetStartOfWeek, GetEndOfWeek, GetStartOfMonth, GetEndOfMonth, GetStartOfYear, GetEndOfYear, ClearTime, GetEndOfDay, CompanionClearTime, GetStartOfDay: each method's `ensures` names the resulting instant through an `OmegaDateSpec` function. The matching `…Spec` lemma states the calendar meaning.

## Findings

| source | as written | input that shows it | evidently intended | confidence | as-written member | corrected member |
|---|---|---|---|---|---|---|
| omega_date/src/main/java/omega/com/omegadate/OmegaDate.kt:556-570 | `isStartOfWeek` uses the Calendar code `firstDayOfWeek` (1..7) as an index into the 0-based `values()`. `isEndOfWeek` computes `(firstDayOfWeek + 6) % 7`, which selects firstDayOfWeek itself. | A SUNDAY-first week, on a Sunday (the day getStartOfWeek returns): isStartOfWeek is false and isEndOfWeek is true. A MONDAY-first week: isStartOfWeek holds on Tuesday. A SATURDAY-first week: isStartOfWeek throws ArrayIndexOutOfBounds(7). | isStartOfWeek holds on firstDayOfWeek; isEndOfWeek holds six days later, where getEndOfWeek lands | medium, not executed | `OmegaDates.OmegaDate.IsStartOfWeek`, `OmegaDates.OmegaDate.IsEndOfWeek`, `OmegaDates.WeekEdgeChecksAreOffByOne` | `OmegaDates.OmegaDate.IsStartOfWeekIntended`, `OmegaDates.OmegaDate.IsEndOfWeekIntended` |
| omega_date/src/main/java/omega/com/omegadate/OmegaDate.kt:514-520 | getAges subtracts one when the current day of the year is smaller. A leap day before March shifts the count. | birth 2000-03-01, current 2023-03-01: 22 | 23: the (month, day) anniversary has come | high, not executed | `OmegaDates.AgesMisfireAcrossLeapYears`, `OmegaDates.AllowableAgeMisfiresAcrossLeapYears` | `OmegaDates.OmegaDate.GetAgesIntended` |
| omega_date/src/main/java/omega/com/omegadate/OmegaDate.kt:144-147 | `CALENDAR.time.time = time` stores into the fresh `Date` that `CALENDAR.time` returns, so the Calendar is unchanged | any time, e.g. setTime(0) | the Calendar takes the given time | high, not executed | `OmegaDates.OmegaDate.SetTime` | `OmegaDates.OmegaDate.SetTimeIntended` |

The week-edge row has medium confidence because the documentation of the two checks speaks of Monday and Sunday. In a SUNDAY-first locale the code does hold on Monday and on Sunday. The week that getStartOfWeek and getEndOfWeek define begins on firstDayOfWeek, and no locale makes the checks agree with it.
