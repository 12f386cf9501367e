# Native date adapter of drag-calendar, in Dafny

drag-calendar is an Angular calendar. Its date adapter does all of its date
work through JavaScript's `Date`. An abstract adapter class states the
contract: the getters, the name lists, the first day of the week, `createDate`,
and the three `addCalendar*` operations. It also holds the `locale` field,
whose changes are announced on a stream. The native adapter implements the
contract. Every calendar operation is built on one primitive,
`_createDateWithOverflow`. That primitive calls `setFullYear(year, month, date)`
on a fresh date and moves the time to midnight, so a month or day outside its
range carries into neighbouring months and years.

This project models that adapter in four modules.

- `EcmaDate` (`ecma_date.dfy`) models the part of `Date` that the adapter uses.
  - A date is its local calendar fields at midnight (a valid `Civil`), or the
    invalid date.
  - The getters read the fields, and every getter of the invalid date is NaN.
  - `getTime` is modelled as the local day number from 1 January 1970 (not
    ECMA-262's UTC milliseconds), given by ECMA-262's
    DayFromYear and the month table.
  - `setFullYear`'s overflow is `Carry`: the month carries into the year by
    floor division, then the day carries across month ends one month at a
    time.
  - It is proved that this lands on ECMA-262's MakeDay, that fields and day
    numbers are in one-to-one correspondence, and that the year-by-year count
    of days equals the standard's closed formula.
- `DateAdapterService` (`date_adapter_service.dfy`) holds the calendar
  operations and the `range` helper. They read no adapter state, so each one
  is a function of its arguments.
  - Their contracts are proved against reference definitions. `MonthsLater`
    flips calendar pages and clamps to the month's end.
- `DateAdapter` (`date_adapter.dfy`) is the adapter object.
  - It has the configuration, the `locale` field and a count of locale-change
    notifications.
  - Its methods are `init`, `setLocale`, `getFirstDayOfWeek`, the name lists,
    `getYearName` and `format` with its error guard.
  - `Intl.DateTimeFormat` is two function parameters: `Acceptance`, whether its
    constructor accepts a locale and options (it throws a RangeError when it
    does not), and `Formatter`, its `format`.
- `DateAdapterContract` (`date_adapter_contract.dfy`) states the abstract
  class's documented promises about the native adapter, including its worked
  examples.

The source's operations are modelled by functions of the same names:
`AddCalendarYears`, `AddCalendarMonths` and `AddCalendarDays` model
`addCalendarYears/Months/Days`, and `Number.Plus` and `Number.Differs` model
JavaScript's `+` and `!=`. Their properties are stated by the lemmas about
them in the table below.

JavaScript numbers are modelled as `Number`, which is an integer or NaN.
`%` on a `Number` truncates toward zero, as JavaScript's does. The host's UTC
offset, which `init` reads from the clock, is a parameter of the constructor.

## Model

| member | source | states |
|---|---|---|
| EcmaDate.Number.Rem | src/app/calendar/date-adapter.service.ts:103 | JavaScript `%`: NaN for NaN or a zero divisor; otherwise the remainder has the dividend's sign and a magnitude below the divisor's, and the dividend minus the remainder is a multiple of the divisor |
| EcmaDate.Date.GetFullYear | src/app/calendar/date-adapter.service.ts:30-32 | the year is NaN exactly when the date is invalid |
| EcmaDate.Date.GetMonth | src/app/calendar/date-adapter.ts:25-30 | the month is 0..11 for a valid date and NaN exactly for the invalid one |
| EcmaDate.Date.GetDate | src/app/calendar/date-adapter.ts:32-37 | the day of the month is 1..31 for a valid date and NaN exactly for the invalid one |
| EcmaDate.Date.GetDay | src/app/calendar/date-adapter.ts:39-44 | the weekday is 0..6 for a valid date and NaN exactly for the invalid one |
| EcmaDate.Date.GetTime | src/app/calendar/date-adapter.service.ts:117-119 | the local day number, which is NaN exactly when the date is invalid |
| EcmaDate.DaysInMonth | src/app/calendar/date-adapter.service.ts:70-74 | a month has 28 to 31 days, and February has 29 exactly in a leap year |
| EcmaDate.DaysInYear | src/app/calendar/date-adapter.service.ts:148-155 | a year has 366 days exactly when it is a leap year, else 365 |
| EcmaDate.WeekDay | src/app/calendar/date-adapter.service.ts:42-44 | the weekday of a day number is in 0..6, counted from the Thursday of 1 January 1970 |
| EcmaDate.LeapYearIndicators | src/app/calendar/date-adapter.service.ts:148-155 | the leap-year rule equals the three shifted divisibility tests in ECMA-262's day count |
| EcmaDate.DayFromYearClosedForm | src/app/calendar/date-adapter.service.ts:148-155 | counting days year by year from 1970 gives ECMA-262's closed DayFromYear formula, for every year before and after 1970 |
| EcmaDate.DayFromYearCycle | src/app/calendar/date-adapter.service.ts:148-155 | every 400 Gregorian years hold exactly 146097 days |
| EcmaDate.DayFromYearMonotonic | src/app/calendar/date-adapter.service.ts:30-32 | the first day of a later year comes at least 365 days per year later |
| EcmaDate.DaysBeforeMonthTable | src/app/calendar/date-adapter.service.ts:34-36 | the days before each month are ECMA-262's month table (31, 59, 90, …, 334, plus one from March in a leap year), and twelve months make the year |
| EcmaDate.DaysBeforeMonthMonotonic | src/app/calendar/date-adapter.service.ts:34-36 | each later month starts at least 28 days later in the year |
| EcmaDate.Normalize | src/app/calendar/date-adapter.service.ts:148-155 | carrying the day across month ends always ends on a real calendar date |
| EcmaDate.NormalizeKeepsDay | src/app/calendar/date-adapter.service.ts:148-155 | carrying the day never changes the day number it names |
| EcmaDate.NormalizeOfValid | src/app/calendar/date-adapter.service.ts:148-155 | a real calendar date is left as it is |
| EcmaDate.StepBack | src/app/calendar/date-adapter.service.ts:148-155 | counting a day from the month before adds that month's 28 to 31 days and keeps the day number |
| EcmaDate.StepForward | src/app/calendar/date-adapter.service.ts:148-155 | counting a day from the next month takes off this month's length and keeps the day number |
| EcmaDate.CivilFromDay | src/app/calendar/date-adapter.service.ts:30-44 | every day number has calendar fields that are a real date with exactly that day number |
| EcmaDate.DayFromCivilWithinYear | src/app/calendar/date-adapter.service.ts:30-32 | a real date's day number lies between the first day of its year and the first day of the next |
| EcmaDate.YearUnique | src/app/calendar/date-adapter.service.ts:30-32 | only one year holds a given day number |
| EcmaDate.MonthUnique | src/app/calendar/date-adapter.service.ts:34-36 | only one month holds a given day of the year |
| EcmaDate.CivilUnique | src/app/calendar/date-adapter.service.ts:30-44 | two real dates with the same day number are the same date |
| EcmaDate.CivilFromDayIsYearFromTime | src/app/calendar/date-adapter.service.ts:30-36 | the year of a day is the largest year whose first day is not after it, which is ECMA-262's YearFromTime; the month is the one whose span in the month table holds the day |
| EcmaDate.CivilRoundTrip | src/app/calendar/date-adapter.service.ts:30-44 | a real date's fields come back unchanged from its day number |
| EcmaDate.FirstOfNextMonth | src/app/calendar/date-adapter.service.ts:148-155 | the first of a month plus the month's length is the first of the next month, across the year end too |
| EcmaDate.OverflowIntoNextMonth | src/app/calendar/date-adapter.service.ts:92-105 | a day past the end of its month, by up to three days, lands early in the next month, in a different month |
| EcmaDate.PreviousThenNext | src/app/calendar/date-adapter.service.ts:148-155 | stepping one month back and then one forward returns to the same month and year |
| EcmaDate.NextThenPrevious | src/app/calendar/date-adapter.service.ts:148-155 | stepping one month forward and then one back returns to the same month and year |
| EcmaDate.MonthCarry | src/app/calendar/date-adapter.service.ts:104 | carrying month p + 1 into the year is the same as carrying month p and then adding one month |
| EcmaDate.Carry | src/app/calendar/date-adapter.service.ts:148-155 | the fields `setFullYear(year, month, date)` leaves are a real calendar date for every integer input |
| EcmaDate.CarryIsMakeDay | src/app/calendar/date-adapter.service.ts:148-155 | those fields name the day ECMA-262's MakeDay computes |
| EcmaDate.CarryOfValid | src/app/calendar/date-adapter.service.ts:148-155 | fields of a real date are kept as they are |
| EcmaDate.CarryDayZero | src/app/calendar/date-adapter.service.ts:70-74 | day 0 of month m is the last day of month m - 1, carried into its year, for every integer m |
| EcmaDate.WeekDayStep | src/app/calendar/date-adapter.service.ts:42-44 | the next day is one weekday later, modulo 7 |
| EcmaDate.NewDate | src/app/calendar/date-adapter.service.ts:48 | `new Date(year, month, date)` maps a year in 0..99 to 1900 + year, then carries the fields |
| EcmaDate.NewDateIsMakeDay | src/app/calendar/date-adapter.service.ts:48 | the constructor's date is MakeDay of the fields, once a year in 0..99 has become 1900 + year |
| EcmaDate.NewDateOfValid | src/app/calendar/date-adapter.service.ts:53 | a real date outside the years 0..99 comes out of the constructor unchanged |
| DateAdapterService.Range | src/app/calendar/date-adapter.service.ts:5-11 | the filled array has the given length, and index i holds `valueFunction(i)` |
| DateAdapterService.GetYear | src/app/calendar/date-adapter.service.ts:30-32 | NaN exactly for the invalid date |
| DateAdapterService.GetMonth | src/app/calendar/date-adapter.service.ts:34-36 | 0..11, with NaN exactly for the invalid date |
| DateAdapterService.GetDate | src/app/calendar/date-adapter.service.ts:38-40 | 1..31, with NaN exactly for the invalid date |
| DateAdapterService.GetDayOfWeek | src/app/calendar/date-adapter.service.ts:42-44 | 0..6, with NaN exactly for the invalid date |
| DateAdapterService.CreateDateWithOverflow | src/app/calendar/date-adapter.service.ts:148-155 | the date is invalid exactly when a field is NaN |
| DateAdapterService.GetNumDaysInMonth | src/app/calendar/date-adapter.service.ts:70-74 | NaN exactly for the invalid date |
| DateAdapterService.CreateDate | src/app/calendar/date-adapter.service.ts:80-83 | `createDate` always gives a valid date |
| DateAdapterService.CreateDateChecked | src/app/calendar/date-adapter.ts:85-93 | there is a date exactly when the month is 0..11 and the day lies in that month, and then it has the given fields and equals `createDate`'s |
| DateAdapterService.IsValid | src/app/calendar/date-adapter.service.ts:117-119 | a date is valid exactly when `getTime` is a number, not NaN |
| DateAdapterService.MonthsLater | src/app/calendar/date-adapter.ts:110-118 | flipping pages and taking the closest date in the month reached always gives a real date |
| DateAdapterService.DoubleRemainderIsModulo | src/app/calendar/date-adapter.service.ts:103 | `((x % 12) + 12) % 12` with JavaScript's `%` is the floor modulo x mod 12, always in 0..11 |
| DateAdapterService.CreateDateWithOverflowIsMakeDay | src/app/calendar/date-adapter.service.ts:148-155 | construction with overflow, and `createDate`, land on MakeDay(year, month, date) |
| DateAdapterService.MonthOverflowCarriesIntoYear | src/app/calendar/date-adapter.service.ts:148-155 | a month outside 0..11 rolls into the year by floor division: 12 or more gives a later year, a negative month an earlier one |
| DateAdapterService.DayZeroIsLastDayOfPreviousMonth | src/app/calendar/date-adapter.service.ts:148-155 | day 0 of month m is the last day of month m - 1 in the carried year |
| DateAdapterService.DayOverflowMovesByDays | src/app/calendar/date-adapter.service.ts:148-155 | a day count d lands d - 1 days after the first of the month, whatever d is |
| DateAdapterService.CreateDateReadsBack | src/app/calendar/date-adapter.service.ts:80-83 | for a real date, `createDate` reads back the year, month and day it was given, a year below 100 included |
| DateAdapterService.FieldsRebuildDate | src/app/calendar/date-adapter.service.ts:148-155 | a valid date's own year, month and day rebuild exactly that date |
| DateAdapterService.NumDaysInMonthIsGregorian | src/app/calendar/date-adapter.service.ts:70-74 | `getNumDaysInMonth` is the Gregorian month length: 28..31, 29 in February exactly in a leap year, 30 exactly for April, June, September and November |
| DateAdapterService.AddCalendarMonthsSteps | src/app/calendar/date-adapter.service.ts:92-108 | on a valid date, the month check compares the overflowed month with (month + months) mod 12, and goes back to day 0 when they differ |
| DateAdapterService.AddMonthsWithinMonth | src/app/calendar/date-adapter.service.ts:92-108 | when the target month has the day, the result is MonthsLater |
| DateAdapterService.OverflowThenDayZero | src/app/calendar/date-adapter.service.ts:103-105 | a day the target month lacks overflows into a different month, and day 0 of that month is the last day of the target month |
| DateAdapterService.AddMonthsPastMonthEnd | src/app/calendar/date-adapter.service.ts:92-108 | when the target month lacks the day, the result is still MonthsLater, clamped to the month's end |
| DateAdapterService.AddCalendarMonthsIsMonthsLater | src/app/calendar/date-adapter.service.ts:92-108 | for every valid date and every integer number of months, negatives included, the result is valid and is MonthsLater: month (m + n) mod 12, year y + floor((m + n) / 12), day min(d, length of that month) |
| DateAdapterService.AddCalendarYearsKeepsMonth | src/app/calendar/date-adapter.service.ts:88-90 | adding years is adding twelve months per year: the month stays, the year moves, the day is clamped, so 29 February becomes 28 February in a common year |
| DateAdapterService.AddCalendarDaysMoves | src/app/calendar/date-adapter.service.ts:110-116 | adding days moves the local day number by exactly that many days, and the result is invalid exactly when the date is |
| DateAdapterService.SameTimeSameDate | src/app/calendar/date-adapter.service.ts:117-119 | two dates with the same local day number are the same date |
| DateAdapterService.AddCalendarDaysRoundTrip | src/app/calendar/date-adapter.service.ts:110-116 | adding n days and then -n gives back the date, and adding 0 days changes nothing, for every date and n |
| DateAdapterService.DayOfWeekAdvances | src/app/calendar/date-adapter.ts:120-127 | the next day's weekday is one more, modulo 7 |
| DateAdapterService.InvalidDateStaysInvalid | src/app/calendar/date-adapter.service.ts:88-116 | every calendar operation maps the invalid date to the invalid date, and its month length is NaN |
| DateAdapter.NewDateTimeFormat | src/app/calendar/date-adapter.service.ts:125 | the formatter is built exactly when it accepts the locale and options, which it keeps; otherwise the constructor throws a RangeError |
| DateAdapter.FormatFields | src/app/calendar/date-adapter.service.ts:139-146 | formatting succeeds exactly on a valid date and reads only its calendar fields; an invalid date makes `dtf.format` throw |
| DateAdapter.InitialLocale | src/app/calendar/date-adapter.service.ts:22-29 | the locale is "jp" exactly when the offset is 540 minutes either way, else "en-US" |
| DateAdapter.InitialLocaleIsNineHours | src/app/calendar/date-adapter.service.ts:23-24 | that is the case exactly when the offset in hours, `minutes * -1 / 60`, is 9 or -9 |
| DateAdapter.NativeDateAdapter.constructor | src/app/calendar/date-adapter.service.ts:16-21 | the adapter keeps its configuration, and `init` has set the locale with one notification |
| DateAdapter.NativeDateAdapter.Init | src/app/calendar/date-adapter.service.ts:22-29 | the locale becomes InitialLocale of the offset, with exactly one notification |
| DateAdapter.NativeDateAdapter.SetLocale | src/app/calendar/date-adapter.ts:14-17 | the locale becomes the given one, the notification count grows by exactly one, and nothing else changes |
| DateAdapter.NativeDateAdapter.GetFirstDayOfWeek | src/app/calendar/date-adapter.service.ts:66-68 | the configured first day of the week when there is one, else 0 (Sunday) |
| DateAdapter.NativeConfigStartsOnMonday | src/app/calendar/config.ts:3-15 | with the default configuration weeks start on day 1, Monday |
| DateAdapter.Months2017 | src/app/calendar/date-adapter.service.ts:48 | `new Date(2017, i, 1)` is the first of month i of 2017 |
| DateAdapter.January2017 | src/app/calendar/date-adapter.service.ts:53 | `new Date(2017, 0, d)` is day d of January 2017 |
| DateAdapter.NativeDateAdapter.GetMonthNames | src/app/calendar/date-adapter.service.ts:46-49 | throws exactly when the formatter rejects the locale; otherwise twelve names, January first, where name i formats the first of month i of 2017 with the month style, in UTC |
| DateAdapter.NativeDateAdapter.GetDateNames | src/app/calendar/date-adapter.service.ts:51-54 | throws exactly when the formatter rejects the locale; otherwise 31 names, where the first formats day 1 and name i formats day i + 1 of January 2017, in UTC |
| DateAdapter.NativeDateAdapter.GetDayOfWeekNames | src/app/calendar/date-adapter.service.ts:56-59 | throws exactly when the formatter rejects the locale; otherwise seven names, where name i formats day i + 1 of January 2017 with the weekday style, in UTC |
| DateAdapter.NativeDateAdapter.GetYearName | src/app/calendar/date-adapter.service.ts:61-64 | a name exactly when the formatter accepts the locale and the date is valid: the numeric year, in UTC; a rejected locale throws the formatter's RangeError whatever the date, and an invalid date then throws `format`'s RangeError |
| DateAdapter.NativeDateAdapter.Format | src/app/calendar/date-adapter.service.ts:120-127 | fails exactly when the date is not valid or the formatter rejects the locale or display format; an invalid date fails first, with the adapter's own error message, and a rejected locale or option then gives the formatter's RangeError; otherwise it formats the fields with the display format, its time zone set to UTC |
| DateAdapter.FormatIgnoresTimeZone | src/app/calendar/date-adapter.service.ts:125 | whatever time zone the display format names, the result is the same as with none |
| DateAdapterContract.GetDateWithinMonth | src/app/calendar/date-adapter.ts:32-37 | the day of the month lies in 1..getNumDaysInMonth |
| DateAdapterContract.InvalidDateGettersAreNaN | src/app/calendar/date-adapter.service.ts:30-44 | every getter of the invalid date is NaN, and so is its month length |
| DateAdapterContract.January2017StartsOnSunday | src/app/calendar/date-adapter.ts:60-64 | 1 January 2017 is day 17167, and 1 to 7 January 2017 are weekdays 0 (Sunday) to 6, so the weekday names start on Sunday |
| DateAdapterContract.January31PlusOneMonth | src/app/calendar/date-adapter.ts:110-118 | one month after 31 January 2017 is 28 February 2017 |
| DateAdapterContract.February29PlusOneYear | src/app/calendar/date-adapter.ts:100-108 | one year after 29 February 2016 is 28 February 2017 |
| DateAdapterContract.March31MinusOneMonth | src/app/calendar/date-adapter.ts:110-118 | one month before 31 March 2016 is 29 February 2016 |
| DateAdapterContract.CreateDateYearIsLiteral | src/app/calendar/date-adapter.ts:85-93 | `createDate(89, 0, 1)` is in the year 89, where `new Date(89, 0, 1)` is in 1989 |
| DateAdapterContract.LeapYearExamples | src/app/calendar/date-adapter.ts:79-84 | February has 29 days in 2000 and 2024, and 28 in 1900 and 2023 |
| DateAdapterContract.CreateDateOverflowsDespiteContract | src/app/calendar/date-adapter.service.ts:80-83 | `createDate(2017, 1, 30)` gives 2 March 2017 |
| DateAdapterContract.CreateDateCheckedRefusesOverflow | src/app/calendar/date-adapter.ts:85-93 | the checked form has no date for 30 February 2017, and gives `createDate`'s date for every real date |

## Left out

- Formatting itself. `Intl.DateTimeFormat` produces the strings, and it is a foreign locale library. It is the `Acceptance` and `Formatter` parameters, so the model states which dates, locales and options reach it and when its constructor throws, not which locales it accepts or which strings come out.
- The UTC shadow date of `_format`, which works around DST rules. The model says only what it achieves: the formatter sees the local fields, a year below 100 included.
- `today()` reads the system clock. `clone` copies a date, and a value needs no copy.
- Time of day, milliseconds, time zones and DST. A date is always at local midnight. Whether a day exists in local time is not modelled.
- The host UTC offset, read by `getTimezoneOffset` in `init`. It is an integer parameter in minutes.
- The time-value range of ECMA-262's TimeClip, ±100,000,000 days. Beyond it, JavaScript gives an invalid date. The model has no bound, so every integer year is valid.
- Fractional and infinite numbers, and the floating-point rounding of JavaScript numbers. Arguments are integers. NaN is modelled only where it arises, which is from the invalid date.
- The rxjs `Subject`/`Observable` behind `localeChanges`. It is a count of notifications; subscribers and their order are runtime plumbing.
- Angular wiring: dependency injection, the module's providers and the UI components. Of the configuration, only `firstDayOfWeek` and `locale` are modelled; its `parse` and `display` groups are not part of this model. The display format that a caller hands to `format` is an opaque map of options.
- DateAdapter.NativeDateAdapter.constructor: `locale` starts as "" before `init` runs, where the source leaves it undefined. No one can read it in between.
- The locale string in the configuration. `init` ignores it, and so does the model.
- The `date-adapter-base` module that the service extends is not part of this model. The abstract class in `date-adapter.ts` stands for it.

The model follows the code where the code and the doc comments disagree:

- `createDate`'s doc comment (src/app/calendar/date-adapter.ts:85-92) says the month and day may not overflow and that an invalid date gives null. The implementation overflows (see Findings).
- `init` picks "jp" for an offset of nine hours in either direction, so UTC-9 (Alaska) gets "jp" as well as UTC+9.

## Findings

| source | as written | input that shows it | evidently intended | confidence | as-written member | corrected member |
|---|---|---|---|---|---|---|
| src/app/calendar/date-adapter.service.ts:80-83 | `createDate` passes its fields straight to construction with overflow | `createDate(2017, 1, 30)` gives 2 March 2017 | per the doc comment at src/app/calendar/date-adapter.ts:85-92, no overflow: a month outside 0..11 or a day outside the month gives no date | medium, not executed | DateAdapterContract.CreateDateOverflowsDespiteContract | DateAdapterService.CreateDateChecked |
