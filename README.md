# Gotcha-day reminders in Dafny

A model of the reminder utilities of a pet-profile service, `src/utils/reminders.js`.
A pet's *gotcha date* is the day it joined its family, a `YYYY-MM-DD` string.
The module validates such strings with `ISO_DATE_REGEX`. It finds the next yearly
anniversary of a gotcha date relative to a reference instant, and reminder dates
a lead time in days before that anniversary. It also computes the countdown
figures of a reminder (days until the reminder, days until the anniversary, the
implied lead time and the years with the family) and the headline and call to
action of a reminder card.

The source is pure, so the model is datatypes, functions and lemmas:

- `calendar.dfy` (`Calendar`): proleptic Gregorian day numbers (day 0 is
  1970-01-01) and their inverse, `FromDayNumber`, with the round trip proved
  both ways.
- `digits.dfy` (`Digits`): zero-padded decimal rendering and reading digits
  back as numbers, which is what `Number("0520")` does.
- `jsdate.dfy` (`JsDate`): the parts of the JavaScript `Date` built-in the module
  uses. A `Date` is its integer millisecond time value. The module models
  ECMAScript's `Day` and `MakeDay`, the two-digit-year rule of `Date.UTC` and
  `toISOString`, including six-digit years.
- `reminders.dfy` (`Reminders`): one function per function of
  `src/utils/reminders.js`, with the properties the module promises. A thrown
  `Error` is an `Err` result, and `Error.Message` gives each thrown message.
- `reminder_vectors.dfy` (`ReminderVectors`): the expected values in
  `tests/unit/reminders.test.js`, and edge cases that show how `Date.UTC`
  normalises dates. Each example is a lemma whose inputs are parameters fixed
  by `requires`.

The reference instant is always an argument; the source's default `new Date()` is
not modelled. `Date.UTC` normalises out-of-range fields, and the model reproduces
this: a month index carries into the year, and the day is added to the first
of the month by plain addition. So `2020-13-45` and February 29 in a common year
roll over exactly as the runtime's dates do. The code neither rejects such dates
nor clamps February 29 to February 28, and neither does the model. `Date.UTC`'s mapping of years
0..99 to 1900..1999 is modelled too (`MakeFullYear`), and lemmas that need it out
of the way require a year of at least 100.

## Model

| member | source | states |
|---|---|---|
| Reminders.FullMatchPositions | src/utils/reminders.js:1 | the anchored pattern matches exactly the strings with one matching character per pattern item |
| Reminders.IsoDateStringShape | src/utils/reminders.js:1 | a string passes the date check iff it is ten characters: four digits, '-', two digits, '-', two digits |
| Reminders.EnsureValidIsoDate | src/utils/reminders.js:4-8 | succeeds exactly on strings that pass the check, and otherwise fails with an error carrying the input |
| Reminders.ParseIsoFields | src/utils/reminders.js:26 | the three digit groups of a checked string read as a year 0..9999 and a month and day 0..99 |
| Digits.DecimalValueOfPad | src/utils/reminders.js:26 | reading back a zero-padded rendering of n gives n |
| Digits.PadOfDecimalValue | src/utils/reminders.js:26 | a run of digits is the padded rendering of its own value at its own width |
| Reminders.ToUtcDate | src/utils/reminders.js:10-12 | the built instant is a UTC midnight, on the day MakeDay computes from the two-digit-year-adjusted year |
| JsDate.MakeDayOfValidDate | src/utils/reminders.js:10-12 | an in-range month index and day give exactly that civil date |
| JsDate.MakeDayCarries | src/utils/reminders.js:10-12 | twelve months more is one year more, and one day more is the next day |
| Reminders.ToUtcDateOfValidDate | src/utils/reminders.js:10-12 | for a real calendar date (year at least 100) the instant lies on exactly that date |
| Reminders.ToUtcDateCarries | src/utils/reminders.js:10-12 | month index 12 is January of the next year, and a day past the month's end runs into the next month |
| Reminders.LeapDayOccurrence | src/utils/reminders.js:10-12 | February 29 lands on February 29 in a leap year and on March 1 otherwise |
| Reminders.StartOfUtcDay | src/utils/reminders.js:14-18 | the clone is a midnight on the same UTC day, at most t and less than a day before it |
| Reminders.UtcFullYearBounds | src/utils/reminders.js:29 | an instant's UTC day lies between the first day of its UTC year and the first day of the next |
| Reminders.FormatIsoDate | src/utils/reminders.js:20-22 | the text is always ten characters long |
| Reminders.FormatIsoDateOfDay | src/utils/reminders.js:20-22 | instants on the same UTC day format identically |
| JsDate.ToIsoStringDatePrefix | src/utils/reminders.js:21 | for a year 0..9999 the first ten characters of toISOString are the padded year, month and day of the UTC day |
| Calendar.FromDayNumberValid | src/utils/reminders.js:21 | every day number decodes to a valid civil date that numbers back to it |
| Calendar.DayNumberRoundTrip | src/utils/reminders.js:21 | numbering a valid civil date and decoding it gives the date back |
| Reminders.FormatIsoDateText | src/utils/reminders.js:20-22 | in years 0..9999 the text is the YYYY-MM-DD of the instant's UTC civil date |
| Reminders.FormatIsoDateFields | src/utils/reminders.js:20-22 | in years 0..9999 the text passes the date check and parses to the UTC civil date's fields |
| Reminders.FormatIsoDateExtendedYear | src/utils/reminders.js:20-22 | outside years 0..9999 the text starts with a sign and fails the date check |
| Reminders.IsoTextFields | src/utils/reminders.js:1 | fields written at widths 4, 2 and 2 and joined with '-' pass the check and parse back to the same fields |
| Reminders.ParseIsoDate | src/utils/reminders.js:66-70 | the instant describeReminder builds from a date string is a UTC midnight |
| Reminders.FormatIsoDateReadsBack | src/utils/reminders.js:20-22 | formatted text (year 100..9999) passes the check and parses back to the instant's UTC day |
| Reminders.FormatIsoDateIdempotent | src/utils/reminders.js:14-22 | parsing formatted text and formatting again gives the same text |
| Reminders.IsoFieldsText | src/utils/reminders.js:66-70 | a checked string is the padded rendering of its three parsed fields |
| Reminders.ParseIsoDateRoundTrip | src/utils/reminders.js:66-79 | a real date with year 100..9999 survives parsing and formatting unchanged |
| Reminders.NextAnniversaryDate | src/utils/reminders.js:24-36 | succeeds iff the gotcha date passes the check, with that error otherwise, and the result is a UTC midnight |
| Reminders.StartOfUtcDayYear | src/utils/reminders.js:28 | the start of the reference day keeps its UTC day and UTC year |
| Reminders.ResolveChoice | src/utils/reminders.js:28-33 | the result is this year's occurrence unless it falls before the reference day, and next year's otherwise |
| Reminders.OccurrenceInYear | src/utils/reminders.js:29 | a month 1..12 and a day 1..31 land inside the year they are placed in |
| Reminders.OccurrenceOfValidDate | src/utils/reminders.js:29 | a month and day that form a real date of year y land on exactly that date |
| Reminders.OccurrenceBeforeYear | src/utils/reminders.js:29-32 | no occurrence in an earlier year reaches the first day of year y |
| Reminders.OccurrenceMonotone | src/utils/reminders.js:29-32 | a later year's occurrence comes strictly after an earlier year's |
| JsDate.MakeDayYearMonotone | src/utils/reminders.js:29-32 | the same month index and day in a later year give a later day |
| Reminders.OccurrenceNotBeforeEarlier | src/utils/reminders.js:28-33 | an occurrence on or after the reference day is not before this year's, nor before next year's when this year's is past |
| Reminders.OccurrenceFirstOnOrAfter | src/utils/reminders.js:28-33 | the source's choice is the earliest occurrence, in any year, on or after the reference day |
| Reminders.ResolveYear | src/utils/reminders.js:28-33 | for a month 1..12 and a day 1..31, the chosen anniversary is in the reference year or the next, on the gotcha month and day of its own year |
| Reminders.ResolveFirstOnOrAfter | src/utils/reminders.js:28-33 | for a month 1..12 and a day 1..31, the chosen anniversary is the earliest occurrence on or after the reference day |
| Reminders.NextAnniversaryIsFirstOnOrAfter | src/utils/reminders.js:24-36 | the next anniversary is the gotcha month and day in the reference year or the next, and the earliest such day on or after the reference day |
| Reminders.NextAnniversaryOnReferenceDay | src/utils/reminders.js:28-33 | an anniversary falling on the reference day is returned as that day's midnight and is not rolled forward |
| Reminders.NextYearOccurrenceAfter | src/utils/reminders.js:32 | with a month and day of at least 1, next year's occurrence is after every day of this year |
| Reminders.NextYearAnniversaryAfter | src/utils/reminders.js:31-33 | with a month and day of at least 1, next year's anniversary is after the start of the reference day |
| Reminders.ResolveNotBefore | src/utils/reminders.js:28-33 | with a month and day of at least 1, the chosen anniversary is never before the start of the reference day |
| Reminders.NextAnniversaryNotBeforeReference | src/utils/reminders.js:24-36 | with a month and day of at least 1, in any year and including carried fields, the next anniversary is never before the start of the reference day |
| Reminders.RolloverChoice | src/utils/reminders.js:28-33 | for a real date in both years, the choice is this year's date unless its month and day precede the reference month and day |
| Reminders.ResolveRollover | src/utils/reminders.js:28-33 | the resolved anniversary is the same month and day, in this year or rolled to the next by the month-and-day comparison |
| Reminders.NextAnniversaryRollover | src/utils/reminders.js:24-36 | the next anniversary is that month and day of the reference year when not before the reference month and day, and of the next year otherwise |
| Reminders.ResolveLeapDay | src/utils/reminders.js:28-33 | a February 29 gotcha date resolves in the reference year or the next, to February 29 in a leap year and March 1 otherwise |
| Reminders.NextAnniversaryLeapDay | src/utils/reminders.js:24-36 | a February 29 gotcha date's next anniversary is February 29 in a leap year and March 1 in a common year |
| Reminders.CalculateReminderDate | src/utils/reminders.js:38-47 | a non-integer or negative lead time fails first; otherwise the result succeeds iff the gotcha date passes the check, with that error otherwise |
| JsDate.DaysEarlierOfMidnight | src/utils/reminders.js:44 | k whole days before a midnight is the midnight of the day k days earlier |
| Reminders.CalculateReminderDateDay | src/utils/reminders.js:43-46 | the reminder is the formatted instant daysBefore whole days before the next anniversary, on the UTC day that many days earlier |
| Reminders.DaysBeforeMidnightRoundTrip | src/utils/reminders.js:44-46 | the reminder text passes the date check, reads back as the day k days before the anniversary, and is already canonical |
| Reminders.ReminderDateIsLeadDaysBefore | src/utils/reminders.js:38-47 | the reminder text names exactly the day daysBefore days before the next anniversary, and formatting it again gives it back |
| Reminders.YearsWithFamily | src/utils/reminders.js:49-59 | succeeds iff the gotcha date passes the check, with that error otherwise, and is never negative |
| Reminders.AnniversaryYearOfResolved | src/utils/reminders.js:52-56 | for a month 1..12 and a day 1..31, the year getYearsWithFamily resolves is the UTC year of getNextAnniversaryDate's result |
| Reminders.YearsWithFamilyCountsToNextAnniversary | src/utils/reminders.js:49-59 | for a month 1..12 and a day 1..31, the count is the next anniversary's UTC year minus the gotcha year, floored at 0 |
| Reminders.DaysBetweenMidnights | src/utils/reminders.js:73-75 | between two midnights, the rounded-up day count is the difference of day numbers, floored at 0 |
| Reminders.DescribeReminder | src/utils/reminders.js:61-86 | the reminder string is checked first, then the gotcha date, each failing with its own text; success iff both pass |
| Reminders.DescribeReminderFields | src/utils/reminders.js:61-86 | both dates are canonical text, the three counts are floored day differences from the reference day and between reminder and anniversary, and the years are getYearsWithFamily's |
| Reminders.DescribeReminderNonNegative | src/utils/reminders.js:73-76 | all four counts of a summary are non-negative |
| Reminders.DescribeReminderLeadDaysBefore | src/utils/reminders.js:61-86 | a canonical reminder lead days before the anniversary is described with that text and lead time, and with the anniversary countdown less lead |
| Reminders.DescribeCalculatedReminder | src/utils/reminders.js:38-86 | describing calculateReminderDate's result gives back the same text, the lead time daysBefore and the matching countdown |
| Reminders.DaysPhrase | src/utils/reminders.js:94 | the count phrase is at least "n day" long |
| Reminders.DaysPhraseSingular | src/utils/reminders.js:94 | the phrase ends in "day" and not "days" exactly when the count is 1 |
| Digits.IntToStringInjective | src/utils/reminders.js:94 | different integers render as different text |
| Reminders.DaysPhraseInjective | src/utils/reminders.js:94 | different counts give different phrases |
| Reminders.HeadlineDeterminesCount | src/utils/reminders.js:94 | for one pet name, two headlines are equal exactly when their anniversary countdowns are |
| Reminders.CallToActionCases | src/utils/reminders.js:95-97 | the "celebrate today" text appears exactly when the reminder is due today; otherwise the text is "Schedule a celebration post in " and the lead-time phrase |
| Reminders.CreateReminderPreview | src/utils/reminders.js:88-110 | a missing pet, name or gotcha date fails first; otherwise success and errors are describeReminder's |
| Reminders.PreviewContents | src/utils/reminders.js:88-110 | a preview carries the summary, the pet's id, name and gotcha date, the photo URL or null, the headline and the call to action |
| Reminders.PreviewCitesLeadTime | src/utils/reminders.js:95-97 | a preview whose reminder is not due today cites the summary's lead time |
| Reminders.PreviewOfCalculatedReminder | src/utils/reminders.js:88-110 | a preview of a reminder calculateReminderDate scheduled, not yet due, cites exactly daysBefore days |
| Reminders.DefaultReminderLeadTimes | src/utils/reminders.js:112-114 | three lead times, strictly decreasing, each a whole number within 1..180 (the route's accepted range, src/routes/reminders.js:42) |
| ReminderVectors.NextAnniversaryStillAhead | tests/unit/reminders.test.js:16-19 | 2020-05-20 at 2024-05-01T12:00Z gives an anniversary formatted '2024-05-20' |
| ReminderVectors.NextAnniversaryRollsOver | tests/unit/reminders.test.js:21-24 | 2018-02-10 at 2024-05-01T12:00Z gives '2025-02-10' |
| ReminderVectors.ReminderSevenDaysAhead | tests/unit/reminders.test.js:28-31 | a lead time of 7 for 2020-05-20 at 2024-05-01T12:00Z gives '2024-05-13' |
| ReminderVectors.LeadTimeRejected | tests/unit/reminders.test.js:33-35 | lead times -1 and 1.5 fail with the lead-time error whatever the date |
| ReminderVectors.DescribeTest | tests/unit/reminders.test.js:39-49 | the summary is '2024-05-13', '2024-05-20', 12, 19, 7 and 4 |
| ReminderVectors.PreviewTest | tests/unit/reminders.test.js:53-68 | the preview for Luna carries that summary, the pet with a null photo URL, "Luna's gotcha day is in 19 days!" and a call to post in 7 days |
| ReminderVectors.YearsWithFamilyTest | tests/unit/reminders.test.js:78-81 | 2020-05-20 at 2024-05-01T12:00Z gives 4 years |
| ReminderVectors.DefaultLeadTimesTest | tests/unit/reminders.test.js:71-75 | the default lead times are exactly [14, 7, 1] |
| ReminderVectors.MalformedDatesRejected | src/utils/reminders.js:4-8 | '05-20-2020' and '2020/05/20' fail getNextAnniversaryDate, getYearsWithFamily and calculateReminderDate with their own text |
| ReminderVectors.OutOfRangeFieldsRollOver | src/utils/reminders.js:29 | '2020-13-45' passes the check, and at 2024-05-01 its anniversary "in 2024" is '2025-02-14' |
| ReminderVectors.CarriedFieldsYearsDisagree | src/utils/reminders.js:49-59 | for '2020-13-45' at 2024-05-01, getYearsWithFamily counts 4 years, from the reference year 2024, while the next anniversary is '2025-02-14' in UTC year 2025 |
| ReminderVectors.LeapDayInCommonYear | src/utils/reminders.js:29 | '2020-02-29' at 2023-01-01 gives '2023-03-01' |
| ReminderVectors.ZeroFieldsBeforeReference | src/utils/reminders.js:28-33 | '2020-00-00' at 2024-12-31 gives '2024-11-30', which is before the reference instant |
| ReminderVectors.TwoDigitYearReminder | src/utils/reminders.js:66-70 | describeReminder reads a reminder of '0050-05-20' as 1950-05-20, already past, and reports 0 days until it |

## Left out

- Time values beyond ECMAScript's TimeClip range (±8.64e15 ms) are not modelled. In the source such an instant is an Invalid Date, and `toISOString` throws a `RangeError`; the model's time values are unbounded integers.
- Lead times are modelled as reals: `Number.isInteger` is "equals its floor". The source also receives `NaN`, `Infinity` and non-numbers. Floating-point products are used where `daysBefore * MS_PER_DAY` is computed, and these are exact only for moderate integers.
- The default argument `referenceDate = new Date()` reads the clock, so the reference instant is always an explicit parameter.
- `Math.ceil` applied to a fraction of a day (`Reminders.DaysBetween`) is modelled exactly. Every operand the module passes is a UTC midnight, so the division is always exact.
- A pet field that is missing, `undefined` or empty is modelled as the empty string, because all three are falsy in the source. `createReminderPreview` spreads the summary into the preview object; the model keeps it as a nested `summary` field.
- The thrown `Error` objects are `Err` values. `Error.Message` gives the message text, but stack traces and exception propagation are not modelled.
- The HTTP routes, the storage bindings and the rest of the service lie outside `src/utils/reminders.js` and are not part of this model.
- Reminders.NextAnniversaryIsFirstOnOrAfter: requires a gotcha month 1..12 and day 1..31, because with other fields the chosen day need not be the first occurrence on or after the reference day (see ReminderVectors.ZeroFieldsBeforeReference). It also requires a reference year of at least 100.
- Reminders.ResolveChoice, Reminders.ResolveLeapDay: stated for a reference year of at least 100. Below that, `Date.UTC` moves the years 0..99 to 1900..1999, so the next anniversary lies in another century.
- Reminders.ResolveYear: requires a gotcha month 1..12 and day 1..31, and a reference year of at least 100 for the reason above. With other fields `Date.UTC` carries the month or day into later years, so the chosen day can lie two or more years after the reference year.
- Reminders.ResolveFirstOnOrAfter: requires a gotcha month 1..12 and day 1..31, and a reference year of at least 100. With other fields the chosen day need not be the first occurrence on or after the reference day (ReminderVectors.ZeroFieldsBeforeReference).
- Reminders.ResolveNotBefore: requires a gotcha month and day of at least 1. With a zero month or day the source's choice can fall before the reference day (ReminderVectors.ZeroFieldsBeforeReference).
- Reminders.NextAnniversaryNotBeforeReference: requires a gotcha month and day of at least 1. For '2020-00-00' at 2024-12-31 the source returns 2024-11-30, which is in the past (ReminderVectors.ZeroFieldsBeforeReference).
- Reminders.AnniversaryYearOfResolved: requires a gotcha month 1..12 and day 1..31, and a reference year of at least 100. With carried fields getYearsWithFamily's year is the reference year, but the anniversary lies in a later year: for '2020-13-45' at 2024-05-01 the year is 2024 and the anniversary is 2025-02-14 (ReminderVectors.CarriedFieldsYearsDisagree).
- Reminders.YearsWithFamilyCountsToNextAnniversary: requires a gotcha month 1..12 and day 1..31, and a reference year of at least 100. With carried fields the source counts to the reference year and not to the next anniversary's year, so describeReminder can report nextAnniversary '2025-02-14' with yearsWithFamily 4 for a 2020 gotcha date (ReminderVectors.CarriedFieldsYearsDisagree).
- Reminders.NextAnniversaryOnReferenceDay, Reminders.NextAnniversaryRollover, Reminders.NextAnniversaryLeapDay: stated for a reference year of at least 100, for the same reason as Reminders.ResolveChoice.
- Reminders.ToUtcDateOfValidDate, Reminders.ToUtcDateCarries: stated for a year of at least 100, for the same reason.
- Reminders.FormatIsoDateReadsBack, Reminders.FormatIsoDateIdempotent, Reminders.ParseIsoDateRoundTrip, Reminders.DaysBeforeMidnightRoundTrip: stated for years 100..9999. Outside 0..9999 the formatted text has a signed six-digit year that fails the date check (Reminders.FormatIsoDateExtendedYear). In years 0..99 the parsed year would be moved by 1900.
- Reminders.ReminderDateIsLeadDaysBefore, Reminders.DescribeCalculatedReminder, Reminders.PreviewOfCalculatedReminder: stated for reminders that fall in years 100..9999, for the same reason.
