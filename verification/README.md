# days-calc vacation planner: a Dafny model

This project models the logic of the days-calc vacation planner: the calendar helpers, the accrual of vacation days, the drag selection of days in the vacation grid, the in-memory employee store, and a few small pure helpers. It then proves properties of that model. The planner itself is a TypeScript/React application, and only its logic is modelled.

Modules, in dependency order:

- `Wrappers` (wrappers.dfy): `Option`, plus max/min/abs helpers.
- `Calendar` (calendar.dfy): the calendar helpers of `src/lib/dateUtils.ts`.
  - Dates are calendar triples and `Instant`s, with day numbers counted from 1970-01-01.
  - JavaScript's `setDate` and `setMonth` are modelled, including month overflow.
  - Two leap-year rules appear in the source: the Gregorian `isLeapYear`, and the `year % 4 == 0` rule of the grid's own month table. Both are modelled.
- `Text` (text.dfy): decimal numerals, `padStart(2, '0')` and `trim()`.
- `HolidayCheck` (holidays.dfy): public-holiday membership through the `${year}-MM-DD` string the source builds. The year is written unpadded, so the string is the ISO 8601 extended complete form (ISO 8601:2004, section 4.1.2.2) only for four-digit years; year 999 gives "999-01-01". This covers `src/hooks/useHolidaysCheck.ts` and the fixed list of `src/lib/database.ts`.
- `Positions` (positions.dfy): employees, position histories, the title table of additional days, and the first-match position lookup.
- `Accrual` (accrual.dfy): three calculators, with the reference instant `new Date()` as a parameter.
  - The exact month-stepping calculator and the two-field simple calculator of `src/lib/calculations.ts`.
  - The five-field simple calculator of `src/lib/utils/calculations.ts`.
- `EmployeeStore` (store.dfy): the `db` object of `src/lib/database.ts`. It appears as pure functions over a sequence and as a class, `EmployeeStore.EmployeeDb`, that holds the sequence. The class restates the pure functions over a mutable field, and its contracts speak through `old`.
- `MonthRange` (monthrange.dfy): the grid's month table, the `visibleMonths` filter, and the start/end month selectors.
- `DragSelection` (selection.dfy): the drag selection of `src/components/employees/EmployeeTable.tsx` as a pure reducer over mouse-down, mouse-enter and mouse-up. It also models the day limit and the before-hire/probation locks.
- `PositionHistory` (history.dfy): `getRussianWord`, `calculateDuration` and `formatDateRange` of `src/app/employees/page.tsx`.
- `TableSort` (sorting.dfy): the comparator of `sortedData` and the `requestSort` toggle of `src/ui/Table/hooks/useSort.ts`.

Points where the code behaves differently from what one might expect, modelled as the code does it:

- Only the click handler checks the before-hire and probation locks; a mouse-down on a locked day still starts a drag (`DragSelection.MouseDownIgnoresLocks`).
- The exact calculator's loop also counts the hire date itself, so it earns one month's share more than the simple calculator. Ten years with a 28-day rate give 280 days in simple mode (`Accrual.TenYearsWithOnePosition`).
- `addEmployee` spreads the given fields after `id: Date.now()`, and the POST handler passes the request body through. So an `id` in the body replaces the new id, and a taken one leaves two records under it (`EmployeeStore.AddWithTakenIdDuplicates`).
- `getHolidays` builds its dates with the `Date` constructor, which reads a year from 0 to 99 as 1900 to 1999 (`Calendar.HolidaysOfTwoDigitYear`).
- Both grid helpers decide February by `year % 4 == 0`, unlike `isLeapYear`; `MonthRange.TableMonthsAgreeWithCalendar` states exactly where the two rules differ (century years such as 2100).

## Model

| member | source | states |
|---|---|---|
| Calendar.MonthsWithDays | src/lib/dateUtils.ts:7-29 | twelve entries in calendar order with their Russian names; February has 29 days exactly in a Gregorian leap year, and every other month has its fixed length |
| Calendar.MonthsWithDaysCoverYear | src/lib/dateUtils.ts:7-33 | the table's month lengths add up to the length of the year (365 or 366), and each entry is that month's Gregorian length |
| Calendar.YearsList | src/lib/dateUtils.ts:3-5 | `count` consecutive years starting at the given year; the default count is 3, and a negative count gives no years |
| Calendar.LeapRulesDifferOnlyOnCenturies | src/lib/dateUtils.ts:31-33 | the Gregorian rule and the divisible-by-4 rule disagree exactly on century years not divisible by 400 |
| Calendar.LeapRulesAgreeThisCentury | src/lib/dateUtils.ts:31-33 | from 1901 to 2099 the two leap-year rules agree |
| Calendar.LeapYearExamples | src/lib/dateUtils.ts:31-33 | 2000 and 2024 are leap years; 1900, 2100 and 2025 are not, though the divisible-by-4 rule calls 1900 and 2100 leap |
| Calendar.WeekendIsWeekly | src/lib/dateUtils.ts:35-38 | whether a day is a weekend day repeats every seven days |
| Calendar.DayOfWeekNextDay | src/lib/dateUtils.ts:35-38 | the weekday advances by one each day and wraps from Saturday to Sunday |
| Calendar.GetDayType | src/lib/dateUtils.ts:40-52 | the day type is weekend exactly for weekend days, and it is never holiday |
| Calendar.Holidays | src/lib/dateUtils.ts:55-70 | thirteen dates in strictly increasing order, the first being 1 January, all in the requested year; a year from 0 to 99 stands for 1900 to 1999, as in the `Date` constructor |
| Calendar.HolidaysOfTwoDigitYear | src/lib/dateUtils.ts:55-57 | the holidays asked for year 50 start on 1 January 1950, those for 2025 on 1 January 2025 |
| Calendar.AddDays | src/components/employees/EmployeeTable.tsx:91-92 | `setDate(getDate() + k)` lands exactly `k` days later, across month and year ends |
| Calendar.AddDaysAdd | src/components/employees/EmployeeTable.tsx:91-92 | adding `j` days and then `k` days is adding `j + k` days |
| Calendar.AddDaysReaches | src/components/employees/EmployeeTable.tsx:86-92 | every date is reached from any other by adding the difference of their day numbers |
| Calendar.BeforeIffDayNumber | src/components/employees/EmployeeTable.tsx:86-89 | comparing two dates agrees with comparing their millisecond values at midnight |
| Calendar.DayNumberInjective | src/components/employees/EmployeeTable.tsx:86-89 | two different dates never have the same time value |
| Calendar.AddMonths | src/components/employees/EmployeeTable.tsx:291-292 | `setMonth(getMonth() + k)` moves the month index by `k`; a day beyond the target month's length overflows into the next month by at most three days |
| Calendar.AddMonthsNormalises | src/components/employees/EmployeeTable.tsx:291-292 | the result lies `day - 1` days after the first of the target month: a day that fits is kept, and one that does not runs on into the following month |
| Calendar.AddMonthsIsLater | src/components/employees/EmployeeTable.tsx:291-292 | moving forward by at least one month always gives a later date |
| Text.PadStart2 | src/hooks/useHolidaysCheck.ts:5-6 | the result is at least two characters long and ends with the input, preceded only by zeros |
| Text.Trim | src/app/employees/page.tsx:33 | with white space the full ECMAScript WhiteSpace and LineTerminator set, the result is the slice of the input that starts after its leading white space; everything before and after the slice is white space, and the slice neither starts nor ends with it |
| Text.TrimTrailingBlank | src/app/employees/page.tsx:29-33 | trimming a clean string followed by one blank gives back the clean string |
| HolidayCheck.FormatIsoDate | src/hooks/useHolidaysCheck.ts:4-7 | the built string ends in `-MM-DD`, with hyphens at the fixed positions |
| HolidayCheck.FormatIsoDateOfShortYear | src/hooks/useHolidaysCheck.ts:4-7 | the year is not padded: 1 January 999 is written "999-01-01", which is not an ISO 8601 date |
| HolidayCheck.ParseFormatIsoDate | src/hooks/useHolidaysCheck.ts:4-7 | every date's `YYYY-MM-DD` string reads back as that same date |
| HolidayCheck.FormatParseIsoDate | src/hooks/useHolidaysCheck.ts:4-7 | a string that reads as a date is exactly the string built from that date |
| HolidayCheck.FormatIsoDateInjective | src/hooks/useHolidaysCheck.ts:4-8 | different dates never share a string, so one list entry matches at most one date |
| HolidayCheck.IsPublicHolidayIff | src/hooks/useHolidaysCheck.ts:3-9 | a day is a holiday exactly when some entry of the list reads as that day; the time of day plays no part |
| HolidayCheck.CheckHoliday | src/hooks/useHolidaysCheck.ts:12-17 | the hook answers the list check on the fetched holidays, and `false` while no list has arrived |
| HolidayCheck.DbHolidaysOnlyIn2025 | src/lib/database.ts:140-146 | the database's fixed list names only days of 2025, so no day of another year is a holiday |
| Positions.AdditionalDaysByPosition | src/lib/common.ts:1-14 | the result lies between 0 and 10, and an unlisted title yields 0 |
| Positions.AdditionalDaysByPositionValues | src/lib/common.ts:1-14 | each of the eight titles maps to its table value; "Специалист" yields 0, the same as an unknown title |
| Positions.InvertedIntervalCoversNothing | src/lib/calculations.ts:41-44 | an interval whose end precedes its start matches no instant at all |
| Positions.OpenIntervalCoversFromStart | src/lib/calculations.ts:41-44 | an interval without an end matches every instant from its start on |
| Positions.FindPosition | src/lib/calculations.ts:96-105 | no interval is found exactly when none covers the instant; otherwise the result is the first covering interval in stored order |
| Positions.FindRelevantPosition | src/lib/calculations.ts:37-50 | the loop returns the first interval that covers the date, or nothing when none does |
| Positions.SeedHistoryLookup | src/lib/database.ts:43-76 | in the seed history the inverted record never applies, and in 2022 the earlier overlapping record wins over the open one |
| Accrual.NotYetHiredIsDateBefore | src/lib/calculations.ts:4-8 | an instant is before the hire date's midnight exactly when its calendar day is before the hire date |
| Accrual.MonthsWorked | src/lib/calculations.ts:80-94 | the months worked are never negative, and are zero when the end precedes the start |
| Accrual.MonthsWorkedIsWholeMonths | src/lib/calculations.ts:80-94 | the months worked are the number of whole months that fit: that many months after the start is not after the end, and one more month is |
| Accrual.DaysWorked | src/lib/utils/calculations.ts:61-72 | the inclusive count of calendar days from start to end: the start plus count-1 days is the end, and the count is 0 when the end precedes the start |
| Accrual.MonthSteps | src/lib/calculations.ts:16-27 | the loop runs at least once exactly when the hire date is not after today; its first step is the hire date, and one month after the last step is after today |
| Accrual.MonthStepsChain | src/lib/calculations.ts:18-27 | no month step is after today, and each step is one `setMonth` after the previous one |
| Accrual.CalculateVacationDays | src/lib/calculations.ts:3-35 | zero before hiring; otherwise the earned days are the accrual over every month step, and the available days are earned minus used, floored at zero |
| Accrual.AccruedOverBounds | src/lib/calculations.ts:18-27 | with rates between 0 and `max`, the accrual is non-negative and at most `max/12` per month step |
| Accrual.AccruedOverConstant | src/lib/calculations.ts:18-27 | when one position covers every step, each step adds exactly a twelfth of its yearly rate |
| Accrual.MonthStepsCount | src/lib/calculations.ts:18-27 | for a hire day up to the 28th, the loop runs once per whole month worked, plus once for the hire date itself |
| Accrual.CalculateVacationDaysSimple | src/lib/calculations.ts:53-78 | zero before hiring; otherwise one twelfth of the current yearly rate (28 without a current position) for each whole month worked, and the available days are earned minus used, floored at zero |
| Accrual.AdditionalYearlyRate | src/lib/utils/calculations.ts:26-28 | the position's own additional rate when it is present and non-zero, else its title's table value, and 0 without a current position |
| Accrual.CalculateVacationSummary | src/lib/utils/calculations.ts:4-44 | all five fields are zero before hiring; otherwise base days accrue a twelfth of the yearly rate per whole month and additional days a 365th of the additional rate per day worked, each balance is earned minus used floored at zero, and the total is their sum |
| Accrual.SummaryExtendsSimple | src/lib/utils/calculations.ts:18-33 | the five-field calculator agrees with the two-field one on earned and available base days |
| Accrual.SummaryAdditionalDays | src/lib/utils/calculations.ts:24-34 | additional days accrue one 365th of the additional rate for each day worked; the available additional days are that minus used (missing counts as 0), floored at zero |
| Accrual.ExactExceedsSimpleByOneMonth | src/lib/calculations.ts:15-71 | with one open position held since hiring (hire day up to the 28th), the exact calculator earns exactly one month's share more than the simple one |
| Accrual.TenYearsWithOnePosition | src/lib/calculations.ts:15-71 | hired 2015-05-15, reference day 2025-05-15 and a 28-day rate: the simple calculator earns 280 days and the exact one 280 + 28/12 |
| EmployeeStore.Merge | src/lib/database.ts:152 | every field of the merged record is the patch's value where the patch has one and the record's value otherwise |
| EmployeeStore.MergeLaws | src/lib/database.ts:152 | merging an empty patch changes nothing, and merging a patch twice is the same as merging it once |
| EmployeeStore.GetEmployee | src/lib/database.ts:150 | nothing is found exactly when no record has the id; otherwise the result is the first record with it |
| EmployeeStore.UpdateEmployee | src/lib/database.ts:151-154 | the length and order are kept; records with the id are merged with the patch, and all others are unchanged |
| EmployeeStore.UpdateEmployeeNone | src/lib/database.ts:151-154 | the update returns nothing exactly when no record has the id, or when the patch itself changes the id |
| EmployeeStore.UpdateEmployeeResult | src/lib/database.ts:151-154 | a patch that keeps the id returns the first matching record, merged |
| EmployeeStore.AddEmployee | src/lib/database.ts:155-162 | exactly one record is appended at the end and returned: the given fields under the new id, or under the id the fields carry when they carry one; the earlier records are untouched |
| EmployeeStore.WithId | src/lib/database.ts:156-159 | the new record carries every given field; its id is the carried one when there is one, and the new id otherwise, since the spread comes last |
| EmployeeStore.DeleteEmployee | src/lib/database.ts:163-167 | reports a removal exactly when some record had the id; afterwards no record has it, and every other record is kept |
| EmployeeStore.RemoveIdConcat | src/lib/database.ts:165 | the filter keeps the surviving records in their order |
| EmployeeStore.DeleteUndoesAdd | src/lib/database.ts:155-167 | adding a record under an id no record has makes it findable, and deleting that id restores the store |
| EmployeeStore.AddWithTakenIdDuplicates | src/lib/database.ts:155-167 | fields that carry a taken id add a second record under it: the lookup still finds the old record, and deleting the id removes both |
| MonthRange.TableMonthsWithDays | src/components/EmployeeTable.tsx:266-287 | twelve entries in calendar order; February has 29 days exactly when the year is divisible by 4, and every other month has its fixed length |
| MonthRange.TableMonthsAgreeWithCalendar | src/components/EmployeeTable.tsx:269 | the grid's table agrees with the Gregorian one except in century years not divisible by 400, where it shows a 29 February |
| MonthRange.TableMonths2100 | src/components/employees/EmployeeTable.tsx:423 | the grid gives February 2100 29 days, but the Gregorian calendar gives it 28 |
| MonthRange.VisibleMonths | src/components/EmployeeTable.tsx:23-25 | the kept entries are exactly those whose month lies in the range |
| MonthRange.VisibleMonthsConcat | src/components/EmployeeTable.tsx:23-25 | the filter keeps the original order |
| MonthRange.VisibleMonthsOfTable | src/components/employees/EmployeeTable.tsx:27 | on the twelve-month table, the visible months are the consecutive months from the range's start to its end, clipped to January–December |
| MonthRange.SetStartAsWritten | src/components/EmployeeTable.tsx:62-69 | the start becomes the chosen month; the end moves to the start plus one only when it is not after the start, so the range always spans two numbers |
| MonthRange.SetEndAsWritten | src/components/EmployeeTable.tsx:81-88 | the end becomes the chosen month; the start moves to the end minus one only when it is not before the end |
| MonthRange.AsWrittenShowsOneMonth | src/components/EmployeeTable.tsx:62-88 | choosing December as the start gives the range 12–13, and January as the end gives 0–1; either way the grid shows only one month |
| MonthRange.SetStart | src/components/EmployeeTable.tsx:62-69 | the corrected handler keeps a valid range of at least two real months and agrees with the original for every start up to November |
| MonthRange.SetEnd | src/components/EmployeeTable.tsx:81-88 | the corrected handler keeps a valid range of at least two real months and agrees with the original for every end from February on |
| MonthRange.ApplyEvents | src/components/EmployeeTable.tsx:60-93 | any run of selector choices, using the corrected handlers, leaves a valid range |
| MonthRange.CorrectedHandlersKeepTwoMonths | src/components/EmployeeTable.tsx:62-88 | whatever months are picked, the corrected grid shows at least two months |
| DragSelection.CalculateAvailableDays | src/components/employees/EmployeeTable.tsx:38-48 | for a date in the current year or earlier, the allowance is the stored pair of balances |
| DragSelection.FutureYearAddsOneAllotment | src/components/employees/EmployeeTable.tsx:38-48 | any later year adds exactly one yearly allotment to the limit: the base rate plus the last position's additional days |
| DragSelection.Span | src/components/employees/EmployeeTable.tsx:84-94 | the span has one day more than the distance between its ends, starts at the drag's start, ends at the hovered date, and steps one day at a time towards it |
| DragSelection.SpanReverse | src/components/employees/EmployeeTable.tsx:89-94 | dragging backwards covers the same days in the opposite order |
| DragSelection.SpanDistinct | src/components/employees/EmployeeTable.tsx:89-94 | no day appears twice in a span |
| DragSelection.MouseDown | src/components/employees/EmployeeTable.tsx:50-71 | with the selection at its limit nothing changes; otherwise a drag starts at the date, the employee's selection becomes that one day, and other employees keep theirs |
| DragSelection.MouseEnter | src/components/employees/EmployeeTable.tsx:73-107 | nothing changes without a drag on this employee; any change replaces only this employee's selection by the span to the hovered date, within the limit |
| DragSelection.MouseEnterRefusesLongSpans | src/components/employees/EmployeeTable.tsx:86-87 | during a drag on this employee, mouse-enter is refused exactly when the span is longer than the limit |
| DragSelection.MouseUp | src/components/employees/EmployeeTable.tsx:109-113 | the drag ends and every employee's selection is kept |
| DragSelection.StepPreservesWellFormed | src/components/employees/EmployeeTable.tsx:50-113 | each handler keeps the drag state consistent: both ends or neither, on one employee, whose selection is the span between them |
| DragSelection.RunPreservesWellFormed | src/components/employees/EmployeeTable.tsx:50-113 | every run of mouse events keeps the drag state consistent |
| DragSelection.ProbationLocks | src/components/employees/EmployeeTable.tsx:290-295 | before-hire and probation never overlap, the hire day itself is in probation, and a day is clickable exactly from six months after hiring on |
| DragSelection.MouseDownIgnoresLocks | src/components/employees/EmployeeTable.tsx:328-335 | a locked day cannot be clicked, yet mouse-down on it still selects it |
| DragSelection.FullSelectionBlocksMouseDown | src/components/employees/EmployeeTable.tsx:55-58 | once an employee's selection fills the limit, a press and release leaves only the drag ended |
| PositionHistory.RussianPluralIndex | src/app/employees/page.tsx:14-19 | the chosen form is one of the three, and the "many" form whenever the last two digits are 5 to 19 |
| PositionHistory.RussianPluralMatchesCldr | src/app/employees/page.tsx:14-19 | for every non-negative integer, the form chosen is the Russian one/few/many category of the Unicode CLDR plural rules |
| PositionHistory.RussianPluralExamples | src/app/employees/page.tsx:14-19 | 1 год, 3 года, 11 лет, 21 год, 5 месяцев, 22 месяца |
| PositionHistory.RenderDurationShape | src/app/employees/page.tsx:28-33 | the years part appears exactly when the year difference is positive and the months part exactly when the month difference is, separated by one blank |
| PositionHistory.CalculateDuration | src/app/employees/page.tsx:20-34 | a missing end gives "по настоящее время"; otherwise the years part appears exactly when the year-field difference is positive and the months part exactly when the month-field difference is, separated by one blank |
| PositionHistory.AsWrittenDurationDropsMonths | src/app/employees/page.tsx:25-30 | a span of under a year that crosses a year end reads "1 год" |
| PositionHistory.CalculateDurationCorrected | src/app/employees/page.tsx:20-34 | the corrected label also gives "по настоящее время" for a missing end |
| PositionHistory.CorrectedDurationAgrees | src/app/employees/page.tsx:25-33 | where no borrowing is needed, the corrected label is the original one |
| PositionHistory.CorrectedDurationBorrows | src/app/employees/page.tsx:25-33 | with a negative month difference, the corrected label turns one year into twelve months |
| PositionHistory.CorrectedDurationUnderAYear | src/app/employees/page.tsx:25-33 | a span of under a year is labelled with its months only |
| PositionHistory.FormatDateRange | src/app/employees/page.tsx:36-39 | the label is the formatted start, " - ", then the formatted end, or "н.в." for an open range |
| TableSort.CompareAsWritten | src/ui/Table/hooks/useSort.ts:12-30 | a missing left value sorts after; otherwise a missing right value sorts after; two strings order by `localeCompare` and two numbers numerically, reversed for descending; values of different kinds tie |
| TableSort.Compare | src/ui/Table/hooks/useSort.ts:12-30 | the corrected comparator equals the original except that two missing values compare equal |
| TableSort.CompareBeforeAsWritten | src/ui/Table/hooks/useSort.ts:12-30 | the corrected comparator is negative exactly when the original is, so the sort moves rows exactly as the code as written would |
| TableSort.CompareAsWrittenInconsistent | src/ui/Table/hooks/useSort.ts:16-17 | as written, two missing values each compare greater than the other |
| TableSort.CompareConsistent | src/ui/Table/hooks/useSort.ts:12-30 | the corrected comparator is antisymmetric: `a` before `b` exactly when `b` after `a`, and equal symmetrically |
| TableSort.PrecedesTransitive | src/ui/Table/hooks/useSort.ts:16-29 | "sorts strictly before" is transitive over all rows, mixed value kinds included |
| TableSort.MixedKindsTieNotTransitive | src/ui/Table/hooks/useSort.ts:18-29 | on a mixed column 1 ties with "x" and "x" ties with 2, yet 1 sorts before 2 |
| TableSort.NumericTiesTransitive | src/ui/Table/hooks/useSort.ts:16-27 | on a column of numbers and missing values, two ties in a row make a tie |
| TableSort.Insert | src/ui/Table/hooks/useSort.ts:12 | inserting adds exactly one row and loses none |
| TableSort.SortRows | src/ui/Table/hooks/useSort.ts:12 | the sorted copy is a permutation of the data |
| TableSort.SortRowsSorted | src/ui/Table/hooks/useSort.ts:12-30 | in the sorted copy no row sorts strictly before an earlier one |
| TableSort.SortedData | src/ui/Table/hooks/useSort.ts:8-31 | undefined data gives the empty list; without a configuration the data comes back as it is; otherwise the result is a permutation of the data |
| TableSort.SortedDataSorted | src/ui/Table/hooks/useSort.ts:8-31 | with a configuration, the sorted data is in order |
| TableSort.MissingSortLast | src/ui/Table/hooks/useSort.ts:16-17 | in sorted data, every row after one with a missing key also has a missing key |
| TableSort.NumbersInOrder | src/ui/Table/hooks/useSort.ts:25-27 | numeric keys are non-decreasing in ascending order and non-increasing in descending order |
| TableSort.RequestSort | src/ui/Table/hooks/useSort.ts:33-41 | a new key sorts ascending, and the current key flips its direction |
| TableSort.RequestSortTwice | src/ui/Table/hooks/useSort.ts:33-41 | requesting the current key twice restores the configuration; a new key goes ascending, then descending |

## Left out

- Time zones and daylight saving time are not modelled.
  - `new Date("YYYY-MM-DD")` parses as UTC midnight, while the getters read local time.
  - Millisecond differences are not whole days across a DST change.
  - All dates are calendar days at midnight, and an instant is a day plus milliseconds.
- Rounding by `toFixed(2)` and `parseFloat` is left out. Rates and balances are exact `real`s.
- `NaN`, infinities and `undefined` numbers are left out. `usedVacationDays || 0` is read as a plain number.
- `String.prototype.localeCompare` and `toLocaleDateString('ru-RU')` are parameters, since their results depend on the host's locale data.
- The times `new Date()`, `Date.now()` and the current year are parameters.
- The holiday list the hook fetches over the network is a parameter. Loading and error states are not modelled.
- React rendering, popovers (`setPopover`), cell colours and titles, the click handler's body, and `console.log` are left out.
- Saving and deleting vacation ranges are left out, because they are network calls only.
- `getEmployees` is left out: it returns the sequence unchanged.
- Positions.AdditionalDaysByPosition: looks the title up in a plain object. A title that names an inherited property, such as "constructor" or "toString", yields a function there and not 0. The model treats every unlisted title as yielding 0.
- Only `null` and an empty value are modelled for `to` in `calculateDuration` and `formatDateRange`. `!to` also treats an empty string as open.
- Accrual.DaysWorked: counts calendar days; it does not model the fractional day counts a DST change produces in the source's millisecond division.
- Accrual.MonthsWorkedIsWholeMonths: requires a start day up to the 28th. Later days overflow under `setMonth`, and no whole-month reading is claimed for them.
- Accrual.MonthStepsCount: requires a hire day up to the 28th, for the same reason.
- Accrual.ExactExceedsSimpleByOneMonth: only one open position held since hiring is compared. With several positions the two calculators use different rates for past months.
- TableSort.SortedDataSorted: holds of the model's insertion sort, not of the engine's sort, when a column mixes kinds. Numbers and strings (and `Other` against anything) compare equal, so "equal" is not transitive there (`TableSort.MixedKindsTieNotTransitive`). The comparator is then inconsistent in the sense of ECMA-262, and the engine's order is implementation-defined: a binary insertion sort can leave keys [2, "x", 1] as they are, which is not in order. On a column of numbers and missing values the ties are transitive (`TableSort.NumericTiesTransitive`).
- TableSort.PrecedesTransitive: the strict "before" relation is transitive on every column, but the tie relation is not on mixed-kind columns, so this alone does not make the comparator consistent.
- TableSort.SortRows: sorting is modelled by a stable insertion sort. Stability itself and the engine's actual algorithm are not stated.
- TableSort.SortRowsSorted: requires `localeCompare` to be antisymmetric and transitive, which the host's collation is expected to be. Like `TableSort.SortedDataSorted`, it describes the model's insertion sort; for mixed-kind columns the engine's order may differ.
- TableSort.Value: booleans, dates and objects are one kind, `Other`, which compares equal to everything. Strings, numbers and missing values are distinguished as in the source.

## Findings

| source | as written | input that shows it | evidently intended | confidence | as-written member | corrected member |
|---|---|---|---|---|---|---|
| src/components/EmployeeTable.tsx:62-69 | choosing a start with no room after it sets the end to start + 1 | start = December from the initial range: the range becomes 12–13, and only December is shown | at least two real months, so November–December | medium, not executed | MonthRange.AsWrittenShowsOneMonth | MonthRange.SetStart |
| src/components/EmployeeTable.tsx:81-88 | choosing an end with no room before it sets the start to end − 1 | end = January: the range becomes 0–1, and only January is shown | at least two real months, so January–February | medium, not executed | MonthRange.AsWrittenShowsOneMonth | MonthRange.SetEnd |
| src/app/employees/page.tsx:25-30 | year and month differences are shown separately, and a negative month difference is dropped | from November 2020 to February 2021 reads "1 год" | "3 месяца": months borrowed from the years | medium, not executed | PositionHistory.AsWrittenDurationDropsMonths | PositionHistory.CorrectedDurationUnderAYear |
| src/ui/Table/hooks/useSort.ts:16-17 | a missing left value returns 1 even when the right value is missing too | two rows whose sort key is `null`: each compares greater than the other, which the consistent-comparator requirement of `Array.prototype.sort` (ECMA-262) forbids | 0 for two missing values; mixed-kind columns stay inconsistent (see Left out) | low, not executed | TableSort.CompareAsWrittenInconsistent | TableSort.CompareConsistent |
