# Timesheet engine — a Dafny model

This project models the business core of a NestJS/Prisma time-tracking service. Users
record the periods they worked on a date (a *release* row per period). Holidays change how
a day is counted. A month is closed into a *payment* snapshot. A per-user *bank of hours*
accrues signed adjustments. The model covers these controllers:

- **Sort-based timesheet upsert** (`src/controllers/timesheet`). It parses `"HH:MM"` times
  and rejects inverted periods. It sorts by start and rejects adjacent overlaps. On a
  holiday it clamps each period to 08:00–17:00. It then updates the release whose id
  matches, or creates a new one.
- **Older timesheet create** (`src/http/timesheet`). It has a month-closed rule, strict
  start < end and an asymmetric pairwise overlap test. A holiday period is replaced by
  08:00–12:00. The merge path overwrites one release for every period.
- **Monthly closure**: a duplicate-payment guard, the month's hour sum times the hourly
  rate, and one payment row.
- **Bank-hours ledger**: create-or-accrue of the one BankHour row per user.
- **Holiday calendar**: bulk insert behind a duplicate-date check, replace-by-year, and
  the listing grouped by year.
- **Timesheet / user report listing**: releases grouped by date, each day projected from
  its first release.

The store is `Store.Database`, a class with one `seq` per table (`releases`, `holidays`,
`payments`, `bankHours`), the `users` map and `nextId`, a counter that stands in for
`uuidv4()`. Each controller is a method that `modifies` the database. Its `ensures` give
the whole new state in terms of specification functions, and lemmas prove the promised
properties about those functions.

The source's numbers are JavaScript numbers. `JsNumber.Num` is `NaN | Finite(int)`: NaN
absorbs arithmetic and makes every comparison false. `differenceInHours` truncates toward
zero (`JsNumber.TruncDiv`). An HTTP exception is a `Store.Failure`:

| Failure | exception |
|---|---|
| `Forbidden` | `ForbiddenException` |
| `InvertedPeriod` | `BadRequestException` (inverted) |
| `OverlappingPeriods` | `BadRequestException` (overlap) |
| `TimeOutOfRange` | `Error` from the upsert loop |
| `MonthClosed`, `InvalidTimeRange`, `EndNotAfterStart`, `RangesOverlap` | `BadRequestException`s of the older variant |
| `InvalidDate` | the `RangeError` that `toISOString` throws |
| `PaymentExists` | `ConflictException` |
| `HolidayExists` | `BadRequestException` (holiday create) |

Where the documented behaviour and the code differ, the model follows the code:

- `current_time_bank` is `Number(undefined)`, which is NaN, when the user has no bank row.
  It is not 0.
- The report listings keep every release of the user, with no month filter.

## Model

| member | source | states |
|---|---|---|
| TimeOfDay.ClockTextRoundTrip | src/controllers/timesheet/create-timesheet.controller.ts:127-130 | splitting a zero-padded `"HH:MM"` at `:` and reading both halves gives back exactly the hour and minute |
| TimeOfDay.ClockTextValidity | src/controllers/timesheet/create-timesheet.controller.ts:123-125 | a clock text is a valid time iff `h <= 23 && m <= 59`, and its minute count is `h*60+m` |
| TimeOfDay.ValidTimeMinutes | src/controllers/timesheet/create-timesheet.controller.ts:158-161 | a valid time has a defined minute count, equal to `hours*60+minutes` and within 0..1439 |
| TimeOfDay.MinutesFollowClockOrder | src/controllers/timesheet/create-timesheet.controller.ts:158-161 | for valid times, minute order is lexicographic (hour, minute) order |
| Text.JoinSplit | src/controllers/timesheet/create-timesheet.controller.ts:128 | `split` loses nothing: joining the fields with the separator gives back the text |
| Text.DecimalRoundTrip | src/controllers/timesheet/create-timesheet.controller.ts:128 | `Number` of a zero-padded decimal rendering of `n` is `n` |
| PeriodValidation.ValidatePeriods | src/controllers/timesheet/create-timesheet.controller.ts:132-156 | fails with "inverted" iff some start > end. Fails with "overlap" iff none is inverted and some adjacent start-sorted pair has end > next start. Passes iff neither holds |
| PeriodValidation.FindInverted | src/controllers/timesheet/create-timesheet.controller.ts:133-140 | the first loop finds a period iff some period's start is greater than its end |
| PeriodValidation.FindAdjacentOverlap | src/controllers/timesheet/create-timesheet.controller.ts:148-155 | the second loop finds a pair iff some period of the sorted copy ends after the next one starts |
| PeriodValidation.SortByStart | src/controllers/timesheet/create-timesheet.controller.ts:142-146 | the sorted copy is a permutation of the periods |
| PeriodValidation.SortByStartSorted | src/controllers/timesheet/create-timesheet.controller.ts:142-146 | when every start parses, the copy is ordered by start minute |
| PeriodValidation.AcceptedPeriodsAreDisjoint | src/controllers/timesheet/create-timesheet.controller.ts:142-155 | accepted parsed periods are pairwise disjoint as half-open intervals |
| PeriodValidation.DisjointPeriodsAreAccepted | src/controllers/timesheet/create-timesheet.controller.ts:132-155 | conversely, pairwise disjoint non-empty periods are accepted |
| PeriodValidation.PairAccepted | src/controllers/timesheet/create-timesheet.controller.ts:137-152 | two periods are accepted iff neither is inverted and the earlier-starting one ends no later than the other starts |
| PeriodValidation.TouchingPeriodsAccepted | src/controllers/timesheet/create-timesheet.controller.ts:152 | 09:00–12:00 with 12:00–13:00 is accepted (strict `>`) |
| PeriodValidation.OverlappingPeriodsRejected | src/controllers/timesheet/create-timesheet.controller.ts:152 | 09:00–13:00 with 12:00–17:00 is rejected |
| PeriodValidation.EmptyPeriodOrderMatters | src/controllers/timesheet/create-timesheet.controller.ts:142-152 | the stable sort ties equal starts. 10:00–10:00 then 10:00–12:00 is accepted; the reverse order is rejected |
| TimesheetUpsert.AdjustForHolidayBounds | src/controllers/timesheet/create-timesheet.controller.ts:70-84 | on a holiday, start becomes max(start, 08:00) and end becomes min(end, 17:00). Otherwise the times are unchanged |
| TimesheetUpsert.AdjustForHolidayIdempotent | src/controllers/timesheet/create-timesheet.controller.ts:70-84 | clamping twice equals clamping once |
| JsNumber.TruncDiv | src/controllers/timesheet/create-timesheet.controller.ts:86 | the quotient truncates toward zero: the remainder has the dividend's sign and is smaller than the divisor |
| JsNumber.TruncDivOdd | src/controllers/timesheet/create-timesheet.controller.ts:86 | truncating division is odd: `-x` gives the negated quotient |
| TimesheetUpsert.RecordedHoursBounds | src/controllers/timesheet/create-timesheet.controller.ts:86 | the stored total is the whole hours of the clamped span, `h*60 <= len < h*60+60`. It is at most 9 on a holiday |
| TimesheetUpsert.HolidayClampScenarios | src/controllers/timesheet/create-timesheet.controller.ts:70-86 | 06:00–20:00 counts 9 hours on a holiday and 14 otherwise. 18:00–20:00 on a holiday is clamped to 18:00–17:00 and counts −1 |
| TimesheetUpsert.ReleasesOn | src/controllers/timesheet/create-timesheet.controller.ts:43-48 | the snapshot holds exactly the caller's releases on that date |
| TimesheetUpsert.FindById | src/controllers/timesheet/create-timesheet.controller.ts:88 | finds a snapshot release with the period's id, and finds none iff no release has it |
| TimesheetUpsert.UpsertStepEffect | src/controllers/timesheet/create-timesheet.controller.ts:88-112 | an id match overwrites that release's total, raw start/end text and description, and keeps its holiday flag. Otherwise one new release with `holiday = isHoliday` is appended |
| TimesheetUpsert.FirstInvalidStops | src/controllers/timesheet/create-timesheet.controller.ts:54-60 | the first out-of-range period throws, after every earlier period has been written |
| TimesheetUpsert.FailedStaysPut | src/controllers/timesheet/create-timesheet.controller.ts:54-60 | once the loop has thrown, later periods change nothing |
| TimesheetUpsert.NoFailureOnValid | src/controllers/timesheet/create-timesheet.controller.ts:54-60 | when every time is in range, the loop does not throw |
| TimesheetUpsert.UpsertKeepsOtherRows | src/controllers/timesheet/create-timesheet.controller.ts:88-113 | rows of other users or dates are untouched. No row changes id, user, date or holiday flag. One id is used per created row |
| TimesheetUpsert.WritePeriod | src/controllers/timesheet/create-timesheet.controller.ts:55-113 | one loop iteration leaves the store as `UpsertStep` says |
| TimesheetUpsert.ComputeSpan | src/controllers/timesheet/create-timesheet.controller.ts:55-84 | the minute counts of both clock readings, cut to 08:00-17:00 on a holiday, form the span `WorkedSpan` defines |
| TimesheetUpsert.StorePeriod | src/controllers/timesheet/create-timesheet.controller.ts:88-113 | a period whose id names a snapshot row overwrites that row and uses no id. Any other period appends one row with the next id, the target user, date and holiday flag, and uses one id. No other table changes |
| TimesheetUpsert.WritePeriods | src/controllers/timesheet/create-timesheet.controller.ts:54-114 | the loop leaves the store as the fold `UpsertAll` says |
| TimesheetUpsert.CreateTimesheet | src/controllers/timesheet/create-timesheet.controller.ts:29-115 | forbidden, inverted or overlapping requests write nothing. Otherwise the store is the upsert fold over the periods, and the call fails iff some time is out of range |
| HttpTimesheet.MonthClosedIsEarlier | src/http/timesheet/create-timesheet.controller.ts:98-103 | for months 1..12, a month is closed iff (year, month) is lexicographically before the current (year, month) |
| HttpTimesheet.MonthClosedEdges | src/http/timesheet/create-timesheet.controller.ts:98-103 | the current month is never closed. Month 13 rolls over to January of the next year |
| HttpTimesheet.HourOfDay | src/http/timesheet/create-timesheet.controller.ts:52-53 | `getHours()` is NaN exactly for an invalid instant and otherwise lies in 0..23 |
| HttpTimesheet.NoBadHour | src/http/timesheet/create-timesheet.controller.ts:51-57 | the hour-range check can never reject a period |
| HttpTimesheet.CheckPeriods | src/http/timesheet/create-timesheet.controller.ts:50-80 | the checks run in order. The first that fires decides the failure, and the call passes iff none fires |
| HttpTimesheet.PairOverlapsMeaning | src/http/timesheet/create-timesheet.controller.ts:76 | for ordered periods, the test in either direction equals intersection. The test `(i, j)` misses only when i strictly contains j |
| HttpTimesheet.PassedPeriodsDisjointOrNested | src/http/timesheet/create-timesheet.controller.ts:68-80 | after the checks pass, any earlier period is disjoint from a later one or strictly contains it |
| HttpTimesheet.ContainmentOrderMatters | src/http/timesheet/create-timesheet.controller.ts:69-80 | the containing period first passes, and the contained period first is rejected |
| HttpTimesheet.AdjustPeriod | src/http/timesheet/create-timesheet.controller.ts:108-122 | a period maps iff its start is valid and its end is valid or replaced. Only then is no `RangeError` thrown. A non-holiday period keeps its instants and its description |
| HttpTimesheet.AdjustAll | src/http/timesheet/create-timesheet.controller.ts:108-122 | the map succeeds iff every period maps, and then it is the element-wise result |
| HttpTimesheet.HolidayReplacement | src/http/timesheet/create-timesheet.controller.ts:113-115 | a holiday period becomes 08:00–12:00 of its start's day, whatever was submitted, and counts 4 hours |
| HttpTimesheet.PeriodHours | src/http/timesheet/create-timesheet.controller.ts:189-191 | a period's hour difference is a number iff both instants are valid |
| HttpTimesheet.SumHoursFinite | src/http/timesheet/create-timesheet.controller.ts:186-195 | the accumulated total is a number iff every period has two valid instants |
| HttpTimesheet.SumHoursAppend | src/http/timesheet/create-timesheet.controller.ts:186-195 | the total over a concatenation is the sum of the totals |
| HttpTimesheet.CalculateTotalTime | src/http/timesheet/create-timesheet.controller.ts:186-195 | the loop's accumulator ends as the sum of the periods' truncated hour differences |
| HttpTimesheet.MergedTotalIgnoresReplacement | src/http/timesheet/create-timesheet.controller.ts:144-161 | on a holiday an 06:00–20:00 period is stored as 08:00–12:00, but the merged total counts 14 hours |
| HttpTimesheet.FindFirstOnDate | src/http/timesheet/create-timesheet.controller.ts:84-88 | finds the first release of any user on the date, and none iff no release has that date |
| Store.UpdateReleaseLastWins | src/http/timesheet/create-timesheet.controller.ts:163-175 | two successive updates of one release equal the second update alone |
| HttpTimesheet.CreateRows | src/http/timesheet/create-timesheet.controller.ts:124-141 | the create loop appends exactly `NewRows` |
| HttpTimesheet.MergeRows | src/http/timesheet/create-timesheet.controller.ts:163-175 | the update loop leaves exactly `Merged` |
| HttpTimesheet.HttpCreateTimesheet | src/http/timesheet/create-timesheet.controller.ts:30-96 | every failure leaves the releases untouched. The order is permission, month, checks, then the invalid-date map. The store then holds the merge into the date's first release or the new rows |
| MonthlyClosure.MonthReleases | src/http/users/close-user-report.controller.ts:37-48 | keeps exactly the user's releases dated in (year, month) |
| MonthlyClosure.SumTotalsAppend | src/http/users/close-user-report.controller.ts:49 | the reduce is additive over concatenation |
| MonthlyClosure.SumTotalsFinite | src/http/users/close-user-report.controller.ts:49 | the sum is a number iff every summed total is one |
| MonthlyClosure.MonthTotalIgnoresOthers | src/http/users/close-user-report.controller.ts:44-49 | a release of another user or month does not change the total |
| MonthlyClosure.MonthTotalCountsOwn | src/http/users/close-user-report.controller.ts:44-49 | a release of that user and month adds its total |
| MonthlyClosure.SumTotalsUniform | src/http/users/close-user-report.controller.ts:49 | n releases of h hours sum to n*h |
| MonthlyClosure.HourValue | src/http/users/close-user-report.controller.ts:68 | the stored `hour_value` is NaN exactly when the user is missing |
| MonthlyClosure.CurrentTimeBank | src/http/users/close-user-report.controller.ts:51-55 | the bank balance is a number iff the user has a bank row, and then it is that row's hour |
| MonthlyClosure.AppendPaymentKeepsKeysUnique | src/http/users/close-user-report.controller.ts:19-29 | after the guard, adding the payment keeps one payment per (user, year, month) |
| MonthlyClosure.CloseUserReport | src/http/users/close-user-report.controller.ts:14-88 | forbidden and duplicate closures write nothing. Otherwise exactly the snapshot is appended, and `pay.total` equals the stored `total_value` |
| MonthlyClosure.CloseTwice | src/http/users/close-user-report.controller.ts:19-88 | a second closure of the same month is refused. After a successful first closure the payment table is the old one plus exactly that closure's snapshot, and releases, bank hours, holidays and users are unchanged |
| MonthlyClosure.MayClosureScenario | src/http/users/close-user-report.controller.ts:44-58 | twenty 8-hour releases in May 2024 give 160 hours, and 8000 at a rate of 50 |
| BankLedger.FindBank | src/http/users/user-bank.controller.ts:35-39 | finds a row of the user, and none iff the user has no row |
| BankLedger.AdjustEffect | src/http/users/user-bank.controller.ts:41-61 | afterwards the user's balance is the old one plus the delta, with the new date. A new row is `(id, user, date, delta, description)`, and an updated row keeps its id and description |
| BankLedger.AdjustKeepsRowsUnique | src/http/users/user-bank.controller.ts:35-61 | each user keeps at most one row |
| BankLedger.AdjustKeepsOthers | src/http/users/user-bank.controller.ts:53-56 | other users' rows and balances are untouched |
| BankLedger.UpdateUserBank | src/http/users/user-bank.controller.ts:23-62 | without `PATCH_USER` nothing is written. Otherwise the table becomes `Adjust` of it, and an id is used only on creation. The guarded copy under src/controllers/users/user-bank.controller.ts:23-62 runs the same logic |
| BankLedger.ApplyAllBalance | src/controllers/users/user-bank.controller.ts:41-61 | after any sequence of adjustments, a user's balance is the old one plus the sum of their deltas |
| BankLedger.SumForPermutation | src/http/users/user-bank.controller.ts:41-61 | a user's delta sum does not depend on the order of the adjustments |
| BankLedger.ApplyAllOrderIndependent | src/http/users/user-bank.controller.ts:41-61 | the final balance is the same for any reordering of the adjustments |
| HolidayCalendar.InsertHolidays | src/http/holiday/create-holiday.controller.ts:26-46 | a request with any already-stored date, of any year, writes nothing. Otherwise exactly the new rows are appended after the unchanged old ones |
| HolidayCalendar.CreateHoliday | src/controllers/holiday/create-holiday.controller.ts:25-49 | the same behind `POST_HOLIDAY`. Without it nothing is written |
| HolidayCalendar.InsertKeepsDatesUnique | src/controllers/holiday/create-holiday.controller.ts:32-44 | an accepted insert keeps dates unique iff the request repeats no day |
| HolidayCalendar.RepeatedDayAccepted | src/controllers/holiday/create-holiday.controller.ts:32-44 | a day given twice passes the check and is inserted twice |
| HolidayCalendar.WithoutYear | src/controllers/holiday/update-holiday.controller.ts:29-33 | the delete keeps only rows of other years, taken from the store |
| HolidayCalendar.DatesOfYearWithout | src/controllers/holiday/update-holiday.controller.ts:29-33 | after the delete the year has no dates, and every other year keeps its dates |
| HolidayCalendar.DatesOfYearNew | src/controllers/holiday/update-holiday.controller.ts:35-43 | the recreated rows give that year exactly the given days, and no other year any |
| HolidayCalendar.ReplaceYearEffect | src/controllers/holiday/update-holiday.controller.ts:29-43 | afterwards the year's dates are exactly the given days, and other years are unchanged |
| HolidayCalendar.ReplaceYearIdempotent | src/controllers/holiday/update-holiday.controller.ts:29-43 | replacing twice with the same days gives every year the same dates as replacing once |
| HolidayCalendar.UpdateHoliday | src/controllers/holiday/update-holiday.controller.ts:22-44 | without `PUT_HOLIDAY` nothing is deleted. Otherwise the table becomes the year's replacement |
| HolidayCalendar.GroupByYear | src/http/holiday/list-holiday.controller.ts:20-34 | groups come in ascending year, one per year present and only those. Each lists that year's formatted dates in store order, no group is empty, and the group sizes sum to the number of holidays |
| HolidayCalendar.FindYear | src/http/holiday/list-holiday.controller.ts:24 | the `acc[year]` lookup finds the group of that year, or reports that no group has it |
| HolidayCalendar.AddToGroup | src/controllers/holiday/list-holiday.controller.ts:25-36 | one reduce step keeps the grouping an exact description of the rows seen so far |
| HolidayCalendar.NoDaysWithoutYear | src/controllers/holiday/list-holiday.controller.ts:25-39 | a year with no holiday has no days |
| HolidayCalendar.DaysOfYearPresent | src/controllers/holiday/list-holiday.controller.ts:25-39 | a year that occurs among the holidays has at least one day |
| HolidayCalendar.GroupsNonEmpty | src/controllers/holiday/list-holiday.controller.ts:25-39 | no group of a grouping that describes the holidays is empty |
| HolidayCalendar.ListHolidays | src/controllers/holiday/list-holiday.controller.ts:13-40 | without `GET_HOLIDAY` it is forbidden. Otherwise it returns that grouping of the stored holidays, with no empty group |
| TimesheetReport.UserReleases | src/http/timesheet/list-timesheet.controller.ts:26-44 | the always-truthy filter keeps exactly the user's releases, with no month filter |
| TimesheetReport.FindPayment | src/http/timesheet/list-timesheet.controller.ts:32-38 | finds a payment with that (user, year, month), and none iff there is none |
| TimesheetReport.DistinctDatesMeaning | src/http/timesheet/list-timesheet.controller.ts:58-72 | the day keys are distinct, and they are exactly the dates that occur |
| TimesheetReport.GroupByDate | src/http/timesheet/list-timesheet.controller.ts:58-69 | one group per distinct date, in first-appearance order. Each holds exactly that date's periods in store order, and the group sizes sum to the number of releases |
| TimesheetReport.CanonicalGroupsDescribe | src/http/timesheet/list-timesheet.controller.ts:58-69 | the grouping by distinct date counts every release exactly once |
| TimesheetReport.FirstOn | src/http/timesheet/list-timesheet.controller.ts:74 | `find` returns the first release on the date, and none iff there is none |
| TimesheetReport.DayOf | src/http/timesheet/list-timesheet.controller.ts:72-81 | `businessDay` is the negated holiday flag of the date's first release, and `total` is its total |
| TimesheetReport.DaysOf | src/http/timesheet/list-timesheet.controller.ts:72-81 | one entry per group, in group order, each projected from its group as `DayOf` states |
| TimesheetReport.ReportFor | src/http/timesheet/list-timesheet.controller.ts:40-90 | `closed` is `''`. Month and year come from the payment or else the parameters. Total and balance are `''` without a payment. No releases gives `days = []`, and every day is projected as above |
| TimesheetReport.ReportCountsEveryRelease | src/http/timesheet/list-timesheet.controller.ts:58-81 | over all days every release of the user is listed exactly once, and no day is empty |
| TimesheetReport.ListTimesheet | src/http/timesheet/list-timesheet.controller.ts:13-91 | without `GET_TIMESHEET` it is forbidden. Otherwise it returns the caller's report |
| TimesheetReport.GetUserReport | src/http/users/get-existent-user-report.controller.ts:13-91 | without `GET_USER` it is forbidden. Otherwise it returns the report of the path `id` |

## Left out

- Time zone and DST:
  - local time is taken to be UTC everywhere, so `getHours`, `getDate` and `toISOString` agree on one calendar;
  - `Date` normalisation of out-of-range months and days is not modelled beyond the month arithmetic of the closed-month rule;
  - the two-digit-year quirk of `new Date(y, …)` is not modelled;
  - the valid range of `Date` instants is not modelled.
- `new Date(text)`: the date parser is not modelled. The older variant receives each period's instants already as milliseconds, NaN for an invalid date. Dates are `(year, month, day)` triples.
- `Number(text)`: modelled for digit strings only (the empty string gives 0). Signs, decimals, whitespace and exponents give NaN.
- `TimeText`: `String(number)` and raw strings are kept as values, not rendered. A `"YYYY-MM-DD"` day key is the date triple, and `toISOString()` text is the instant.
- PeriodValidation.SortByStart: insertion sort gives the unique stable order when every start parses. With a NaN start the comparator is inconsistent, and the model ties such comparisons.
- MonthlyClosure.CloseUserReport:
  - the runtime string `year` parameter is modelled as the declared number. As a string, the `===` at src/http/users/close-user-report.controller.ts:47 is false for every release, so the source would close every month with a total of 0 hours;
  - the two `new Date()` readings are one `now` parameter.
- HolidayCalendar.UpdateHoliday: the undecorated `year` parameter is modelled as the declared number.
- HttpTimesheet.HttpCreateTimesheet: the route's `year` is a runtime string too and is modelled as the declared number. It reaches `isMonthClosed` (src/http/timesheet/create-timesheet.controller.ts:98-103), where `new Date` coerces it, and the Prisma `where` of `getHolidays` (lines 106, 146 and 178-181), which the model reads as a numeric year filter.
- HttpTimesheet.IsHolidayStart: the stored-date `===` ISO-string test at src/http/timesheet/create-timesheet.controller.ts:113 is modelled as day-key equality. With a `DateTime` column the comparison is always false in the source.
- HttpTimesheet.HttpCreateTimesheet:
  - its `jwt` is typed without `id`; the caller is a parameter;
  - the stored `holiday: ''` is `false`.
- The http user-bank controller has no auth guard, so its resource set is taken as given. Both user-bank controllers share `BankLedger.UpdateUserBank`.
- `hourValue` is an integer: decimal rates and floating-point rounding are not modelled.
- BankLedger.UpdateUserBank: `balance` is `z.number()` (src/http/users/user-bank.controller.ts:10), so the source accepts fractional doubles. The model takes balances and bank hours as integers; fractional balances and floating-point rounding of `Number(hour) + Number(balance)` (line 59) are not modelled.
- BankLedger.ApplyAllBalance: holds for integer deltas only. With fractional doubles each addition rounds, so the final balance need not be the old one plus the exact sum.
- BankLedger.SumForPermutation: holds for integer deltas only. Floating-point sums of fractions depend on order: 0.1 + 0.2 + 0.3 gives 0.6000000000000001, and in reverse order 0.6.
- BankLedger.ApplyAllOrderIndependent: holds for integer deltas only. For fractional deltas the source's final balance can depend on the order of the calls.
- Zod validation pipes, JWT guards and Prisma connection handling are framework behaviour and not modelled.
- Store order is `seq` order; Prisma makes no promise of row order.
- Concurrency and read-then-write races between requests are not modelled.
- `uuidv4()` is a counter; fresh ids are assumed never to collide.
- Calendar.DateToStrBR is a plain `dd/MM/yyyy` rendering with no time-zone conversion.
