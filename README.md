# FlexTeam schedule store and statistics, in Dafny

This project models the scheduling logic of a small single-page application
that tracks, per employee and per working day, where the employee works:
office, remote (WFH), vacation, sick, event or meeting. A day without an
entry counts as office. The model covers two parts.

- **The schedule store of `App.tsx`.**
  - The store is one schedule per employee. Each schedule is a sparse map from date to entry.
  - Operations on it:
    - the status lookup with its Office default
    - the upsert of one entry
    - the Office/WFH click toggle
    - clearing the shown week or month
    - reconciling a saved store with the roster on load
    - merging an AI-generated weekly rotation by employee name and weekday name
  - Calendar helpers: the workdays of a month, the days of the week and month views, and the week-boundary marker.
  - The per-day office coverage and its Good/Fair/Low label.
- **The statistics dashboard of `components/StatisticsModal.tsx`.**
  - the month or year window, capped at today
  - per-employee counts per status and per-weekday WFH counts
  - team totals
  - the office-rate leaderboard
  - the heatmap scale and colour bands
  - the guarded percentage

Modules, one per file:

- `Calendar` (calendar.dfy): proleptic Gregorian civil dates.
  - `Ordinal` is the day number, for ordering and `addDays`.
  - Also `getDay`, `isWeekend`, `eachDayOfInterval`, the month and year bounds, and the Monday-started week.
  - A date is its own map key, because the source's `'yyyy-MM-dd'` key is injective on dates.
- `Types` (types.dfy): the records of `types.ts`, the configured roster and the weekday names of `constants.ts`.
- `Wrappers` (wrappers.dfy): `Option` and `indexOf`/`findIndex`.
- `ScheduleStore` (store.dfy): the store as a value `seq<EmployeeSchedule>` and its single-entry operations, the bulk clear and the load merge.
- `CalendarView` (view.dfy): `getMonthWorkdays` (its `while` loop as a method), `displayDays`, `clearPeriod` and `isNewWeek`.
- `Coverage` (coverage.dfy): `getOfficeCoverage` and `getCoverageStyle`.
- `Percent` (percent.dfy): `Math.round(value / total * 100)` in integer arithmetic, and `getPercentage`.
- `AiMerge` (ai_merge.dfy): the apply loop of `handleGenerateSchedule`.
  - The nested loops are methods.
  - Each is proved to apply exactly the list of single-entry writes the response produces.
  - The effect of that list is characterised by "the last write to an (employee, date) wins, nothing else changes".
- `Statistics` (statistics.dfy): the `dateRange`, `statistics`, `overallStats`, `leaderboard` and `maxWfhCount` memos, `getHeatmapColor`.

Each loop in the source is a method with loop invariants. These are the workdays walk, the key deletions, the two nested merge loops, the counting loop, the totals loop and the running maximum. Each method is proved against a specification function, or states its result outright. Loops that return a new value take and return values rather than mutating a shared store.

Two behaviours of the code that the model keeps as written:

- **The click toggle.** The code (`App.tsx:79`) sends Office to WFH and every other status to Office. `ScheduleStore.Toggle` does the same, and `CellClickTwice` states the consequence: a second click turns Vacation, Sick, Event or Meeting into WFH, not back into what it was.
- **The AI status.** The status in a generated rotation is cast to a status without a check (`App.tsx:116`). The model's `AiDay.status` is already a `WorkStatus`.

## Model

| member | source | states |
|---|---|---|
| Calendar.DaysBetween | components/StatisticsModal.tsx:47 | `eachDayOfInterval`: the list has one day per day number from start to end inclusive, in order (the source only reaches it with start <= end, which lines 41-44 guarantee; the model's empty list for end < start is never used) |
| Calendar.InDaysBetween | components/StatisticsModal.tsx:47 | a date is listed exactly when its day number lies between start and end |
| Calendar.Workdays | components/StatisticsModal.tsx:48 | `filter(d => !isWeekend(d))`: a date is kept exactly when it is listed and not a Saturday or Sunday |
| Calendar.WorkdaysAscending | components/StatisticsModal.tsx:47-48 | filtering an ascending list of days keeps it strictly ascending |
| Calendar.WorkdaysBetween | components/StatisticsModal.tsx:47-48 | the workdays of [a, b] are strictly ascending and are exactly the Monday-to-Friday dates with day number in [a, b] |
| Calendar.MondayStartedWeek | App.tsx:222 | the Monday-started week that `getWeek(day, { weekStartsOn: 1 })` numbers (`WeekKey`), and `isWeekend` as used at App.tsx:153 and components/StatisticsModal.tsx:48: of the seven days from a Monday the first five are weekdays and the last two weekend days, all seven share the Monday's week, and the next seven share the next week |
| Calendar.Next | App.tsx:156 | `addDays(current, 1)`: the next calendar date, one day number later |
| Calendar.AddDays | App.tsx:111 | `addDays(d, n)`: the date n day numbers after d |
| Calendar.DayOfWeek | components/StatisticsModal.tsx:90-91 | `getDay`: a weekday number from 0 (Sunday) to 6 (Saturday) |
| Calendar.FirstOfJanuary2024IsMonday | components/StatisticsModal.tsx:90-91 | the weekday numbering agrees with the real calendar: 2024-01-01 is day 1, a Monday |
| Calendar.InMonthIffBetween | App.tsx:147-148 | a date is in the month exactly when it lies between `startOfMonth` and `endOfMonth` |
| Calendar.InYearIffBetween | components/StatisticsModal.tsx:29-34 | a date is in the year exactly when it lies between `startOfYear` and `endOfYear` |
| Types.InitialEmployeesDistinct | constants.ts:4-11 | the configured roster has six employees with pairwise distinct ids and pairwise distinct names |
| Wrappers.IndexOf | App.tsx:104-109 | `indexOf`/`findIndex`: the first position holding the value, or None exactly when it is absent |
| ScheduleStore.FindSchedule | App.tsx:56 | `find` by employee id: None exactly when no schedule has the id, else the first schedule of the store with that id |
| ScheduleStore.EffectiveStatus | App.tsx:57 | the status a day reads as: its entry's status, or Office when the day has no entry (also components/StatisticsModal.tsx:86) |
| ScheduleStore.GetDayStatus | App.tsx:54-58 | the status of the first schedule with the id on that date; Office when the id is unknown or the date has no entry |
| ScheduleStore.UpdateStatus | App.tsx:60-73 | the list keeps its length and ids; schedules of other ids are unchanged; a schedule with the id gets `{date, status}` at the date and keeps its other days |
| ScheduleStore.UpdateStatusReads | App.tsx:60-73 | after an upsert for a known employee the day reads the new status and its entry carries no note; every other (employee, date) reads as before |
| ScheduleStore.UpdateStatusUnknown | App.tsx:62-63 | an upsert for an id with no schedule leaves the store unchanged |
| ScheduleStore.Toggle | App.tsx:79 | the toggle gives WFH exactly from Office and Office exactly from every other status |
| ScheduleStore.HandleCellClick | App.tsx:76-81 | a click for a known employee makes the day read the toggle of what it read, and every other (employee, date) reads as before; the list keeps its ids; a click for an unknown id changes nothing |
| ScheduleStore.CellClickTwice | App.tsx:76-81 | a click turns Office into WFH and every other status into Office; two clicks restore Office or WFH and turn any other status into WFH; other days and employees are untouched |
| ScheduleStore.ClearDays | App.tsx:139-141 | deleting the listed dates from a copy of the day map: keys are the old keys minus the dates, remaining entries unchanged |
| ScheduleStore.ClearDates | App.tsx:138-142 | every schedule keeps its id and position, loses exactly the listed dates and keeps every other entry, note included, unchanged; listed dates read Office for everyone, other dates read as before |
| ScheduleStore.LoadMerge | App.tsx:27-45 | one schedule per roster employee in roster order; the first saved schedule with that id is kept as is; no saved match, missing or unparseable storage give empty days |
| ScheduleStore.LoadMergeKeepsStatuses | App.tsx:33-36 | after loading, a roster employee reads exactly what they read in the saved store (Office everywhere without one), and ids outside the roster read Office |
| ScheduleStore.LoadMergeIdempotent | App.tsx:33-36 | merging an already merged store against the same roster changes nothing |
| CalendarView.MonthWorkdaysSpec | App.tsx:146-159 | the month's workdays are strictly ascending and are exactly the Monday-to-Friday dates of the month |
| CalendarView.CollectWorkdays | App.tsx:151-157 | the `while` loop from start to end keeping the non-weekend days yields the workdays of that interval |
| CalendarView.GetMonthWorkdays | App.tsx:146-159 | `getMonthWorkdays`: strictly ascending, all in the month, none on a weekend, every Monday to Friday of the month included |
| CalendarView.WeekDays | App.tsx:215-216 | the week view is five days, the i-th one i days after the week anchor |
| CalendarView.WeekDaysFromMonday | App.tsx:215-216 | from a Monday anchor the week view shows Monday to Friday in order, none on a weekend |
| CalendarView.InWeekDays | App.tsx:135 | a date is in the week view exactly when it is among the five days from the anchor |
| CalendarView.PeriodDates | App.tsx:134-136 | the dates to clear: five consecutive days from the week anchor in week view; in month view strictly ascending and exactly the month's Monday-to-Friday dates |
| CalendarView.InPeriodDates | App.tsx:134-136 | the shown dates are exactly the five days from the anchor (week view) or the month's workdays (month view) |
| CalendarView.DisplayDays | App.tsx:215-217 | `displayDays`: five consecutive days from the anchor in week view, the ascending month workdays in month view, and exactly the dates of the shown period |
| CalendarView.ClearPeriod | App.tsx:130-143 | after a confirmed clear every schedule keeps its id, loses exactly the entries on the shown period's dates and keeps every other entry unchanged; the period's dates read Office for every employee, every other date reads as before |
| CalendarView.WeekBoundaryIsMonday | App.tsx:219-229 | among the workdays of an interval, a day has a different Monday-started week from the day before it exactly when it is a Monday |
| CalendarView.IsNewWeek | App.tsx:226-229 | the separator is never drawn in week view or before the first day |
| CalendarView.MonthViewNewWeekOnMonday | App.tsx:219-229 | in month view `isNewWeek(i)` holds exactly when i > 0 and the i-th day is a Monday |
| Coverage.OfficeCount | App.tsx:266-270 | the number of roster employees reading Office on the day is at most the roster size |
| Coverage.OfficeCountAll | App.tsx:266-270 | the count equals the roster size exactly when every roster employee reads Office |
| Coverage.OfficeCountNone | App.tsx:266-270 | the count is zero exactly when no roster employee reads Office |
| Coverage.GetOfficeCoverage | App.tsx:263-272 | `count` is the Office count, `total` the roster size, `count <= total`, and `percentage` is 100·count/total rounded half up, within [0, 100] |
| Coverage.CoverageStyle | App.tsx:275-279 | `getCoverageStyle`'s label: Good exactly from 60, Fair exactly from 40 below 60, Low exactly below 40 |
| Coverage.CoverageStyleMonotone | App.tsx:275-279 | a higher percentage never gets a worse label (Low < Fair < Good) |
| Coverage.CoverageLabelForSix | App.tsx:263-279 | with the six-employee roster the label is Good exactly from four in the office, Fair exactly at three, Low exactly at two or fewer |
| Percent.RoundPercent | App.tsx:271 | `Math.round(v / t * 100)`: the whole number within one half of 100·v/t, halves up; at most 100 when v <= t |
| Percent.GetPercentage | components/StatisticsModal.tsx:172-174 | 0 when the total is 0, else the rounded percentage; within [0, 100] when value <= total |
| Percent.GetPercentageEnds | components/StatisticsModal.tsx:172-174 | all of a positive total is 100 percent and none of it 0 percent |
| AiMerge.ApplyWrites | App.tsx:114-117 | applying writes keeps the number of schedules and their ids |
| AiMerge.ApplyWritesAt | App.tsx:114-117 | the last write to an (employee, date) decides its entry; a pair no write targets keeps its entry or its absence |
| AiMerge.DayWrite | App.tsx:109-118 | a day entry naming WEEK_DAYS[k] yields exactly one write, of its status, into the record's schedule at weekStart + k; a name not in WEEK_DAYS yields none |
| AiMerge.DayWrites | App.tsx:107-119 | a record's writes all target its schedule and fall within the five days from weekStart, at most one per entry |
| AiMerge.RecordTarget | App.tsx:101-105 | the schedule a record resolves to: none unless its name is on the roster, else a position of the store whose id is that of the first roster employee with the name |
| AiMerge.RecordWrites | App.tsx:101-119 | a record whose name is not on the roster writes nothing; otherwise at most one write per day entry, all into the schedule with the id of the roster employee of that name, within the five days from weekStart |
| AiMerge.AiWrites | App.tsx:100-120 | soundness of the response's writes: every write targets the schedule of a roster employee and a date within the week, and a response naming nobody on the roster writes nothing (which entry decides a day is `LastEntryWins`) |
| AiMerge.ApplyDays | App.tsx:107-119 | the inner loop over one record's days applies exactly that record's writes |
| AiMerge.ApplyAiSchedule | App.tsx:97-120 | the apply loop applies exactly the response's writes in order, keeping the number of schedules and their ids |
| AiMerge.AiMergeReads | App.tsx:97-120 | after the merge a day reads the status of the last write to it, else what it read before; days outside the week and employees off the roster never change |
| AiMerge.UnknownNamesChangeNothing | App.tsx:101-102 | a response whose names are all off the roster leaves the store unchanged |
| AiMerge.LastEntryWins | App.tsx:100-120 | any entry q of any record p for a roster employee with a schedule, naming WEEK_DAYS[k], decides that employee's day weekStart + k after the merge, unless a later entry of the same record or of a later record resolving to the same schedule names the same weekday |
| AiMerge.DistinctWeekDayNames | constants.ts:22 | the five weekday names are pairwise distinct, so `indexOf` finds each at its own position |
| Statistics.InScopeIffBetween | components/StatisticsModal.tsx:29-34 | a date is in the month (or year) of the current date exactly when it lies between the window's start and end |
| Statistics.DateRange | components/StatisticsModal.tsx:28-60 | None exactly when the window starts after today; else the range starts at the window start and ends at the earlier of the window end and today |
| Statistics.DateRangeWorkdays | components/StatisticsModal.tsx:47-48 | the range's workdays are strictly ascending and are exactly the Monday-to-Friday dates of the window up to and including today |
| Statistics.StatusCounts.Add | components/StatisticsModal.tsx:88 | `statusCounts[status] += n` raises that status's count and the total by n and leaves the other counts unchanged |
| Statistics.CountStatus | components/StatisticsModal.tsx:82-88 | the number of days reading a status is at most the number of days |
| Statistics.CountWfhOn | components/StatisticsModal.tsx:91-96 | the WFH days on one weekday are at most all WFH days |
| Statistics.CountsConservation | components/StatisticsModal.tsx:80-104 | each day is counted under exactly one status: the six counts sum to the number of days |
| Statistics.WfhByWeekdaySum | components/StatisticsModal.tsx:77-100 | over Monday-to-Friday days, the five per-weekday WFH counts sum to the WFH count |
| Statistics.StatsTotal | components/StatisticsModal.tsx:104 | a row's `totalDays` equals the number of counted workdays (0 without a range) |
| Statistics.EmployeeStatistics | components/StatisticsModal.tsx:63-115 | a row carries the employee's identity, the per-status counts of its days over the range's workdays, their sum as `totalDays`, and the WFH count of each weekday, Monday first |
| Statistics.ComputeStatistics | components/StatisticsModal.tsx:62-118 | one such row per roster employee, in roster order |
| Statistics.AddCounts | components/StatisticsModal.tsx:132-134 | the inner loop adds each status's count of a row to the running totals |
| Statistics.OverallStats | components/StatisticsModal.tsx:121-139 | each team total is the sum of that status over the rows, and `total` is the sum of the team totals |
| Statistics.SumStatusTotals | components/StatisticsModal.tsx:137 | summing per status and then across statuses equals summing each row's tally |
| Statistics.OverallTotalOfStatistics | components/StatisticsModal.tsx:121-139 | for rows built by the statistics memo the sum of the rows' tallies and of their `totalDays` is roster size × number of workdays |
| Statistics.OverallStatsGrandTotal | components/StatisticsModal.tsx:121-139 | the `total` of overallStats over rows built by the statistics memo is roster size × number of workdays |
| Statistics.MaxWfhCount | components/StatisticsModal.tsx:153-161 | the scale is at least 1, bounds every per-weekday WFH count, and is 1 or attained by one of them |
| Statistics.HeatmapColor | components/StatisticsModal.tsx:163-170 | grey exactly for a zero count; otherwise the band of count/max above 0.75, 0.5, 0.25 |
| Statistics.HeatmapMonotone | components/StatisticsModal.tsx:163-170 | a larger count never gets a lighter band |
| Statistics.HeatmapExtremes | components/StatisticsModal.tsx:163-170 | a positive count at the maximum is darkest; a positive count at most a quarter of the maximum is lightest |
| Statistics.Active | components/StatisticsModal.tsx:144 | the filter keeps exactly the rows with a positive day total, each as often as it occurs in the input |
| Statistics.Insert | components/StatisticsModal.tsx:145-149 | inserting a row adds exactly that row to the list |
| Statistics.SortByRate | components/StatisticsModal.tsx:145-149 | the sort is a permutation of its input |
| Statistics.Leaderboard | components/StatisticsModal.tsx:142-150 | the leaderboard holds each row with a positive day total as often as the statistics do, and no other row |
| Statistics.InsertSpec | components/StatisticsModal.tsx:145-149 | inserting into a list ordered by rate adds exactly that row and keeps it ordered by non-increasing rate |
| Statistics.SortByRateSpec | components/StatisticsModal.tsx:145-149 | the sort is a permutation of its input ordered by non-increasing office rate |
| Statistics.LeaderboardSpec | components/StatisticsModal.tsx:142-150 | the leaderboard is a permutation of the rows with positive `totalDays`, holds exactly them, and is ordered by non-increasing office / totalDays |
| Statistics.LeaderboardEmptyWithoutRange | components/StatisticsModal.tsx:142-150 | with no counted period every row has `totalDays` 0, so the leaderboard is empty |

## Left out

- React plumbing is not modelled: rendering, `useState`/`useEffect`/`useMemo`, the `activeSelector` popup and the context-menu handler. Each state change is an operation on an explicit store value.
- Storage I/O is not modelled: `localStorage` and `JSON.parse`/`JSON.stringify`. `LoadMerge` takes the already parsed list. None stands for missing or unparseable storage.
- `window.confirm` is not modelled. `ClearPeriod` is the confirmed branch; a declined confirm changes nothing.
- The share/clipboard routine, `getWeekLabel`, `getPeriodLabel` and the previous/next navigation are not modelled. They are text formatting and browser calls with no store logic.
- The week anchor, the month anchor, the current date and "today" are parameters. The source reads them from `new Date()` and `startOfWeek`.
- The AI service call, its prompt and the async loading and error flags are not modelled. `ApplyAiSchedule` takes the already parsed response.
- ApplyAiSchedule: is given the store as it was when the request was sent. The handler's `schedules` is the value captured when the button was clicked (App.tsx:90). After awaiting the AI call (App.tsx:95) the handler copies that value (App.tsx:97) and replaces the whole state with the merged copy (App.tsx:122). Only the AI button is disabled meanwhile (App.tsx:379); cell clicks stay live (App.tsx:476). An upsert, toggle or clear made while the request is outstanding is therefore overwritten and lost. The model has a single store and no interleaving, so it does not show that lost update.
- `ApplyAiSchedule` works on values. The source's shallow array copy writes the new entries into the day maps of the live store. That in-place update and its aliasing are not captured; the resulting schedule values are the same.
- `AiDay`: the status is a `WorkStatus`. An out-of-enum string from the service, which the source casts without a check, cannot be expressed.
- `IsNewWeek` compares the Monday-started week (`WeekKey`, day number / 7) rather than the `getWeek` number. On consecutive workdays of one month the two tests agree. The week number itself and its year-boundary numbering are not modelled.
- `EmployeeStatistics` does not build `dayOfWeekOffice`. The source computes it and then discards it.
- `GetPercentage`, `RoundPercent` and `GetOfficeCoverage` use exact rational rounding. Floating-point division in the source could move an exact half slightly below .5 and round it down; that is not modelled.
- `LeaderboardSpec` proves that the result is a permutation ordered by non-increasing rate. It does not prove that the result is the same as the engine's stable sort's order among equal rates (the model's insertion sort is stable, but that is not stated).
- The `'yyyy-MM-dd'` string key and `format` are not modelled. Maps are keyed by the date itself, which the string rendering determines uniquely.
- Local time of day is not modelled. `today` is a date, and "end of today" is the end of that date. Dates are proleptic Gregorian civil dates.
