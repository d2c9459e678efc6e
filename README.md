# codeLog statistics, modelled in Dafny

codeLog is a browser tracker of coding time. The user logs hours per date,
with an optional note, legacy tags and a per-technology breakdown. The
application then derives statistics from the log list. This project models
that derived-statistics layer and proves what each statistic means.

- **The log list** (`App.tsx`): the upsert and delete handlers, the period
  memo (weekly, monthly, yearly, last-year totals and the top tag of each
  period), the today/yesterday/last-week/last-month comparison, the current
  and longest streak, and the achievement pass with its catalogue
  (`lib/achievements.ts`).
- **The dashboards**: the performance indicator and the report card, the
  comparison dashboard, the stat card's progress percentage, the two
  heat-maps (colour buckets, the one-year day range, the Monday-first grid,
  the month labels), the recent-log history, the filter controls, the
  project manager, the entry form, the 7-day moving average, the weekday
  histogram, the tag pie chart, the weekly review and the per-technology
  report.
- **Helpers**: `formatDuration` (`lib/utils.ts`) and the tag-to-language
  lookup (`lib/languageUtils.ts`).

Dates are day numbers: day 0 is 1970-01-01, a Thursday. `Calendar` converts
them to and from (year, month, day), with the month 0-based as `getMonth`
returns it. Hours are `real`. A JavaScript `Map` that is read in insertion
order becomes an association list (`TagTotals.TagMap`). A JavaScript
`Array.prototype.sort` becomes the stable insertion sort `Sorting.Sort`
under the source's own comparator. "Now" is always a parameter (`today`,
`now`).

State the source mutates is modelled as classes:
- `LogStore.Store`: the log list and its two handlers.
- `AchievementPass.AchievementTracker`: the unlocked record and the toast queue.
- `LogForm.FormState`: the entry form's fields.
- `ProjectManager.Editor`: the project list and the new-project fields.

Loops in the source are methods with invariants, each proved equal to the
function that specifies it. The properties of the source are lemmas about
those functions.

## Model

| member | source | states |
|---|---|---|
| Types.SumIfMono | App.tsx:138-149 | a total over a wider selection of non-negative logs is at least the total over a narrower one |
| Types.SumIfDisjoint | App.tsx:151-153 | two selections that never pick the same log sum to at most the all-time total |
| Sorting.Sort | App.tsx:61 | the sort returns a permutation of its input |
| Sorting.SortSorted | App.tsx:61 | under a total, transitive comparator the sort's result is ordered |
| Sorting.SortOfSorted | App.tsx:61 | sorting an already ordered list leaves it unchanged |
| Sorting.SortHead | App.tsx:158 | stability: the first element after sorting is the earliest of the least elements |
| Sorting.SortMembers | App.tsx:61 | sorting neither adds nor loses members |
| Sorting.SortedSet | App.tsx:243 | a set turned into a sorted array holds each member exactly once, in order |
| Text.Trim | components/ProjectManager.tsx:22 | the trimmed string neither starts nor ends with white space |
| Text.TrimEmptyIffBlank | components/ProjectManager.tsx:17 | a string trims to nothing exactly when it is all white space |
| Text.TrimIdempotent | lib/languageUtils.ts:36 | trimming twice is trimming once |
| Text.ToLower | lib/languageUtils.ts:36 | lower-casing keeps the length and maps each ASCII capital A-Z to its small letter, leaving every other character |
| Text.NatToString | lib/utils.ts:8 | the numeral of a number is digits with no leading zero |
| Text.ParseNatToString | lib/utils.ts:8 | reading a numeral back gives the number it was written from |
| Text.ByStringTotal | components/LogForm.tsx:59 | the default string order is total and transitive |
| Text.SortedMembers | components/FilterControls.tsx:13-19 | the members of a set, sorted, are strictly increasing and hold exactly the set |
| Calendar.Weekday | lib/achievements.ts:59 | `getDay` lies in 0..6 and is 0 exactly on Sundays |
| Calendar.WeekdayNext | components/Heatmap.tsx:16-26 | the weekday advances by one each day and repeats every 7 days |
| Calendar.DaysSinceMonday | App.tsx:96 | the days back to Monday are at most 6 and land on a Monday |
| Calendar.StartOfWeek | App.tsx:94-98 | the week's Monday is at most 6 days before the date and is a Monday |
| Calendar.CivilFromDays | App.tsx:100 | the calendar date of a day has a month in 0..11 and a day in 1..31, and converts back to that day |
| Calendar.CivilFromDaysValid | App.tsx:100 | the day of the month lies within the month's Gregorian length (28 or 29 for February by the leap rule, 30 or 31 otherwise) |
| Calendar.CivilUnique | App.tsx:100 | every valid date is the one returned for its own day number, so getFullYear, getMonth and getDate are determined |
| Calendar.YearLengthLeap | App.tsx:100 | the year from 1 March has 366 days exactly when the year it ends in is a Gregorian leap year |
| Calendar.StartOfMonth | App.tsx:100-101 | the first of the month is on or before the date, in the same year and month, day 1 |
| Calendar.StartOfYear | App.tsx:103-104 | January 1st of the date's year is on or before the first of its month |
| Calendar.StartOfPrevMonth | App.tsx:205 | the first of the previous month precedes the first of this month and carries the previous month, wrapping the year |
| Calendar.StartOfPrevYear | App.tsx:106-107 | January 1st of the previous year precedes this year's January 1st |
| Calendar.FirstOfMonth | App.tsx:204 | the first of any month converts back to that month |
| Calendar.PrevMonthSpan | App.tsx:204-213 | a day lies from the first of the previous month up to the first of the current month exactly when its month index (12 × year + month) is one less than today's |
| Calendar.WeekSpan | App.tsx:188-196 | the days whose Monday-first week starts at a given Monday are exactly the seven days from it |
| TagTotals.Add | App.tsx:127 | `map.set` keeps the key order and appends a new key at the end |
| TagTotals.AddGet | App.tsx:133 | after an addition the tag holds its old hours plus the new ones; other tags are unchanged |
| TagTotals.AddDistinct | App.tsx:124-136 | additions keep one entry per tag |
| TagTotals.GetMissing | App.tsx:127 | a tag never set reads as 0 (`get(tag) \|\| 0`) |
| TagTotals.TopTag | App.tsx:156-159 | `findTopTag` is undefined exactly for an empty map |
| TagTotals.TopTagIsFirstMax | App.tsx:156-159 | the top tag has maximal hours, and on a tie it is the tag inserted first |
| Periods.ProcessTags | App.tsx:124-136 | the two `forEach` loops of `processTags` give the functional accrual of one log |
| Periods.AccrueGet | App.tsx:124-136 | one log adds its breakdown hours, or else its even legacy share per listed tag, to each tag |
| Periods.AccrueShape | App.tsx:124-136 | accrual keeps keys distinct, never shrinks the map, fills it for a tagged log, and leaves it unchanged otherwise |
| Periods.TagHoursGet | App.tsx:121-154 | a period's tag map holds, per tag, the sum of the credits of that period's logs |
| Periods.TagHoursShape | App.tsx:121-154 | a period's tag map has one entry per tag and is empty exactly when no selected log is tagged |
| Periods.TopTagOfPeriod | App.tsx:156-169 | a period's top tag is absent exactly when no log of the period is tagged, and otherwise is a first maximum |
| Periods.BoundsAt | App.tsx:92-110 | the week and month start on or before today, the year starts no later than the month, and last year ends the day before this year |
| Periods.PeriodTotals | App.tsx:92-171 | with the boundaries taken from today, the loop's weekly, monthly, yearly, last-year and all-time totals and top tags are the sums and top tags of the nested selections |
| Periods.PeriodTotalsWithin | App.tsx:112-171 | for any period boundaries, the loop's weekly, monthly, yearly, last-year and all-time totals and top tags are the sums and top tags of the nested selections |
| Periods.PeriodNesting | App.tsx:138-149 | week ≤ month ≤ year ≤ all-time totals, all non-negative |
| Periods.LastYearDisjoint | App.tsx:151-153 | last year's and this year's totals together are at most the all-time total |
| Periods.WeeklyDropsPreviousMonth | App.tsx:144-147 | on Tuesday 2024-10-01, a 5-hour log on Monday 2024-09-30 is missing from the weekly total as written |
| Periods.FirstOctober2024 | App.tsx:94-101 | day 19997 is the first of its month and its week began on day 19996 |
| Periods.WeekTotal | App.tsx:144-147 | the intended weekly total is at least the total as written and at most the all-time total |
| Periods.WeekTotalAgrees | App.tsx:138-149 | the two weekly totals agree whenever the week began in the current month |
| Periods.WeekTopTag | App.tsx:144-147 | the intended weekly top tag is absent exactly when no log since this week's Monday is tagged, and equals the top tag as written whenever the week began in the current month |
| Periods.WeekTagsAgree | App.tsx:138-149 | the weekly tag maps accrued as written and as intended are equal whenever the week began in the current month |
| Periods.TagHoursSame | App.tsx:123-134 | two period tests that agree on every log accrue the same tag map |
| Periods.WeeklyTopTagDropsPreviousMonth | App.tsx:144-147 | on Tuesday 2024-10-01, a Monday 2024-09-30 log tagged "Go" leaves the weekly top tag undefined as written, while the intended one is defined |
| Periods.HoursOnIsDayTotal | App.tsx:177 | with one log per date, the hours found for a day are that day's total |
| Periods.ComparisonStats | App.tsx:174-222 | with one log per date, today's and yesterday's hours are those days' totals; last week's hours are the total of exactly the logs whose Monday-first week is the one before the current week, and last month's hours the total of exactly the logs whose calendar year and month are the month before the current one |
| Periods.LastWeekIsWeekBefore | App.tsx:187-201 | the window from the Monday 7 days before this week's Monday through the Sunday before it selects exactly the logs of the previous week |
| Periods.LastMonthIsMonthBefore | App.tsx:203-214 | the window from the first of the previous month through the day before this month's first selects exactly the logs of the previous calendar month |
| Periods.LastWeekWindow | App.tsx:188-196 | last week runs from a Monday to the Sunday before this week's Monday |
| Periods.LastWeekDisjoint | App.tsx:187-201 | last week's and this week's totals together are at most the all-time total |
| Periods.LastMonthDisjoint | App.tsx:203-214 | last month's and this month's totals together are at most the all-time total |
| LogStore.FindDateIndex | App.tsx:48 | `findIndex` gives the first index with the date, or -1 when no log has it |
| LogStore.WithoutDate | App.tsx:73 | the filtered list is a subsequence of the logs (order kept) holding every log of another date as often as the logs do and no log of the deleted date, so it is exactly the filter |
| LogStore.Store.constructor | App.tsx:45 | the store starts with the given logs |
| LogStore.Store.AddLog | App.tsx:45-70 | the new list is the upsert of the entry; the "saved" toast fires exactly when the date existed or the hours are positive |
| LogStore.Store.DeleteLog | App.tsx:72-76 | the new list is the old one without that date's logs |
| LogStore.UpsertExisting | App.tsx:49-57 | on an existing date, non-positive hours remove that entry and positive hours replace it in place |
| LogStore.UpsertNew | App.tsx:59-63 | on a new date, positive hours append the entry and re-sort by date; otherwise nothing changes |
| LogStore.UpsertLookup | App.tsx:45-64 | with one log per date, an upsert keeps one log per date, sets the entry's date and keeps every other date's entry |
| LogStore.UpsertKeepsSorted | App.tsx:45-64 | an upsert keeps a date-ordered list ordered |
| LogStore.LookupUnique | App.tsx:48 | with one log per date, the lookup finds exactly the member with that date |
| LogStore.DeleteSum | App.tsx:73 | every total over the list after a delete is the total over the other dates' logs |
| LogStore.DeleteLookup | App.tsx:73 | after a delete the date has no entry, and every other date keeps its entry |
| Streaks.CountCurrentStreak | App.tsx:224-239 | the walk-back loop returns the current streak |
| Streaks.CurrentStreakMeaning | App.tsx:224-239 | the streak is the run of consecutive logged days ending today, or yesterday when today has no log, and the day before the run has no log |
| Streaks.RunIsMaximal | App.tsx:234-237 | every day of a run is logged, and the day before it is not |
| Streaks.LongestStreak | App.tsx:241-261 | the loop over the sorted distinct dates returns the longest run of consecutive logged days (0 with no logs) |
| Streaks.LongestRun | App.tsx:245-259 | over two or more sorted distinct days, the loop's maximum is the longest run of consecutive logged days |
| Streaks.RunStep | App.tsx:250-255 | in the sorted dates, a run continues exactly when consecutive dates are one day apart |
| Streaks.CurrentAtMostLongest | App.tsx:224-261 | the current streak never exceeds the longest |
| Streaks.SingleDayRuns | App.tsx:244-246 | with no two adjacent logged days the longest streak is 1 |
| Achievements.CatalogueIds | lib/achievements.ts:3-135 | every badge is in the catalogue once, and no two badges share an id |
| Achievements.Evaluate | lib/achievements.ts:3-135 | one badge's test, run as a method, agrees with its unlock condition |
| Achievements.CountBadges | lib/achievements.ts:9-23 | the count badges unlock at 1, 10 and 50 logs, each implying the one before; 500 hours implies 100 hours |
| Achievements.StreakBadges | lib/achievements.ts:44-51 | the streak badges depend only on the streak; 30 days implies 7 |
| Achievements.LongDayBadges | lib/achievements.ts:68-82 | the single-day badges need strictly more than 8, 10 and 12 hours; each implies the one below |
| Achievements.EliteAverageMeaning | lib/achievements.ts:89-98 | the 30-day average badge holds exactly when the logs since 30 days ago total at least 300 hours |
| Achievements.TagProUnlocked | lib/achievements.ts:105-108 | filling the set of legacy tags unlocks exactly at 5 distinct tags |
| Achievements.NoteCount | lib/achievements.ts:116 | at most one note counts per log |
| Achievements.NoteTakerHasTenLogs | lib/achievements.ts:116 | the note badge implies the ten-log badge |
| Achievements.BlankNotesDoNotCount | lib/achievements.ts:116 | blank notes never count toward the note badge |
| Achievements.WeekKey | lib/achievements.ts:126-129 | the marathoner week number is at least 1 |
| Achievements.WeekKeySpan | lib/achievements.ts:126-129 | two dates with the same week key are less than 7 days apart |
| Achievements.SumByWeek | lib/achievements.ts:124-131 | the `forEach` leaves a map holding exactly the weeks of the logs, each with its total hours |
| Achievements.LongWeekInMap | lib/achievements.ts:132 | the map has a week over 40 hours exactly when some week of the logs has one |
| Achievements.MarathonerUnlocked | lib/achievements.ts:123-133 | the marathoner badge unlocks exactly when some week holds more than 40 hours |
| AchievementPass.NewStateMeaning | App.tsx:268-278 | the new record holds exactly the badges that hold; a stored badge keeps its date and a new one gets `now` |
| AchievementPass.JustUnlockedMeaning | App.tsx:273-276 | an id is reported as just unlocked exactly when it holds now and was not stored |
| AchievementPass.JustUnlockedDistinct | App.tsx:266-276 | no id is reported twice, and every reported id is a catalogue badge |
| AchievementPass.SameIdsSameRecord | App.tsx:280-285 | when the id lists are equal, the new record is the stored one, so skipping the write loses nothing |
| AchievementPass.PassIdempotent | App.tsx:264-290 | re-running the pass on its own result, at any later time, changes nothing and reports nothing |
| AchievementPass.NothingNew | App.tsx:287-289 | when every badge that holds is already stored, no toast is queued |
| AchievementPass.DatesArePreserved | App.tsx:270-272 | a badge that was unlocked and still holds keeps its original date |
| AchievementPass.AchievementTracker.constructor | App.tsx:264-266 | the tracker starts from the stored record with no pending toasts |
| AchievementPass.AchievementTracker.Reevaluate | App.tsx:264-290 | the record becomes the pass's new record, and the just-unlocked ids are appended to the toast queue |
| PerformanceIndicator.DirectionFromPrevious | components/PerformanceIndicator.tsx:28-47 | with a positive previous value the arrow points up exactly above +0.1% and down exactly below -0.1% |
| PerformanceIndicator.FromNothing | components/PerformanceIndicator.tsx:28-33 | from a zero previous value any positive current value shows +100% up, and zero shows neutral |
| PerformanceIndicator.ShownIsAbsolute | components/PerformanceIndicator.tsx:49 | the shown percentage is the absolute change, never negative |
| PerformanceIndicator.EqualIsNeutral | components/PerformanceIndicator.tsx:35-47 | equal values are neutral at 0% |
| PerformanceIndicator.MoreIsNeverWorse | components/PerformanceIndicator.tsx:28-47 | a larger current value never gives a worse direction |
| PerformanceIndicator.ChangeMonotone | components/PerformanceIndicator.tsx:28-33 | the percentage change grows with the current value |
| ComparisonDashboard.MetricMeaning | components/ComparisonDashboard.tsx:21-38 | the difference is hidden exactly when under 0.01 hours; otherwise it is green and signed "+" exactly when current exceeds previous |
| ComparisonDashboard.SwapFlips | components/ComparisonDashboard.tsx:21-38 | swapping the two values keeps visibility and flips the direction |
| StatCard.PercentageCases | components/StatCard.tsx:11 | progress is 0 without a goal, the ratio below the goal, capped at 100 at or over it, and never negative for non-negative hours |
| StatCard.PercentageMonotone | components/StatCard.tsx:11 | more hours never lower the progress |
| Reports.AllTechs | components/ReportsPage.tsx:88-94 | the technology list is strictly sorted and holds exactly the technologies of some breakdown |
| Reports.TechSetMeaning | components/ReportsPage.tsx:88-94 | a technology is in the set exactly when some log's breakdown lists it |
| Reports.ComputeTechStats | components/ReportsPage.tsx:96-120 | the loop over the logs gives the stats of the selected technology |
| Reports.FindFirst | components/ReportsPage.tsx:104 | `find` gives the first breakdown entry for the technology |
| Reports.TallyBounds | components/ReportsPage.tsx:105-111 | the count is at most the logs, zero exactly when the total is zero and no best day exists; the best day's hours bound every counted log |
| Reports.BestDayIsFirstMax | components/ReportsPage.tsx:108-110 | the best day is the first log with the most hours for the technology |
| Reports.StatsMeaning | components/ReportsPage.tsx:96-120 | no stats without a selection; the average times the count is the total, and it lies between 0 and the best day |
| Heatmap.LevelRange | components/Heatmap.tsx:31-39 | colour bucket k covers the hours in (1.5(k-1), 1.5k]; 6 is above 7.5; 0 is no log or no positive hours |
| Heatmap.LevelMonotone | components/Heatmap.tsx:31-39 | more hours never give a lighter colour |
| Heatmap.HoursOnMeaning | components/Heatmap.tsx:14 | the hours shown for a day are those of the last log with that date |
| Heatmap.YearWindow | components/Heatmap.tsx:16-18 | the year before today is 365 or 366 days back |
| Heatmap.DayRange | components/Heatmap.tsx:21-26 | the loop lists every day from the start to the end, one per day |
| Heatmap.ShownDays | components/Heatmap.tsx:16-26 | the grid shows 365 or 366 consecutive days ending today |
| Heatmap.PaddingIsMondayFirst | components/Heatmap.tsx:28-29 | the padding is the days since Monday, so every cell sits in its weekday's row |
| Heatmap.LabelsSpaced | components/Heatmap.tsx:48-51 | any two month labels are more than three week columns apart |
| Heatmap.LabelsAtChanges | components/Heatmap.tsx:41-54 | every label sits where the month changes, and the first day is labelled |
| Heatmap.MonthLabelsOf | components/Heatmap.tsx:41-54 | the loop over the days builds the month labels |
| Heatmap.DayLabels | components/Heatmap.tsx:41-54 | the first label names the first day's month in column 0; labels are spaced; every label names the month of a shown day that starts a month, or of the first day, in that day's column |
| HexbinHeatmap.RowIsMondayFirst | components/HexbinHeatmap.tsx:49 | the start row is the days since Monday: Monday 0, Sunday 6 |
| HexbinHeatmap.ColumnsCoverDays | components/HexbinHeatmap.tsx:65 | the column count is enough for every day, and each day sits at its column and row |
| HexbinHeatmap.MonthsOf | components/HexbinHeatmap.tsx:61-78 | every month read off a day lies in 0..11 |
| HexbinHeatmap.HexMonthLabels | components/HexbinHeatmap.tsx:61-78 | the loop over the columns builds the month labels |
| HexbinHeatmap.FirstSample | components/HexbinHeatmap.tsx:67-70 | the first label sits over the first column that starts on a Monday |
| HexbinHeatmap.HexLabels | components/HexbinHeatmap.tsx:61-78 | the first label is over the first Monday, labels are spaced, and every label is in range over a Monday |
| LogHistory.RecentLogsMeaning | components/LogHistory.tsx:40-48 | the recent logs are newest first and are exactly the logs of the last ten days |
| LogHistory.RecentCounts | components/LogHistory.tsx:46 | the filter keeps every qualifying log as often as it occurs |
| LogHistory.RecentLogsOfSorted | components/LogHistory.tsx:47 | on a list already newest first, the recent logs are just the filter |
| LogHistory.RecentKeepsAll | components/LogHistory.tsx:40-48 | when all logs are recent, the list is their newest-first order |
| LogHistory.FormatDateMeaning | components/LogHistory.tsx:22-37 | a date is labelled Today exactly when it is today and Yesterday exactly when it is the day before; two other dates share a label exactly when their weekday, month and day of the month agree |
| LogHistory.LabelOmitsYear | components/LogHistory.tsx:36 | the label carries no year: 1 January 2015 and 1 January 2026, both Thursdays, get the same label |
| LogHistory.ChipsMeaning | components/LogHistory.tsx:71-82 | at most four chips are shown, and the "+ more" count is the rest |
| FilterControls.AllTags | components/FilterControls.tsx:13-19 | the tag list is strictly sorted and holds exactly the tags of some log |
| FilterControls.TagSetMeaning | components/FilterControls.tsx:13-19 | a tag is in the set exactly when some log lists it |
| FilterControls.HiddenIffNothing | components/FilterControls.tsx:23-25 | the controls hide exactly when there are no projects and no tags |
| FilterControls.ProjectActive | components/FilterControls.tsx:48 | a project button is drawn active exactly when the filter type is project and its value is that project's id |
| FilterControls.DividerShown | components/FilterControls.tsx:53 | the divider is drawn exactly when there are both projects and tags |
| FilterControls.TagActive | components/FilterControls.tsx:58 | a tag button is drawn active exactly when the filter type is tag and its value is that tag |
| FilterControls.ClearShown | components/FilterControls.tsx:63-70 | the Clear Filter button is drawn exactly when a filter type is set |
| FilterControls.ActiveButtons | components/FilterControls.tsx:46-70 | over the sorted, duplicate-free tag list at most one tag button is active, no project button is active beside an active tag button, and any active button comes with the Clear Filter button |
| ProjectManager.IndexOf | components/ProjectManager.tsx:27 | `indexOf` gives the first position of the colour, or -1 |
| ProjectManager.ColorsDistinct | components/ProjectManager.tsx:9 | the palette's colours are pairwise distinct |
| ProjectManager.NextColorCycles | components/ProjectManager.tsx:27 | the next colour follows the current one in the palette, wrapping at the end |
| ProjectManager.StoredNameMeaning | components/ProjectManager.tsx:22 | the stored name is the trimmed input, non-empty for a non-blank input |
| ProjectManager.Editor.constructor | components/ProjectManager.tsx:12-13 | the editor starts with no name and the first palette colour |
| ProjectManager.Editor.AddProject | components/ProjectManager.tsx:15-28 | a blank name changes nothing; otherwise the project is appended with the trimmed name and current colour, the name is cleared, and the colour advances |
| LogForm.ParseHours | components/LogForm.tsx:46 | `parseFloat(hours) \|\| 0`: a number reads as itself, anything else as 0 |
| LogForm.Without | components/LogForm.tsx:59 | removing a tag drops every copy of it and keeps the others |
| LogForm.TogglePresent | components/LogForm.tsx:57-61 | toggling a selected tag removes it, keeps the others and keeps a sorted list sorted |
| LogForm.ToggleAbsent | components/LogForm.tsx:57-61 | toggling an unselected tag adds it once and sorts the list |
| LogForm.ToggleTwice | components/LogForm.tsx:57-61 | on a sorted list without duplicates, toggling twice gives back the list |
| LogForm.LoadSubmit | components/LogForm.tsx:21-55 | loading a date and submitting unchanged sends the same date, hours, note and tags |
| LogForm.FormState.constructor | components/LogForm.tsx:14-19 | the form starts empty |
| LogForm.FormState.ToggleTag | components/LogForm.tsx:57-61 | the selected tags become the toggled list; nothing else changes |
| LogForm.FormState.Submit | components/LogForm.tsx:44-55 | without a date nothing happens; with one, the entry is sent, the fields are cleared and the save is marked |
| LogForm.FormState.Load | components/LogForm.tsx:21-30 | right after a save the load is skipped once; otherwise the fields come from the date's first entry or are blank |
| MovingAverage.SumByDate | components/MovingAverageChart.tsx:12-15 | the map holds exactly the logged dates, each with its summed hours |
| MovingAverage.MovingAverages | components/MovingAverageChart.tsx:9-40 | the grouping, the day loop and the slice build the chart's series |
| MovingAverage.AveragesFrom | components/MovingAverageChart.tsx:21-38 | the `while` loop yields one point per day from the start date + 6 through the end date, each the 7-day window sum over 7 |
| MovingAverage.WindowTotal | components/MovingAverageChart.tsx:26-32 | the inner loop's sum is the day totals of the 7 days ending at the current date |
| MovingAverage.LastNAt | components/MovingAverageChart.tsx:39 | `slice(-30)` keeps the last 30 points, or all of them |
| MovingAverage.MinDate | components/MovingAverageChart.tsx:17-18 | the first sorted date is a logged date no later than any log |
| MovingAverage.MaxDate | components/MovingAverageChart.tsx:17-19 | the last sorted date is a logged date no earlier than any log |
| MovingAverage.SortedEnds | components/MovingAverageChart.tsx:17-19 | the sorted key list starts at the earliest date and ends at the latest |
| MovingAverage.WindowIsRange | components/MovingAverageChart.tsx:26-32 | the inner loop sums the hours logged in the 7 days ending at the point |
| MovingAverage.ShortLogsNoChart | components/MovingAverageChart.tsx:10 | fewer than 7 logs give no chart |
| MovingAverage.ChartLength | components/MovingAverageChart.tsx:22-39 | the chart has one point per day from 6 days after the earliest logged date to the latest logged date, the last 30 kept |
| MovingAverage.ChartAt | components/MovingAverageChart.tsx:25-38 | point i is dated back from the latest date and holds its 7-day sum over 7 |
| MovingAverage.ChartPoints | components/MovingAverageChart.tsx:25-39 | the points are consecutive days, each the average of the logged hours in its 7-day window |
| MovingAverage.ChartBounded | components/MovingAverageChart.tsx:25-38 | every average is non-negative and at most the busiest day of its window |
| MovingAverage.DayHoursSplit | components/MovingAverageChart.tsx:14 | a date's total is the sum of exactly the logs of that date |
| Productivity.HoursByDay | components/ProductivityChart.tsx:10-15 | the loop fills the seven weekday buckets, Sunday first |
| Productivity.Max | components/ProductivityChart.tsx:19 | the maximum is one of the buckets and at least every bucket |
| Productivity.HistogramTotal | components/ProductivityChart.tsx:10-15 | the buckets add up to the total hours |
| Productivity.HiddenIffNoHours | components/ProductivityChart.tsx:22-24 | with non-negative hours the chart is hidden exactly when there are no hours |
| Productivity.PercentageBounds | components/ProductivityChart.tsx:33 | a bar is between 0% and 100%, and the maximum is 100% |
| Productivity.BarsInRange | components/ProductivityChart.tsx:31-33 | every bar is between 0% and 100%, and the busiest day's bar is 100% |
| TagAnalysis.TagMapOf | components/TagAnalysis.tsx:15-22 | the nested loops fill the tag map, each tag getting the log's full hours |
| TagAnalysis.FullTagHoursMeaning | components/TagAnalysis.tsx:15-22 | every tag holds its full credit, keys are distinct, and the keys are exactly the tags used |
| TagAnalysis.TagDataRows | components/TagAnalysis.tsx:23-25 | the rows are distinct tags, sorted by hours, largest first, each with its full credit |
| TagAnalysis.NothingWithoutTags | components/TagAnalysis.tsx:28-30 | nothing is drawn exactly when no log has a non-empty tag list |
| TagAnalysis.ChartData | components/TagAnalysis.tsx:40-56 | the loop advancing `cumulativePercent` gives the slices |
| TagAnalysis.SlicesLength | components/TagAnalysis.tsx:42 | one slice per row |
| TagAnalysis.SliceAt | components/TagAnalysis.tsx:42-47 | slice i is row i's share, starting where the rows before it end |
| TagAnalysis.CumulativeIsShare | components/TagAnalysis.tsx:45 | the running fraction is the rows' hours over the total |
| TagAnalysis.SlicesTile | components/TagAnalysis.tsx:40-56 | the slices tile the circle from 0 to 1 without gaps |
| TagAnalysis.TwoRowsAtMostTotal | components/TagAnalysis.tsx:32 | two different rows together hold at most the total |
| TagAnalysis.AtMostOneLargeArc | components/TagAnalysis.tsx:47 | at most one slice has its large-arc flag set |
| TagAnalysis.LegendTop | components/TagAnalysis.tsx:80 | the legend shows the first ten rows, and no omitted row outweighs a shown one |
| WeeklyReview.LastWeekWindow | App.tsx:318-325 | the window is the whole Sunday-to-Saturday week before the current one |
| WeeklyReview.LastWeekLogsMeaning | App.tsx:327-330 | a log is kept exactly when it falls in the window, in log order |
| WeeklyReview.DayTotals | components/WeeklyReviewModal.tsx:16-20 | the loop fills the per-weekday map |
| WeeklyReview.BusiestDay | components/WeeklyReviewModal.tsx:22-29 | the scan returns the busiest weekday index |
| WeeklyReview.ComputeStats | components/WeeklyReviewModal.tsx:11-44 | the memo's body computes the week's stats |
| WeeklyReview.ScanRange | components/WeeklyReviewModal.tsx:22-29 | the busiest index is -1 or a weekday |
| WeeklyReview.ScanFindsFirstMax | components/WeeklyReviewModal.tsx:22-29 | the scan finds the first weekday with the most hours |
| WeeklyReview.DayMapNonNegative | components/WeeklyReviewModal.tsx:16-20 | weekday sums of non-negative hours are non-negative and keyed by weekday |
| WeeklyReview.StatsTotal | components/WeeklyReviewModal.tsx:12-14 | an empty week has no stats; otherwise the total is the week's hours |
| WeeklyReview.BusiestDayMeaning | components/WeeklyReviewModal.tsx:22-31 | the busiest day is a logged weekday with the most hours, the earliest on a tie |
| WeeklyReview.TopTagsMeaning | components/WeeklyReviewModal.tsx:33-41 | the top tags are at most three distinct tags, largest first, none outweighed by a tag left out |
| WeeklyReview.MessageTiers | components/WeeklyReviewModal.tsx:46-51 | more hours never give a lower tier, and the fresh-start message is exactly for no positive hours |
| Duration.FormatDuration | lib/utils.ts:2-13 | "0m" exactly for zero minutes |
| Duration.Pad2 | lib/utils.ts:11 | the padded minutes are two digits that read back as the minutes |
| Duration.FormatRoundTrip | lib/utils.ts:2-13 | the formatted string reads back as the minute count |
| Duration.FormatInjective | lib/utils.ts:2-13 | different minute counts never format the same |
| Duration.FormatShapes | lib/utils.ts:7-12 | a positive duration under an hour is a numeral with no leading zero and then "m", with no "h"; a whole number of hours is such a numeral and then "h"; otherwise the hours numeral, "h ", exactly two minute digits and "m"; each numeral reads back as the hours or the minutes |
| Language.BuildTagToLanguage | lib/languageUtils.ts:23-28 | the nested loops build the reverse map |
| Language.ReverseKeys | lib/languageUtils.ts:23-28 | the reverse map holds exactly the listed aliases |
| Language.ReverseLast | lib/languageUtils.ts:24-27 | an alias maps to the last language listing it |
| Language.ReverseInverts | lib/languageUtils.ts:23-28 | with disjoint alias lists, each alias maps to its own language |
| Language.TableDisjoint | lib/languageUtils.ts:2-20 | no alias is listed under two languages |
| Language.AliasLookup | lib/languageUtils.ts:35-37 | every listed alias gives its canonical language |
| Language.UnknownTag | lib/languageUtils.ts:35-37 | a tag whose key (ASCII lower-casing, then trimming) is no language's alias gives null |
| Language.KeyIdempotent | lib/languageUtils.ts:36 | normalising twice is normalising once, so the lookup ignores case and surrounding white space |
| Language.CanonicalIsAlias | lib/languageUtils.ts:2-20 | each canonical name, normalised, is one of its own aliases |
| Language.LookupIdempotent | lib/languageUtils.ts:35-37 | looking up a returned name gives that name again |

## Left out

- Rendering is not modelled: markup, styles, SVG coordinates (`cos`/`sin`), `toFixed`, tooltip text and the polyline of the moving-average chart.
- Persistence and timers are not modelled: local storage, toast timeouts, `window.confirm`, file import and export.
- The weekly-review trigger (App.tsx:293-316) is not modelled. It depends only on the clock and stored state, and the modal's content is modelled.
- Time zones and the parsing of date strings into `Date` objects are not modelled. A date is a day number, and `toISOString` and `getLocalDateString` are taken to give the same day.
- `new Date()` is not modelled. "Now" is a parameter (`today`, `now`), and the two clock reads of the heat-maps are taken to be the same instant, so today is always shown.
- `projectId` on a log, the project filter's effect on the logs, and the project lookup map are not modelled; they only select what is displayed.
- `LogEntry` carries an optional `techBreakdown`, which App.tsx and components/ReportsPage.tsx read although types.ts does not declare it.
- The remaining components (goals modal, share modal, quotes, header, data management, technology catalogue) are not part of this model.
- TagAnalysis.ChartData: requires a non-zero total; the source divides by the total and would produce NaN slices, which are not modelled.
- TagAnalysis.Slices: requires a non-zero total, for the same reason.
- Duration.FormatDuration: takes the rounded minute count (`Math.round(hours * 60)`) as a natural number; the rounding of a real and negative hours are not modelled.
- LogForm.ParseHours: the hours text is an abstraction (empty, a number, or not a number); `parseFloat` on partly numeric text is not modelled.
- WeeklyReview.MotivationalMessage: the messages are an enumeration; the emoji strings are not modelled.
- LogHistory.FormatDate: the en-US `toLocaleDateString` text (such as "Thu, Jan 1") is kept as its weekday, month and day fields; the spelling and layout of the text are not modelled.
- Text.ToLower: only ASCII letters are lower-cased; `toLowerCase` applies full Unicode case mapping (the Kelvin sign U+212A becomes "k"), so a tag such as "\u212Aotlin" that the source resolves to Kotlin gives null here (Language.UnknownTag, Language.Key).
- Text.StrLe: strings are ordered by code point; the default `sort()` compares UTF-16 code units, and the two orders differ only for strings holding characters above U+FFFF (such as emoji in a tag).
- Achievements.Evaluate: the weekend test uses the model's weekday of a day number, not a locally parsed `Date`.

## Findings

| source | as written | input that shows it | evidently intended | confidence | as-written member | corrected member |
|---|---|---|---|---|---|---|
| App.tsx:138-149 | the weekly test sits inside the monthly test, so days of the current week that fall in the previous month are not added to the weekly total | today Tuesday 2024-10-01 (day 19997) with one 5-hour log on Monday 2024-09-30: weekly total 0 | the weekly total counts every log since this week's Monday | not executed | Periods.WeeklyDropsPreviousMonth | Periods.WeekTotal |
| App.tsx:138-149 | the weekly tag accrual sits inside the monthly test too, so tags of current-week logs that fall in the previous month are not counted for the weekly top tag | today Tuesday 2024-10-01 (day 19997) with one log on Monday 2024-09-30 tagged "Go": no weekly top tag | the weekly top tag is taken over every log since this week's Monday | not executed | Periods.WeeklyTopTagDropsPreviousMonth | Periods.WeekTopTag |
