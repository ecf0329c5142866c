# skilltracker-backend: the derived-metrics layer, modelled in Dafny

The skilltracker backend is an Express server over a MySQL database of one
learner's skills, courses, certifications, workshops and daily study log
(`learning_streak`). Its route handlers turn table rows into dashboard
figures, report series and profile goals. Some of that logic is SQL and
some is JavaScript post-processing. They also validate and store new
courses, certifications and users.

This project models those handlers. It uses these conventions:

- **Queries.** Every SQL query is a function over sequences of rows that
  are already restricted to the user (`WHERE user_id = ?`). The current
  date `today` is a parameter. Dates are day numbers. Month numbers, the
  `%b` month labels, the `%a` weekday labels and `YYYY-MM-DD` text are
  derived from them by an exact civil-calendar computation.
- **Numbers.** Hours and averages are exact integers. MySQL's `AVG` of an
  integer column is a DECIMAL with four places, kept in ten-thousandths;
  `ROUND(AVG(x))` and `ROUND(AVG(x), 2)` round that value once more, to a
  whole number or to hundredths. `Math.round`, SQL `ROUND` and
  `TIMESTAMPDIFF` each have their own integer rounding rule.
- **Handler code.** JavaScript post-processing that works by mutation is a
  method with loops proved against a function. This covers the
  `/skill-growth` reduce, the `/growth` fill and `rows.reverse()`.
- **Stateful endpoints.** Each is a class holding its table, and its
  auto-increment counter where new rows take one: the monthly-report seed
  (no counter), course insert and progress update, certification insert,
  and user registration.

Modules:

- Shared modules:
  - `Collections`: filters, counts, sums, distinct values, joins.
  - `Sorting`: a stable insertion sort with sortedness and permutation
    lemmas.
  - `Grouping`: `GROUP BY` with each group's earliest row.
  - `Ranking`: `ROW_NUMBER() OVER (PARTITION BY ...)`.
  - `Pivots`: month-by-category records.
  - `Text`: digits, comma split and join, cutting at a length limit,
    `SUBSTRING_INDEX`.
  - `Numbers`: the rounding rules.
  - `Calendar`: the date numbering and its derived labels and text.
  - `Tables`: the row types.
- One module per route file: `Dashboard`, `Reports`, `ReportsTs`,
  `Skills`, `Profile`, `Courses`, `Certifications`, `Workshops` and `Auth`.

Where the code behaves in a way a reader might not expect, the model does
what the code does, except where a query the server rejects is read as the
response it was meant to give (each such route is named under "Left out"):

- the percentage change from 0 is 100, even to 0;
- `current_streak` counts the distinct study days of a 31-day window, not
  a consecutive run;
- the hours distribution merges the same month of different years and
  keeps the six oldest labels;
- the `/growth` pivot keeps a row of an unknown category as an extra
  field (a category named `month` is the exception; see "Left out").

## Model

| member | source | states |
|---|---|---|
| Numbers.JsRoundDiv | skilltracker-backend/src/routes/dashboard.js:108 | `Math.round(n/d)` is the integer r with r − ½ ≤ n/d < r + ½: halves go toward +infinity, for either sign of d |
| Numbers.SqlRoundDiv | skilltracker-backend/src/routes/courses.js:60 | SQL `ROUND(n/d)` is within half a unit of n/d, with halves rounded away from zero and the sign of n kept |
| Numbers.SqlRoundAgreesWithJsRound | skilltracker-backend/src/routes/profile.js:81 | on non-negative quotients the SQL and JavaScript rounding rules give the same integer |
| Numbers.RoundedPercentInRange | skilltracker-backend/src/routes/profile.js:44-48 | a part of a whole, as a rounded percentage, lies in [0, 100] under either rounding rule |
| Numbers.SqlRoundDivBetween | skilltracker-backend/src/routes/courses.js:60 | a quotient lying between lo and hi rounds to a value between lo and hi |
| Numbers.Avg4 | skilltracker-backend/src/routes/reports.ts:35-36 | MySQL's four-place `AVG` of integers is within half a ten-thousandth of the exact mean |
| Numbers.SqlRoundAverageBetween | skilltracker-backend/src/routes/reports.js:86 | values in [lo, hi] give a twice-rounded `ROUND(AVG(x), k)` in [lo, hi] at its scale |
| Numbers.SqlRoundAverageNear | skilltracker-backend/src/routes/courses.js:60 | `ROUND(AVG(x))` is within 10001/20000 of the exact mean: half a unit plus half a ten-thousandth |
| Numbers.DoubleRoundingExample | skilltracker-backend/src/routes/reports.js:138 | 101 values summing to 51 average 0.5050 in MySQL and round to 0.51, where the exact mean would round to 0.50 |
| Numbers.TruncDiv | skilltracker-backend/src/routes/workshops.js:28 | `TIMESTAMPDIFF` counts whole units truncated toward zero: r·d ≤ n < (r+1)·d for n ≥ 0, and symmetrically for n < 0 |
| Calendar.MonthOf | skilltracker-backend/src/routes/dashboard.js:16 | `MONTH(date)` is always in 1..12 |
| Calendar.PrevMonth | skilltracker-backend/src/routes/dashboard.js:35 | the month of `CURRENT_DATE - INTERVAL 1 MONTH` is m − 1, and 12 for January |
| Calendar.LabelOfSameMonth | skilltracker-backend/src/routes/reports.js:63 | two dates have the same `%b` label exactly when they have the same month number, whatever their years |
| Calendar.LabelOfShape | skilltracker-backend/src/routes/skills.js:17 | a `%b` label has three characters and no comma |
| Calendar.WeekdayLabel | skilltracker-backend/src/routes/reports.ts:102 | `%a` gives one of the seven weekday labels |
| Calendar.WeekdayPeriodic | skilltracker-backend/src/routes/reports.ts:102 | the weekday label repeats every seven days |
| Calendar.FormatDate | skilltracker-backend/src/routes/certifications.js:13-14 | `DATE_FORMAT(d, '%Y-%m-%d')` is ten characters with dashes at positions 4 and 7 whose three digit fields read as d's year, month and day |
| Calendar.DigitsValue | skilltracker-backend/src/routes/certifications.js:13-14 | a number with at most `width` digits reads back from its zero-padded digits |
| Calendar.FormatDateDistinguishes | skilltracker-backend/src/routes/certifications.js:13-14 | two dates with the same `YYYY-MM-DD` text have the same (year, month, day) |
| Text.ParseNatToString | skilltracker-backend/src/routes/courses.js:69 | reading back the decimal text of a natural number gives the number |
| Text.SplitJoin | skilltracker-backend/src/routes/skills.js:29-30 | `split(',')` of the comma-join of a non-empty list of comma-free pieces is the list |
| Text.JoinSplit | skilltracker-backend/src/routes/skills.js:29-30 | joining the pieces of a split gives the string back |
| Text.SplitJoinPrefix | skilltracker-backend/src/routes/skills.js:16-17 | splitting a prefix of a join gives at most as many pieces, all but the last the original ones and the last a prefix of its original |
| Text.CutJoinRoundTrip | skilltracker-backend/src/routes/skills.js:16-17 | a join cut at a length limit splits back into its pieces exactly when it fits the limit |
| Text.JoinLength | skilltracker-backend/src/routes/skills.js:16-17 | a join of n pieces of at most (exactly) w characters has at most (exactly) n·(w+1) − 1 characters |
| Text.LeadingNumberOfRendered | skilltracker-backend/src/routes/courses.js:58 | `CAST(... AS UNSIGNED)` of a number's text followed by a non-digit reads that number |
| Text.BeforeFirstRange | skilltracker-backend/src/routes/workshops.js:29 | `SUBSTRING_INDEX(a + ' - ' + b, ' - ', 1)` is a when a holds no dash |
| Text.AfterLastRange | skilltracker-backend/src/routes/workshops.js:30 | `SUBSTRING_INDEX(a + ' - ' + b, ' - ', -1)` is b when b holds no dash |
| Dashboard.PercentageChange | skilltracker-backend/src/routes/dashboard.js:106-109 | 100 whenever the old value is 0; otherwise the relative change in percent, `Math.round`ed and unclamped |
| Dashboard.ChangeFromZeroIsHundred | skilltracker-backend/src/routes/dashboard.js:107 | from 0 the change is 100 whatever the new value, 0 included |
| Dashboard.ChangeSign | skilltracker-backend/src/routes/dashboard.js:108 | against a positive baseline: no change gives 0, a fall gives ≤ 0, a rise ≥ 0, doubling ≥ 100, a drop to 0 gives −100 |
| Dashboard.ChangeNotClamped | skilltracker-backend/src/routes/dashboard.js:108 | tripling reports +200: the change is not clamped at 100 |
| Dashboard.ChangeMonotone | skilltracker-backend/src/routes/dashboard.js:108 | for a fixed positive baseline a larger new value never gives a smaller change |
| Dashboard.StatsFromRows | skilltracker-backend/src/routes/dashboard.js:5-60 | every metric shows the first current-month row's value and its percentage change from the first previous-month row's |
| Dashboard.CountsForMonth | skilltracker-backend/src/routes/dashboard.js:9-25 | the first row whose month number matches, or the all-zero record when none does |
| Dashboard.NoPreviousMonthMeansHundred | skilltracker-backend/src/routes/dashboard.js:39-63 | without a previous-month row every metric's change is 100 |
| Dashboard.NoCurrentMonthMeansZero | skilltracker-backend/src/routes/dashboard.js:20-63 | without a current-month row every current value is 0, and every change with a positive baseline is −100 |
| Dashboard.MonthMatchIgnoresYear | skilltracker-backend/src/routes/dashboard.js:16 | a first row of the same month number in another year supplies this month's values |
| Reports.MonthlyReports.Stats | skilltracker-backend/src/routes/reports.js:6-56 | the new table is the seeded table and the response is the response for the old table |
| Reports.SeedWhenAbsent | skilltracker-backend/src/routes/reports.js:22-41 | with no row this month exactly one row dated today is appended, and the response is progress 0, goals 0 of 4, hours 0, certifications 0 |
| Reports.SeedWhenPresent | skilltracker-backend/src/routes/reports.js:10-19 | with a row this month nothing is inserted, and the response is that row with NULL columns as 0 |
| Reports.SeedIdempotent | skilltracker-backend/src/routes/reports.js:22-41 | a second request inserts nothing more and gives the same response |
| Reports.HoursDistributionFacts | skilltracker-backend/src/routes/reports.js:61-71 | at most six entries, no label twice, each 'Study Hours' with the sum of its label's rows |
| Reports.LabelMembersAreMonth | skilltracker-backend/src/routes/reports.js:68 | the rows under a month's label are exactly the rows of that month number in any year |
| Reports.HoursKeepsOldest | skilltracker-backend/src/routes/reports.js:69-70 | a label cut by `LIMIT 6` starts no earlier than any label kept |
| Reports.FillShape | skilltracker-backend/src/routes/reports.js:94-101 | exactly two entries, technical then soft, each the first matching row's value or 0 |
| Reports.SkillDistributionValues | skilltracker-backend/src/routes/reports.js:83-101 | each entry is MySQL's four-place average proficiency of that type's skills rounded again to hundredths, or 0 without such skills |
| Reports.SkillDistributionInRange | skilltracker-backend/src/routes/reports.js:86 | proficiencies in [0, 100] give percentages in [0, 100] |
| Reports.CertificationHistoryFacts | skilltracker-backend/src/routes/reports.js:114-122 | one entry per month number with certifications, in calendar order, at most twelve, each with its label and count |
| Reports.CertificationGroupsShape | skilltracker-backend/src/routes/reports.js:120 | every group is one month number with its own label and counts its members |
| Reports.SparsePivot | skilltracker-backend/src/routes/reports.js:149-160 | the reduce loop builds exactly the pivot of the query rows |
| Reports.SkillGrowthFacts | skilltracker-backend/src/routes/reports.js:134-160 | one record per label; a category other than `month` is a field exactly when a row of that label has that type, holding its `ROUND(AVG(level), 2)`, the four-place average rounded again to hundredths; absent types are absent, not 0 |
| Reports.DailyActivityFacts | skilltracker-backend/src/routes/reports.js:173-182 | strictly ascending days, each on or after today − 30 and present in the rows, with that day's hours, and every such day listed |
| Reports.DailyDayPresent | skilltracker-backend/src/routes/reports.js:179 | a study day within the window appears in the response |
| Reports.OverviewCounts | skilltracker-backend/src/routes/reports.js:196-198 | the counts are the numbers of distinct ids of the user's skills, courses and certifications despite the join's repeats |
| Reports.OverviewHoursFanOut | skilltracker-backend/src/routes/reports.js:199-204 | `total_hours` is NULL without streak rows, and otherwise the plain sum times the joined skill, course and certification row counts |
| Reports.OverviewWithoutUser | skilltracker-backend/src/routes/reports.js:209-214 | with no users row the response is all zeros |
| Reports.MonthlyAverageKey | skilltracker-backend/src/routes/reports.js:326-339 | a group shows the label of its own year and month and one of the rows' types |
| Reports.MonthlyAveragesDistinct | skilltracker-backend/src/routes/reports.js:331 | no two groups of a type share their earliest date, so the numbering has no ties |
| Reports.OverallProgressSorted | skilltracker-backend/src/routes/reports.js:344 | the response is ordered by month label as a string |
| Reports.OverallProgressMembers | skilltracker-backend/src/routes/reports.js:341-343 | the response holds exactly the groups numbered 6 or less within their type |
| Reports.OverallProgressAtMostSix | skilltracker-backend/src/routes/reports.js:343 | at most six rows of any one type |
| Reports.OverallProgressKeepsNewest | skilltracker-backend/src/routes/reports.js:331 | a later month gets a smaller number, and a month cut off is older than every kept month of its type |
| ReportsTs.SkillDistributionTsFacts | skilltracker-backend/src/routes/reports.ts:11-18 | one row per type present, no type twice, each the four-place average proficiency of that type rounded to an integer |
| ReportsTs.SkillDistributionTsInRange | skilltracker-backend/src/routes/reports.ts:14 | proficiencies in [0, 100] give percentages in [0, 100] |
| ReportsTs.TypeAverageOfMonth | skilltracker-backend/src/routes/reports.ts:35-40 | every month's per-type average is the average over all the user's skills of that type, NULL without one |
| ReportsTs.SkillGrowthTsFacts | skilltracker-backend/src/routes/reports.ts:32-43 | at most six months, no label twice, each a streak label in order of earliest date, each with the month-independent averages |
| ReportsTs.SkillGrowthTsWithoutSkills | skilltracker-backend/src/routes/reports.ts:38 | a user without skills gets no month: the inner join is empty |
| ReportsTs.GrowthMonthsOrdered | skilltracker-backend/src/routes/reports.ts:42-43 | the months kept are the earliest six, in order |
| ReportsTs.HoursDistributionTsAgrees | skilltracker-backend/src/routes/reports.ts:57-65 | entry for entry the same months and hours as the `reports.js` route |
| ReportsTs.NameCounts | skilltracker-backend/src/routes/reports.ts:82-85 | `completed` is the number of the user's rows for that name of any status; `inProgress` counts those 'in_progress' |
| ReportsTs.CertificationProgressFacts | skilltracker-backend/src/routes/reports.ts:80-86 | one row per catalogue name, none twice, names without rows included, `inProgress` ≤ `completed` |
| ReportsTs.LastWeekMembers | skilltracker-backend/src/routes/reports.ts:107 | the window keeps exactly the rows dated today − 7 or later |
| ReportsTs.WeeklyActivityFacts | skilltracker-backend/src/routes/reports.ts:100-109 | at most seven rows, one per weekday label in the window, each with summed hours and row count |
| ReportsTs.WeekAgoSharesToday | skilltracker-backend/src/routes/reports.ts:107-108 | today and the same weekday a week ago fall in one window and share one row |
| ReportsTs.WeeklyActivityOrdered | skilltracker-backend/src/routes/reports.ts:109 | rows come in order of each weekday's earliest date (the order the model chooses where MySQL's is open) |
| Skills.History | skilltracker-backend/src/routes/skills.js:29 | `[]` for the empty string, otherwise one number per comma-separated piece |
| Skills.Dates | skilltracker-backend/src/routes/skills.js:30 | `[]` for the empty string, otherwise the comma-separated pieces |
| Skills.Transform | skilltracker-backend/src/routes/skills.js:27-31 | every other column is carried over unchanged |
| Skills.HistoryRoundTrip | skilltracker-backend/src/routes/skills.js:16-29 | splitting the uncut concatenation of levels gives back each level as a number |
| Skills.DatesRoundTrip | skilltracker-backend/src/routes/skills.js:17-30 | splitting the uncut concatenation of month labels gives back the labels |
| Skills.HistoryCut | skilltracker-backend/src/routes/skills.js:16-29 | the levels read back from the `GROUP_CONCAT` text cut at 1024 bytes: none exactly without rows, never more than the rows, each a number, all but the last the level of its row |
| Skills.DatesCut | skilltracker-backend/src/routes/skills.js:17-30 | the labels read back from the cut text: none exactly without rows, never more than the rows, all but the last the label of its row, and all of them exactly when there are at most 256 rows |
| Skills.LevelsFit | skilltracker-backend/src/routes/skills.js:16 | up to 256 levels below 1000 fit in `group_concat_max_len` |
| Skills.CutAfterCommaReadsZero | skilltracker-backend/src/routes/skills.js:29 | a cut just after a comma leaves an empty last piece that `Number` reads as 0 |
| Skills.SkillsResponseOrdered | skilltracker-backend/src/routes/skills.js:10-31 | one entry per skill, ordered by type then name, ASCII letters compared without regard to case |
| Skills.NameOrderIgnoresCase | skilltracker-backend/src/routes/skills.js:23 | "angular" is listed before "Python" of the same type |
| Skills.SkillsResponseMembers | skilltracker-backend/src/routes/skills.js:27-31 | the entries are exactly the views of the user's skills |
| Skills.ListRowView | skilltracker-backend/src/routes/skills.js:16-31 | an entry holds its skill's columns and a date-ordered prefix of its levels and labels, the last possibly cut short, and empty arrays without progress; the labels are complete exactly up to 256 rows, the levels up to 256 rows below 1000 |
| Skills.DensePivot | skilltracker-backend/src/routes/skills.js:62-77 | the nested loops build exactly the dense pivot of the query rows |
| Skills.Growth | skilltracker-backend/src/routes/skills.js:41-79 | the response is the dense pivot of the growth query, whose levels are `ROUND(AVG(level), 2)`: the four-place average rounded again to hundredths |
| Skills.DensePivotFacts | skilltracker-backend/src/routes/skills.js:62-77 | one record per distinct month in first-appearance order; technical and soft always present and 0 unless set; unknown categories other than `month` added; last row wins |
| Skills.GrowthQueryOrdered | skilltracker-backend/src/routes/skills.js:53-58 | at most six rows from distinct (year, month, type) groups in order of earliest date |
| Skills.GrowthKeepsEarliest | skilltracker-backend/src/routes/skills.js:57-58 | a group cut by `LIMIT 6` starts no earlier than any kept group |
| Skills.GrowthAtMostSix | skilltracker-backend/src/routes/skills.js:58 | at most six records |
| Skills.Priority | skilltracker-backend/src/routes/skills.js:94-98 | 'high' below 60, 'medium' from 60 below 80, 'low' from 80 |
| Skills.RecommendationsFacts | skilltracker-backend/src/routes/skills.js:90-103 | five entries or all skills, ascending proficiency, a sub-multiset of the user's skills, each with its band; a skill left out is no less proficient than any kept |
| Skills.MostUsedFacts | skilltracker-backend/src/routes/skills.js:116-127 | at most five, by usage then proficiency descending, each with its own usage; a skill left out does not outrank a kept one |
| Skills.UsageWithoutProgress | skilltracker-backend/src/routes/skills.js:120-122 | a skill without progress rows is listed with usage 0 |
| Profile.CurrentStreakBounds | skilltracker-backend/src/routes/profile.js:17-23 | the current streak is the number of distinct study days in [today − 30, today], at most 31 |
| Profile.CurrentStreakNotConsecutive | skilltracker-backend/src/routes/profile.js:18 | two non-adjacent study days count 2, with a repeated day counted once |
| Profile.LongestStreakIsLongestRun | skilltracker-backend/src/routes/profile.js:24-32 | for distinct dates the longest streak is 0 exactly without rows, some run of consecutive days has that length, and no run is longer |
| Profile.GoalPercentageRange | skilltracker-backend/src/routes/profile.js:44-48 | 0 for an empty whole, within [0, 100] for a part of it, 100 for all of it |
| Profile.CourseCompletionRange | skilltracker-backend/src/routes/profile.js:44-48 | 0 without courses, within [0, 100], 100 when every course is completed |
| Profile.CertificationGoalsRange | skilltracker-backend/src/routes/profile.js:54-58 | 0 without certifications, otherwise within [0, 100] |
| Profile.StudyTimeTargetFacts | skilltracker-backend/src/routes/profile.js:49-53 | 0 without a target; otherwise the rounded ratio of this month's hours, not clamped at 100 |
| Profile.MonthlyGoalsDefaults | skilltracker-backend/src/routes/profile.js:87-88 | 0 of 4 without a row; a NULL or 0 total reads 4; a NULL completed count reads 0 |
| Profile.TotalStudyHoursFanOut | skilltracker-backend/src/routes/profile.js:14-36 | each streak row's hours are counted once per course of the user, once when there is none |
| Profile.OverviewFacts | skilltracker-backend/src/routes/profile.js:71-91 | the response the queries were meant to give: a missing user fails; otherwise `studyHours` equals `totalHours`, the streak is at most 31, both completions lie in [0, 100] |
| Profile.ReverseInPlace | skilltracker-backend/src/routes/profile.js:148 | the array afterwards holds its old elements in reverse order |
| Profile.RecentStreak | skilltracker-backend/src/routes/profile.js:138-148 | the response is the seven newest rows, reversed |
| Profile.RecentStreakFacts | skilltracker-backend/src/routes/profile.js:138-148 | at most seven of the user's rows, a sub-multiset of them, oldest first; a row left out is no newer than any row returned |
| Courses.NewCourseDefaults | skilltracker-backend/src/routes/courses.js:29-37 | status 'active' and progress 0 when missing or falsy, the other fields as given |
| Courses.UserCourses | skilltracker-backend/src/routes/courses.js:9 | a course is listed exactly when it is in the table with the user's id |
| Courses.SetProgress | skilltracker-backend/src/routes/courses.js:90 | the same rows in the same order, only the matching rows getting the new progress |
| Courses.CourseTable.Add | skilltracker-backend/src/routes/courses.js:18-44 | exactly one row with the defaulted fields is appended under a fresh id, which is returned, and ids stay distinct |
| Courses.CourseTable.List | skilltracker-backend/src/routes/courses.js:9 | the rows of the table owned by the user |
| Courses.UpdateOutcomeFacts | skilltracker-backend/src/routes/courses.js:85-97 | 400 exactly for progress outside [0, 100]; 404 exactly when in range and no row matches; nothing changes unless updated; non-matching rows never change |
| Courses.UpdateChangesOneRow | skilltracker-backend/src/routes/courses.js:90-91 | with distinct ids at most one row changes, and ids stay distinct |
| Courses.CourseTable.UpdateProgress | skilltracker-backend/src/routes/courses.js:78-102 | the outcome and the new table are those of the update rule on the old table |
| Courses.LeadingNumberFirstToken | skilltracker-backend/src/routes/courses.js:58 | cutting the duration at its first space keeps its leading number |
| Courses.DurationExample | skilltracker-backend/src/routes/courses.js:58 | "12 hours" counts 12 hours |
| Courses.StatsCounts | skilltracker-backend/src/routes/courses.js:57-69 | active plus completed courses are at most the row count; hours are not negative; no course gives 0, 0, 0, "0%" |
| Courses.AverageCompletionInRange | skilltracker-backend/src/routes/courses.js:60 | progress in [0, 100] gives an average in [0, 100], within 10001/20000 of the exact mean: the four-place `AVG` rounded to a whole number |
| Courses.CompletionText | skilltracker-backend/src/routes/courses.js:69 | `completion` is the decimal average followed by '%' |
| Courses.AddCountsActive | skilltracker-backend/src/routes/courses.js:34-57 | a course added without status is one more active course of its owner and changes no other user's stats |
| Certifications.UserCertifications | skilltracker-backend/src/routes/certifications.js:19 | a certification is listed exactly when the table holds it for the user |
| Certifications.ListFacts | skilltracker-backend/src/routes/certifications.js:8-21 | one view per certification, each as often as its certification, exactly the user's, each showing its certification's issue and expiry dates as YYYY-MM-DD digits of year, month and day, newest issue first |
| Certifications.StatsFacts | skilltracker-backend/src/routes/certifications.js:33-48 | active + expiring + expired ≤ total; no certification gives all zeros; all active gives active = total |
| Certifications.CreateFacts | skilltracker-backend/src/routes/certifications.js:61-80 | 400 exactly when a required field is falsy, storing nothing; otherwise one row appended and echoed with the id and the given fields, status 'active' when none was given |
| Certifications.CreateCountsActive | skilltracker-backend/src/routes/certifications.js:35-69 | a stored certification without status adds one to its owner's total and active count and changes no other user's list |
| Certifications.CertificationTable.Create | skilltracker-backend/src/routes/certifications.js:55-85 | the outcome and the new table are those of the create rule; the id is used only when a row is stored |
| Workshops.ListFacts | skilltracker-backend/src/routes/workshops.js:8-12 | the same workshops, each as often, in ascending date order |
| Workshops.ParseClock | skilltracker-backend/src/routes/workshops.js:29-30 | a parsed time is a minute of the day in [0, 1440) |
| Workshops.ParseFormatClock | skilltracker-backend/src/routes/workshops.js:29-30 | parsing `h:mm AM/PM` for h in 1..12 and m in 0..59 gives the minute of the day, 12 AM being hour 0 |
| Workshops.WorkshopHoursOfRange | skilltracker-backend/src/routes/workshops.js:27-32 | the hours of a well-formed 'start - end' range are the minute difference truncated to whole hours, negative past midnight |
| Workshops.StatsFacts | skilltracker-backend/src/routes/workshops.js:24-45 | only rows dated today − 30 or later count; upcoming plus completed ≤ rows counted; instructors ≤ rows counted |
| Workshops.OldWorkshopIgnored | skilltracker-backend/src/routes/workshops.js:37 | adding a workshop dated before today − 30 changes no statistic |
| Workshops.PastUpcomingNotCounted | skilltracker-backend/src/routes/workshops.js:26 | an 'upcoming' workshop dated before today is not counted as upcoming |
| Workshops.StatsEmpty | skilltracker-backend/src/routes/workshops.js:40-45 | no workshop gives all zeros |
| Auth.LoginFacts | skilltracker-backend/src/routes/auth.js:13-50 | success exactly when the first user with the email has that password; an unknown email gives the same 401 as a wrong password; on success token, userId and user.id name that user |
| Auth.LoginWithUniqueEmails | skilltracker-backend/src/routes/auth.js:20-32 | with unique emails, login succeeds exactly when some user has both that email and that password |
| Auth.RegisterFacts | skilltracker-backend/src/routes/auth.js:63-81 | 400 exactly when the email is taken, storing nothing; otherwise one row with the given name, email and password and the returned id; unique emails and ids stay unique |
| Auth.LoginAfterRegister | skilltracker-backend/src/routes/auth.js:29-74 | after a successful registration, logging in with that email and password succeeds as the new user |
| Auth.UserTable.Register | skilltracker-backend/src/routes/auth.js:57-86 | the outcome and the new table are those of the registration rule, and unique emails are kept |

## Left out

- I/O, the connection pool, the Express wiring, authentication middleware and every 500 path are not modelled: the model starts from the rows a query reads.
- `src/config/database.js`, `init_db.js`, `insert_data.js`, `app.js`, `app.ts` and `certifications.ts` are not part of this model: they are connection setup, seeding, server wiring and a duplicate of routes modelled from `certifications.js`.
- Check-then-insert races in the report seed and in registration: requests are modelled one after another.
- JWT signing: the token is a value holding only the user id; the secret, the signature and the 24-hour expiry are left out.
- Skills.SkillsResponseOrdered: MySQL's default collations compare strings without regard to case or accents and with their own weights for other characters; the model folds ASCII letter case in `ORDER BY sc.type, s.name` only, compares every other character by code point, and keeps names equal under the collation in input order where MySQL leaves it open. Every other string comparison is exact equality in the model: the email lookup of login and registration, the `status = 'completed'`, `'active'`, `'upcoming'` and `'in_progress'` filters, `GROUP BY c.name` of `/certification-progress` and `COUNT(DISTINCT instructor)`.
- Dashboard.StatsFromRows: the metrics are integers in the model. Neither `monthly_stats` query uses `COALESCE`, and `stats[0] || {...}` (`dashboard.js:20-25`, `39-44`) replaces only a missing row, so a stored row with a NULL column is sent as `current: null`; as a baseline NULL fails `oldValue === 0`, and the change is `Math.round` of NaN or an infinity, sent as null. A DECIMAL `learning_hours` arrives from mysql2 as a string, so a stored baseline "0.00" also fails `=== 0`. The model reads every metric as a number and never NULL.
- Dashboard.PercentageChange: the relative change is exact in the model, while JavaScript computes `((new − old) / old) * 100` in doubles before `Math.round`; from 200 to 257 JavaScript arrives at 28.499999999999996 and answers 28, where the model answers 29.
- Floating point: averages and percentages are exact integers with explicit rounding; `averageRating.toFixed(1)` (`profile.js:90`) and the DECIMAL values MySQL returns as strings (course hours, workshop hours, `parseFloat` of levels) are not modelled as text.
- Averages assume integer columns (`proficiency_level`, `progress`), whose `AVG` MySQL keeps to four places; a `div_precision_increment` other than the default 4 is not modelled.
- `GET /profile/` (`profile.js:100-132`), dashboard `/activities` and `/deadlines`, and the `reports.js` routes `/skills-distribution`, `/skills-progression`, `/technical-growth` and `/soft-growth` (222-320) and skills `/recent-improvements` (140-150) are plain selects with an order and a limit; they are not modelled.
- Order of groups that `GROUP BY` leaves unspecified (`/skill-distribution`, `/certification-progress`): modelled as first-appearance order.
- ReportsTs.WeeklyActivityOrdered: `ORDER BY ls.date` in `/weekly-activity` names a column that is neither grouped nor aggregated. Under MySQL's default `ONLY_FULL_GROUP_BY` the query is rejected and the route answers 500; without that mode each weekday group is ordered by an arbitrary row's date, and today's group holds both today − 7 and today. Ordering by each group's earliest date is the model's choice.
- Reports.OverallProgressSorted: `/overall-progress` selects `DATE_FORMAT(sp.recorded_date, '%b')` and numbers rows by `sp.recorded_date` without grouping that column, so `ONLY_FULL_GROUP_BY` rejects it too (a 500, not modelled); without that mode every row of a (year, month, type) group gives the same label and the same order between months, so the model's result does not depend on the row MySQL reads.
- Profile.LongestStreakIsLongestRun: the window function inside `GROUP BY` is not valid SQL; the model numbers the study log's rows in date order, a repeated date numbered twice, and states the result for distinct dates, as the grouping intends.
- Profile.OverviewFacts (and with it Profile.CurrentStreakBounds, Profile.GoalPercentageRange, Profile.StudyTimeTargetFacts, Profile.MonthlyGoalsDefaults and Profile.TotalStudyHoursFanOut): `GET /profile/overview` as written always answers 500. MySQL allows a window function only in the select list and in `ORDER BY`, so the `ROW_NUMBER() OVER (...)` inside `GROUP BY` (`profile.js:30`) makes the first query fail and the `catch` (`profile.js:93-95`) sends the 500; in addition `AVG(c.rating)` comes back from mysql2 as a DECIMAL string, on which `.toFixed(1)` (`profile.js:90`) throws. The model describes the response the queries were meant to give.
- Skills.DensePivotFacts and Reports.SkillGrowthFacts: a skill category whose type is `month` is not modelled. In the code the label and the categories share one object, so such a row overwrites the label with a number (`skills.js:71`), and in `reports.js:150-152` the overwritten label no longer matches, so a later row of the same month starts a second record; the model keeps the label apart and adds `month` as one more category.
- Profile.TotalStudyHoursFanOut and Reports.OverviewHoursFanOut: the LEFT JOIN sums are modelled literally, so they state the fan-out rather than a plain sum.
- `MONTH(x) = MONTH(CURRENT_DATE)` matches the month number of any year; the model keeps that, it does not restrict to the current year.
- Skills.HistoryRoundTrip: stated for non-negative levels only; the text of a negative level inside `GROUP_CONCAT` is not read back.
- Skills.ListRowView: stated for non-negative levels only; the cut is at the default `group_concat_max_len` of 1024, and a server configured otherwise is not modelled.
- Courses.UpdateOutcomeFacts: `progress` is an integer; a missing, NaN or non-numeric progress (which passes both comparisons in JavaScript) is not modelled.
- Courses: NULL titles, NULL progress, and the wrap-around of a negative `CAST(... AS UNSIGNED)` are not modelled; durations are read by their leading digits.
- Courses.UpdateOutcomeFacts: mysql2 reports matched rows as `affectedRows`, so an update to the same value still answers 200; the model follows that.
- Certifications: `image_url` is not carried; the dates of a new certification are taken as valid dates, the text a client sends is not validated.
- Certifications.ListFacts: the order is by the formatted text; that it equals date order for four-digit years is not proved.
- Workshops.ParseClock: `STR_TO_DATE` leniency (lowercase am/pm, extra spaces, trailing text, hour 0) is not modelled; such text is NULL in the model.
- Workshops.WorkshopHoursOfRange: stated for times built by `FormatClock`; no example on literal strings is proved.
