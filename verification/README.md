# Streakin habit analytics, modelled in Dafny

Streakin is a mobile habit tracker. A user creates habits and checks in once
a day, optionally with a note and a photo. The app then shows streaks, a
month calendar and a trend chart. Nearly all of the app is screens and
storage calls. The logic sits inside the view components, and this project
models that logic:

- the streak shown on each row of the habit list (`calculateStreak`) and
  the check-in update applied to the selected habit (`handleCheckIn`), in
  `app/index.tsx`;
- the statistics block (`getHabitStats`) and the day-detail lookup
  (`openModal`) of the streak calendar screen, in `app/streakCalendar.tsx`;
- the month grid of `components/Calendar.tsx`;
- the running-count series of `components/Trend.tsx`.

Everything is a pure function over immutable data. The current day and the
current month are parameters, not clock reads.

Modules, one per file:

| file | module | models |
|---|---|---|
| `wrappers.dfy` | `Wrappers` | `Option`, for `undefined` / `null` |
| `days.dfy` | `Days` | day numbers, months, runs of consecutive days, counting back |
| `habit.dfy` | `Habits` | `Habit` and history entries (`types.ts`), JavaScript truthiness, `find` / `findIndex` by date |
| `habit_list.dfy` | `HabitList` | `calculateStreak`, the check-in update, `handleCheckIn` |
| `habit_stats.dfy` | `HabitStats` | `getHabitStats`, `openModal` |
| `streak_views.dfy` | `StreakViews` | how the list's streak and the statistics' streak relate |
| `calendar.dfy` | `CalendarGrid` | the calendar data of `Calendar` |
| `trend.dfy` | `TrendChart` | `getTrendData` |

Representation choices:

- A day is an `int` counted from an arbitrary epoch. History dates are taken
  to be canonical `YYYY-MM-DD` strings. For those, string equality and the
  lexicographic `sort()` agree with equality and order of day numbers, and
  dayjs's `diff(…, 'day')` is subtraction.
- A month is its first day together with its length, 28 to 31.
- `lastChecked` is stored as an ISO timestamp and is only ever compared by
  local calendar day. It is modelled as the day it falls on, so a check-in
  sets it to today.
- Notes and photos are `Option<string>`. `Truthy` is JavaScript truthiness
  (present and non-empty). `OrElse` is the `||` operator.
- `Math.round(done / days * 100)` is modelled as rounding half up in
  integers, `(200 * done + days) / (2 * days)`. `NoHalfwayRatio` shows that
  for a month of 28 to 31 days the exact ratio is never halfway between two
  percentages. So the two agree, apart from floating-point error, which is
  far below the distance to any halfway point.

Notable behaviours of the code that the model keeps:

- The check-in does not recompute or store `streak`. It also does not
  deduplicate or sort the history.
- A check-in on a day whose `lastChecked` is already today returns the habit
  unchanged, without touching the note.
- The list's streak counts raw entries without deduplicating them. A
  repeated newest day stops the count at 1
  (`DuplicateNewestStopsStreak`, `RepeatedDayDisagreement`).
- Lookups by date use the first matching entry, not the last one written.
- The trend loop covers the month's days plus the first day of the next
  month, giving `daysInMonth + 1` points.

The two streak computations agree when the history has no repeated day and
no day after today (`ListStreakAgreesWithStats`). Outside that case they can
disagree. The list's loop stops at the first step that is not exactly one
day, so a day of the counted run recorded twice ends the list's count early,
while the statistics count distinct days. A day after today becomes the
list's newest day and makes the list show 0, while the statistics still count
back from today. `RepeatedDayDisagreement` and `FutureDayDisagreement` are
one example of each. A repeated day or a future day does not always lead to
a disagreement: with today recorded twice both views show 1, and with only
tomorrow recorded both show 0. A check-in itself never creates a repeated
day (`CheckInKeepsDistinct`) and never adds a day after today
(`CheckInAddsNoFutureDay`).

## Model

| member | source | states |
|---|---|---|
| Days.CountBack | app/streakCalendar.tsx:125-141 | the count back from a day covers only present days and stops at the first absent day, so it is the length of the run of checked days ending there |
| Habits.FindIndex | app/index.tsx:115-117 | `findIndex` by day returns the first position holding that day, or -1 exactly when no entry has that day |
| Habits.Find | components/Calendar.tsx:160 | `find` by date returns an entry exactly when the day is recorded, and that entry is the first one for the day |
| Habits.OrElse | app/index.tsx:124-125 | the JavaScript or-operator on optional strings yields one of its operands; the result is truthy exactly when either operand is, and a truthy left operand wins |
| Habits.DateSeq | app/streakCalendar.tsx:103 | mapping entries to dates keeps length and position |
| HabitList.SortDescending | app/index.tsx:37-39 | the newest-first sort is ordered and is a permutation of the entries' days |
| HabitList.SortedDescendingUnique | app/index.tsx:37-39 | two newest-first orderings of the same days are identical |
| HabitList.LeadingRun | app/index.tsx:49-60 | the counting loop yields at least 1 and at most the number of entries; every counted step is exactly one day, and the first uncounted pair is not |
| HabitList.CalculateStreak | app/index.tsx:34-63 | the streak is 0 for an empty history and never exceeds the number of entries |
| HabitList.StreakActiveIff | app/index.tsx:41-47 | the grace rule: the streak is positive exactly when some entry is today or yesterday and none is after today |
| HabitList.StreakOrderIndependent | app/index.tsx:37-39 | the streak depends only on the multiset of recorded days, not on their stored order, notes or photos |
| HabitList.StreakIsRun | app/index.tsx:49-60 | the counted days are consecutive checked days ending at the newest entry |
| HabitList.DuplicateNewestStopsStreak | app/index.tsx:52-59 | when the newest day is today or yesterday and is recorded twice, the streak is exactly 1 |
| HabitList.IsCheckedToday | app/index.tsx:254 | checked today exactly when the stored last check-in falls on today; a missing `lastChecked` is not checked |
| HabitList.CheckIn | app/index.tsx:103-142 | after a check-in `isCheckedToday` holds; the habit is unchanged exactly when it was already checked in today; only `history` and `lastChecked` can change, so `streak` is kept |
| HabitList.CheckInTwiceSameDay | app/index.tsx:106-111 | a second check-in on the same day changes nothing |
| HabitList.CheckInAppends | app/index.tsx:127-131 | without an entry for today, the new history is the old one followed by exactly one entry for today, holding the given note and photo when non-empty and none otherwise |
| HabitList.CheckInMerges | app/index.tsx:119-126 | with an entry for today, it is updated in place and nothing else changes; a non-empty new note or photo replaces the stored one, and an empty one keeps the stored value exactly |
| HabitList.CheckInLookup | app/index.tsx:113-132 | after a check-in the recorded days are the old ones plus today, and the lookup of every other day is unchanged |
| HabitList.CheckInKeepsDistinct | app/index.tsx:113-132 | a history with at most one entry per day keeps that property through a check-in, because an existing entry for today is merged into and a new one is appended only when there is none |
| HabitList.CheckInAddsNoFutureDay | app/index.tsx:113-132 | a history with no day after today still has none after a check-in |
| HabitList.HandleCheckIn | app/index.tsx:97-142 | without a selected id the list is unchanged; otherwise it keeps length and order, checks in exactly the habits with the selected id and returns the others untouched |
| HabitStats.SortedDistinct | app/streakCalendar.tsx:103-104 | the deduplicated sort is strictly increasing and holds exactly the recorded days |
| HabitStats.LongestStreakIsLongestRun | app/streakCalendar.tsx:106-119 | on the sorted distinct days the scan returns the longest run of consecutive days: such a run is present, no longer run is, and it is between 1 and the number of days |
| HabitStats.CurrentStreak | app/streakCalendar.tsx:121-141 | the current streak is positive exactly when today or yesterday is checked; it is the run of checked days ending today, or yesterday when today is unchecked |
| HabitStats.DoneThisMonth | app/streakCalendar.tsx:144-152 | the completions this month are the distinct checked days inside the month, at most the month's length and at most the total |
| HabitStats.Consistency | app/streakCalendar.tsx:154 | the percentage is the whole number nearest to 100 × done / days, 0 for an empty month, and between 0 and 100 when done ≤ days |
| HabitStats.NoHalfwayRatio | app/streakCalendar.tsx:154 | for months of 28 to 31 days the ratio is never exactly halfway, so rounding half up matches `Math.round` |
| HabitStats.GetHabitStats | app/streakCalendar.tsx:100-162 | no statistics exactly for an empty history; otherwise total = number of distinct days, 1 ≤ longest ≤ total, current ≤ longest, consistency in [0, 100] |
| HabitStats.StatsCurrentStreak | app/streakCalendar.tsx:121-141 | the statistics' current streak is the count back over the set of recorded days, from today or else from yesterday |
| HabitStats.StatsLongest | app/streakCalendar.tsx:103-119 | the statistics' longest streak is the length of a run of consecutive recorded days ending at a recorded day, and no run of recorded days is longer |
| HabitStats.StatsConsistency | app/streakCalendar.tsx:144-154 | the statistics' consistency is the rounded percentage of the month's length made up by the distinct recorded days inside the month |
| HabitStats.DayDetail | app/streakCalendar.tsx:80-98 | the detail shows the first entry's note and photo as stored, or the placeholder note and no photo when the date has no entry |
| StreakViews.ListStreakAgreesWithStats | app/index.tsx:34-63 | with no repeated day and no day after today, the list's streak equals the statistics' current streak |
| StreakViews.RepeatedDayDisagreement | app/index.tsx:52-59 | with today recorded twice plus yesterday, the list shows 1 and the statistics show 2 |
| StreakViews.FutureDayDisagreement | app/index.tsx:44-47 | with today and tomorrow recorded, the list shows 0 and the statistics show 1 |
| StreakViews.CheckInStartsStreak | app/index.tsx:134-138 | after a fresh check-in the statistics' current streak is at least 1, and so is the list's when nothing is dated after today; the stored `streak` is unchanged |
| CalendarGrid.TodayCountOfConsecutiveDays | components/Calendar.tsx:165 | among cells for consecutive days, exactly one is marked today when today is among them, and none otherwise |
| CalendarGrid.BuildCalendar | components/Calendar.tsx:149-177 | one cell per day of the month in order; checked iff the day is recorded; photo and note flags from the first entry's non-empty values; photo present iff flagged; interactive iff photo or note, hence only when checked; exactly one today cell iff the month contains today |
| TrendChart.Label | components/Trend.tsx:31 | a label is non-empty exactly for days of month 1, 15 and 30 |
| TrendChart.TrendPoint | components/Trend.tsx:33-39 | one point is positive iff its day is checked, follows the add-one-or-reset rule, and is bounded by elapsed days and by elapsed checked days |
| TrendChart.TrendSeries | components/Trend.tsx:24-39 | across the series: positive iff checked, starts from 0 before the month, previous + 1 on a checked day and 0 otherwise, each point at most its 1-based index and at most the distinct checked days so far |
| TrendChart.DuplicateLeavesWindow | components/Trend.tsx:16 | an entry for an already checked day leaves the checked-day set, and so the series, unchanged |
| TrendChart.GetTrendData | components/Trend.tsx:15-46 | labels and data have equal length `daysInMonth + 1`, so the chart is never empty; labels follow the day of month; each point is the run of checked days ending that day, counted from the month's start |

## Left out

- Storage: AsyncStorage load and save, JSON parsing and the error and alert
  paths are I/O. The check-in is a pure function over a list of habits.
- dayjs and the clock: parsing, formatting, `daysInMonth`, time zones and
  `new Date()` are replaced by day numbers, a month parameter and a `today`
  parameter. Daylight-saving effects on `diff` are not modelled, and neither
  is a clock read that crosses midnight between two `dayjs()` calls.
- Non-canonical date strings are not modelled. Some computations parse the
  stored strings through dayjs: the list's sort (`app/index.tsx:38`), the
  check-in's `findIndex` (`app/index.tsx:116`), the longest-streak loop
  (`app/streakCalendar.tsx:111`), the month filter of `doneThisMonth`
  (`app/streakCalendar.tsx:150`) and the trend (`components/Trend.tsx:16`).
  Others compare the raw strings: the calendar grid
  (`components/Calendar.tsx:160`), `openModal`
  (`app/streakCalendar.tsx:85`) and the statistics' `Set` and `includes`
  (`app/streakCalendar.tsx:103-104`, `125-135`). On such strings the views
  could disagree.
- An absent `history` field is not modelled, because `types.ts` declares it
  required. The `!history` guards then reduce to the empty-history case.
  The `!habit` guards of `openModal`, `getHabitStats` and `Calendar` are left
  out for the same reason.
- Rendering is left out: styles, modals, swipe gestures, navigation,
  `getStyleForDay` and the chart configuration are UI.
- Image picking and the camera are device I/O. A photo is an opaque string.
- Notification scheduling (`services/`) is left out: permissions, scheduling
  and a random message choice are not part of the analytics.
- `app/addHabit.tsx` is left out: storage plus identifier generation, with
  only a non-blank-name check and an empty initial record.
- `HabitList.CalculateStreak`: its own contract states only the empty case
  and the upper bound. The grace rule, the positive case, order independence
  and the run property are separate lemmas listed above.
- `TrendChart.GetTrendData`: its contract characterises each point by the
  backward count. The add-one-or-reset rule and the bounds are stated by
  `TrendChart.TrendSeries` for any series with that characterisation. They
  are kept out of the method's contract to keep its proof small.
