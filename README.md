# Cron-aware history attribution for the task scoreboard

This project models, in Dafny, the logic behind the calendar scoreboard of a
Habitica tracker: how a task's raw history is turned into one entry per day,
and how each requested day is then shown.

* **Cron windows** (`UserHistory`). Every cron instant of the user's
  `history.exp` log becomes the closed window `[t - 300, t + 300]` in unix
  seconds. The windows are inserted one by one into a mutable interval
  structure (`IntervalTree`, a class whose `Insert` appends). The only question
  later asked of it is a point query. `DateArray` is the trailing `numDays` days
  ending today, oldest first. `MonthString` is the heading over that window.
* **Daily attribution** (`DailyHistory`). The loop walks consecutive history
  pairs and skips zero changes. A change whose time lies in a cron window is
  moved to the day before, unless that day already has an entry; then it stays
  on its own day and overwrites. `DailyHistoryMap` is that loop. It is proved
  equal to the fold `DailyMap`, and the lemmas about attribution are proved
  about the fold. `DailyStatus` classifies each day.
* **Habit attribution** (`HabitHistory`). The last `(scoredUp, scoredDown)`
  pair of each day is kept, only for records that carry both. There is no cron
  shift. The cells show the up-score with a sign and a colour.
* **Shared scoreboard parts** (`Scoreboard`). These are the cell variants, the
  dense per-day view of a sparse map, and the test that hides an empty row.

Time and days: history dates are epoch milliseconds. `dayjs(ms).unix()` is
`ms / 1000`, rounded down. The local calendar day of an instant is the
parameter `dayOf`, and "one day ago" is `dayOf(t) - 1`. The date key
`"YYYYMMDD"` is injective on days, so days are plain integers. The current day
is the parameter `today`.

Where descriptions of this system and the code differ, the model follows the
code:
- Malformed records (non-finite values, bad timestamps) are described as
  skipped. The code has no such check, and neither does the model.
- The cron scenario is described with the day of the cron instant. The code
  uses the day of the change's own time, and so does the model. So the
  two-changes scenario (`CronDuplicateScenario`) needs both changes to fall on
  the same local day.

## Model

| member | source | states |
|---|---|---|
| `UserHistory.UnixSeconds` | src/UserHistory.tsx:195-196 | whole seconds rounded down: `s * 1000 <= ms < s * 1000 + 1000` |
| `UserHistory.CronWindows` | src/UserHistory.tsx:191-199 | one window per `history.exp` entry, in order; each is 600 seconds wide, centred on that entry's unix time, and contains it |
| `UserHistory.InAnyWindowIff` | src/DailyHistory.tsx:72-77 | the linear scan finds a hit exactly when some window contains the point |
| `UserHistory.CronWindowsHit` | src/UserHistory.tsx:192-198 | a point is in a cron window iff it is within 300 s of some cron instant; with no cron entries no point is |
| `UserHistory.Overlapping` | src/DailyHistory.tsx:73-76 | the hits are exactly the stored intervals meeting the closed query range, and there are no more of them than stored intervals |
| `UserHistory.SearchPointIff` | src/DailyHistory.tsx:72-77 | `search(u, u).length > 0` holds exactly when `u` is in some window |
| `UserHistory.IntervalTree.constructor` | src/UserHistory.tsx:236 | a new structure holds no interval |
| `UserHistory.IntervalTree.Insert` | src/UserHistory.tsx:239 | the inserted interval is added after all earlier ones, and nothing else changes |
| `UserHistory.IntervalTree.Search` | src/DailyHistory.tsx:73-76 | returns exactly the stored intervals that meet `[low, high]` |
| `UserHistory.BuildCronIntervals` | src/UserHistory.tsx:236-240 | a fresh structure holding exactly the cron windows, in insertion order |
| `UserHistory.Indices` | src/UserHistory.tsx:337-339 | `n` elements, element `k` is `k` |
| `UserHistory.Reverse` | src/UserHistory.tsx:340 | same length; element `k` is element `len - 1 - k` of the input |
| `UserHistory.DaysAgo` | src/UserHistory.tsx:341 | same length; each offset `i` becomes `today - i` |
| `UserHistory.DateArray` | src/UserHistory.tsx:336-342 | exactly `numDays` days; element `k` is `today - (numDays - 1 - k)`; strictly ascending; the last is today |
| `UserHistory.MonthString` | src/UserHistory.tsx:324-333 | absent for no dates; one long label from the last date iff first and last share a month number; otherwise a short start label, with a year only when the years differ, then a short end label with year |
| `HabitHistory.HabitStep` | src/HabitHistory.tsx:44-49 | a record without both scores leaves the map unchanged; otherwise exactly the key `dayOf(date)` is set to its pair and every other entry is kept |
| `HabitHistory.HabitHistoryMap` | src/HabitHistory.tsx:40-50 | the loop's map equals the fold `HabitMap` over all records |
| `HabitHistory.HabitLastRecordWins` | src/HabitHistory.tsx:44-49 | a day has an entry iff some scored record falls on it, with no cron shift; the entry is the pair of the last scored record of that day |
| `HabitHistory.HabitKeysGrow` | src/HabitHistory.tsx:44-49 | a day that has an entry keeps one through every later record |
| `HabitHistory.LastScored` | src/HabitHistory.tsx:44-49 | the entry of a day is the pair of a scored record on that day after which no scored record falls on it |
| `HabitHistory.HabitSameDayScenario` | src/HabitHistory.tsx:44-49 | two same-day records (1,0) then (2,0) leave (2,0), shown as "+2" in the success colour |
| `HabitHistory.HabitScore` | src/HabitHistory.tsx:97-119 | shows `up`; with a plus sign iff `up > 0`; in the success colour iff `up >= 1` |
| `HabitHistory.HabitDayCell` | src/HabitHistory.tsx:76-91 | a day with a score gets its `HabitScore` cell; a past day without one gets a cross; today without one is blank |
| `HabitHistory.HabitCells` | src/HabitHistory.tsx:76-92 | one cell per requested day, in order, each the `HabitDayCell` of that day |
| `HabitHistory.HabitRow` | src/HabitHistory.tsx:52-65 | hidden iff no requested day has a score and empty rows are not shown; otherwise one cell per requested day |
| `HabitHistory.Habit` | src/HabitHistory.tsx:38-95 | the component's result is `HabitRow` of the map its loop builds |
| `DailyHistory.AttributedDay` | src/DailyHistory.tsx:72-92 | outside every window: the change's own day; in a window: the day before if it has no entry, otherwise its own day; the day before is never taken over |
| `DailyHistory.DailyStep` | src/DailyHistory.tsx:63-94 | a zero change leaves the map unchanged; otherwise exactly one key, the attributed day, is set to the change, and every other entry is kept |
| `DailyHistory.DailyHistoryMap` | src/DailyHistory.tsx:57-95 | the loop's map, with cron hits found by the interval search, equals the fold `DailyMap` |
| `DailyHistory.DailyKeysGrow` | src/DailyHistory.tsx:92-93 | a day that has an entry keeps one through every later pass |
| `DailyHistory.LastClaim` | src/DailyHistory.tsx:62-95 | the entry of a day is the non-zero change of a pass that wrote it, and no later pass writes that day |
| `DailyHistory.DailyLastAttributionWins` | src/DailyHistory.tsx:62-95 | a day has an entry iff some non-zero change was attributed to it; the entry is the change of the last such pass; the first record alone makes no entry |
| `DailyHistory.DailyEntriesComeFromChanges` | src/DailyHistory.tsx:62-93 | every entry is the change of some pair `(i-1, i)` with `i >= 1`, stored on that change's day or the day before |
| `DailyHistory.DailyWithoutCronHits` | src/DailyHistory.tsx:72-77 | when no change lies in a window, a day has an entry iff a non-zero change happened on it, and the entry is the last such change |
| `DailyHistory.ChangeClaimsItsDay` | src/DailyHistory.tsx:78-93 | a non-zero change in a window leaves the day before it with an entry at the end; one outside every window leaves its own day with an entry |
| `DailyHistory.DailyEntryCount` | src/DailyHistory.tsx:92-93 | there are at most as many entries as non-zero changes |
| `DailyHistory.CronScenario` | src/DailyHistory.tsx:72-83 | a change 0 to 1 two minutes before the cron instant goes to the day before its own |
| `DailyHistory.CronDuplicateScenario` | src/DailyHistory.tsx:78-93 | a second change in the same window on the same day stays on its own day, since the day before is taken |
| `DailyHistory.DailyStatus` | src/DailyHistory.tsx:129-158 | success iff the change is positive, on any day; pending with the streak (frozen icon iff streak 0) iff today with no or zero change; fail on a past day with no or non-positive change, and today with a negative change |
| `DailyHistory.DailyCells` | src/DailyHistory.tsx:122-124 | one cell per requested day, in order, each the `DailyStatus` of that day |
| `DailyHistory.DailyRow` | src/DailyHistory.tsx:98-126 | hidden iff no requested day has an entry and empty rows are not shown; otherwise one `DailyStatus` cell per requested day, from the map lookup |
| `DailyHistory.Daily` | src/DailyHistory.tsx:55-127 | the component's result is `DailyRow` of the map its loop builds with the cron structure |
| `DailyHistory.TaskRow` | src/DailyHistory.tsx:31-44 | a habit task gets the habit row; every other task gets the daily row |
| `DailyHistory.OnlyTodayUndecided` | src/DailyHistory.tsx:138-150 | over the trailing date window, only the last column (today) can be pending in a daily row or blank in a habit row |
| `Scoreboard.DayEntries` | src/DailyHistory.tsx:98-103 | same length and order as the dates; each element is the date with its map lookup, or absent (also the `dailyScores` of src/HabitHistory.tsx:52-57) |
| `Scoreboard.Present` | src/DailyHistory.tsx:106 | keeps exactly the entries with a defined value, and never more than the input |
| `Scoreboard.PresentEmptyIff` | src/DailyHistory.tsx:106 | the filtered list is empty exactly when no entry has a value |
| `Scoreboard.SuppressRowIff` | src/DailyHistory.tsx:105-111 | a row is hidden iff no requested day is a key of the map and empty rows are not shown (also src/HabitHistory.tsx:59-65) |

## Left out

- Network I/O: every `fetch`, the API headers, `handleApiError`, and the pomodoro and plan score requests.
- React: components, hooks, state setters, JSX markup, the task-name cell and its markdown rendering. The cells are variants, not CSS classes and symbols.
- The order of rows on the page (`dailys` then `habits` then the last daily). It is page layout.
- Confetti, random numbers and window-resize handling, which are browser UI.
- `logger` and `console` output. The over-completion warning is only a log line, so the model changes no state on that branch and does not return the warning.
- dayjs local time and daylight saving. The local day of an instant is the parameter `dayOf`, and the current day is the parameter `today`. The source reads the clock separately for the date window and for each cell; the model assumes both reads fall on the same day.
- `UserHistory.IntervalTree`: the library's balanced tree and its result order are not modelled. The model keeps the intervals in insertion order and answers by a linear scan. Its refusal of an interval with `low > high` is not modelled either; cron windows always have `low < high`.
- Floating point. Values and scores are exact reals, so rounding in a subtraction, `NaN` and infinities are not modelled. `Falsy` treats only an absent value and zero as falsy.
- `UserHistory.DateArray`: `numDays` is a natural number. A negative count, which would make the array constructor throw, is not modelled.
- `UserHistory.MonthString`: month names, the `YYYY` digits and the en-dash join are not rendered as text. The result is the labels to join.
- `AppControls` is UI only.
