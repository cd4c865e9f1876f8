/**
 * The daily row: each change of a daily's value is attributed to one day,
 * a change inside a cron window to the day before when that day is still
 * free, and each requested day is classified from the result.
 */
module DailyHistory {
  import opened Wrappers
  import opened HabiticaTypes
  import opened Scoreboard
  import opened UserHistory
  import HabitHistory

  /** The change of the task's value between record i - 1 and record i. */
  function Delta(history: seq<History>, i: int): real
    requires 1 <= i < |history|
  {
    history[i].value - history[i - 1].value
  }

  /**
   * The day a change stamped `date` is attributed to, given the entries made
   * so far: inside a cron window it goes to the day before unless that day is
   * already taken, in which case (as everywhere outside the windows) it stays
   * on its own day.
   */
  function AttributedDay(historyMap: map<Day, real>, windows: seq<Interval>, dayOf: DayOf, date: int): (d: Day)
    ensures !InAnyWindow(windows, UnixSeconds(date)) ==> d == dayOf(date)
    ensures InAnyWindow(windows, UnixSeconds(date)) && dayOf(date) - 1 !in historyMap ==> d == dayOf(date) - 1
    ensures InAnyWindow(windows, UnixSeconds(date)) && dayOf(date) - 1 in historyMap ==> d == dayOf(date)
    ensures d == dayOf(date) - 1 ==> d !in historyMap
  {
    var day := dayOf(date);
    if InAnyWindow(windows, UnixSeconds(date)) && day - 1 !in historyMap then day - 1 else day
  }

  /** One pass of the loop over the pair (prev, curr): a zero change is skipped, any other sets exactly one key. */
  function DailyStep(historyMap: map<Day, real>, windows: seq<Interval>, dayOf: DayOf, prev: History, curr: History)
    : (r: map<Day, real>)
    ensures curr.value == prev.value ==> r == historyMap
    ensures curr.value != prev.value ==>
      var d := AttributedDay(historyMap, windows, dayOf, curr.date);
      && r.Keys == historyMap.Keys + {d}
      && r[d] == curr.value - prev.value
      && forall k :: k in historyMap && k != d ==> r[k] == historyMap[k]
  {
    var delta := curr.value - prev.value;
    if delta == 0.0 then historyMap
    else historyMap[AttributedDay(historyMap, windows, dayOf, curr.date) := delta]
  }

  /** The map after the loop has handled the pairs (i - 1, i) for 1 <= i < n. */
  function DailyMapUpTo(history: seq<History>, windows: seq<Interval>, dayOf: DayOf, n: nat): map<Day, real>
    requires n <= |history|
  {
    if n <= 1 then map[]
    else DailyStep(DailyMapUpTo(history, windows, dayOf, n - 1), windows, dayOf, history[n - 2], history[n - 1])
  }

  function DailyMap(history: seq<History>, windows: seq<Interval>, dayOf: DayOf): map<Day, real>
  {
    DailyMapUpTo(history, windows, dayOf, |history|)
  }

  /** The day the pass over pair (i - 1, i) writes to, if its change is not zero. */
  function StepDay(history: seq<History>, windows: seq<Interval>, dayOf: DayOf, i: int): Day
    requires 1 <= i < |history|
  {
    AttributedDay(DailyMapUpTo(history, windows, dayOf, i), windows, dayOf, history[i].date)
  }

  /** The attribution loop of `Daily`, querying the cron interval structure. */
  method DailyHistoryMap(history: seq<History>, cronIntervals: IntervalTree, dayOf: DayOf)
    returns (historyMap: map<Day, real>)
    ensures historyMap == DailyMap(history, cronIntervals.intervals, dayOf)
  {
    historyMap := map[];
    var i := 1;
    while i < |history|
      invariant 1 <= i && (i <= |history| || |history| == 0)
      invariant historyMap == DailyMapUpTo(history, cronIntervals.intervals, dayOf, if i < |history| then i else |history|)
    {
      var delta := history[i].value - history[i - 1].value;
      var taskUpdateTime := history[i].date;
      var taskDate := dayOf(taskUpdateTime);
      if delta != 0.0 {
        var seconds := UnixSeconds(taskUpdateTime);
        SearchPointIff(cronIntervals.intervals, seconds);
        if |cronIntervals.Search(seconds, seconds)| > 0 {
          var oneDayAgo := taskDate - 1;
          if oneDayAgo !in historyMap {
            taskDate := oneDayAgo;
          }
          // Otherwise the change stays on its own day; when that day is taken
          // too, the source only logs an over-completion warning.
        }
        historyMap := historyMap[taskDate := delta];
      }
      i := i + 1;
    }
  }

  /** Once a day has an entry it keeps one: later passes only add or overwrite. */
  lemma {:induction false} DailyKeysGrow(history: seq<History>, windows: seq<Interval>, dayOf: DayOf, n: nat, n': nat)
    requires n <= n' <= |history|
    ensures DailyMapUpTo(history, windows, dayOf, n).Keys <= DailyMapUpTo(history, windows, dayOf, n').Keys
    decreases n' - n
  {
    if n < n' {
      DailyKeysGrow(history, windows, dayOf, n, n' - 1);
    }
  }

  /** The pass over pair (i - 1, i) writes a non-zero change to day `d`. */
  predicate ClaimedAt(history: seq<History>, windows: seq<Interval>, dayOf: DayOf, i: int, d: Day)
    requires 1 <= i < |history|
  {
    Delta(history, i) != 0.0 && StepDay(history, windows, dayOf, i) == d
  }

  /** The pass that last wrote the entry of day `d`: its change is the entry, and no later pass writes `d`. */
  lemma {:induction false} LastClaim(history: seq<History>, windows: seq<Interval>, dayOf: DayOf, n: nat, d: Day)
    returns (i: int)
    requires n <= |history| && d in DailyMapUpTo(history, windows, dayOf, n)
    ensures 1 <= i < n && ClaimedAt(history, windows, dayOf, i, d)
    ensures DailyMapUpTo(history, windows, dayOf, n)[d] == Delta(history, i)
    ensures forall j :: i < j < n ==> !ClaimedAt(history, windows, dayOf, j, d)
  {
    var m := DailyMapUpTo(history, windows, dayOf, n - 1);
    if ClaimedAt(history, windows, dayOf, n - 1, d) {
      i := n - 1;
    } else {
      assert d in m;
      i := LastClaim(history, windows, dayOf, n - 1, d);
    }
  }

  /**
   * Last attribution wins: a day has an entry exactly when some non-zero
   * change was attributed to it, and the entry is the change of the last
   * such pass. With n <= 1 (the first record alone) there is no entry.
   */
  lemma {:induction false} DailyLastAttributionWins(history: seq<History>, windows: seq<Interval>, dayOf: DayOf, n: nat)
    requires n <= |history|
    ensures forall d :: d in DailyMapUpTo(history, windows, dayOf, n) <==>
      exists i :: 1 <= i < n && ClaimedAt(history, windows, dayOf, i, d)
    ensures forall d :: d in DailyMapUpTo(history, windows, dayOf, n) ==>
      exists i :: 1 <= i < n && ClaimedAt(history, windows, dayOf, i, d)
                  && DailyMapUpTo(history, windows, dayOf, n)[d] == Delta(history, i)
                  && forall j :: i < j < n ==> !ClaimedAt(history, windows, dayOf, j, d)
  {
    forall d | d in DailyMapUpTo(history, windows, dayOf, n)
      ensures exists i :: 1 <= i < n && ClaimedAt(history, windows, dayOf, i, d)
                          && DailyMapUpTo(history, windows, dayOf, n)[d] == Delta(history, i)
                          && forall j :: i < j < n ==> !ClaimedAt(history, windows, dayOf, j, d)
    {
      var i := LastClaim(history, windows, dayOf, n, d);
    }
    forall i, d | 1 <= i < n && ClaimedAt(history, windows, dayOf, i, d)
      ensures d in DailyMapUpTo(history, windows, dayOf, n)
    {
      ClaimKept(history, windows, dayOf, i, n, d);
    }
  }

  /** A day written by some pass still has an entry after every later pass. */
  lemma ClaimKept(history: seq<History>, windows: seq<Interval>, dayOf: DayOf, i: int, n: nat, d: Day)
    requires 1 <= i < n <= |history| && ClaimedAt(history, windows, dayOf, i, d)
    ensures d in DailyMapUpTo(history, windows, dayOf, n)
  {
    assert d in DailyMapUpTo(history, windows, dayOf, i + 1);
    DailyKeysGrow(history, windows, dayOf, i + 1, n);
  }

  /**
   * Every entry holds the change of some pair (i - 1, i) with i >= 1 and sits
   * on that change's own day or the day before it.
   */
  lemma DailyEntriesComeFromChanges(history: seq<History>, windows: seq<Interval>, dayOf: DayOf)
    ensures forall d :: d in DailyMap(history, windows, dayOf) ==>
      exists i :: 1 <= i < |history| && Delta(history, i) != 0.0
                  && DailyMap(history, windows, dayOf)[d] == Delta(history, i)
                  && (d == dayOf(history[i].date) || d == dayOf(history[i].date) - 1)
  {
    DailyLastAttributionWins(history, windows, dayOf, |history|);
    forall d | d in DailyMap(history, windows, dayOf)
      ensures exists i :: 1 <= i < |history| && Delta(history, i) != 0.0
                          && DailyMap(history, windows, dayOf)[d] == Delta(history, i)
                          && (d == dayOf(history[i].date) || d == dayOf(history[i].date) - 1)
    {
      var i :| 1 <= i < |history| && ClaimedAt(history, windows, dayOf, i, d)
               && DailyMap(history, windows, dayOf)[d] == Delta(history, i);
      assert d == dayOf(history[i].date) || d == dayOf(history[i].date) - 1;
    }
  }

  /** Where no change lies in a cron window, every pass writes to its change's own day. */
  predicate NoCronHits(history: seq<History>, windows: seq<Interval>)
  {
    forall i :: 1 <= i < |history| ==> !InAnyWindow(windows, UnixSeconds(history[i].date))
  }

  /** Without cron hits, the entry of day `d` is the last non-zero change on `d`. */
  lemma LastChangeOn(history: seq<History>, windows: seq<Interval>, dayOf: DayOf, d: Day) returns (i: int)
    requires NoCronHits(history, windows) && d in DailyMap(history, windows, dayOf)
    ensures 1 <= i < |history| && Delta(history, i) != 0.0 && dayOf(history[i].date) == d
    ensures DailyMap(history, windows, dayOf)[d] == Delta(history, i)
    ensures forall j :: i < j < |history| && Delta(history, j) != 0.0 ==> dayOf(history[j].date) != d
  {
    i := LastClaim(history, windows, dayOf, |history|, d);
    forall j | i < j < |history| && Delta(history, j) != 0.0
      ensures dayOf(history[j].date) != d
    {
      assert !ClaimedAt(history, windows, dayOf, j, d);
    }
  }

  /**
   * With no change inside a cron window the attribution is plain bucketing:
   * a day has an entry exactly when a non-zero change happened on it, and the
   * entry is the last such change of that day.
   */
  lemma {:induction false} DailyWithoutCronHits(history: seq<History>, windows: seq<Interval>, dayOf: DayOf)
    requires NoCronHits(history, windows)
    ensures forall d :: d in DailyMap(history, windows, dayOf) <==>
      exists i :: 1 <= i < |history| && Delta(history, i) != 0.0 && dayOf(history[i].date) == d
    ensures forall d :: d in DailyMap(history, windows, dayOf) ==>
      exists i :: 1 <= i < |history| && Delta(history, i) != 0.0 && dayOf(history[i].date) == d
                  && DailyMap(history, windows, dayOf)[d] == Delta(history, i)
                  && forall j :: i < j < |history| && Delta(history, j) != 0.0 ==> dayOf(history[j].date) != d
  {
    forall d | d in DailyMap(history, windows, dayOf)
      ensures exists i :: 1 <= i < |history| && Delta(history, i) != 0.0 && dayOf(history[i].date) == d
                          && DailyMap(history, windows, dayOf)[d] == Delta(history, i)
                          && forall j :: i < j < |history| && Delta(history, j) != 0.0 ==> dayOf(history[j].date) != d
    {
      var i := LastChangeOn(history, windows, dayOf, d);
    }
    forall i | 1 <= i < |history| && Delta(history, i) != 0.0
      ensures dayOf(history[i].date) in DailyMap(history, windows, dayOf)
    {
      ChangeClaimsItsDay(history, windows, dayOf, i);
    }
  }

  /**
   * A non-zero change claims a day that keeps an entry to the end: the day
   * before it when it lies in a cron window, its own day otherwise.
   */
  lemma ChangeClaimsItsDay(history: seq<History>, windows: seq<Interval>, dayOf: DayOf, i: int)
    requires 1 <= i < |history| && Delta(history, i) != 0.0
    ensures InAnyWindow(windows, UnixSeconds(history[i].date)) ==> dayOf(history[i].date) - 1 in DailyMap(history, windows, dayOf)
    ensures !InAnyWindow(windows, UnixSeconds(history[i].date)) ==> dayOf(history[i].date) in DailyMap(history, windows, dayOf)
  {
    DailyKeysGrow(history, windows, dayOf, i + 1, |history|);
  }

  /** The number of pairs (i - 1, i), 1 <= i < n, whose value changes. */
  function ChangeCount(history: seq<History>, n: nat): nat
    requires n <= |history|
  {
    if n <= 1 then 0 else ChangeCount(history, n - 1) + (if Delta(history, n - 1) != 0.0 then 1 else 0)
  }

  /** No change is attributed to two days: there are at most as many entries as changes. */
  lemma {:induction false} DailyEntryCount(history: seq<History>, windows: seq<Interval>, dayOf: DayOf, n: nat)
    requires n <= |history|
    ensures |DailyMapUpTo(history, windows, dayOf, n)| <= ChangeCount(history, n)
  {
    if n > 1 {
      DailyEntryCount(history, windows, dayOf, n - 1);
      var m := DailyMapUpTo(history, windows, dayOf, n - 1);
      if Delta(history, n - 1) != 0.0 {
        var d := StepDay(history, windows, dayOf, n - 1);
        assert |m.Keys + {d}| <= |m.Keys| + 1;
      }
    }
  }

  /**
   * One cron instant t0 and a change from 0 to 1 two minutes before it: the
   * change lies in the window and goes to the day before its own.
   */
  lemma CronScenario(t0: int, dayOf: DayOf)
    ensures var history := [History(t0 - 3_600_000, 0.0, None, None), History(t0 - 120_000, 1.0, None, None)];
            DailyMap(history, CronWindows([History(t0, 0.0, None, None)]), dayOf)
              == map[dayOf(t0 - 120_000) - 1 := 1.0]
  {
    var windows := CronWindows([History(t0, 0.0, None, None)]);
    var history := [History(t0 - 3_600_000, 0.0, None, None), History(t0 - 120_000, 1.0, None, None)];
    assert UnixSeconds(t0 - 120_000) == UnixSeconds(t0) - 120;
    assert InAnyWindow(windows, UnixSeconds(t0 - 120_000));
    assert DailyMapUpTo(history, windows, dayOf, 1) == map[];
    assert DailyMap(history, windows, dayOf) == DailyMapUpTo(history, windows, dayOf, 2);
  }

  /**
   * The same, followed by a second change one minute after t0 on the same
   * day: the day before is taken, so the second change stays on its own day.
   */
  lemma CronDuplicateScenario(t0: int, dayOf: DayOf)
    requires dayOf(t0 - 120_000) == dayOf(t0 + 60_000)
    ensures var history := [History(t0 - 3_600_000, 0.0, None, None), History(t0 - 120_000, 1.0, None, None),
                            History(t0 + 60_000, 2.0, None, None)];
            var day := dayOf(t0 + 60_000);
            DailyMap(history, CronWindows([History(t0, 0.0, None, None)]), dayOf)
              == map[day - 1 := 1.0, day := 1.0]
  {
    var windows := CronWindows([History(t0, 0.0, None, None)]);
    var history := [History(t0 - 3_600_000, 0.0, None, None), History(t0 - 120_000, 1.0, None, None),
                    History(t0 + 60_000, 2.0, None, None)];
    assert UnixSeconds(t0 - 120_000) == UnixSeconds(t0) - 120;
    assert UnixSeconds(t0 + 60_000) == UnixSeconds(t0) + 60;
    assert Contains(windows[0], UnixSeconds(t0 - 120_000));
    assert Contains(windows[0], UnixSeconds(t0 + 60_000));
    assert DailyMapUpTo(history, windows, dayOf, 2) == map[dayOf(t0 - 120_000) - 1 := 1.0];
  }

  /** JavaScript truthiness of a possibly absent number (NaN is not modelled). */
  predicate Falsy(delta: Option<real>)
  {
    delta.None? || delta.value == 0.0
  }

  /**
   * `DailyStatus`: a positive change is a success on any day; a past day is
   * otherwise a failure; today with no change is pending with the streak, and
   * today with a negative change is a failure.
   */
  function DailyStatus(day: Day, delta: Option<real>, streak: int, today: Day): (c: Cell)
    ensures c == Success <==> delta.Some? && delta.value > 0.0
    ensures c.Pending? <==> day == today && (delta.None? || delta.value == 0.0)
    ensures c == Fail <==> if day == today then delta.Some? && delta.value < 0.0 else delta.None? || delta.value <= 0.0
    ensures c.Pending? ==> c.streak == streak && (c.icon == Cold <==> streak == 0)
  {
    if day != today then
      if Falsy(delta) || delta.value <= 0.0 then Fail else Success
    else if Falsy(delta) || delta.value == 0.0 then Pending(streak, if streak == 0 then Cold else Fire)
    else if delta.value > 0.0 then Success
    else Fail
  }

  function DailyCells(dailyDeltas: seq<DayEntry<real>>, streak: int, today: Day): (cells: seq<Cell>)
    ensures |cells| == |dailyDeltas|
    ensures forall k :: 0 <= k < |dailyDeltas| ==>
      cells[k] == DailyStatus(dailyDeltas[k].day, dailyDeltas[k].entry, streak, today)
  {
    if dailyDeltas == [] then []
    else [DailyStatus(dailyDeltas[0].day, dailyDeltas[0].entry, streak, today)] + DailyCells(dailyDeltas[1..], streak, today)
  }

  /** The row `Daily` renders for `dates`: nothing when hidden, otherwise one cell per day. */
  function DailyRow(task: Task, dates: seq<Day>, windows: seq<Interval>, dayOf: DayOf, showNoHistory: bool, today: Day)
    : (row: Option<seq<Cell>>)
    ensures row.None? <==> !showNoHistory && forall d :: d in dates ==> d !in DailyMap(task.history, windows, dayOf)
    ensures row.Some? ==>
      && |row.value| == |dates|
      && forall k :: 0 <= k < |dates| ==>
           row.value[k] == DailyStatus(dates[k], Get(DailyMap(task.history, windows, dayOf), dates[k]), task.streak, today)
  {
    var dailyDeltas := DayEntries(dates, DailyMap(task.history, windows, dayOf));
    SuppressRowIff(dates, DailyMap(task.history, windows, dayOf), showNoHistory);
    if SuppressRow(dailyDeltas, showNoHistory) then None else Some(DailyCells(dailyDeltas, task.streak, today))
  }

  /** The `Daily` component: attribute, project onto `dates`, hide or classify. */
  method Daily(task: Task, dates: seq<Day>, cronIntervals: IntervalTree, dayOf: DayOf, showNoHistory: bool, today: Day)
    returns (row: Option<seq<Cell>>)
    ensures row == DailyRow(task, dates, cronIntervals.intervals, dayOf, showNoHistory, today)
  {
    var historyMap := DailyHistoryMap(task.history, cronIntervals, dayOf);
    var dailyDeltas := DayEntries(dates, historyMap);
    if SuppressRow(dailyDeltas, showNoHistory) {
      return None;
    }
    row := Some(DailyCells(dailyDeltas, task.streak, today));
  }

  /** `DailyHistory`'s per-task choice: habits get the habit row, every other task the daily row. */
  method TaskRow(task: Task, dates: seq<Day>, cronIntervals: IntervalTree, dayOf: DayOf, showNoHistory: bool, today: Day)
    returns (row: Option<seq<Cell>>)
    ensures task.taskType == "habit" ==> row == HabitHistory.HabitRow(task, dates, dayOf, showNoHistory, today)
    ensures task.taskType != "habit" ==> row == DailyRow(task, dates, cronIntervals.intervals, dayOf, showNoHistory, today)
  {
    if task.taskType == "habit" {
      row := HabitHistory.Habit(task, dates, dayOf, showNoHistory, today);
    } else {
      row := Daily(task, dates, cronIntervals, dayOf, showNoHistory, today);
    }
  }

  /**
   * Over the trailing window of days, only the last cell (today) can be
   * pending in a daily row or blank in a habit row; every earlier day is
   * judged.
   */
  lemma OnlyTodayUndecided(task: Task, numDays: nat, today: Day, windows: seq<Interval>, dayOf: DayOf, showNoHistory: bool, k: nat)
    requires k < numDays
    ensures var row := DailyRow(task, DateArray(numDays, today), windows, dayOf, showNoHistory, today);
            row.Some? && row.value[k].Pending? ==> k == numDays - 1
    ensures var row := HabitHistory.HabitRow(task, DateArray(numDays, today), dayOf, showNoHistory, today);
            row.Some? && row.value[k] == Blank ==> k == numDays - 1
  {
    var dates := DateArray(numDays, today);
    assert dates[k] == today - (numDays - 1 - k);
  }
}
