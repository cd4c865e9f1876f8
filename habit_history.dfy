/**
 * The habit row: the last (scoredUp, scoredDown) pair of each day, with no
 * cron shift, and the cells derived from it.
 */
module HabitHistory {
  import opened Wrappers
  import opened HabiticaTypes
  import opened Scoreboard

  /** A record counts for a habit only when it carries both scores. */
  predicate Scored(record: History)
  {
    record.scoredUp.Some? && record.scoredDown.Some?
  }

  function ScorePair(record: History): (real, real)
    requires Scored(record)
  {
    (record.scoredUp.value, record.scoredDown.value)
  }

  /** One pass of the `for...of` loop. */
  function HabitStep(historyMap: map<Day, (real, real)>, dayOf: DayOf, record: History): (r: map<Day, (real, real)>)
    ensures !Scored(record) ==> r == historyMap
    ensures Scored(record) ==>
      && r.Keys == historyMap.Keys + {dayOf(record.date)}
      && r[dayOf(record.date)] == ScorePair(record)
      && forall d :: d in historyMap && d != dayOf(record.date) ==> r[d] == historyMap[d]
  {
    if Scored(record) then historyMap[dayOf(record.date) := ScorePair(record)] else historyMap
  }

  /** The map after the loop has visited the first `n` records. */
  function HabitMapUpTo(history: seq<History>, dayOf: DayOf, n: nat): map<Day, (real, real)>
    requires n <= |history|
  {
    if n == 0 then map[] else HabitStep(HabitMapUpTo(history, dayOf, n - 1), dayOf, history[n - 1])
  }

  function HabitMap(history: seq<History>, dayOf: DayOf): map<Day, (real, real)>
  {
    HabitMapUpTo(history, dayOf, |history|)
  }

  /** The attribution loop of `Habit`: the last scored pair of each day. */
  method HabitHistoryMap(history: seq<History>, dayOf: DayOf) returns (historyMap: map<Day, (real, real)>)
    ensures historyMap == HabitMap(history, dayOf)
  {
    historyMap := map[];
    for i := 0 to |history|
      invariant historyMap == HabitMapUpTo(history, dayOf, i)
    {
      var record := history[i];
      var taskDate := dayOf(record.date);
      if record.scoredUp.Some? && record.scoredDown.Some? {
        historyMap := historyMap[taskDate := (record.scoredUp.value, record.scoredDown.value)];
      }
    }
  }

  /** Once a day has an entry it keeps one. */
  lemma {:induction false} HabitKeysGrow(history: seq<History>, dayOf: DayOf, n: nat, n': nat)
    requires n <= n' <= |history|
    ensures HabitMapUpTo(history, dayOf, n).Keys <= HabitMapUpTo(history, dayOf, n').Keys
    decreases n' - n
  {
    if n < n' {
      HabitKeysGrow(history, dayOf, n, n' - 1);
    }
  }

  /** The last scored record of day `d` among the first `n`: its pair is the entry of `d`. */
  lemma {:induction false} LastScored(history: seq<History>, dayOf: DayOf, n: nat, d: Day) returns (i: int)
    requires n <= |history| && d in HabitMapUpTo(history, dayOf, n)
    ensures 0 <= i < n && Scored(history[i]) && dayOf(history[i].date) == d
    ensures HabitMapUpTo(history, dayOf, n)[d] == ScorePair(history[i])
    ensures forall j :: i < j < n && Scored(history[j]) ==> dayOf(history[j].date) != d
  {
    var last := history[n - 1];
    if Scored(last) && dayOf(last.date) == d {
      i := n - 1;
    } else {
      i := LastScored(history, dayOf, n - 1, d);
    }
  }

  /**
   * A day has an entry exactly when some scored record falls on it, and the
   * entry is the pair of the last scored record of that day.
   */
  lemma {:induction false} HabitLastRecordWins(history: seq<History>, dayOf: DayOf, n: nat)
    requires n <= |history|
    ensures forall d :: d in HabitMapUpTo(history, dayOf, n) <==>
      exists i :: 0 <= i < n && Scored(history[i]) && dayOf(history[i].date) == d
    ensures forall d :: d in HabitMapUpTo(history, dayOf, n) ==>
      exists i :: 0 <= i < n && Scored(history[i]) && dayOf(history[i].date) == d
                  && HabitMapUpTo(history, dayOf, n)[d] == ScorePair(history[i])
                  && forall j :: i < j < n && Scored(history[j]) ==> dayOf(history[j].date) != d
  {
    forall d | d in HabitMapUpTo(history, dayOf, n)
      ensures exists i :: 0 <= i < n && Scored(history[i]) && dayOf(history[i].date) == d
                          && HabitMapUpTo(history, dayOf, n)[d] == ScorePair(history[i])
                          && forall j :: i < j < n && Scored(history[j]) ==> dayOf(history[j].date) != d
    {
      var i := LastScored(history, dayOf, n, d);
    }
    forall i | 0 <= i < n && Scored(history[i])
      ensures dayOf(history[i].date) in HabitMapUpTo(history, dayOf, n)
    {
      assert dayOf(history[i].date) in HabitMapUpTo(history, dayOf, i + 1);
      HabitKeysGrow(history, dayOf, i + 1, n);
    }
  }

  /** `HabitScore`: the up-score with a plus sign when positive, in the success colour only from 1 up. */
  function HabitScore(up: real, down: real): (c: Cell)
    ensures c.HabitCell? && c.up == up
    ensures c.plus <==> up > 0.0
    ensures c.colour == SuccessColour <==> up >= 1.0
  {
    var colour := if up >= 1.0 then SuccessColour else FailColour;
    if up > 0.0 then HabitCell(up, true, colour) else HabitCell(up, false, FailColour)
  }

  /** The cell of one requested day: its score, or a cross for a past day, or blank for today. */
  function HabitDayCell(day: Day, score: Option<(real, real)>, today: Day): (c: Cell)
    ensures score.Some? ==> c == HabitScore(score.value.0, score.value.1)
    ensures score.None? && day != today ==> c == Fail
    ensures score.None? && day == today ==> c == Blank
    ensures c.HabitCell? <==> score.Some?
  {
    if score.Some? then HabitScore(score.value.0, score.value.1)
    else if day != today then Fail
    else Blank
  }

  function HabitCells(scores: seq<DayEntry<(real, real)>>, today: Day): (cells: seq<Cell>)
    ensures |cells| == |scores|
    ensures forall k :: 0 <= k < |scores| ==> cells[k] == HabitDayCell(scores[k].day, scores[k].entry, today)
  {
    if scores == [] then [] else [HabitDayCell(scores[0].day, scores[0].entry, today)] + HabitCells(scores[1..], today)
  }

  /** The row `Habit` renders for `dates`: nothing when hidden, otherwise one cell per day. */
  function HabitRow(task: Task, dates: seq<Day>, dayOf: DayOf, showNoHistory: bool, today: Day): (row: Option<seq<Cell>>)
    ensures row.None? <==> !showNoHistory && forall d :: d in dates ==> d !in HabitMap(task.history, dayOf)
    ensures row.Some? ==>
      && |row.value| == |dates|
      && forall k :: 0 <= k < |dates| ==>
           row.value[k] == HabitDayCell(dates[k], Get(HabitMap(task.history, dayOf), dates[k]), today)
  {
    var dailyScores := DayEntries(dates, HabitMap(task.history, dayOf));
    SuppressRowIff(dates, HabitMap(task.history, dayOf), showNoHistory);
    if SuppressRow(dailyScores, showNoHistory) then None else Some(HabitCells(dailyScores, today))
  }

  /** The `Habit` component: attribute, project onto `dates`, hide or classify. */
  method Habit(task: Task, dates: seq<Day>, dayOf: DayOf, showNoHistory: bool, today: Day) returns (row: Option<seq<Cell>>)
    ensures row == HabitRow(task, dates, dayOf, showNoHistory, today)
  {
    var historyMap := HabitHistoryMap(task.history, dayOf);
    var dailyScores := DayEntries(dates, historyMap);
    if SuppressRow(dailyScores, showNoHistory) {
      return None;
    }
    row := Some(HabitCells(dailyScores, today));
  }

  /** Two scored records on one day, (1, 0) then (2, 0): the day keeps (2, 0), a success "+2". */
  lemma HabitSameDayScenario(t1: int, t2: int, dayOf: DayOf)
    requires dayOf(t1) == dayOf(t2)
    ensures var history := [History(t1, 0.0, Some(1.0), Some(0.0)), History(t2, 0.0, Some(2.0), Some(0.0))];
            && HabitMap(history, dayOf) == map[dayOf(t1) := (2.0, 0.0)]
            && HabitDayCell(dayOf(t1), Get(HabitMap(history, dayOf), dayOf(t1)), dayOf(t1) + 1)
               == HabitCell(2.0, true, SuccessColour)
  {
    var history := [History(t1, 0.0, Some(1.0), Some(0.0)), History(t2, 0.0, Some(2.0), Some(0.0))];
    assert HabitMapUpTo(history, dayOf, 1) == map[dayOf(t1) := (1.0, 0.0)];
  }
}
