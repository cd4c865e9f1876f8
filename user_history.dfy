/**
 * The session-wide context of the scoreboard: the cron windows built from the
 * user's cron history, the interval structure they are inserted into, the
 * trailing window of days to show and the month heading over it.
 */
module UserHistory {
  import opened Wrappers
  import opened HabiticaTypes

  /** Half-width, in seconds, of the window around each cron instant. */
  const CronBufferSeconds: int := 300

  /** A closed range [low, high] of unix seconds. */
  datatype Interval = Interval(low: int, high: int)

  predicate Contains(w: Interval, point: int)
  {
    w.low <= point <= w.high
  }

  /** `dayjs(ms).unix()`: the instant in whole seconds, rounded down. */
  function UnixSeconds(ms: int): (s: int)
    ensures s * 1000 <= ms < s * 1000 + 1000
  {
    ms / 1000
  }

  /** The window around one cron instant of the user's `history.exp` log. */
  function CronWindow(cron: History): Interval
  {
    var t := UnixSeconds(cron.date);
    Interval(t - CronBufferSeconds, t + CronBufferSeconds)
  }

  /** `history.exp.map(...)`: one window per cron entry, in the same order. */
  function CronWindows(exp: seq<History>): (windows: seq<Interval>)
    ensures |windows| == |exp|
    ensures forall k :: 0 <= k < |exp| ==>
      && windows[k].high - windows[k].low == 2 * CronBufferSeconds
      && windows[k].low + CronBufferSeconds == UnixSeconds(exp[k].date)
      && Contains(windows[k], UnixSeconds(exp[k].date))
  {
    if exp == [] then [] else [CronWindow(exp[0])] + CronWindows(exp[1..])
  }

  /** Whether `point` lies in any of `windows`, by a linear scan. */
  predicate InAnyWindow(windows: seq<Interval>, point: int)
  {
    |windows| > 0 && (Contains(windows[0], point) || InAnyWindow(windows[1..], point))
  }

  lemma {:induction false} InAnyWindowIff(windows: seq<Interval>, point: int)
    ensures InAnyWindow(windows, point) <==> exists k :: 0 <= k < |windows| && Contains(windows[k], point)
  {
    if |windows| > 0 {
      InAnyWindowIff(windows[1..], point);
      if exists k :: 0 <= k < |windows| && Contains(windows[k], point) {
        var k :| 0 <= k < |windows| && Contains(windows[k], point);
        if k > 0 {
          assert Contains(windows[1..][k - 1], point);
        }
      }
    }
  }

  /**
   * A point is in a cron window exactly when it is within the buffer of some
   * cron instant; with no cron entries no point is.
   */
  lemma {:induction false} CronWindowsHit(exp: seq<History>, point: int)
    ensures InAnyWindow(CronWindows(exp), point) <==>
      exists k :: 0 <= k < |exp| && -CronBufferSeconds <= point - UnixSeconds(exp[k].date) <= CronBufferSeconds
    ensures exp == [] ==> !InAnyWindow(CronWindows(exp), point)
  {
    var windows := CronWindows(exp);
    InAnyWindowIff(windows, point);
    if exists k :: 0 <= k < |exp| && -CronBufferSeconds <= point - UnixSeconds(exp[k].date) <= CronBufferSeconds {
      var k :| 0 <= k < |exp| && -CronBufferSeconds <= point - UnixSeconds(exp[k].date) <= CronBufferSeconds;
      assert Contains(windows[k], point);
    }
  }

  /** The stored intervals that meet the closed range [low, high], in insertion order. */
  function Overlapping(windows: seq<Interval>, low: int, high: int): (hits: seq<Interval>)
    ensures |hits| <= |windows|
    ensures forall w :: w in hits <==> w in windows && w.low <= high && low <= w.high
  {
    if windows == [] then []
    else
      var rest := Overlapping(windows[1..], low, high);
      if windows[0].low <= high && low <= windows[0].high then [windows[0]] + rest else rest
  }

  /** A point query `search(u, u)` finds something exactly when `u` is in some window. */
  lemma {:induction false} SearchPointIff(windows: seq<Interval>, point: int)
    ensures |Overlapping(windows, point, point)| > 0 <==> InAnyWindow(windows, point)
  {
    InAnyWindowIff(windows, point);
    var hits := Overlapping(windows, point, point);
    if |hits| > 0 {
      assert hits[0] in hits;
    }
  }

  /** The mutable interval structure the cron windows are inserted into. */
  class IntervalTree {
    var intervals: seq<Interval>

    constructor ()
      ensures intervals == []
    {
      intervals := [];
    }

    method Insert(low: int, high: int)
      modifies this
      ensures intervals == old(intervals) + [Interval(low, high)]
    {
      intervals := intervals + [Interval(low, high)];
    }

    /** The stored intervals that meet [low, high]. */
    function Search(low: int, high: int): (hits: seq<Interval>)
      reads this
      ensures forall w :: w in hits <==> w in intervals && w.low <= high && low <= w.high
    {
      Overlapping(intervals, low, high)
    }
  }

  /** `cronTimes.forEach(range => cronIntervals.insert(range[0], range[1], true))` on a fresh tree. */
  method BuildCronIntervals(cronTimes: seq<Interval>) returns (cronIntervals: IntervalTree)
    ensures fresh(cronIntervals)
    ensures cronIntervals.intervals == cronTimes
  {
    cronIntervals := new IntervalTree();
    for i := 0 to |cronTimes|
      invariant cronIntervals.intervals == cronTimes[..i]
    {
      cronIntervals.Insert(cronTimes[i].low, cronTimes[i].high);
      assert cronTimes[..i + 1] == cronTimes[..i] + [cronTimes[i]];
    }
  }

  /** `[0, 1, ..., n - 1]` */
  function Indices(n: nat): (r: seq<nat>)
    ensures |r| == n && forall k :: 0 <= k < n ==> r[k] == k
  {
    if n == 0 then [] else Indices(n - 1) + [n - 1]
  }

  function Reverse<T>(s: seq<T>): (r: seq<T>)
    ensures |r| == |s| && forall k :: 0 <= k < |s| ==> r[k] == s[|s| - 1 - k]
  {
    if s == [] then [] else Reverse(s[1..]) + [s[0]]
  }

  /** `offsets.map(i => today.subtract(i, "day"))` */
  function DaysAgo(today: Day, offsets: seq<nat>): (r: seq<Day>)
    ensures |r| == |offsets| && forall k :: 0 <= k < |offsets| ==> r[k] == today - offsets[k]
  {
    if offsets == [] then [] else [today - offsets[0]] + DaysAgo(today, offsets[1..])
  }

  /** `getDateArray`: the trailing `numDays` days ending with `today`, oldest first. */
  function DateArray(numDays: nat, today: Day): (dates: seq<Day>)
    ensures |dates| == numDays
    ensures forall k :: 0 <= k < numDays ==> dates[k] == today - (numDays - 1 - k)
    ensures numDays > 0 ==> dates[numDays - 1] == today
    ensures forall j, k :: 0 <= j < k < numDays ==> dates[j] < dates[k]
  {
    DaysAgo(today, Reverse(Indices(numDays)))
  }

  /** A date seen through `.year()` and `.month()` (month numbered from 0). */
  datatype CalendarDate = CalendarDate(year: int, month: int)

  /**
   * One formatted month: `longName` for "MMMM" (full name), otherwise "MMM";
   * `year` when the format carries "YYYY".
   */
  datatype MonthLabel = MonthLabel(month: int, year: Option<int>, longName: bool)

  /**
   * `getMonthString`: the heading over the date window, as the labels that are
   * joined with an en dash. `None` for an empty window, where the source fails
   * on the missing first date.
   */
  function MonthString(dates: seq<CalendarDate>): (labels: Option<seq<MonthLabel>>)
    ensures labels.None? <==> dates == []
    ensures labels.Some? ==>
      var first, last := dates[0], dates[|dates| - 1];
      && (|labels.value| == 1 <==> first.month == last.month)
      && (|labels.value| == 1 || |labels.value| == 2)
      && labels.value[|labels.value| - 1].month == last.month
      && labels.value[|labels.value| - 1].year == Some(last.year)
      && (labels.value[|labels.value| - 1].longName <==> first.month == last.month)
      && (|labels.value| == 2 ==>
            && labels.value[0].month == first.month
            && !labels.value[0].longName
            && labels.value[0].year == (if first.year == last.year then None else Some(first.year)))
  {
    if dates == [] then None
    else
      var monthStart, monthEnd := dates[0], dates[|dates| - 1];
      if monthStart.month == monthEnd.month then
        Some([MonthLabel(monthEnd.month, Some(monthEnd.year), true)])
      else
        var startYear := if monthStart.year == monthEnd.year then None else Some(monthStart.year);
        Some([MonthLabel(monthStart.month, startYear, false), MonthLabel(monthEnd.month, Some(monthEnd.year), false)])
  }
}
