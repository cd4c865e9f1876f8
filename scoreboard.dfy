/**
 * What both score rows share: the cell a day is shown as, the dense
 * per-day view of a sparse day-keyed map, and the test that hides a row.
 */
module Scoreboard {
  import opened Wrappers
  import opened HabiticaTypes

  datatype Colour = SuccessColour | FailColour

  /** The streak symbol on today's pending cell: frozen for a zero streak, fire otherwise. */
  datatype StreakIcon = Cold | Fire

  /** A rendered cell, with the CSS classes and symbols replaced by variants. */
  datatype Cell =
    | Success                                          // a tick
    | Fail                                             // a cross
    | Pending(streak: int, icon: StreakIcon)           // today, nothing done yet
    | Blank                                            // today, no habit score yet
    | HabitCell(up: real, plus: bool, colour: Colour)  // the up-score, "+up" when plus

  /** One requested day with what the history map holds for it, if anything. */
  datatype DayEntry<V> = DayEntry(day: Day, entry: Option<V>)

  /** `dates.map(day => ({day, entry: historyMap.get(day)}))` */
  function DayEntries<V>(dates: seq<Day>, historyMap: map<Day, V>): (r: seq<DayEntry<V>>)
    ensures |r| == |dates|
    ensures forall k :: 0 <= k < |r| ==> r[k].day == dates[k] && r[k].entry == Get(historyMap, dates[k])
  {
    if dates == [] then []
    else [DayEntry(dates[0], Get(historyMap, dates[0]))] + DayEntries(dates[1..], historyMap)
  }

  /** The entries whose value is defined, in order. */
  function Present<V>(entries: seq<DayEntry<V>>): (r: seq<DayEntry<V>>)
    ensures |r| <= |entries|
    ensures forall e :: e in r ==> e in entries && e.entry.Some?
    ensures forall e :: e in entries && e.entry.Some? ==> e in r
  {
    if entries == [] then []
    else if entries[0].entry.Some? then [entries[0]] + Present(entries[1..])
    else Present(entries[1..])
  }

  /** A row is hidden when none of its days has an entry and empty rows are not wanted. */
  predicate SuppressRow<V>(entries: seq<DayEntry<V>>, showNoHistory: bool)
  {
    |Present(entries)| == 0 && !showNoHistory
  }

  /** Nothing is present exactly when no entry has a value. */
  lemma {:induction false} PresentEmptyIff<V>(entries: seq<DayEntry<V>>)
    ensures |Present(entries)| == 0 <==> forall k :: 0 <= k < |entries| ==> entries[k].entry.None?
  {
    if entries != [] {
      PresentEmptyIff(entries[1..]);
      assert forall k :: 1 <= k < |entries| ==> entries[k] == entries[1..][k - 1];
    }
  }

  /** The row for `dates` over `historyMap` is hidden exactly when no requested day is a key and empty rows are not wanted. */
  lemma {:induction false} SuppressRowIff<V>(dates: seq<Day>, historyMap: map<Day, V>, showNoHistory: bool)
    ensures SuppressRow(DayEntries(dates, historyMap), showNoHistory)
            <==> !showNoHistory && forall d :: d in dates ==> d !in historyMap
  {
    PresentEmptyIff(DayEntries(dates, historyMap));
  }
}
