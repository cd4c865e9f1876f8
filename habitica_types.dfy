/** The shapes of the task data the tracker's server sends. */
module HabiticaTypes {
  import opened Wrappers

  /**
   * A local calendar day, numbered consecutively (day d - 1 is the day before d).
   * It stands for the "YYYYMMDD" date key, which is injective on days.
   */
  type Day = int

  /** The local calendar day on which an epoch-millisecond instant falls. */
  type DayOf = int -> Day

  /**
   * One entry of a task's history: `date` in epoch milliseconds, the task's
   * `value` at that moment, and, for habits only, the up and down scores.
   */
  datatype History = History(date: int, value: real, scoredUp: Option<real>, scoredDown: Option<real>)

  /** The part of a task that the scoreboard reads. `taskType` is "habit", "daily", "todo", ... */
  datatype Task = Task(text: string, taskType: string, streak: int, history: seq<History>)
}
