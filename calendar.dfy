/**
 Calendar arithmetic of the service: the month whose first midnight ends the
 current retention period, and the hour in which the monthly sweep fires.
 */
module Calendar {

  /** Months elapsed since January of year 0, so that consecutive calendar
      months have consecutive indices. */
  function MonthIndex(year: int, month: int): int
  {
    year * 12 + (month - 1)
  }

  /** The (year, month) of the first day of the month after (year, month),
      December rolling over to January of the next year. */
  function NextMonth(year: int, month: int): (next: (int, int))
    requires 1 <= month <= 12
    ensures 1 <= next.1 <= 12
    ensures MonthIndex(next.0, next.1) == MonthIndex(year, month) + 1
  {
    var nextMonth := month + 1;
    if nextMonth > 12 then (year + 1, 1) else (year, nextMonth)
  }

  /** A valid (year, month) is determined by its index, so NextMonth is
      the only valid month one step later. */
  lemma NextMonthUnique(year: int, month: int, y: int, m: int)
    requires 1 <= month <= 12 && 1 <= m <= 12
    requires MonthIndex(y, m) == MonthIndex(year, month) + 1
    ensures (y, m) == NextMonth(year, month)
  {
  }

  /** The monthly sweep's trigger: the 1st of the month, 00:00 to 00:59. */
  predicate IsSweepTime(day: int, hour: int)
  {
    day == 1 && hour == 0
  }

  /** Day of the month of the minute `t` counted from the month's first
      midnight. */
  function DayOfMinute(t: nat): int
  {
    t / (24 * 60) + 1
  }

  /** Hour of the day of the minute `t` counted from the month's first
      midnight. */
  function HourOfMinute(t: nat): int
  {
    t % (24 * 60) / 60
  }

  /** The trigger holds during exactly the first sixty minutes of a month. */
  lemma SweepWindowIsFirstHour(t: nat)
    ensures IsSweepTime(DayOfMinute(t), HourOfMinute(t)) <==> t < 60
  {
    if t >= 60 && DayOfMinute(t) == 1 {
      assert t < 24 * 60;
      assert t % (24 * 60) == t;
    }
  }
}
