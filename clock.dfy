/** Local wall-clock time as integer milliseconds.
    An instant is `day * MsPerDay + msOfDay` counted from a local epoch whose day 0
    (1970-01-01) was a Thursday; there is no daylight-saving shift and no calendar
    (month/year) arithmetic: a calendar date is a day number. */
module Clock {

  const MsPerSecond: int := 1000
  const MsPerMinute: int := 60 * MsPerSecond
  const MsPerHour: int := 60 * MsPerMinute
  const MsPerDay: int := 24 * MsPerHour

  /** Weekday of day 0, in the numbering of `Date.getDay` (0 = Sunday). */
  const EpochWeekday: int := 4

  /** The calendar day an instant falls on. */
  function DayOf(t: int): int {
    t / MsPerDay
  }

  /** Milliseconds since local midnight. */
  function MsOfDay(t: int): (r: int)
    ensures 0 <= r < MsPerDay
    ensures t == DayOf(t) * MsPerDay + r
  {
    t % MsPerDay
  }

  /** Day of the week of a day number, 0 = Sunday ... 6 = Saturday. */
  function Weekday(day: int): (r: int)
    ensures 0 <= r < 7
  {
    (day + EpochWeekday) % 7
  }

  /** The instant at `hour:minute:00.000` on the given day. */
  function At(day: int, hour: nat, minute: nat): int {
    day * MsPerDay + hour * MsPerHour + minute * MsPerMinute
  }

  /** An instant built from an hour and minute of a valid time lies on that day. */
  lemma AtOnDay(day: int, hour: nat, minute: nat)
    requires hour <= 23 && minute <= 59
    ensures DayOf(At(day, hour, minute)) == day
    ensures MsOfDay(At(day, hour, minute)) == hour * MsPerHour + minute * MsPerMinute
  {
    var r := hour * MsPerHour + minute * MsPerMinute;
    assert 0 <= r < MsPerDay;
    assert At(day, hour, minute) == day * MsPerDay + r;
  }

  /** Moving an instant by whole days moves its day number and keeps its time of day. */
  lemma ShiftDays(t: int, n: int)
    ensures DayOf(t + n * MsPerDay) == DayOf(t) + n
    ensures MsOfDay(t + n * MsPerDay) == MsOfDay(t)
  {
    var r := t % MsPerDay;
    assert t + n * MsPerDay == (DayOf(t) + n) * MsPerDay + r;
  }
}
