/**
 * Durations in the normal form of Python's `datetime.timedelta`, restricted
 * to whole seconds: a number of days of either sign and a number of seconds
 * within the day.
 */
module TimeDeltas {

  const SecondsPerHour: int := 3600
  const SecondsPerDay: int := 86400

  type DaySeconds = s: int | 0 <= s < SecondsPerDay

  datatype TimeDelta = TimeDelta(days: int, seconds: DaySeconds)

  /** The length of the duration in seconds. */
  function TotalSeconds(td: TimeDelta): int {
    td.days * SecondsPerDay + td.seconds
  }

  /**
   * `timedelta(seconds=seconds, hours=hours)`: the total is split by floor
   * division into days and seconds of the day, and keeps its value.
   */
  function FromHoursSeconds(hours: int, seconds: int): (td: TimeDelta)
    ensures TotalSeconds(td) == hours * SecondsPerHour + seconds
  {
    var total := hours * SecondsPerHour + seconds;
    TimeDelta(total / SecondsPerDay, total % SecondsPerDay)
  }

  /** The normal form is unique: equal totals mean equal timedeltas. */
  lemma NormalFormUnique(a: TimeDelta, b: TimeDelta)
    ensures a == b <==> TotalSeconds(a) == TotalSeconds(b)
  {
  }
}
