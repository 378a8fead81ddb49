/**
 * Python's `datetime.time` and `datetime.datetime`, reduced to what the
 * reminder logic looks at: a calendar date as a day number and a time of
 * day with its hour, minute, second and microsecond.
 */
module Temporal {

  /** `datetime.time` (naive). */
  datatype TimeOfDay = TimeOfDay(hour: int, minute: int, second: int, microsecond: int)

  /** `datetime.datetime` (naive): a day number (proleptic ordinal) and a time of day. */
  datatype DateTime = DateTime(date: int, time: TimeOfDay)

  /** The ranges Python enforces on the fields of a `time`. */
  predicate ValidTime(t: TimeOfDay)
  {
    0 <= t.hour < 24 && 0 <= t.minute < 60 && 0 <= t.second < 60 && 0 <= t.microsecond < 1000000
  }

  /** Minute of the day, 0..1439 for a valid time. */
  function MinuteOfDay(t: TimeOfDay): (m: int)
    requires ValidTime(t)
    ensures 0 <= m < 24 * 60
  {
    t.hour * 60 + t.minute
  }

  /** `t.replace(second=0, microsecond=0)`. */
  function TruncateTime(t: TimeOfDay): (r: TimeOfDay)
    ensures r.hour == t.hour && r.minute == t.minute
    ensures r.second == 0 && r.microsecond == 0
  {
    t.(second := 0, microsecond := 0)
  }

  /** `dt.replace(second=0, microsecond=0)`: the date is kept. */
  function Truncate(dt: DateTime): (r: DateTime)
    ensures r.date == dt.date && r.time == TruncateTime(dt.time)
  {
    dt.(time := TruncateTime(dt.time))
  }

  /** `dt - timedelta(days=n)`: the time of day is kept, the date moves back n days. */
  function MinusDays(dt: DateTime, n: int): (r: DateTime)
    ensures r.time == dt.time && r.date + n == dt.date
  {
    dt.(date := dt.date - n)
  }

  /** Truncated to the minute, two valid times are equal exactly when their minute of day is. */
  lemma TruncatedEqualIffSameMinute(a: TimeOfDay, b: TimeOfDay)
    requires ValidTime(a) && ValidTime(b)
    ensures TruncateTime(a) == TruncateTime(b) <==> MinuteOfDay(a) == MinuteOfDay(b)
  {
  }
}
