/**
 * `DateTime` as a count of 100-nanosecond ticks with its `DateTimeKind`, and the
 * time-zone conversions the repository calls, as functions carried by the zone.
 */
module Time {
  const TicksPerMinute: int := 600_000_000
  const TicksPerHour: int := 60 * TicksPerMinute
  const TicksPerDay: int := 24 * TicksPerHour

  /** `TimeSpan.FromMinutes(15)` and `TimeSpan.FromHours(3)`. */
  const MinDuration: int := 15 * TicksPerMinute
  const MaxDuration: int := 3 * TicksPerHour

  datatype DateTimeKind = Unspecified | Utc | Local

  /** A `DateTime`. Comparison and subtraction of two `DateTime`s look at the
      ticks only and ignore the kind. */
  datatype DateTime = DateTime(ticks: int, kind: DateTimeKind)

  /** A `TimeZoneInfo`, known only through its two conversions:
      `fromUtc` is `TimeZoneInfo.ConvertTimeFromUtc` and `toUtc` is
      `TimeZoneInfo.ConvertTimeToUtc` of an unspecified-kind wall-clock time. */
  datatype TimeZone = TimeZone(fromUtc: int -> int, toUtc: int -> int)

  /** The local helper of `TryCreateBooking`: a UTC value is moved to the zone's
      wall clock; local and unspecified values already are wall-clock times. */
  function NormalizeToLocalWall(dt: DateTime, tz: TimeZone): (wall: int)
    ensures dt.kind == Utc ==> wall == tz.fromUtc(dt.ticks)
    ensures dt.kind != Utc ==> wall == dt.ticks
  {
    match dt.kind
    case Utc => tz.fromUtc(dt.ticks)
    case Local => dt.ticks
    case Unspecified => dt.ticks
  }

  /** `day.ToDateTime(TimeOnly.MinValue)` for a `DateOnly` with day number `day`. */
  function DayStart(day: nat): (t: int)
    ensures t % TicksPerDay == 0 && t / TicksPerDay == day
  {
    day * TicksPerDay
  }

  /** `day.ToDateTime(TimeOnly.MaxValue)`: the last tick of the day. */
  function DayEnd(day: nat): (t: int)
    ensures DayStart(day) < t < DayStart(day + 1) && t + 1 == DayStart(day + 1)
  {
    day * TicksPerDay + TicksPerDay - 1
  }
}
