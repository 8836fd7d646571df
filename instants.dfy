/**
 * The part of .NET's DateTimeOffset that Period relies on. The calendar fields
 * (Year, Month, Day) are those of the instant's own offset, while equality and
 * ordering are by the UTC instant, here counted in milliseconds.
 */
module Instants {

  datatype Instant = Instant(year: int, month: int, day: int, utcMs: int)

  /** DateTimeOffset.MinValue: 0001-01-01T00:00:00 at offset zero. */
  const MinValue: Instant := Instant(1, 1, 1, 0)

  const MsPerSecond: int := 1000
  const MsPerMinute: int := 60 * MsPerSecond
  const MsPerHour: int := 60 * MsPerMinute
  const MsPerDay: int := 24 * MsPerHour
}
