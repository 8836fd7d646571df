/**
 * PeriodUnit, the calendar unit of a Period. Its own source (the type,
 * PeriodUnit.Parse and PeriodUnit.AddPeriod) is not part of this model: its
 * seven units are written out, the unit codes are mapped as Period's grammar
 * names them, and the calendar arithmetic is a capability handed in by the
 * caller (a Calendar), because it depends on the host's time-zone database.
 */
module PeriodUnits {
  import opened Wrappers
  import opened Instants

  datatype PeriodUnit = Millisecond | Second | Minute | Hour | Day | Month | Year

  /** A time-zone identifier (TimeZoneInfo). */
  type ZoneId = string

  /**
   * The calendar arithmetic of one host: add(u, t, n, zone) is
   * PeriodUnit.AddPeriod(t, n, zone) for unit u (zone None is a null
   * TimeZoneInfo), and defaultZone is DateHelper.GetDefaultTimeZone().
   */
  datatype Calendar = Calendar(add: (PeriodUnit, Instant, int, Option<ZoneId>) -> Instant, defaultZone: ZoneId)

  /** The units whose length Period.FromTimePoints measures as a fixed number of milliseconds. */
  predicate HasFixedLength(u: PeriodUnit) {
    !u.Month? && !u.Year?
  }

  function UnitMs(u: PeriodUnit): (n: int)
    requires HasFixedLength(u)
    ensures n > 0
  {
    match u
    case Millisecond => 1
    case Second => MsPerSecond
    case Minute => MsPerMinute
    case Hour => MsPerHour
    case Day => MsPerDay
  }

  /**
   * The calendar moves an instant by n units of u by adding exactly n times the
   * unit's length to the UTC instant, in every zone. Milliseconds up to hours
   * are plain UTC arithmetic; for days this holds only in zones without
   * daylight-saving changes.
   */
  ghost predicate StepsExactly(cal: Calendar, u: PeriodUnit)
    requires HasFixedLength(u)
  {
    forall t: Instant, n: int, z: Option<ZoneId> :: cal.add(u, t, n, z).utcMs == t.utcMs + n * UnitMs(u)
  }

  /** Every unit moves the UTC instant strictly forward for a positive count. */
  ghost predicate Advances(cal: Calendar) {
    forall u: PeriodUnit, t: Instant, n: int, z: Option<ZoneId> :: n > 0 ==> cal.add(u, t, n, z).utcMs > t.utcMs
  }

  /** The unit code of Period's text grammar, in lower case. */
  function Code(u: PeriodUnit): string {
    match u
    case Millisecond => "ms"
    case Second => "s"
    case Minute => "min"
    case Hour => "h"
    case Day => "d"
    case Month => "mth"
    case Year => "yr"
  }

  function ToLowerAscii(c: char): (l: char)
    ensures !('A' <= l <= 'Z')
  {
    if 'A' <= c <= 'Z' then (c as int - 'A' as int + 'a' as int) as char else c
  }

  function ToLower(s: string): string {
    seq(|s|, i requires 0 <= i < |s| => ToLowerAscii(s[i]))
  }

  /**
   * PeriodUnit.Parse on the text the grammar matched: the seven codes in any
   * letter case name their unit, anything else names none.
   */
  function ParseCode(text: string): (r: Option<PeriodUnit>)
    ensures r.Some? ==> ToLower(text) == Code(r.value)
    ensures forall u: PeriodUnit :: ToLower(text) == Code(u) ==> r == Some(u)
  {
    var lower := ToLower(text);
    if lower == "ms" then Some(Millisecond)
    else if lower == "s" then Some(Second)
    else if lower == "min" then Some(Minute)
    else if lower == "h" then Some(Hour)
    else if lower == "d" then Some(Day)
    else if lower == "mth" then Some(Month)
    else if lower == "yr" then Some(Year)
    else None
  }

  /** Each unit's code parses back to that unit, and to no other. */
  lemma ParseCodeOfCode(u: PeriodUnit)
    ensures ParseCode(Code(u)) == Some(u)
  {
    var lower := ToLower(Code(u));
    assert lower == Code(u);
  }
}
