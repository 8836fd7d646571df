/**
 * Period.GenerateTimePointSequence: the infinite sequence start, start + p,
 * start + 2p, ... built by stepping repeatedly with AddPeriod in one zone.
 * The model gives its k-th element as a function and a method that produces
 * the first n elements with the source's loop.
 */
module TimePointSequence {
  import opened Wrappers
  import opened Instants
  import opened PeriodUnits
  import opened Periods

  /** The zone the generator steps in: the given one, or the host's default for null. */
  function ResolveZone(zone: Option<ZoneId>, cal: Calendar): ZoneId {
    if zone.None? then cal.defaultZone else zone.value
  }

  /** Element k of the sequence: start, then AddPeriod applied k times. */
  function TimePointAt(p: Period, start: Instant, k: nat, zone: ZoneId, cal: Calendar): Instant {
    if k == 0 then start else AddPeriod(p, TimePointAt(p, start, k - 1, zone, cal), Some(zone), cal)
  }

  /**
   * The first count elements of GenerateTimePointSequence(start, zone): the
   * loop yields the current point and steps it by the period only when a
   * further element is asked for, so count points take count - 1 steps.
   */
  method GenerateTimePointSequence(p: Period, start: Instant, zone: Option<ZoneId>, count: nat, cal: Calendar)
    returns (points: seq<Instant>)
    ensures |points| == count
    ensures count > 0 ==> points[0] == start
    ensures forall k :: 0 < k < count ==> points[k] == AddPeriod(p, points[k - 1], Some(ResolveZone(zone, cal)), cal)
    ensures forall k :: 0 <= k < count ==> points[k] == TimePointAt(p, start, k, ResolveZone(zone, cal), cal)
  {
    var timeZone := ResolveZone(zone, cal);
    var current := start;
    points := [];
    while |points| < count
      invariant |points| <= count
      invariant |points| < count ==> current == TimePointAt(p, start, |points|, timeZone, cal)
      invariant forall k :: 0 <= k < |points| ==> points[k] == TimePointAt(p, start, k, timeZone, cal)
    {
      points := points + [current];
      if |points| < count {
        current := AddPeriod(p, current, Some(timeZone), cal);
      }
    }
  }

  /** For a unit of exact length, element k lies k period lengths after the start. */
  lemma {:induction false} TimePointAtExact(p: Period, start: Instant, k: nat, zone: ZoneId, cal: Calendar)
    requires HasFixedLength(p.unit) && StepsExactly(cal, p.unit)
    ensures TimePointAt(p, start, k, zone, cal).utcMs == start.utcMs + k * (p.value * UnitMs(p.unit))
  {
    if k > 0 {
      TimePointAtExact(p, start, k - 1, zone, cal);
      assert (k - 1) * (p.value * UnitMs(p.unit)) + p.value * UnitMs(p.unit) == k * (p.value * UnitMs(p.unit));
    }
  }

  /** When every unit steps forward, the sequence is strictly increasing in UTC. */
  lemma {:induction false} TimePointsIncrease(p: Period, start: Instant, j: nat, k: nat, zone: ZoneId, cal: Calendar)
    requires p.Valid() && Advances(cal) && j < k
    ensures TimePointAt(p, start, j, zone, cal).utcMs < TimePointAt(p, start, k, zone, cal).utcMs
  {
    if j < k - 1 {
      TimePointsIncrease(p, start, j, k - 1, zone, cal);
    }
  }
}
