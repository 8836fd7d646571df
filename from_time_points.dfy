/**
 * Period.FromTimePoints: the period between two instants. Whole years and
 * whole months are read from the calendar fields; otherwise the UTC span is
 * measured in the coarsest fixed unit that divides it.
 */
module PeriodDerivation {
  import opened Wrappers
  import opened Instants
  import opened PeriodUnits
  import opened Periods

  /**
   * The fixed-unit fallback as written: sub-second spans in milliseconds;
   * spans under a minute or not whole minutes in truncated seconds; then
   * minutes, hours and days, each used once the span is not a whole number of
   * the next larger unit.
   */
  function FixedUnitPeriod(span: int): (r: Period)
    requires span > 0
    ensures r.Valid() && HasFixedLength(r.unit)
  {
    if span < MsPerSecond then Period(span, Millisecond)
    else if span < MsPerMinute || span % MsPerMinute != 0 then Period(span / MsPerSecond, Second)
    else if span < MsPerHour || span % MsPerHour != 0 then Period(span / MsPerMinute, Minute)
    else if span < MsPerDay || span % MsPerDay != 0 then Period(span / MsPerHour, PeriodUnit.Hour)
    else Period(span / MsPerDay, PeriodUnit.Day)
  }

  /** A multiple of a * k is a multiple of a. */
  lemma MultipleOfProduct(span: int, a: int, k: int)
    requires a > 0 && k > 0 && span % (a * k) == 0
    ensures span % a == 0
  {
    var q := span / (a * k);
    assert span == q * (a * k);
    assert span == (q * k) * a;
  }

  /** The fixed units, each a whole multiple of the one below. */
  lemma UnitChain(span: int)
    ensures span % MsPerDay == 0 ==> span % MsPerHour == 0
    ensures span % MsPerHour == 0 ==> span % MsPerMinute == 0
    ensures span % MsPerMinute == 0 ==> span % MsPerSecond == 0
  {
    if span % MsPerDay == 0 { MultipleOfProduct(span, MsPerHour, 24); }
    if span % MsPerHour == 0 { MultipleOfProduct(span, MsPerMinute, 60); }
    if span % MsPerMinute == 0 { MultipleOfProduct(span, MsPerSecond, 60); }
  }

  /**
   * The fallback truncates its count to the unit it picks, is exact for every
   * unit except seconds, picks milliseconds exactly for sub-second spans, and
   * picks the coarsest unit: no larger fixed unit divides the span.
   */
  lemma {:induction false} FixedUnitPeriodSpan(span: int)
    requires span > 0
    ensures var r := FixedUnitPeriod(span);
            && r.value * UnitMs(r.unit) <= span < (r.value + 1) * UnitMs(r.unit)
            && (r.unit != Second ==> r.value * UnitMs(r.unit) == span)
            && (r.unit == Millisecond <==> span < MsPerSecond)
            && forall u :: HasFixedLength(u) && UnitMs(u) > UnitMs(r.unit) ==> span % UnitMs(u) != 0
  {
    UnitChain(span);
    var r := FixedUnitPeriod(span);
    var len := UnitMs(r.unit);
    assert span == (span / len) * len + span % len;
    assert r.value == span / len;
  }

  /** Both instants fall on 1 January and the earlier one in an earlier year. */
  predicate WholeYears(first: Instant, second: Instant) {
    first.month == 1 && second.month == 1 && first.day == 1 && second.day == 1 && first.year < second.year
  }

  /** Both instants fall on the first of a month of one year, the earlier in an earlier month. */
  predicate WholeMonths(first: Instant, second: Instant) {
    first.year == second.year && first.day == 1 && second.day == 1 && first.month < second.month
  }

  /** The instants of a distinct pair, earlier first. */
  function Ordered(a: Instant, b: Instant): (r: (Instant, Instant))
    requires a.utcMs != b.utcMs
    ensures {r.0, r.1} == {a, b} && r.0.utcMs < r.1.utcMs
  {
    if a.utcMs > b.utcMs then (b, a) else (a, b)
  }

  /** Period.FromTimePoints(a, b) as written. */
  function FromTimePoints(a: Instant, b: Instant): (r: Result<Period, Exception>)
    ensures r.Err? <==> a.utcMs == b.utcMs
    ensures r.Err? ==> r.error == ArgumentException
    ensures r.Ok? ==> r.value.Valid()
  {
    if a.utcMs == b.utcMs then Err(ArgumentException)
    else
      var (first, second) := Ordered(a, b);
      if WholeYears(first, second) then New(second.year - first.year, PeriodUnit.Year)
      else if WholeMonths(first, second) then New(second.month - first.month, PeriodUnit.Month)
      else Ok(FixedUnitPeriod(second.utcMs - first.utcMs))
  }

  /** The result does not depend on the order of the two instants. */
  lemma FromTimePointsSymmetric(a: Instant, b: Instant)
    ensures FromTimePoints(a, b) == FromTimePoints(b, a)
  {
  }

  /**
   * The three outcomes of two distinct instants, earlier one first; the time
   * of day plays no part in the calendar branches.
   */
  lemma FromTimePointsCases(first: Instant, second: Instant)
    requires first.utcMs < second.utcMs
    ensures WholeYears(first, second) ==> FromTimePoints(first, second) == Ok(Period(second.year - first.year, PeriodUnit.Year))
    ensures !WholeYears(first, second) && WholeMonths(first, second) ==>
              FromTimePoints(first, second) == Ok(Period(second.month - first.month, PeriodUnit.Month))
    ensures !WholeYears(first, second) && !WholeMonths(first, second) ==>
              FromTimePoints(first, second) == Ok(FixedUnitPeriod(second.utcMs - first.utcMs))
  {
  }

  /**
   * Outside the seconds branch, a fixed-unit result spans the two instants
   * exactly: stepping the earlier instant by it reaches the later one.
   */
  lemma FromTimePointsReaches(first: Instant, second: Instant, zone: Option<ZoneId>, cal: Calendar)
    requires first.utcMs < second.utcMs
    requires !WholeYears(first, second) && !WholeMonths(first, second)
    requires FromTimePoints(first, second).value.unit != Second
    requires StepsExactly(cal, FromTimePoints(first, second).value.unit)
    ensures AddPeriod(FromTimePoints(first, second).value, first, zone, cal).utcMs == second.utcMs
  {
  }

  /**
   * The seconds branch truncates: 1.5 seconds gives one second, and stepping
   * by that period falls half a second short.
   */
  lemma SecondsBranchTruncates(zone: Option<ZoneId>, cal: Calendar)
    requires StepsExactly(cal, Second)
    ensures var first, second := Instant(2021, 1, 1, 0), Instant(2021, 1, 1, 1500);
            && FromTimePoints(first, second) == Ok(Period(1, Second))
            && AddPeriod(FromTimePoints(first, second).value, first, zone, cal).utcMs == 1000 != second.utcMs
  {
  }

  /**
   * The fallback as evidently intended: a span that is not whole seconds is
   * measured in milliseconds, so every result is exact.
   */
  function ExactFixedUnitPeriod(span: int): (r: Period)
    requires span > 0
    ensures r.Valid() && HasFixedLength(r.unit)
  {
    if span % MsPerSecond != 0 then Period(span, Millisecond)
    else FixedUnitPeriod(span)
  }

  /** The intended fallback is exact for every unit and still picks the coarsest one. */
  lemma {:induction false} ExactFixedUnitPeriodSpan(span: int)
    requires span > 0
    ensures var r := ExactFixedUnitPeriod(span);
            && r.value * UnitMs(r.unit) == span
            && forall u :: HasFixedLength(u) && UnitMs(u) > UnitMs(r.unit) ==> span % UnitMs(u) != 0
  {
    UnitChain(span);
    FixedUnitPeriodSpan(span);
    var r := ExactFixedUnitPeriod(span);
    if span % MsPerSecond == 0 && r.unit == Second {
      assert span == (span / MsPerSecond) * MsPerSecond;
    }
  }

  /** Period.FromTimePoints with the exact fallback. */
  function FromTimePointsExact(a: Instant, b: Instant): (r: Result<Period, Exception>)
    ensures r.Err? <==> a.utcMs == b.utcMs
    ensures r.Err? ==> r.error == ArgumentException
    ensures r.Ok? ==> r.value.Valid()
  {
    if a.utcMs == b.utcMs then Err(ArgumentException)
    else
      var (first, second) := Ordered(a, b);
      if WholeYears(first, second) then New(second.year - first.year, PeriodUnit.Year)
      else if WholeMonths(first, second) then New(second.month - first.month, PeriodUnit.Month)
      else Ok(ExactFixedUnitPeriod(second.utcMs - first.utcMs))
  }

  /** With the exact fallback every fixed-unit result steps from the earlier instant to the later one. */
  lemma FromTimePointsExactReaches(first: Instant, second: Instant, zone: Option<ZoneId>, cal: Calendar)
    requires first.utcMs < second.utcMs
    requires !WholeYears(first, second) && !WholeMonths(first, second)
    requires StepsExactly(cal, FromTimePointsExact(first, second).value.unit)
    ensures AddPeriod(FromTimePointsExact(first, second).value, first, zone, cal).utcMs == second.utcMs
  {
  }
}
