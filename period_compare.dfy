/**
 * The six comparison operators of Period. All go through one null-aware
 * helper; for two non-null periods they compare the UTC instants that one
 * application of each period reaches from DateTimeOffset.MinValue, so == is a
 * comparison of lengths and not the structural Equals.
 */
module PeriodComparison {
  import opened Wrappers
  import opened Instants
  import opened PeriodUnits
  import opened Periods

  /** The instant a period reaches from MinValue with a null zone (resolved inside PeriodUnit.AddPeriod, which is not part of this model). */
  function Reach(p: Period, cal: Calendar): Instant {
    AddPeriod(p, MinValue, None, cal)
  }

  /** The length of a period of fixed-length unit, in milliseconds. */
  function Duration(p: Period): int
    requires HasFixedLength(p.unit)
  {
    p.value * UnitMs(p.unit)
  }

  /**
   * Compare(left, right, bothNull, oneNull, noneNull): bothNull when both are
   * null, oneNull when exactly one is, otherwise noneNull applied to the two
   * reached instants.
   */
  function Compare(left: Option<Period>, right: Option<Period>, bothNull: bool, oneNull: bool,
                   noneNull: (Instant, Instant) -> bool, cal: Calendar): (b: bool)
    ensures left.None? && right.None? ==> b == bothNull
    ensures left.None? != right.None? ==> b == oneNull
    ensures left.Some? && right.Some? ==> b == noneNull(Reach(left.value, cal), Reach(right.value, cal))
  {
    if left.None? && right.None? then bothNull
    else if left.None? || right.None? then oneNull
    else noneNull(Reach(left.value, cal), Reach(right.value, cal))
  }

  function OpEquality(left: Option<Period>, right: Option<Period>, cal: Calendar): (b: bool)
    ensures left.Some? && right.Some? ==> (b <==> Reach(left.value, cal).utcMs == Reach(right.value, cal).utcMs)
  {
    Compare(left, right, true, false, (l: Instant, r: Instant) => l.utcMs == r.utcMs, cal)
  }

  function OpInequality(left: Option<Period>, right: Option<Period>, cal: Calendar): (b: bool)
    ensures left.Some? && right.Some? ==> (b <==> Reach(left.value, cal).utcMs != Reach(right.value, cal).utcMs)
  {
    Compare(left, right, false, true, (l: Instant, r: Instant) => !(l.utcMs == r.utcMs), cal)
  }

  function OpGreaterThan(left: Option<Period>, right: Option<Period>, cal: Calendar): (b: bool)
    ensures left.Some? && right.Some? ==> (b <==> Reach(left.value, cal).utcMs > Reach(right.value, cal).utcMs)
  {
    Compare(left, right, false, false, (l: Instant, r: Instant) => l.utcMs > r.utcMs, cal)
  }

  function OpLessThan(left: Option<Period>, right: Option<Period>, cal: Calendar): (b: bool)
    ensures left.Some? && right.Some? ==> (b <==> Reach(left.value, cal).utcMs < Reach(right.value, cal).utcMs)
  {
    Compare(left, right, false, false, (l: Instant, r: Instant) => l.utcMs < r.utcMs, cal)
  }

  function OpGreaterThanOrEqual(left: Option<Period>, right: Option<Period>, cal: Calendar): (b: bool)
    ensures left.Some? && right.Some? ==> (b <==> Reach(left.value, cal).utcMs >= Reach(right.value, cal).utcMs)
  {
    Compare(left, right, true, false, (l: Instant, r: Instant) => l.utcMs >= r.utcMs, cal)
  }

  function OpLessThanOrEqual(left: Option<Period>, right: Option<Period>, cal: Calendar): (b: bool)
    ensures left.Some? && right.Some? ==> (b <==> Reach(left.value, cal).utcMs <= Reach(right.value, cal).utcMs)
  {
    Compare(left, right, true, false, (l: Instant, r: Instant) => l.utcMs <= r.utcMs, cal)
  }

  /** Two nulls are equal (==, <=, >= hold); a null and a period differ (only != holds). */
  lemma NullOperands(p: Period, cal: Calendar)
    ensures OpEquality(None, None, cal) && OpLessThanOrEqual(None, None, cal) && OpGreaterThanOrEqual(None, None, cal)
    ensures !OpInequality(None, None, cal) && !OpLessThan(None, None, cal) && !OpGreaterThan(None, None, cal)
    ensures OpInequality(None, Some(p), cal) && OpInequality(Some(p), None, cal)
    ensures !OpEquality(None, Some(p), cal) && !OpEquality(Some(p), None, cal)
    ensures !OpLessThan(None, Some(p), cal) && !OpLessThan(Some(p), None, cal)
    ensures !OpGreaterThan(None, Some(p), cal) && !OpGreaterThan(Some(p), None, cal)
    ensures !OpLessThanOrEqual(None, Some(p), cal) && !OpLessThanOrEqual(Some(p), None, cal)
    ensures !OpGreaterThanOrEqual(None, Some(p), cal) && !OpGreaterThanOrEqual(Some(p), None, cal)
  {
  }

  /**
   * For all operands, null or not: != is the complement of ==, <= is < or ==,
   * and >= and > are <= and < with the operands swapped.
   */
  lemma OperatorsAgree(a: Option<Period>, b: Option<Period>, cal: Calendar)
    ensures OpInequality(a, b, cal) == !OpEquality(a, b, cal)
    ensures OpLessThanOrEqual(a, b, cal) == (OpLessThan(a, b, cal) || OpEquality(a, b, cal))
    ensures OpGreaterThanOrEqual(a, b, cal) == OpLessThanOrEqual(b, a, cal)
    ensures OpGreaterThan(a, b, cal) == OpLessThan(b, a, cal)
  {
  }

  /**
   * On non-null periods < is a strict order and == an equivalence, and any two
   * periods are related by exactly one of <, == and >.
   */
  lemma OrderOnPeriods(p: Period, q: Period, r: Period, cal: Calendar)
    ensures OpEquality(Some(p), Some(p), cal) && !OpLessThan(Some(p), Some(p), cal)
    ensures OpEquality(Some(p), Some(q), cal) == OpEquality(Some(q), Some(p), cal)
    ensures OpLessThan(Some(p), Some(q), cal) && OpLessThan(Some(q), Some(r), cal) ==> OpLessThan(Some(p), Some(r), cal)
    ensures OpEquality(Some(p), Some(q), cal) && OpEquality(Some(q), Some(r), cal) ==> OpEquality(Some(p), Some(r), cal)
    ensures OpLessThan(Some(p), Some(q), cal) || OpEquality(Some(p), Some(q), cal) || OpGreaterThan(Some(p), Some(q), cal)
    ensures !(OpLessThan(Some(p), Some(q), cal) && OpEquality(Some(p), Some(q), cal))
    ensures !(OpLessThan(Some(p), Some(q), cal) && OpGreaterThan(Some(p), Some(q), cal))
    ensures !(OpEquality(Some(p), Some(q), cal) && OpGreaterThan(Some(p), Some(q), cal))
  {
  }

  /** Structurally equal periods are ==, in every calendar. */
  lemma EqualsImpliesEquality(p: Period, q: Period, cal: Calendar)
    requires Equals(p, PeriodObject(q))
    ensures OpEquality(Some(p), Some(q), cal)
  {
  }

  /**
   * For units of exact length, the operators order periods by their length in
   * milliseconds, whatever their units.
   */
  lemma FixedLengthOrder(p: Period, q: Period, cal: Calendar)
    requires HasFixedLength(p.unit) && StepsExactly(cal, p.unit)
    requires HasFixedLength(q.unit) && StepsExactly(cal, q.unit)
    ensures OpEquality(Some(p), Some(q), cal) <==> Duration(p) == Duration(q)
    ensures OpLessThan(Some(p), Some(q), cal) <==> Duration(p) < Duration(q)
  {
    assert Reach(p, cal).utcMs == Duration(p);
    assert Reach(q, cal).utcMs == Duration(q);
  }

  /**
   * == and Equals disagree: 60 seconds == 1 minute when seconds and minutes
   * step exactly, although the two periods are not Equal.
   */
  lemma EqualityIsNotEquals(cal: Calendar)
    requires StepsExactly(cal, Second) && StepsExactly(cal, Minute)
    ensures OpEquality(Some(Period(60, Second)), Some(Period(1, Minute)), cal)
    ensures !Equals(Period(60, Second), PeriodObject(Period(1, Minute)))
  {
    FixedLengthOrder(Period(60, Second), Period(1, Minute), cal);
  }
}
