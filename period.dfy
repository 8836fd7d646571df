/**
 * Period: an immutable pair of a positive multiplier and a calendar unit
 * (Thinksharp.TimeFlow/Period.cs), with its predefined constants, structural
 * Equals and the stepping of instants by a period.
 */
module Periods {
  import opened Wrappers
  import opened Instants
  import opened PeriodUnits

  /** The exceptions the source throws. */
  datatype Exception = ArgumentException | ArgumentNullException | FormatException | OverflowException

  datatype Period = Period(value: int, unit: PeriodUnit) {
    /** The constructor's invariant. */
    predicate Valid() {
      value > 0
    }
  }

  /** What Equals may be handed: null, a Period, or an object of some other type. */
  datatype Object = Null | PeriodObject(period: Period) | OtherObject

  /** new Period(value, unit): throws ArgumentException unless the value is positive. */
  function New(value: int, unit: PeriodUnit): (r: Result<Period, Exception>)
    ensures r.Ok? <==> value > 0
    ensures r.Ok? ==> r.value.Valid() && r.value.value == value && r.value.unit == unit
    ensures r.Err? ==> r.error == ArgumentException
  {
    if value <= 0 then Err(ArgumentException) else Ok(Period(value, unit))
  }

  const Milliseconds: Period := New(1, Millisecond).value
  const Seconds: Period := New(1, Second).value
  const Minutes: Period := New(1, Minute).value
  const QuarterHour: Period := New(15, Minute).value
  const Hour: Period := New(1, PeriodUnit.Hour).value
  const Day: Period := New(1, PeriodUnit.Day).value
  const Month: Period := New(1, PeriodUnit.Month).value
  const QuarterYear: Period := New(3, PeriodUnit.Month).value
  const Year: Period := New(1, PeriodUnit.Year).value

  /** The predefined periods hold the stated pairs and satisfy the constructor's invariant. */
  lemma PredefinedPeriods()
    ensures Milliseconds == Period(1, Millisecond) && Seconds == Period(1, Second)
    ensures Minutes == Period(1, Minute) && QuarterHour == Period(15, Minute)
    ensures Hour == Period(1, PeriodUnit.Hour) && Day == Period(1, PeriodUnit.Day)
    ensures Month == Period(1, PeriodUnit.Month) && QuarterYear == Period(3, PeriodUnit.Month)
    ensures Year == Period(1, PeriodUnit.Year)
    ensures forall p :: p in {Milliseconds, Seconds, Minutes, QuarterHour, Hour, Day, Month, QuarterYear, Year} ==> p.Valid()
  {
  }

  /**
   * Equals(obj): true exactly for a Period with the same unit and value; false
   * for null and for objects of other types.
   */
  function Equals(p: Period, obj: Object): (b: bool)
    ensures b <==> obj == PeriodObject(p)
  {
    match obj
    case PeriodObject(other) => p.unit == other.unit && p.value == other.value
    case _ => false
  }

  /** Equals is an equivalence on periods and never holds for null or foreign objects. */
  lemma EqualsIsEquivalence(p: Period, q: Period, r: Period)
    ensures Equals(p, PeriodObject(p))
    ensures Equals(p, PeriodObject(q)) == Equals(q, PeriodObject(p))
    ensures Equals(p, PeriodObject(q)) && Equals(q, PeriodObject(r)) ==> Equals(p, PeriodObject(r))
    ensures !Equals(p, Null) && !Equals(p, OtherObject)
  {
  }

  /** AddPeriod(dt, timeZone): the unit's calendar step by the period's value. */
  function AddPeriod(p: Period, dt: Instant, zone: Option<ZoneId>, cal: Calendar): (r: Instant)
    ensures HasFixedLength(p.unit) && StepsExactly(cal, p.unit) ==> r.utcMs == dt.utcMs + p.value * UnitMs(p.unit)
    ensures p.Valid() && Advances(cal) ==> r.utcMs > dt.utcMs
  {
    cal.add(p.unit, dt, p.value, zone)
  }

  /** SubtractPeriod(dt, timeZone): the unit's calendar step by the negated value. */
  function SubtractPeriod(p: Period, dt: Instant, zone: Option<ZoneId>, cal: Calendar): (r: Instant)
    ensures HasFixedLength(p.unit) && StepsExactly(cal, p.unit) ==> r.utcMs == dt.utcMs - p.value * UnitMs(p.unit)
  {
    cal.add(p.unit, dt, -p.value, zone)
  }

  /** For a unit of exact length, subtracting a period undoes adding it and vice versa. */
  lemma SubtractUndoesAdd(p: Period, dt: Instant, zone: Option<ZoneId>, cal: Calendar)
    requires HasFixedLength(p.unit) && StepsExactly(cal, p.unit)
    ensures SubtractPeriod(p, AddPeriod(p, dt, zone, cal), zone, cal).utcMs == dt.utcMs
    ensures AddPeriod(p, SubtractPeriod(p, dt, zone, cal), zone, cal).utcMs == dt.utcMs
  {
  }

  /** dt + period, with a null zone (resolved inside PeriodUnit.AddPeriod, which is not part of this model). */
  function PlusRight(dt: Instant, p: Period, cal: Calendar): (r: Instant)
    ensures HasFixedLength(p.unit) && StepsExactly(cal, p.unit) ==> r.utcMs == dt.utcMs + p.value * UnitMs(p.unit)
  {
    AddPeriod(p, dt, None, cal)
  }

  /** period + dt, with a null zone (resolved inside PeriodUnit.AddPeriod, which is not part of this model). */
  function PlusLeft(p: Period, dt: Instant, cal: Calendar): (r: Instant)
    ensures HasFixedLength(p.unit) && StepsExactly(cal, p.unit) ==> r.utcMs == dt.utcMs + p.value * UnitMs(p.unit)
  {
    AddPeriod(p, dt, None, cal)
  }

  /** dt - period, with a null zone (resolved inside PeriodUnit.AddPeriod, which is not part of this model). */
  function Minus(dt: Instant, p: Period, cal: Calendar): (r: Instant)
    ensures HasFixedLength(p.unit) && StepsExactly(cal, p.unit) ==> r.utcMs == dt.utcMs - p.value * UnitMs(p.unit)
  {
    SubtractPeriod(p, dt, None, cal)
  }

  /** Both spellings of + are the same step, and - undoes it for units of exact length. */
  lemma PlusMinusOperators(p: Period, dt: Instant, cal: Calendar)
    ensures PlusRight(dt, p, cal) == PlusLeft(p, dt, cal) == AddPeriod(p, dt, None, cal)
    ensures Minus(dt, p, cal) == SubtractPeriod(p, dt, None, cal)
    ensures HasFixedLength(p.unit) && StepsExactly(cal, p.unit) ==> Minus(PlusRight(dt, p, cal), p, cal).utcMs == dt.utcMs
  {
  }
}
