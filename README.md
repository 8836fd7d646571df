# Period of Thinksharp.TimeFlow, in Dafny

This project models `Period` from Thinksharp.TimeFlow: an immutable pair of a
positive multiplier and a calendar unit (millisecond, second, minute, hour,
day, month, year) that time series use as their frequency. The model covers
the following parts of `Period`:

- the constructor and its invariant, and the predefined periods;
- the derivation of a period from two instants (`FromTimePoints`);
- stepping an instant forwards and backwards, and the `+`/`-` operators;
- the bounded prefix of the time-point generator;
- the compact text grammar of `TryParse`/`Parse`;
- structural `Equals`, and the six null-aware comparison operators.

Modules, one per concern:

- `Wrappers`: `Option` (null references) and `Result` (calls that may throw).
- `Instants`: the part of `DateTimeOffset` that `Period` uses. An instant has
  local calendar fields (year, month, day) and a UTC instant in milliseconds.
  Equality and ordering use the UTC instant only, as `DateTimeOffset` does.
- `PeriodUnits`: the seven units and the unit codes of the grammar.
  The unit's calendar arithmetic and the default time zone come in as a
  `Calendar` capability. Properties that need arithmetic take a hypothesis
  about the calendar:
  - `StepsExactly(cal, u)`: a step of `n` units of `u` adds exactly `n` unit
    lengths to the UTC instant;
  - `Advances(cal)`: a positive step moves the instant forward.
- `Periods`: the constructor (`New`), the constants, `Equals`, `AddPeriod`,
  `SubtractPeriod` and the `+`/`-` operators.
- `PeriodComparison`: `Compare` and the six comparison operators.
- `PeriodDerivation`: `FromTimePoints`, and a corrected version (see Findings).
- `PeriodParsing`: a scanner for the regular expression, the grammar written
  as a decomposition of the text, then `TryParse` and `Parse`.
- `TimePointSequence`: `GenerateTimePointSequence`, as a method that produces
  the first `count` time points with the source's loop, and its k-th element
  as a function.

Points where the code's behaviour is easy to misread:

- Equality is not structural for the operators. `Equals` compares unit and
  value, but the `==` operator compares the instants that each period reaches
  from `DateTimeOffset.MinValue`. So, when seconds and minutes step exactly,
  `60 s == 1 min` holds while `Equals` is false
  (`PeriodComparison.EqualityIsNotEquals`).
- The doc comment of `FromTimePoints` (Period.cs:33-38) promises the period
  that describes the difference between the two time points. The code
  truncates in the seconds branch. See Findings.
- `ToString` prints the value and `PeriodUnit`'s own `ToString`. That code is not part of this model, so no `ToString`/`Parse` round trip is stated.
  `ParseReachesEveryPeriod` instead shows that every valid period is
  `Parse`'s result for some text.

## Model

| member | source | states |
|---|---|---|
| `Periods.New` | Thinksharp.TimeFlow/Period.cs:10-19 | succeeds exactly for a positive value and then stores value and unit unchanged; otherwise ArgumentException |
| `Periods.PredefinedPeriods` | Thinksharp.TimeFlow/Period.cs:23-31 | the nine constants are built through the constructor, hold the listed pairs (QuarterHour = 15 min, QuarterYear = 3 months) and are valid |
| `Periods.Equals` | Thinksharp.TimeFlow/Period.cs:183-195 | true exactly when the object is a Period with the same unit and value; false for null and objects of other types |
| `Periods.EqualsIsEquivalence` | Thinksharp.TimeFlow/Period.cs:183-195 | Equals is reflexive, symmetric and transitive, and false for null and foreign objects |
| `Periods.AddPeriod` | Thinksharp.TimeFlow/Period.cs:88-89 | steps by the unit with the value; for an exact-length unit the UTC instant moves by value × unit length, and a valid period moves forward on an advancing calendar |
| `Periods.SubtractPeriod` | Thinksharp.TimeFlow/Period.cs:90-91 | steps by the unit with the negated value; for an exact-length unit the UTC instant moves back by value × unit length |
| `Periods.SubtractUndoesAdd` | Thinksharp.TimeFlow/Period.cs:88-91 | for exact-length units, subtracting undoes adding and adding undoes subtracting |
| `Periods.PlusRight` | Thinksharp.TimeFlow/Period.cs:127 | dt + period moves the UTC instant by the period's length for exact-length units |
| `Periods.PlusLeft` | Thinksharp.TimeFlow/Period.cs:128 | period + dt moves the UTC instant by the period's length for exact-length units |
| `Periods.Minus` | Thinksharp.TimeFlow/Period.cs:129 | dt - period moves the UTC instant back by the period's length for exact-length units |
| `Periods.PlusMinusOperators` | Thinksharp.TimeFlow/Period.cs:127-129 | both + spellings are AddPeriod with a null zone (resolved inside PeriodUnit.AddPeriod, which is not part of this model), - is SubtractPeriod with a null zone, and - undoes + for exact-length units |
| `PeriodComparison.Compare` | Thinksharp.TimeFlow/Period.cs:208-226 | bothNull for two nulls, oneNull for one null, otherwise the comparison applied to the instants both periods reach from MinValue |
| `PeriodComparison.OpEquality` | Thinksharp.TimeFlow/Period.cs:131 | for two periods, true exactly when they reach the same UTC instant from MinValue |
| `PeriodComparison.OpInequality` | Thinksharp.TimeFlow/Period.cs:132 | for two periods, true exactly when they reach different UTC instants |
| `PeriodComparison.OpGreaterThan` | Thinksharp.TimeFlow/Period.cs:133 | for two periods, true exactly when the left one reaches a later instant |
| `PeriodComparison.OpLessThan` | Thinksharp.TimeFlow/Period.cs:134 | for two periods, true exactly when the left one reaches an earlier instant |
| `PeriodComparison.OpGreaterThanOrEqual` | Thinksharp.TimeFlow/Period.cs:135 | for two periods, true exactly when the left one reaches a later or the same instant |
| `PeriodComparison.OpLessThanOrEqual` | Thinksharp.TimeFlow/Period.cs:136 | for two periods, true exactly when the left one reaches an earlier or the same instant |
| `PeriodComparison.NullOperands` | Thinksharp.TimeFlow/Period.cs:208-220 | two nulls: ==, <=, >= true and !=, <, > false; one null: only != true |
| `PeriodComparison.OperatorsAgree` | Thinksharp.TimeFlow/Period.cs:131-136 | for all operands, null or not: != is the complement of ==, <= is < or ==, >= and > are <= and < swapped |
| `PeriodComparison.OrderOnPeriods` | Thinksharp.TimeFlow/Period.cs:222-225 | on non-null periods < is irreflexive and transitive, == is an equivalence, and exactly one of <, ==, > holds |
| `PeriodComparison.EqualsImpliesEquality` | Thinksharp.TimeFlow/Period.cs:222-225 | structurally equal periods are == in every calendar |
| `PeriodComparison.FixedLengthOrder` | Thinksharp.TimeFlow/Period.cs:222-225 | with exact-length units, == and < compare the periods' lengths in milliseconds across units |
| `PeriodComparison.EqualityIsNotEquals` | Thinksharp.TimeFlow/Period.cs:131-136 | 60 seconds == 1 minute while Equals is false: == is not structural |
| `PeriodDerivation.FromTimePoints` | Thinksharp.TimeFlow/Period.cs:39-87 | fails with ArgumentException exactly for the same UTC instant; otherwise returns a valid period |
| `PeriodDerivation.FromTimePointsSymmetric` | Thinksharp.TimeFlow/Period.cs:41-51 | the result is the same whichever order the two instants come in |
| `PeriodDerivation.FromTimePointsCases` | Thinksharp.TimeFlow/Period.cs:53-67 | both on 1 January in different years gives the year difference; else both on day 1 of one year gives the month difference; else the fixed-unit fallback on the span; time of day is not checked |
| `PeriodDerivation.FixedUnitPeriod` | Thinksharp.TimeFlow/Period.cs:67-86 | the fallback cascade of the code as written (the seconds branch truncates, see Findings) always yields a valid period of a fixed-length unit; its measure of the span is `FixedUnitPeriodSpan` |
| `PeriodDerivation.FixedUnitPeriodSpan` | Thinksharp.TimeFlow/Period.cs:67-86 | value × unit length ≤ span < (value + 1) × unit length; exact for every unit but seconds; milliseconds exactly below one second; no coarser fixed unit divides the span |
| `PeriodDerivation.FromTimePointsReaches` | Thinksharp.TimeFlow/Period.cs:67-86 | outside the seconds branch, stepping the earlier instant by the result reaches the later one |
| `PeriodDerivation.SecondsBranchTruncates` | Thinksharp.TimeFlow/Period.cs:73-76 | instants 1500 ms apart give 1 second, which steps only 1000 ms |
| `PeriodDerivation.ExactFixedUnitPeriodSpan` | Thinksharp.TimeFlow/Period.cs:67-86 | the corrected fallback is exact for every unit and still picks the coarsest fixed unit |
| `PeriodDerivation.FromTimePointsExact` | Thinksharp.TimeFlow/Period.cs:39-87 | the corrected derivation fails exactly for the same instant and otherwise returns a valid period |
| `PeriodDerivation.FromTimePointsExactReaches` | Thinksharp.TimeFlow/Period.cs:67-86 | with the corrected fallback, every fixed-unit result steps from the earlier instant to the later one |
| `PeriodUnits.ParseCode` | Thinksharp.TimeFlow/Period.cs:177-179 | a unit text names the unit whose code it is, ignoring letter case, and names none otherwise |
| `PeriodUnits.ParseCodeOfCode` | Thinksharp.TimeFlow/Period.cs:143 | each of the seven codes names its own unit |
| `PeriodParsing.Skip` | Thinksharp.TimeFlow/Period.cs:143 | returns the end of the longest run of one character class: everything before it is in the class, the character at it is not |
| `PeriodParsing.Scan` | Thinksharp.TimeFlow/Period.cs:143 | the regular expression's match: when it accepts, the first group holds only decimal digits and the second is one of the seven unit codes; which texts it accepts is `ScanAcceptsGrammar` |
| `PeriodParsing.ScanComplete` | Thinksharp.TimeFlow/Period.cs:143 | every text of spaces, digits, spaces, a unit code in any case and spaces is accepted, with exactly those digits and that unit as the groups |
| `PeriodParsing.ScanSound` | Thinksharp.TimeFlow/Period.cs:143 | every accepted text splits into spaces, the reported digits, spaces, the reported unit and spaces |
| `PeriodParsing.ScanAcceptsGrammar` | Thinksharp.TimeFlow/Period.cs:143 | the scanner accepts a text exactly when the text is in the grammar |
| `PeriodParsing.TryParse` | Thinksharp.TimeFlow/Period.cs:160-181 | true exactly with a non-null period, which is valid and within int range; false leaves the period null; only OverflowException or ArgumentException escape |
| `PeriodParsing.TryParseRejects` | Thinksharp.TimeFlow/Period.cs:160-173 | TryParse returns false with a null period exactly for null and for texts outside the grammar |
| `PeriodParsing.TryParseAccepts` | Thinksharp.TimeFlow/Period.cs:175-180 | on a text of the grammar: the written value (1 when omitted) with the named unit; OverflowException above int.MaxValue; ArgumentException for 0 |
| `PeriodParsing.Parse` | Thinksharp.TimeFlow/Period.cs:145-158 | null gives ArgumentNullException, a false TryParse gives FormatException, otherwise TryParse's period or its exception |
| `PeriodParsing.DecimalTextValue` | Thinksharp.TimeFlow/Period.cs:176 | the digit value of a number's decimal text is that number |
| `PeriodParsing.ParseReachesEveryPeriod` | Thinksharp.TimeFlow/Period.cs:143-181 | every valid period with value ≤ int.MaxValue is what Parse returns for its value followed by its unit code |
| `PeriodParsing.ParseQuarterHour` | Thinksharp.TimeFlow/Period.cs:143-181 | "15min" parses to QuarterHour |
| `PeriodParsing.ParseQuarterYear` | Thinksharp.TimeFlow/Period.cs:143-181 | " 3 MTH " parses to QuarterYear: spacing and letter case are free |
| `PeriodParsing.ParseYear` | Thinksharp.TimeFlow/Period.cs:175-176 | "yr" parses to Year: omitted digits stand for 1 |
| `PeriodParsing.ParseZero` | Thinksharp.TimeFlow/Period.cs:12-15 | "0d" matches the grammar and fails with the constructor's ArgumentException |
| `PeriodParsing.ParseForeignUnit` | Thinksharp.TimeFlow/Period.cs:145-158 | "2 weeks" gives FormatException and null gives ArgumentNullException |
| `TimePointSequence.GenerateTimePointSequence` | Thinksharp.TimeFlow/Period.cs:101-114 | yields count points with count - 1 steps: the first is start, each next is AddPeriod of the previous in the given zone or the default zone for null, and point k is the k-th element |
| `TimePointSequence.TimePointAtExact` | Thinksharp.TimeFlow/Period.cs:108-113 | for an exact-length unit, point k lies k period lengths after the start |
| `TimePointSequence.TimePointsIncrease` | Thinksharp.TimeFlow/Period.cs:108-113 | on an advancing calendar the points strictly increase in UTC |

## Left out

- `PeriodUnit.AddPeriod`, `PeriodUnit.Parse`, `TimeZoneInfo` and `DateHelper.GetDefaultTimeZone` are not part of this model. They depend on the host's time-zone database and daylight-saving rules. Their arithmetic is the `Calendar` parameter. Facts about stepping are stated only under the `StepsExactly` or `Advances` hypotheses, and no daylight-saving slot counts are claimed.
- `PeriodUnits.ParseCode` assumes that `PeriodUnit.Parse` maps each of the seven codes, in any letter case, to its unit. The regular expression ignores case, so any other behaviour would throw for texts it matches.
- Case folding is ASCII only. Culture-specific rules and any non-ASCII case equivalents that .NET's regular expressions may apply are not modelled.
- The `TotalSeconds`/`TotalMinutes`/... doubles and their `% 1` tests are modelled as exact integer arithmetic on milliseconds, so double rounding is ignored. Spans below one millisecond cannot be expressed; they would give `Period(0, ms)`, which throws.
- `PeriodDerivation.FromTimePoints` does not narrow counts to 32 bits. In .NET, `(int)` of a count above `int.MaxValue` depends on the platform. Second counts overflow for spans beyond about 68 years, and minute counts beyond about 4085 years.
- `Periods.New` takes an unbounded integer where the source takes a 32-bit `int`. The 32-bit limit is modelled only where text is parsed, as `int.Parse`'s OverflowException.
- The range of `DateTimeOffset` (MinValue to MaxValue) is not modelled. Neither is the exception that stepping past it throws, since that happens inside `PeriodUnit.AddPeriod`.
- `GenerateTimePointSequence` is infinite in the source. The model gives a bounded prefix and a k-th element function. The `DateTime` overload (Period.cs:124-125) converts through the host's local zone, unless the `DateTime` is UTC, and is left out.
- `GetHashCode` is left out. It relies on unchecked wrapping `int` multiplication and states nothing beyond Equals.
- `ToString` is left out. It prints the value and `PeriodUnit`'s own `ToString`. That code is not part of this model, so no `ToString`/`Parse` round trip is stated.
- Null is `None` for period operands and the parsed text. Equals' argument is a null, a period or an object of another type.
- The time-series engine (joins, resampling, trimming, series operators, TSV export) is not part of this model. Its implementation is not among the modelled files.

## Findings

| source | as written | input that shows it | evidently intended | confidence | as-written member | corrected member |
|---|---|---|---|---|---|---|
| Thinksharp.TimeFlow/Period.cs:73-76 | the seconds branch truncates `TotalSeconds` to an int without checking for whole seconds, unlike the minute, hour and day branches | two instants 1500 ms apart give `Period(1, Second)`, which steps only 1000 ms | a span that is not whole seconds is measured in milliseconds, so the period "describes the difference between the 2 time points" (Period.cs:38) | medium; not executed | `PeriodDerivation.SecondsBranchTruncates` | `PeriodDerivation.FromTimePointsExactReaches` |
