/**
 * Period.TryParse and Period.Parse over the compact grammar
 *   ^\s*([0-9]+)?\s*(ms|s|min|h|d|mth|yr)\s*$   (ignoring case).
 * The regular expression is modelled by a scanner (Scan) and, independently,
 * by the decomposition of the text into its five parts (Decomposes); the two
 * are proved to accept the same texts with the same groups.
 */
module PeriodParsing {
  import opened Wrappers
  import opened PeriodUnits
  import opened Periods

  /** int.MaxValue, the largest value int.Parse accepts. */
  const MaxInt32: int := 0x7FFF_FFFF

  /** .NET's \s: the control whitespace, U+0085 and the Unicode separators (category Z). */
  predicate IsSpace(c: char) {
    var n := c as int;
    (9 <= n <= 13) || n == 0x20 || n == 0x85 || n == 0xA0 || n == 0x1680 || (0x2000 <= n <= 0x200A)
    || n == 0x2028 || n == 0x2029 || n == 0x202F || n == 0x205F || n == 0x3000
  }

  predicate IsDigit(c: char) {
    '0' <= c <= '9'
  }

  /** The character classes the scanner skips over. */
  datatype CharClass = Space | Digit | NonSpace

  predicate InClass(c: char, cls: CharClass) {
    match cls
    case Space => IsSpace(c)
    case Digit => IsDigit(c)
    case NonSpace => !IsSpace(c)
  }

  predicate AllIn(w: string, cls: CharClass) {
    forall i :: 0 <= i < |w| ==> InClass(w[i], cls)
  }

  /** The end of the longest run of class cls that starts at i. */
  function Skip(s: string, i: nat, cls: CharClass): (j: nat)
    requires i <= |s|
    ensures i <= j <= |s|
    ensures forall k :: i <= k < j ==> InClass(s[k], cls)
    ensures j < |s| ==> !InClass(s[j], cls)
    decreases |s| - i
  {
    if i == |s| || !InClass(s[i], cls) then i else Skip(s, i + 1, cls)
  }

  /** The two groups of a match: the digits (possibly empty) and the unit text. */
  datatype Groups = Groups(digits: string, unit: string)

  /**
   * The scanner: leading spaces, a maximal digit run, spaces, a maximal run of
   * non-space characters that must be a unit code, and nothing but spaces after.
   */
  function Scan(s: string): (r: Option<Groups>)
    ensures r.Some? ==> AllIn(r.value.digits, Digit) && ParseCode(r.value.unit).Some?
  {
    var i := Skip(s, 0, Space);
    var j := Skip(s, i, Digit);
    var k := Skip(s, j, Space);
    var l := Skip(s, k, NonSpace);
    if ParseCode(s[k..l]).Some? && Skip(s, l, Space) == |s| then Some(Groups(s[i..j], s[k..l])) else None
  }

  /** The text is spaces, digits, spaces, a unit code in any case, and spaces. */
  predicate Decomposes(s: string, w1: string, d: string, w2: string, u: string, w3: string) {
    && s == w1 + d + w2 + u + w3
    && AllIn(w1, Space) && AllIn(d, Digit) && AllIn(w2, Space) && ParseCode(u).Some? && AllIn(w3, Space)
  }

  ghost predicate InGrammar(s: string) {
    exists w1, d, w2, u, w3 :: Decomposes(s, w1, d, w2, u, w3)
  }

  /** A run of class cls from i ends at m when s[i..m] is in the class and s[m] is not. */
  lemma SkipStops(s: string, i: nat, m: nat, cls: CharClass)
    requires i <= m <= |s|
    requires forall k :: i <= k < m ==> InClass(s[k], cls)
    requires m == |s| || !InClass(s[m], cls)
    ensures Skip(s, i, cls) == m
  {
  }

  /** The characters of a unit code are ASCII letters: neither spaces nor digits. */
  lemma CodeIsLetters(u: string)
    requires ParseCode(u).Some?
    ensures |u| > 0
    ensures forall i :: 0 <= i < |u| ==> !IsSpace(u[i]) && !IsDigit(u[i])
  {
    var code := Code(ParseCode(u).value);
    assert ToLower(u) == code;
    forall i | 0 <= i < |u| ensures !IsSpace(u[i]) && !IsDigit(u[i]) {
      assert ToLowerAscii(u[i]) == code[i];
      assert 'a' <= code[i] <= 'z';
    }
  }

  /** A slice equal to a run of class cls is a run of that class in s. */
  lemma RunAt(s: string, i: nat, j: nat, piece: string, cls: CharClass)
    requires i <= j <= |s| && s[i..j] == piece && AllIn(piece, cls)
    ensures forall k :: i <= k < j ==> InClass(s[k], cls)
  {
    forall k | i <= k < j ensures InClass(s[k], cls) {
      assert s[k] == piece[k - i];
    }
  }

  /** The five parts of a concatenation are its slices at the running lengths. */
  lemma Parts(s: string, w1: string, d: string, w2: string, u: string, w3: string)
    requires s == w1 + d + w2 + u + w3
    ensures var a := |w1|; var b := a + |d|; var c := b + |w2|; var e := c + |u|;
            && e + |w3| == |s|
            && s[..a] == w1 && s[a..b] == d && s[b..c] == w2 && s[c..e] == u && s[e..] == w3
  {
  }

  /** Every text of the grammar is accepted by the scanner, with its own digits and unit as the groups. */
  lemma {:induction false} ScanComplete(s: string, w1: string, d: string, w2: string, u: string, w3: string)
    requires Decomposes(s, w1, d, w2, u, w3)
    ensures Scan(s) == Some(Groups(d, u))
  {
    CodeIsLetters(u);
    Parts(s, w1, d, w2, u, w3);
    var a := |w1|;
    var b := a + |d|;
    var c := b + |w2|;
    var e := c + |u|;
    RunAt(s, 0, a, w1, Space);
    RunAt(s, a, b, d, Digit);
    RunAt(s, b, c, w2, Space);
    RunAt(s, e, |s|, w3, Space);
    assert AllIn(u, NonSpace);
    RunAt(s, c, e, u, NonSpace);
    assert s[c] == u[0];
    if |d| > 0 {
      assert s[a] == d[0];
      SkipStops(s, 0, a, Space);
      SkipStops(s, a, b, Digit);
      SkipStops(s, b, c, Space);
    } else {
      SkipStops(s, 0, c, Space);
      SkipStops(s, c, c, Digit);
      SkipStops(s, c, c, Space);
    }
    SkipStops(s, c, e, NonSpace);
    SkipStops(s, e, |s|, Space);
    var i := Skip(s, 0, Space);
    var j := Skip(s, i, Digit);
    assert Skip(s, j, Space) == c && Skip(s, c, NonSpace) == e;
    assert s[i..j] == d;
  }

  /** A run of class cls in s, sliced out, is all of that class. */
  lemma SliceIn(s: string, i: nat, j: nat, cls: CharClass)
    requires i <= j <= |s|
    requires forall k :: i <= k < j ==> InClass(s[k], cls)
    ensures AllIn(s[i..j], cls)
  {
  }

  /** A text is the concatenation of its slices at any four ordered cut points. */
  lemma Cuts(s: string, i: nat, j: nat, k: nat, l: nat)
    requires i <= j <= k <= l <= |s|
    ensures s == s[..i] + s[i..j] + s[j..k] + s[k..l] + s[l..]
  {
    assert s[..j] == s[..i] + s[i..j];
    assert s[..k] == s[..j] + s[j..k];
    assert s[..l] == s[..k] + s[k..l];
    assert s == s[..l] + s[l..];
  }

  /** Every text the scanner accepts is in the grammar, split around the groups it reports. */
  lemma ScanSound(s: string)
    requires Scan(s).Some?
    ensures exists w1, w2, w3 :: Decomposes(s, w1, Scan(s).value.digits, w2, Scan(s).value.unit, w3)
  {
    var i := Skip(s, 0, Space);
    var j := Skip(s, i, Digit);
    var k := Skip(s, j, Space);
    var l := Skip(s, k, NonSpace);
    assert Scan(s) == Some(Groups(s[i..j], s[k..l]));
    assert ParseCode(s[k..l]).Some? && Skip(s, l, Space) == |s|;
    SliceIn(s, 0, i, Space);
    SliceIn(s, i, j, Digit);
    SliceIn(s, j, k, Space);
    SliceIn(s, l, |s|, Space);
    Cuts(s, i, j, k, l);
    assert s[..i] == s[0..i] && s[l..] == s[l..|s|];
    assert Decomposes(s, s[..i], s[i..j], s[j..k], s[k..l], s[l..]);
  }

  /** The scanner accepts exactly the texts of the grammar. */
  lemma ScanAcceptsGrammar(s: string)
    ensures Scan(s).Some? <==> InGrammar(s)
  {
    if Scan(s).Some? {
      ScanSound(s);
    }
    if InGrammar(s) {
      var w1, d, w2, u, w3 :| Decomposes(s, w1, d, w2, u, w3);
      ScanComplete(s, w1, d, w2, u, w3);
    }
  }

  /** The numeric value of a run of decimal digits (int.Parse without its range check). */
  function DigitsValue(d: string): nat
    requires AllIn(d, Digit)
  {
    if d == [] then 0 else DigitsValue(d[..|d| - 1]) * 10 + (d[|d| - 1] as int - '0' as int)
  }

  /** The outcome of TryParse: its return value with the out parameter, or the exception it lets escape. */
  datatype TryParseResult = Returned(success: bool, period: Option<Period>) | Threw(exception: Exception)

  /**
   * Period.TryParse: false with a null period for null or a text outside the
   * grammar; otherwise the value (1 when the digits are omitted) goes through
   * int.Parse, which throws OverflowException above int.MaxValue, and then the
   * constructor, which throws ArgumentException for 0.
   */
  function TryParse(text: Option<string>): (r: TryParseResult)
    ensures r.Returned? ==> (r.success <==> r.period.Some?)
    ensures r.Returned? && r.success ==> r.period.value.Valid() && r.period.value.value <= MaxInt32
    ensures r.Threw? ==> r.exception == OverflowException || r.exception == ArgumentException
  {
    if text.None? then Returned(false, None)
    else match Scan(text.value)
      case None => Returned(false, None)
      case Some(groups) =>
        var value := if groups.digits == [] then 1 else DigitsValue(groups.digits);
        if value > MaxInt32 then Threw(OverflowException)
        else match New(value, ParseCode(groups.unit).value)
          case Ok(p) => Returned(true, Some(p))
          case Err(e) => Threw(e)
  }

  /** TryParse returns false, leaving the period null, exactly for null and texts outside the grammar. */
  lemma TryParseRejects(text: Option<string>)
    ensures TryParse(text) == Returned(false, None) <==> text.None? || !InGrammar(text.value)
  {
    if text.Some? {
      ScanAcceptsGrammar(text.value);
    }
  }

  /**
   * On a text of the grammar TryParse succeeds with the written value (1 if
   * omitted) and the named unit, unless the value is 0 (ArgumentException) or
   * above int.MaxValue (OverflowException).
   */
  lemma TryParseAccepts(s: string, w1: string, d: string, w2: string, u: string, w3: string)
    requires Decomposes(s, w1, d, w2, u, w3)
    ensures var value := if d == [] then 1 else DigitsValue(d);
            TryParse(Some(s)) == (if value > MaxInt32 then Threw(OverflowException)
                                  else if value == 0 then Threw(ArgumentException)
                                  else Returned(true, Some(Period(value, ParseCode(u).value))))
  {
    ScanComplete(s, w1, d, w2, u, w3);
  }

  /**
   * Period.Parse: ArgumentNullException for null, FormatException where
   * TryParse returns false, otherwise TryParse's period or its exception.
   */
  function Parse(text: Option<string>): (r: Result<Period, Exception>)
    ensures text.None? ==> r == Err(ArgumentNullException)
    ensures text.Some? && TryParse(text) == Returned(false, None) ==> r == Err(FormatException)
    ensures text.Some? && TryParse(text).Returned? && TryParse(text).success ==> r == Ok(TryParse(text).period.value)
    ensures TryParse(text).Threw? ==> r == Err(TryParse(text).exception)
  {
    if text.None? then Err(ArgumentNullException)
    else match TryParse(text)
      case Returned(success, period) => if success then Ok(period.value) else Err(FormatException)
      case Threw(e) => Err(e)
  }

  function DigitChar(n: nat): (c: char)
    requires n < 10
    ensures IsDigit(c) && c as int - '0' as int == n
  {
    ('0' as int + n) as char
  }

  /** The decimal digits of n, without leading zeros. */
  function DecimalText(n: nat): (d: string)
    ensures AllIn(d, Digit) && |d| > 0
  {
    if n < 10 then [DigitChar(n)] else DecimalText(n / 10) + [DigitChar(n % 10)]
  }

  lemma {:induction false} DecimalTextValue(n: nat)
    ensures DigitsValue(DecimalText(n)) == n
  {
    var d := DecimalText(n);
    if n >= 10 {
      DecimalTextValue(n / 10);
      assert d[..|d| - 1] == DecimalText(n / 10);
    }
  }

  /** Every period whose value fits int.MaxValue is Parse's result for its value followed by its unit code. */
  lemma ParseReachesEveryPeriod(p: Period)
    requires p.Valid() && p.value <= MaxInt32
    ensures Parse(Some(DecimalText(p.value) + Code(p.unit))) == Ok(p)
  {
    var s := DecimalText(p.value) + Code(p.unit);
    ParseCodeOfCode(p.unit);
    assert Decomposes(s, "", DecimalText(p.value), "", Code(p.unit), "");
    DecimalTextValue(p.value);
    TryParseAccepts(s, "", DecimalText(p.value), "", Code(p.unit), "");
  }

  /** "15min" is the quarter hour. */
  lemma ParseQuarterHour()
    ensures Parse(Some("15min")) == Ok(QuarterHour)
  {
    PredefinedPeriods();
    assert ToLower("min") == "min";
    assert ParseCode("min") == Some(Minute);
    assert DigitsValue("15") == 15 by {
      assert "15"[..1] == "1" && "1"[..0] == "";
    }
    assert "15min" == "" + "15" + "" + "min" + "";
    assert Decomposes("15min", "", "15", "", "min", "");
    TryParseAccepts("15min", "", "15", "", "min", "");
    assert TryParse(Some("15min")) == Returned(true, Some(Period(15, Minute)));
  }

  /** Spacing and letter case are free: " 3 MTH " is the quarter year. */
  lemma ParseQuarterYear()
    ensures Parse(Some(" 3 MTH ")) == Ok(QuarterYear)
  {
    PredefinedPeriods();
    assert ToLowerAscii('M') == 'm' && ToLowerAscii('T') == 't' && ToLowerAscii('H') == 'h';
    assert ToLower("MTH") == "mth";
    assert ParseCode("MTH") == Some(PeriodUnit.Month);
    assert DigitsValue("3") == 3 by {
      assert "3"[..0] == "";
    }
    assert " 3 MTH " == " " + "3" + " " + "MTH" + " ";
    assert Decomposes(" 3 MTH ", " ", "3", " ", "MTH", " ");
    TryParseAccepts(" 3 MTH ", " ", "3", " ", "MTH", " ");
    assert TryParse(Some(" 3 MTH ")) == Returned(true, Some(Period(3, PeriodUnit.Month)));
  }

  /** Omitted digits stand for 1: "yr" is the year. */
  lemma ParseYear()
    ensures Parse(Some("yr")) == Ok(Periods.Year)
  {
    PredefinedPeriods();
    assert ToLower("yr") == "yr";
    assert ParseCode("yr") == Some(PeriodUnit.Year);
    assert "yr" == "" + "" + "" + "yr" + "";
    assert Decomposes("yr", "", "", "", "yr", "");
    TryParseAccepts("yr", "", "", "", "yr", "");
    assert TryParse(Some("yr")) == Returned(true, Some(Period(1, PeriodUnit.Year)));
  }

  /** A zero value matches the grammar and fails in the constructor. */
  lemma ParseZero()
    ensures Parse(Some("0d")) == Err(ArgumentException)
  {
    assert ToLower("d") == "d";
    assert ParseCode("d") == Some(PeriodUnit.Day);
    assert DigitsValue("0") == 0 by {
      assert "0"[..0] == "";
    }
    assert "0d" == "" + "0" + "" + "d" + "";
    assert Decomposes("0d", "", "0", "", "d", "");
    TryParseAccepts("0d", "", "0", "", "d", "");
  }

  /** A unit outside the seven codes is a format error, null an argument-null error. */
  lemma ParseForeignUnit()
    ensures Parse(Some("2 weeks")) == Err(FormatException)
    ensures Parse(None) == Err(ArgumentNullException)
  {
    var t := "2 weeks";
    SkipStops(t, 0, 0, Space);
    SkipStops(t, 0, 1, Digit);
    SkipStops(t, 1, 2, Space);
    SkipStops(t, 2, 7, NonSpace);
    assert t[2..7] == "weeks";
    assert ToLower("weeks") == "weeks";
    assert Scan(t) == None;
  }
}
