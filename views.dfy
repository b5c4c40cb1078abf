/**
 * The view-count conversion of the scraper (`convert_views`): the page
 * shows counts such as "1,234", "12.5K" or "1.2M"; the conversion
 * lower-cases the text, removes every comma, and then
 *   - if a `k` remains anywhere, removes every `k` and takes
 *     `int(float(rest) * 1000)`;
 *   - else if an `m` remains, removes every `m` and takes
 *     `int(float(rest) * 1000000)`;
 *   - else takes `int(text)`;
 * and any conversion that raises gives 0.
 *
 * `ConvertViews` computes this in exact arithmetic, which is what the
 * conversion means; `FloatConvertViews` goes through binary64 exactly as
 * the code does, and the two differ on some inputs (`FloatTruncation`).
 */
module Views {
  import opened Wrappers
  import opened PyNum
  import PyStr
  import Binary64

  /** What the conversion reads in its text, before any arithmetic. */
  datatype Reading = Scaled(number: Option<Decimal>, power: nat) | Plain(integer: Option<int>)

  /** Lower-cased, with every comma removed. */
  function Normalize(viewsText: string): string {
    PyStr.Replace(PyStr.Lower(viewsText), ",")
  }

  /** The branch the conversion takes and the number it parses there (`None` where parsing raises). */
  function Classify(viewsText: string): Reading {
    var t := Normalize(viewsText);
    if 'k' in t then Scaled(ParseFloat(PyStr.Replace(t, "k")), 3)
    else if 'm' in t then Scaled(ParseFloat(PyStr.Replace(t, "m")), 6)
    else Plain(ParseInt(t))
  }

  /** `int(d * 10^p)` in exact arithmetic: truncation toward zero. */
  function ScaleTrunc(d: Decimal, p: nat): int {
    if d.exp >= 0 then d.mant * Pow10(d.exp) * Pow10(p)
    else TruncDiv(d.mant * Pow10(p), Pow10(-d.exp))
  }

  /** The view count the text denotes: the conversion with exact arithmetic. */
  function ConvertViews(viewsText: string): int {
    match Classify(viewsText)
    case Scaled(Some(d), p) => ScaleTrunc(d, p)
    case Plain(Some(n)) => n
    case _ => 0
  }

  /** The conversion as the code computes it, through `float(...) * 1000` and `int(...)`. */
  function FloatConvertViews(viewsText: string): int {
    match Classify(viewsText)
    case Scaled(Some(d), p) =>
      (match Binary64.ToInt(Binary64.Times(Binary64.FromDecimal(d), Pow10(p)))
       case Some(n) => n
       case None => 0)
    case Plain(Some(n)) => n
    case _ => 0
  }

  /** The power of ten a unit letter stands for. */
  function UnitPower(u: char): nat {
    if u == 'k' || u == 'K' then 3 else 6
  }

  predicate IsUnit(u: char) {
    u == 'k' || u == 'K' || u == 'm' || u == 'M'
  }

  /** Digits and decimal points: the body of a count such as "12.5". */
  predicate NumberBody(b: string) {
    forall i :: 0 <= i < |b| ==> IsDigit(b[i]) || b[i] == '.'
  }

  // ---------------------------------------------------------------------------
  // Counts without a unit

  /** Digits with thousands separators read as the number the digits spell. */
  lemma ConvertViewsGrouped(s: string)
    requires forall i :: 0 <= i < |s| ==> IsDigit(s[i]) || s[i] == ','
    requires DigitCount(s) > 0
    ensures ConvertViews(s) == DigitsValue(s)
    ensures FloatConvertViews(s) == DigitsValue(s)
  {
    PyStr.LowerNoCapitals(s);
    var t := PyStr.Replace(s, ",");
    DigitsIgnoreReplace(s, ',');
    assert AllDigits(t) by {
      forall i | 0 <= i < |t|
        ensures IsDigit(t[i])
      {
        assert t[i] in t;
      }
    }
    assert t != [];
    assert 'k' !in t && 'm' !in t;
    ParseIntDigits(t);
  }

  // ---------------------------------------------------------------------------
  // Counts with a unit

  lemma LowerUnit(b: string, u: char)
    requires NumberBody(b) && IsUnit(u)
    ensures PyStr.Lower(b + [u]) == b + [PyStr.LowerChar(u)]
  {
  }

  /** A number body followed by a unit letter is read as the body scaled by the unit. */
  lemma ClassifyUnit(b: string, u: char)
    requires NumberBody(b) && IsUnit(u)
    ensures Classify(b + [u]) == Scaled(ParseFloat(b), UnitPower(u))
  {
    var l := PyStr.LowerChar(u);
    LowerUnit(b, u);
    assert ',' !in b + [l];
    PyStr.ReplaceAbsent(b + [l], ',');
    assert 'k' !in b && 'm' !in b;
    PyStr.ReplaceTrailing(b, l);
    assert (b + [l])[|b|] == l;
  }

  /** `a.f` followed by a unit is `a.f * 10^3` (k) or `a.f * 10^6` (m), truncated. */
  lemma ConvertViewsDecimal(a: string, f: string, u: char)
    requires a != [] && AllDigits(a) && AllDigits(f) && IsUnit(u)
    ensures ConvertViews(a + "." + f + [u]) == DigitsValue(a + f) * Pow10(UnitPower(u)) / Pow10(|f|)
  {
    DecimalBody(a, f);
    ClassifyUnit(a + "." + f, u);
    ParseFloatDecimal(a, f);
    DecimalScale(DigitsValue(a + f), |f|, UnitPower(u));
  }

  lemma DecimalBody(a: string, f: string)
    requires AllDigits(a) && AllDigits(f)
    ensures NumberBody(a + "." + f)
  {
    var b := a + "." + f;
    forall i | 0 <= i < |b|
      ensures IsDigit(b[i]) || b[i] == '.'
    {
      if i < |a| {
        assert b[i] == a[i];
      } else if i > |a| {
        assert b[i] == f[i - |a| - 1];
      }
    }
  }

  lemma DecimalScale(v: nat, digits: nat, p: nat)
    ensures ScaleTrunc(Decimal(v, -(digits as int)), p) == v * Pow10(p) / Pow10(digits)
  {
    MulNonNegative(v, Pow10(p));
  }

  lemma MulNonNegative(a: nat, b: nat)
    ensures a * b >= 0
  {
  }

  /** A whole number followed by a unit is that number times 10^3 or 10^6. */
  lemma ConvertViewsWhole(n: nat, u: char)
    requires IsUnit(u)
    ensures ConvertViews(ShowNat(n) + [u]) == n * Pow10(UnitPower(u))
  {
    var b := ShowNat(n);
    ClassifyUnit(b, u);
    ParseFloatDigits(b);
    DigitsValueShow(n);
  }

  /**
   * The code's float arithmetic is exact for whole numbers followed by a
   * unit, as long as the count stays below 2^53.
   */
  lemma FloatConvertViewsWhole(n: nat, u: char)
    requires IsUnit(u) && n * Pow10(UnitPower(u)) < Binary64.Pow2(53)
    ensures FloatConvertViews(ShowNat(n) + [u]) == ConvertViews(ShowNat(n) + [u])
  {
    var b := ShowNat(n);
    ClassifyUnit(b, u);
    ParseFloatDigits(b);
    DigitsValueShow(n);
    ConvertViewsWhole(n, u);
    assert Binary64.FromDecimal(Decimal(n, 0)) == Binary64.Nearest(false, n, 1);
    Binary64.WholeTimes(n, Pow10(UnitPower(u)));
  }

  /** Every `k` is removed wherever it stands: "1k5" reads as 15 thousand. */
  lemma ConvertViewsInnerUnit(a: string, b: string)
    requires a != [] && AllDigits(a) && AllDigits(b)
    ensures ConvertViews(a + "k" + b) == DigitsValue(a + b) * 1000
  {
    var t := a + "k" + b;
    assert NumberBody(a) && NumberBody(b);
    assert PyStr.Lower(t) == t;
    assert ',' !in t;
    PyStr.ReplaceAbsent(t, ',');
    assert t[|a|] == 'k';
    PyStr.ReplaceJoin(a, b, 'k');
    assert a + b != [] && AllDigits(a + b);
    ParseFloatDigits(a + b);
  }

  // ---------------------------------------------------------------------------
  // Texts that are not counts

  lemma NormalizeHas(s: string, lower: char, upper: char)
    requires 'a' <= lower <= 'z' && upper as int == lower as int - 32
    ensures lower in Normalize(s) <==> lower in s || upper in s
  {
    var l := PyStr.Lower(s);
    if lower in l {
      var i :| 0 <= i < |l| && l[i] == lower;
      assert s[i] == lower || s[i] == upper;
    }
    if lower in s || upper in s {
      var i :| 0 <= i < |s| && (s[i] == lower || s[i] == upper);
      assert l[i] == lower;
    }
  }

  /** A text with both a `k` and an `m` (in either case) converts to 0: `float()` rejects the `m`. */
  lemma ConvertViewsBothUnits(s: string)
    requires 'k' in s || 'K' in s
    requires 'm' in s || 'M' in s
    ensures ConvertViews(s) == 0 && FloatConvertViews(s) == 0
  {
    ClassifyBothUnits(s);
  }

  lemma ClassifyBothUnits(s: string)
    requires 'k' in s || 'K' in s
    requires 'm' in s || 'M' in s
    ensures Classify(s) == Scaled(None, 3)
  {
    var rest := BothUnitsRest(s);
    if ParseFloat(rest).Some? {
      ParseFloatChars(rest);
    }
  }

  lemma BothUnitsRest(s: string) returns (rest: string)
    requires 'k' in s || 'K' in s
    requires 'm' in s || 'M' in s
    ensures 'k' in Normalize(s) && rest == PyStr.Replace(Normalize(s), "k") && 'm' in rest
  {
    NormalizeHas(s, 'k', 'K');
    NormalizeHas(s, 'm', 'M');
    rest := PyStr.Replace(Normalize(s), "k");
  }

  /**
   * A text with a character no branch accepts (a letter other than the
   * units, a slash, ...) converts to 0: the `int()` or `float()` raises.
   */
  lemma ConvertViewsForeign(s: string, c: char)
    requires c in s
    requires var l := PyStr.LowerChar(c); !FloatChar(l) && l != ',' && l != 'k' && l != 'm'
    ensures ConvertViews(s) == 0 && FloatConvertViews(s) == 0
  {
    var l := PyStr.LowerChar(c);
    var i :| 0 <= i < |s| && s[i] == c;
    assert PyStr.Lower(s)[i] == l;
    var t := Normalize(s);
    assert l in t;
    if 'k' in t {
      var r := PyStr.Replace(t, "k");
      assert l in r;
      if ParseFloat(r).Some? {
        ParseFloatChars(r);
      }
    } else if 'm' in t {
      var r := PyStr.Replace(t, "m");
      assert l in r;
      if ParseFloat(r).Some? {
        ParseFloatChars(r);
      }
    } else if ParseInt(t).Some? {
      ParseIntChars(t);
    }
  }

  /** "N/A" is not a count. */
  lemma ForeignSample()
    ensures ConvertViews("N/A") == 0
  {
    ConvertViewsForeign("N/A", '/');
  }

  // ---------------------------------------------------------------------------
  // Sample readings

  lemma SampleDigits()
    ensures DigitsValue("1234") == 1234
    ensures DigitsValue("128" + "67") == 12867
  {
    assert ShowNat(1234) == "1234";
    DigitsValueShow(1234);
    assert ShowNat(12867) == "128" + "67";
    DigitsValueShow(12867);
  }

  /** Thousands separators are dropped. */
  lemma GroupedSample()
    ensures ConvertViews("1,234") == 1234
  {
    ConvertViewsGrouped("1,234");
    GroupedDigits();
    var v := DigitsValue("1,234");
    assert v == 1234;
  }

  lemma GroupedDigits()
    ensures DigitsValue("1,234") == 1234
  {
    assert "1,234" == ['1'] + ",234";
    PyStr.ReplaceCons('1', ",234", ',');
    assert ",234"[..1] == "," && ",234"[1..] == "234";
    PyStr.ReplaceAbsent("234", ',');
    assert PyStr.Replace(",234", ",") == "234";
    assert PyStr.Replace("1,234", ",") == "1234";
    DigitsIgnoreReplace("1,234", ',');
    SampleDigits();
  }

  /** A decimal with an upper-case unit. */
  lemma ThousandsSample()
    ensures ConvertViews("128.67K") == 128670
  {
    assert "128.67K" == "128" + "." + "67" + ['K'];
    ConvertViewsDecimal("128", "67", 'K');
    SampleDigits();
    var v := DigitsValue("128" + "67");
    assert Pow10(UnitPower('K')) == 1000 && Pow10(|"67"|) == 100;
    assert v * 1000 / 100 == 128670;
  }

  lemma BothUnitsSample()
    ensures ConvertViews("2.5km") == 0
  {
    ConvertViewsBothUnits("2.5km");
  }

  // ---------------------------------------------------------------------------
  // Finding: `int(float(rest) * 1000)` can lose a view to binary rounding

  lemma Pow2Values()
    ensures Binary64.Pow2(16) == 65536
    ensures Binary64.Pow2(36) == 68719476736
    ensures Binary64.Pow2(45) == 35184372088832
  {
    Binary64.Pow2Add(10, 6);
    Binary64.Pow2Add(10, 10);
    Binary64.Pow2Add(20, 10);
    Binary64.Pow2Add(30, 6);
    Binary64.Pow2Add(36, 9);
  }

  lemma ThousandsReading()
    ensures Classify("128.67K") == Scaled(Some(Decimal(12867, -2)), 3)
  {
    assert "128.67K" == "128" + "." + "67" + ['K'];
    DecimalBody("128", "67");
    ClassifyUnit("128" + "." + "67", 'K');
    ParseFloatDecimal("128", "67");
    SampleDigits();
  }

  /** `float("128.67")` is `4527173156670013 * 2^-45`, a little below 128.67. */
  lemma DoubleOfDecimal()
    ensures Binary64.FromDecimal(Decimal(12867, -2)) == Binary64.Finite(4527173156670013, -45)
  {
    Pow2Values();
    Binary64.LogUpUnique(12867, 100, 7);
  }

  /** Multiplying by 1000 rounds to `8842135071621119 * 2^-36`, which is `128670 - 2^-36`. */
  lemma DoubleOfProduct()
    ensures Binary64.Times(Binary64.Finite(4527173156670013, -45), 1000) == Binary64.Finite(8842135071621119, -36)
  {
    Pow2Values();
    Binary64.LogUpUnique(4527173156670013000, 35184372088832, 16);
  }

  lemma TruncatedProduct()
    ensures Binary64.ToInt(Binary64.Finite(8842135071621119, -36)) == Some(128669)
  {
    Pow2Values();
  }

  /** The code reads "128.67K" as 128669 views, one fewer than the 128670 the text denotes. */
  lemma FloatTruncation()
    ensures FloatConvertViews("128.67K") == 128669
    ensures ConvertViews("128.67K") == 128670
  {
    ThousandsReading();
    DoubleOfDecimal();
    DoubleOfProduct();
    TruncatedProduct();
    ThousandsSample();
  }
}
