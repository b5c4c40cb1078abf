/**
 * The text grammar of Python's `int(s)` (base 10) and `float(s)`, and
 * decimal formatting of integers (`str(n)`), on ASCII digits.
 */
module PyNum {
  import opened Wrappers
  import PyStr

  predicate IsDigit(c: char) {
    '0' <= c <= '9'
  }

  function DigitValue(c: char): nat
    requires IsDigit(c)
  {
    c as int - '0' as int
  }

  function DigitChar(d: nat): char
    requires d < 10
  {
    ('0' as int + d) as char
  }

  function Pow10(k: nat): (r: nat)
    ensures r > 0
  {
    if k == 0 then 1 else 10 * Pow10(k - 1)
  }

  /** Python `int(x)` of a real number `a / b`: truncation toward zero. */
  function TruncDiv(a: int, b: nat): int
    requires b > 0
  {
    if a >= 0 then a / b else -((-a) / b)
  }

  /**
   * Whitespace that `int()` and `float()` skip around a number: every
   * `str.isspace()` character except the ASCII separators U+001C..U+001F.
   */
  predicate IsNumSpace(c: char) {
    PyStr.IsSpace(c) && !('\U{1C}' <= c <= '\U{1F}')
  }

  function NumStrip(s: string): string {
    PyStr.TrimEnd(PyStr.TrimStart(s, IsNumSpace), IsNumSpace)
  }

  /** Python's `digitpart`: digits, with single underscores allowed between two digits. */
  predicate IsDigitPart(s: string)
    decreases |s|
  {
    && |s| > 0
    && IsDigit(s[0])
    && (|s| == 1 || IsDigitPart(s[1..]) || (s[1] == '_' && IsDigitPart(s[2..])))
  }

  /** The value of the decimal digits of `s`, most significant first; other characters are skipped. */
  function DigitsValue(s: string): nat
  {
    if s == [] then 0
    else if IsDigit(s[|s| - 1]) then DigitsValue(s[..|s| - 1]) * 10 + DigitValue(s[|s| - 1])
    else DigitsValue(s[..|s| - 1])
  }

  /** The number of decimal digits in `s`. */
  function DigitCount(s: string): nat
  {
    if s == [] then 0
    else DigitCount(s[..|s| - 1]) + (if IsDigit(s[|s| - 1]) then 1 else 0)
  }

  /** `[sign] digitpart`: the body of an `int()` literal, and a float exponent. */
  function ParseSigned(t: string): Option<int>
  {
    if t != [] && (t[0] == '+' || t[0] == '-') then
      if IsDigitPart(t[1..]) then
        var v: int := DigitsValue(t[1..]);
        Some(if t[0] == '-' then -v else v)
      else None
    else if IsDigitPart(t) then Some(DigitsValue(t))
    else None
  }

  /** Python `int(s)` for a string `s`; `None` where Python raises `ValueError`. */
  function ParseInt(s: string): Option<int>
  {
    ParseSigned(NumStrip(s))
  }

  /** The exact number `mant * 10^exp`. */
  datatype Decimal = Decimal(mant: int, exp: int)

  /** Index of the first character satisfying `p`, or `|s|` when there is none. */
  function FirstIndex(s: string, p: char -> bool): (r: nat)
    ensures r <= |s|
    ensures r < |s| ==> p(s[r])
    ensures forall i :: 0 <= i < r ==> !p(s[i])
  {
    if s == [] then 0 else if p(s[0]) then 0 else 1 + FirstIndex(s[1..], p)
  }

  predicate IsDot(c: char) { c == '.' }

  predicate IsExpMark(c: char) { c == 'e' || c == 'E' }

  /** Python's `number ::= [digitpart] "." digitpart | digitpart ["."]`. */
  function ParseNumber(t: string): Option<Decimal>
  {
    var d := FirstIndex(t, IsDot);
    if d == |t| then
      if IsDigitPart(t) then Some(Decimal(DigitsValue(t), 0)) else None
    else
      var ip, fp := t[..d], t[d + 1..];
      if (ip == [] || IsDigitPart(ip)) && (fp == [] || IsDigitPart(fp)) && !(ip == [] && fp == []) then
        Some(Decimal(DigitsValue(ip + fp), -(DigitCount(fp) as int)))
      else None
  }

  /** `number [("e" | "E") [sign] digitpart]`. */
  function ParseUnsignedFloat(t: string): Option<Decimal>
  {
    var e := FirstIndex(t, IsExpMark);
    match ParseNumber(t[..e])
    case None => None
    case Some(n) =>
      if e == |t| then Some(n)
      else
        match ParseSigned(t[e + 1..])
        case None => None
        case Some(x) => Some(Decimal(n.mant, n.exp + x))
  }

  /**
   * Python `float(s)` as an exact decimal, before any rounding to binary.
   * The spellings `inf`, `infinity` and `nan` are rejected here.
   */
  function ParseFloat(s: string): Option<Decimal>
  {
    var t := NumStrip(s);
    if t != [] && (t[0] == '+' || t[0] == '-') then
      match ParseUnsignedFloat(t[1..])
      case None => None
      case Some(d) => Some(if t[0] == '-' then Decimal(-d.mant, d.exp) else d)
    else ParseUnsignedFloat(t)
  }

  /** Python `str(n)` for a non-negative integer. */
  function ShowNat(n: nat): (r: string)
    ensures r != []
    ensures forall i :: 0 <= i < |r| ==> IsDigit(r[i])
  {
    if n < 10 then [DigitChar(n)] else ShowNat(n / 10) + [DigitChar(n % 10)]
  }

  /** Python `str(i)`. */
  function ShowInt(i: int): (r: string)
    ensures r != [] && IsDigit(r[|r| - 1])
  {
    if i < 0 then "-" + ShowNat(-i) else ShowNat(i)
  }

  predicate AllDigits(s: string) {
    forall i :: 0 <= i < |s| ==> IsDigit(s[i])
  }

  // ---------------------------------------------------------------------------
  // Lemmas

  lemma {:induction false} DigitsValueShow(n: nat)
    ensures DigitsValue(ShowNat(n)) == n
  {
    var r := ShowNat(n);
    if n >= 10 {
      DigitsValueShow(n / 10);
      assert r[..|r| - 1] == ShowNat(n / 10);
    }
  }

  lemma {:induction false} AllDigitsIsDigitPart(s: string)
    requires s != [] && AllDigits(s)
    ensures IsDigitPart(s)
  {
    if |s| > 1 {
      AllDigitsIsDigitPart(s[1..]);
    }
  }

  lemma {:induction false} DigitPartChars(s: string)
    requires IsDigitPart(s)
    ensures forall i :: 0 <= i < |s| ==> IsDigit(s[i]) || s[i] == '_'
    decreases |s|
  {
    if |s| > 1 {
      if IsDigitPart(s[1..]) {
        DigitPartChars(s[1..]);
      } else {
        DigitPartChars(s[2..]);
      }
    }
  }

  lemma {:induction false} DigitsValueAppend(a: string, b: string)
    ensures DigitsValue(a + b) == DigitsValue(a) * Pow10(DigitCount(b)) + DigitsValue(b)
    ensures DigitCount(a + b) == DigitCount(a) + DigitCount(b)
    decreases |b|
  {
    if b == [] {
      assert a + b == a;
    } else {
      var b', c := b[..|b| - 1], b[|b| - 1];
      assert (a + b)[..|a + b| - 1] == a + b';
      assert (a + b)[|a + b| - 1] == c;
      DigitsValueAppend(a, b');
      if IsDigit(c) {
        var x, y, p := DigitsValue(a), DigitsValue(b'), Pow10(DigitCount(b'));
        assert Pow10(DigitCount(b)) == p * 10;
        assert (x * p + y) * 10 == x * (p * 10) + y * 10 by {
          MulShift(x, p, y);
        }
      }
    }
  }

  lemma MulShift(x: int, p: int, y: int)
    ensures (x * p + y) * 10 == x * (p * 10) + y * 10
  {
  }

  /** A string that `strip()`-style whitespace cannot shorten. */
  lemma NumStripUnpadded(s: string)
    requires s == [] || (!IsNumSpace(s[0]) && !IsNumSpace(s[|s| - 1]))
    ensures NumStrip(s) == s
  {
  }

  lemma DigitsUnpadded(s: string)
    requires AllDigits(s)
    ensures NumStrip(s) == s
  {
    NumStripUnpadded(s);
  }

  /** `int()` of a non-empty digit string is its decimal value. */
  lemma ParseIntDigits(s: string)
    requires s != [] && AllDigits(s)
    ensures ParseInt(s) == Some(DigitsValue(s))
  {
    DigitsUnpadded(s);
    AllDigitsIsDigitPart(s);
  }

  lemma {:induction false} DigitPartLast(s: string)
    requires IsDigitPart(s)
    ensures IsDigit(s[|s| - 1])
    decreases |s|
  {
    if |s| > 1 {
      if IsDigitPart(s[1..]) {
        DigitPartLast(s[1..]);
      } else {
        DigitPartLast(s[2..]);
      }
    }
  }

  lemma ParseNegative(d: string, v: int)
    requires IsDigitPart(d) && DigitsValue(d) == -v
    ensures ParseInt("-" + d) == Some(v)
  {
    var s := "-" + d;
    DigitPartLast(d);
    assert s[1..] == d && s[|s| - 1] == d[|d| - 1];
    NumStripUnpadded(s);
  }

  /** Round trip: `int(str(i)) == i` for every integer. */
  lemma ParseIntShow(i: int)
    ensures ParseInt(ShowInt(i)) == Some(i)
  {
    if i < 0 {
      var d := ShowNat(-i);
      assert ShowInt(i) == "-" + d;
      DigitsValueShow(-i);
      AllDigitsIsDigitPart(d);
      ParseNegative(d, i);
    } else {
      DigitsValueShow(i);
      ParseIntDigits(ShowInt(i));
    }
  }

  /** `str` is injective on integers, since `int` inverts it. */
  lemma ShowIntInjective(i: int, j: int)
    requires ShowInt(i) == ShowInt(j)
    ensures i == j
  {
    ParseIntShow(i);
    ParseIntShow(j);
  }

  /** `float()` of a non-empty digit string is exactly its decimal value. */
  lemma ParseFloatDigits(s: string)
    requires s != [] && AllDigits(s)
    ensures ParseFloat(s) == Some(Decimal(DigitsValue(s), 0))
  {
    DigitsUnpadded(s);
    AllDigitsIsDigitPart(s);
    var e := FirstIndex(s, IsExpMark);
    assert s[..e] == s;
    var d := FirstIndex(s, IsDot);
  }

  /** Deleting a non-digit character changes neither the value of the digits nor their count. */
  lemma {:induction false} DigitsIgnoreReplace(s: string, c: char)
    requires !IsDigit(c)
    ensures DigitsValue(PyStr.Replace(s, [c])) == DigitsValue(s)
    ensures DigitCount(PyStr.Replace(s, [c])) == DigitCount(s)
    decreases |s|
  {
    if s != [] {
      var x, rest := s[0], s[1..];
      assert s == [x] + rest;
      assert [x][..0] == [];
      DigitsIgnoreReplace(rest, c);
      DigitsValueAppend([x], rest);
      if x == c {
        assert s[..1] == [c];
      } else {
        PyStr.ReplaceCons(x, rest, c);
        DigitsValueAppend([x], PyStr.Replace(rest, [c]));
      }
    }
  }

  lemma {:induction false} DigitCountAll(s: string)
    requires AllDigits(s)
    ensures DigitCount(s) == |s|
  {
    if s != [] {
      DigitCountAll(s[..|s| - 1]);
    }
  }

  /** `float(a + "." + f)` for digit strings is exactly the decimal `a.f`. */
  lemma FloatUnsigned(t: string)
    requires t != [] && IsDigit(t[0]) && !IsNumSpace(t[|t| - 1])
    ensures ParseFloat(t) == ParseUnsignedFloat(t)
  {
    NumStripUnpadded(t);
  }

  lemma UnsignedNoExponent(t: string)
    requires forall i :: 0 <= i < |t| ==> !IsExpMark(t[i])
    ensures ParseUnsignedFloat(t) == ParseNumber(t)
  {
    assert t[..FirstIndex(t, IsExpMark)] == t;
  }

  lemma NumberWithPoint(a: string, f: string)
    requires IsDigitPart(a) && (f == [] || IsDigitPart(f))
    requires forall i :: 0 <= i < |a| ==> !IsDot(a[i])
    ensures ParseNumber(a + "." + f) == Some(Decimal(DigitsValue(a + f), -(DigitCount(f) as int)))
  {
    var t := a + "." + f;
    assert t[|a|] == '.';
    var d := FirstIndex(t, IsDot);
    assert d == |a|;
    assert t[..d] == a && t[d + 1..] == f;
  }

  /** `float(a + "." + f)` for digit strings is exactly the decimal `a.f`. */
  lemma ParseFloatDecimal(a: string, f: string)
    requires a != [] && AllDigits(a) && AllDigits(f)
    ensures ParseFloat(a + "." + f) == Some(Decimal(DigitsValue(a + f), -|f|))
  {
    DecimalIsUnsigned(a, f);
    DecimalHasNoExponent(a, f);
    DecimalNumber(a, f);
  }

  lemma DecimalIsUnsigned(a: string, f: string)
    requires a != [] && AllDigits(a) && AllDigits(f)
    ensures ParseFloat(a + "." + f) == ParseUnsignedFloat(a + "." + f)
  {
    var t := a + "." + f;
    assert t[0] == a[0];
    assert t[|t| - 1] == '.' || t[|t| - 1] == f[|f| - 1];
    FloatUnsigned(t);
  }

  lemma DecimalHasNoExponent(a: string, f: string)
    requires AllDigits(a) && AllDigits(f)
    ensures ParseUnsignedFloat(a + "." + f) == ParseNumber(a + "." + f)
  {
    var t := a + "." + f;
    forall i | 0 <= i < |t| ensures !IsExpMark(t[i]) {
      if i < |a| { assert t[i] == a[i]; } else if i > |a| { assert t[i] == f[i - |a| - 1]; }
    }
    UnsignedNoExponent(t);
  }

  lemma DecimalNumber(a: string, f: string)
    requires a != [] && AllDigits(a) && AllDigits(f)
    ensures ParseNumber(a + "." + f) == Some(Decimal(DigitsValue(a + f), -|f|))
  {
    AllDigitsIsDigitPart(a);
    if f != [] { AllDigitsIsDigitPart(f); }
    NumberWithPoint(a, f);
    DigitCountAll(f);
  }

  predicate FloatChar(c: char) {
    IsDigit(c) || c == '_' || c == '.' || c == 'e' || c == 'E' || c == '+' || c == '-' || IsNumSpace(c)
  }

  lemma NumberChars(t: string)
    requires ParseNumber(t).Some?
    ensures forall i :: 0 <= i < |t| ==> FloatChar(t[i])
  {
    var d := FirstIndex(t, IsDot);
    if d == |t| {
      DigitPartChars(t);
    } else {
      var ip, fp := t[..d], t[d + 1..];
      if ip != [] { DigitPartChars(ip); }
      if fp != [] { DigitPartChars(fp); }
      forall i | 0 <= i < |t| ensures FloatChar(t[i]) {
        if i < d { assert t[i] == ip[i]; }
        else if i > d { assert t[i] == fp[i - d - 1]; }
      }
    }
  }

  lemma SignedChars(t: string)
    requires ParseSigned(t).Some?
    ensures forall i :: 0 <= i < |t| ==> FloatChar(t[i])
  {
    if t != [] && (t[0] == '+' || t[0] == '-') {
      DigitPartChars(t[1..]);
      forall i | 1 <= i < |t| ensures FloatChar(t[i]) {
        assert t[i] == t[1..][i - 1];
      }
    } else {
      DigitPartChars(t);
    }
  }

  lemma UnsignedFloatChars(t: string)
    requires ParseUnsignedFloat(t).Some?
    ensures forall i :: 0 <= i < |t| ==> FloatChar(t[i])
  {
    var e := FirstIndex(t, IsExpMark);
    NumberChars(t[..e]);
    if e < |t| {
      SignedChars(t[e + 1..]);
    }
    forall i | 0 <= i < |t| ensures FloatChar(t[i]) {
      if i < e { assert t[i] == t[..e][i]; }
      else if i > e { assert t[i] == t[e + 1..][i - e - 1]; }
    }
  }

  /** Every character of a string `float()` accepts is a digit, `_`, `.`, `e` or `E`, a sign or whitespace. */
  lemma ParseFloatChars(s: string)
    requires ParseFloat(s).Some?
    ensures forall i :: 0 <= i < |s| ==> FloatChar(s[i])
  {
    var t0 := PyStr.TrimStart(s, IsNumSpace);
    var t := NumStrip(s);
    if t != [] && (t[0] == '+' || t[0] == '-') {
      UnsignedFloatChars(t[1..]);
    } else {
      UnsignedFloatChars(t);
    }
    forall i | 0 <= i < |s| ensures FloatChar(s[i]) {
      var a := |s| - |t0|;
      if a <= i < a + |t| {
        assert s[i] == t[i - a];
        if i > a { assert t[i - a] == t[1..][i - a - 1]; }
      }
    }
  }

  predicate IntChar(c: char) {
    IsDigit(c) || c == '_' || c == '+' || c == '-' || IsNumSpace(c)
  }

  /** Every character of a string `int()` accepts is a digit, `_`, a sign or whitespace. */
  lemma ParseIntChars(s: string)
    requires ParseInt(s).Some?
    ensures forall i :: 0 <= i < |s| ==> IntChar(s[i])
  {
    var t0 := PyStr.TrimStart(s, IsNumSpace);
    var t := NumStrip(s);
    var signed := t != [] && (t[0] == '+' || t[0] == '-');
    if signed { DigitPartChars(t[1..]); } else { DigitPartChars(t); }
    forall i | 0 <= i < |s| ensures IntChar(s[i]) {
      var a := |s| - |t0|;
      if a <= i < a + |t| {
        assert s[i] == t[i - a];
        if signed && i > a { assert t[i - a] == t[1..][i - a - 1]; }
      }
    }
  }
}
