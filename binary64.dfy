/**
 * IEEE 754 binary64 numbers ("double", Python's `float`) and the correctly
 * rounded operations the view-count conversion goes through: `float(s)` of
 * a decimal literal, multiplication by an integer, and `int(x)`.
 *
 * A finite double is kept as `m * 2^e`: rounding picks `e` so that `|m|`
 * has 53 significant bits (fewer for subnormals, where `e` is held at
 * -1074) and rounds `m` to the nearest integer, ties to even.
 */
module Binary64 {
  import opened Wrappers
  import opened PyNum

  function Pow2(k: nat): (r: nat)
    ensures r > 0
  {
    if k == 0 then 1 else 2 * Pow2(k - 1)
  }

  /** A finite double `m * 2^e`, or an infinity (the sign of an infinity is not needed here). */
  datatype Double = Finite(m: int, e: int) | Infinite

  /** `floor(log2(num / den))` when `num / den >= 1`. */
  function LogUp(num: nat, den: nat): (k: nat)
    requires 0 < den <= num
    ensures den * Pow2(k) <= num < 2 * den * Pow2(k)
    decreases num - den
  {
    if num >= 2 * den then 1 + LogUp(num, 2 * den) else 0
  }

  /** `-floor(log2(num / den))` when `num / den < 1`. */
  function LogDown(num: nat, den: nat): (k: nat)
    requires 0 < num < den
    ensures k >= 1 && den <= num * Pow2(k) < 2 * den
    decreases den - num
  {
    if 2 * num >= den then 1 else 1 + LogDown(2 * num, den)
  }

  /** `floor(log2(num / den))`: the binary exponent of the rational `num / den`. */
  function Log2Floor(num: nat, den: nat): (k: int)
    requires num > 0 && den > 0
    ensures k >= 0 ==> den * Pow2(k) <= num < 2 * den * Pow2(k)
    ensures k < 0 ==> den <= num * Pow2(-k) < 2 * den
  {
    if num >= den then LogUp(num, den) else -(LogDown(num, den) as int)
  }

  /** The integer nearest to `num / den`; a tie goes to the even neighbour. */
  function RoundHalfEven(num: nat, den: nat): (q: nat)
    requires den > 0
    ensures 2 * q * den <= 2 * num + den
    ensures 2 * num <= 2 * q * den + den
    ensures 2 * num == 2 * q * den + den ==> q % 2 == 0
    ensures 2 * num + den == 2 * q * den ==> q % 2 == 0
  {
    var q, r := num / den, num % den;
    RoundingStep(num, den, q, r);
    if 2 * r > den || (2 * r == den && q % 2 == 1) then q + 1 else q
  }

  lemma RoundingStep(num: nat, den: nat, q: nat, r: nat)
    requires den > 0 && q == num / den && r == num % den
    ensures 2 * q * den == 2 * num - 2 * r
    ensures 2 * (q + 1) * den == 2 * num - 2 * r + 2 * den
  {
    var p := q * den;
    assert num == p + r;
    assert 2 * q * den == 2 * p;
    assert 2 * (q + 1) * den == 2 * p + 2 * den;
  }

  /** Rounding a quotient below `b` gives at most `b`. */
  lemma RoundBelow(num: nat, den: nat, b: nat)
    requires den > 0 && num < b * den
    ensures RoundHalfEven(num, den) <= b
  {
    var q := num / den;
    assert q * den <= num;
    if q >= b {
      MulLe(b, q, den);
      assert false;
    }
  }

  lemma MulLe(a: nat, b: nat, c: nat)
    requires a <= b
    ensures a * c <= b * c
  {
  }

  lemma MulLt(a: nat, b: nat, c: nat)
    requires a < b && c > 0
    ensures a * c < b * c
  {
  }

  function Max(a: int, b: int): int { if a >= b then a else b }

  /** The largest finite binary exponent of a 53-bit significand: `(2^53 - 1) * 2^971` is the largest double. */
  const MaxExp: int := 971
  /** The exponent of the smallest subnormal, `2^-1074`. */
  const MinExp: int := -1074

  /**
   * The double nearest to `+-(num / den)` (`-` when `neg`), ties to even;
   * `Infinite` when that rounds past the largest finite double.
   */
  function Nearest(neg: bool, num: nat, den: nat): (r: Double)
    requires den > 0
    ensures num == 0 ==> r == Finite(0, 0)
    ensures r.Finite? ==> MinExp <= r.e <= MaxExp && -(Pow2(53) as int) <= r.m <= Pow2(53)
    ensures r.Finite? ==> (if neg then r.m <= 0 else r.m >= 0)
    ensures r.Finite? && r.e == MaxExp ==> -(Pow2(53) as int) < r.m < Pow2(53)
  {
    if num == 0 then Finite(0, 0)
    else
      var e := Max(Log2Floor(num, den) - 52, MinExp);
      var m := if e >= 0 then RoundHalfEven(num, den * Pow2(e)) else RoundHalfEven(num * Pow2(-e), den);
      if e > MaxExp || (e == MaxExp && m >= Pow2(53)) then Infinite
      else
        assert m <= Pow2(53) by { SignificandBound(num, den, e, m); }
        Finite(if neg then -m else m, e)
  }

  /** `q` is an integer nearest to `num / den`, and an even one on a tie. */
  predicate NearestInteger(num: nat, den: nat, q: int)
    requires den > 0
  {
    && q >= 0
    && 2 * q * den <= 2 * num + den
    && 2 * num <= 2 * q * den + den
    && (2 * num == 2 * q * den + den ==> q % 2 == 0)
    && (2 * num + den == 2 * q * den ==> q % 2 == 0)
  }

  /** `q * 2^e` is a multiple of `2^e` nearest to `num / den`, ties to an even `q`. */
  predicate NearestMultiple(num: nat, den: nat, e: int, q: int)
    requires den > 0
  {
    if e >= 0 then NearestInteger(num, den * Pow2(e), q) else NearestInteger(num * Pow2(-e), den, q)
  }

  /**
   * `Nearest` rounds to the grid of doubles around `num / den`: the
   * exponent is the spacing `2^e` of 53-bit significands in the binade of
   * `num / den` (never below the subnormal spacing `2^-1074`), and the
   * significand is the multiple of that spacing nearest to `num / den`,
   * ties to even. Only a value whose rounding reaches the top exponent can
   * overflow.
   */
  lemma NearestRounds(neg: bool, num: nat, den: nat)
    requires den > 0 && num > 0
    ensures var r, e := Nearest(neg, num, den), Max(Log2Floor(num, den) - 52, MinExp);
      r.Finite? ==> r.e == e && NearestMultiple(num, den, e, if neg then -r.m else r.m)
    ensures Nearest(neg, num, den).Infinite? ==> Log2Floor(num, den) - 52 >= MaxExp
  {
    var e := Max(Log2Floor(num, den) - 52, MinExp);
    if e >= 0 {
      var q := RoundHalfEven(num, den * Pow2(e));
      assert NearestInteger(num, den * Pow2(e), q);
    } else {
      MulLe(0, num, Pow2(-e));
      var q := RoundHalfEven(num * Pow2(-e), den);
      assert NearestInteger(num * Pow2(-e), den, q);
    }
  }

  /** Rounding a value below `2^(e+53)` at exponent `e` gives at most `2^53`. */
  lemma SignificandBound(num: nat, den: nat, e: int, m: nat)
    requires num > 0 && den > 0 && e >= Log2Floor(num, den) - 52
    requires e >= 0 ==> m == RoundHalfEven(num, den * Pow2(e))
    requires e < 0 ==> m == RoundHalfEven(num * Pow2(-e), den)
    ensures m <= Pow2(53)
  {
    var k := Log2Floor(num, den);
    if e >= 0 {
      if k >= 0 {
        BoundWide(num, den, k, e);
      } else {
        Pow2Mono(0, e + 53);
        MulLe(1, Pow2(e + 53), den);
      }
      RoundWide(num, den, e);
    } else {
      if k >= 0 {
        BoundScaled(num, den, k, -e);
      } else if -k <= -e {
        BoundTiny(num, den, -k, -e);
      } else {
        BoundSubnormal(num, den, -k, -e);
      }
      MulLe(0, num, Pow2(-e));
      RoundBelow(num * Pow2(-e), den, Pow2(53));
    }
  }

  lemma RoundWide(num: nat, den: nat, e: nat)
    requires den > 0 && num < den * Pow2(e + 53)
    ensures RoundHalfEven(num, den * Pow2(e)) <= Pow2(53)
  {
    Pow2Add(e, 53);
    MulComm(Pow2(e), Pow2(53));
    MulAssoc(den, Pow2(53), Pow2(e));
    MulComm(den, Pow2(53));
    MulAssoc(Pow2(53), den, Pow2(e));
    RoundBelow(num, den * Pow2(e), Pow2(53));
  }

  lemma BoundWide(num: nat, den: nat, k: nat, e: nat)
    requires den > 0 && num < 2 * den * Pow2(k) && k <= e + 52
    ensures num < den * Pow2(e + 53)
  {
    Pow2Mono(k + 1, e + 53);
    MulLe(Pow2(k + 1), Pow2(e + 53), den);
  }

  lemma BoundScaled(num: nat, den: nat, k: nat, s: nat)
    requires den > 0 && num < 2 * den * Pow2(k) && k + s <= 52
    ensures num * Pow2(s) < Pow2(53) * den
  {
    var p, q, t := Pow2(s), Pow2(k + 1), Pow2(k + 1 + s);
    Doubled(num, den, k);
    MulLt(num, q * den, p);
    Pow2Add(k + 1, s);
    MulAssoc(q, den, p);
    MulComm(den, p);
    MulAssoc(q, p, den);
    Pow2Mono(k + 1 + s, 53);
    MulLe(t, Pow2(53), den);
  }

  lemma Doubled(num: nat, den: nat, k: nat)
    requires num < 2 * den * Pow2(k)
    ensures num < Pow2(k + 1) * den
  {
    var a := Pow2(k);
    assert Pow2(k + 1) == 2 * a;
    MulAssoc(2, a, den);
    MulComm(a, den);
    MulAssoc(2, den, a);
  }

  lemma BoundTiny(num: nat, den: nat, j: nat, s: nat)
    requires den > 0 && num * Pow2(j) < 2 * den && j <= s && s <= 52 + j
    ensures num * Pow2(s) < Pow2(53) * den
  {
    ShiftLt(num, den, j, s);
    DoubledBound(den, s - j);
    LtLe(num * Pow2(s), 2 * den * Pow2(s - j), Pow2(53) * den);
  }

  lemma LtLe(x: int, y: int, z: int)
    requires x < y <= z
    ensures x < z
  {
  }

  lemma ShiftLt(num: nat, den: nat, j: nat, s: nat)
    requires num * Pow2(j) < 2 * den && j <= s
    ensures num * Pow2(s) < 2 * den * Pow2(s - j)
  {
    var a, p := Pow2(j), Pow2(s - j);
    MulLt(num * a, 2 * den, p);
    Pow2Add(j, s - j);
    MulAssoc(num, a, p);
  }

  lemma DoubledBound(den: nat, t: nat)
    requires t <= 52
    ensures 2 * den * Pow2(t) <= Pow2(53) * den
  {
    var p := Pow2(t);
    Pow2Add(1, t);
    MulAssoc(2, den, p);
    MulComm(den, p);
    MulAssoc(2, p, den);
    Pow2Mono(t + 1, 53);
    MulLe(Pow2(t + 1), Pow2(53), den);
  }

  lemma BoundSubnormal(num: nat, den: nat, j: nat, s: nat)
    requires den > 0 && num * Pow2(j) < 2 * den && s < j
    ensures num * Pow2(s) < Pow2(53) * den
  {
    Pow2Mono(s, j);
    MulLe(Pow2(s), Pow2(j), num);
    MulComm(Pow2(s), num);
    MulComm(Pow2(j), num);
    Pow2Mono(1, 53);
    MulLe(2, Pow2(53), den);
  }

  lemma MulAssoc(a: int, b: int, c: int)
    ensures a * b * c == a * (b * c)
  {
  }

  lemma MulComm(a: int, b: int)
    ensures a * b == b * a
  {
  }

  lemma {:induction false} Pow2Add(a: nat, b: nat)
    ensures Pow2(a + b) == Pow2(a) * Pow2(b)
  {
    if a > 0 {
      Pow2Add(a - 1, b);
    }
  }

  lemma {:induction false} Pow2Mono(a: nat, b: nat)
    requires a <= b
    ensures Pow2(a) <= Pow2(b)
  {
    if a < b {
      Pow2Mono(a, b - 1);
    }
  }

  /** Python `float(s)` of the exact value `d`. */
  function FromDecimal(d: Decimal): Double
  {
    var n: nat := if d.mant < 0 then -d.mant else d.mant;
    if d.exp >= 0 then Nearest(d.mant < 0, n * Pow10(d.exp), 1)
    else Nearest(d.mant < 0, n, Pow10(-d.exp))
  }

  /** Python `x * k` for a double `x` and a positive integer `k` exact as a double. */
  function Times(x: Double, k: nat): Double
    requires k > 0
  {
    match x
    case Infinite => Infinite
    case Finite(m, e) =>
      var n: nat := if m < 0 then -m else m;
      if e >= 0 then Nearest(m < 0, n * k * Pow2(e), 1) else Nearest(m < 0, n * k, Pow2(-e))
  }

  /** Python `int(x)`: truncation toward zero; `None` for an infinity, where Python raises `OverflowError`. */
  function ToInt(x: Double): Option<int>
  {
    match x
    case Infinite => None
    case Finite(m, e) => Some(if e >= 0 then m * Pow2(e) else TruncDiv(m, Pow2(-e)))
  }

  // ---------------------------------------------------------------------------
  // Rounding depends only on the rational `num / den`; whole numbers below
  // 2^53 pass through `float`, `* k` and `int` unchanged.

  /** `LogUp` is the only exponent that brackets `num / den` between two powers of two. */
  lemma {:induction false} LogUpUnique(num: nat, den: nat, k: nat)
    requires 0 < den <= num && den * Pow2(k) <= num < 2 * den * Pow2(k)
    ensures LogUp(num, den) == k
    decreases num - den
  {
    if num >= 2 * den {
      if k == 0 {
        assert false;
      }
      MulAssoc(2, den, Pow2(k - 1));
      LogUpUnique(num, 2 * den, k - 1);
    }
  }

  lemma {:induction false} LogUpScale(num: nat, den: nat, c: nat)
    requires 0 < den <= num && c > 0
    ensures LogUp(num * c, den * c) == LogUp(num, den)
    decreases num - den
  {
    MulLe(den, num, c);
    MulAssoc(2, den, c);
    if num >= 2 * den {
      MulLe(2 * den, num, c);
      LogUpScale(num, 2 * den, c);
    } else {
      MulLt(num, 2 * den, c);
    }
  }

  lemma {:induction false} LogDownScale(num: nat, den: nat, c: nat)
    requires 0 < num < den && c > 0
    ensures LogDown(num * c, den * c) == LogDown(num, den)
    decreases den - num
  {
    MulLt(num, den, c);
    MulAssoc(2, num, c);
    if 2 * num >= den {
      MulLe(den, 2 * num, c);
    } else {
      MulLt(2 * num, den, c);
      LogDownScale(2 * num, den, c);
    }
  }

  lemma Log2FloorScale(num: nat, den: nat, c: nat)
    requires num > 0 && den > 0 && c > 0
    ensures Log2Floor(num * c, den * c) == Log2Floor(num, den)
  {
    if num >= den {
      MulLe(den, num, c);
      LogUpScale(num, den, c);
    } else {
      MulLt(num, den, c);
      LogDownScale(num, den, c);
    }
  }

  lemma DivModUnique(num: nat, den: nat, q: nat, r: nat)
    requires den > 0 && num == q * den + r && r < den
    ensures num / den == q && num % den == r
  {
    var q0, r0 := num / den, num % den;
    assert q0 * den + r0 == q * den + r;
    if q0 > q {
      MulDist(q0 - q, q, den);
      MulLe(1, q0 - q, den);
    } else if q0 < q {
      MulDist(q - q0, q0, den);
      MulLe(1, q - q0, den);
    }
  }

  lemma MulDist(a: int, b: int, c: int)
    ensures (a + b) * c == a * c + b * c
  {
  }

  lemma RoundScale(num: nat, den: nat, c: nat)
    requires den > 0 && c > 0
    ensures RoundHalfEven(num * c, den * c) == RoundHalfEven(num, den)
  {
    var q, r := num / den, num % den;
    var d, rc := den * c, r * c;
    MulLt(r, den, c);
    assert num == q * den + r;
    MulDist(q * den, r, c);
    MulAssoc(q, den, c);
    DivModUnique(num * c, d, q, rc);
    MulAssoc(2, r, c);
    if 2 * r > den {
      MulLt(den, 2 * r, c);
    } else if 2 * r < den {
      MulLt(2 * r, den, c);
    }
  }

  /** `Nearest` sees only the value `num / den`, not how the fraction is written. */
  lemma NearestScale(neg: bool, num: nat, den: nat, c: nat)
    requires den > 0 && c > 0
    ensures Nearest(neg, num * c, den * c) == Nearest(neg, num, den)
  {
    if num > 0 {
      MulLe(1, num, c);
      Log2FloorScale(num, den, c);
      var e := Max(Log2Floor(num, den) - 52, MinExp);
      if e >= 0 {
        WideScale(num, den, c, e);
      } else {
        NarrowScale(num, den, c, -e);
      }
    }
  }

  lemma WideScale(num: nat, den: nat, c: nat, e: nat)
    requires den > 0 && c > 0
    ensures RoundHalfEven(num * c, den * c * Pow2(e)) == RoundHalfEven(num, den * Pow2(e))
  {
    RoundScale(num, den * Pow2(e), c);
    MulAssoc(den, Pow2(e), c);
    MulComm(Pow2(e), c);
    MulAssoc(den, c, Pow2(e));
  }

  lemma NarrowScale(num: nat, den: nat, c: nat, s: nat)
    requires den > 0 && c > 0
    ensures RoundHalfEven(num * c * Pow2(s), den * c) == RoundHalfEven(num * Pow2(s), den)
  {
    RoundScale(num * Pow2(s), den, c);
    MulAssoc(num, Pow2(s), c);
    MulComm(Pow2(s), c);
    MulAssoc(num, c, Pow2(s));
  }

  lemma RoundWhole(n: nat)
    ensures RoundHalfEven(n, 1) == n
  {
  }

  /** The double nearest to a whole number `n < 2^53` is `n` itself, written as `(n * 2^s) * 2^-s`. */
  lemma NearestWhole(n: nat) returns (s: nat)
    requires n < Pow2(53)
    ensures Nearest(false, n, 1) == Finite(n * Pow2(s), -(s as int))
  {
    if n == 0 {
      s := 0;
    } else {
      var k := Log2Floor(n, 1);
      if k > 52 {
        Pow2Mono(53, k);
        assert false;
      }
      assert k == LogUp(n, 1);
      s := 52 - k;
      NearestExact(n, s);
    }
  }

  /** A whole number with `53 - s` binary digits is exact at exponent `-s`. */
  lemma NearestExact(n: nat, s: nat)
    requires n > 0 && s <= 52 && Log2Floor(n, 1) == 52 - s
    ensures Nearest(false, n, 1) == Finite(n * Pow2(s), -(s as int))
  {
    MulLe(0, n, Pow2(s));
    var q := n * Pow2(s);
    RoundWhole(q);
    var e := Max(Log2Floor(n, 1) - 52, MinExp);
    assert e == -(s as int) && -e == s;
    assert e < MaxExp;
  }

  /** `int(float(n)) == n` for every whole number below `2^53`. */
  lemma WholeRoundTrip(n: nat)
    requires n < Pow2(53)
    ensures ToInt(Nearest(false, n, 1)) == Some(n)
  {
    var s := NearestWhole(n);
    if s > 0 {
      DivModUnique(n * Pow2(s), Pow2(s), n, 0);
    }
  }

  /** `int(float(n) * k) == n * k` when the product is a whole number below `2^53`. */
  lemma WholeTimes(n: nat, k: nat)
    requires k > 0 && n * k < Pow2(53)
    ensures ToInt(Times(Nearest(false, n, 1), k)) == Some(n * k)
  {
    MulLe(1, k, n);
    var s := NearestWhole(n);
    WholeRoundTrip(n * k);
    if s == 0 {
      UnshiftedTimes(n, k);
    } else {
      ShiftedTimes(n, k, s);
    }
  }

  lemma UnshiftedTimes(n: nat, k: nat)
    requires k > 0
    ensures Times(Finite(n * Pow2(0), 0), k) == Nearest(false, n * k, 1)
  {
    var p := n * k;
    assert n * Pow2(0) == n;
    assert n * k * Pow2(0) == p;
  }

  lemma ShiftedTimes(n: nat, k: nat, s: nat)
    requires k > 0 && s > 0
    ensures Times(Finite(n * Pow2(s), -(s as int)), k) == Nearest(false, n * k, 1)
  {
    var p := Pow2(s);
    MulLe(0, n, p);
    MulLe(0, n, k);
    TimesNonNegative(n * p, s, k);
    MulAssoc(n, p, k);
    MulComm(p, k);
    MulAssoc(n, k, p);
    NearestScale(false, n * k, 1, p);
  }

  lemma TimesNonNegative(m: nat, s: nat, k: nat)
    requires k > 0 && s > 0
    ensures Times(Finite(m, -(s as int)), k) == Nearest(false, m * k, Pow2(s))
  {
  }
}
