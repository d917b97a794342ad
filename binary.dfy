/**
 * IEEE 754-2019 binary interchange formats (section 3.4) and the native
 * comparison predicates on them (section 5.11), as Rust's `f32` and `f64`
 * implement `==` and `partial_cmp`.
 *
 * A float is its bit pattern, the unsigned integer that `to_bits` returns:
 * a sign bit, then a biased exponent field of `w` bits, then a trailing
 * significand field of `t` bits. No floating-point arithmetic is modelled:
 * the value of a finite float is computed exactly, as an integer multiple
 * of the smallest positive subnormal.
 */
module Binary {
  import opened Orderings

  /** A binary format: `w` exponent bits and `t` trailing significand bits. */
  datatype Format = Format(w: nat, t: nat) {
    predicate Valid() {
      w >= 1 && t >= 1
    }

    /** The width k = 1 + w + t of the encoding. */
    function Width(): nat {
      1 + w + t
    }
  }

  /** binary32 (`f32`) and binary64 (`f64`), Table 3.5 of IEEE 754-2019. */
  const Binary32: Format := Format(8, 23)
  const Binary64: Format := Format(11, 52)

  function Pow2(n: nat): (r: nat)
    ensures r >= 1
  {
    if n == 0 then 1 else 2 * Pow2(n - 1)
  }

  /** The bit patterns of `fmt`: the integers below 2^k. */
  predicate IsPattern(fmt: Format, b: nat) {
    b < Pow2(fmt.Width())
  }

  /** The weight 2^(k-1) of the sign bit. */
  function SignWeight(fmt: Format): nat {
    Pow2(fmt.w + fmt.t)
  }

  predicate SignBit(fmt: Format, b: nat) {
    b >= SignWeight(fmt)
  }

  /** The pattern with its sign bit cleared. */
  function Magnitude(fmt: Format, b: nat): nat {
    if SignBit(fmt, b) then b - SignWeight(fmt) else b
  }

  function BiasedExponent(fmt: Format, b: nat): nat {
    DivModBounds(Magnitude(fmt, b), Pow2(fmt.t));
    Magnitude(fmt, b) / Pow2(fmt.t)
  }

  function TrailingSignificand(fmt: Format, b: nat): nat {
    Magnitude(fmt, b) % Pow2(fmt.t)
  }

  /** The all-ones exponent field, 2^w - 1. */
  function MaxExponent(fmt: Format): nat {
    Pow2(fmt.w) - 1
  }

  /**
   * `is_nan`: exponent field all ones, trailing significand non-zero. The
   * NaNs are exactly the patterns whose magnitude exceeds that of infinity.
   */
  predicate IsNaN(fmt: Format, b: nat)
    ensures IsPattern(fmt, b) ==> (IsNaN(fmt, b) <==> Magnitude(fmt, b) > MaxExponent(fmt) * Pow2(fmt.t))
  {
    NaNFieldsAboveInfinity(fmt, b);
    BiasedExponent(fmt, b) == MaxExponent(fmt) && TrailingSignificand(fmt, b) != 0
  }

  predicate IsInfinite(fmt: Format, b: nat) {
    BiasedExponent(fmt, b) == MaxExponent(fmt) && TrailingSignificand(fmt, b) == 0
  }

  /** The quiet NaN with no payload: exponent all ones, only the top significand bit set. */
  function QuietNaN(fmt: Format): (r: nat)
    requires fmt.Valid()
    ensures IsPattern(fmt, r) && IsNaN(fmt, r) && !SignBit(fmt, r)
  {
    QuietNaNFields(fmt);
    MaxExponent(fmt) * Pow2(fmt.t) + Pow2(fmt.t - 1)
  }

  /**
   * The absolute value of a float with exponent field `e` and trailing
   * significand `f`, in multiples of 2^(emin - t), the smallest subnormal:
   * f for a subnormal (e = 0), (2^t + f) * 2^(e - 1) otherwise.
   */
  function ScaledValue(fmt: Format, e: nat, f: nat): nat {
    if e == 0 then f else (Pow2(fmt.t) + f) * Pow2(e - 1)
  }

  /** What a bit pattern denotes. `units` is exact; -0.0 and +0.0 both denote Finite(0). */
  datatype Datum = NaN | Infinity(negative: bool) | Finite(units: int)

  /**
   * The datum a pattern denotes (section 3.4). Only +0.0 and -0.0, the
   * patterns whose magnitude bits are all zero, denote zero.
   */
  function Decode(fmt: Format, b: nat): (r: Datum)
    ensures fmt.Valid() ==> (r == Finite(0) <==> IsZero(fmt, b))
  {
    ZeroFields(fmt, b);
    if IsNaN(fmt, b) then NaN
    else if IsInfinite(fmt, b) then Infinity(SignBit(fmt, b))
    else
      var u: int := ScaledValue(fmt, BiasedExponent(fmt, b), TrailingSignificand(fmt, b));
      Finite(if SignBit(fmt, b) then -u else u)
  }

  /** The order of section 5.11 on the non-NaN data: -inf < every finite value < +inf. */
  function CompareData(x: Datum, y: Datum): (r: Ordering)
    requires !x.NaN? && !y.NaN?
    ensures r == Equal <==> x == y
    ensures x == Infinity(true) || y == Infinity(false) ==> r != Greater
  {
    if x.Infinity? && y.Infinity? then
      (if x.negative == y.negative then Equal else if x.negative then Less else Greater)
    else if x.Infinity? then
      (if x.negative then Less else Greater)
    else if y.Infinity? then
      (if y.negative then Greater else Less)
    else
      CompareInts(x.units, y.units)
  }

  /** `f32 == f32` (compareQuietEqual): false when either is NaN, and the sign of zero is ignored. */
  predicate NativeEq(fmt: Format, a: nat, b: nat)
    ensures fmt.Valid() && IsPattern(fmt, a) && IsPattern(fmt, b) ==>
      (NativeEq(fmt, a, b) <==> !IsNaN(fmt, a) && !IsNaN(fmt, b) && (a == b || (IsZero(fmt, a) && IsZero(fmt, b))))
  {
    DecodeEqualIffSameBits(fmt, a, b);
    var x, y := Decode(fmt, a), Decode(fmt, b);
    !x.NaN? && !y.NaN? && x == y
  }

  /** `f32::partial_cmp`: None ("unordered") when either operand is NaN. */
  function NativePartialCmp(fmt: Format, a: nat, b: nat): (r: Option<Ordering>)
    ensures r == Some(Equal) <==> NativeEq(fmt, a, b)
  {
    var x, y := Decode(fmt, a), Decode(fmt, b);
    if x.NaN? || y.NaN? then None else Some(CompareData(x, y))
  }

  /** +0.0 or -0.0: every bit but the sign bit clear. */
  predicate IsZero(fmt: Format, b: nat) {
    Magnitude(fmt, b) == 0
  }

  /** The pattern read as a signed-magnitude integer: both zeros give 0. */
  function SignedMagnitude(fmt: Format, b: nat): int {
    var m: int := Magnitude(fmt, b);
    if SignBit(fmt, b) then -m else m
  }

  // ---------------------------------------------------------------------
  // The native comparison is the signed-magnitude order of the bits.
  // ---------------------------------------------------------------------

  /**
   * For two non-NaN patterns, the native comparison of section 5.11 is
   * exactly the comparison of their bits read as signed-magnitude integers.
   */
  lemma NativeCmpIsSignedMagnitudeOrder(fmt: Format, a: nat, b: nat)
    requires fmt.Valid() && IsPattern(fmt, a) && IsPattern(fmt, b)
    requires !IsNaN(fmt, a) && !IsNaN(fmt, b)
    ensures NativePartialCmp(fmt, a, b)
         == Some(CompareInts(SignedMagnitude(fmt, a), SignedMagnitude(fmt, b)))
  {
    DataOrderIsSignedScaledOrder(fmt, a, b);
    SignedScaledOrderIsSignedMagnitudeOrder(fmt, a, b);
  }

  /** Two non-NaN patterns denote the same datum exactly when they are the same bits or both zeros. */
  lemma DecodeEqualIffSameBits(fmt: Format, a: nat, b: nat)
    ensures fmt.Valid() && IsPattern(fmt, a) && IsPattern(fmt, b) && !IsNaN(fmt, a) && !IsNaN(fmt, b) ==>
      (Decode(fmt, a) == Decode(fmt, b) <==> a == b || (IsZero(fmt, a) && IsZero(fmt, b)))
  {
    if fmt.Valid() && IsPattern(fmt, a) && IsPattern(fmt, b) && !IsNaN(fmt, a) && !IsNaN(fmt, b) {
      if Decode(fmt, a) == Decode(fmt, b) {
        DecodeInjective(fmt, a, b);
      }
    }
  }

  // ---------------------------------------------------------------------
  // Helpers.
  // ---------------------------------------------------------------------

  /** The exponent field is all ones and the significand non-zero exactly above infinity's magnitude. */
  lemma NaNFieldsAboveInfinity(fmt: Format, b: nat)
    ensures IsPattern(fmt, b) ==>
      (BiasedExponent(fmt, b) == MaxExponent(fmt) && TrailingSignificand(fmt, b) != 0
       <==> Magnitude(fmt, b) > MaxExponent(fmt) * Pow2(fmt.t))
  {
    if !IsPattern(fmt, b) {
      return;
    }
    var p, m, inf := Pow2(fmt.t), Magnitude(fmt, b), MaxExponent(fmt) * Pow2(fmt.t);
    DivModBounds(m, p);
    DivModOf(MaxExponent(fmt), 0, p);
    if inf < m {
      DivLex(inf, m, p);
      ExponentBound(fmt, b);
    } else if m < inf {
      DivLex(m, inf, p);
    }
  }

  /** Two distinct patterns denote the same datum only when both are zeros. */
  lemma DecodeInjective(fmt: Format, a: nat, b: nat)
    requires fmt.Valid() && IsPattern(fmt, a) && IsPattern(fmt, b)
    requires !IsNaN(fmt, a) && Decode(fmt, a) == Decode(fmt, b)
    ensures a == b || (Magnitude(fmt, a) == 0 && Magnitude(fmt, b) == 0)
  {
    DataOrderIsSignedScaledOrder(fmt, a, b);
    SignedScaledOrderIsSignedMagnitudeOrder(fmt, a, b);
    assert CompareData(Decode(fmt, a), Decode(fmt, b)) == Equal;
    assert SignedMagnitude(fmt, a) == SignedMagnitude(fmt, b);
  }

  /** The magnitude bits are all zero exactly when the value is finite and its absolute value is 0. */
  lemma ZeroFields(fmt: Format, b: nat)
    ensures fmt.Valid() ==>
      (Magnitude(fmt, b) == 0 <==> BiasedExponent(fmt, b) != MaxExponent(fmt) && ScaledAbs(fmt, b) == 0)
  {
    ScaledAbsZero(fmt, b);
    if fmt.Valid() && Magnitude(fmt, b) == 0 {
      assert BiasedExponent(fmt, b) == 0;
    }
  }

  /** The absolute value, in units, of a pattern. */
  function ScaledAbs(fmt: Format, b: nat): nat {
    ScaledValue(fmt, BiasedExponent(fmt, b), TrailingSignificand(fmt, b))
  }

  function SignedScaled(fmt: Format, b: nat): int {
    var s: int := ScaledAbs(fmt, b);
    if SignBit(fmt, b) then -s else s
  }

  lemma {:induction false} Pow2Add(m: nat, n: nat)
    ensures Pow2(m + n) == Pow2(m) * Pow2(n)
  {
    if n > 0 {
      Pow2Add(m, n - 1);
      calc {
        Pow2(m + n);
        2 * Pow2(m + n - 1);
        2 * (Pow2(m) * Pow2(n - 1));
        Pow2(m) * (2 * Pow2(n - 1));
      }
    }
  }

  /** The powers of two that the binary32 layout uses: fields 1 + 8 + 23 bits. */
  lemma Binary32Constants()
    ensures Binary32.Valid() && MaxExponent(Binary32) == 0xff
    ensures Pow2(Binary32.t - 1) == 0x40_0000 && Pow2(Binary32.t) == 0x80_0000
    ensures SignWeight(Binary32) == 0x8000_0000 && Pow2(Binary32.Width()) == 0x1_0000_0000
  {
    assert Pow2(8) == 0x100;
    Pow2Add(11, 11);
    Pow2Add(22, 1);
    Pow2Add(23, 8);
    Pow2Add(31, 1);
  }

  /** The powers of two that the binary64 layout uses: fields 1 + 11 + 52 bits. */
  lemma Binary64Constants()
    ensures Binary64.Valid() && MaxExponent(Binary64) == 0x7ff
    ensures Pow2(Binary64.t - 1) == 0x8_0000_0000_0000 && Pow2(Binary64.t) == 0x10_0000_0000_0000
    ensures SignWeight(Binary64) == 0x8000_0000_0000_0000
    ensures Pow2(Binary64.Width()) == 0x1_0000_0000_0000_0000
  {
    assert Pow2(7) == 0x80 && Pow2(11) == 0x800;
    Pow2Add(11, 11);
    Pow2Add(22, 22);
    Pow2Add(44, 7);
    Pow2Add(51, 1);
    Pow2Add(52, 11);
    Pow2Add(63, 1);
  }

  lemma {:induction false} Pow2Monotone(m: nat, n: nat)
    requires m <= n
    ensures Pow2(m) <= Pow2(n)
  {
    if m < n {
      Pow2Monotone(m, n - 1);
    }
  }

  lemma QuietNaNFields(fmt: Format)
    requires fmt.Valid()
    ensures var r := MaxExponent(fmt) * Pow2(fmt.t) + Pow2(fmt.t - 1);
      && IsPattern(fmt, r) && !SignBit(fmt, r)
      && BiasedExponent(fmt, r) == MaxExponent(fmt)
      && TrailingSignificand(fmt, r) == Pow2(fmt.t - 1)
  {
    var p, h := Pow2(fmt.t), Pow2(fmt.t - 1);
    var r := MaxExponent(fmt) * p + h;
    assert p == 2 * h;
    Pow2Add(fmt.w, fmt.t);
    assert Pow2(fmt.w) * p == MaxExponent(fmt) * p + p;
    assert r < Pow2(fmt.w) * p;
    Pow2Monotone(fmt.w + fmt.t, fmt.Width());
    DivModOf(MaxExponent(fmt), h, p);
  }

  lemma DivModBounds(m: nat, d: nat)
    requires 0 < d
    ensures 0 <= m / d && m % d < d && m == (m / d) * d + m % d
  {
  }

  lemma MulLeftMonotone(x: nat, y: nat, z: nat)
    requires x <= y
    ensures x * z <= y * z
  {
  }

  lemma MulStrictMonotone(x: nat, y: nat, z: nat)
    requires x < y && 0 < z
    ensures x * z < y * z
  {
    MulLeftMonotone(x + 1, y, z);
  }

  /** Division by d recovers the quotient and remainder of q * d + r. */
  lemma DivModOf(q: nat, r: nat, d: nat)
    requires r < d
    ensures (q * d + r) / d == q && (q * d + r) % d == r
  {
    var x := q * d + r;
    var q', r' := x / d, x % d;
    assert x == q' * d + r';
    if q' > q {
      MulLeftMonotone(q + 1, q', d);
      assert false;
    } else if q' < q {
      MulLeftMonotone(q' + 1, q, d);
      assert false;
    }
  }

  /** Dividing by d maps the order on naturals to the lexicographic order on (quotient, remainder). */
  lemma DivLex(a: nat, b: nat, d: nat)
    requires 0 < d && a < b
    ensures a / d < b / d || (a / d == b / d && a % d < b % d)
  {
    var qa, qb := a / d, b / d;
    assert a == qa * d + a % d && b == qb * d + b % d;
    if qa > qb {
      MulLeftMonotone(qb + 1, qa, d);
      assert false;
    }
  }

  lemma DivBelow(m: nat, a: nat, d: nat)
    requires 0 < d && m < a * d
    ensures m / d < a
  {
    DivModBounds(m, d);
    if m / d >= a {
      MulLeftMonotone(a, m / d, d);
    }
  }

  /** Every pattern's exponent field fits in w bits. */
  lemma ExponentBound(fmt: Format, b: nat)
    requires IsPattern(fmt, b)
    ensures BiasedExponent(fmt, b) <= MaxExponent(fmt)
  {
    Pow2Add(1, fmt.w + fmt.t);
    Pow2Add(fmt.w, fmt.t);
    assert Magnitude(fmt, b) < Pow2(fmt.w) * Pow2(fmt.t);
    DivBelow(Magnitude(fmt, b), Pow2(fmt.w), Pow2(fmt.t));
  }

  /** ScaledValue grows strictly with (e, f) in lexicographic order. */
  lemma ScaledValueIncreasing(fmt: Format, e1: nat, f1: nat, e2: nat, f2: nat)
    requires f1 < Pow2(fmt.t) && f2 < Pow2(fmt.t)
    requires e1 < e2 || (e1 == e2 && f1 < f2)
    ensures ScaledValue(fmt, e1, f1) < ScaledValue(fmt, e2, f2)
  {
    var p := Pow2(fmt.t);
    if e1 == e2 {
      if e1 > 0 {
        MulStrictMonotone(p + f1, p + f2, Pow2(e1 - 1));
      }
    } else {
      BelowBinade(fmt, e1, f1);
      AboveBinadeStart(fmt, e1 + 1, e2, f2);
    }
  }

  /** Every value with exponent field e lies below 2^t * 2^e, where exponent field e + 1 starts. */
  lemma BelowBinade(fmt: Format, e: nat, f: nat)
    requires f < Pow2(fmt.t)
    ensures ScaledValue(fmt, e, f) < Pow2(fmt.t) * Pow2(e)
  {
    var p := Pow2(fmt.t);
    if e == 0 {
      assert Pow2(e) == 1;
    } else {
      var s := Pow2(e - 1);
      assert Pow2(e) == 2 * s;
      MulStrictMonotone(p + f, 2 * p, s);
      Reassociate(p, s);
    }
  }

  lemma Reassociate(p: nat, s: nat)
    ensures (2 * p) * s == p * (2 * s)
  {
  }

  /** Every value with exponent field e2 >= e1 >= 1 is at least 2^t * 2^(e1 - 1). */
  lemma AboveBinadeStart(fmt: Format, e1: nat, e2: nat, f2: nat)
    requires 1 <= e1 <= e2
    ensures Pow2(fmt.t) * Pow2(e1 - 1) <= ScaledValue(fmt, e2, f2)
  {
    var p := Pow2(fmt.t);
    Pow2Monotone(e1 - 1, e2 - 1);
    MulLeftMonotone(Pow2(e1 - 1), Pow2(e2 - 1), p);
    MulLeftMonotone(p, p + f2, Pow2(e2 - 1));
  }

  /** A larger magnitude denotes a strictly larger absolute value. */
  lemma ScaledAbsIncreasing(fmt: Format, a: nat, b: nat)
    requires Magnitude(fmt, a) < Magnitude(fmt, b)
    ensures ScaledAbs(fmt, a) < ScaledAbs(fmt, b)
  {
    DivLex(Magnitude(fmt, a), Magnitude(fmt, b), Pow2(fmt.t));
    ScaledValueIncreasing(fmt, BiasedExponent(fmt, a), TrailingSignificand(fmt, a),
                          BiasedExponent(fmt, b), TrailingSignificand(fmt, b));
  }

  lemma ScaledAbsZero(fmt: Format, b: nat)
    ensures ScaledAbs(fmt, b) == 0 <==> Magnitude(fmt, b) == 0
  {
    if Magnitude(fmt, b) != 0 {
      assert Magnitude(fmt, 0) == 0 && ScaledAbs(fmt, 0) == 0;
      ScaledAbsIncreasing(fmt, 0, b);
    }
  }

  /** The section 5.11 order of the decoded data is the order of the signed exact values. */
  lemma DataOrderIsSignedScaledOrder(fmt: Format, a: nat, b: nat)
    requires fmt.Valid() && IsPattern(fmt, a) && IsPattern(fmt, b)
    requires !IsNaN(fmt, a) && !IsNaN(fmt, b)
    ensures CompareData(Decode(fmt, a), Decode(fmt, b))
         == CompareInts(SignedScaled(fmt, a), SignedScaled(fmt, b))
  {
    ExponentBound(fmt, a);
    ExponentBound(fmt, b);
    var p := Pow2(fmt.t);
    if IsInfinite(fmt, a) && !IsInfinite(fmt, b) {
      InfiniteAbove(fmt, b, a);
    } else if !IsInfinite(fmt, a) && IsInfinite(fmt, b) {
      InfiniteAbove(fmt, a, b);
    } else if IsInfinite(fmt, a) && IsInfinite(fmt, b) {
      assert ScaledAbs(fmt, a) == ScaledAbs(fmt, b);
      assert Magnitude(fmt, a) != 0;
      ScaledAbsZero(fmt, a);
    }
  }

  /** An infinity's exact-value stand-in exceeds every finite value. */
  lemma InfiniteAbove(fmt: Format, a: nat, b: nat)
    requires fmt.Valid() && IsPattern(fmt, a)
    requires !IsNaN(fmt, a) && !IsInfinite(fmt, a) && IsInfinite(fmt, b)
    ensures ScaledAbs(fmt, a) < ScaledAbs(fmt, b)
  {
    ExponentBound(fmt, a);
    if Magnitude(fmt, b) <= Magnitude(fmt, a) {
      if Magnitude(fmt, b) < Magnitude(fmt, a) {
        DivLex(Magnitude(fmt, b), Magnitude(fmt, a), Pow2(fmt.t));
      }
      assert false;
    }
    ScaledAbsIncreasing(fmt, a, b);
  }

  lemma SignedScaledOrderIsSignedMagnitudeOrder(fmt: Format, a: nat, b: nat)
    ensures CompareInts(SignedScaled(fmt, a), SignedScaled(fmt, b))
         == CompareInts(SignedMagnitude(fmt, a), SignedMagnitude(fmt, b))
  {
    ScaledAbsZero(fmt, a);
    ScaledAbsZero(fmt, b);
    if Magnitude(fmt, a) < Magnitude(fmt, b) {
      ScaledAbsIncreasing(fmt, a, b);
    } else if Magnitude(fmt, b) < Magnitude(fmt, a) {
      ScaledAbsIncreasing(fmt, b, a);
    }
  }
}
