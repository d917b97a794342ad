/**
 * `F64`: the key wrapper around one binary64 float (`f64`). Every operation
 * is the format-generic one of module OrderedFloat at the binary64 layout
 * (1 sign bit, 11 exponent bits, 52 trailing significand bits); the lemmas
 * restate its properties for `F64` with the layout's own constants.
 */
module EqFloat64 {
  import opened Orderings
  import Binary
  import OrderedFloat

  /** An `f64`, as the bit pattern that `to_bits` returns. */
  type Float = b: nat | b < 0x1_0000_0000_0000_0000

  /** `pub struct F64(pub f64)`. */
  datatype F64 = F64(value: Float)

  const Fmt: Binary.Format := Binary.Binary64

  /** Bit patterns named in the tests and examples. */
  const PositiveZero: Float := 0
  const NegativeZero: Float := 0x8000_0000_0000_0000
  const One: Float := 0x3ff0_0000_0000_0000
  const MinusOne: Float := 0xbff0_0000_0000_0000
  const Five: Float := 0x4014_0000_0000_0000
  const Infinity: Float := 0x7ff0_0000_0000_0000
  const NegativeInfinity: Float := 0xfff0_0000_0000_0000
  /** `f64::NAN`, the quiet NaN that `hash` also uses for every NaN. */
  const QuietNaN: Float := 0x7ff8_0000_0000_0000
  /** `-f64::NAN`. */
  const NegativeQuietNaN: Float := 0xfff8_0000_0000_0000

  /**
   * `f64::is_nan`. The NaNs of `f64` are the patterns above +infinity, and
   * above -infinity with the sign bit set.
   */
  predicate IsNaN(x: F64)
    ensures IsNaN(x) <==> Infinity < x.value < NegativeZero || NegativeInfinity < x.value
  {
    Binary.Binary64Constants();
    FloatIsPattern(x.value);
    Binary.IsNaN(Fmt, x.value)
  }

  /** `x == 0.0`: +0.0 or -0.0. */
  predicate IsZero(x: F64) {
    x.value == PositiveZero || x.value == NegativeZero
  }

  /** `impl PartialEq for F64`: both NaN, or neither NaN and the same bits or both zeros. */
  predicate Eq(x: F64, y: F64)
    ensures Eq(x, y) <==>
      (IsNaN(x) && IsNaN(y)) || (!IsNaN(x) && !IsNaN(y) && (x == y || (IsZero(x) && IsZero(y))))
  {
    Binary.Binary64Constants();
    FloatIsPattern(x.value);
    FloatIsPattern(y.value);
    OrderedFloat.Eq(Fmt, x.value, y.value)
  }

  /** `impl Ord for F64`: the integer order of the operands' `OrderKey`s. */
  function Cmp(x: F64, y: F64): (r: Ordering)
    ensures r == CompareInts(OrderKey(x), OrderKey(y))
  {
    Binary.Binary64Constants();
    FloatIsPattern(x.value);
    FloatIsPattern(y.value);
    OrderedFloat.Cmp(Fmt, x.value, y.value)
  }

  /** `impl PartialOrd for F64`: always `Some(cmp)`. */
  function PartialCmp(x: F64, y: F64): (r: Option<Ordering>)
    ensures r == Some(Cmp(x, y))
  {
    OrderedFloat.PartialCmp(Fmt, x.value, y.value)
  }

  /** The `u64` that `impl Hash for F64` passes to the hasher: a pattern equal to `x` under `eq`. */
  function HashKey(x: F64): (k: Float)
    ensures Eq(x, F64(k))
  {
    FloatIsPattern(x.value);
    Binary.Binary64Constants();
    OrderedFloat.HashKeyIsRepresentative(Fmt, x.value);
    OrderedFloat.HashKey(Fmt, x.value)
  }

  /** `impl From<f64> for F64`. */
  function FromFloat(f: Float): (x: F64)
    ensures ToFloat(x) == f
  {
    F64(f)
  }

  /** `impl From<F64> for f64`: the bits come out unchanged, so wrapping them again gives `x`. */
  function ToFloat(x: F64): (f: Float)
    ensures F64(f) == x
  {
    x.value
  }

  /** The derived `Default`: `F64(0.0)`, positive zero. */
  function Default(): (x: F64)
    ensures !IsNaN(x) && Binary.Decode(Fmt, x.value) == Binary.Finite(0)
    ensures !Binary.SignBit(Fmt, x.value)
  {
    Binary.Binary64Constants();
    F64(PositiveZero)
  }

  /** Every `f64` is a bit pattern of the binary64 format. */
  lemma FloatIsPattern(b: Float)
    ensures Binary.IsPattern(Fmt, b)
  {
    Binary.Binary64Constants();
  }

  // ---------------------------------------------------------------------
  // Equality
  // ---------------------------------------------------------------------

  /** `Eq for F64` is sound: reflexive (NaN included), symmetric, transitive. */
  lemma EqIsEquivalence(x: F64, y: F64, z: F64)
    ensures Eq(x, x)
    ensures Eq(x, y) <==> Eq(y, x)
    ensures Eq(x, y) && Eq(y, z) ==> Eq(x, z)
  {
    OrderedFloat.EqIsEquivalence(Fmt, x.value, y.value, z.value);
  }

  /** Any two NaNs are equal and compare Equal, whatever their sign and payload. */
  lemma NaNsAreEqual(x: F64, y: F64)
    requires IsNaN(x) && IsNaN(y)
    ensures Eq(x, y) && Cmp(x, y) == Equal
  {
    OrderedFloat.NaNsAreEqual(Fmt, x.value, y.value);
  }

  /** A NaN never equals a non-NaN value, in either order. */
  lemma NaNNeverEqualsNumber(x: F64, y: F64)
    requires IsNaN(x) && !IsNaN(y)
    ensures !Eq(x, y) && !Eq(y, x)
  {
    OrderedFloat.NaNNeverEqualsNumber(Fmt, x.value, y.value);
  }

  /** +0.0 and -0.0 are equal, compare Equal and both hash as 0. */
  lemma SignedZerosEqual()
    ensures Eq(F64(PositiveZero), F64(NegativeZero))
    ensures Cmp(F64(PositiveZero), F64(NegativeZero)) == Equal
    ensures HashKey(F64(PositiveZero)) == HashKey(F64(NegativeZero)) == 0
  {
    Binary.Binary64Constants();
    OrderedFloat.SignedZerosEqual(Fmt);
  }

  // ---------------------------------------------------------------------
  // Ordering
  // ---------------------------------------------------------------------

  /** `cmp(y, x)` is the reverse of `cmp(x, y)`. */
  lemma CmpAntisymmetric(x: F64, y: F64)
    ensures Cmp(y, x) == Cmp(x, y).Reverse()
  {
    OrderedFloat.CmpAntisymmetric(Fmt, x.value, y.value);
  }

  /** `cmp` is transitive, for `<`, `==` and their mixtures. */
  lemma CmpTransitive(x: F64, y: F64, z: F64)
    ensures Cmp(x, y) != Greater && Cmp(y, z) != Greater ==> Cmp(x, z) != Greater
    ensures Cmp(x, y) == Less && Cmp(y, z) != Greater ==> Cmp(x, z) == Less
    ensures Cmp(x, y) != Greater && Cmp(y, z) == Less ==> Cmp(x, z) == Less
  {
    OrderedFloat.CmpTransitive(Fmt, x.value, y.value, z.value);
  }

  /** `cmp` and `eq` agree, as `Ord` requires of `Eq`. */
  lemma CmpEqualIffEq(x: F64, y: F64)
    ensures Cmp(x, y) == Equal <==> Eq(x, y)
  {
    OrderedFloat.CmpEqualIffEq(Fmt, x.value, y.value);
  }

  /** NaN is the least element: below every non-NaN value (-infinity included), equal to every NaN. */
  lemma NaNIsLeast(x: F64, y: F64)
    requires IsNaN(x)
    ensures IsNaN(y) ==> Cmp(x, y) == Equal
    ensures !IsNaN(y) ==> Cmp(x, y) == Less && Cmp(y, x) == Greater
  {
    OrderedFloat.NaNIsLeast(Fmt, x.value, y.value);
  }

  /** Between non-NaN values `cmp` is `f64::partial_cmp` unchanged. */
  lemma CmpExtendsNative(x: F64, y: F64)
    requires !IsNaN(x) && !IsNaN(y)
    ensures Binary.NativePartialCmp(Fmt, x.value, y.value) == Some(Cmp(x, y))
  {
    OrderedFloat.CmpExtendsNative(Fmt, x.value, y.value);
  }

  // ---------------------------------------------------------------------
  // Hashing
  // ---------------------------------------------------------------------

  /** `hash` feeds 0x7ff8_0000_0000_0000 for every NaN, 0 for both zeros and the raw bits otherwise. */
  lemma HashKeyCases(x: F64)
    ensures IsNaN(x) ==> HashKey(x) == QuietNaN
    ensures x.value == PositiveZero || x.value == NegativeZero ==> HashKey(x) == 0
    ensures !IsNaN(x) && x.value != PositiveZero && x.value != NegativeZero ==> HashKey(x) == x.value
  {
    Binary.Binary64Constants();
    FloatIsPattern(x.value);
    OrderedFloat.HashKeyCases(Fmt, x.value);
  }

  /** Equal values feed the hasher the same key. */
  lemma HashKeyConsistent(x: F64, y: F64)
    requires Eq(x, y)
    ensures HashKey(x) == HashKey(y)
  {
    Binary.Binary64Constants();
    FloatIsPattern(x.value);
    FloatIsPattern(y.value);
    OrderedFloat.HashKeyConsistent(Fmt, x.value, y.value);
  }

  // ---------------------------------------------------------------------
  // Conversions
  // ---------------------------------------------------------------------

  /** Wrapping then unwrapping, and unwrapping then wrapping, give back the identical bits. */
  lemma ConversionRoundTrip(f: Float, x: F64)
    ensures ToFloat(FromFloat(f)) == f
    ensures FromFloat(ToFloat(x)) == x
  {
  }

  // ---------------------------------------------------------------------
  // The unit tests and a sorting example, on concrete bit patterns
  // ---------------------------------------------------------------------

  /** NAN == NAN, NAN != 5.0, 5.0 != NAN, 0.0 == -0.0. */
  lemma EqTest()
    ensures Eq(F64(QuietNaN), F64(QuietNaN))
    ensures !Eq(F64(QuietNaN), F64(Five)) && !Eq(F64(Five), F64(QuietNaN))
    ensures Eq(F64(PositiveZero), F64(NegativeZero))
  {
    Binary.Binary64Constants();
    assert IsNaN(F64(QuietNaN)) && !IsNaN(F64(Five));
    NaNNeverEqualsNumber(F64(QuietNaN), F64(Five));
    SignedZerosEqual();
  }

  /** NAN == NAN, NAN < 5.0, 5.0 > NAN, 0.0 == -0.0: `==` is `eq`, `<` and `>` go through `partial_cmp`. */
  lemma CmpTest()
    ensures Eq(F64(QuietNaN), F64(QuietNaN))
    ensures PartialCmp(F64(QuietNaN), F64(Five)) == Some(Less)
    ensures PartialCmp(F64(Five), F64(QuietNaN)) == Some(Greater)
    ensures Eq(F64(PositiveZero), F64(NegativeZero))
  {
    assert IsNaN(F64(QuietNaN)) && !IsNaN(F64(Five));
    NaNIsLeast(F64(QuietNaN), F64(Five));
  }

  /** hash(0.0) == hash(-0.0) and hash(NAN) == hash(-NAN): a set of both NaNs holds one key. */
  lemma HashTest()
    ensures HashKey(F64(PositiveZero)) == HashKey(F64(NegativeZero))
    ensures Eq(F64(QuietNaN), F64(NegativeQuietNaN))
    ensures HashKey(F64(QuietNaN)) == HashKey(F64(NegativeQuietNaN)) == QuietNaN
  {
    Binary.Binary64Constants();
    assert IsNaN(F64(QuietNaN)) && IsNaN(F64(NegativeQuietNaN));
    SignedZerosEqual();
    HashKeyCases(F64(QuietNaN));
    HashKeyCases(F64(NegativeQuietNaN));
  }

  /** Sorted by `cmp`: NaN < -inf < -1.0 < -0.0 == +0.0 < 1.0 < +inf. */
  lemma SortExample()
    ensures Cmp(F64(QuietNaN), F64(NegativeInfinity)) == Less
    ensures Cmp(F64(NegativeInfinity), F64(MinusOne)) == Less
    ensures Cmp(F64(MinusOne), F64(NegativeZero)) == Less
    ensures Cmp(F64(NegativeZero), F64(PositiveZero)) == Equal
    ensures Cmp(F64(PositiveZero), F64(One)) == Less
    ensures Cmp(F64(One), F64(Infinity)) == Less
  {
    Binary.Binary64Constants();
    assert IsNaN(F64(QuietNaN)) && !IsNaN(F64(NegativeInfinity));
    NaNIsLeast(F64(QuietNaN), F64(NegativeInfinity));
  }

  /**
   * Where `x` sits in the order `cmp` implements: every NaN just below the
   * most negative pattern, any other value at its bits read as a
   * signed-magnitude integer (sign bit, then 11 + 52 magnitude bits).
   */
  function OrderKey(x: F64): int {
    if IsNaN(x) then -(NegativeZero as int)
    else if x.value >= NegativeZero then -(x.value - NegativeZero)
    else x.value
  }
}
