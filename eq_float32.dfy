/**
 * `F32`: the key wrapper around one binary32 float (`f32`). Every operation
 * is the format-generic one of module OrderedFloat at the binary32 layout
 * (1 sign bit, 8 exponent bits, 23 trailing significand bits); the lemmas
 * restate its properties for `F32` with the layout's own constants.
 */
module EqFloat32 {
  import opened Orderings
  import Binary
  import OrderedFloat

  /** An `f32`, as the bit pattern that `to_bits` returns. */
  type Float = b: nat | b < 0x1_0000_0000

  /** `pub struct F32(pub f32)`. */
  datatype F32 = F32(value: Float)

  const Fmt: Binary.Format := Binary.Binary32

  /** Bit patterns named in the tests and examples. */
  const PositiveZero: Float := 0
  const NegativeZero: Float := 0x8000_0000
  const One: Float := 0x3f80_0000
  const MinusOne: Float := 0xbf80_0000
  const Five: Float := 0x40a0_0000
  const Infinity: Float := 0x7f80_0000
  const NegativeInfinity: Float := 0xff80_0000
  /** `f32::NAN`, the quiet NaN that `hash` also uses for every NaN. */
  const QuietNaN: Float := 0x7fc0_0000
  /** `-f32::NAN`. */
  const NegativeQuietNaN: Float := 0xffc0_0000

  /**
   * `f32::is_nan`. The NaNs of `f32` are the patterns above +infinity, and
   * above -infinity with the sign bit set.
   */
  predicate IsNaN(x: F32)
    ensures IsNaN(x) <==> Infinity < x.value < NegativeZero || NegativeInfinity < x.value
  {
    Binary.Binary32Constants();
    FloatIsPattern(x.value);
    Binary.IsNaN(Fmt, x.value)
  }

  /** `x == 0.0`: +0.0 or -0.0. */
  predicate IsZero(x: F32) {
    x.value == PositiveZero || x.value == NegativeZero
  }

  /** `impl PartialEq for F32`: both NaN, or neither NaN and the same bits or both zeros. */
  predicate Eq(x: F32, y: F32)
    ensures Eq(x, y) <==>
      (IsNaN(x) && IsNaN(y)) || (!IsNaN(x) && !IsNaN(y) && (x == y || (IsZero(x) && IsZero(y))))
  {
    Binary.Binary32Constants();
    FloatIsPattern(x.value);
    FloatIsPattern(y.value);
    OrderedFloat.Eq(Fmt, x.value, y.value)
  }

  /** `impl Ord for F32`: the integer order of the operands' `OrderKey`s. */
  function Cmp(x: F32, y: F32): (r: Ordering)
    ensures r == CompareInts(OrderKey(x), OrderKey(y))
  {
    Binary.Binary32Constants();
    FloatIsPattern(x.value);
    FloatIsPattern(y.value);
    OrderedFloat.Cmp(Fmt, x.value, y.value)
  }

  /** `impl PartialOrd for F32`: always `Some(cmp)`. */
  function PartialCmp(x: F32, y: F32): (r: Option<Ordering>)
    ensures r == Some(Cmp(x, y))
  {
    OrderedFloat.PartialCmp(Fmt, x.value, y.value)
  }

  /** The `u32` that `impl Hash for F32` passes to the hasher: a pattern equal to `x` under `eq`. */
  function HashKey(x: F32): (k: Float)
    ensures Eq(x, F32(k))
  {
    FloatIsPattern(x.value);
    Binary.Binary32Constants();
    OrderedFloat.HashKeyIsRepresentative(Fmt, x.value);
    OrderedFloat.HashKey(Fmt, x.value)
  }

  /** `impl From<f32> for F32`. */
  function FromFloat(f: Float): (x: F32)
    ensures ToFloat(x) == f
  {
    F32(f)
  }

  /** `impl From<F32> for f32`: the bits come out unchanged, so wrapping them again gives `x`. */
  function ToFloat(x: F32): (f: Float)
    ensures F32(f) == x
  {
    x.value
  }

  /** The derived `Default`: `F32(0.0)`, positive zero. */
  function Default(): (x: F32)
    ensures !IsNaN(x) && Binary.Decode(Fmt, x.value) == Binary.Finite(0)
    ensures !Binary.SignBit(Fmt, x.value)
  {
    Binary.Binary32Constants();
    F32(PositiveZero)
  }

  /** Every `f32` is a bit pattern of the binary32 format. */
  lemma FloatIsPattern(b: Float)
    ensures Binary.IsPattern(Fmt, b)
  {
    Binary.Binary32Constants();
  }

  // ---------------------------------------------------------------------
  // Equality
  // ---------------------------------------------------------------------

  /** `Eq for F32` is sound: reflexive (NaN included), symmetric, transitive. */
  lemma EqIsEquivalence(x: F32, y: F32, z: F32)
    ensures Eq(x, x)
    ensures Eq(x, y) <==> Eq(y, x)
    ensures Eq(x, y) && Eq(y, z) ==> Eq(x, z)
  {
    OrderedFloat.EqIsEquivalence(Fmt, x.value, y.value, z.value);
  }

  /** Any two NaNs are equal and compare Equal, whatever their sign and payload. */
  lemma NaNsAreEqual(x: F32, y: F32)
    requires IsNaN(x) && IsNaN(y)
    ensures Eq(x, y) && Cmp(x, y) == Equal
  {
    OrderedFloat.NaNsAreEqual(Fmt, x.value, y.value);
  }

  /** A NaN never equals a non-NaN value, in either order. */
  lemma NaNNeverEqualsNumber(x: F32, y: F32)
    requires IsNaN(x) && !IsNaN(y)
    ensures !Eq(x, y) && !Eq(y, x)
  {
    OrderedFloat.NaNNeverEqualsNumber(Fmt, x.value, y.value);
  }

  /** +0.0 and -0.0 are equal, compare Equal and both hash as 0. */
  lemma SignedZerosEqual()
    ensures Eq(F32(PositiveZero), F32(NegativeZero))
    ensures Cmp(F32(PositiveZero), F32(NegativeZero)) == Equal
    ensures HashKey(F32(PositiveZero)) == HashKey(F32(NegativeZero)) == 0
  {
    Binary.Binary32Constants();
    OrderedFloat.SignedZerosEqual(Fmt);
  }

  // ---------------------------------------------------------------------
  // Ordering
  // ---------------------------------------------------------------------

  /** `cmp(y, x)` is the reverse of `cmp(x, y)`. */
  lemma CmpAntisymmetric(x: F32, y: F32)
    ensures Cmp(y, x) == Cmp(x, y).Reverse()
  {
    OrderedFloat.CmpAntisymmetric(Fmt, x.value, y.value);
  }

  /** `cmp` is transitive, for `<`, `==` and their mixtures. */
  lemma CmpTransitive(x: F32, y: F32, z: F32)
    ensures Cmp(x, y) != Greater && Cmp(y, z) != Greater ==> Cmp(x, z) != Greater
    ensures Cmp(x, y) == Less && Cmp(y, z) != Greater ==> Cmp(x, z) == Less
    ensures Cmp(x, y) != Greater && Cmp(y, z) == Less ==> Cmp(x, z) == Less
  {
    OrderedFloat.CmpTransitive(Fmt, x.value, y.value, z.value);
  }

  /** `cmp` and `eq` agree, as `Ord` requires of `Eq`. */
  lemma CmpEqualIffEq(x: F32, y: F32)
    ensures Cmp(x, y) == Equal <==> Eq(x, y)
  {
    OrderedFloat.CmpEqualIffEq(Fmt, x.value, y.value);
  }

  /** NaN is the least element: below every non-NaN value (-infinity included), equal to every NaN. */
  lemma NaNIsLeast(x: F32, y: F32)
    requires IsNaN(x)
    ensures IsNaN(y) ==> Cmp(x, y) == Equal
    ensures !IsNaN(y) ==> Cmp(x, y) == Less && Cmp(y, x) == Greater
  {
    OrderedFloat.NaNIsLeast(Fmt, x.value, y.value);
  }

  /** Between non-NaN values `cmp` is `f32::partial_cmp` unchanged. */
  lemma CmpExtendsNative(x: F32, y: F32)
    requires !IsNaN(x) && !IsNaN(y)
    ensures Binary.NativePartialCmp(Fmt, x.value, y.value) == Some(Cmp(x, y))
  {
    OrderedFloat.CmpExtendsNative(Fmt, x.value, y.value);
  }

  // ---------------------------------------------------------------------
  // Hashing
  // ---------------------------------------------------------------------

  /** `hash` feeds 0x7fc0_0000 for every NaN, 0 for both zeros and the raw bits otherwise. */
  lemma HashKeyCases(x: F32)
    ensures IsNaN(x) ==> HashKey(x) == QuietNaN
    ensures x.value == PositiveZero || x.value == NegativeZero ==> HashKey(x) == 0
    ensures !IsNaN(x) && x.value != PositiveZero && x.value != NegativeZero ==> HashKey(x) == x.value
  {
    Binary.Binary32Constants();
    FloatIsPattern(x.value);
    OrderedFloat.HashKeyCases(Fmt, x.value);
  }

  /** Equal values feed the hasher the same key. */
  lemma HashKeyConsistent(x: F32, y: F32)
    requires Eq(x, y)
    ensures HashKey(x) == HashKey(y)
  {
    Binary.Binary32Constants();
    FloatIsPattern(x.value);
    FloatIsPattern(y.value);
    OrderedFloat.HashKeyConsistent(Fmt, x.value, y.value);
  }

  // ---------------------------------------------------------------------
  // Conversions
  // ---------------------------------------------------------------------

  /** Wrapping then unwrapping, and unwrapping then wrapping, give back the identical bits. */
  lemma ConversionRoundTrip(f: Float, x: F32)
    ensures ToFloat(FromFloat(f)) == f
    ensures FromFloat(ToFloat(x)) == x
  {
  }

  // ---------------------------------------------------------------------
  // The unit tests and a sorting example, on concrete bit patterns
  // ---------------------------------------------------------------------

  /** NAN == NAN, NAN != 5.0, 5.0 != NAN, 0.0 == -0.0. */
  lemma EqTest()
    ensures Eq(F32(QuietNaN), F32(QuietNaN))
    ensures !Eq(F32(QuietNaN), F32(Five)) && !Eq(F32(Five), F32(QuietNaN))
    ensures Eq(F32(PositiveZero), F32(NegativeZero))
  {
    Binary.Binary32Constants();
    assert IsNaN(F32(QuietNaN)) && !IsNaN(F32(Five));
    NaNNeverEqualsNumber(F32(QuietNaN), F32(Five));
    SignedZerosEqual();
  }

  /** NAN == NAN, NAN < 5.0, 5.0 > NAN, 0.0 == -0.0: `==` is `eq`, `<` and `>` go through `partial_cmp`. */
  lemma CmpTest()
    ensures Eq(F32(QuietNaN), F32(QuietNaN))
    ensures PartialCmp(F32(QuietNaN), F32(Five)) == Some(Less)
    ensures PartialCmp(F32(Five), F32(QuietNaN)) == Some(Greater)
    ensures Eq(F32(PositiveZero), F32(NegativeZero))
  {
    assert IsNaN(F32(QuietNaN)) && !IsNaN(F32(Five));
    NaNIsLeast(F32(QuietNaN), F32(Five));
  }

  /** hash(0.0) == hash(-0.0) and hash(NAN) == hash(-NAN): a set of both NaNs holds one key. */
  lemma HashTest()
    ensures HashKey(F32(PositiveZero)) == HashKey(F32(NegativeZero))
    ensures Eq(F32(QuietNaN), F32(NegativeQuietNaN))
    ensures HashKey(F32(QuietNaN)) == HashKey(F32(NegativeQuietNaN)) == QuietNaN
  {
    Binary.Binary32Constants();
    assert IsNaN(F32(QuietNaN)) && IsNaN(F32(NegativeQuietNaN));
    SignedZerosEqual();
    HashKeyCases(F32(QuietNaN));
    HashKeyCases(F32(NegativeQuietNaN));
  }

  /** Sorted by `cmp`: NaN < -inf < -1.0 < -0.0 == +0.0 < 1.0 < +inf. */
  lemma SortExample()
    ensures Cmp(F32(QuietNaN), F32(NegativeInfinity)) == Less
    ensures Cmp(F32(NegativeInfinity), F32(MinusOne)) == Less
    ensures Cmp(F32(MinusOne), F32(NegativeZero)) == Less
    ensures Cmp(F32(NegativeZero), F32(PositiveZero)) == Equal
    ensures Cmp(F32(PositiveZero), F32(One)) == Less
    ensures Cmp(F32(One), F32(Infinity)) == Less
  {
    Binary.Binary32Constants();
    assert IsNaN(F32(QuietNaN)) && !IsNaN(F32(NegativeInfinity));
    NaNIsLeast(F32(QuietNaN), F32(NegativeInfinity));
  }

  /**
   * Where `x` sits in the order `cmp` implements: every NaN just below the
   * most negative pattern, any other value at its bits read as a
   * signed-magnitude integer (sign bit, then 8 + 23 magnitude bits).
   */
  function OrderKey(x: F32): int {
    if IsNaN(x) then -(NegativeZero as int)
    else if x.value >= NegativeZero then -(x.value - NegativeZero)
    else x.value
  }
}
