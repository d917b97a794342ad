/**
 * The key wrapper of `F32` and `F64`, written once for any binary format:
 * equality, ordering and the hash key that make a float usable as a map,
 * set or sort key. The wrapped float is its bit pattern `a` (or `b`, `c`).
 *
 * Equality is native `==` except that NaN equals NaN; the order is native
 * `partial_cmp` where that is defined, and otherwise puts NaN below every
 * other value; the hash key is one canonical pattern per equality class.
 */
module OrderedFloat {
  import opened Orderings
  import opened Binary

  /**
   * `PartialEq::eq`: two NaNs are equal, otherwise native `==` decides. On
   * the bits: both NaN, or neither NaN and the same bits or both zeros.
   */
  predicate Eq(fmt: Format, a: nat, b: nat)
    ensures fmt.Valid() && IsPattern(fmt, a) && IsPattern(fmt, b) ==>
      (Eq(fmt, a, b) <==>
        (IsNaN(fmt, a) && IsNaN(fmt, b))
        || (!IsNaN(fmt, a) && !IsNaN(fmt, b) && (a == b || (IsZero(fmt, a) && IsZero(fmt, b)))))
  {
    if IsNaN(fmt, a) && IsNaN(fmt, b) then true else NativeEq(fmt, a, b)
  }

  /**
   * `Ord::cmp`: native `partial_cmp`, and when that is None, NaN is least and
   * NaNs tie. On the bits: the integer order of the operands' `OrderKey`s.
   */
  function Cmp(fmt: Format, a: nat, b: nat): (r: Ordering)
    ensures fmt.Valid() && IsPattern(fmt, a) && IsPattern(fmt, b) ==>
      r == CompareInts(OrderKey(fmt, a), OrderKey(fmt, b))
  {
    NativeOrderByKey(fmt, a, b);
    match NativePartialCmp(fmt, a, b)
    case Some(o) => o
    case None =>
      if IsNaN(fmt, a) && !IsNaN(fmt, b) then Less
      else if !IsNaN(fmt, a) && IsNaN(fmt, b) then Greater
      else Equal
  }

  /**
   * Where a pattern sits in the order `Cmp` implements: every NaN at one
   * point below -infinity, any other value at its bits read as a
   * signed-magnitude integer.
   */
  function OrderKey(fmt: Format, b: nat): (k: int)
    ensures IsPattern(fmt, b) ==> k >= Bottom(fmt) && (k == Bottom(fmt) <==> IsNaN(fmt, b))
  {
    if IsNaN(fmt, b) then Bottom(fmt) else SignedMagnitude(fmt, b)
  }

  /** The key of every NaN: one below the key -(2^(k-1) - 1) of the most negative pattern. */
  function Bottom(fmt: Format): int {
    -(SignWeight(fmt) as int)
  }

  /** `PartialOrd::partial_cmp`: never None, and agrees with native `partial_cmp` wherever that is defined. */
  function PartialCmp(fmt: Format, a: nat, b: nat): (r: Option<Ordering>)
    ensures r.Some? && r.value == Cmp(fmt, a, b)
    ensures NativePartialCmp(fmt, a, b).Some? ==> r == NativePartialCmp(fmt, a, b)
  {
    Some(Cmp(fmt, a, b))
  }

  /** The value `Hash::hash` feeds to the hasher: the quiet NaN for every NaN, 0 for both zeros, else the bits. */
  function HashKey(fmt: Format, b: nat): (k: nat)
    requires fmt.Valid()
    ensures IsPattern(fmt, b) ==> IsPattern(fmt, k)
  {
    if IsNaN(fmt, b) then QuietNaN(fmt)
    else if NativeEq(fmt, b, 0) then 0
    else b
  }

  // ---------------------------------------------------------------------
  // Equality
  // ---------------------------------------------------------------------

  /** `Eq` holds: the relation is reflexive (NaN included), symmetric and transitive. */
  lemma EqIsEquivalence(fmt: Format, a: nat, b: nat, c: nat)
    ensures Eq(fmt, a, a)
    ensures Eq(fmt, a, b) <==> Eq(fmt, b, a)
    ensures Eq(fmt, a, b) && Eq(fmt, b, c) ==> Eq(fmt, a, c)
  {
  }

  /** Any two NaNs are equal, whatever their sign and payload. */
  lemma NaNsAreEqual(fmt: Format, a: nat, b: nat)
    requires IsNaN(fmt, a) && IsNaN(fmt, b)
    ensures Eq(fmt, a, b) && Cmp(fmt, a, b) == Equal
  {
  }

  /** A NaN never equals a non-NaN value, in either order. */
  lemma NaNNeverEqualsNumber(fmt: Format, a: nat, b: nat)
    requires IsNaN(fmt, a) && !IsNaN(fmt, b)
    ensures !Eq(fmt, a, b) && !Eq(fmt, b, a)
  {
  }

  /** +0.0 (all bits clear) and -0.0 (only the sign bit set) are equal, compare Equal and share a hash key. */
  lemma SignedZerosEqual(fmt: Format)
    requires fmt.Valid()
    ensures Eq(fmt, 0, SignWeight(fmt)) && Cmp(fmt, 0, SignWeight(fmt)) == Equal
    ensures HashKey(fmt, 0) == HashKey(fmt, SignWeight(fmt)) == 0
  {
    var z := SignWeight(fmt);
    assert Magnitude(fmt, z) == 0 && Magnitude(fmt, 0) == 0;
    assert Decode(fmt, z) == Finite(0) == Decode(fmt, 0);
  }

  // ---------------------------------------------------------------------
  // Ordering
  // ---------------------------------------------------------------------

  /** `cmp(b, a)` is the reverse of `cmp(a, b)`. */
  lemma CmpAntisymmetric(fmt: Format, a: nat, b: nat)
    ensures Cmp(fmt, b, a) == Cmp(fmt, a, b).Reverse()
  {
  }

  /** `cmp` is transitive, for `<`, `==` and their mixtures. */
  lemma CmpTransitive(fmt: Format, a: nat, b: nat, c: nat)
    ensures Cmp(fmt, a, b) != Greater && Cmp(fmt, b, c) != Greater ==> Cmp(fmt, a, c) != Greater
    ensures Cmp(fmt, a, b) == Less && Cmp(fmt, b, c) != Greater ==> Cmp(fmt, a, c) == Less
    ensures Cmp(fmt, a, b) != Greater && Cmp(fmt, b, c) == Less ==> Cmp(fmt, a, c) == Less
  {
  }

  /** `cmp` and `eq` agree: `cmp(a, b) == Equal` exactly when `a == b`. */
  lemma CmpEqualIffEq(fmt: Format, a: nat, b: nat)
    ensures Cmp(fmt, a, b) == Equal <==> Eq(fmt, a, b)
  {
  }

  /** NaN is the unique least element: below every non-NaN value, equal to every NaN. */
  lemma NaNIsLeast(fmt: Format, a: nat, b: nat)
    requires IsNaN(fmt, a)
    ensures IsNaN(fmt, b) ==> Cmp(fmt, a, b) == Equal
    ensures !IsNaN(fmt, b) ==> Cmp(fmt, a, b) == Less && Cmp(fmt, b, a) == Greater
  {
  }

  /** Between non-NaN values `cmp` is the native comparison unchanged. */
  lemma CmpExtendsNative(fmt: Format, a: nat, b: nat)
    requires !IsNaN(fmt, a) && !IsNaN(fmt, b)
    ensures NativePartialCmp(fmt, a, b) == Some(Cmp(fmt, a, b))
  {
  }

  /** Helper for `Cmp`: between non-NaN patterns, native `partial_cmp` is the order of the keys. */
  lemma NativeOrderByKey(fmt: Format, a: nat, b: nat)
    ensures fmt.Valid() && IsPattern(fmt, a) && IsPattern(fmt, b) && !IsNaN(fmt, a) && !IsNaN(fmt, b) ==>
      NativePartialCmp(fmt, a, b) == Some(CompareInts(OrderKey(fmt, a), OrderKey(fmt, b)))
  {
    if fmt.Valid() && IsPattern(fmt, a) && IsPattern(fmt, b) && !IsNaN(fmt, a) && !IsNaN(fmt, b) {
      NativeCmpIsSignedMagnitudeOrder(fmt, a, b);
    }
  }

  // ---------------------------------------------------------------------
  // Hashing
  // ---------------------------------------------------------------------

  /** The three cases of `hash`: every NaN gives the quiet NaN, both zeros give 0, anything else its own bits. */
  lemma HashKeyCases(fmt: Format, b: nat)
    requires fmt.Valid() && IsPattern(fmt, b)
    ensures IsNaN(fmt, b) ==> HashKey(fmt, b) == QuietNaN(fmt)
    ensures !IsNaN(fmt, b) && Magnitude(fmt, b) == 0 ==> HashKey(fmt, b) == 0
    ensures !IsNaN(fmt, b) && Magnitude(fmt, b) != 0 ==> HashKey(fmt, b) == b
  {
  }

  /** Equal values feed the hasher the same key, which is what `Hash` requires of `Eq`. */
  lemma HashKeyConsistent(fmt: Format, a: nat, b: nat)
    requires fmt.Valid() && IsPattern(fmt, a) && IsPattern(fmt, b)
    requires Eq(fmt, a, b)
    ensures HashKey(fmt, a) == HashKey(fmt, b)
  {
    HashKeyCases(fmt, a);
    HashKeyCases(fmt, b);
  }

  /**
   * The hash key is a canonical representative: the key read as a float is
   * equal to the value it was computed from, and is its own key.
   */
  lemma HashKeyIsRepresentative(fmt: Format, b: nat)
    requires fmt.Valid() && IsPattern(fmt, b)
    ensures Eq(fmt, b, HashKey(fmt, b))
    ensures HashKey(fmt, HashKey(fmt, b)) == HashKey(fmt, b)
  {
    HashKeyCases(fmt, b);
    var k := HashKey(fmt, b);
    HashKeyCases(fmt, k);
  }
}
