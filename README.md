# eq-float, modelled in Dafny

A model of the `eq-float` crate: the key wrappers `F32` and `F64` (`src/lib.rs`).
Each wraps one IEEE 754 binary32 or binary64 float and redefines three relations so
that the float can be a map, set or sort key:

- **equality** is native `==`, except that NaN equals NaN. Native `==` already makes
  +0.0 equal to -0.0, so the relation is an equivalence;
- **ordering** (`cmp`) is native `partial_cmp` where that is defined; otherwise NaN is
  the least value and ties with every other NaN, so the order is total. `partial_cmp`
  is always `Some(cmp)`;
- **hashing** feeds the hasher one canonical key per equality class. Every NaN gives the
  quiet NaN `0x7fc00000` / `0x7ff8000000000000`, both zeros give 0, and any other value
  gives its raw bits.

A float is modelled as its bit pattern, the integer `to_bits` returns, laid out as in
section 3.4 of IEEE 754-2019: sign, biased exponent, trailing significand.

- Module `Binary` decodes a pattern into NaN, a signed infinity, or a finite value. The
  finite value is computed exactly, as an integer multiple of the smallest subnormal.
- The native `==` and `partial_cmp` of section 5.11 are defined on that decoding.
- `Binary` then proves that, between non-NaN patterns, this comparison is the order of
  the bits read as signed-magnitude integers.

Module `OrderedFloat` defines `eq`, `cmp`, `partial_cmp` and the hash key once, for any
binary format, and proves the crate's properties about them. In `src/lib.rs` the two
widths are line-for-line the same code. Modules `EqFloat32` and `EqFloat64`
instantiate the generic module at binary32 and binary64. They restate every property
with the width's own constants, and they also state the crate's unit tests as lemmas.

Files: `orderings.dfy` (`Ordering`, `Option`), `binary.dfy`, `ordered_float.dfy`,
`eq_float32.dfy`, `eq_float64.dfy`.

## Model

`Decode` follows section 3.4 of IEEE 754-2019, and `IsNaN` is the standard library's
`is_nan`; the native `==` and `partial_cmp` they feed follow section 5.11. The crate's
own code is `Eq`, `Cmp`, `PartialCmp`, `HashKey` and the conversions. `OrderKey` gives
the order `cmp` implements on the bits, independently of the native comparison.

| member | source | states |
|---|---|---|
| `Orderings.CompareInts` | src/lib.rs:33 | three-way comparison returns `Less`, `Equal` or `Greater` exactly when x < y, x == y or x > y; the float order reduces to it |
| `Binary.IsNaN` | src/lib.rs:11 | `is_nan` (exponent field all ones, significand non-zero) holds exactly for the patterns whose magnitude bits exceed those of infinity |
| `Binary.QuietNaN` | src/lib.rs:48 | the canonical NaN key (exponent all ones, only the top significand bit set) is a pattern of the format, is a NaN and has a clear sign bit |
| `Binary.Decode` | src/lib.rs:14 | the datum a pattern denotes under section 3.4 of IEEE 754-2019; it is zero exactly for the two patterns whose magnitude bits are all zero, so `x == 0.0` at src/lib.rs:49 catches +0.0 and -0.0 and nothing else |
| `Binary.CompareData` | src/lib.rs:33 | the section 5.11 order on non-NaN data: `Equal` exactly for the same datum, -inf never above anything, +inf never below anything |
| `Binary.NativeEq` | src/lib.rs:14 | native `==` holds exactly when neither operand is NaN and the bits are identical or both are zeros |
| `Binary.NativePartialCmp` | src/lib.rs:33 | native `partial_cmp` returns `Some(Equal)` exactly when native `==` holds |
| `Binary.NativeCmpIsSignedMagnitudeOrder` | src/lib.rs:33 | for non-NaN operands, native `partial_cmp` (computed from the exact decoded values) returns `Some` of the comparison of the two bit patterns read as signed-magnitude integers |
| `Binary.DecodeEqualIffSameBits` | src/lib.rs:14 | two non-NaN patterns denote the same datum exactly when they are the same bits or both zeros |
| `Binary.DecodeInjective` | src/lib.rs:14 | two non-NaN patterns that are native-equal are the same bits, unless both are zeros |
| `OrderedFloat.Eq` | src/lib.rs:10-16 | `eq` holds exactly when both operands are NaN, or neither is and they are the same bits or both zeros |
| `OrderedFloat.Cmp` | src/lib.rs:32-42 | `cmp` is the integer order of the operands' `OrderKey`s, for any format |
| `OrderedFloat.OrderKey` | src/lib.rs:34-39 | every NaN has the key `Bottom`, and every non-NaN pattern a key strictly above it, so NaN is least and NaNs tie |
| `OrderedFloat.NativeOrderByKey` | src/lib.rs:33 | between non-NaN operands, native `partial_cmp` is `Some` of the order of the keys |
| `OrderedFloat.PartialCmp` | src/lib.rs:24-26 | `partial_cmp` always returns `Some(cmp)`, and equals native `partial_cmp` whenever that is defined |
| `OrderedFloat.HashKey` | src/lib.rs:48-52 | the key fed to the hasher is itself a bit pattern of the format, i.e. fits the `u32`/`u64` it is written as (its three cases are stated by `HashKeyCases`) |
| `OrderedFloat.EqIsEquivalence` | src/lib.rs:10-16 | `eq` is reflexive (NaN included), symmetric and transitive, for any format |
| `OrderedFloat.NaNsAreEqual` | src/lib.rs:11-12 | any two NaNs, whatever sign and payload, are equal and compare `Equal` |
| `OrderedFloat.NaNNeverEqualsNumber` | src/lib.rs:11-14 | a NaN is unequal to every non-NaN, in both argument orders |
| `OrderedFloat.SignedZerosEqual` | src/lib.rs:14 | +0.0 and -0.0 are equal, compare `Equal` and both have hash key 0 |
| `OrderedFloat.CmpAntisymmetric` | src/lib.rs:32-42 | `cmp(b, a)` is the reverse of `cmp(a, b)` |
| `OrderedFloat.CmpTransitive` | src/lib.rs:32-42 | `cmp` is transitive for `<=` and `<` and their mixtures |
| `OrderedFloat.CmpEqualIffEq` | src/lib.rs:32-42 | `cmp(a, b) == Equal` exactly when `eq(a, b)` |
| `OrderedFloat.NaNIsLeast` | src/lib.rs:34-39 | a NaN compares `Less` than every non-NaN (and that one `Greater` than it) and `Equal` to every NaN |
| `OrderedFloat.CmpExtendsNative` | src/lib.rs:33 | between non-NaN values `cmp` is exactly the native IEEE comparison |
| `OrderedFloat.HashKeyCases` | src/lib.rs:47-52 | every NaN hashes as the quiet NaN, both zeros as 0, every other value as its own bits |
| `OrderedFloat.HashKeyConsistent` | src/lib.rs:45-55 | `eq(a, b)` implies equal hash keys |
| `OrderedFloat.HashKeyIsRepresentative` | src/lib.rs:45-55 | the hash key, read as a float, is `eq` to the value it came from and is its own key: one canonical pattern per equality class |
| `EqFloat32.FromFloat` | src/lib.rs:63-67 | `F32::from(f)` converts back to exactly `f` |
| `EqFloat32.ToFloat` | src/lib.rs:57-61 | `f32::from(x)` returns the wrapped bits unchanged: wrapping them again gives `x` |
| `EqFloat32.Default` | src/lib.rs:5 | the derived default `F32` is +0.0: not NaN, value zero, sign bit clear |
| `EqFloat32.IsNaN` | src/lib.rs:11 | an `f32` is NaN exactly when its bits lie strictly between +inf and -0.0, or above -inf |
| `EqFloat32.Eq` | src/lib.rs:10-16 | `F32` equality holds exactly when both are NaN, or neither is and the bits are identical or both are zeros |
| `EqFloat32.Cmp` | src/lib.rs:32-42 | `cmp` is the integer order of `OrderKey`: every NaN at key -2^31, below every other key; any other value at its bits read as a signed-magnitude integer |
| `EqFloat32.PartialCmp` | src/lib.rs:24-26 | `partial_cmp` is always `Some(cmp)` |
| `EqFloat32.HashKey` | src/lib.rs:45-55 | the `u32` fed to the hasher, read back as an `f32`, is equal to the hashed value |
| `EqFloat32.EqIsEquivalence` | src/lib.rs:10-16 | `F32` equality is reflexive (NaN included), symmetric and transitive |
| `EqFloat32.NaNsAreEqual` | src/lib.rs:11-12 | any two NaNs are equal and compare `Equal` |
| `EqFloat32.NaNNeverEqualsNumber` | src/lib.rs:11-14 | a NaN never equals a non-NaN, in either order |
| `EqFloat32.SignedZerosEqual` | src/lib.rs:14 | `F(0.0) == F(-0.0)`, they compare `Equal`, and both hash as 0 |
| `EqFloat32.CmpAntisymmetric` | src/lib.rs:32-42 | `cmp(y, x)` is the reverse of `cmp(x, y)` |
| `EqFloat32.CmpTransitive` | src/lib.rs:32-42 | `cmp` is transitive |
| `EqFloat32.CmpEqualIffEq` | src/lib.rs:32-42 | `cmp` returns `Equal` exactly when `eq` holds |
| `EqFloat32.NaNIsLeast` | src/lib.rs:34-39 | NaN sorts below every non-NaN, -inf included, and ties with every NaN |
| `EqFloat32.CmpExtendsNative` | src/lib.rs:33 | between non-NaN values `cmp` is `f32::partial_cmp` unchanged |
| `EqFloat32.HashKeyCases` | src/lib.rs:47-52 | NaN hashes as 0x7fc00000, +0.0 and -0.0 as 0, anything else as its raw bits |
| `EqFloat32.HashKeyConsistent` | src/lib.rs:45-55 | equal values have equal hash keys |
| `EqFloat32.ConversionRoundTrip` | src/lib.rs:57-67 | wrap-then-unwrap and unwrap-then-wrap return identical bits |
| `EqFloat32.EqTest` | src/lib.rs:159-164 | NAN == NAN, NAN != 5.0, 5.0 != NAN, 0.0 == -0.0 |
| `EqFloat32.CmpTest` | src/lib.rs:167-172 | NAN == NAN and 0.0 == -0.0 through `eq`; NAN < 5.0 and 5.0 > NAN through `partial_cmp` |
| `EqFloat32.HashTest` | src/lib.rs:175-178 | hash(0.0) == hash(-0.0); NAN and -NAN are equal and hash alike |
| `EqFloat32.SortExample` | src/lib.rs:32-42 | NaN < -inf < -1.0 < -0.0 == +0.0 < 1.0 < +inf under `cmp` |
| `EqFloat64.FromFloat` | src/lib.rs:133-137 | `F64::from(f)` converts back to exactly `f` |
| `EqFloat64.ToFloat` | src/lib.rs:127-131 | `f64::from(x)` returns the wrapped bits unchanged: wrapping them again gives `x` |
| `EqFloat64.Default` | src/lib.rs:75 | the derived default `F64` is +0.0: not NaN, value zero, sign bit clear |
| `EqFloat64.IsNaN` | src/lib.rs:81 | an `f64` is NaN exactly when its bits lie strictly between +inf and -0.0, or above -inf |
| `EqFloat64.Eq` | src/lib.rs:80-86 | `F64` equality holds exactly when both are NaN, or neither is and the bits are identical or both are zeros |
| `EqFloat64.Cmp` | src/lib.rs:102-112 | `cmp` is the integer order of `OrderKey`: every NaN at key -2^63, below every other key; any other value at its bits read as a signed-magnitude integer |
| `EqFloat64.PartialCmp` | src/lib.rs:94-96 | `partial_cmp` is always `Some(cmp)` |
| `EqFloat64.HashKey` | src/lib.rs:115-125 | the `u64` fed to the hasher, read back as an `f64`, is equal to the hashed value |
| `EqFloat64.EqIsEquivalence` | src/lib.rs:80-86 | `F64` equality is reflexive (NaN included), symmetric and transitive |
| `EqFloat64.NaNsAreEqual` | src/lib.rs:81-82 | any two NaNs are equal and compare `Equal` |
| `EqFloat64.NaNNeverEqualsNumber` | src/lib.rs:81-84 | a NaN never equals a non-NaN, in either order |
| `EqFloat64.SignedZerosEqual` | src/lib.rs:84 | `F(0.0) == F(-0.0)`, they compare `Equal`, and both hash as 0 |
| `EqFloat64.CmpAntisymmetric` | src/lib.rs:102-112 | `cmp(y, x)` is the reverse of `cmp(x, y)` |
| `EqFloat64.CmpTransitive` | src/lib.rs:102-112 | `cmp` is transitive |
| `EqFloat64.CmpEqualIffEq` | src/lib.rs:102-112 | `cmp` returns `Equal` exactly when `eq` holds |
| `EqFloat64.NaNIsLeast` | src/lib.rs:104-109 | NaN sorts below every non-NaN, -inf included, and ties with every NaN |
| `EqFloat64.CmpExtendsNative` | src/lib.rs:103 | between non-NaN values `cmp` is `f64::partial_cmp` unchanged |
| `EqFloat64.HashKeyCases` | src/lib.rs:117-122 | NaN hashes as 0x7ff8000000000000, +0.0 and -0.0 as 0, anything else as its raw bits |
| `EqFloat64.HashKeyConsistent` | src/lib.rs:115-125 | equal values have equal hash keys |
| `EqFloat64.ConversionRoundTrip` | src/lib.rs:127-137 | wrap-then-unwrap and unwrap-then-wrap return identical bits |
| `EqFloat64.EqTest` | src/lib.rs:181-186 | NAN == NAN, NAN != 5.0, 5.0 != NAN, 0.0 == -0.0 |
| `EqFloat64.CmpTest` | src/lib.rs:189-194 | NAN == NAN and 0.0 == -0.0 through `eq`; NAN < 5.0 and 5.0 > NAN through `partial_cmp` |
| `EqFloat64.HashTest` | src/lib.rs:197-200 | hash(0.0) == hash(-0.0); NAN and -NAN are equal and hash alike |
| `EqFloat64.SortExample` | src/lib.rs:102-112 | NaN < -inf < -1.0 < -0.0 == +0.0 < 1.0 < +inf under `cmp` |

## Left out

- `fmt::Display` for `F32`/`F64` (src/lib.rs:69-73, 139-143): it forwards to Rust's float formatter, which is not part of this model.
- The `Hasher` (`DefaultHasher` in the tests): a foreign library. The model computes the key that `hash` writes into it, and states consistency on that key. `HashTest` therefore compares keys, not finished `u64` hashes.
- Derived `Debug`, `Clone` and `Copy`: compiler-generated, no behaviour to model. The derived `Default` is modelled.
- Float arithmetic: none is needed. The order of finite values is decided from their exact values, which are integers in units of the smallest subnormal.
- `f32`/`f64` are bit patterns (integers below 2^32 / 2^64), not a separate float type. `From` in both directions is therefore the identity on bits.
