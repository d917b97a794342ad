/**
 * The result types of Rust's comparison traits: `std::cmp::Ordering`, the
 * `Option` that `partial_cmp` returns, and the three-way comparison of
 * mathematical integers that the float model reduces to.
 */
module Orderings {

  /** `std::cmp::Ordering`. */
  datatype Ordering = Less | Equal | Greater {

    /** The same comparison seen from the other operand (`Ordering::reverse`). */
    function Reverse(): Ordering {
      match this
      case Less => Greater
      case Equal => Equal
      case Greater => Less
    }
  }

  /** `std::option::Option`. */
  datatype Option<+T> = None | Some(value: T)

  /** Three-way comparison of two integers (`Ord::cmp` on `i64`, unbounded here). */
  function CompareInts(x: int, y: int): (r: Ordering)
    ensures r == Less <==> x < y
    ensures r == Equal <==> x == y
    ensures r == Greater <==> y < x
  {
    if x < y then Less else if x == y then Equal else Greater
  }
}
