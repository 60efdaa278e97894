/** Java's 64-bit signed `Long`, the type of every id, product id and quantity in the core. */
module JavaLong {

  const MinLong: int := -0x8000_0000_0000_0000
  const MaxLong: int := 0x7FFF_FFFF_FFFF_FFFF
  /** The modulus of two's-complement 64-bit arithmetic. */
  const TwoTo64: int := 0x1_0000_0000_0000_0000

  newtype Long = x: int | -0x8000_0000_0000_0000 <= x < 0x8000_0000_0000_0000

  predicate InLongRange(x: int) {
    MinLong <= x <= MaxLong
  }

  /** `a - b` as the JVM computes it: the exact difference, wrapped into 64 bits. */
  function WrappingSub(a: Long, b: Long): (r: Long)
    ensures (r as int - (a as int - b as int)) % TwoTo64 == 0
    ensures InLongRange(a as int - b as int) ==> r as int == a as int - b as int
  {
    var d := a as int - b as int;
    if d > MaxLong then (d - TwoTo64) as Long
    else if d < MinLong then (d + TwoTo64) as Long
    else d as Long
  }
}
