/** Java's 32-bit `int`, the type of merge orders and itemset fields. */
module Ints {
  /** The range of a Java `int`. */
  const MinInt: int := -0x8000_0000
  const MaxInt: int := 0x7fff_ffff
  type Int32 = x: int | MinInt <= x <= MaxInt
}
