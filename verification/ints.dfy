/** Kotlin's 32-bit `Int`, with the wrap-around of its `+` and `-`. */
module Ints {

  const MinInt32: int := -0x8000_0000
  const MaxInt32: int := 0x7FFF_FFFF
  const Modulus32: int := 0x1_0000_0000

  type Int32 = x: int | MinInt32 <= x <= MaxInt32

  /** A board width: `Array(width)` rejects a negative size. */
  type Width = w: int | 0 <= w <= MaxInt32

  /** Two's-complement reduction of an exact integer result to an `Int`. */
  function Wrap(x: int): (r: Int32)
    ensures MinInt32 <= x <= MaxInt32 ==> r == x
    ensures x == MaxInt32 + 1 ==> r == MinInt32
    ensures x == MinInt32 - 1 ==> r == MaxInt32
  {
    (x - MinInt32) % Modulus32 + MinInt32
  }
}
