/**
 The corner of Java's 32-bit `int` arithmetic that the engines rely on: their round counter
 `r` is an `int`, and `r--` wraps around at `Integer.MIN_VALUE`.
 */
module JavaInt {
  /** `Integer.MIN_VALUE`. */
  const IntMin: int := -0x8000_0000

  /** `Integer.MAX_VALUE`. */
  const IntMax: int := 0x7fff_ffff

  /** A value an `int` can hold. */
  predicate IsInt(x: int) {
    IntMin <= x <= IntMax
  }

  /** `x--` on an `int`: two's-complement subtraction of one, which takes
      `Integer.MIN_VALUE` to `Integer.MAX_VALUE`. */
  function Decrement(x: int): (d: int)
    ensures IsInt(x) ==> IsInt(d) && (x - 1 - d) % 0x1_0000_0000 == 0
  {
    if x == IntMin then IntMax else x - 1
  }

}
