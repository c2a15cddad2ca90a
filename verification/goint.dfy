/** The 64-bit `int` of the Go toolchain the service is built with. */
module GoInt {

  const MIN_INT: int := -0x8000_0000_0000_0000
  const MAX_INT: int := 0x7fff_ffff_ffff_ffff

  predicate InRange(x: int) {
    MIN_INT <= x <= MAX_INT
  }

  /** `x++` on a Go `int`: two's-complement wrap-around at the top of the range. */
  function Inc(x: int): (r: int)
    requires InRange(x)
    ensures InRange(r)
    ensures x < MAX_INT ==> r == x + 1 && r > x
    ensures x == MAX_INT ==> r == MIN_INT
  {
    if x == MAX_INT then MIN_INT else x + 1
  }
}
