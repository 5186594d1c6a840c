/** Java's 32-bit `int` arithmetic, stated on unbounded integers. */
module JavaInt {

  const Modulus: int := 0x1_0000_0000
  const MinInt: int := -0x8000_0000
  const MaxInt: int := 0x7fff_ffff

  /** A value that fits a Java `int`. */
  type Int32 = x: int | MinInt <= x <= MaxInt

  predicate InRange(x: int) {
    MinInt <= x <= MaxInt
  }

  /** The value a Java `int` operation yields when its exact result is `x`:
      two's-complement wrap-around modulo 2^32. */
  function Wrap(x: int): (r: Int32)
    ensures (r - x) % Modulus == 0
    ensures InRange(x) ==> r == x
  {
    var m := (x - MinInt) % Modulus;
    m + MinInt
  }
}
