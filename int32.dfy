/** Go's `int32`: the integers in [-2^31, 2^31) with two's complement wrap-around. */
module Int32 {

  const Modulus: int := 0x1_0000_0000
  const Min: int := -0x8000_0000
  const Max: int := 0x7fff_ffff

  type Int32 = x: int | -0x8000_0000 <= x <= 0x7fff_ffff

  predicate InRange(x: int) {
    Min <= x <= Max
  }

  /** The int32 that Go's arithmetic yields for the mathematical result `x`:
      the unique value of the range congruent to `x` modulo 2^32. */
  function Wrap(x: int): (r: Int32)
    ensures (r - x) % Modulus == 0
    ensures InRange(x) ==> r == x
  {
    var q := (x - Min) / Modulus;
    assert x - Min == q * Modulus + (x - Min) % Modulus;
    (x - Min) % Modulus + Min
  }
}
