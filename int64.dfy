/** Go's `int` on a 64-bit platform: two's-complement arithmetic that
    wraps around silently on overflow. The main model computes with exact
    integers; this module exists to state where the two differ. */
module Int64 {
  const Min: int := -0x8000_0000_0000_0000
  const Max: int := 0x7FFF_FFFF_FFFF_FFFF
  const Modulus: int := 0x1_0000_0000_0000_0000

  predicate InRange(x: int) {
    Min <= x <= Max
  }

  /** The value a Go `int` holds after an operation whose exact result
      is `x`: the one 64-bit value that differs from `x` by a multiple
      of 2^64. */
  function Wrap(x: int): (w: int)
    ensures InRange(w)
    ensures (w - x) % Modulus == 0
    ensures InRange(x) ==> w == x
    ensures x == Max + 1 ==> w == Min
  {
    (x - Min) % Modulus + Min
  }

  /** Wrapping a sum of values congruent to `x` and `y` gives a value
      congruent to `x + y`: the wrapped sum differs from the exact one by a
      multiple of 2^64. */
  lemma WrapSumCongruent(a: int, b: int, x: int, y: int)
    requires (a - x) % Modulus == 0 && (b - y) % Modulus == 0
    ensures (Wrap(a + b) - (x + y)) % Modulus == 0
  {
    var k1, k2 := (a - x) / Modulus, (b - y) / Modulus;
    var k3 := (Wrap(a + b) - (a + b)) / Modulus;
    assert a - x == k1 * Modulus;
    assert b - y == k2 * Modulus;
    assert Wrap(a + b) - (a + b) == k3 * Modulus;
    assert Wrap(a + b) - (x + y) == (k1 + k2 + k3) * Modulus;
  }
}
