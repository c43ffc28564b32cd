/** Java's 32-bit `int`: its range and the two's-complement wrap-around of its arithmetic. */
module JavaInt {

  const MIN: int := -0x8000_0000
  const MAX: int := 0x7FFF_FFFF
  const MODULUS: int := 0x1_0000_0000

  /** Values a Java `int` can hold. */
  type Int32 = x: int | MIN <= x <= MAX

  predicate InRange(x: int) {
    MIN <= x <= MAX
  }

  /**
   * The `int` that Java's `+` and `-` produce for the exact result `x`:
   * the unique value in range that is congruent to `x` modulo 2^32.
   */
  function Wrap(x: int): (r: Int32)
    ensures (r - x) % MODULUS == 0
    ensures InRange(x) ==> r == x
  {
    (x - MIN) % MODULUS + MIN
  }

  /** Java arithmetic composes: wrapping an intermediate result does not change the final `int`. */
  lemma WrapOfWrap(x: int, d: int)
    ensures Wrap(Wrap(x) + d) == Wrap(x + d)
  {
    var w := Wrap(x);
    var m := (w - x) / MODULUS;
    assert w - x == m * MODULUS;
    assert (Wrap(w + d) - (x + d)) % MODULUS == 0 by {
      var n := (Wrap(w + d) - (w + d)) / MODULUS;
      assert Wrap(w + d) - (w + d) == n * MODULUS;
      assert Wrap(w + d) - (x + d) == (n + m) * MODULUS;
    }
    WrapUnique(x + d, Wrap(w + d));
  }

  /** Values congruent modulo 2^32 wrap to the same `int`. */
  lemma WrapCongruent(x: int, y: int)
    requires (x - y) % MODULUS == 0
    ensures Wrap(x) == Wrap(y)
  {
    var m := (Wrap(x) - x) / MODULUS;
    var n := (x - y) / MODULUS;
    assert Wrap(x) - x == m * MODULUS;
    assert x - y == n * MODULUS;
    assert Wrap(x) - y == (m + n) * MODULUS;
    WrapUnique(y, Wrap(x));
  }

  /** Wrap is determined by its two properties: no other in-range value is congruent to `x`. */
  lemma WrapUnique(x: int, y: Int32)
    requires (y - x) % MODULUS == 0
    ensures y == Wrap(x)
  {
    var r := Wrap(x);
    assert (y - r) % MODULUS == 0 by {
      assert (y - r) == (y - x) - (r - x);
    }
    assert -MODULUS < y - r < MODULUS;
  }
}
