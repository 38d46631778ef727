/** Java's 32-bit two's-complement `int`, as the values a Java expression of type
    `int` can hold, and the wrap-around that `+` and `-` perform on overflow. */
module JavaInt {

  const MIN_VALUE: int := -0x8000_0000
  const MAX_VALUE: int := 0x7FFF_FFFF

  /** Number of distinct `int` values; arithmetic is exact modulo this. */
  const MODULUS: int := 0x1_0000_0000

  type Int32 = x: int | MIN_VALUE <= x <= MAX_VALUE

  predicate Congruent(x: int, y: int) {
    (x - y) % MODULUS == 0
  }

  /** The `int` that Java stores for the mathematical value `x`: the one value in
      [MIN_VALUE, MAX_VALUE] that agrees with `x` modulo 2^32. */
  function Wrap(x: int): (r: Int32)
    ensures Congruent(x, r)
    ensures MIN_VALUE <= x <= MAX_VALUE ==> r == x
  {
    var k := (x - MIN_VALUE) / MODULUS;
    assert (x - MIN_VALUE) % MODULUS == x - MIN_VALUE - MODULUS * k;
    (x - MIN_VALUE) % MODULUS + MIN_VALUE
  }

  /** Java `a + b` on two `int`s. */
  function Add(a: Int32, b: Int32): Int32 {
    Wrap(a + b)
  }

  /** Java `a - b` on two `int`s. */
  function Sub(a: Int32, b: Int32): Int32 {
    Wrap(a - b)
  }

  /** Two values of `int` range that agree modulo 2^32 are equal, so `Wrap` is the only
      reduction into `int` range. */
  lemma WrapUnique(x: int, r: int)
    requires MIN_VALUE <= r <= MAX_VALUE
    requires Congruent(x, r)
    ensures Wrap(x) == r
  {
  }

  /** Wrapping an intermediate result and wrapping only the final one agree: Java's
      step-by-step `int` arithmetic computes the mathematical result modulo 2^32. */
  lemma WrapAdd(x: int, y: int)
    ensures Wrap(Wrap(x) + y) == Wrap(x + y)
  {
  }
}
