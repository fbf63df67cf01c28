/**
 * The two pieces of ECMAScript number semantics the core relies on: the
 * ToInt32 conversion that every bitwise operator applies to its operands,
 * and the bitwise AND with the mask 0x7fffffff.
 */
module JsNumbers {

  const TWO_31: int := 0x8000_0000
  const TWO_32: int := 0x1_0000_0000

  /** ECMAScript ToInt32 on an integral number: wrap into [-2^31, 2^31). */
  function ToInt32(x: int): (r: int)
    ensures -TWO_31 <= r < TWO_31
    ensures (x - r) % TWO_32 == 0
  {
    var u := x % TWO_32;
    if u >= TWO_31 then u - TWO_32 else u
  }

  /** Two numbers congruent modulo 2^32 have the same ToInt32. */
  lemma ToInt32Congruent(x: int, y: int)
    requires (x - y) % TWO_32 == 0
    ensures ToInt32(x) == ToInt32(y)
  {
    var k := (x - y) / TWO_32;
    assert x == y + k * TWO_32;
    ModShift32(y, k);
  }

  lemma ModShift32(y: int, k: int)
    ensures (y + k * TWO_32) % TWO_32 == y % TWO_32
  {
  }

  lemma ModShift31(y: int, k: int)
    ensures (y + k * TWO_31) % TWO_31 == y % TWO_31
  {
  }

  /**
   * `x & 0x7fffffff` in JavaScript: ToInt32 of the left operand, then keep
   * the low 31 bits of its 32-bit two's-complement pattern (written here as
   * the residue of that pattern modulo 2^31). The result is the Euclidean
   * residue of `x` itself modulo 2^31, so it is never negative.
   */
  function MaskLow31(x: int): (r: int)
    ensures 0 <= r < TWO_31
    ensures r == x % TWO_31
  {
    var pattern := ToInt32(x) % TWO_32;
    ModOfMod(x, ToInt32(x));
    pattern % TWO_31
  }

  lemma ModOfMod(x: int, i: int)
    requires (x - i) % TWO_32 == 0
    ensures (i % TWO_32) % TWO_31 == x % TWO_31
  {
    var k := (x - i) / TWO_32;
    assert x == i + (2 * k) * TWO_31;
    ModShift31(i, 2 * k);
    var q := i / TWO_32;
    assert i == (i % TWO_32) + (2 * q) * TWO_31;
    ModShift31(i % TWO_32, 2 * q);
  }
}
