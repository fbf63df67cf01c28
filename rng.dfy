/**
 * The seeded linear-congruential generator of game/src/engine/RNG.ts.
 * `state` is the only source of randomness: every draw advances it by one
 * step of `state := (state * 1103515245 + 12345) & 0x7fffffff`, which is the
 * step modulo 2^31 (the product is taken exactly here).
 */
module Random {
  import opened Wrappers
  import opened JsNumbers

  const MULTIPLIER: int := 1103515245
  const INCREMENT: int := 12345
  const HALF: int := 0x4000_0000

  /** One generator step, as RNG.ts writes it. */
  function Step(state: int): (r: int)
    ensures 0 <= r < TWO_31
    ensures r == (state * MULTIPLIER + INCREMENT) % TWO_31
  {
    MaskLow31(state * MULTIPLIER + INCREMENT)
  }

  /** The value `next()` returns for a state: `state / 0x80000000`. */
  function UnitValue(state: int): real
  {
    state as real / TWO_31 as real
  }

  lemma UnitValueInRange(state: int)
    requires 0 <= state < TWO_31
    ensures 0.0 <= UnitValue(state) < 1.0
  {
  }

  /**
   * `Math.floor(next() * (max - min + 1)) + min` for the state `next()` has
   * just produced, which is the integer `(state * (max-min+1)) / 2^31 + min`.
   */
  function ScaledInt(state: int, min: int, max: int): (r: int)
    requires 0 <= state < TWO_31
    ensures r == (state * (max - min + 1)) / TWO_31 + min
    ensures min <= max ==> min <= r <= max
  {
    var span := max - min + 1;
    FloorOfQuotient(state * span);
    assert UnitValue(state) * span as real == (state * span) as real / TWO_31 as real;
    assert min <= max ==> 0 <= (state * span) / TWO_31 < span by {
      if min <= max { ScaledBounds(state, span); }
    }
    (UnitValue(state) * span as real).Floor + min
  }

  /** Flooring the real quotient agrees with integer division by 2^31. */
  lemma FloorOfQuotient(a: int)
    ensures (a as real / TWO_31 as real).Floor == a / TWO_31
  {
    var q, r := a / TWO_31, a % TWO_31;
    assert a == q * TWO_31 + r;
    assert a as real / TWO_31 as real == q as real + r as real / TWO_31 as real;
  }

  lemma ScaledBounds(state: int, span: int)
    requires 0 <= state < TWO_31 && span >= 1
    ensures 0 <= (state * span) / TWO_31 < span
  {
    assert 0 <= state * span;
    assert state * span < TWO_31 * span by {
      assert (TWO_31 - state) * span > 0;
    }
    DivBelow(state * span, span);
  }

  lemma DivBelow(a: int, span: int)
    requires 0 <= a < TWO_31 * span
    ensures a / TWO_31 < span
  {
    assert (a / TWO_31) * TWO_31 <= a;
  }

  /** `next() < 0.5` holds exactly when the new state is below 2^30. */
  lemma NextBoolThreshold(state: int)
    requires 0 <= state < TWO_31
    ensures UnitValue(state) < 0.5 <==> state < HALF
  {
  }

  class RNG {
    var state: int

    /** `new RNG(seed)`. */
    constructor (seed: int)
      ensures state == seed
    {
      state := seed;
    }

    method Seed(value: int)
      modifies this
      ensures state == value
    {
      state := value;
    }

    method Next() returns (x: real)
      modifies this
      ensures state == Step(old(state))
      ensures x == UnitValue(state)
      ensures 0.0 <= x < 1.0
    {
      state := MaskLow31(state * MULTIPLIER + INCREMENT);
      x := state as real / TWO_31 as real;
      UnitValueInRange(state);
    }

    method NextInt(min: int, max: int) returns (r: int)
      modifies this
      ensures state == Step(old(state))
      ensures r == ScaledInt(state, min, max)
      ensures min <= max ==> min <= r <= max
    {
      var x := Next();
      r := (x * (max - min + 1) as real).Floor + min;
    }

    method NextBool() returns (b: bool)
      modifies this
      ensures state == Step(old(state))
      ensures b <==> state < HALF
    {
      var x := Next();
      NextBoolThreshold(state);
      b := x < 0.5;
    }

    /**
     * `pick(array)`: the element at `nextInt(0, length - 1)`. On an empty
     * array that index is 0 and the read gives `undefined`, here None.
     */
    method Pick<T>(items: seq<T>) returns (r: Option<T>)
      modifies this
      ensures state == Step(old(state))
      ensures |items| == 0 ==> r == None
      ensures |items| > 0 ==> r == Some(items[ScaledInt(state, 0, |items| - 1)])
      ensures |items| > 0 ==> exists i :: 0 <= i < |items| && r == Some(items[i])
    {
      var i := NextInt(0, |items| - 1);
      r := if 0 <= i < |items| then Some(items[i]) else None;
    }
  }
}
