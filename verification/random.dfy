/**
 * `Math.random` and the index the animators derive from it. The generator is
 * outside the model: a draw is any number in `[0, 1)`, chosen arbitrarily.
 */
module MathRandom {
  import opened JsMath

  /** A value `Math.random()` can return. */
  predicate IsDraw(r: real) {
    0.0 <= r < 1.0
  }

  /** `Math.random()`. */
  method Random() returns (r: real)
    ensures IsDraw(r)
  {
    assert IsDraw(0.0);
    r :| IsDraw(r);
  }

  /**
   * `Math.floor(r * n)`: an index into a collection of `n` elements, and `0`
   * for an empty collection.
   */
  function ScaledIndex(r: real, n: nat): (i: int)
    requires IsDraw(r)
    ensures n == 0 ==> i == 0
    ensures n > 0 ==> 0 <= i < n
  {
    MulMonotone(0.0, r, n as real);
    if n > 0 then
      MulStrictMonotone(r, 1.0, n as real);
      Floor(r * n as real)
    else
      Floor(r * n as real)
  }

  /** Every index is drawn by some value: `i / n` selects `i`. */
  lemma ScaledIndexCovers(i: nat, n: nat)
    requires i < n
    ensures IsDraw(i as real / n as real)
    ensures ScaledIndex(i as real / n as real, n) == i
  {
    DivBelowOne(i as real, n as real);
    assert (i as real / n as real) * n as real == i as real;
  }

  /** `Math.floor(Math.random() * n)`. */
  method RandomIndex(n: nat) returns (i: int)
    ensures n == 0 ==> i == 0
    ensures n > 0 ==> 0 <= i < n
  {
    var r := Random();
    i := ScaledIndex(r, n);
  }
}
