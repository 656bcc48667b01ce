/**
 * JavaScript number operations used by the colour code, on unbounded reals:
 * `Math.floor`, `Math.sign`, the truncating remainder `%`, and the rounding
 * that `Array.prototype.splice` and a `for` loop apply to a fractional size.
 */
module JsMath {

  /** `Math.floor`. */
  function Floor(x: real): (r: int)
    ensures r as real <= x < r as real + 1.0
  {
    x.Floor
  }

  /** The smallest integer not below `x`. */
  function Ceil(x: real): (r: int)
    ensures x <= r as real < x + 1.0
  {
    -((-x).Floor)
  }

  /** Rounding toward zero, as `ToIntegerOrInfinity` does. */
  function Trunc(x: real): (r: int)
    ensures 0.0 <= x ==> r == Floor(x)
    ensures x < 0.0 ==> r == Ceil(x)
  {
    if x >= 0.0 then x.Floor else -((-x).Floor)
  }

  /** `Math.sign`. */
  function Sign(x: real): (r: real)
    ensures r * x >= 0.0
    ensures r * x == (if x < 0.0 then -x else x)
    ensures r == 0.0 <==> x == 0.0
  {
    if x > 0.0 then 1.0 else if x < 0.0 then -1.0 else 0.0
  }

  function Abs(x: real): (r: real)
    ensures r >= 0.0 && (r == x || r == -x)
  {
    if x < 0.0 then -x else x
  }

  /**
   * JavaScript's `x % y` on numbers: the remainder of the quotient truncated
   * toward zero, so its sign is the sign of `x`.
   */
  function JsMod(x: real, y: real): real
    requires y != 0.0
  {
    x - y * Trunc(x / y) as real
  }

  /** JavaScript's `a % n` on integers (truncating, unlike Dafny's `%`). */
  function JsModInt(a: int, n: int): int
    requires n != 0
  {
    if a >= 0 || a % n == 0 then a % n else a % n - (if n > 0 then n else -n)
  }

  /** For a non-negative dividend the remainder lies in `[0, y)` and is `x - y*floor(x/y)`. */
  lemma JsModNonNegative(x: real, y: real)
    requires 0.0 <= x && 0.0 < y
    ensures 0.0 <= JsMod(x, y) < y
    ensures JsMod(x, y) == x - y * Floor(x / y) as real
  {
    var q := Floor(x / y);
    assert q as real <= x / y < q as real + 1.0;
    QuotientBounds(x, y, q);
  }

  /** `q <= x/y < q+1` with `y > 0` gives `0 <= x - y*q < y`. */
  lemma QuotientBounds(x: real, y: real, q: int)
    requires 0.0 < y
    requires q as real <= x / y < q as real + 1.0
    ensures 0.0 <= x - y * q as real < y
  {
    var t := x / y;
    var qr := q as real;
    MulMonotone(qr, t, y);
    MulStrictMonotone(t, qr + 1.0, y);
    calc {
      y * qr;
    ==
      qr * y;
    <=
      t * y;
    ==
      x;
    }
    calc {
      x;
    ==
      t * y;
    <
      (qr + 1.0) * y;
    ==
      y * qr + y;
    }
  }

  lemma MulMonotone(a: real, b: real, c: real)
    requires a <= b && 0.0 <= c
    ensures a * c <= b * c
  {
  }

  lemma MulStrictMonotone(a: real, b: real, c: real)
    requires a < b && 0.0 < c
    ensures a * c < b * c
  {
  }

  /** A number and the same number plus one have the same remainder modulo 1. */
  lemma JsModOnePeriodic(x: real)
    requires 0.0 <= x
    ensures JsMod(x + 1.0, 1.0) == JsMod(x, 1.0)
  {
    assert (x + 1.0) / 1.0 == x + 1.0;
    assert x / 1.0 == x;
    assert Floor(x + 1.0) == Floor(x) + 1;
  }

  /** For a non-negative dividend the integer remainder is Dafny's `%`. */
  lemma JsModIntNonNegative(a: int, n: int)
    requires 0 <= a && 0 < n
    ensures JsModInt(a, n) == a % n
    ensures 0 <= JsModInt(a, n) < n
  {
  }

  lemma DivBelowOne(r: real, y: real)
    requires 0.0 < y && 0.0 <= r < y
    ensures 0.0 <= r / y < 1.0
  {
    var t := r / y;
    assert t * y == r;
    if t >= 1.0 {
      MulMonotone(1.0, t, y);
    }
    if t < 0.0 {
      MulStrictMonotone(t, 0.0, y);
    }
  }

  /** `floor(x/y)` for `x = q*y + r` with `0 <= r < y` is `q`. */
  lemma FloorOfDivision(x: real, y: real, q: int, r: real)
    requires 0.0 < y && 0.0 <= r < y
    requires x == q as real * y + r
    ensures Floor(x / y) == q
  {
    assert x / y == q as real + r / y;
    DivBelowOne(r, y);
  }

  /** `x / y` lies in `[0, 1]` for `0 <= x <= y` and `0 < y`. */
  lemma RatioInUnit(x: real, y: real)
    requires 0.0 <= x <= y && 0.0 < y
    ensures 0.0 <= x / y <= 1.0
  {
    var q := x / y;
    assert q * y == x;
    if q > 1.0 {
      MulStrictMonotone(1.0, q, y);
    }
    if q < 0.0 {
      MulStrictMonotone(q, 0.0, y);
    }
  }

  /** `x / y` is non-negative for `0 <= x` and `0 < y`. */
  lemma NonNegativeQuotient(x: real, y: real)
    requires 0.0 <= x && 0.0 < y
    ensures x / y >= 0.0
  {
    var q := x / y;
    assert q * y == x;
    if q < 0.0 {
      MulStrictMonotone(q, 0.0, y);
    }
  }

  /** Dividing a multiple of `c` by `c` gives the factor back. */
  lemma DivOfMultiple(k: real, c: real)
    requires c != 0.0
    ensures (k * c) / c == k
  {
  }

  /** Adding `m` times the divisor adds `m` to the quotient. */
  lemma DivOfShifted(x: real, c: real, m: real, y: real)
    requires c != 0.0 && y == x + m * c
    ensures y / c == x / c + m
  {
    var q := x / c;
    assert q * c == x;
    assert (q + m) * c == x + m * c;
  }

  /** Shifting a non-negative dividend by a whole number leaves its remainder modulo one alone. */
  lemma JsModOneStep(x: real, y: real)
    requires 0.0 <= x && y == x + 1.0
    ensures JsMod(y, 1.0) == JsMod(x, 1.0)
  {
    JsModOneShift(x, 1);
  }

  lemma JsModOneShift(x: real, m: nat)
    requires 0.0 <= x
    ensures JsMod(x + m as real, 1.0) == JsMod(x, 1.0)
  {
    assert (x + m as real) / 1.0 == x + m as real;
    assert x / 1.0 == x;
    assert Floor(x + m as real) == Floor(x) + m;
  }

  lemma MulMonotoneInt(a: int, b: int, c: int)
    requires a <= b && 0 <= c
    ensures a * c <= b * c
  {
  }

  /** `q` and `r` with `x = q * n + r` and `0 <= r < n` are the quotient and the remainder. */
  lemma DivModUnique(x: int, q: int, r: int, n: int)
    requires 0 < n && 0 <= r < n && x == q * n + r
    ensures x / n == q && x % n == r
  {
    var q' := x / n;
    var r' := x % n;
    assert x == q' * n + r';
    if q' > q {
      MulMonotoneInt(q + 1, q', n);
    } else if q' < q {
      MulMonotoneInt(q' + 1, q, n);
    }
  }

  /** Adding `m` before or after reducing modulo `n` gives the same remainder. */
  lemma ModShift(a: nat, m: nat, n: nat)
    requires n >= 1
    ensures (a + m) % n == (a % n + m) % n
  {
    var b := a % n + m;
    DivModUnique(b, b / n, b % n, n);
    DivModUnique(a + m, a / n + b / n, b % n, n);
  }

  /** Shifting by `n` does not change a remainder modulo `n`. */
  lemma AddDivisor(x: nat, n: nat)
    requires n >= 1
    ensures (x + n) % n == x % n
  {
    DivModUnique(x + n, x / n + 1, x % n, n);
  }
}
