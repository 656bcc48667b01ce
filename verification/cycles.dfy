/**
 * The cycle arithmetic shared by the colour-shift and breathing animators:
 * time is cut into cycles of a fixed length, and each cycle shows the next
 * palette entry, wrapping around.
 */
module Cycles {
  import opened JsMath

  /** `Math.floor(t / cycle) % n`: the palette entry of the cycle `t` falls in. */
  function CycleIndex(t: real, cycle: real, n: nat): (i: int)
    requires 0.0 <= t && 0.0 < cycle && n >= 1
    ensures 0 <= i < n
  {
    NonNegativeQuotient(t, cycle);
    JsModIntNonNegative(Floor(t / cycle), n);
    JsModInt(Floor(t / cycle), n)
  }

  /** `t / cycle % 1`: how far through its cycle `t` is. */
  function CyclePhase(t: real, cycle: real): (f: real)
    requires 0.0 <= t && 0.0 < cycle
    ensures 0.0 <= f < 1.0
  {
    NonNegativeQuotient(t, cycle);
    JsModNonNegative(t / cycle, 1.0);
    JsMod(t / cycle, 1.0)
  }

  /**
   * During the `k`-th cycle, `k * cycle <= t < (k + 1) * cycle`, the index is
   * `k` modulo the palette size and the phase is the fraction of the cycle
   * elapsed.
   */
  lemma {:induction false} WithinCycle(t: real, cycle: real, n: nat, k: nat)
    requires 0.0 < cycle && n >= 1
    requires k as real * cycle <= t < (k + 1) as real * cycle
    ensures 0.0 <= t
    ensures CycleIndex(t, cycle, n) == k % n
    ensures CyclePhase(t, cycle) == t / cycle - k as real
  {
    MulMonotone(0.0, k as real, cycle);
    FloorOfDivision(t, cycle, k, t - k as real * cycle);
    NonNegativeQuotient(t, cycle);
    JsModNonNegative(t / cycle, 1.0);
    assert (t / cycle) / 1.0 == t / cycle;
  }

  /** At the start of the `k`-th cycle the phase is zero. */
  lemma CycleStart(t: real, cycle: real, n: nat, k: nat)
    requires 0.0 < cycle && n >= 1
    requires t == k as real * cycle
    ensures 0.0 <= t
    ensures CycleIndex(t, cycle, n) == k % n
    ensures CyclePhase(t, cycle) == 0.0
  {
    MulStrictMonotone(k as real, (k + 1) as real, cycle);
    WithinCycle(t, cycle, n, k);
    DivOfMultiple(k as real, cycle);
  }

  /**
   * `m` cycles after `t` the index has moved on by `m`, wrapping around the
   * palette, and the phase is the same.
   */
  lemma LaterCycle(t: real, s: real, cycle: real, n: nat, m: nat)
    requires 0.0 <= t && 0.0 < cycle && n >= 1
    requires s == t + m as real * cycle
    ensures 0.0 <= s
    ensures CycleIndex(s, cycle, n) == (CycleIndex(t, cycle, n) + m) % n
    ensures CyclePhase(s, cycle) == CyclePhase(t, cycle)
  {
    MulMonotone(0.0, m as real, cycle);
    NonNegativeQuotient(t, cycle);
    DivOfShifted(t, cycle, m as real, s);
    LaterIndex(t / cycle, Floor(t / cycle), m, n);
    JsModOneShift(t / cycle, m);
  }

  lemma LaterIndex(x: real, f: nat, m: nat, n: nat)
    requires n >= 1 && f == Floor(x)
    ensures JsModInt(Floor(x + m as real), n) == (JsModInt(f, n) + m) % n
  {
    assert Floor(x + m as real) == f + m;
    ModShift(f, m, n);
  }

  /** After `n` cycles the whole palette has been shown and everything repeats. */
  lemma Periodic(t: real, s: real, cycle: real, n: nat)
    requires 0.0 <= t && 0.0 < cycle && n >= 1
    requires s == t + n as real * cycle
    ensures 0.0 <= s
    ensures CycleIndex(s, cycle, n) == CycleIndex(t, cycle, n)
    ensures CyclePhase(s, cycle) == CyclePhase(t, cycle)
  {
    LaterCycle(t, s, cycle, n, n);
    var i := CycleIndex(t, cycle, n);
    DivModUnique(i + n, 1, i, n);
  }

  /**
   * Two times mirrored about the middle of the `k`-th cycle fall in the same
   * cycle, and their phases add up to one.
   */
  lemma MirroredCycle(t1: real, t2: real, cycle: real, n: nat, k: nat, s: real)
    requires 0.0 < cycle && n >= 1 && 0.0 < s < cycle
    requires t1 == k as real * cycle + s
    requires t2 == (k + 1) as real * cycle - s
    ensures 0.0 <= t1 && 0.0 <= t2
    ensures CycleIndex(t1, cycle, n) == CycleIndex(t2, cycle, n) == k % n
    ensures CyclePhase(t1, cycle) + CyclePhase(t2, cycle) == 1.0
  {
    MirroredTimes(k as real, cycle, s, t1, t2);
    WithinCycle(t1, cycle, n, k);
    WithinCycle(t2, cycle, n, k);
  }

  lemma MirroredTimes(k: real, c: real, s: real, t1: real, t2: real)
    requires 0.0 < s < c
    requires t1 == k * c + s && t2 == (k + 1.0) * c - s
    ensures k * c <= t1 < (k + 1.0) * c
    ensures k * c <= t2 < (k + 1.0) * c
    ensures (t1 / c - k) + (t2 / c - k) == 1.0
  {
    DivOfShifted(s, c, k, t1);
    DivOfShifted(-s, c, k + 1.0, t2);
  }
}
