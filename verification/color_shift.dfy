/**
 * `ColorShiftAnimator`: all lights show the same colour, which moves from one
 * palette entry to the next over each cycle and wraps from the last back to
 * the first.
 */
module ColorShift {
  import opened Vectors
  import opened Optional
  import opened JsMath
  import opened Cycles
  import opened ThreeUtils

  /** The cycle length when the constructor is given none. */
  const DefaultCycleLengthMillis: real := 4000.0

  datatype ColorShiftAnimator = ColorShiftAnimator(colors: seq<Color>, cycleLengthMillis: real)

  /** At least two colours (the constructor's tuple type) and a positive cycle length. */
  predicate Valid(a: ColorShiftAnimator) {
    |a.colors| >= 2 && a.cycleLengthMillis > 0.0
  }

  /** A fresh animator: the palette as given, and the default cycle length unless one is given. */
  function Create(colors: seq<Color>, cycleLengthMillis: Option<real>): (a: ColorShiftAnimator)
    ensures a.colors == colors
    ensures cycleLengthMillis.None? ==> a.cycleLengthMillis == 4000.0
    ensures cycleLengthMillis.Some? ==> a.cycleLengthMillis == cycleLengthMillis.value
    ensures |colors| >= 2 && cycleLengthMillis.None? ==> Valid(a)
  {
    ColorShiftAnimator(colors, cycleLengthMillis.GetOr(DefaultCycleLengthMillis))
  }

  /**
   * `colorLight`: the colour `t / cycle % 1` of the way from the current
   * cycle's palette entry to the next one, the last entry blending into the
   * first.
   */
  function ColorLight(a: ColorShiftAnimator, timeMillis: nat): (c: Color)
    requires Valid(a)
    ensures OnPaletteSegment(a.colors, c, true)
    ensures
      var i := CycleIndex(timeMillis as real, a.cycleLengthMillis, |a.colors|);
      exists f :: 0.0 <= f < 1.0 && c == Lerp(a.colors[i], a.colors[NextCyclic(i, |a.colors|)], f)
  {
    var n := |a.colors|;
    var t := timeMillis as real;
    var i := CycleIndex(t, a.cycleLengthMillis, n);
    var f := CyclePhase(t, a.cycleLengthMillis);
    var c := Lerp(a.colors[i], a.colors[NextCyclic(i, n)], f);
    CyclicSegment(a.colors, i, f, c);
    c
  }

  /**
   * During the `k`-th cycle the colour is the fraction of the cycle elapsed of
   * the way from entry `k mod n` to entry `k + 1 mod n`.
   */
  lemma DuringCycle(a: ColorShiftAnimator, timeMillis: nat, k: nat)
    requires Valid(a)
    requires k as real * a.cycleLengthMillis <= timeMillis as real < (k + 1) as real * a.cycleLengthMillis
    ensures ColorLight(a, timeMillis) ==
      Lerp(a.colors[k % |a.colors|], a.colors[(k + 1) % |a.colors|],
           timeMillis as real / a.cycleLengthMillis - k as real)
  {
    var n := |a.colors|;
    WithinCycle(timeMillis as real, a.cycleLengthMillis, n, k);
    ModShift(k, 1, n);
    if k % n == n - 1 {
      DivModUnique(k % n + 1, 1, 0, n);
    } else {
      DivModUnique(k % n + 1, 0, k % n + 1, n);
    }
  }

  /** At the start of the `k`-th cycle every light shows palette entry `k mod n` exactly. */
  lemma AtCycleStart(a: ColorShiftAnimator, timeMillis: nat, k: nat)
    requires Valid(a)
    requires timeMillis as real == k as real * a.cycleLengthMillis
    ensures ColorLight(a, timeMillis) == a.colors[k % |a.colors|]
  {
    CycleStart(timeMillis as real, a.cycleLengthMillis, |a.colors|, k);
  }

  /** The colour repeats after `n` cycles, `n` being the palette size. */
  lemma Periodic(a: ColorShiftAnimator, t1: nat, t2: nat)
    requires Valid(a)
    requires t2 as real == t1 as real + |a.colors| as real * a.cycleLengthMillis
    ensures ColorLight(a, t2) == ColorLight(a, t1)
  {
    Cycles.Periodic(t1 as real, t2 as real, a.cycleLengthMillis, |a.colors|);
  }
}
