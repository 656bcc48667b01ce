/**
 * `BreathingColorAnimator`: all lights show the same palette entry, which
 * fades in from black and back out over each cycle; the next cycle uses the
 * next entry.
 */
module ColorBreathing {
  import opened Vectors
  import opened Optional
  import opened JsMath
  import opened Cycles

  /** The cycle length when the constructor is given none. */
  const DefaultCycleLengthMillis: real := 4000.0

  datatype BreathingAnimator = BreathingAnimator(colors: seq<Color>, cycleLengthMillis: real)

  /** At least one colour (the constructor's tuple type) and a positive cycle length. */
  predicate Valid(a: BreathingAnimator) {
    |a.colors| >= 1 && a.cycleLengthMillis > 0.0
  }

  /** A fresh animator: the palette as given, and the default cycle length unless one is given. */
  function Create(colors: seq<Color>, cycleLengthMillis: Option<real>): (a: BreathingAnimator)
    ensures a.colors == colors
    ensures cycleLengthMillis.None? ==> a.cycleLengthMillis == 4000.0
    ensures cycleLengthMillis.Some? ==> a.cycleLengthMillis == cycleLengthMillis.value
    ensures |colors| >= 1 && cycleLengthMillis.None? ==> Valid(a)
  {
    BreathingAnimator(colors, cycleLengthMillis.GetOr(DefaultCycleLengthMillis))
  }

  /**
   * `cosPhase(f)` stands for `Math.cos(f * 2 * Math.PI - Math.PI)`, the cosine
   * shifted so that a cycle starts at its minimum. The model relies only on
   * these facts about it: its range, its values at the start and in the
   * middle of the cycle, and its symmetry about the middle.
   */
  ghost predicate IsShiftedCosine(cosPhase: real -> real) {
    && (forall f :: -1.0 <= cosPhase(f) <= 1.0)
    && cosPhase(0.0) == -1.0
    && cosPhase(0.5) == 1.0
    && (forall f, g :: f + g == 1.0 ==> cosPhase(f) == cosPhase(g))
  }

  /** `Math.cos(f * 2 * Math.PI - Math.PI) / 2 + 0.5`: the brightness at phase `f`. */
  function Intensity(f: real, cosPhase: real -> real): (k: real)
    requires IsShiftedCosine(cosPhase)
    ensures 0.0 <= k <= 1.0
    ensures f == 0.0 ==> k == 0.0
    ensures f == 0.5 ==> k == 1.0
  {
    cosPhase(f) / 2.0 + 0.5
  }

  /** `c` is `base` dimmed: scaled by a factor between zero and one. */
  ghost predicate DimmedOf(c: Color, base: Color) {
    exists k :: 0.0 <= k <= 1.0 && c == Scale(base, k)
  }

  /**
   * `colorLight`: the current cycle's palette entry scaled by the brightness
   * of the phase.
   */
  function ColorLight(a: BreathingAnimator, timeMillis: nat, cosPhase: real -> real): (c: Color)
    requires Valid(a) && IsShiftedCosine(cosPhase)
    ensures DimmedOf(c, a.colors[CycleIndex(timeMillis as real, a.cycleLengthMillis, |a.colors|)])
  {
    var t := timeMillis as real;
    var i := CycleIndex(t, a.cycleLengthMillis, |a.colors|);
    var k := Intensity(CyclePhase(t, a.cycleLengthMillis), cosPhase);
    Scale(a.colors[i], k)
  }

  /** Every cycle starts dark. */
  lemma DarkAtCycleStart(a: BreathingAnimator, timeMillis: nat, k: nat, cosPhase: real -> real)
    requires Valid(a) && IsShiftedCosine(cosPhase)
    requires timeMillis as real == k as real * a.cycleLengthMillis
    ensures ColorLight(a, timeMillis, cosPhase) == Black
  {
    CycleStart(timeMillis as real, a.cycleLengthMillis, |a.colors|, k);
  }

  /** Half-way through the `k`-th cycle the lights show palette entry `k mod n` at full strength. */
  lemma FullAtHalfCycle(a: BreathingAnimator, timeMillis: nat, k: nat, cosPhase: real -> real)
    requires Valid(a) && IsShiftedCosine(cosPhase)
    requires timeMillis as real == (k as real + 0.5) * a.cycleLengthMillis
    ensures ColorLight(a, timeMillis, cosPhase) == a.colors[k % |a.colors|]
  {
    var c := a.cycleLengthMillis;
    HalfCycleBounds(k as real, c, timeMillis as real);
    WithinCycle(timeMillis as real, c, |a.colors|, k);
    DivOfMultiple(k as real + 0.5, c);
  }

  lemma HalfCycleBounds(k: real, c: real, t: real)
    requires 0.0 < c && t == (k + 0.5) * c
    ensures k * c <= t < (k + 1.0) * c
  {
  }

  /**
   * Within one cycle the brightness is symmetric: `s` after the start and `s`
   * before the end look the same.
   */
  lemma Symmetric(a: BreathingAnimator, t1: nat, t2: nat, k: nat, s: real, cosPhase: real -> real)
    requires Valid(a) && IsShiftedCosine(cosPhase)
    requires 0.0 < s < a.cycleLengthMillis
    requires t1 as real == k as real * a.cycleLengthMillis + s
    requires t2 as real == (k + 1) as real * a.cycleLengthMillis - s
    ensures ColorLight(a, t1, cosPhase) == ColorLight(a, t2, cosPhase)
  {
    MirroredCycle(t1 as real, t2 as real, a.cycleLengthMillis, |a.colors|, k, s);
    var f1 := CyclePhase(t1 as real, a.cycleLengthMillis);
    var f2 := CyclePhase(t2 as real, a.cycleLengthMillis);
    assert cosPhase(f1) == cosPhase(f2);
  }
}
