/**
 * `WaveColorAnimator`: the gradient of the gradient animator, sliding along
 * its axis over time and wrapping around, so that colour bands travel across
 * the tree.
 */
module ColorWave {
  import opened Vectors
  import opened Optional
  import opened JsMath
  import opened GradientAxis
  import opened ThreeUtils
  import opened AnimatorProtocol

  /** The constructor's defaults. */
  const DefaultCycleLengthMillis: real := 2500.0
  const DefaultScale: real := 1.0
  const DefaultIsSmooth: bool := false

  datatype WaveAnimator = WaveAnimator(
    colors: seq<Color>,
    direction: Vec3,
    cycleLengthMillis: real,
    scale: real,
    isSmooth: bool,
    axis: Option<Axis>)

  /**
   * At least two colours (the constructor's tuple type), a positive cycle
   * length and a non-negative scale: with a negative scale the remainder
   * below is negative and the palette lookup reads before the array.
   */
  predicate Valid(a: WaveAnimator) {
    |a.colors| >= 2 && a.cycleLengthMillis > 0.0 && a.scale >= 0.0
  }

  /**
   * A fresh animator: palette and direction as given, the axis unset, and the
   * constructor's defaults for the optional arguments left out.
   */
  function Create(colors: seq<Color>, direction: Vec3, cycleLengthMillis: Option<real>, scale: Option<real>,
                  isSmooth: Option<bool>): (a: WaveAnimator)
    ensures a.colors == colors && a.direction == direction && a.axis.None?
    ensures cycleLengthMillis.None? ==> a.cycleLengthMillis == 2500.0
    ensures cycleLengthMillis.Some? ==> a.cycleLengthMillis == cycleLengthMillis.value
    ensures scale.None? ==> a.scale == 1.0
    ensures scale.Some? ==> a.scale == scale.value
    ensures isSmooth.None? ==> !a.isSmooth
    ensures isSmooth.Some? ==> a.isSmooth == isSmooth.value
    ensures |colors| >= 2 && cycleLengthMillis.None? && scale.None? ==> Valid(a)
  {
    WaveAnimator(colors, direction, cycleLengthMillis.GetOr(DefaultCycleLengthMillis), scale.GetOr(DefaultScale),
      isSmooth.GetOr(DefaultIsSmooth), None)
  }

  /** `prepareUpdate`: the same axis recomputation as the gradient animator. */
  function PrepareUpdate(a: WaveAnimator, ctx: AnimatorContext): (r: WaveAnimator)
    ensures r.(axis := a.axis) == a
    ensures ctx.hasBoundingBoxChanged ==> r.axis == Some(ComputeAxis(ctx.boundingBox, a.direction))
    ensures !ctx.hasBoundingBoxChanged ==> r == a
  {
    a.(axis := RefreshAxis(a.axis, a.direction, ctx.boundingBox, ctx.hasBoundingBoxChanged))
  }

  /**
   * `(alpha + t / cycle) * scale`: the light's position along the axis,
   * shifted by the number of cycles elapsed, in units of the palette's span.
   */
  function WavePosition(alpha: real, t: real, cycle: real, scale: real): (x: real)
    requires 0.0 <= alpha && 0.0 <= t && 0.0 < cycle && 0.0 <= scale
    ensures 0.0 <= x
  {
    NonNegativeQuotient(t, cycle);
    MulMonotone(0.0, alpha + t / cycle, scale);
    (alpha + t / cycle) * scale
  }

  /** The position wrapped into `[0, 1)` by `% 1`. */
  function WaveAlpha(alpha: real, t: real, cycle: real, scale: real): (w: real)
    requires 0.0 <= alpha && 0.0 <= t && 0.0 < cycle && 0.0 <= scale
    ensures 0.0 <= w < 1.0
  {
    JsModNonNegative(WavePosition(alpha, t, cycle, scale), 1.0);
    JsMod(WavePosition(alpha, t, cycle, scale), 1.0)
  }

  /** `colorLight`: the palette lookup of the shifted alpha. */
  function ColorLight(a: WaveAnimator, timeMillis: nat, p: Vec3): (c: Color)
    requires Valid(a) && a.axis.Some?
    ensures OnPaletteSegment(a.colors, c, a.isSmooth)
  {
    var w := WaveAlpha(Alpha(a.axis.value, p), timeMillis as real, a.cycleLengthMillis, a.scale);
    LerpGradient(a.colors, w, a.isSmooth)
  }

  /**
   * `colorLight` as the original computes it: the length of the projection
   * divided by the axis length is `0 / 0`, i.e. `NaN`, on a zero-length axis,
   * and the palette lookup of `NaN` then has no colour to return. Elsewhere it
   * is the colour above.
   */
  function ColorLightAsWritten(a: WaveAnimator, timeMillis: nat, p: Vec3): (c: Option<Color>)
    requires Valid(a) && a.axis.Some?
    ensures c.None? <==> Dot(a.axis.value.vector, a.axis.value.vector) == 0.0
    ensures c.Some? ==> c.value == ColorLight(a, timeMillis, p)
  {
    match AlphaAsWritten(a.axis.value, p)
    case None => None
    case Some(alpha) =>
      var w := WaveAlpha(Alpha(a.axis.value, p), timeMillis as real, a.cycleLengthMillis, a.scale);
      assert alpha == Alpha(a.axis.value, p);
      Some(LerpGradient(a.colors, w, a.isSmooth))
  }

  /**
   * A wave over a single light: the prepared axis has length zero, so that
   * light gets no colour from the original at any time.
   */
  lemma SingleLightHasNoColor(a: WaveAnimator, ctx: AnimatorContext, timeMillis: nat, p: Vec3)
    requires Valid(a) && ctx.hasBoundingBoxChanged && ctx.boundingBox == Bounds([p])
    ensures ColorLightAsWritten(PrepareUpdate(a, ctx), timeMillis, p) == None
  {
    SingleLightAlphaIsNaN(p, a.direction);
  }

  /**
   * One period, `cycle / scale`, later every light shows the same colour
   * again.
   */
  lemma Periodic(a: WaveAnimator, t1: nat, t2: nat, p: Vec3)
    requires Valid(a) && a.axis.Some? && a.scale > 0.0
    requires t2 as real == t1 as real + a.cycleLengthMillis / a.scale
    ensures ColorLight(a, t2, p) == ColorLight(a, t1, p)
  {
    WaveAlphaPeriodic(Alpha(a.axis.value, p), t1 as real, t2 as real, a.cycleLengthMillis, a.scale);
  }

  lemma WaveAlphaPeriodic(alpha: real, t1: real, t2: real, c: real, s: real)
    requires 0.0 <= alpha && 0.0 <= t1 && 0.0 < c && 0.0 < s && t2 == t1 + c / s
    ensures 0.0 <= t2
    ensures WaveAlpha(alpha, t2, c, s) == WaveAlpha(alpha, t1, c, s)
  {
    NonNegativeQuotient(c, s);
    ShiftedByOne(alpha, t1, t2, c, s, WavePosition(alpha, t1, c, s), WavePosition(alpha, t2, c, s));
    JsModOneStep(WavePosition(alpha, t1, c, s), WavePosition(alpha, t2, c, s));
  }

  /** Moving on by `cycle / scale` adds exactly one to the position. */
  lemma ShiftedByOne(alpha: real, t1: real, t2: real, c: real, s: real, x1: real, x2: real)
    requires 0.0 < c && 0.0 < s && t2 == t1 + c / s
    requires x1 == (alpha + t1 / c) * s && x2 == (alpha + t2 / c) * s
    ensures x2 == x1 + 1.0
  {
    assert t2 / c == t1 / c + 1.0 / s;
    assert (1.0 / s) * s == 1.0;
  }

  /**
   * At time zero with the default scale a light short of the axis's far end
   * shows its colour from the gradient animator.
   */
  lemma StartsAsGradient(a: WaveAnimator, p: Vec3)
    requires Valid(a) && a.axis.Some? && a.scale == 1.0
    requires Alpha(a.axis.value, p) < 1.0
    ensures ColorLight(a, 0, p) == LerpGradient(a.colors, Alpha(a.axis.value, p), a.isSmooth)
  {
    var alpha := Alpha(a.axis.value, p);
    assert 0.0 / a.cycleLengthMillis == 0.0;
    JsModNonNegative(alpha, 1.0);
    assert alpha / 1.0 == alpha;
    assert Floor(alpha) == 0;
  }

  /** With scale zero the wave stands still on the first colour. */
  lemma ZeroScaleIsFirstColor(a: WaveAnimator, timeMillis: nat, p: Vec3)
    requires Valid(a) && a.axis.Some? && a.scale == 0.0
    ensures ColorLight(a, timeMillis, p) == a.colors[0]
  {
    var alpha := Alpha(a.axis.value, p);
    assert (alpha + timeMillis as real / a.cycleLengthMillis) * 0.0 == 0.0;
    assert JsMod(0.0, 1.0) == 0.0;
  }
}
