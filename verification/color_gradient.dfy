/**
 * `GradientColorAnimator`: a fixed colour gradient laid across the tree along
 * one direction, first colour at the back face of the bounding box and last
 * colour at the front face.
 */
module ColorGradient {
  import opened Vectors
  import opened Optional
  import opened GradientAxis
  import opened ThreeUtils
  import opened AnimatorProtocol

  /**
   * The palette, the direction, and the axis computed from the most recent
   * bounding box (`None` before the first computation, when the original's
   * fields are still unset).
   */
  datatype GradientAnimator = GradientAnimator(colors: seq<Color>, direction: Vec3, axis: Option<Axis>)

  /** At least two colours (the constructor's tuple type). */
  predicate Valid(a: GradientAnimator) {
    |a.colors| >= 2
  }

  /** A fresh animator, pointing up unless a direction is given. */
  function Create(colors: seq<Color>, direction: Option<Vec3>): (a: GradientAnimator)
    ensures a.colors == colors && a.axis.None?
    ensures direction.None? ==> a.direction == Up
    ensures direction.Some? ==> a.direction == direction.value
  {
    GradientAnimator(colors, direction.GetOr(Up), None)
  }

  /** `prepareUpdate`: recompute the axis when the bounding box changed. */
  function PrepareUpdate(a: GradientAnimator, ctx: AnimatorContext): (r: GradientAnimator)
    ensures r.colors == a.colors && r.direction == a.direction
    ensures ctx.hasBoundingBoxChanged ==> r.axis == Some(ComputeAxis(ctx.boundingBox, a.direction))
    ensures !ctx.hasBoundingBoxChanged ==> r == a
  {
    a.(axis := RefreshAxis(a.axis, a.direction, ctx.boundingBox, ctx.hasBoundingBoxChanged))
  }

  /**
   * The state in which `colorLight` yields a colour for a light at `p`: the
   * axis has been computed and the light's alpha is in `[0, 1]`, the domain
   * of `lerpGradient`.
   */
  predicate CanColor(a: GradientAnimator, p: Vec3) {
    a.axis.Some? && 0.0 <= Alpha(a.axis.value, p) <= 1.0
  }

  /** `colorLight`: the banded gradient at the light's position along the axis. */
  function ColorLight(a: GradientAnimator, p: Vec3): (c: Color)
    requires Valid(a) && CanColor(a, p)
    ensures OnPaletteSegment(a.colors, c, false)
  {
    LerpGradient(a.colors, Alpha(a.axis.value, p), false)
  }

  /**
   * `colorLight` as the original computes it: `None` where the original has
   * no colour, because the alpha is `NaN` or outside `[0, 1]` and the palette
   * lookup reads past the array.
   */
  function ColorLightAsWritten(a: GradientAnimator, p: Vec3): (c: Option<Color>)
    requires Valid(a) && a.axis.Some?
    ensures c.Some? ==> CanColor(a, p) && c.value == ColorLight(a, p)
    ensures c.None? <==> AlphaAsWritten(a.axis.value, p).None? || !CanColor(a, p)
  {
    match AlphaAsWritten(a.axis.value, p)
    case None => None
    case Some(alpha) => if 0.0 <= alpha <= 1.0 then Some(LerpGradient(a.colors, alpha, false)) else None
  }

  /**
   * Once the axis has been computed from a box, every light inside that box
   * gets a colour.
   */
  lemma PreparedColorsContainedLights(a: GradientAnimator, ctx: AnimatorContext, p: Vec3)
    requires ctx.hasBoundingBoxChanged && Contains(ctx.boundingBox, p)
    ensures CanColor(PrepareUpdate(a, ctx), p)
  {
    AlphaWithinBox(ctx.boundingBox, a.direction, p);
  }

  /** Preparing twice for the same frame is preparing once. */
  lemma PrepareIdempotent(a: GradientAnimator, ctx: AnimatorContext)
    ensures PrepareUpdate(PrepareUpdate(a, ctx), ctx) == PrepareUpdate(a, ctx)
  {
    RefreshIdempotent(a.axis, a.direction, ctx.boundingBox, ctx.hasBoundingBoxChanged);
  }

  /** The light at the axis origin shows the first colour, the one at its far end the last. */
  lemma EndsShowFirstAndLast(a: GradientAnimator)
    requires Valid(a) && a.axis.Some?
    ensures CanColor(a, a.axis.value.origin)
    ensures ColorLight(a, a.axis.value.origin) == a.colors[0]
    ensures Dot(a.axis.value.vector, a.axis.value.vector) != 0.0 ==>
      CanColor(a, Add(a.axis.value.origin, a.axis.value.vector)) &&
      ColorLight(a, Add(a.axis.value.origin, a.axis.value.vector)) == a.colors[|a.colors| - 1]
  {
    AlphaAtOrigin(a.axis.value);
    if Dot(a.axis.value.vector, a.axis.value.vector) != 0.0 {
      AlphaAtEnd(a.axis.value);
    }
  }

  /**
   * With the default direction the gradient runs bottom to top: a light's
   * colour is the palette lookup of its height within the box.
   */
  lemma DefaultRunsBottomToTop(a: GradientAnimator, ctx: AnimatorContext, p: Vec3)
    requires Valid(a) && a.direction == Up
    requires ctx.hasBoundingBoxChanged && Contains(ctx.boundingBox, p)
    requires ctx.boundingBox.max.y > ctx.boundingBox.min.y
    ensures CanColor(PrepareUpdate(a, ctx), p)
    ensures ColorLight(PrepareUpdate(a, ctx), p) ==
      LerpGradient(a.colors, HeightFraction(ctx.boundingBox, p), false)
  {
    PreparedColorsContainedLights(a, ctx, p);
    UpAlpha(ctx.boundingBox, p);
  }

  /**
   * A gradient over a single light: the box has size zero, so the original's
   * alpha is `0 / 0` and the light gets no colour.
   */
  lemma SingleLightHasNoColor(a: GradientAnimator, ctx: AnimatorContext, p: Vec3)
    requires Valid(a) && ctx.hasBoundingBoxChanged && ctx.boundingBox == Bounds([p])
    ensures ColorLightAsWritten(PrepareUpdate(a, ctx), p) == None
  {
    SingleLightAlphaIsNaN(p, a.direction);
  }
}
