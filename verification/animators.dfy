/**
 * The `LightAnimator` interface: the seven animators behind one type, and
 * the two calls the host makes on it each frame, `prepareUpdate` once and
 * then `colorLight` per light.
 */
module Animators {
  import opened Vectors
  import opened Optional
  import opened AnimatorProtocol
  import ArrayExtensions
  import opened GradientAxis
  import opened ThreeUtils
  import ColorStatic
  import ColorMixed
  import ColorGradient
  import ColorWave
  import ColorShift
  import ColorBreathing
  import BlinkingStars

  datatype Animator =
    | Static(staticAnimator: ColorStatic.StaticColorAnimator)
    | Mixed(mixed: ColorMixed.MixedAnimator)
    | Gradient(gradient: ColorGradient.GradientAnimator)
    | Wave(wave: ColorWave.WaveAnimator)
    | Shift(shift: ColorShift.ColorShiftAnimator)
    | Breathing(breathing: ColorBreathing.BreathingAnimator)
    | Stars(stars: BlinkingStars.StarsAnimator)

  /** The configuration each animator's code relies on. */
  predicate Valid(a: Animator) {
    match a
    case Static(_) => true
    case Mixed(m) => ColorMixed.Valid(m)
    case Gradient(g) => ColorGradient.Valid(g)
    case Wave(w) => ColorWave.Valid(w)
    case Shift(s) => ColorShift.Valid(s)
    case Breathing(b) => ColorBreathing.Valid(b)
    case Stars(s) => BlinkingStars.Valid(s)
  }

  /** The same kind of animator. */
  predicate SameKind(a: Animator, b: Animator) {
    match a
    case Static(_) => b.Static?
    case Mixed(_) => b.Mixed?
    case Gradient(_) => b.Gradient?
    case Wave(_) => b.Wave?
    case Shift(_) => b.Shift?
    case Breathing(_) => b.Breathing?
    case Stars(_) => b.Stars?
  }

  /**
   * The animator's state agrees with the lights it will be asked about,
   * except for what the change flags announce: unless the light count
   * changed, the per-light colours are sized to it and the star queue has no
   * more stars than lights can be drawn; unless the box changed, the axis is
   * the one computed from it.
   */
  predicate Fits(a: Animator, lightCount: nat, box: Box, countChanged: bool, boxChanged: bool) {
    match a
    case Mixed(m) => !countChanged ==> |m.lightColors| == lightCount
    case Stars(s) => !countChanged ==> |s.lightQueue| <= BlinkingStars.CandidateCount(lightCount)
    case Gradient(g) => !boxChanged ==> g.axis == Some(ComputeAxis(box, g.direction))
    case Wave(w) => !boxChanged ==> w.axis == Some(ComputeAxis(box, w.direction))
    case _ => true
  }

  /** Fits with nothing announced: the state `colorLight` may be called in. */
  predicate Ready(a: Animator, lightCount: nat, box: Box) {
    Fits(a, lightCount, box, false, false)
  }

  /**
   * Facts the animators keep about their own state: held and star colours
   * come from the palette, and no light is a star twice.
   */
  ghost predicate Sound(a: Animator) {
    match a
    case Mixed(m) => ColorMixed.FromPalette(m)
    case Stars(s) => BlinkingStars.DistinctLights(s.lightQueue) && BlinkingStars.StarsFromPalette(s)
    case _ => true
  }

  /** `c` is a colour the animator's configuration can produce. */
  ghost predicate Paints(a: Animator, c: Color) {
    match a
    case Static(s) => c == s.color
    case Mixed(m) => c in m.colors
    case Gradient(g) => OnPaletteSegment(g.colors, c, false)
    case Wave(w) => OnPaletteSegment(w.colors, c, w.isSmooth)
    case Shift(s) => OnPaletteSegment(s.colors, c, true)
    case Breathing(b) => exists i :: 0 <= i < |b.colors| && ColorBreathing.DimmedOf(c, b.colors[i])
    case Stars(s) => c == Black || c in s.colors
  }

  /**
   * What `prepareUpdate` may do to each kind: the stateless animators stay as
   * they are; the gradient and the wave refresh their axis; the mixed animator
   * keeps its palette and resizes its held colours, new ones from the palette,
   * only when the count changed; the stars keep their configuration and spend
   * the elapsed time, keeping its remainder.
   */
  ghost predicate PreparedFrom(a: Animator, ctx: AnimatorContext, r: Animator) {
    match a
    case Static(_) => r == a
    case Shift(_) => r == a
    case Breathing(_) => r == a
    case Gradient(g) => r == Gradient(ColorGradient.PrepareUpdate(g, ctx))
    case Wave(w) => r == Wave(ColorWave.PrepareUpdate(w, ctx))
    case Mixed(m) =>
      && r.Mixed? && r.mixed.colors == m.colors
      && (ctx.hasLightCountChanged ==> ArrayExtensions.ResizedTo(m.lightColors, r.mixed.lightColors, ctx.lightCount))
      && (!ctx.hasLightCountChanged ==> r == a)
      && (forall k :: |m.lightColors| <= k < |r.mixed.lightColors| ==> r.mixed.lightColors[k] in m.colors)
    case Stars(s) => r.Stars? && BlinkingStars.Valid(s) && BlinkingStars.PreparedFrom(s, ctx, r.stars)
  }

  /**
   * `prepareUpdate`: whatever the flags announced, the prepared animator is
   * ready for the frame's lights and box, is what its kind's `prepareUpdate`
   * makes of the installed one, and keeps its own invariants.
   */
  method PrepareUpdate(a: Animator, ctx: AnimatorContext) returns (r: Animator)
    requires Valid(a)
    requires Fits(a, ctx.lightCount, ctx.boundingBox, ctx.hasLightCountChanged, ctx.hasBoundingBoxChanged)
    ensures Valid(r) && SameKind(a, r)
    ensures PreparedFrom(a, ctx, r)
    ensures Ready(r, ctx.lightCount, ctx.boundingBox)
    ensures Sound(a) ==> Sound(r)
    ensures a.Static? || a.Shift? || a.Breathing? ==> r == a
    ensures !ctx.hasLightCountChanged && !ctx.hasBoundingBoxChanged && (a.Mixed? || a.Gradient? || a.Wave?) ==> r == a
  {
    match a
    case Static(_) => r := a;
    case Shift(_) => r := a;
    case Breathing(_) => r := a;
    case Mixed(m) =>
      var m' := ColorMixed.PrepareUpdate(m, ctx);
      r := Mixed(m');
    case Gradient(g) =>
      r := Gradient(ColorGradient.PrepareUpdate(g, ctx));
    case Wave(w) =>
      r := Wave(ColorWave.PrepareUpdate(w, ctx));
    case Stars(s) =>
      var s' := BlinkingStars.PrepareUpdate(s, ctx);
      r := Stars(s');
  }

  /**
   * What `colorLight` needs beyond readiness: a light the state was sized
   * for, a position inside the box the axis was computed from, and for the
   * breathing animator a cosine.
   */
  ghost predicate CanColor(a: Animator, ctx: AnimatorContext, lightIndex: nat, p: Vec3, cosPhase: real -> real) {
    && lightIndex < ctx.lightCount
    && (a.Gradient? ==> Contains(ctx.boundingBox, p))
    && (a.Breathing? ==> ColorBreathing.IsShiftedCosine(cosPhase))
  }

  /**
   * `colorLight(context, lightIndex, lightPosition)`: each animator reads the
   * part of the query it uses. Every colour is one the configuration can
   * produce.
   */
  function ColorLight(a: Animator, ctx: AnimatorContext, lightIndex: nat, p: Vec3, cosPhase: real -> real): (c: Color)
    requires Valid(a) && Ready(a, ctx.lightCount, ctx.boundingBox)
    requires CanColor(a, ctx, lightIndex, p, cosPhase)
    ensures Sound(a) ==> Paints(a, c)
  {
    match a
    case Static(s) => ColorStatic.ColorLight(s, ctx, lightIndex, p)
    case Mixed(m) => ColorMixed.ColorLight(m, lightIndex)
    case Gradient(g) =>
      ColorGradient.PreparedColorsContainedLights(g.(axis := None), ctx.(hasBoundingBoxChanged := true), p);
      ColorGradient.ColorLight(g, p)
    case Wave(w) => ColorWave.ColorLight(w, ctx.timeMillis, p)
    case Shift(s) => ColorShift.ColorLight(s, ctx.timeMillis)
    case Breathing(b) => ColorBreathing.ColorLight(b, ctx.timeMillis, cosPhase)
    case Stars(s) => BlinkingStars.ColorLight(s, lightIndex)
  }
}
