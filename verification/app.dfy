/**
 * `TreeVisualizationApp` without rendering: the lights with their positions
 * and displayed colours, the animator, and the change flags that tell the
 * animator, once, what changed since the previous frame.
 */
module TreeApp {
  import opened Vectors
  import opened Optional
  import opened JsMath
  import opened AnimatorProtocol
  import opened GradientAxis
  import ArrayExtensions
  import ColorStatic
  import ColorGradient
  import ColorBreathing
  import opened Animators

  // ---------------------------------------------------------------------------
  // Displayed colours

  /** `LIGHT_OFF_COLOR`, `0x101010`: every channel at 16/255. */
  const OffLevel: real := 16.0 / 255.0
  const OffColor: Color := Vec3(OffLevel, OffLevel, OffLevel)

  /** `LIGHT_ON_DELTA`: white minus the off colour, channel by channel. */
  const OnDelta: Color := Vec3(1.0 - OffLevel, 1.0 - OffLevel, 1.0 - OffLevel)

  /**
   * `color * LIGHT_ON_DELTA + LIGHT_OFF_COLOR`: the animator's colour squeezed
   * into `[OFF, 1]`, so an unlit light still glows faintly.
   */
  function Cap(c: Color): (d: Color)
    ensures Within(c, 0.0, 1.0) ==> Within(d, OffLevel, 1.0)
  {
    CapChannel(c.x);
    CapChannel(c.y);
    CapChannel(c.z);
    Add(Mul(c, OnDelta), OffColor)
  }

  lemma CapChannel(v: real)
    ensures 0.0 <= v <= 1.0 ==> OffLevel <= v * (1.0 - OffLevel) + OffLevel <= 1.0
  {
    if 0.0 <= v <= 1.0 {
      MulMonotone(0.0, v, 1.0 - OffLevel);
      MulMonotone(v, 1.0, 1.0 - OffLevel);
    }
  }

  /** The inverse of `Cap`: which animator colour a displayed colour came from. */
  function Uncap(d: Color): Color {
    Vec3((d.x - OffLevel) / (1.0 - OffLevel), (d.y - OffLevel) / (1.0 - OffLevel), (d.z - OffLevel) / (1.0 - OffLevel))
  }

  lemma UncapCap(c: Color)
    ensures Uncap(Cap(c)) == c
  {
    UncapChannel(c.x);
    UncapChannel(c.y);
    UncapChannel(c.z);
  }

  lemma UncapChannel(v: real)
    ensures (v * (1.0 - OffLevel) + OffLevel - OffLevel) / (1.0 - OffLevel) == v
  {
    assert v * (1.0 - OffLevel) + OffLevel - OffLevel == v * (1.0 - OffLevel);
    DivOfMultiple(v, 1.0 - OffLevel);
  }

  /** Different animator colours are displayed differently. */
  lemma CapInjective(a: Color, b: Color)
    requires Cap(a) == Cap(b)
    ensures a == b
  {
    UncapCap(a);
    UncapCap(b);
  }

  /** Black is displayed as the off colour, white as white. */
  lemma CapEnds()
    ensures Cap(Black) == OffColor
    ensures Cap(White) == White
  {
  }

  // ---------------------------------------------------------------------------
  // One light

  /**
   * `TreeLight`: a position, the colour last handed to `setColor` (none
   * yet for a new light), and the colour the light displays.
   */
  datatype TreeLight = TreeLight(position: Vec3, lastColor: Option<Color>, shown: Color)

  /** A new light displays the off colour. */
  function NewLight(p: Vec3): (l: TreeLight)
    ensures Displays(l) && l.position == p
  {
    TreeLight(p, None, OffColor)
  }

  /** The displayed colour is the capped last colour, or the off colour before the first. */
  predicate Displays(l: TreeLight) {
    l.shown == match l.lastColor
      case None => OffColor
      case Some(c) => Cap(c)
  }

  /**
   * `setColor`: skipped when the colour is the one handed over last time;
   * otherwise the capped colour is displayed. The skip is invisible: either
   * way the light displays the capped colour.
   */
  function SetColor(l: TreeLight, c: Color): (r: TreeLight)
    ensures r.position == l.position && r.lastColor == Some(c)
    ensures Displays(l) ==> Displays(r) && r.shown == Cap(c)
    ensures l.lastColor == Some(c) ==> r == l
  {
    if l.lastColor == Some(c) then l
    else TreeLight(l.position, Some(c), Cap(c))
  }

  // ---------------------------------------------------------------------------
  // The host

  datatype App = App(
    treeHeight: real,
    treeRadius: real,
    lights: seq<TreeLight>,
    animator: Animator,
    lastTimeMillis: nat,
    hasLightCountChanged: bool,
    boundingBox: Box,
    hasBoundingBoxChanged: bool)

  /** `lights.map(tl => tl.getPosition())`. */
  function Positions(lights: seq<TreeLight>): (ps: seq<Vec3>)
    ensures |ps| == |lights|
    ensures forall i :: 0 <= i < |lights| ==> ps[i] == lights[i].position
  {
    seq(|lights|, i requires 0 <= i < |lights| => lights[i].position)
  }

  /** Every light lies in the cached box. */
  predicate LightsInBox(app: App) {
    forall i :: 0 <= i < |app.lights| ==> Contains(app.boundingBox, app.lights[i].position)
  }

  /**
   * The state between frames: the cached box is the lights' bounding box,
   * the animator fits the lights up to what the flags announce, and every
   * light displays the capped colour it was last given.
   */
  ghost predicate Coherent(app: App) {
    && Valid(app.animator)
    && Sound(app.animator)
    && app.boundingBox == Bounds(Positions(app.lights))
    && LightsInBox(app)
    && Fits(app.animator, |app.lights|, app.boundingBox, app.hasLightCountChanged, app.hasBoundingBoxChanged)
    && (forall i :: 0 <= i < |app.lights| ==> Displays(app.lights[i]))
  }

  /** The cached box is the bounding box of the lights, so it contains them. */
  lemma BoundsHoldLights(app: App)
    requires app.boundingBox == Bounds(Positions(app.lights))
    ensures LightsInBox(app)
  {
    forall i | 0 <= i < |app.lights|
      ensures Contains(app.boundingBox, app.lights[i].position)
    {
      BoundsContains(Positions(app.lights), i);
    }
  }

  /** `OFF_ANIMATOR`, the animator used when none is given: every light black. */
  const Off: Animator := Static(ColorStatic.StaticColorAnimator(Black))

  /**
   * `OFF_ANIMATOR` as the original builds it: `new Color({color: 0})` is
   * given an object that is neither a number, a string nor a colour, so it
   * keeps three.js's default, white.
   */
  const OffAsWritten: Animator := Static(ColorStatic.StaticColorAnimator(White))

  /**
   * `setupLights(count)`: resize the lights, new ones placed by `place`
   * (standing for `createLight`); raise both flags if the count changed;
   * recompute the box from the positions.
   */
  function SetupLights(app: App, count: nat, place: nat -> Vec3): (r: App)
    ensures ArrayExtensions.ResizedTo(app.lights, r.lights, count)
    ensures forall k :: |app.lights| <= k < count ==> r.lights[k] == NewLight(place(k))
    ensures r.hasLightCountChanged <==> app.hasLightCountChanged || count != |app.lights|
    ensures r.hasBoundingBoxChanged <==> app.hasBoundingBoxChanged || count != |app.lights|
    ensures IsBoundingBox(r.boundingBox, Positions(r.lights))
    ensures r.animator == app.animator && r.lastTimeMillis == app.lastTimeMillis
    ensures r.treeHeight == app.treeHeight && r.treeRadius == app.treeRadius
  {
    var changed := |app.lights| != count;
    var lights := ArrayExtensions.Resize(app.lights, count, k => NewLight(place(k))).items;
    BoundsIsTight(Positions(lights));
    app.(
      lights := lights,
      hasLightCountChanged := app.hasLightCountChanged || changed,
      hasBoundingBoxChanged := app.hasBoundingBoxChanged || changed,
      boundingBox := Bounds(Positions(lights)))
  }

  /** Setting up as many lights as there are changes nothing. */
  lemma SetupSameCount(app: App, place: nat -> Vec3)
    requires app.boundingBox == Bounds(Positions(app.lights))
    ensures SetupLights(app, |app.lights|, place) == app
  {
  }

  /** Setting up lights keeps the host coherent, whatever the count. */
  lemma SetupKeepsCoherent(app: App, count: nat, place: nat -> Vec3)
    requires Coherent(app)
    ensures Coherent(SetupLights(app, count, place))
  {
    var r := SetupLights(app, count, place);
    BoundsHoldLights(r);
    ResizedLightsDisplay(app.lights, r.lights, count, place);
  }

  /** Kept lights keep displaying their colour, and new lights display the off colour. */
  lemma ResizedLightsDisplay(lights: seq<TreeLight>, resized: seq<TreeLight>, count: nat, place: nat -> Vec3)
    requires ArrayExtensions.ResizedTo(lights, resized, count)
    requires forall k :: |lights| <= k < count ==> resized[k] == NewLight(place(k))
    requires forall k :: 0 <= k < |lights| ==> Displays(lights[k])
    ensures forall k :: 0 <= k < |resized| ==> Displays(resized[k])
  {
    forall k | 0 <= k < |resized|
      ensures Displays(resized[k])
    {
      if k < |lights| {
        assert resized[k] == lights[k] by {
          if count <= |lights| {
            assert resized == lights[..count];
          } else {
            assert resized[..|lights|] == lights;
          }
        }
      }
    }
  }

  /** The constructor: no lights and the off animator, then `setupLights`. */
  function Create(treeHeight: real, treeRadius: real, initialLightCount: nat, now: nat, place: nat -> Vec3): (app: App)
    ensures |app.lights| == initialLightCount
    ensures app.animator == Off
    ensures app.hasLightCountChanged <==> initialLightCount > 0
    ensures app.hasBoundingBoxChanged <==> initialLightCount > 0
  {
    SetupLights(App(treeHeight, treeRadius, [], Off, now, false, Empty, false), initialLightCount, place)
  }

  lemma CreateIsCoherent(treeHeight: real, treeRadius: real, initialLightCount: nat, now: nat, place: nat -> Vec3)
    ensures Coherent(Create(treeHeight, treeRadius, initialLightCount, now, place))
  {
    SetupKeepsCoherent(App(treeHeight, treeRadius, [], Off, now, false, Empty, false), initialLightCount, place);
  }

  /** The snapshot `update` hands to the animator. */
  function FrameContext(app: App, now: nat): (ctx: AnimatorContext)
    ensures ctx.timeMillis == now && ctx.deltaTimeMillis == now - app.lastTimeMillis
    ensures ctx.lightCount == |app.lights| && ctx.boundingBox == app.boundingBox
    ensures ctx.hasLightCountChanged == app.hasLightCountChanged
    ensures ctx.hasBoundingBoxChanged == app.hasBoundingBoxChanged
  {
    AnimatorContext(now, now - app.lastTimeMillis, |app.lights|, app.hasLightCountChanged,
      app.boundingBox, app.hasBoundingBoxChanged)
  }

  /**
   * `update()` at time `now`: snapshot the context, clear the flags, prepare
   * the animator once, then colour every light that `visible` (the camera's
   * frustum test) admits, with its own index and position, using the animator
   * prepared from the installed one. The host stays coherent, and with the
   * flags cleared the prepared animator is ready.
   */
  method Update(app: App, now: nat, visible: (nat, Vec3) -> bool, cosPhase: real -> real)
    returns (r: App, ctx: AnimatorContext)
    requires Coherent(app)
    requires app.animator.Breathing? ==> ColorBreathing.IsShiftedCosine(cosPhase)
    ensures ctx == FrameContext(app, now)
    ensures r.lastTimeMillis == now && !r.hasLightCountChanged && !r.hasBoundingBoxChanged
    ensures r.treeHeight == app.treeHeight && r.treeRadius == app.treeRadius
    ensures r.boundingBox == app.boundingBox && Positions(r.lights) == Positions(app.lights)
    ensures SameKind(app.animator, r.animator) && PreparedFrom(app.animator, ctx, r.animator)
    ensures Coherent(r)
    ensures forall i :: 0 <= i < |r.lights| && !visible(i, r.lights[i].position) ==> r.lights[i] == app.lights[i]
    ensures forall i :: 0 <= i < |r.lights| && visible(i, r.lights[i].position) ==>
      r.lights[i].lastColor == Some(ColorLight(r.animator, ctx, i, r.lights[i].position, cosPhase)) &&
      r.lights[i].shown == Cap(r.lights[i].lastColor.value) &&
      Paints(r.animator, r.lights[i].lastColor.value)
    ensures app.animator.Static? &&
      (forall i :: 0 <= i < |app.lights| && visible(i, app.lights[i].position) ==>
        app.lights[i].lastColor == Some(app.animator.staticAnimator.color))
      ==> r.lights == app.lights
  {
    ctx := FrameContext(app, now);
    var animator := PrepareUpdate(app.animator, ctx);
    var lights := ColorVisibleLights(app.lights, animator, ctx, visible, cosPhase);
    r := App(app.treeHeight, app.treeRadius, lights, animator, now, false, app.boundingBox, false);
    assert Positions(lights) == Positions(app.lights);
  }

  /**
   * Under the static animator a frame hands every visible light the colour it
   * was given last, so every `setColor` is skipped and no light changes.
   */
  lemma StaticFrameUnchanged(lights: seq<TreeLight>, out: seq<TreeLight>, animator: Animator, ctx: AnimatorContext,
                             visible: (nat, Vec3) -> bool, cosPhase: real -> real)
    requires animator.Static? && Ready(animator, ctx.lightCount, ctx.boundingBox)
    requires |out| == |lights| == ctx.lightCount
    requires forall k :: 0 <= k < |lights| ==> Displays(lights[k]) && Displays(out[k])
    requires forall k :: 0 <= k < |lights| ==> out[k].position == lights[k].position
    requires forall k :: 0 <= k < |out| && !visible(k, out[k].position) ==> out[k] == lights[k]
    requires forall k :: 0 <= k < |out| && visible(k, out[k].position) ==>
      out[k].lastColor == Some(ColorLight(animator, ctx, k, out[k].position, cosPhase))
    requires forall k :: 0 <= k < |lights| && visible(k, lights[k].position) ==>
      lights[k].lastColor == Some(animator.staticAnimator.color)
    ensures out == lights
  {
    forall k | 0 <= k < |lights|
      ensures out[k] == lights[k]
    {
      if visible(k, out[k].position) {
        assert out[k].lastColor == lights[k].lastColor;
      }
    }
  }

  /**
   * The loop of `update`: every light the frustum test admits is handed the
   * ready animator's colour for its index and position; the others are left
   * alone.
   */
  method ColorVisibleLights(lights: seq<TreeLight>, animator: Animator, ctx: AnimatorContext,
                            visible: (nat, Vec3) -> bool, cosPhase: real -> real)
    returns (out: seq<TreeLight>)
    requires Valid(animator) && Ready(animator, ctx.lightCount, ctx.boundingBox)
    requires |lights| == ctx.lightCount
    requires forall k :: 0 <= k < |lights| ==> Contains(ctx.boundingBox, lights[k].position)
    requires animator.Breathing? ==> ColorBreathing.IsShiftedCosine(cosPhase)
    requires forall k :: 0 <= k < |lights| ==> Displays(lights[k])
    ensures |out| == |lights|
    ensures forall k :: 0 <= k < |lights| ==> out[k].position == lights[k].position
    ensures forall k :: 0 <= k < |out| ==> Displays(out[k])
    ensures forall k :: 0 <= k < |out| && !visible(k, out[k].position) ==> out[k] == lights[k]
    ensures forall k :: 0 <= k < |out| && visible(k, out[k].position) ==>
      out[k].lastColor == Some(ColorLight(animator, ctx, k, out[k].position, cosPhase))
    ensures animator.Static? &&
      (forall k :: 0 <= k < |lights| && visible(k, lights[k].position) ==>
        lights[k].lastColor == Some(animator.staticAnimator.color))
      ==> out == lights
  {
    out := lights;
    var i := 0;
    while i < |out|
      invariant 0 <= i <= |out| == |lights|
      invariant forall k :: 0 <= k < |out| ==> out[k].position == lights[k].position
      invariant forall k :: 0 <= k < |out| ==> Displays(out[k])
      invariant forall k :: i <= k < |out| ==> out[k] == lights[k]
      invariant forall k :: 0 <= k < i && !visible(k, out[k].position) ==> out[k] == lights[k]
      invariant forall k :: 0 <= k < i && visible(k, out[k].position) ==>
        out[k].lastColor == Some(ColorLight(animator, ctx, k, out[k].position, cosPhase))
    {
      if visible(i, out[i].position) {
        out := out[i := SetColor(out[i], ColorLight(animator, ctx, i, out[i].position, cosPhase))];
      }
      i := i + 1;
    }
    if animator.Static? &&
      (forall k :: 0 <= k < |lights| && visible(k, lights[k].position) ==>
        lights[k].lastColor == Some(animator.staticAnimator.color))
    {
      StaticFrameUnchanged(lights, out, animator, ctx, visible, cosPhase);
    }
  }

  // ---------------------------------------------------------------------------
  // Replacing the animator

  /**
   * `setAnimator(animator)`, corrected: the off animator when none is given,
   * and both flags raised, so that the new animator learns the light count
   * and the box.
   */
  function SetAnimator(app: App, animator: Option<Animator>): (r: App)
    ensures r.animator == (if animator.Some? then animator.value else Off)
    ensures r.hasLightCountChanged && r.hasBoundingBoxChanged
    ensures r.(animator := app.animator, hasLightCountChanged := app.hasLightCountChanged,
      hasBoundingBoxChanged := app.hasBoundingBoxChanged) == app
  {
    app.(animator := animator.GetOr(Off), hasLightCountChanged := true, hasBoundingBoxChanged := true)
  }

  /** Any valid animator can be installed: the next `update` can colour every light. */
  lemma SetAnimatorKeepsCoherent(app: App, animator: Option<Animator>)
    requires Coherent(app)
    requires animator.Some? ==> Valid(animator.value) && Sound(animator.value)
    ensures Coherent(SetAnimator(app, animator))
  {
  }

  /** `setAnimator` as the original writes it: only the light-count flag is raised. */
  function SetAnimatorAsWritten(app: App, animator: Option<Animator>): (r: App)
    ensures r.animator == (if animator.Some? then animator.value else OffAsWritten)
    ensures r.hasLightCountChanged && r.hasBoundingBoxChanged == app.hasBoundingBoxChanged
  {
    app.(animator := animator.GetOr(OffAsWritten), hasLightCountChanged := true)
  }

  /**
   * A gradient installed after the box was last announced gets no axis until
   * the box next changes: the next frame's context does not announce the box,
   * so the axis stays unset, and so does every later frame whose context does
   * not announce it either. Meanwhile the original's `colorLight` reads an
   * undefined origin.
   */
  lemma LateGradientHasNoAxis(app: App, colors: seq<Color>, direction: Option<Vec3>, now: nat)
    requires !app.hasBoundingBoxChanged
    ensures var r := SetAnimatorAsWritten(app, Some(Gradient(ColorGradient.Create(colors, direction))));
      && !Fits(r.animator, |r.lights|, r.boundingBox, r.hasLightCountChanged, r.hasBoundingBoxChanged)
      && ColorGradient.PrepareUpdate(r.animator.gradient, FrameContext(r, now)).axis.None?
    ensures var g := ColorGradient.Create(colors, direction);
      forall frames: seq<AnimatorContext> ::
        (forall k :: 0 <= k < |frames| ==> !frames[k].hasBoundingBoxChanged) ==> PrepareFrames(g, frames).axis.None?
  {
    var g := ColorGradient.Create(colors, direction);
    forall frames: seq<AnimatorContext> | forall k :: 0 <= k < |frames| ==> !frames[k].hasBoundingBoxChanged
      ensures PrepareFrames(g, frames).axis.None?
    {
      UnsetAxisStaysUnset(g, frames);
    }
  }

  /** A gradient prepared for each of a run of frames in turn. */
  function PrepareFrames(g: ColorGradient.GradientAnimator, frames: seq<AnimatorContext>): ColorGradient.GradientAnimator
    decreases |frames|
  {
    if frames == [] then g else PrepareFrames(ColorGradient.PrepareUpdate(g, frames[0]), frames[1..])
  }

  /** Frames that do not announce the box leave an unset axis unset. */
  lemma {:induction false} UnsetAxisStaysUnset(g: ColorGradient.GradientAnimator, frames: seq<AnimatorContext>)
    requires g.axis.None?
    requires forall k :: 0 <= k < |frames| ==> !frames[k].hasBoundingBoxChanged
    ensures PrepareFrames(g, frames).axis.None?
    decreases |frames|
  {
    if frames != [] {
      assert !frames[0].hasBoundingBoxChanged;
      UnsetAxisStaysUnset(ColorGradient.PrepareUpdate(g, frames[0]), frames[1..]);
    }
  }

  /** The off animator shows every light in the off colour. */
  lemma OffShowsOffColor(ctx: AnimatorContext, i: nat, p: Vec3, cosPhase: real -> real)
    requires i < ctx.lightCount
    ensures Cap(ColorLight(Off, ctx, i, p, cosPhase)) == OffColor
  {
    CapEnds();
  }

  /** The off animator as written shows every light in full white. */
  lemma OffAsWrittenShowsWhite(ctx: AnimatorContext, i: nat, p: Vec3, cosPhase: real -> real)
    requires i < ctx.lightCount
    ensures Cap(ColorLight(OffAsWritten, ctx, i, p, cosPhase)) == White
  {
    CapEnds();
  }

  // ---------------------------------------------------------------------------
  // Rescaling the tree

  /** Multiply every position and both box corners by `v`, and announce the box. */
  function Rescale(app: App, v: Vec3): (r: App)
    ensures |r.lights| == |app.lights|
    ensures forall i :: 0 <= i < |app.lights| ==>
      r.lights[i] == app.lights[i].(position := Mul(app.lights[i].position, v))
    ensures r.boundingBox == ScaleBox(app.boundingBox, v) && r.hasBoundingBoxChanged
    ensures r.animator == app.animator && r.hasLightCountChanged == app.hasLightCountChanged
    ensures r.treeHeight == app.treeHeight && r.treeRadius == app.treeRadius
  {
    var lights := seq(|app.lights|, i requires 0 <= i < |app.lights| =>
      app.lights[i].(position := Mul(app.lights[i].position, v)));
    app.(lights := lights, boundingBox := ScaleBox(app.boundingBox, v), hasBoundingBoxChanged := true)
  }

  /**
   * A rescale by non-negative factors keeps the host coherent: the scaled box
   * is the bounding box of the scaled positions, so every light stays in it.
   */
  lemma RescaleKeepsCoherent(app: App, v: Vec3)
    requires Coherent(app) && NonNegative(v)
    ensures Coherent(Rescale(app, v))
  {
    var r := Rescale(app, v);
    assert Positions(r.lights) == ScaleAll(Positions(app.lights), v);
    BoundsOfScaled(Positions(app.lights), v);
    BoundsHoldLights(r);
  }

  /**
   * `setTreeRadius(radius)`: x and z scaled by the ratio of the new radius to
   * the old, y kept. The current radius must be non-zero (it is the divisor).
   */
  function SetTreeRadius(app: App, radius: real): (r: App)
    requires app.treeRadius != 0.0
    ensures r.treeRadius == radius && r.treeHeight == app.treeHeight
    ensures |r.lights| == |app.lights|
    ensures forall i :: 0 <= i < |app.lights| ==>
      var p := app.lights[i].position;
      r.lights[i].position == Vec3(p.x * (radius / app.treeRadius), p.y, p.z * (radius / app.treeRadius))
    ensures r.hasBoundingBoxChanged && r.hasLightCountChanged == app.hasLightCountChanged
    ensures r.animator == app.animator
  {
    var f := radius / app.treeRadius;
    Rescale(app, Vec3(f, 1.0, f)).(treeRadius := radius)
  }

  /** `setTreeHeight(height)`: y scaled by the ratio of the new height to the old. */
  function SetTreeHeight(app: App, height: real): (r: App)
    requires app.treeHeight != 0.0
    ensures r.treeHeight == height && r.treeRadius == app.treeRadius
    ensures |r.lights| == |app.lights|
    ensures forall i :: 0 <= i < |app.lights| ==>
      var p := app.lights[i].position;
      r.lights[i].position == Vec3(p.x, p.y * (height / app.treeHeight), p.z)
    ensures r.hasBoundingBoxChanged && r.hasLightCountChanged == app.hasLightCountChanged
    ensures r.animator == app.animator
  {
    Rescale(app, Vec3(1.0, height / app.treeHeight, 1.0)).(treeHeight := height)
  }

  /** A new radius of the same sign keeps the host coherent. */
  lemma SetTreeRadiusKeepsCoherent(app: App, radius: real)
    requires Coherent(app) && app.treeRadius != 0.0 && radius / app.treeRadius >= 0.0
    ensures Coherent(SetTreeRadius(app, radius))
  {
    var f := radius / app.treeRadius;
    RescaleKeepsCoherent(app, Vec3(f, 1.0, f));
  }

  /** A new height of the same sign keeps the host coherent. */
  lemma SetTreeHeightKeepsCoherent(app: App, height: real)
    requires Coherent(app) && app.treeHeight != 0.0 && height / app.treeHeight >= 0.0
    ensures Coherent(SetTreeHeight(app, height))
  {
    RescaleKeepsCoherent(app, Vec3(1.0, height / app.treeHeight, 1.0));
  }
}
