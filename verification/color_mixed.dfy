/**
 * `MixedColorAnimator`: every light keeps a palette colour drawn at random
 * when the light appeared.
 */
module ColorMixed {
  import opened Vectors
  import opened AnimatorProtocol
  import opened ArrayExtensions
  import opened MathRandom

  /** The palette and the colour held for each light. */
  datatype MixedAnimator = MixedAnimator(colors: seq<Color>, lightColors: seq<Color>)

  /** At least two colours (the constructor's tuple type). */
  predicate Valid(a: MixedAnimator) {
    |a.colors| >= 2
  }

  /** A fresh animator keeps its palette and holds no light colours yet. */
  function Create(colors: seq<Color>): (a: MixedAnimator)
    ensures a.colors == colors
    ensures a.lightColors == [] && FromPalette(a)
  {
    MixedAnimator(colors, [])
  }

  /** Every colour held for a light is one of the palette's entries. */
  ghost predicate FromPalette(a: MixedAnimator) {
    forall i :: 0 <= i < |a.lightColors| ==> a.lightColors[i] in a.colors
  }

  /**
   * `prepareUpdate`: when the light count changed, the held colours are
   * resized to it, each new light drawing a random palette entry; the colours
   * of lights that remain are kept. Otherwise nothing changes.
   */
  method PrepareUpdate(a: MixedAnimator, ctx: AnimatorContext) returns (r: MixedAnimator)
    requires Valid(a)
    ensures r.colors == a.colors
    ensures ctx.hasLightCountChanged ==> ResizedTo(a.lightColors, r.lightColors, ctx.lightCount)
    ensures !ctx.hasLightCountChanged ==> r == a
    ensures forall k :: |a.lightColors| <= k < |r.lightColors| ==> r.lightColors[k] in a.colors
    ensures FromPalette(a) ==> FromPalette(r)
  {
    if !ctx.hasLightCountChanged {
      return a;
    }
    var held := a.lightColors;
    var size := ctx.lightCount;
    if size <= |held| {
      held := held[..size];
    } else {
      var i := |held|;
      while i < size
        invariant |a.lightColors| <= i <= size
        invariant |held| == i
        invariant held[..|a.lightColors|] == a.lightColors
        invariant forall k :: |a.lightColors| <= k < i ==> held[k] in a.colors
      {
        var colorIndex := RandomIndex(|a.colors|);
        held := held + [a.colors[colorIndex]];
        i := i + 1;
      }
    }
    r := MixedAnimator(a.colors, held);
    if FromPalette(a) {
      forall k | 0 <= k < |held|
        ensures held[k] in a.colors
      {
        if k < |a.lightColors| {
          assert held[k] == a.lightColors[k];
        }
      }
    }
  }

  /**
   * `colorLight`: the colour held for the light. The index must be one the
   * colours were sized for; the original would hand `undefined` on.
   */
  function ColorLight(a: MixedAnimator, lightIndex: nat): (c: Color)
    requires lightIndex < |a.lightColors|
    ensures FromPalette(a) ==> c in a.colors
  {
    a.lightColors[lightIndex]
  }
}
