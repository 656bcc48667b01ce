/**
 * Palette lookup by a scalar position (`lerpGradient`) and box-local
 * coordinates (`toLocalPoint`).
 */
module ThreeUtils {
  import opened Vectors
  import opened Optional
  import opened JsMath

  /** The width of each of `segments` equal parts of `[0, 1]`. */
  function SegmentWidth(segments: nat): (w: real)
    requires segments >= 1
    ensures 0.0 < w <= 1.0
  {
    1.0 / segments as real
  }

  lemma DivideByWidth(alpha: real, segments: nat)
    requires segments >= 1
    ensures alpha / SegmentWidth(segments) == alpha * segments as real
  {
    var m := segments as real;
    var w := 1.0 / m;
    assert w * m == 1.0;
    calc {
      alpha / w;
    ==
      (alpha / w) * (w * m);
    ==
      ((alpha / w) * w) * m;
    ==
      alpha * m;
    }
  }

  /**
   * `Math.floor(alpha / colorDelta)`: the part of `[0, 1)` that `alpha` falls
   * in, for `segments` equal parts.
   */
  function SegmentIndex(alpha: real, segments: nat): (i: int)
    requires segments >= 1 && 0.0 <= alpha < 1.0
    ensures 0 <= i < segments
  {
    DivideByWidth(alpha, segments);
    MulStrictMonotone(alpha, 1.0, segments as real);
    MulMonotone(0.0, alpha, segments as real);
    Floor(alpha / SegmentWidth(segments))
  }

  /** `alpha % colorDelta / colorDelta`: how far `alpha` is through its part. */
  function SegmentBlend(alpha: real, segments: nat): (t: real)
    requires segments >= 1 && 0.0 <= alpha < 1.0
    ensures 0.0 <= t < 1.0
  {
    var w := SegmentWidth(segments);
    JsModNonNegative(alpha, w);
    DivBelowOne(JsMod(alpha, w), w);
    JsMod(alpha, w) / w
  }

  /** The smooth mode's successor index: the last colour blends back into the first. */
  function NextCyclic(i: int, n: nat): (j: int)
    requires 0 <= i < n
    ensures 0 <= j < n
    ensures j == 0 <==> i == n - 1
  {
    if i == n - 1 then 0 else i + 1
  }

  /** The colour a fraction `t` of the way from palette entry `i` to the one after it (cyclically). */
  function SegmentPoint(colors: seq<Color>, i: int, t: real): Color
    requires 0 <= i < |colors|
  {
    Lerp(colors[i], colors[(i + 1) % |colors|], t)
  }

  /**
   * `c` lies on the straight line between two neighbouring palette colours;
   * only the smooth mode may use the segment from the last colour to the first.
   */
  ghost predicate OnPaletteSegment(colors: seq<Color>, c: Color, isSmooth: bool) {
    exists i, t ::
      && 0 <= i < |colors|
      && (isSmooth || i < |colors| - 1)
      && 0.0 <= t <= 1.0
      && c == SegmentPoint(colors, i, t)
  }

  /** A point on the segment from entry `i` to entry `i + 1` lies on the banded palette. */
  lemma InnerSegment(colors: seq<Color>, i: int, t: real, c: Color)
    requires 0 <= i < |colors| - 1 && 0.0 <= t <= 1.0
    requires c == Lerp(colors[i], colors[i + 1], t)
    ensures OnPaletteSegment(colors, c, false)
  {
    assert (i + 1) % |colors| == i + 1;
    assert c == SegmentPoint(colors, i, t);
  }

  /** A point on the segment from entry `i` to its cyclic successor lies on the smooth palette. */
  lemma CyclicSegment(colors: seq<Color>, i: int, t: real, c: Color)
    requires 0 <= i < |colors| && 0.0 <= t <= 1.0
    requires c == Lerp(colors[i], colors[NextCyclic(i, |colors|)], t)
    ensures OnPaletteSegment(colors, c, true)
  {
    assert NextCyclic(i, |colors|) == (i + 1) % |colors|;
    assert c == SegmentPoint(colors, i, t);
  }

  /** Smooth (cyclic) mode for `alpha` below one: `n` parts, the last wrapping to the first colour. */
  function SmoothLookup(colors: seq<Color>, alpha: real): (c: Color)
    requires |colors| >= 2
    requires 0.0 <= alpha < 1.0
    ensures alpha == 0.0 ==> c == colors[0]
    ensures OnPaletteSegment(colors, c, true)
  {
    var n := |colors|;
    var i := SegmentIndex(alpha, n);
    var t := SegmentBlend(alpha, n);
    ZeroAlphaFirstSegment(n);
    var c := Lerp(colors[i], colors[NextCyclic(i, n)], t);
    CyclicSegment(colors, i, t, c);
    c
  }

  /** Banded mode for `alpha` below one: `n - 1` parts between consecutive colours. */
  function BandedLookup(colors: seq<Color>, alpha: real): (c: Color)
    requires |colors| >= 2
    requires 0.0 <= alpha < 1.0
    ensures alpha == 0.0 ==> c == colors[0]
    ensures OnPaletteSegment(colors, c, false)
  {
    var n := |colors|;
    var i := SegmentIndex(alpha, n - 1);
    var t := SegmentBlend(alpha, n - 1);
    ZeroAlphaFirstSegment(n - 1);
    var c := Lerp(colors[i], colors[i + 1], t);
    InnerSegment(colors, i, t, c);
    c
  }

  /**
   * `lerpGradient`. Banded mode splits `[0, 1]` into `n - 1` parts whose ends
   * are the palette colours; smooth mode splits it into `n` parts, the last
   * blending from the last colour back to the first.
   */
  function LerpGradient(colors: seq<Color>, alpha: real, isSmooth: bool): (c: Color)
    requires |colors| >= 2
    requires 0.0 <= alpha <= 1.0
    ensures alpha == 0.0 ==> c == colors[0]
    ensures isSmooth && alpha == 1.0 ==> c == colors[0]
    ensures !isSmooth && alpha == 1.0 ==> c == colors[|colors| - 1]
    ensures OnPaletteSegment(colors, c, isSmooth)
  {
    var n := |colors|;
    if isSmooth then
      if alpha == 1.0 then
        assert colors[0] == SegmentPoint(colors, 0, 0.0);
        colors[0]
      else
        SmoothLookup(colors, alpha)
    else
      if alpha == 1.0 then
        assert (n - 2 + 1) % n == n - 1;
        assert colors[n - 1] == SegmentPoint(colors, n - 2, 1.0);
        colors[n - 1]
      else
        BandedLookup(colors, alpha)
  }

  lemma ZeroAlphaFirstSegment(segments: nat)
    requires segments >= 1
    ensures SegmentIndex(0.0, segments) == 0
    ensures SegmentBlend(0.0, segments) == 0.0
  {
    DivideByWidth(0.0, segments);
    assert JsMod(0.0, SegmentWidth(segments)) == 0.0;
  }

  /** At the `k`-th of `segments` equally spaced knots the index is `k` and the blend is zero. */
  lemma AtKnot(k: nat, segments: nat)
    requires k < segments
    ensures 0.0 <= k as real / segments as real < 1.0
    ensures SegmentIndex(k as real / segments as real, segments) == k
    ensures SegmentBlend(k as real / segments as real, segments) == 0.0
  {
    var m := segments as real;
    var alpha := k as real / m;
    DivBelowOne(k as real, m);
    DivideByWidth(alpha, segments);
    assert alpha * m == k as real;
    var w := SegmentWidth(segments);
    assert alpha / w == k as real;
    assert Trunc(alpha / w) == k;
    assert JsMod(alpha, w) == alpha - w * k as real;
    assert w * k as real == k as real / m;
  }

  /** Banded mode reproduces the `k`-th colour exactly at `alpha = k / (n - 1)`. */
  lemma BandedAtKnot(colors: seq<Color>, k: nat)
    requires |colors| >= 2 && k < |colors| - 1
    ensures LerpGradient(colors, k as real / (|colors| - 1) as real, false) == colors[k]
  {
    AtKnot(k, |colors| - 1);
  }

  /** Smooth mode reproduces the `k`-th colour exactly at `alpha = k / n`. */
  lemma SmoothAtKnot(colors: seq<Color>, k: nat)
    requires |colors| >= 2 && k < |colors|
    ensures LerpGradient(colors, k as real / |colors| as real, true) == colors[k]
  {
    AtKnot(k, |colors|);
  }

  /** With two colours banded mode is plain linear interpolation over all of `[0, 1]`. */
  lemma BandedTwoColors(a: Color, b: Color, alpha: real)
    requires 0.0 <= alpha <= 1.0
    ensures LerpGradient([a, b], alpha, false) == Lerp(a, b, alpha)
  {
    if alpha < 1.0 {
      DivideByWidth(alpha, 1);
      assert SegmentIndex(alpha, 1) == 0;
      assert alpha / SegmentWidth(1) == alpha;
      assert SegmentBlend(alpha, 1) == alpha;
    }
  }

  /** Two colours at one half give their exact midpoint. */
  lemma BandedTwoColorsMidpoint(a: Color, b: Color)
    ensures LerpGradient([a, b], 0.5, false) == Scale(Add(a, b), 0.5)
  {
    BandedTwoColors(a, b, 0.5);
  }

  /** A JavaScript number that may be `NaN` (the result of `0 / 0`). */
  datatype Number = Finite(value: real) | NaN

  /** `(p - lo) / size` on one axis. */
  function LocalCoordinate(p: real, lo: real, size: real): (r: Number)
    requires size >= 0.0 && lo <= p <= lo + size
    ensures size > 0.0 ==> r.Finite? && 0.0 <= r.value <= 1.0
    ensures size > 0.0 && p == lo ==> r == Finite(0.0)
    ensures size > 0.0 && p == lo + size ==> r == Finite(1.0)
    ensures size == 0.0 ==> r == NaN
  {
    if size == 0.0 then NaN
    else if p == lo + size then
      assert (p - lo) / size == 1.0;
      Finite((p - lo) / size)
    else
      DivBelowOne(p - lo, size);
      Finite((p - lo) / size)
  }

  datatype LocalPoint = LocalPoint(x: Number, y: Number, z: Number)

  /**
   * `toLocalPoint`: `undefined` for a point outside the box, otherwise each
   * coordinate measured from `box.min` in units of the box's size on that
   * axis alone.
   */
  function ToLocalPoint(box: Box, p: Vec3): (r: Option<LocalPoint>)
    ensures r.Some? <==> Contains(box, p)
    ensures r.Some? ==>
      && r.value.x == LocalCoordinate(p.x, box.min.x, box.max.x - box.min.x)
      && r.value.y == LocalCoordinate(p.y, box.min.y, box.max.y - box.min.y)
      && r.value.z == LocalCoordinate(p.z, box.min.z, box.max.z - box.min.z)
  {
    if !Contains(box, p) then None
    else
      ContainedMeansNonEmpty(box, p);
      var size := Size(box);
      Some(LocalPoint(
        LocalCoordinate(p.x, box.min.x, size.x),
        LocalCoordinate(p.y, box.min.y, size.y),
        LocalCoordinate(p.z, box.min.z, size.z)))
  }

  predicate PositiveSize(box: Box) {
    var s := Size(box);
    s.x > 0.0 && s.y > 0.0 && s.z > 0.0
  }

  /** In a box of positive size every contained point maps into the unit cube. */
  lemma LocalPointInUnitCube(box: Box, p: Vec3)
    requires PositiveSize(box) && Contains(box, p)
    ensures ToLocalPoint(box, p).Some?
    ensures var l := ToLocalPoint(box, p).value;
      && l.x.Finite? && l.y.Finite? && l.z.Finite?
      && Within(Vec3(l.x.value, l.y.value, l.z.value), 0.0, 1.0)
  {
  }

  /** The corners of a box of positive size map to the corners of the unit cube. */
  lemma CornersMapToUnitCorners(box: Box)
    requires box.Corners? && PositiveSize(box)
    ensures ToLocalPoint(box, box.min) == Some(LocalPoint(Finite(0.0), Finite(0.0), Finite(0.0)))
    ensures ToLocalPoint(box, box.max) == Some(LocalPoint(Finite(1.0), Finite(1.0), Finite(1.0)))
  {
  }
}
