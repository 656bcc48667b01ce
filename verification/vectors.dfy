/**
 * The parts of three.js's `Vector3`, `Color` and `Box3` that the colour code
 * uses. A colour is a triple of channels, combined only by linear
 * interpolation, so colours and positions share one triple type.
 */
module Vectors {

  datatype Vec3 = Vec3(x: real, y: real, z: real)

  /** An RGB colour: `x`, `y`, `z` are the red, green and blue channels. */
  type Color = Vec3

  const Zero: Vec3 := Vec3(0.0, 0.0, 0.0)
  const Black: Color := Vec3(0.0, 0.0, 0.0)
  const White: Color := Vec3(1.0, 1.0, 1.0)

  function Add(a: Vec3, b: Vec3): Vec3 {
    Vec3(a.x + b.x, a.y + b.y, a.z + b.z)
  }

  function Sub(a: Vec3, b: Vec3): Vec3 {
    Vec3(a.x - b.x, a.y - b.y, a.z - b.z)
  }

  /** `multiplyScalar`. */
  function Scale(a: Vec3, k: real): Vec3 {
    Vec3(a.x * k, a.y * k, a.z * k)
  }

  /** Componentwise product (`multiply`). */
  function Mul(a: Vec3, b: Vec3): Vec3 {
    Vec3(a.x * b.x, a.y * b.y, a.z * b.z)
  }

  function Dot(a: Vec3, b: Vec3): real {
    a.x * b.x + a.y * b.y + a.z * b.z
  }

  function Cross(a: Vec3, b: Vec3): Vec3 {
    Vec3(a.y * b.z - a.z * b.y, a.z * b.x - a.x * b.z, a.x * b.y - a.y * b.x)
  }

  /** Two vectors are parallel (or one is zero) when their cross product vanishes. */
  predicate Parallel(a: Vec3, b: Vec3) {
    Cross(a, b) == Zero
  }

  /** `a.clone().lerp(b, t)`: each channel moves from `a` toward `b` by the fraction `t`. */
  function Lerp(a: Vec3, b: Vec3, t: real): (r: Vec3)
    ensures t == 0.0 ==> r == a
    ensures t == 1.0 ==> r == b
    ensures a == b ==> r == a
  {
    Vec3(a.x + (b.x - a.x) * t, a.y + (b.y - a.y) * t, a.z + (b.z - a.z) * t)
  }

  /** Every channel in `[lo, hi]`. */
  predicate Within(c: Vec3, lo: real, hi: real) {
    lo <= c.x <= hi && lo <= c.y <= hi && lo <= c.z <= hi
  }

  lemma DotSelfNonNegative(a: Vec3)
    ensures Dot(a, a) >= 0.0
  {
  }

  lemma DotScaleLeft(a: Vec3, k: real, b: Vec3)
    ensures Dot(Scale(a, k), b) == k * Dot(a, b)
  {
  }

  lemma DotSub(a: Vec3, b: Vec3, c: Vec3)
    ensures Dot(Sub(a, b), c) == Dot(a, c) - Dot(b, c)
  {
  }

  lemma DotAdd(a: Vec3, b: Vec3, c: Vec3)
    ensures Dot(Add(a, b), c) == Dot(a, c) + Dot(b, c)
  {
  }

  lemma DotSymmetric(a: Vec3, b: Vec3)
    ensures Dot(a, b) == Dot(b, a)
  {
  }

  /**
   * An axis-aligned box (`Box3`). `Empty` is the box `makeEmpty` produces, with
   * infinite corners; a `Corners` box whose `min` exceeds its `max` on some axis
   * is empty too, as three.js's `isEmpty` decides.
   */
  datatype Box = Empty | Corners(min: Vec3, max: Vec3)

  predicate IsEmpty(b: Box) {
    b.Empty? || b.max.x < b.min.x || b.max.y < b.min.y || b.max.z < b.min.z
  }

  /** `containsPoint`: inside or on the boundary. */
  predicate Contains(b: Box, p: Vec3) {
    b.Corners?
    && b.min.x <= p.x <= b.max.x
    && b.min.y <= p.y <= b.max.y
    && b.min.z <= p.z <= b.max.z
  }

  /** `getSize`: zero for an empty box. */
  function Size(b: Box): (s: Vec3)
    ensures s.x >= 0.0 && s.y >= 0.0 && s.z >= 0.0
  {
    if IsEmpty(b) then Zero else Sub(b.max, b.min)
  }

  /** `getCenter`: the origin for an empty box. */
  function Center(b: Box): Vec3 {
    if IsEmpty(b) then Zero else Scale(Add(b.min, b.max), 0.5)
  }

  lemma ContainedMeansNonEmpty(b: Box, p: Vec3)
    requires Contains(b, p)
    ensures !IsEmpty(b)
    ensures Size(b) == Sub(b.max, b.min)
  {
  }

  function Min(a: real, b: real): real { if a <= b then a else b }
  function Max(a: real, b: real): real { if a >= b then a else b }

  function MinV(a: Vec3, b: Vec3): Vec3 {
    Vec3(Min(a.x, b.x), Min(a.y, b.y), Min(a.z, b.z))
  }

  function MaxV(a: Vec3, b: Vec3): Vec3 {
    Vec3(Max(a.x, b.x), Max(a.y, b.y), Max(a.z, b.z))
  }

  /** `expandByPoint`: the smallest box holding `b` and `p`. */
  function Expand(b: Box, p: Vec3): (r: Box)
    ensures r.Corners?
    ensures Contains(r, p)
  {
    match b
    case Empty => Corners(p, p)
    case Corners(lo, hi) => Corners(MinV(lo, p), MaxV(hi, p))
  }

  /** `setFromPoints`: start empty and expand by each point in order. */
  function Bounds(ps: seq<Vec3>): Box
    decreases |ps|
  {
    if |ps| == 0 then Empty else Expand(Bounds(ps[..|ps| - 1]), ps[|ps| - 1])
  }

  /**
   * `b` is the tight bounding box of `ps`: empty for no points, and otherwise
   * holding every point with each of its six faces touched by some point.
   */
  ghost predicate IsBoundingBox(b: Box, ps: seq<Vec3>) {
    if |ps| == 0 then b == Empty
    else
      && b.Corners?
      && (forall i :: 0 <= i < |ps| ==> Contains(b, ps[i]))
      && (exists i :: 0 <= i < |ps| && ps[i].x == b.min.x)
      && (exists i :: 0 <= i < |ps| && ps[i].y == b.min.y)
      && (exists i :: 0 <= i < |ps| && ps[i].z == b.min.z)
      && (exists i :: 0 <= i < |ps| && ps[i].x == b.max.x)
      && (exists i :: 0 <= i < |ps| && ps[i].y == b.max.y)
      && (exists i :: 0 <= i < |ps| && ps[i].z == b.max.z)
  }

  /** `setFromPoints` yields the componentwise minimum and maximum of the points. */
  lemma {:induction false} BoundsIsTight(ps: seq<Vec3>)
    ensures IsBoundingBox(Bounds(ps), ps)
    decreases |ps|
  {
    if |ps| > 0 {
      var init := ps[..|ps| - 1];
      var p := ps[|ps| - 1];
      BoundsIsTight(init);
      var b := Bounds(ps);
      assert b == Expand(Bounds(init), p);
      if |init| == 0 {
        assert b == Corners(p, p);
        assert ps[0] == p;
      } else {
        var c := Bounds(init);
        forall i | 0 <= i < |ps|
          ensures Contains(b, ps[i])
        {
          if i < |init| {
            assert ps[i] == init[i];
            assert Contains(c, init[i]);
          }
        }
        AttainedAfterExpand(init, ps, c, b, p);
      }
    }
  }

  lemma AttainedAfterExpand(init: seq<Vec3>, ps: seq<Vec3>, c: Box, b: Box, p: Vec3)
    requires |init| > 0 && ps == init + [p]
    requires IsBoundingBox(c, init) && b == Expand(c, p)
    ensures exists i :: 0 <= i < |ps| && ps[i].x == b.min.x
    ensures exists i :: 0 <= i < |ps| && ps[i].y == b.min.y
    ensures exists i :: 0 <= i < |ps| && ps[i].z == b.min.z
    ensures exists i :: 0 <= i < |ps| && ps[i].x == b.max.x
    ensures exists i :: 0 <= i < |ps| && ps[i].y == b.max.y
    ensures exists i :: 0 <= i < |ps| && ps[i].z == b.max.z
  {
    var last := |ps| - 1;
    assert ps[last] == p;
    forall i | 0 <= i < |init| ensures ps[i] == init[i] { }
  }

  /** Every point lies in the box `setFromPoints` builds from it. */
  lemma BoundsContains(ps: seq<Vec3>, i: int)
    requires 0 <= i < |ps|
    ensures Contains(Bounds(ps), ps[i])
  {
    BoundsIsTight(ps);
  }

  /** Scale both corners componentwise (what a rescale does to the cached box). */
  function ScaleBox(b: Box, v: Vec3): Box {
    match b
    case Empty => Empty
    case Corners(lo, hi) => Corners(Mul(lo, v), Mul(hi, v))
  }

  function ScaleAll(ps: seq<Vec3>, v: Vec3): (r: seq<Vec3>)
    ensures |r| == |ps|
    ensures forall i :: 0 <= i < |ps| ==> r[i] == Mul(ps[i], v)
  {
    seq(|ps|, i requires 0 <= i < |ps| => Mul(ps[i], v))
  }

  predicate NonNegative(v: Vec3) {
    v.x >= 0.0 && v.y >= 0.0 && v.z >= 0.0
  }

  lemma MinScale(a: real, b: real, k: real)
    requires k >= 0.0
    ensures Min(a * k, b * k) == Min(a, b) * k
    ensures Max(a * k, b * k) == Max(a, b) * k
  {
    if a <= b {
      assert a * k <= b * k;
    } else {
      assert b * k <= a * k;
    }
  }

  lemma ExpandScale(b: Box, p: Vec3, v: Vec3)
    requires NonNegative(v)
    ensures Expand(ScaleBox(b, v), Mul(p, v)) == ScaleBox(Expand(b, p), v)
  {
    if b.Corners? {
      MinMaxScale(b.min, p, v);
      MinMaxScale(b.max, p, v);
    }
  }

  lemma MinMaxScale(a: Vec3, b: Vec3, v: Vec3)
    requires NonNegative(v)
    ensures MinV(Mul(a, v), Mul(b, v)) == Mul(MinV(a, b), v)
    ensures MaxV(Mul(a, v), Mul(b, v)) == Mul(MaxV(a, b), v)
  {
    MinScale(a.x, b.x, v.x);
    MinScale(a.y, b.y, v.y);
    MinScale(a.z, b.z, v.z);
  }

  /**
   * Scaling every point by a non-negative factor per axis scales the corners
   * of their bounding box by the same factors.
   */
  lemma {:induction false} BoundsOfScaled(ps: seq<Vec3>, v: Vec3)
    requires NonNegative(v)
    ensures Bounds(ScaleAll(ps, v)) == ScaleBox(Bounds(ps), v)
    decreases |ps|
  {
    if |ps| > 0 {
      var init := ps[..|ps| - 1];
      var qs := ScaleAll(ps, v);
      assert qs[..|qs| - 1] == ScaleAll(init, v);
      BoundsOfScaled(init, v);
      ExpandScale(Bounds(init), ps[|ps| - 1], v);
    }
  }
}
