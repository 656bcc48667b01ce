/**
 * The directional axis shared by the gradient and wave animators: a segment
 * through the bounding box's centre, parallel to the chosen direction, running
 * from the box's face behind the centre to the face ahead of it, and the
 * position of a light along that segment as a fraction in `[0, 1]`.
 */
module GradientAxis {
  import opened Vectors
  import opened Optional
  import opened JsMath

  /** `gradientOrigin` and `gradientVector`. */
  datatype Axis = Axis(origin: Vec3, vector: Vec3)

  /** Half the box size on each axis, signed like the direction. */
  function CornerVector(size: Vec3, d: Vec3): Vec3 {
    Vec3(Sign(d.x) * size.x / 2.0, Sign(d.y) * size.y / 2.0, Sign(d.z) * size.z / 2.0)
  }

  /** `projectOnVector`: the component of `v` along `onto`, or zero when `onto` is zero. */
  function ProjectOnVector(v: Vec3, onto: Vec3): Vec3 {
    if Dot(onto, onto) == 0.0 then Zero else Scale(onto, Dot(onto, v) / Dot(onto, onto))
  }

  /** The projection is parallel to the vector projected on. */
  lemma ProjectionIsParallel(v: Vec3, onto: Vec3)
    ensures Parallel(ProjectOnVector(v, onto), onto)
  {
    if Dot(onto, onto) != 0.0 {
      CrossScaleSelf(onto, Dot(onto, v) / Dot(onto, onto));
    }
  }

  lemma CrossScaleSelf(d: Vec3, k: real)
    ensures Cross(Scale(d, k), d) == Zero
  {
    assert d.y * k * d.z == d.z * k * d.y;
    assert d.z * k * d.x == d.x * k * d.z;
    assert d.x * k * d.y == d.y * k * d.x;
  }

  /** The corner vector's component along `d` points along `d`: `d . corner >= 0`. */
  lemma CornerAlongDirection(size: Vec3, d: Vec3)
    requires NonNegative(size)
    ensures Dot(d, CornerVector(size, d)) >= 0.0
  {
    SignedHalf(d.x, size.x);
    SignedHalf(d.y, size.y);
    SignedHalf(d.z, size.z);
  }

  lemma SignedHalf(di: real, si: real)
    requires si >= 0.0
    ensures di * (Sign(di) * si / 2.0) >= 0.0
  {
    if di > 0.0 {
      assert di * (Sign(di) * si / 2.0) == di * si / 2.0;
      MulMonotone(0.0, di, si);
    } else if di < 0.0 {
      assert di * (Sign(di) * si / 2.0) == (-di) * si / 2.0;
      MulMonotone(0.0, -di, si);
    }
  }

  /**
   * The `prepareUpdate` recomputation: the axis is twice the projection of
   * the signed half-size onto `d`, centred on the box.
   */
  function ComputeAxis(box: Box, d: Vec3): Axis {
    var half := ProjectOnVector(CornerVector(Size(box), d), d);
    Axis(Sub(Center(box), half), Scale(half, 2.0))
  }

  /**
   * The axis is centred on the box and runs along the direction, pointing the
   * same way as it.
   */
  lemma AxisAlongDirection(box: Box, d: Vec3)
    ensures Add(ComputeAxis(box, d).origin, Scale(ComputeAxis(box, d).vector, 0.5)) == Center(box)
    ensures Parallel(ComputeAxis(box, d).vector, d)
    ensures Dot(ComputeAxis(box, d).vector, d) >= 0.0
  {
    AxisShape(box, d);
  }

  /**
   * The half axis is `d` scaled by `(d . corner) / (d . d)`, a non-negative
   * factor; `0` when the direction is the zero vector.
   */
  function HalfFactor(box: Box, d: Vec3): (k: real)
    ensures k >= 0.0
  {
    CornerAlongDirection(Size(box), d);
    DotSelfNonNegative(d);
    Quotient(Dot(d, CornerVector(Size(box), d)), Dot(d, d))
  }

  /** `x / y`, or `0` when `y` is zero. */
  function Quotient(x: real, y: real): (q: real)
    ensures x >= 0.0 && y >= 0.0 ==> q >= 0.0
    ensures y == 0.0 ==> q == 0.0
    ensures y != 0.0 ==> q * y == x
  {
    if y == 0.0 then 0.0
    else if x >= 0.0 && y >= 0.0 then NonNegativeQuotient(x, y); x / y
    else x / y
  }

  /** The half factor scales the direction so that its square length times the factor is `d . corner`. */
  lemma HalfFactorDefinition(box: Box, d: Vec3)
    ensures Dot(d, d) == 0.0 ==> HalfFactor(box, d) == 0.0
    ensures Dot(d, d) != 0.0 ==> HalfFactor(box, d) * Dot(d, d) == Dot(d, CornerVector(Size(box), d))
  {
  }

  lemma AxisShape(box: Box, d: Vec3)
    ensures ProjectOnVector(CornerVector(Size(box), d), d) == Scale(d, HalfFactor(box, d))
    ensures Add(Sub(Center(box), Scale(d, HalfFactor(box, d))), Scale(Scale(Scale(d, HalfFactor(box, d)), 2.0), 0.5)) == Center(box)
    ensures Parallel(Scale(Scale(d, HalfFactor(box, d)), 2.0), d)
    ensures Dot(Scale(Scale(d, HalfFactor(box, d)), 2.0), d) >= 0.0
  {
    var k := HalfFactor(box, d);
    ProjectionIsScaledDirection(box, d);
    HalfBackToCentre(Center(box), Scale(d, k));
    DoubledAlongDirection(d, k);
  }

  lemma HalfBackToCentre(center: Vec3, h: Vec3)
    ensures Add(Sub(center, h), Scale(Scale(h, 2.0), 0.5)) == center
  {
  }

  lemma DoubledAlongDirection(d: Vec3, k: real)
    requires k >= 0.0
    ensures Parallel(Scale(Scale(d, k), 2.0), d)
    ensures Dot(Scale(Scale(d, k), 2.0), d) >= 0.0
  {
    DoubleScale(d, k);
    CrossScaleSelf(d, 2.0 * k);
    ScaledSelfDot(d, 2.0 * k);
  }

  lemma ScaledSelfDot(d: Vec3, m: real)
    requires m >= 0.0
    ensures Dot(Scale(d, m), d) >= 0.0
  {
    DotScaleLeft(d, m, d);
    DotSelfNonNegative(d);
    NonNegativeProduct(m, Dot(d, d));
  }

  lemma NonNegativeProduct(a: real, b: real)
    requires a >= 0.0 && b >= 0.0
    ensures a * b >= 0.0
  {
  }

  lemma ProjectionIsScaledDirection(box: Box, d: Vec3)
    ensures ProjectOnVector(CornerVector(Size(box), d), d) == Scale(d, HalfFactor(box, d))
  {
    if Dot(d, d) == 0.0 {
      assert Scale(d, 0.0) == Zero;
    }
  }

  lemma DoubleScale(d: Vec3, k: real)
    ensures Scale(Scale(d, k), 2.0) == Scale(d, 2.0 * k)
  {
  }

  /**
   * `|projectOnVector(p - origin, vector)| / |vector|` as the original computes
   * it, without square roots: `|v . g| / (g . g)`. `None` stands for `NaN`,
   * the value of `0 / 0` when the axis is the zero vector.
   */
  function AlphaAsWritten(axis: Axis, p: Vec3): (r: Option<real>)
    ensures r.None? <==> Dot(axis.vector, axis.vector) == 0.0
  {
    var g := axis.vector;
    if Dot(g, g) == 0.0 then None else Some(Abs(Dot(Sub(p, axis.origin), g)) / Dot(g, g))
  }

  /**
   * The position of `p` along the axis, with the zero-length axis of a
   * collapsed box falling back to `0` instead of `NaN`.
   */
  function Alpha(axis: Axis, p: Vec3): (r: real)
    ensures AlphaAsWritten(axis, p).Some? ==> r == AlphaAsWritten(axis, p).value
    ensures AlphaAsWritten(axis, p).None? ==> r == 0.0
    ensures r >= 0.0
  {
    var g := axis.vector;
    DotSelfNonNegative(g);
    if Dot(g, g) == 0.0 then 0.0
    else
      NonNegativeQuotient(Abs(Dot(Sub(p, axis.origin), g)), Dot(g, g));
      Abs(Dot(Sub(p, axis.origin), g)) / Dot(g, g)
  }

  /**
   * A box of a single light has size zero, so its axis is the zero vector and
   * the original's alpha for that light is `0 / 0`.
   */
  lemma SingleLightAlphaIsNaN(p: Vec3, d: Vec3)
    ensures AlphaAsWritten(ComputeAxis(Bounds([p]), d), p) == None
  {
    assert [p][..0] == [];
    assert Bounds([]) == Empty;
    assert Bounds([p]) == Corners(p, p);
    assert Size(Corners(p, p)) == Zero;
    FlatBoxAxis(Bounds([p]), d);
  }

  /** A box of size zero has the zero vector as its axis. */
  lemma FlatBoxAxis(box: Box, d: Vec3)
    requires Size(box) == Zero
    ensures ComputeAxis(box, d).vector == Zero
  {
    assert CornerVector(Zero, d) == Zero;
    assert Dot(d, Zero) == 0.0;
    HalfFactorDefinition(box, d);
    if Dot(d, d) != 0.0 {
      Cancel(HalfFactor(box, d), 0.0, Dot(d, d));
    }
    AxisVector(box, d);
    ZeroFactorAxis(box, d);
  }

  /** The axis in terms of the half factor: origin `centre - k d`, vector `2 k d`. */
  lemma AxisVector(box: Box, d: Vec3)
    ensures ComputeAxis(box, d).vector == Scale(d, 2.0 * HalfFactor(box, d))
    ensures ComputeAxis(box, d).origin == Sub(Center(box), Scale(d, HalfFactor(box, d)))
  {
    ProjectionIsScaledDirection(box, d);
    DoubleScale(d, HalfFactor(box, d));
  }

  /** A zero half factor collapses the axis to the zero vector. */
  lemma ZeroFactorAxis(box: Box, d: Vec3)
    ensures HalfFactor(box, d) == 0.0 ==> ComputeAxis(box, d).vector == Zero
  {
    AxisVector(box, d);
    ZeroScaledVector(ComputeAxis(box, d).vector, d, HalfFactor(box, d));
  }

  lemma ZeroScaledVector(g: Vec3, d: Vec3, k: real)
    requires g == Scale(d, 2.0 * k)
    ensures k == 0.0 ==> g == Zero
  {
  }

  /** A light at the origin of the axis gets alpha `0`, the first colour. */
  lemma AlphaAtOrigin(axis: Axis)
    ensures Alpha(axis, axis.origin) == 0.0
  {
    assert Sub(axis.origin, axis.origin) == Zero;
  }

  /** A light at the far end of a non-degenerate axis gets alpha `1`, the last colour. */
  lemma AlphaAtEnd(axis: Axis)
    requires Dot(axis.vector, axis.vector) != 0.0
    ensures Alpha(axis, Add(axis.origin, axis.vector)) == 1.0
  {
    assert Sub(Add(axis.origin, axis.vector), axis.origin) == axis.vector;
    DotSelfNonNegative(axis.vector);
    assert Abs(Dot(axis.vector, axis.vector)) == Dot(axis.vector, axis.vector);
    assert Dot(axis.vector, axis.vector) / Dot(axis.vector, axis.vector) == 1.0;
  }

  /**
   * On one axis, an offset of at most half the extent from the middle stays
   * within the signed half extent: `di * off` lies in `[-(di * ci), di * ci]`.
   */
  lemma AxisOffset(off: real, s: real, di: real, ci: real)
    requires s >= 0.0
    requires -(s / 2.0) <= off <= s / 2.0
    requires ci == Sign(di) * s / 2.0
    ensures 0.0 <= di * (ci - off) && 0.0 <= di * (ci + off)
  {
    if di > 0.0 {
      assert ci == s / 2.0;
      NonNegativeProduct(di, ci - off);
      NonNegativeProduct(di, ci + off);
    } else if di < 0.0 {
      assert ci == -(s / 2.0);
      NonNegativeProduct(-di, off - ci);
      NonNegativeProduct(-di, -(ci + off));
    }
  }

  /** The offset of a contained point from the centre, along `d`, is at most `d . corner`. */
  lemma OffsetWithinCorner(box: Box, d: Vec3, p: Vec3)
    requires Contains(box, p)
    ensures -Dot(d, CornerVector(Size(box), d)) <= Dot(Sub(p, Center(box)), d)
    ensures Dot(Sub(p, Center(box)), d) <= Dot(d, CornerVector(Size(box), d))
  {
    CentredOffset(box, p);
    OffsetWithinHalfSize(Sub(p, Center(box)), Size(box), d);
  }

  /** A contained point is within half the size of the centre on every axis. */
  lemma CentredOffset(box: Box, p: Vec3)
    requires Contains(box, p)
    ensures -(Size(box).x / 2.0) <= Sub(p, Center(box)).x <= Size(box).x / 2.0
    ensures -(Size(box).y / 2.0) <= Sub(p, Center(box)).y <= Size(box).y / 2.0
    ensures -(Size(box).z / 2.0) <= Sub(p, Center(box)).z <= Size(box).z / 2.0
  {
    ContainedMeansNonEmpty(box, p);
  }

  lemma OffsetWithinHalfSize(off: Vec3, s: Vec3, d: Vec3)
    requires NonNegative(s)
    requires -(s.x / 2.0) <= off.x <= s.x / 2.0
    requires -(s.y / 2.0) <= off.y <= s.y / 2.0
    requires -(s.z / 2.0) <= off.z <= s.z / 2.0
    ensures -Dot(d, CornerVector(s, d)) <= Dot(off, d) <= Dot(d, CornerVector(s, d))
  {
    OffsetWithinSignedHalf(off, s, d, CornerVector(s, d));
  }

  lemma OffsetWithinSignedHalf(off: Vec3, s: Vec3, d: Vec3, c: Vec3)
    requires NonNegative(s)
    requires -(s.x / 2.0) <= off.x <= s.x / 2.0
    requires -(s.y / 2.0) <= off.y <= s.y / 2.0
    requires -(s.z / 2.0) <= off.z <= s.z / 2.0
    requires c.x == Sign(d.x) * s.x / 2.0 && c.y == Sign(d.y) * s.y / 2.0 && c.z == Sign(d.z) * s.z / 2.0
    ensures -Dot(d, c) <= Dot(off, d) <= Dot(d, c)
  {
    AxisOffset(off.x, s.x, d.x, c.x);
    AxisOffset(off.y, s.y, d.y, c.y);
    AxisOffset(off.z, s.z, d.z, c.z);
    DotNonNegative(d, Sub(c, off));
    DotNonNegative(d, Add(c, off));
    DotSplit(d, c, off);
  }

  /** Componentwise non-negative products add up to a non-negative dot product. */
  lemma DotNonNegative(u: Vec3, v: Vec3)
    requires 0.0 <= u.x * v.x && 0.0 <= u.y * v.y && 0.0 <= u.z * v.z
    ensures 0.0 <= Dot(u, v)
  {
  }

  /** `d . (c - off)` and `d . (c + off)` in terms of `d . c` and `off . d`. */
  lemma DotSplit(d: Vec3, c: Vec3, off: Vec3)
    ensures Dot(d, Sub(c, off)) == Dot(d, c) - Dot(off, d)
    ensures Dot(d, Add(c, off)) == Dot(d, c) + Dot(off, d)
  {
    DotSymmetric(d, Sub(c, off));
    DotSymmetric(d, Add(c, off));
    DotSymmetric(d, c);
    DotSub(c, off, d);
    DotAdd(c, off, d);
  }

  /**
   * The alpha of `p` on an axis `m d` (with `m > 0`) whose origin sits
   * `(m / 2) d` behind the centre, for a point whose offset `w` from the
   * centre along `d` is within `[-cd, cd]` where `m (d . d) = 2 cd`, lies in
   * `[0, 1]`.
   */
  lemma AlphaOnScaledAxis(axis: Axis, p: Vec3, d: Vec3, m: real, w: real, cd: real)
    requires m > 0.0 && Dot(d, d) > 0.0
    requires axis.vector == Scale(d, m)
    requires Dot(axis.vector, d) == 2.0 * cd
    requires Dot(Sub(p, axis.origin), d) == w + cd
    requires -cd <= w <= cd
    ensures 0.0 <= Alpha(axis, p) <= 1.0
  {
    DotScaleLeft(d, m, d);
    ScaledDots(Sub(p, axis.origin), d, m);
    FinalRatio(m, Dot(Sub(p, axis.origin), d), w, cd, Dot(d, d),
      Dot(Scale(d, m), Scale(d, m)), Dot(Sub(p, axis.origin), Scale(d, m)));
    AlphaValue(axis, p, Dot(Scale(d, m), Scale(d, m)), Dot(Sub(p, axis.origin), Scale(d, m)));
  }

  /** Alpha in terms of the two dot products it divides. */
  lemma AlphaValue(axis: Axis, p: Vec3, G: real, V: real)
    requires Dot(axis.vector, axis.vector) == G && G != 0.0
    requires Dot(Sub(p, axis.origin), axis.vector) == V
    ensures Alpha(axis, p) == Abs(V) / G
  {
  }

  /**
   * Every light inside the bounding box lies on the axis between its origin
   * and its far end, so its alpha is in `[0, 1]` and palette lookups stay in
   * range.
   */
  lemma AlphaWithinBox(box: Box, d: Vec3, p: Vec3)
    requires Contains(box, p)
    ensures 0.0 <= Alpha(ComputeAxis(box, d), p) <= 1.0
  {
    if HalfFactor(box, d) == 0.0 {
      ZeroFactorAxis(box, d);
      AlphaOnZeroAxis(ComputeAxis(box, d), p);
    } else {
      AlphaWithinBoxNonDegenerate(box, d, p);
    }
  }

  /** A zero axis gives every light alpha `0`. */
  lemma AlphaOnZeroAxis(axis: Axis, p: Vec3)
    requires axis.vector == Zero
    ensures Alpha(axis, p) == 0.0
  {
    assert Dot(Zero, Zero) == 0.0;
  }

  lemma AlphaWithinBoxNonDegenerate(box: Box, d: Vec3, p: Vec3)
    requires Contains(box, p)
    requires HalfFactor(box, d) != 0.0
    ensures 0.0 <= Alpha(ComputeAxis(box, d), p) <= 1.0
  {
    AxisFacts(box, d, p);
    AlphaOnScaledAxis(ComputeAxis(box, d), p, d, 2.0 * HalfFactor(box, d),
      Dot(Sub(p, Center(box)), d), Dot(d, CornerVector(Size(box), d)));
  }

  /** The facts about the axis of a non-degenerate box that bound the alpha of a contained light. */
  lemma AxisFacts(box: Box, d: Vec3, p: Vec3)
    requires Contains(box, p)
    requires HalfFactor(box, d) != 0.0
    ensures 2.0 * HalfFactor(box, d) > 0.0 && Dot(d, d) > 0.0
    ensures ComputeAxis(box, d).vector == Scale(d, 2.0 * HalfFactor(box, d))
    ensures Dot(ComputeAxis(box, d).vector, d) == 2.0 * Dot(d, CornerVector(Size(box), d))
    ensures Dot(Sub(p, ComputeAxis(box, d).origin), d)
      == Dot(Sub(p, Center(box)), d) + Dot(d, CornerVector(Size(box), d))
    ensures -Dot(d, CornerVector(Size(box), d)) <= Dot(Sub(p, Center(box)), d) <= Dot(d, CornerVector(Size(box), d))
  {
    HalfFactorDefinition(box, d);
    DotSelfNonNegative(d);
    DoubleFactor(HalfFactor(box, d), Dot(d, d), Dot(d, CornerVector(Size(box), d)));
    AxisVector(box, d);
    DotAlongScaled(ComputeAxis(box, d).vector, d, 2.0 * HalfFactor(box, d), Dot(d, CornerVector(Size(box), d)));
    OffsetWithinCorner(box, d, p);
    OffsetAlongDirection(box, d, p);
  }

  lemma DotAlongScaled(g: Vec3, d: Vec3, m: real, cd: real)
    requires g == Scale(d, m)
    requires m * Dot(d, d) == 2.0 * cd
    ensures Dot(g, d) == 2.0 * cd
  {
    DotScaleLeft(d, m, d);
  }

  lemma DoubleFactor(k: real, D: real, cd: real)
    requires D >= 0.0 && k >= 0.0 && k != 0.0
    requires D == 0.0 ==> k == 0.0
    requires D != 0.0 ==> k * D == cd
    ensures D > 0.0 && 2.0 * k > 0.0
    ensures (2.0 * k) * D == 2.0 * cd
  {
  }

  /** `(p - origin) . d = (p - centre) . d + d . corner`. */
  lemma OffsetAlongDirection(box: Box, d: Vec3, p: Vec3)
    requires Dot(d, d) > 0.0
    ensures Dot(Sub(p, ComputeAxis(box, d).origin), d)
      == Dot(Sub(p, Center(box)), d) + Dot(d, CornerVector(Size(box), d))
  {
    AxisVector(box, d);
    HalfFactorDefinition(box, d);
    ShiftedOffset(p, Center(box), d, HalfFactor(box, d), Dot(d, CornerVector(Size(box), d)));
  }

  lemma ShiftedOffset(p: Vec3, c: Vec3, d: Vec3, k: real, cd: real)
    requires k * Dot(d, d) == cd
    ensures Dot(Sub(p, Sub(c, Scale(d, k))), d) == Dot(Sub(p, c), d) + cd
  {
    assert Sub(p, Sub(c, Scale(d, k))) == Add(Sub(p, c), Scale(d, k));
    DotAdd(Sub(p, c), Scale(d, k), d);
    DotScaleLeft(d, k, d);
  }

  /** For `g = m d`: `v . g = m (v . d)` and `g . g = m (m (d . d))`. */
  lemma ScaledDots(v: Vec3, d: Vec3, m: real)
    ensures Dot(v, Scale(d, m)) == m * Dot(v, d)
    ensures Dot(Scale(d, m), Scale(d, m)) == m * (m * Dot(d, d))
  {
    DotSymmetric(v, Scale(d, m));
    DotScaleLeft(d, m, v);
    DotSymmetric(d, v);
    DotScaleLeft(d, m, Scale(d, m));
    DotSymmetric(d, Scale(d, m));
    DotScaleLeft(d, m, d);
  }

  /**
   * The closing arithmetic: `|V| / G` lies in `[0, 1]` for `G = m (m D)` and
   * `V = m vd`, where `vd = w + cd`, `m D = 2 cd` and `|w| <= cd`.
   */
  lemma FinalRatio(m: real, vd: real, w: real, cd: real, D: real, G: real, V: real)
    requires m > 0.0 && D > 0.0
    requires m * D == 2.0 * cd
    requires vd == w + cd
    requires -cd <= w <= cd
    requires G == m * (m * D) && V == m * vd
    ensures G > 0.0
    ensures 0.0 <= Abs(V) / G <= 1.0
  {
    MulMonotone(0.0, vd, m);
    MulMonotone(vd, m * D, m);
    MulStrictMonotone(0.0, m, D);
    MulStrictMonotone(0.0, m * D, m);
    RatioInUnit(Abs(m * vd), m * (m * D));
  }

  /**
   * Scaling the direction by a positive factor changes nothing, so normalising
   * the direction (as the animators' constructors do) does not affect the axis.
   */
  lemma AxisIgnoresDirectionScale(box: Box, d: Vec3, k: real)
    requires k > 0.0
    ensures ComputeAxis(box, Scale(d, k)) == ComputeAxis(box, d)
  {
    CornerScale(Size(box), d, k);
    ProjectionIsScaledDirection(box, d);
    ProjectionIsScaledDirection(box, Scale(d, k));
    HalfFactorScale(box, d, k);
    SameHalfSameAxis(box, d, Scale(d, k));
  }

  /** The axis depends on the direction only through the half axis. */
  lemma SameHalfSameAxis(box: Box, d: Vec3, e: Vec3)
    requires ProjectOnVector(CornerVector(Size(box), e), e) == ProjectOnVector(CornerVector(Size(box), d), d)
    ensures ComputeAxis(box, e) == ComputeAxis(box, d)
  {
  }

  /** A positive factor does not change the signs of the direction. */
  lemma CornerScale(size: Vec3, d: Vec3, k: real)
    requires k > 0.0
    ensures CornerVector(size, Scale(d, k)) == CornerVector(size, d)
  {
    SignScale(d.x, k);
    SignScale(d.y, k);
    SignScale(d.z, k);
  }

  lemma SignScale(x: real, k: real)
    requires k > 0.0
    ensures Sign(x * k) == Sign(x)
  {
    if x > 0.0 {
      MulStrictMonotone(0.0, x, k);
    } else if x < 0.0 {
      MulStrictMonotone(x, 0.0, k);
    }
  }

  lemma HalfFactorScale(box: Box, d: Vec3, k: real)
    requires k > 0.0
    requires CornerVector(Size(box), Scale(d, k)) == CornerVector(Size(box), d)
    ensures Scale(Scale(d, k), HalfFactor(box, Scale(d, k))) == Scale(d, HalfFactor(box, d))
  {
    ScaledDirectionHalf(d, CornerVector(Size(box), d), k);
  }

  /**
   * The half axis `q d` with `q = (d . c) / (d . d)` is the same for `d` and
   * for `k d`.
   */
  lemma ScaledDirectionHalf(d: Vec3, c: Vec3, k: real)
    requires k > 0.0
    ensures Scale(Scale(d, k), Quotient(Dot(Scale(d, k), c), Dot(Scale(d, k), Scale(d, k))))
      == Scale(d, Quotient(Dot(d, c), Dot(d, d)))
  {
    ScaledDots(d, d, k);
    DotScaleLeft(d, k, c);
    if Dot(d, d) == 0.0 {
      assert Scale(Scale(d, k), 0.0) == Scale(d, 0.0);
    } else {
      NonZeroProduct(k, Dot(d, d));
      NonZeroProduct(k, k * Dot(d, d));
      FactorOfScaled(k, Quotient(Dot(d, c), Dot(d, d)), Quotient(Dot(Scale(d, k), c), Dot(Scale(d, k), Scale(d, k))),
        Dot(d, d), Dot(d, c), Dot(Scale(d, k), Scale(d, k)), Dot(Scale(d, k), c));
      ScaleByFactor(d, k, Quotient(Dot(Scale(d, k), c), Dot(Scale(d, k), Scale(d, k))), Quotient(Dot(d, c), Dot(d, d)));
    }
  }

  /** The half factors of `d` and of `k d` differ by the factor `k`. */
  lemma FactorOfScaled(k: real, hd: real, he: real, D: real, cd: real, De: real, ce: real)
    requires k > 0.0
    requires De == k * (k * D) && ce == k * cd
    requires D == 0.0 ==> hd == 0.0
    requires De == 0.0 ==> he == 0.0
    requires D != 0.0 ==> hd * D == cd
    requires De != 0.0 ==> he * De == ce
    ensures k * he == hd
  {
    if D != 0.0 {
      NonZeroProduct(k, D);
      NonZeroProduct(k, k * D);
      assert (k * he) * (k * D) == he * (k * (k * D));
      assert hd * (k * D) == k * (hd * D);
      Cancel(k * he, hd, k * D);
    }
  }

  lemma NonZeroProduct(a: real, b: real)
    requires a != 0.0 && b != 0.0
    ensures a * b != 0.0
  {
  }

  lemma ScaleByFactor(d: Vec3, a: real, b: real, c: real)
    requires a * b == c
    ensures Scale(Scale(d, a), b) == Scale(d, c)
  {
  }

  /** Cancelling a non-zero factor. */
  lemma Cancel(a: real, b: real, c: real)
    requires c != 0.0
    requires a * c == b * c
    ensures a == b
  {
    assert (a - b) * c == 0.0;
  }

  /**
   * The shared `prepareUpdate`: the axis is recomputed from the context's box
   * when the box changed, and kept otherwise (`None` until first computed).
   */
  function RefreshAxis(current: Option<Axis>, d: Vec3, box: Box, boxChanged: bool): (r: Option<Axis>)
    ensures boxChanged ==> r == Some(ComputeAxis(box, d))
    ensures !boxChanged ==> r == current
  {
    if boxChanged then Some(ComputeAxis(box, d)) else current
  }

  /** Refreshing twice with the same box is refreshing once. */
  lemma RefreshIdempotent(current: Option<Axis>, d: Vec3, box: Box, boxChanged: bool)
    ensures RefreshAxis(RefreshAxis(current, d, box, boxChanged), d, box, boxChanged)
         == RefreshAxis(current, d, box, boxChanged)
  {
  }

  /** The default direction: straight up. */
  const Up: Vec3 := Vec3(0.0, 1.0, 0.0)

  /**
   * With the default direction the axis runs vertically from the middle of
   * the box's bottom face to the middle of its top face.
   */
  lemma UpAxis(box: Box)
    requires !IsEmpty(box)
    ensures ComputeAxis(box, Up) ==
      Axis(Vec3(Center(box).x, box.min.y, Center(box).z), Vec3(0.0, box.max.y - box.min.y, 0.0))
  {
    var size := Size(box);
    assert CornerVector(size, Up) == Vec3(0.0, size.y / 2.0, 0.0);
    assert Dot(Up, Up) == 1.0;
    assert ProjectOnVector(CornerVector(size, Up), Up) == Vec3(0.0, size.y / 2.0, 0.0);
  }

  /** A light's height above the box's bottom as a fraction of the box's height. */
  function HeightFraction(box: Box, p: Vec3): (f: real)
    requires Contains(box, p) && box.max.y > box.min.y
    ensures 0.0 <= f <= 1.0
  {
    RatioInUnit(p.y - box.min.y, box.max.y - box.min.y);
    (p.y - box.min.y) / (box.max.y - box.min.y)
  }

  /** With the default direction a light's alpha is its height fraction. */
  lemma UpAlpha(box: Box, p: Vec3)
    requires Contains(box, p) && box.max.y > box.min.y
    ensures Alpha(ComputeAxis(box, Up), p) == HeightFraction(box, p)
  {
    ContainedMeansNonEmpty(box, p);
    UpAxis(box);
    var axis := ComputeAxis(box, Up);
    var h := box.max.y - box.min.y;
    assert Dot(axis.vector, axis.vector) == h * h;
    assert Dot(Sub(p, axis.origin), axis.vector) == (p.y - box.min.y) * h;
    RatioOfSquares(p.y - box.min.y, h, Dot(Sub(p, axis.origin), axis.vector), Dot(axis.vector, axis.vector));
  }

  lemma PositiveSquare(h: real, g: real)
    requires 0.0 < h && g == h * h
    ensures g > 0.0
  {
    assert g / h == h;
  }

  lemma RatioOfSquares(a: real, h: real, v: real, g: real)
    requires 0.0 <= a && 0.0 < h && v == a * h && g == h * h
    ensures g != 0.0 && Abs(v) / g == a / h
  {
    MulMonotone(0.0, a, h);
    PositiveSquare(h, g);
    assert Abs(v) == v;
    var q := a / h;
    assert q * h == a;
    assert q * g == (q * h) * h;
    assert q * g == v;
    Cancel(v / g, q, g);
  }
}
