/** The stand-alone copy of `toLocalPoint`. */
module Box3Utils {
  import opened Vectors
  import opened Optional
  import ThreeUtils

  /** The same mapping as `ThreeUtils.ToLocalPoint`, written out on its own. */
  function ToLocalPoint(box: Box, p: Vec3): (r: Option<ThreeUtils.LocalPoint>)
    ensures r == ThreeUtils.ToLocalPoint(box, p)
    ensures r.None? <==> !Contains(box, p)
  {
    if !Contains(box, p) then None
    else
      ContainedMeansNonEmpty(box, p);
      var size := Size(box);
      Some(ThreeUtils.LocalPoint(
        ThreeUtils.LocalCoordinate(p.x, box.min.x, size.x),
        ThreeUtils.LocalCoordinate(p.y, box.min.y, size.y),
        ThreeUtils.LocalCoordinate(p.z, box.min.z, size.z)))
  }
}
