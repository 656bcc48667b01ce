/**
 * The contract between the host and the animators: the per-frame snapshot
 * each animator receives.
 */
module AnimatorProtocol {
  import opened Vectors

  /**
   * `AnimatorContext`: wall-clock time and time since the previous frame in
   * milliseconds, the number of lights, the lights' bounding box, and whether
   * the count or the box changed since the previous frame.
   */
  datatype AnimatorContext = AnimatorContext(
    timeMillis: nat,
    deltaTimeMillis: int,
    lightCount: nat,
    hasLightCountChanged: bool,
    boundingBox: Box,
    hasBoundingBoxChanged: bool)
}
