/** `StaticColorAnimator`: every light shows one fixed colour. */
module ColorStatic {
  import opened Vectors
  import opened AnimatorProtocol

  datatype StaticColorAnimator = StaticColorAnimator(color: Color)

  /**
   * `colorLight(context, lightIndex, lightPosition)`: the configured colour,
   * whatever the frame, the light and its position.
   */
  function ColorLight(a: StaticColorAnimator, ctx: AnimatorContext, lightIndex: nat, p: Vec3): (c: Color)
    ensures c == a.color
  {
    a.color
  }
}
