/**
 * The sampling utilities of random.h. The process-wide generator is replaced by
 * explicit values: a hemisphere sampler, and the draws one camera sample takes.
 */
module Random {
  import opened Vectors

  /** random_hemisphere(normal), as a function of the normal. */
  datatype Rng = Rng(hemisphere: Vec3 -> Vec3)

  /** A hemisphere sample never points below the surface it is drawn about. */
  ghost predicate ValidRng(g: Rng) {
    forall n :: Dot(g.hemisphere(n), n) >= 0.0
  }

  /**
   * The random numbers one call of PerspectiveCamera::get_ray consumes: two
   * random_float() jitters and one random_disk() point.
   */
  datatype Draw = Draw(jitterH: real, jitterW: real, diskX: real, diskY: real)

  /** random_float() lies in [0, 1); random_disk() lies in the unit disk. */
  predicate ValidDraw(d: Draw) {
    && 0.0 <= d.jitterH < 1.0
    && 0.0 <= d.jitterW < 1.0
    && InUnitDisk(d.diskX, d.diskY)
  }

  /** (x, y) lies in the closed unit disk. */
  predicate InUnitDisk(x: real, y: real) {
    x * x + y * y <= 1.0
  }
}
