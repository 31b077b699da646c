/**
 * The transcendental functions of <cmath> and glm::normalize, which the renderer
 * calls but whose floating-point implementations are not part of this model.
 * They are carried as function values and constrained only by the range
 * contracts the renderer relies on.
 */
module MathLib {
  import opened Vectors

  /** std::numbers::pi_v<float>, the single-precision value of pi. */
  const Pi: real := 3.1415927410125732421875

  datatype Libm = Libm(
    sqrt: real -> real,
    acos: real -> real,
    atan2: (real, real) -> real,
    normalize: Vec3 -> Vec3)

  /**
   * sqrt is the non-negative square root on [0, inf); acos maps [-1, 1] into
   * [0, pi]; atan2 lands in [-pi, pi]; normalize turns a non-zero vector into a
   * unit vector pointing the same way (parallel to it, with a positive dot
   * product).
   */
  ghost predicate ValidLibm(m: Libm) {
    && (forall c :: 0.0 <= c ==> 0.0 <= m.sqrt(c) && m.sqrt(c) * m.sqrt(c) == c)
    && (forall c :: -1.0 <= c <= 1.0 ==> 0.0 <= m.acos(c) <= Pi)
    && (forall y, x :: -Pi <= m.atan2(y, x) <= Pi)
    && (forall a :: a != Zero ==>
          Norm2(m.normalize(a)) == 1.0 && Dot(m.normalize(a), a) > 0.0 && Cross(m.normalize(a), a) == Zero)
  }
}
