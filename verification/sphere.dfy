/** sphere.h: the Sphere primitive and its two-phase intersection. */
module Spheres {
  import opened RealArith
  import opened Vectors
  import opened MathLib
  import opened Random
  import opened Objects

  /**
   * A sphere: its center (the field `origin` in sphere.h), its radius and its
   * material. The fields are never changed after construction.
   */
  datatype Sphere = Sphere(center: Vec3, radius: real, mat: MaterialRef) {

    /** oc: the vector from the ray origin to the center. */
    function ToCenter(r: Ray): Vec3 { Sub(center, r.origin) }

    /** h: the projection of oc on the ray direction (half of -b in the quadratic). */
    function HalfB(r: Ray): real { Dot(r.direction, ToCenter(r)) }

    /** c: the squared distance from the ray origin to the center, less radius squared. */
    function Offset(r: Ray): real {
      var oc := ToCenter(r);
      oc.x * oc.x + oc.y * oc.y + oc.z * oc.z - radius * radius
    }

    /** h^2 - a * c with a fixed at 1. */
    function Discriminant(r: Ray): real { HalfB(r) * HalfB(r) - 1.0 * Offset(r) }

    /** The ray meets the sphere's surface at parameter t: |o + t d - center|^2 = radius^2. */
    ghost predicate IsRoot(r: Ray, t: real) {
      Norm2(Sub(r.At(t), center)) == radius * radius
    }

    /**
     * Sphere::bvh_hit. A negative discriminant is a miss; otherwise the smaller
     * root h - sqrt(disc) is taken when it lies in (tmin, tmax], else the larger
     * root h + sqrt(disc) when that does, else a miss.
     */
    function BvhHit(m: Libm, r: Ray, tmin: real, tmax: real): (b: BvhResult)
      ensures Discriminant(r) < 0.0 ==> b == Miss
      ensures b.HitAt? ==> tmin < b.t <= tmax
    {
      var a := 1.0;
      var h := HalfB(r);
      var c := Offset(r);
      var discriminant := h * h - a * c;
      if discriminant < 0.0 then Miss
      else
        var sqrtd := m.sqrt(discriminant);
        var near := (h - sqrtd) / a;
        if !(near <= tmin || near > tmax) then HitAt(near)
        else
          var far := (h + sqrtd) / a;
          if far <= tmin || far > tmax then Miss else HitAt(far)
    }

    /** (point - center) / radius, normalised: the outward unit normal at a surface point. */
    function OutwardNormal(m: Libm, p: Vec3): Vec3
      requires radius != 0.0
    {
      m.normalize(Div(Sub(p, center), radius))
    }

    /**
     * Sphere::hit: the shading record for a broad-phase hit, built from the
     * broad-phase t. The normal is flipped to face against the ray; the
     * texture coordinates come from the outward normal's polar angles.
     */
    function Hit(m: Libm, g: Rng, bvh: BvhResult, r: Ray): (rec: ColorHit)
      requires ValidLibm(m) && ValidRng(g)
      requires bvh.HitAt? && radius != 0.0
      ensures rec.point == r.At(bvh.t)
      ensures rec.isFront <==> Dot(r.direction, OutwardNormal(m, rec.point)) < 0.0
      ensures rec.isFront ==> rec.normal == OutwardNormal(m, rec.point)
      ensures !rec.isFront ==> rec.normal == Neg(OutwardNormal(m, rec.point))
      ensures Dot(r.direction, rec.normal) <= 0.0
      ensures Dot(rec.direction, rec.normal) >= 0.0
      ensures rec.mat == mat
      ensures rec.point != center ==> 0.0 <= rec.u <= 1.0 && 0.0 <= rec.v <= 1.0
      ensures rec.point != center ==> Cross(rec.normal, Sub(rec.point, center)) == Zero
    {
      var point := r.At(bvh.t);
      var outward := OutwardNormal(m, point);
      var isFront := Dot(r.direction, outward) < 0.0;
      var normal := if isFront then outward else Neg(outward);
      var theta := m.acos(-outward.y);
      var phi := m.atan2(-outward.z, outward.x) + Pi;
      UnitOutwardNormal(m, point);
      ParallelNeg(outward, Sub(point, center));
      ColorHit(point, normal, isFront, g.hemisphere(normal), mat, phi / (2.0 * Pi), theta / Pi)
    }

    /** Sphere::aabb: the cube of half-side radius around the center. */
    function Aabb(): (box: Box)
      ensures box.NonEmpty() <==> radius >= 0.0
      ensures box.Contains(center) <==> radius >= 0.0
    {
      var rvec := Splat(radius);
      Box(Sub(center, rvec), Add(center, rvec))
    }

    /** Away from the center, the outward normal is a unit vector. */
    lemma UnitOutwardNormal(m: Libm, p: Vec3)
      requires ValidLibm(m) && radius != 0.0
      ensures p != center ==> Norm2(OutwardNormal(m, p)) == 1.0 && Within(OutwardNormal(m, p), -1.0, 1.0)
      ensures p != center ==> Cross(OutwardNormal(m, p), Sub(p, center)) == Zero
      ensures p != center && radius > 0.0 ==> Dot(OutwardNormal(m, p), Sub(p, center)) > 0.0
    {
      if p != center {
        assert Sub(p, center) != Zero;
        DivNonZero(Sub(p, center), radius);
        UnitComponents(OutwardNormal(m, p));
        ParallelToDiv(OutwardNormal(m, p), Sub(p, center), radius);
        DotDiv(OutwardNormal(m, p), Sub(p, center), radius);
        if radius > 0.0 {
          MulPos(Dot(OutwardNormal(m, p), Div(Sub(p, center), radius)), radius);
        }
      }
    }

    /** With a unit direction, t is a root exactly when (t - h)^2 equals the discriminant. */
    lemma {:induction false} RootEquation(r: Ray, t: real)
      requires Norm2(r.direction) == 1.0
      ensures IsRoot(r, t) <==> (t - HalfB(r)) * (t - HalfB(r)) == Discriminant(r)
    {
      DistanceAlongRay(r, t);
      DiscriminantForm(r);
      CompleteSquare(Norm2(Sub(r.At(t), center)), t, HalfB(r), Norm2(ToCenter(r)), radius * radius);
    }

    /** The squared distance from the center of the ray's point at t, for a unit direction. */
    lemma DistanceAlongRay(r: Ray, t: real)
      requires Norm2(r.direction) == 1.0
      ensures Norm2(Sub(r.At(t), center)) == t * t - 2.0 * t * HalfB(r) + Norm2(ToCenter(r))
    {
      assert Sub(r.At(t), center) == Sub(Scale(t, r.direction), ToCenter(r));
      ExpandDistance(r.direction, ToCenter(r), t);
    }

    /** The discriminant in terms of the squared distance from the ray origin to the center. */
    lemma DiscriminantForm(r: Ray)
      ensures Discriminant(r) == HalfB(r) * HalfB(r) - (Norm2(ToCenter(r)) - radius * radius)
    {
    }

    /** With a negative discriminant the ray never meets the sphere. */
    lemma NoRoot(r: Ray, t: real)
      requires Norm2(r.direction) == 1.0 && Discriminant(r) < 0.0
      ensures !IsRoot(r, t)
    {
      RootEquation(r, t);
      SquareNonNeg(t - HalfB(r));
    }

    /** Otherwise the roots are exactly h - sqrt(disc) and h + sqrt(disc). */
    lemma {:induction false} RootCandidates(m: Libm, r: Ray, t: real)
      requires ValidLibm(m) && Norm2(r.direction) == 1.0 && Discriminant(r) >= 0.0
      ensures IsRoot(r, t) <==>
        t == HalfB(r) - m.sqrt(Discriminant(r)) || t == HalfB(r) + m.sqrt(Discriminant(r))
    {
      var s := m.sqrt(Discriminant(r));
      assert s * s == Discriminant(r);
      RootsFromSquareRoot(r, t, s);
    }

    /** For any square root s of the discriminant, the roots are h - s and h + s. */
    lemma {:induction false} RootsFromSquareRoot(r: Ray, t: real, s: real)
      requires Norm2(r.direction) == 1.0 && s * s == Discriminant(r)
      ensures IsRoot(r, t) <==> t == HalfB(r) - s || t == HalfB(r) + s
    {
      RootEquation(r, t);
      ShiftedRoots(IsRoot(r, t), t, HalfB(r), s, Discriminant(r));
    }

    /**
     * The broad phase is the exact nearest-root test of the sphere equation: a
     * reported t is a root in (tmin, tmax] and no root in that interval is
     * smaller; a miss means no root lies in (tmin, tmax]. This needs a unit
     * ray direction, because bvh_hit fixes the quadratic's a to 1.
     */
    lemma {:induction false} BvhHitIsNearestRoot(m: Libm, r: Ray, tmin: real, tmax: real)
      requires ValidLibm(m) && Norm2(r.direction) == 1.0
      ensures BvhHit(m, r, tmin, tmax).HitAt? ==>
        && IsRoot(r, BvhHit(m, r, tmin, tmax).t)
        && tmin < BvhHit(m, r, tmin, tmax).t <= tmax
        && forall t :: IsRoot(r, t) && tmin < t <= tmax ==> BvhHit(m, r, tmin, tmax).t <= t
      ensures BvhHit(m, r, tmin, tmax) == Miss ==>
        forall t :: IsRoot(r, t) ==> !(tmin < t <= tmax)
    {
      if Discriminant(r) < 0.0 {
        forall t ensures !IsRoot(r, t) {
          NoRoot(r, t);
        }
      } else {
        var sqrtd := m.sqrt(Discriminant(r));
        assert sqrtd >= 0.0;
        forall t ensures IsRoot(r, t) <==> t == HalfB(r) - sqrtd || t == HalfB(r) + sqrtd {
          RootCandidates(m, r, t);
        }
      }
    }

    /** Every point within the sphere lies in its bounding box. */
    lemma AabbContainsBall(p: Vec3)
      requires radius >= 0.0
      requires Norm2(Sub(p, center)) <= radius * radius
      ensures Aabb().Contains(p)
    {
      var q := Sub(p, center);
      ComponentBound(q.x, q.y, q.z, radius);
      ComponentBound(q.y, q.x, q.z, radius);
      ComponentBound(q.z, q.x, q.y, radius);
    }

    /**
     * The narrow phase after a broad-phase hit (unit direction, non-zero
     * radius): the recorded point lies on the sphere and inside its bounding
     * box (for a positive radius), the outward normal there is a unit vector
     * and both texture coordinates lie in [0, 1].
     */
    lemma HitAfterBvhHit(m: Libm, g: Rng, r: Ray, tmin: real, tmax: real)
      requires ValidLibm(m) && ValidRng(g)
      requires Norm2(r.direction) == 1.0 && radius != 0.0
      requires BvhHit(m, r, tmin, tmax).HitAt?
      ensures var rec := Hit(m, g, BvhHit(m, r, tmin, tmax), r);
        && Norm2(Sub(rec.point, center)) == radius * radius
        && Norm2(OutwardNormal(m, rec.point)) == 1.0
        && 0.0 <= rec.u <= 1.0 && 0.0 <= rec.v <= 1.0
        && (radius > 0.0 ==> Aabb().Contains(rec.point))
    {
      var p := r.At(BvhHit(m, r, tmin, tmax).t);
      BvhHitOnSphere(m, r, tmin, tmax);
      HitAwayFromCenter(m, g, r, tmin, tmax);
      UnitOutwardNormal(m, p);
      if radius > 0.0 {
        AabbContainsBall(p);
      }
    }

    /** The recorded point is not the center, so the texture coordinates lie in [0, 1]. */
    lemma HitAwayFromCenter(m: Libm, g: Rng, r: Ray, tmin: real, tmax: real)
      requires ValidLibm(m) && ValidRng(g)
      requires Norm2(r.direction) == 1.0 && radius != 0.0
      requires BvhHit(m, r, tmin, tmax).HitAt?
      ensures r.At(BvhHit(m, r, tmin, tmax).t) != center
      ensures Hit(m, g, BvhHit(m, r, tmin, tmax), r).point == r.At(BvhHit(m, r, tmin, tmax).t)
      ensures var rec := Hit(m, g, BvhHit(m, r, tmin, tmax), r);
        0.0 <= rec.u <= 1.0 && 0.0 <= rec.v <= 1.0
    {
      BvhHitAwayFromCenter(m, r, tmin, tmax);
    }

    /** With a non-zero radius, a broad-phase hit of a ray with a unit direction is not the center. */
    lemma BvhHitAwayFromCenter(m: Libm, r: Ray, tmin: real, tmax: real)
      requires ValidLibm(m) && Norm2(r.direction) == 1.0 && radius != 0.0
      requires BvhHit(m, r, tmin, tmax).HitAt?
      ensures r.At(BvhHit(m, r, tmin, tmax).t) != center
    {
      BvhHitOnSphere(m, r, tmin, tmax);
      SurfaceAwayFromCenter(r.At(BvhHit(m, r, tmin, tmax).t));
    }

    /** With a non-zero radius, no point of the surface is the center. */
    lemma SurfaceAwayFromCenter(p: Vec3)
      requires radius != 0.0 && Norm2(Sub(p, center)) == radius * radius
      ensures p != center
    {
      NonZeroLength(Sub(p, center), radius);
    }

    /** A broad-phase hit of a ray with a unit direction lies on the sphere. */
    lemma BvhHitOnSphere(m: Libm, r: Ray, tmin: real, tmax: real)
      requires ValidLibm(m) && Norm2(r.direction) == 1.0
      requires BvhHit(m, r, tmin, tmax).HitAt?
      ensures Norm2(Sub(r.At(BvhHit(m, r, tmin, tmax).t), center)) == radius * radius
    {
      BvhHitIsNearestRoot(m, r, tmin, tmax);
      assert IsRoot(r, BvhHit(m, r, tmin, tmax).t);
    }
  }

  /** If p holds exactly when (t - h)^2 == c, and s * s == c, then p holds exactly when t is h - s or h + s. */
  lemma ShiftedRoots(p: bool, t: real, h: real, s: real, c: real)
    requires p <==> (t - h) * (t - h) == c
    requires s * s == c
    ensures p <==> t == h - s || t == h + s
  {
    SquareRoots(t - h, s, c);
  }

  /**
   * Completing the square: when n == t^2 - 2 t h + oo, n equals rr exactly
   * when (t - h)^2 equals h^2 - (oo - rr).
   */
  lemma CompleteSquare(n: real, t: real, h: real, oo: real, rr: real)
    requires n == t * t - 2.0 * t * h + oo
    ensures n == rr <==> (t - h) * (t - h) == h * h - (oo - rr)
  {
    assert (t - h) * (t - h) == t * t - 2.0 * t * h + h * h;
  }

  /** |t d - oc|^2 expanded, with |d|^2 = 1. */
  lemma ExpandDistance(d: Vec3, oc: Vec3, t: real)
    requires Norm2(d) == 1.0
    ensures Norm2(Sub(Scale(t, d), oc)) == t * t - 2.0 * t * Dot(d, oc) + Norm2(oc)
  {
    assert Norm2(Sub(Scale(t, d), oc)) == t * t * Norm2(d) - 2.0 * t * Dot(d, oc) + Norm2(oc);
  }
}
