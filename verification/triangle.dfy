/** triangle.h: the Triangle primitive, Moller-Trumbore intersection and its box. */
module Triangles {
  import opened RealArith
  import opened Vectors
  import opened MathLib
  import opened Random
  import opened Objects

  /** std::numeric_limits<float>::epsilon(), that is 2^-23. */
  const Epsilon: real := 0.00000011920928955078125

  function Abs(x: real): real { if x < 0.0 then -x else x }

  function Min3(a: real, b: real, c: real): (r: real)
    ensures r <= a && r <= b && r <= c
  {
    if a <= b && a <= c then a else if b <= c then b else c
  }

  function Max3(a: real, b: real, c: real): (r: real)
    ensures r >= a && r >= b && r >= c
  {
    if a >= b && a >= c then a else if b >= c then b else c
  }

  /**
   * A triangle with counter-clockwise vertices v1 -> v2 -> v3 (seen from the
   * front), the unit normal fixed at construction, and its material.
   */
  datatype Triangle = Triangle(v1: Vec3, v2: Vec3, v3: Vec3, normal: Vec3, mat: MaterialRef) {

    /** The u edge, v2 - v1. */
    function Edge1(): Vec3 { Sub(v2, v1) }

    /** The v edge, v3 - v1. */
    function Edge2(): Vec3 { Sub(v3, v1) }

    /** The point with barycentric parameters (u, v): v1 + u (v2 - v1) + v (v3 - v1). */
    function Point(u: real, v: real): Vec3 {
      Add(v1, Add(Scale(u, Edge1()), Scale(v, Edge2())))
    }

    /** The closed triangle in parameter space. */
    predicate InTriangle(u: real, v: real) {
      0.0 <= u && 0.0 <= v && u + v <= 1.0
    }

    /** det = edge1 . (direction x edge2); zero exactly when the ray is parallel to the plane. */
    function Det(r: Ray): real { Dot(Edge1(), Cross(r.direction, Edge2())) }

    /** s = origin - v1 */
    function Svec(r: Ray): Vec3 { Sub(r.origin, v1) }

    /** q = s x edge1 */
    function Qvec(r: Ray): Vec3 { Cross(Svec(r), Edge1()) }

    /** inv_det = 1 / det */
    function InvDet(r: Ray): (inv: real)
      requires Det(r) != 0.0
      ensures inv * Det(r) == 1.0
    {
      1.0 / Det(r)
    }

    /** u = inv_det (s . (direction x edge2)): the ratio of s . (direction x edge2) to det. */
    function BaryU(r: Ray): (u: real)
      requires Det(r) != 0.0
      ensures u * Det(r) == Dot(Svec(r), Cross(r.direction, Edge2()))
    {
      CancelInverse(InvDet(r), Det(r), Dot(Svec(r), Cross(r.direction, Edge2())));
      InvDet(r) * Dot(Svec(r), Cross(r.direction, Edge2()))
    }

    /** v = inv_det (direction . q): the ratio of direction . q to det. */
    function BaryV(r: Ray): (v: real)
      requires Det(r) != 0.0
      ensures v * Det(r) == Dot(r.direction, Qvec(r))
    {
      CancelInverse(InvDet(r), Det(r), Dot(r.direction, Qvec(r)));
      InvDet(r) * Dot(r.direction, Qvec(r))
    }

    /** t = inv_det (edge2 . q): the ratio of edge2 . q to det. */
    function BaryT(r: Ray): (t: real)
      requires Det(r) != 0.0
      ensures t * Det(r) == Dot(Edge2(), Qvec(r))
    {
      CancelInverse(InvDet(r), Det(r), Dot(Edge2(), Qvec(r)));
      InvDet(r) * Dot(Edge2(), Qvec(r))
    }

    /**
     * Triangle::bvh_hit. A ray within epsilon of parallel misses; otherwise
     * the hit is reported when u lies in [0, 1], v is non-negative, u + v is at
     * most 1 and t lies in the closed interval [tmin, tmax].
     */
    function BvhHit(r: Ray, tmin: real, tmax: real): (b: BvhResult)
      ensures b.HitAt? <==>
        && Abs(Det(r)) > Epsilon
        && InTriangle(BaryU(r), BaryV(r))
        && tmin <= BaryT(r) <= tmax
      ensures b.HitAt? ==> b.t == BaryT(r)
    {
      var det := Det(r);
      if Abs(det) <= Epsilon then Miss
      else
        var u := BaryU(r);
        if u < 0.0 || u > 1.0 then Miss
        else
          var v := BaryV(r);
          if v < 0.0 || u + v > 1.0 then Miss
          else
            var t := BaryT(r);
            if t < tmin || t > tmax then Miss
            else HitAt(t)
    }

    /** The stored normal, flipped when needed to face against the ray. */
    function Oriented(r: Ray): (n: Vec3)
      ensures Dot(r.direction, n) <= 0.0
      ensures n == normal || n == Neg(normal)
    {
      DotNeg(r.direction, normal);
      if Dot(r.direction, normal) < 0.0 then normal else Neg(normal)
    }

    /**
     * Triangle::hit with the stored normal oriented before the hemisphere
     * sample is drawn about it: the point comes from the broad-phase t, the
     * normal is flipped to face against the ray, the scatter direction lies in
     * the hemisphere about that normal, and (u, v) are the barycentric
     * parameters recomputed from the ray.
     */
    function Hit(g: Rng, bvh: BvhResult, r: Ray): (rec: ColorHit)
      requires bvh.HitAt? && Det(r) != 0.0
      ensures rec.point == r.At(bvh.t)
      ensures rec.isFront <==> Dot(r.direction, normal) < 0.0
      ensures rec.normal == (if rec.isFront then normal else Neg(normal))
      ensures Dot(r.direction, rec.normal) <= 0.0
      ensures ValidRng(g) ==> Dot(rec.direction, rec.normal) >= 0.0
      ensures rec.mat == mat
      ensures rec.u == BaryU(r) && rec.v == BaryV(r)
    {
      var oriented := Oriented(r);
      ColorHit(r.At(bvh.t), oriented, Dot(r.direction, normal) < 0.0, g.hemisphere(oriented), mat,
        BaryU(r), BaryV(r))
    }

    /**
     * Triangle::hit as the source orders it: the hemisphere sample is drawn
     * about the record's normal before that normal is assigned, so it is drawn
     * about whatever `stale` value the fresh record's normal holds.
     */
    function HitAsWritten(g: Rng, bvh: BvhResult, r: Ray, stale: Vec3): (rec: ColorHit)
      requires bvh.HitAt? && Det(r) != 0.0
      ensures rec.direction == g.hemisphere(stale)
      ensures rec == Hit(g, bvh, r).(direction := g.hemisphere(stale))
    {
      var direction := g.hemisphere(stale);
      ColorHit(r.At(bvh.t), Oriented(r), Dot(r.direction, normal) < 0.0, direction, mat,
        BaryU(r), BaryV(r))
    }

    /** Triangle::aabb: the componentwise minimum and maximum of the vertices. */
    function Aabb(): (box: Box)
      ensures box.NonEmpty()
      ensures box.Contains(v1) && box.Contains(v2) && box.Contains(v3)
    {
      Box(Vec3(Min3(v1.x, v2.x, v3.x), Min3(v1.y, v2.y, v3.y), Min3(v1.z, v2.z, v3.z)),
          Vec3(Max3(v1.x, v2.x, v3.x), Max3(v1.y, v2.y, v3.y), Max3(v1.z, v2.z, v3.z)))
    }

    /** The intersection's parameters in the form Cramer's rule takes them. */
    lemma CramerInputs(r: Ray)
      requires Det(r) != 0.0
      ensures InvDet(r) * Dot(Edge1(), Cross(r.direction, Edge2())) == 1.0
      ensures BaryU(r) == InvDet(r) * Dot(Svec(r), Cross(r.direction, Edge2()))
      ensures BaryV(r) == InvDet(r) * Dot(r.direction, Cross(Svec(r), Edge1()))
      ensures BaryT(r) == InvDet(r) * Dot(Edge2(), Cross(Svec(r), Edge1()))
    {
    }

    /**
     * Cramer's rule, forward: with a non-zero determinant the parameters
     * computed by the intersection name the same point on the triangle's
     * plane and on the ray.
     */
    lemma {:induction false} BarycentricPointOnRay(r: Ray)
      requires Det(r) != 0.0
      ensures Point(BaryU(r), BaryV(r)) == r.At(BaryT(r))
    {
      var u, v, t := BaryU(r), BaryV(r), BaryT(r);
      var d, e1, e2, s := r.direction, Edge1(), Edge2(), Svec(r);
      CramerInputs(r);
      CramerPoint(v1, r.origin, d, e1, e2, InvDet(r), u, v, t);
    }

    /**
     * Cramer's rule, backward: a point that lies both on the ray and on the
     * triangle's plane has exactly the parameters the intersection computes.
     */
    lemma {:induction false} PlaneHitHasBarycentrics(r: Ray, u: real, v: real, t: real)
      requires Det(r) != 0.0
      requires Point(u, v) == r.At(t)
      ensures u == BaryU(r) && v == BaryV(r) && t == BaryT(r)
    {
      var det, d, e1, e2 := Det(r), r.direction, Edge1(), Edge2();
      var s := Svec(r);
      assert s == Sub(Add(Scale(u, e1), Scale(v, e2)), Scale(t, d));
      TripleProducts(d, e1, e2, u, v, t);
      var inv := InvDet(r);
      assert inv * (u * det) == u * (inv * det);
      assert inv * (v * det) == v * (inv * det);
      assert inv * (t * det) == t * (inv * det);
    }

    /** A reported t is where the ray meets the closed triangle. */
    lemma {:induction false} BvhHitOnTriangle(r: Ray, tmin: real, tmax: real)
      requires BvhHit(r, tmin, tmax).HitAt?
      ensures Abs(Det(r)) > Epsilon && tmin <= BvhHit(r, tmin, tmax).t <= tmax
      ensures InTriangle(BaryU(r), BaryV(r))
      ensures Point(BaryU(r), BaryV(r)) == r.At(BvhHit(r, tmin, tmax).t)
    {
      BarycentricPointOnRay(r);
    }

    /**
     * Conversely, where a ray not within epsilon of parallel meets the closed
     * triangle at a t in [tmin, tmax], the broad phase reports that t.
     */
    lemma {:induction false} TriangleHitIsReported(r: Ray, tmin: real, tmax: real, u: real, v: real, t: real)
      requires Abs(Det(r)) > Epsilon && tmin <= t <= tmax
      requires InTriangle(u, v) && Point(u, v) == r.At(t)
      ensures BvhHit(r, tmin, tmax) == HitAt(t)
    {
      PlaneHitHasBarycentrics(r, u, v, t);
    }

    /**
     * The broad phase reports t exactly when the ray, not within epsilon of
     * parallel, meets the closed triangle at parameter t in [tmin, tmax].
     */
    lemma {:induction false} BvhHitIsTriangleHit(r: Ray, tmin: real, tmax: real, t: real)
      ensures BvhHit(r, tmin, tmax) == HitAt(t) <==>
        && Abs(Det(r)) > Epsilon
        && tmin <= t <= tmax
        && exists u, v :: InTriangle(u, v) && Point(u, v) == r.At(t)
    {
      if BvhHit(r, tmin, tmax) == HitAt(t) {
        BvhHitOnTriangle(r, tmin, tmax);
        assert InTriangle(BaryU(r), BaryV(r)) && Point(BaryU(r), BaryV(r)) == r.At(t);
      }
      if && Abs(Det(r)) > Epsilon
         && tmin <= t <= tmax
         && exists u, v :: InTriangle(u, v) && Point(u, v) == r.At(t)
      {
        var u, v :| InTriangle(u, v) && Point(u, v) == r.At(t);
        TriangleHitIsReported(r, tmin, tmax, u, v, t);
      }
    }

    /** Every point of the closed triangle lies in the bounding box. */
    lemma TriangleInBox(u: real, v: real)
      requires InTriangle(u, v)
      ensures Aabb().Contains(Point(u, v))
    {
      var p := Point(u, v);
      ConvexBetween(v1.x, v2.x, v3.x, u, v, p.x);
      ConvexBetween(v1.y, v2.y, v3.y, u, v, p.y);
      ConvexBetween(v1.z, v2.z, v3.z, u, v, p.z);
    }

    /**
     * The narrow phase after a broad-phase hit: the recorded (u, v) are the
     * barycentric parameters of the recorded point, they lie in the closed
     * triangle, and the point lies in the triangle's bounding box.
     */
    lemma HitAfterBvhHit(g: Rng, r: Ray, tmin: real, tmax: real)
      requires BvhHit(r, tmin, tmax).HitAt?
      ensures Det(r) != 0.0
      ensures Point(Hit(g, BvhHit(r, tmin, tmax), r).u, Hit(g, BvhHit(r, tmin, tmax), r).v)
        == Hit(g, BvhHit(r, tmin, tmax), r).point
      ensures InTriangle(Hit(g, BvhHit(r, tmin, tmax), r).u, Hit(g, BvhHit(r, tmin, tmax), r).v)
      ensures Aabb().Contains(Hit(g, BvhHit(r, tmin, tmax), r).point)
    {
      BvhHitOnTriangle(r, tmin, tmax);
      TriangleInBox(BaryU(r), BaryV(r));
    }
  }

  /**
   * Triangle::Triangle: the normal is the normalised cross product of the two
   * edges, so for a non-degenerate triangle it is a unit vector parallel to
   * e1 x e2, that is perpendicular to the triangle's plane, on the side from
   * which v1 -> v2 -> v3 runs counter-clockwise.
   */
  function MakeTriangle(m: Libm, v1: Vec3, v2: Vec3, v3: Vec3, mat: MaterialRef): (tri: Triangle)
    requires ValidLibm(m)
    ensures tri.v1 == v1 && tri.v2 == v2 && tri.v3 == v3 && tri.mat == mat
    ensures Cross(Sub(v2, v1), Sub(v3, v1)) != Zero ==>
      Norm2(tri.normal) == 1.0 && Dot(tri.normal, Cross(tri.Edge1(), tri.Edge2())) > 0.0
    ensures Cross(Sub(v2, v1), Sub(v3, v1)) != Zero ==>
      Cross(tri.normal, Cross(tri.Edge1(), tri.Edge2())) == Zero
  {
    Triangle(v1, v2, v3, m.normalize(Cross(Sub(v2, v1), Sub(v3, v1))), mat)
  }

  /**
   * The shading record of a triangle built from non-degenerate edges carries a
   * unit normal perpendicular to the triangle, facing against the ray.
   */
  lemma MadeTriangleUnitNormal(m: Libm, v1: Vec3, v2: Vec3, v3: Vec3, mat: MaterialRef, g: Rng, bvh: BvhResult, r: Ray)
    requires ValidLibm(m) && Cross(Sub(v2, v1), Sub(v3, v1)) != Zero
    requires bvh.HitAt? && MakeTriangle(m, v1, v2, v3, mat).Det(r) != 0.0
    ensures Norm2(MakeTriangle(m, v1, v2, v3, mat).Hit(g, bvh, r).normal) == 1.0
    ensures Dot(r.direction, MakeTriangle(m, v1, v2, v3, mat).Hit(g, bvh, r).normal) <= 0.0
    ensures Cross(MakeTriangle(m, v1, v2, v3, mat).Hit(g, bvh, r).normal, Cross(Sub(v2, v1), Sub(v3, v1))) == Zero
  {
    var n := MakeTriangle(m, v1, v2, v3, mat).normal;
    assert Norm2(Neg(n)) == Norm2(n);
    ParallelNeg(n, Cross(Sub(v2, v1), Sub(v3, v1)));
  }

  /** Multiplying inv x by det, where inv is the inverse of det, gives x back. */
  lemma CancelInverse(inv: real, det: real, x: real)
    requires inv * det == 1.0
    ensures (inv * x) * det == x
  {
    assert (inv * x) * det == x * (inv * det);
  }

  /**
   * A hemisphere sampler that returns its argument, except that for the zero
   * vector (about which ValidRng constrains nothing) it returns `down`.
   */
  function ZeroTo(down: Vec3): Rng {
    Rng((n: Vec3) => if n == Zero then down else n)
  }

  lemma ZeroToIsValid(down: Vec3)
    ensures ValidRng(ZeroTo(down))
  {
    forall n: Vec3 ensures Dot(ZeroTo(down).hemisphere(n), n) >= 0.0 {
      if n != Zero {
        SquareNonNeg(n.x);
        SquareNonNeg(n.y);
        SquareNonNeg(n.z);
      }
    }
  }

  /**
   * Triangle::hit as written can scatter into the surface. On any hit of a
   * triangle with a unit normal, when the fresh record's normal starts out as
   * the zero vector, the sampler ZeroTo(-n), which meets ValidRng, makes the
   * as-written record's direction point straight into the surface (its dot
   * product with the oriented normal n is -1), while the corrected Hit with
   * the same sampler stays in the hemisphere.
   */
  lemma HitAsWrittenScattersIntoSurface(tri: Triangle, bvh: BvhResult, r: Ray)
    requires bvh.HitAt? && tri.Det(r) != 0.0 && Norm2(tri.normal) == 1.0
    ensures ValidRng(ZeroTo(Neg(tri.Oriented(r))))
    ensures var rec := tri.HitAsWritten(ZeroTo(Neg(tri.Oriented(r))), bvh, r, Zero);
      Dot(rec.direction, rec.normal) == -1.0
    ensures var rec := tri.Hit(ZeroTo(Neg(tri.Oriented(r))), bvh, r);
      Dot(rec.direction, rec.normal) >= 0.0
  {
    var n := tri.Oriented(r);
    ZeroToIsValid(Neg(n));
    assert Norm2(Neg(tri.normal)) == Norm2(tri.normal);
    assert Dot(Neg(n), n) == -Norm2(n);
  }

  /**
   * Cramer's rule before the division: (s . (d x e2)) e1 + (d . (s x e1)) e2
   * - (e2 . (s x e1)) d equals det s, component by component.
   */
  lemma CramerIdentity(d: Vec3, e1: Vec3, e2: Vec3, s: Vec3)
    ensures Dot(s, Cross(d, e2)) * e1.x + Dot(d, Cross(s, e1)) * e2.x - Dot(e2, Cross(s, e1)) * d.x
      == Dot(e1, Cross(d, e2)) * s.x
    ensures Dot(s, Cross(d, e2)) * e1.y + Dot(d, Cross(s, e1)) * e2.y - Dot(e2, Cross(s, e1)) * d.y
      == Dot(e1, Cross(d, e2)) * s.y
    ensures Dot(s, Cross(d, e2)) * e1.z + Dot(d, Cross(s, e1)) * e2.z - Dot(e2, Cross(s, e1)) * d.z
      == Dot(e1, Cross(d, e2)) * s.z
  {
    CramerX(d, e1, e2, s);
    CramerY(d, e1, e2, s);
    CramerZ(d, e1, e2, s);
  }

  lemma CramerX(d: Vec3, e1: Vec3, e2: Vec3, s: Vec3)
    ensures Dot(s, Cross(d, e2)) * e1.x + Dot(d, Cross(s, e1)) * e2.x - Dot(e2, Cross(s, e1)) * d.x
      == Dot(e1, Cross(d, e2)) * s.x
  {
  }

  lemma CramerY(d: Vec3, e1: Vec3, e2: Vec3, s: Vec3)
    ensures Dot(s, Cross(d, e2)) * e1.y + Dot(d, Cross(s, e1)) * e2.y - Dot(e2, Cross(s, e1)) * d.y
      == Dot(e1, Cross(d, e2)) * s.y
  {
  }

  lemma CramerZ(d: Vec3, e1: Vec3, e2: Vec3, s: Vec3)
    ensures Dot(s, Cross(d, e2)) * e1.z + Dot(d, Cross(s, e1)) * e2.z - Dot(e2, Cross(s, e1)) * d.z
      == Dot(e1, Cross(d, e2)) * s.z
  {
  }

  /** Dividing a weighted sum a x + b y - c z == det w through by det. */
  lemma DivideThrough(a: real, b: real, c: real, x: real, y: real, z: real, det: real, w: real, inv: real)
    requires a * x + b * y - c * z == det * w
    requires inv * det == 1.0
    ensures (inv * a) * x + (inv * b) * y - (inv * c) * z == w
  {
    assert (inv * a) * x + (inv * b) * y - (inv * c) * z == inv * (a * x + b * y - c * z);
    assert inv * (det * w) == (inv * det) * w;
  }

  /** The scalar triple products that Cramer's rule reduces to. */
  lemma TripleProducts(d: Vec3, e1: Vec3, e2: Vec3, u: real, v: real, t: real)
    ensures var s := Sub(Add(Scale(u, e1), Scale(v, e2)), Scale(t, d));
      && Dot(s, Cross(d, e2)) == u * Dot(e1, Cross(d, e2))
      && Dot(d, Cross(s, e1)) == v * Dot(e1, Cross(d, e2))
      && Dot(e2, Cross(s, e1)) == t * Dot(e1, Cross(d, e2))
  {
    var s := Sub(Add(Scale(u, e1), Scale(v, e2)), Scale(t, d));
    // s . (d x e2): only the e1 term survives
    DotCombination(e1, e2, d, u, v, t, Cross(d, e2));
    TripleRepeat(d, e2);
    // d . (s x e1) = s . (e1 x d): only the e2 term survives
    TripleCyclic(d, s, e1);
    DotCombination(e1, e2, d, u, v, t, Cross(e1, d));
    TripleRepeat(e1, d);
    TripleCyclic(e2, e1, d);
    // e2 . (s x e1) = s . (e1 x e2): only the d term survives
    TripleCyclic(e2, s, e1);
    DotCombination(e1, e2, d, u, v, t, Cross(e1, e2));
    TripleRepeat(e1, e2);
    TripleCyclic(d, e1, e2);
    TripleSwap(e1, e2, d);
  }

  /** The three component identities divided through by det, that is, multiplied by its inverse inv. */
  lemma Solve(uu: real, vv: real, tt: real, det: real, inv: real, d: Vec3, e1: Vec3, e2: Vec3, s: Vec3)
    requires inv * det == 1.0
    requires uu * e1.x + vv * e2.x - tt * d.x == det * s.x
    requires uu * e1.y + vv * e2.y - tt * d.y == det * s.y
    requires uu * e1.z + vv * e2.z - tt * d.z == det * s.z
    ensures Sub(Add(Scale(inv * uu, e1), Scale(inv * vv, e2)), Scale(inv * tt, d)) == s
  {
    DivideThrough(uu, vv, tt, e1.x, e2.x, d.x, det, s.x, inv);
    DivideThrough(uu, vv, tt, e1.y, e2.y, d.y, det, s.y, inv);
    DivideThrough(uu, vv, tt, e1.z, e2.z, d.z, det, s.z, inv);
  }

  /**
   * Cramer's rule for u e1 + v e2 - t d == s: with inv the inverse of the
   * determinant e1 . (d x e2), the three determinant ratios solve it.
   */
  lemma Cramer(d: Vec3, e1: Vec3, e2: Vec3, s: Vec3, inv: real, u: real, v: real, t: real)
    requires inv * Dot(e1, Cross(d, e2)) == 1.0
    requires u == inv * Dot(s, Cross(d, e2))
    requires v == inv * Dot(d, Cross(s, e1))
    requires t == inv * Dot(e2, Cross(s, e1))
    ensures Sub(Add(Scale(u, e1), Scale(v, e2)), Scale(t, d)) == s
  {
    CramerIdentity(d, e1, e2, s);
    Solve(Dot(s, Cross(d, e2)), Dot(d, Cross(s, e1)), Dot(e2, Cross(s, e1)), Dot(e1, Cross(d, e2)), inv, d, e1, e2, s);
  }

  /**
   * Cramer's rule applied to p + u e1 + v e2 == o + t d: with s = o - p and
   * inv the inverse of e1 . (d x e2), the determinant ratios name the same
   * point from both sides.
   */
  lemma CramerPoint(p: Vec3, o: Vec3, d: Vec3, e1: Vec3, e2: Vec3, inv: real, u: real, v: real, t: real)
    requires inv * Dot(e1, Cross(d, e2)) == 1.0
    requires u == inv * Dot(Sub(o, p), Cross(d, e2))
    requires v == inv * Dot(d, Cross(Sub(o, p), e1))
    requires t == inv * Dot(e2, Cross(Sub(o, p), e1))
    ensures Add(p, Add(Scale(u, e1), Scale(v, e2))) == Add(o, Scale(t, d))
  {
    Cramer(d, e1, e2, Sub(o, p), inv, u, v, t);
    Rearrange(p, o, Scale(u, e1), Scale(v, e2), Scale(t, d));
  }

  /** a + b - c == o - p rearranged: p + (a + b) == o + c. */
  lemma Rearrange(p: Vec3, o: Vec3, a: Vec3, b: Vec3, c: Vec3)
    requires Sub(Add(a, b), c) == Sub(o, p)
    ensures Add(p, Add(a, b)) == Add(o, c)
  {
  }

  /** A convex combination of a, b and c lies between their minimum and maximum. */
  lemma ConvexBetween(a: real, b: real, c: real, u: real, v: real, p: real)
    requires 0.0 <= u && 0.0 <= v && u + v <= 1.0
    requires p == a + (u * (b - a) + v * (c - a))
    ensures Min3(a, b, c) <= p <= Max3(a, b, c)
  {
    ConvexUpper(a, b, c, u, v);
    ConvexLower(a, b, c, u, v);
  }

  /** A convex combination of a, b and c is at most their maximum. */
  lemma ConvexUpper(a: real, b: real, c: real, u: real, v: real)
    requires 0.0 <= u && 0.0 <= v && u + v <= 1.0
    ensures a + u * (b - a) + v * (c - a) <= Max3(a, b, c)
  {
    WeightedUpper(1.0 - u - v, u, v, a, b, c, Max3(a, b, c));
  }

  /** A convex combination of a, b and c is at least their minimum. */
  lemma ConvexLower(a: real, b: real, c: real, u: real, v: real)
    requires 0.0 <= u && 0.0 <= v && u + v <= 1.0
    ensures Min3(a, b, c) <= a + u * (b - a) + v * (c - a)
  {
    WeightedLower(1.0 - u - v, u, v, a, b, c, Min3(a, b, c));
  }
}
