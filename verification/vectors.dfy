/** Facts about real multiplication that the solver does not find on its own. */
module RealArith {

  lemma MulMono(w: real, a: real, b: real)
    requires w >= 0.0 && a >= b
    ensures w * a >= w * b
  {
  }

  lemma MulPos(a: real, b: real)
    requires a > 0.0 && b > 0.0
    ensures a * b > 0.0
  {
  }

  lemma SquareNonNeg(c: real)
    ensures c * c >= 0.0
  {
    if c < 0.0 {
      MulMono(-c, -c, 0.0);
      assert (-c) * (-c) == c * c;
    } else {
      MulMono(c, c, 0.0);
    }
  }

  /** Three reals whose squares sum to a non-zero square are not all zero. */
  lemma SumOfSquaresNonZero(ax: real, ay: real, az: real, r: real)
    requires ax * ax + ay * ay + az * az == r * r && r != 0.0
    ensures ax != 0.0 || ay != 0.0 || az != 0.0
  {
    var q := 1.0 / r;
    assert r * q == 1.0;
    assert r == (r * r) * q by { assert (r * r) * q == r * (r * q); }
  }

  /** Two reals with equal squares are equal up to sign. */
  lemma EqualSquares(a: real, s: real)
    requires a * a == s * s
    ensures a == s || a == -s
  {
    assert (a - s) * (a + s) == 0.0;
  }

  /** With s * s == c, the reals whose square is c are exactly s and -s. */
  lemma SquareRoots(x: real, s: real, c: real)
    requires s * s == c
    ensures x * x == c <==> x == s || x == -s
  {
    assert (-s) * (-s) == s * s;
    if x * x == c {
      EqualSquares(x, s);
    }
  }

  lemma ProductNonNeg(a: real, b: real)
    requires 0.0 <= a && 0.0 <= b
    ensures 0.0 <= a * b
  {
    MulMono(a, b, 0.0);
  }

  lemma ProductAtMostOne(a: real, b: real)
    requires 0.0 <= a <= 1.0 && b <= 1.0
    ensures a * b <= 1.0
  {
    MulMono(a, 1.0, b);
  }

  /** With weights summing to 1, the distance of k from a weighted sum is the weighted sum of distances. */
  lemma WeightedGap(w: real, u: real, v: real, a: real, b: real, c: real, k: real)
    requires w + u + v == 1.0
    ensures k - (w * a + u * b + v * c) == w * (k - a) + u * (k - b) + v * (k - c)
  {
    assert w * k + u * k + v * k == (w + u + v) * k;
  }

  /** A weighted average of three values at most hi is at most hi. */
  lemma WeightedUpper(w: real, u: real, v: real, a: real, b: real, c: real, hi: real)
    requires 0.0 <= u && 0.0 <= v && 0.0 <= w && w + u + v == 1.0
    requires a <= hi && b <= hi && c <= hi
    ensures w * a + u * b + v * c <= hi
  {
    ProductNonNeg(w, hi - a);
    ProductNonNeg(u, hi - b);
    ProductNonNeg(v, hi - c);
    WeightedGap(w, u, v, a, b, c, hi);
  }

  /** A weighted average of three values at least lo is at least lo. */
  lemma WeightedLower(w: real, u: real, v: real, a: real, b: real, c: real, lo: real)
    requires 0.0 <= u && 0.0 <= v && 0.0 <= w && w + u + v == 1.0
    requires lo <= a && lo <= b && lo <= c
    ensures lo <= w * a + u * b + v * c
  {
    ProductNonNeg(w, a - lo);
    ProductNonNeg(u, b - lo);
    ProductNonNeg(v, c - lo);
    WeightedGap(w, u, v, a, b, c, lo);
  }

  /** A component of a vector whose squared length is at most r * r lies in [-r, r]. */
  lemma ComponentBound(dx: real, dy: real, dz: real, r: real)
    requires dx * dx + dy * dy + dz * dz <= r * r
    requires r >= 0.0
    ensures -r <= dx <= r
  {
    SquareNonNeg(dy);
    SquareNonNeg(dz);
    assert (dx - r) * (dx + r) == dx * dx - r * r;
    assert (-dx - r) * (-dx + r) == dx * dx - r * r;
    if dx > r {
      MulPos(dx - r, dx + r);
    } else if dx < -r {
      MulPos(-dx - r, -dx + r);
    }
  }
}

/** The glm::vec3 arithmetic the renderer uses, over the reals, and the ray of ray.h. */
module Vectors {
  import opened RealArith

  datatype Vec3 = Vec3(x: real, y: real, z: real)

  const Zero: Vec3 := Vec3(0.0, 0.0, 0.0)

  /** glm::vec3(k, k, k) */
  function Splat(k: real): Vec3 { Vec3(k, k, k) }

  function Add(a: Vec3, b: Vec3): Vec3 { Vec3(a.x + b.x, a.y + b.y, a.z + b.z) }

  function Sub(a: Vec3, b: Vec3): Vec3 { Vec3(a.x - b.x, a.y - b.y, a.z - b.z) }

  function Neg(a: Vec3): Vec3 { Vec3(-a.x, -a.y, -a.z) }

  /** scalar * vector */
  function Scale(k: real, a: Vec3): Vec3 { Vec3(k * a.x, k * a.y, k * a.z) }

  /** vector / scalar */
  function Div(a: Vec3, k: real): Vec3
    requires k != 0.0
  {
    Vec3(a.x / k, a.y / k, a.z / k)
  }

  /** glm's component-wise vector * vector */
  function Mul(a: Vec3, b: Vec3): Vec3 { Vec3(a.x * b.x, a.y * b.y, a.z * b.z) }

  function Dot(a: Vec3, b: Vec3): real { a.x * b.x + a.y * b.y + a.z * b.z }

  function Cross(a: Vec3, b: Vec3): Vec3 {
    Vec3(a.y * b.z - a.z * b.y, a.z * b.x - a.x * b.z, a.x * b.y - a.y * b.x)
  }

  /** Squared length. */
  function Norm2(a: Vec3): real { Dot(a, a) }

  /** Every component lies in [lo, hi]. */
  predicate Within(a: Vec3, lo: real, hi: real) {
    lo <= a.x <= hi && lo <= a.y <= hi && lo <= a.z <= hi
  }

  /** Ray of ray.h: immutable origin and direction; the type does not normalise the direction. */
  datatype Ray = Ray(origin: Vec3, direction: Vec3) {
    /** Ray::at */
    function At(t: real): Vec3 { Add(origin, Scale(t, direction)) }
  }

  /** Each component of a unit vector lies in [-1, 1]. */
  lemma UnitComponents(a: Vec3)
    requires Norm2(a) == 1.0
    ensures Within(a, -1.0, 1.0)
  {
    ComponentBound(a.x, a.y, a.z, 1.0);
    ComponentBound(a.y, a.x, a.z, 1.0);
    ComponentBound(a.z, a.x, a.y, 1.0);
  }

  /** Dividing a non-zero vector by a non-zero scalar keeps it non-zero. */
  lemma DivNonZero(a: Vec3, k: real)
    requires k != 0.0 && a != Zero
    ensures Div(a, k) != Zero
  {
    if a.x != 0.0 {
      assert (a.x / k) * k == a.x;
    } else if a.y != 0.0 {
      assert (a.y / k) * k == a.y;
    } else {
      assert (a.z / k) * k == a.z;
    }
  }

  /** Parallel to a / k (for a non-zero k) means parallel to a. */
  lemma ParallelToDiv(n: Vec3, a: Vec3, k: real)
    requires k != 0.0 && Cross(n, Div(a, k)) == Zero
    ensures Cross(n, a) == Zero
  {
    CrossComponentDiv(n.y, a.z, n.z, a.y, k);
    CrossComponentDiv(n.z, a.x, n.x, a.z, k);
    CrossComponentDiv(n.x, a.y, n.y, a.x, k);
  }

  /** Flipping a vector keeps it parallel to whatever it was parallel to. */
  lemma ParallelNeg(n: Vec3, a: Vec3)
    ensures Cross(n, a) == Zero ==> Cross(Neg(n), a) == Zero
  {
    assert Cross(Neg(n), a) == Neg(Cross(n, a));
  }

  /** The dot product with a / k is the dot product with a, over k. */
  lemma DotDiv(n: Vec3, a: Vec3, k: real)
    requires k != 0.0
    ensures Dot(n, a) == Dot(n, Div(a, k)) * k
  {
    assert Dot(n, Div(a, k)) * k == (n.x * (a.x / k)) * k + (n.y * (a.y / k)) * k + (n.z * (a.z / k)) * k;
  }

  /** One component of a cross product with a / k is the same component with a, over k. */
  lemma CrossComponentDiv(p: real, q: real, r: real, s: real, k: real)
    requires k != 0.0 && p * (q / k) - r * (s / k) == 0.0
    ensures p * q - r * s == 0.0
  {
    assert p * q - r * s == (p * (q / k) - r * (s / k)) * k;
  }

  /** A vector whose squared length is the square of a non-zero real is not zero. */
  lemma NonZeroLength(a: Vec3, r: real)
    requires Norm2(a) == r * r && r != 0.0
    ensures a != Zero
  {
    SumOfSquaresNonZero(a.x, a.y, a.z, r);
  }

  /** Negating one factor negates the dot product. */
  lemma DotNeg(a: Vec3, b: Vec3)
    ensures Dot(a, Neg(b)) == -Dot(a, b)
  {
  }

  /** The scalar triple product is invariant under cyclic rotation. */
  lemma TripleCyclic(a: Vec3, b: Vec3, c: Vec3)
    ensures Dot(a, Cross(b, c)) == Dot(b, Cross(c, a))
  {
  }

  /** Swapping the two factors of the cross product negates the triple product. */
  lemma TripleSwap(a: Vec3, b: Vec3, c: Vec3)
    ensures Dot(a, Cross(b, c)) == -Dot(a, Cross(c, b))
  {
  }

  /** A cross product is orthogonal to both of its factors. */
  lemma TripleRepeat(a: Vec3, b: Vec3)
    ensures Dot(a, Cross(a, b)) == 0.0 && Dot(b, Cross(a, b)) == 0.0
  {
  }

  /** The dot product is linear in its first argument. */
  lemma DotCombination(a: Vec3, b: Vec3, c: Vec3, u: real, v: real, t: real, x: Vec3)
    ensures Dot(Sub(Add(Scale(u, a), Scale(v, b)), Scale(t, c)), x)
      == u * Dot(a, x) + v * Dot(b, x) - t * Dot(c, x)
  {
  }
}
