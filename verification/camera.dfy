/** Integer facts behind the row-major indexing of the image buffer. */
module IntArith {

  lemma MulMonoInt(a: int, b: int, c: int)
    requires a >= 0 && b <= c
    ensures a * b <= a * c
  {
  }

  /** Euclidean division is determined by a quotient and an in-range remainder. */
  lemma DivModUnique(n: int, d: int, q: int, r: int)
    requires d > 0 && 0 <= r < d && n == q * d + r
    ensures n / d == q && n % d == r
  {
    if n / d < q {
      MulMonoInt(d, n / d + 1, q);
    } else if n / d > q {
      MulMonoInt(d, q + 1, n / d);
    }
  }

  /**
   * Byte k of pixel (h, w) of a row-major RGBA buffer of the given width sits
   * at h * width * 4 + w * 4 + k, and that index decodes back to (h, w, k).
   */
  lemma DecodeIndex(h: int, w: int, width: int, k: int)
    requires 0 <= h && 0 <= w < width && 0 <= k < 4
    ensures (h * width * 4 + w * 4 + k) / 4 == h * width + w
    ensures (h * width * 4 + w * 4 + k) % 4 == k
    ensures (h * width + w) / width == h
    ensures (h * width + w) % width == w
  {
    assert h * width * 4 + w * 4 + k == (h * width + w) * 4 + k;
    DivModUnique(h * width * 4 + w * 4 + k, 4, h * width + w, k);
    DivModUnique(h * width + w, width, h, w);
  }

  /** The byte index of a pixel inside the image lies inside the buffer. */
  lemma IndexInBounds(h: int, w: int, height: int, width: int, k: int)
    requires 0 <= h < height && 0 <= w < width && 0 <= k < 4
    ensures 0 <= h * width * 4 + w * 4 + k < height * width * 4
  {
    MulMonoInt(width * 4, h + 1, height);
    assert h * width * 4 + w * 4 + k < (h + 1) * (width * 4);
  }

  /** A non-empty buffer of height * width * 4 bytes, height >= 0, has a positive width. */
  lemma PositiveWidth(height: int, width: int, j: int)
    requires 0 <= height && 0 <= j < height * width * 4
    ensures width > 0
  {
    if width <= 0 {
      MulMonoInt(height, width, 0);
    }
  }
}

/**
 * camera.h: PerspectiveCamera's path-tracing integrator (get_color), its
 * primary-ray generator (get_ray) and the render loop that fills the RGBA
 * image buffer.
 */
module Cameras {
  import opened RealArith
  import opened IntArith
  import opened Vectors
  import opened MathLib
  import opened Random
  import opened Objects

  /**
   * The camera's fields. They are set by the constructor (whose viewport
   * geometry is not part of this model) and only read afterwards.
   */
  datatype Camera = Camera(
    height: int,
    width: int,
    samples: int,
    maxDepth: int,
    focalDistance: real,
    defocusAngle: real,
    center: Vec3,
    pixel00: Vec3,
    du: Vec3,
    dv: Vec3,
    diskU: Vec3,
    diskV: Vec3)

  /** The Hit returned by ObjectList::hit. */
  datatype SceneHit = NoSceneHit | SceneHitAt(rec: ColorHit)

  /** The (is_scatter, attenuation, scattered) triple returned by Material::scatter. */
  datatype Scatter = Scatter(isScatter: bool, attenuation: Vec3, scattered: Ray)

  /**
   * The scene as get_color sees it: ObjectList::hit and the hit material's
   * scatter, whose definitions are not part of this model.
   */
  datatype World = World(hit: (Ray, real, real) -> SceneHit, scatter: (Ray, ColorHit) -> Scatter)

  /** The ray-parameter interval get_color asks the scene for: the float values of 0.001f and 1000.0f. */
  const HitMin: real := 0.001000000047497451305389404296875
  const HitMax: real := 1000.0

  /** The depth render passes to get_color for every sample. */
  const RenderDepth: int := 50

  const White: Vec3 := Vec3(1.0, 1.0, 1.0)
  const Sky: Vec3 := Vec3(0.5, 0.7, 1.0)

  /** The sky gradient: white at the bottom (y = -1) blending into light blue at the top (y = 1). */
  function Background(dir: Vec3): (c: Vec3)
    ensures c.z == 1.0
    ensures -1.0 <= dir.y <= 1.0 ==> Within(c, 0.5, 1.0)
  {
    var alpha := 0.5 * (dir.y + 1.0);
    Add(Scale(1.0 - alpha, White), Scale(alpha, Sky))
  }

  /**
   * For a direction with y in [-1, 1] the blend weight lies in [0, 1], so each
   * channel lies between the white and the sky endpoint; the two extreme
   * directions give the endpoints themselves.
   */
  lemma BackgroundBetweenEndpoints(dir: Vec3)
    requires -1.0 <= dir.y <= 1.0
    ensures 0.0 <= 0.5 * (dir.y + 1.0) <= 1.0
    ensures Sky.x <= Background(dir).x <= White.x
    ensures Sky.y <= Background(dir).y <= White.y
    ensures Background(dir).z == White.z == Sky.z
    ensures dir.y == -1.0 ==> Background(dir) == White
    ensures dir.y == 1.0 ==> Background(dir) == Sky
  {
    var alpha := 0.5 * (dir.y + 1.0);
    assert Background(dir) == Vec3(1.0 - 0.5 * alpha, 1.0 - 0.3 * alpha, 1.0);
  }

  /**
   * PerspectiveCamera::get_color: the radiance carried back along r. At depth
   * zero or below the path is cut off and contributes black; otherwise a miss
   * shows the background, a hit whose material absorbs is black, and a hit that
   * scatters is the attenuation times the radiance of the scattered ray, one
   * level deeper.
   */
  function GetColor(world: World, r: Ray, depth: int): (c: Vec3)
    ensures depth <= 0 ==> c == Zero
    decreases depth
  {
    if depth <= 0 then Zero
    else
      match world.hit(r, HitMin, HitMax)
      case NoSceneHit => Background(r.direction)
      case SceneHitAt(rec) =>
        var sc := world.scatter(r, rec);
        if sc.isScatter then Mul(sc.attenuation, GetColor(world, sc.scattered, depth - 1))
        else Zero
  }

  /**
   * The number of ObjectList::hit queries one get_color call makes: one per
   * level until the path misses, is absorbed or runs out of depth, so never
   * more than the initial depth.
   */
  function HitQueries(world: World, r: Ray, depth: int): (n: nat)
    ensures n <= (if depth > 0 then depth else 0)
    decreases depth
  {
    if depth <= 0 then 0
    else
      match world.hit(r, HitMin, HitMax)
      case NoSceneHit => 1
      case SceneHitAt(rec) =>
        var sc := world.scatter(r, rec);
        if sc.isScatter then 1 + HitQueries(world, sc.scattered, depth - 1) else 1
  }

  /**
   * A path that ends (misses or is absorbed) before its depth runs out is not
   * changed by a larger depth: get_color then returns the same colour after
   * the same number of scene queries.
   */
  lemma {:induction false} EndedPathIgnoresDepth(world: World, r: Ray, depth: int, extra: nat)
    requires HitQueries(world, r, depth) < depth
    ensures GetColor(world, r, depth + extra) == GetColor(world, r, depth)
    ensures HitQueries(world, r, depth + extra) == HitQueries(world, r, depth)
    decreases depth
  {
    match world.hit(r, HitMin, HitMax)
    case NoSceneHit =>
    case SceneHitAt(rec) =>
      var sc := world.scatter(r, rec);
      if sc.isScatter {
        EndedPathIgnoresDepth(world, sc.scattered, depth - 1, extra);
      }
  }

  /**
   * The same path, integrated front to back: the throughput is multiplied by
   * each attenuation on the way out, and the background seen at the end is
   * weighted by it.
   */
  function Accumulate(world: World, r: Ray, depth: int, throughput: Vec3): Vec3
    decreases depth
  {
    if depth <= 0 then Zero
    else
      match world.hit(r, HitMin, HitMax)
      case NoSceneHit => Mul(throughput, Background(r.direction))
      case SceneHitAt(rec) =>
        var sc := world.scatter(r, rec);
        if sc.isScatter then Accumulate(world, sc.scattered, depth - 1, Mul(throughput, sc.attenuation))
        else Zero
  }

  lemma MulAssoc(a: Vec3, b: Vec3, c: Vec3)
    ensures Mul(Mul(a, b), c) == Mul(a, Mul(b, c))
  {
  }

  /**
   * The recursive get_color equals the front-to-back integration: the
   * radiance times any throughput is the throughput-weighted accumulation.
   */
  lemma {:induction false} AccumulateIsGetColor(world: World, r: Ray, depth: int, throughput: Vec3)
    ensures Accumulate(world, r, depth, throughput) == Mul(throughput, GetColor(world, r, depth))
    decreases depth
  {
    if depth > 0 {
      match world.hit(r, HitMin, HitMax)
      case NoSceneHit =>
      case SceneHitAt(rec) =>
        var sc := world.scatter(r, rec);
        if sc.isScatter {
          AccumulateIsGetColor(world, sc.scattered, depth - 1, Mul(throughput, sc.attenuation));
          MulAssoc(throughput, sc.attenuation, GetColor(world, sc.scattered, depth - 1));
        }
    }
  }

  /**
   * A scene whose materials never amplify light (every attenuation channel in
   * [0, 1]) and whose scattered rays have a y component in [-1, 1], as unit
   * directions do.
   */
  ghost predicate Passive(world: World) {
    forall r, rec :: Within(world.scatter(r, rec).attenuation, 0.0, 1.0)
      && -1.0 <= world.scatter(r, rec).scattered.direction.y <= 1.0
  }

  /** In a passive scene no path carries more than white light, nor less than black. */
  lemma {:induction false} GetColorInUnitCube(world: World, r: Ray, depth: int)
    requires Passive(world)
    requires -1.0 <= r.direction.y <= 1.0
    ensures Within(GetColor(world, r, depth), 0.0, 1.0)
    decreases depth
  {
    if depth > 0 {
      match world.hit(r, HitMin, HitMax)
      case NoSceneHit =>
        BackgroundBetweenEndpoints(r.direction);
      case SceneHitAt(rec) =>
        var sc := world.scatter(r, rec);
        if sc.isScatter {
          GetColorInUnitCube(world, sc.scattered, depth - 1);
          var a, c := sc.attenuation, GetColor(world, sc.scattered, depth - 1);
          ProductNonNeg(a.x, c.x);
          ProductNonNeg(a.y, c.y);
          ProductNonNeg(a.z, c.z);
          ProductAtMostOne(a.x, c.x);
          ProductAtMostOne(a.y, c.y);
          ProductAtMostOne(a.z, c.z);
        }
    }
  }

  /** A pixel coordinate jittered by a random_float() draw. */
  function Jitter(i: int, j: real): (c: real)
    ensures 0.0 <= j < 1.0 ==> i as real <= c < i as real + 1.0
  {
    i as real + j
  }

  /**
   * The ray origin: the camera center for a pinhole camera (defocus angle at
   * most 0), otherwise a point of the lens disk spanned by disk_u and disk_v.
   */
  function RayOrigin(cam: Camera, d: Draw): Vec3 {
    if cam.defocusAngle <= 0.0 then cam.center else LensPoint(cam, d.diskX, d.diskY)
  }

  /** With a random_disk() draw in the unit disk, the ray origin is a point of the lens. */
  lemma OriginOnLens(cam: Camera, d: Draw)
    ensures ValidDraw(d) ==> OnLens(cam, RayOrigin(cam, d))
  {
    if !ValidDraw(d) {
    } else if cam.defocusAngle <= 0.0 {
      assert RayOrigin(cam, d) == cam.center;
      LensPointOnLens(cam, 0.0, 0.0);
    } else {
      assert RayOrigin(cam, d) == LensPoint(cam, d.diskX, d.diskY);
      LensPointOnLens(cam, d.diskX, d.diskY);
    }
  }

  /** The image of a point of the unit disk is on the lens; the disk's center maps to the camera center. */
  lemma LensPointOnLens(cam: Camera, x: real, y: real)
    ensures InUnitDisk(x, y) ==> OnLens(cam, LensPoint(cam, x, y))
    ensures LensPoint(cam, 0.0, 0.0) == cam.center && InUnitDisk(0.0, 0.0)
  {
    assert LensPoint(cam, 0.0, 0.0) == Add(cam.center, Add(Scale(0.0, cam.diskU), Scale(0.0, cam.diskV)));
  }

  /** The point (x, y) of the lens disk: center + x disk_u + y disk_v. */
  function LensPoint(cam: Camera, x: real, y: real): Vec3 {
    Add(cam.center, Add(Scale(x, cam.diskU), Scale(y, cam.diskV)))
  }

  /** p is a point of the lens: the image of a point of the unit disk. */
  ghost predicate OnLens(cam: Camera, p: Vec3) {
    exists x, y :: InUnitDisk(x, y) && p == LensPoint(cam, x, y)
  }

  /** The point of the focal plane at fractional pixel coordinates (a, b). */
  function PlanePoint(cam: Camera, a: real, b: real): Vec3 {
    Add(Add(cam.pixel00, Scale(a, cam.dv)), Scale(b, cam.du))
  }

  /** p is a point of the focal plane inside the footprint of pixel (h, w). */
  ghost predicate InPixel(cam: Camera, h: int, w: int, p: Vec3) {
    exists a, b {:trigger PlanePoint(cam, a, b)} ::
      h as real <= a < h as real + 1.0 && w as real <= b < w as real + 1.0 && p == PlanePoint(cam, a, b)
  }

  /** The jittered point of pixel (h, w) on the focal plane that the ray aims at. */
  function RayTarget(cam: Camera, h: int, w: int, d: Draw): (p: Vec3)
    ensures ValidDraw(d) ==> InPixel(cam, h, w, p)
  {
    PlanePoint(cam, Jitter(h, d.jitterH), Jitter(w, d.jitterW))
  }

  /**
   * PerspectiveCamera::get_ray for pixel (h, w) with the draws d: the ray
   * leaves the origin (the center, or a point of the lens disk when the lens
   * is defocused) towards the jittered target in the footprint of the pixel,
   * and its direction is the normalised difference: a unit vector parallel
   * to target - origin and pointing at the target, whenever the two differ.
   */
  function GetRay(m: Libm, cam: Camera, h: int, w: int, d: Draw): (r: Ray)
    ensures cam.defocusAngle <= 0.0 ==> r.origin == cam.center
    ensures ValidDraw(d) ==> OnLens(cam, r.origin) && InPixel(cam, h, w, RayTarget(cam, h, w, d))
    ensures ValidLibm(m) && RayTarget(cam, h, w, d) != r.origin ==>
      && Norm2(r.direction) == 1.0
      && Dot(r.direction, Sub(RayTarget(cam, h, w, d), r.origin)) > 0.0
      && Cross(r.direction, Sub(RayTarget(cam, h, w, d), r.origin)) == Zero
      && -1.0 <= r.direction.y <= 1.0
  {
    var origin := RayOrigin(cam, d);
    var offset := Sub(RayTarget(cam, h, w, d), origin);
    UnitDirection(m, offset);
    OriginOnLens(cam, d);
    Ray(origin, m.normalize(offset))
  }

  /**
   * A valid normalize maps a non-zero vector to a unit vector parallel to it
   * and pointing the same way, so each component lies in [-1, 1].
   */
  lemma UnitDirection(m: Libm, a: Vec3)
    ensures ValidLibm(m) && a != Zero ==>
      && Norm2(m.normalize(a)) == 1.0 && Dot(m.normalize(a), a) > 0.0
      && Cross(m.normalize(a), a) == Zero && Within(m.normalize(a), -1.0, 1.0)
  {
    if ValidLibm(m) && a != Zero {
      UnitComponents(m.normalize(a));
    }
  }

  /**
   * In a passive scene, a camera ray that aims away from its own origin
   * brings back a colour in the unit cube.
   */
  lemma CameraSampleInUnitCube(m: Libm, cam: Camera, world: World, h: int, w: int, d: Draw)
    requires ValidLibm(m) && Passive(world)
    requires RayTarget(cam, h, w, d) != RayOrigin(cam, d)
    ensures Within(GetColor(world, GetRay(m, cam, h, w, d), RenderDepth), 0.0, 1.0)
  {
    GetColorInUnitCube(world, GetRay(m, cam, h, w, d), RenderDepth);
  }

  /** The colour of sample s of pixel (h, w). */
  function Sample(m: Libm, cam: Camera, world: World, draws: (int, int, int) -> Draw, h: int, w: int, s: int): Vec3
  {
    GetColor(world, GetRay(m, cam, h, w, draws(h, w, s)), RenderDepth)
  }

  /** The samples of pixel (h, w), indexed by sample number. */
  function PixelSamples(m: Libm, cam: Camera, world: World, draws: (int, int, int) -> Draw, h: int, w: int): int -> Vec3 {
    s => Sample(m, cam, world, draws, h, w, s)
  }

  /** The sum of the first n values of f: the running `pixel += ...` of the sample loop. */
  function SumUpTo(f: int -> Vec3, n: int): Vec3
    decreases n
  {
    if n <= 0 then Zero else Add(SumUpTo(f, n - 1), f(n - 1))
  }

  /**
   * `pixel /= samples`. Without samples the floating-point quotient is NaN
   * (or -0), which the gamma step then sends to 0; the model returns black
   * directly, giving the same bytes.
   */
  function Average(sum: Vec3, n: int): (a: Vec3)
    ensures n > 0 ==> Scale(n as real, a) == sum
    ensures n <= 0 ==> a == Zero
  {
    if n > 0 then
      var k := 1.0 / n as real;
      ScaleInverse(n as real, k, sum);
      Scale(k, sum)
    else Zero
  }

  /** Scaling by k and then by its inverse n gives the vector back. */
  lemma ScaleInverse(n: real, k: real, v: Vec3)
    requires n * k == 1.0
    ensures Scale(n, Scale(k, v)) == v
  {
    assert n * (k * v.x) == (n * k) * v.x;
    assert n * (k * v.y) == (n * k) * v.y;
    assert n * (k * v.z) == (n * k) * v.z;
  }

  /** The sum of n values, each within [0, 1] per channel, lies within [0, n]. */
  lemma {:induction false} SumBounds(f: int -> Vec3, n: int)
    requires n >= 0
    requires forall s :: 0 <= s < n ==> Within(f(s), 0.0, 1.0)
    ensures Within(SumUpTo(f, n), 0.0, n as real)
    decreases n
  {
    if n > 0 {
      SumBounds(f, n - 1);
      assert Within(f(n - 1), 0.0, 1.0);
    }
  }

  /** A value in [0, n] divided by n > 0 lies in [0, 1]. */
  lemma MeanBounds(sum: real, n: real)
    requires n > 0.0 && 0.0 <= sum <= n
    ensures 0.0 <= (1.0 / n) * sum <= 1.0
  {
    MulMono(1.0 / n, sum, 0.0);
    MulMono(1.0 / n, n, sum);
    assert (1.0 / n) * n == 1.0;
  }

  /** A vector within [0, n] divided by n > 0 lies within [0, 1]. */
  lemma MeanOfBounded(sum: Vec3, n: int)
    requires n > 0 && Within(sum, 0.0, n as real)
    ensures Within(Average(sum, n), 0.0, 1.0)
  {
    MeanBounds(sum.x, n as real);
    MeanBounds(sum.y, n as real);
    MeanBounds(sum.z, n as real);
  }

  /** The mean of n > 0 values, each within [0, 1] per channel, lies within [0, 1]. */
  lemma AverageBounds(f: int -> Vec3, n: int)
    requires n > 0
    requires forall s :: 0 <= s < n ==> Within(f(s), 0.0, 1.0)
    ensures Within(Average(SumUpTo(f, n), n), 0.0, 1.0)
  {
    var sum := SumUpTo(f, n);
    SumBounds(f, n);
    MeanOfBounded(sum, n);
  }

  /**
   * In a passive scene where every camera ray of pixel (h, w) aims away from
   * its origin, the averaged pixel lies in the unit cube before tone mapping.
   */
  lemma PixelMeanInUnitCube(m: Libm, cam: Camera, world: World, draws: (int, int, int) -> Draw, h: int, w: int)
    requires ValidLibm(m) && Passive(world) && cam.samples > 0
    requires forall s :: 0 <= s < cam.samples ==> RayTarget(cam, h, w, draws(h, w, s)) != RayOrigin(cam, draws(h, w, s))
    ensures Within(Average(SumUpTo(PixelSamples(m, cam, world, draws, h, w), cam.samples), cam.samples), 0.0, 1.0)
  {
    var f := PixelSamples(m, cam, world, draws, h, w);
    forall s | 0 <= s < cam.samples
      ensures Within(f(s), 0.0, 1.0)
    {
      CameraSampleInUnitCube(m, cam, world, h, w, draws(h, w, s));
    }
    AverageBounds(f, cam.samples);
  }

  /** Linear to gamma: the square root of a positive channel, 0 otherwise. */
  function Gamma(m: Libm, c: real): (g: real)
    ensures c <= 0.0 ==> g == 0.0
    ensures ValidLibm(m) && c > 0.0 ==> 0.0 <= g && g * g == c
  {
    if c > 0.0 then m.sqrt(c) else 0.0
  }

  /** The clamp to [0, 1], in the source's two steps. */
  function Clamp(c: real): (r: real)
    ensures 0.0 <= r <= 1.0
    ensures c < 0.0 ==> r == 0.0
    ensures c > 1.0 ==> r == 1.0
    ensures 0.0 <= c <= 1.0 ==> r == c
  {
    var low := if c < 0.0 then 0.0 else c;
    if low > 1.0 then 1.0 else low
  }

  /** A non-negative square root of c is below 1 exactly when c is. */
  lemma SqrtBelowOne(s: real, c: real)
    requires s >= 0.0 && s * s == c
    ensures c < 1.0 <==> s < 1.0
  {
    if s >= 1.0 {
      MulMono(s, s, 1.0);
    } else {
      MulMono(s, 1.0, s);
    }
  }

  /**
   * Gamma followed by clamp: the result lies in [0, 1]; a non-positive channel
   * maps to 0, a channel of at least 1 to 1, and a channel strictly between
   * maps to its square root (r * r == c).
   */
  function ToneChannel(m: Libm, c: real): (r: real)
    requires ValidLibm(m)
    ensures 0.0 <= r <= 1.0
    ensures c <= 0.0 ==> r == 0.0
    ensures c >= 1.0 ==> r == 1.0
    ensures 0.0 < c < 1.0 ==> r * r == c
  {
    if c <= 0.0 then Clamp(Gamma(m, c))
    else
      SqrtBelowOne(m.sqrt(c), c);
      Clamp(Gamma(m, c))
  }

  /** The tone map applied to each channel of a pixel. */
  function ToneMap(m: Libm, p: Vec3): (q: Vec3)
    requires ValidLibm(m)
    ensures Within(q, 0.0, 1.0)
  {
    Vec3(ToneChannel(m, p.x), ToneChannel(m, p.y), ToneChannel(m, p.z))
  }

  /** An element of the std::vector<uint8_t> image. */
  type Byte = b: int | 0 <= b < 256

  /**
   * static_cast<uint8_t>(255.999 * c) for a clamped channel: the largest
   * integer not above 255.999 c.
   */
  function Quantise(c: real): (b: Byte)
    requires 0.0 <= c <= 1.0
    ensures b as real <= 255.999 * c < b as real + 1.0
  {
    (255.999 * c).Floor
  }

  /** Black quantises to 0 and full intensity to 255; quantising is monotone. */
  lemma QuantiseEnds(c: real, c': real)
    requires 0.0 <= c <= c' <= 1.0
    ensures Quantise(0.0) == 0 && Quantise(1.0) == 255
    ensures Quantise(c) <= Quantise(c')
  {
    MulMono(255.999, c', c);
  }

  /** The four bytes of a tone-mapped pixel: red, green, blue, then an opaque alpha. */
  function ChannelByte(p: Vec3, k: int): Byte
    requires Within(p, 0.0, 1.0)
  {
    if k == 0 then Quantise(p.x)
    else if k == 1 then Quantise(p.y)
    else if k == 2 then Quantise(p.z)
    else 255
  }

  /** The final colour of pixel (h, w): the tone-mapped mean of its samples. */
  function PixelColor(m: Libm, cam: Camera, world: World, draws: (int, int, int) -> Draw, h: int, w: int): (p: Vec3)
    requires ValidLibm(m)
    ensures Within(p, 0.0, 1.0)
  {
    ToneMap(m, Average(SumUpTo(PixelSamples(m, cam, world, draws, h, w), cam.samples), cam.samples))
  }

  /** Byte j of the finished image, read back through the row-major RGBA layout. */
  function ImageByte(m: Libm, cam: Camera, world: World, draws: (int, int, int) -> Draw, j: int): Byte
    requires ValidLibm(m)
    requires 0 <= cam.height && 0 <= j < cam.height * cam.width * 4
  {
    PositiveWidth(cam.height, cam.width, j);
    var p := j / 4;
    ChannelByte(PixelColor(m, cam, world, draws, p / cam.width, p % cam.width), j % 4)
  }

  /**
   * The layout: byte k of pixel (h, w) is channel k of that pixel's colour, so
   * every alpha byte is 255.
   */
  lemma ImageLayout(m: Libm, cam: Camera, world: World, draws: (int, int, int) -> Draw, h: int, w: int, k: int)
    requires ValidLibm(m)
    requires 0 <= h < cam.height && 0 <= w < cam.width && 0 <= k < 4
    ensures 0 <= h * cam.width * 4 + w * 4 + k < cam.height * cam.width * 4
    ensures ImageByte(m, cam, world, draws, h * cam.width * 4 + w * 4 + k)
      == ChannelByte(PixelColor(m, cam, world, draws, h, w), k)
    ensures k == 3 ==> ImageByte(m, cam, world, draws, h * cam.width * 4 + w * 4 + k) == 255
  {
    IndexInBounds(h, w, cam.height, cam.width, k);
    DecodeIndex(h, w, cam.width, k);
  }

  /** The four bytes of pixel (h, w) are its channels, in order, from base = h * width * 4 + w * 4 on. */
  lemma PixelBytes(m: Libm, cam: Camera, world: World, draws: (int, int, int) -> Draw, h: int, w: int, base: int)
    requires ValidLibm(m)
    requires 0 <= h < cam.height && 0 <= w < cam.width
    requires base == h * cam.width * 4 + w * 4
    ensures 0 <= base && base + 4 <= cam.height * cam.width * 4
    ensures forall j :: base <= j < base + 4 ==>
      ImageByte(m, cam, world, draws, j) == ChannelByte(PixelColor(m, cam, world, draws, h, w), j - base)
  {
    IndexInBounds(h, w, cam.height, cam.width, 3);
    forall j | base <= j < base + 4
      ensures ImageByte(m, cam, world, draws, j) == ChannelByte(PixelColor(m, cam, world, draws, h, w), j - base)
    {
      var k := j - base;
      IndexInBounds(h, w, cam.height, cam.width, k);
      DecodeIndex(h, w, cam.width, k);
      assert h * cam.width * 4 + w * 4 + k == j;
      assert j / 4 / cam.width == h && j / 4 % cam.width == w && j % 4 == k;
    }
  }

  /**
   * The sample loop of render: trace samples 0 .. samples - 1 of pixel
   * (h, w) at depth 50 and add them up.
   */
  method SumSamples(m: Libm, cam: Camera, world: World, draws: (int, int, int) -> Draw, h: int, w: int)
    returns (pixel: Vec3)
    ensures pixel == SumUpTo(PixelSamples(m, cam, world, draws, h, w), cam.samples)
  {
    ghost var f := PixelSamples(m, cam, world, draws, h, w);
    pixel := Zero;
    var s := 0;
    while s < cam.samples
      invariant 0 <= s <= if cam.samples > 0 then cam.samples else 0
      invariant pixel == SumUpTo(f, s)
    {
      var r := GetRay(m, cam, h, w, draws(h, w, s));
      var sampled := GetColor(world, r, RenderDepth);
      assert sampled == f(s);
      SumStep(f, s);
      pixel := Add(pixel, sampled);
      s := s + 1;
    }
    if cam.samples <= 0 {
      assert s == 0;
    } else {
      assert s == cam.samples;
    }
  }

  /** One more term of a sum. */
  lemma SumStep(f: int -> Vec3, n: int)
    requires n >= 0
    ensures SumUpTo(f, n + 1) == Add(SumUpTo(f, n), f(n))
  {
  }

  /**
   * The body of render's column loop up to the writes: sum the samples of
   * pixel (h, w), average them, gamma-map and clamp. The result is the
   * pixel's final colour.
   */
  method ShadePixel(m: Libm, cam: Camera, world: World, draws: (int, int, int) -> Draw, h: int, w: int)
    returns (pixel: Vec3)
    requires ValidLibm(m)
    ensures pixel == PixelColor(m, cam, world, draws, h, w)
    ensures Within(pixel, 0.0, 1.0)
  {
    pixel := SumSamples(m, cam, world, draws, h, w);
    pixel := Average(pixel, cam.samples);
    pixel := Vec3(Gamma(m, pixel.x), Gamma(m, pixel.y), Gamma(m, pixel.z));
    pixel := Vec3(Clamp(pixel.x), Clamp(pixel.y), Clamp(pixel.z));
  }

  /**
   * The four writes of one pixel: the quantised red, green and blue channels
   * and an opaque alpha at base .. base + 3; no other byte changes.
   */
  method WritePixel(image: array<Byte>, base: int, pixel: Vec3)
    requires 0 <= base && base + 4 <= image.Length
    requires Within(pixel, 0.0, 1.0)
    modifies image
    ensures forall j :: base <= j < base + 4 ==> image[j] == ChannelByte(pixel, j - base)
    ensures forall j :: 0 <= j < image.Length && !(base <= j < base + 4) ==> image[j] == old(image[j])
  {
    image[base + 0] := Quantise(pixel.x);
    image[base + 1] := Quantise(pixel.y);
    image[base + 2] := Quantise(pixel.z);
    image[base + 3] := 255;
  }

  /**
   * One iteration of render's column loop: shade pixel (h, w) and write its
   * four bytes at base = h * width * 4 + w * 4, which then hold the values the
   * layout assigns them; no other byte changes.
   */
  method RenderPixel(m: Libm, cam: Camera, world: World, draws: (int, int, int) -> Draw,
                     image: array<Byte>, h: int, w: int, base: int)
    requires ValidLibm(m)
    requires 0 <= h < cam.height && 0 <= w < cam.width
    requires image.Length == cam.height * cam.width * 4
    requires base == h * cam.width * 4 + w * 4
    modifies image
    ensures 0 <= base && base + 4 <= image.Length
    ensures forall j :: base <= j < base + 4 ==> image[j] == ImageByte(m, cam, world, draws, j)
    ensures forall j :: 0 <= j < image.Length && !(base <= j < base + 4) ==> image[j] == old(image[j])
  {
    var pixel := ShadePixel(m, cam, world, draws, h, w);
    PixelBytes(m, cam, world, draws, h, w, base);
    WritePixel(image, base, pixel);
  }

  /**
   * PerspectiveCamera::render: for each row h and column w, shade the pixel,
   * quantise its channels and write the four RGBA bytes at
   * h * width * 4 + w * 4. Afterwards every byte of the buffer holds the value
   * the layout assigns it.
   */
  method Render(m: Libm, cam: Camera, world: World, draws: (int, int, int) -> Draw, image: array<Byte>)
    requires ValidLibm(m)
    requires 0 <= cam.height && 0 <= cam.width
    requires image.Length == cam.height * cam.width * 4
    modifies image
    ensures forall j :: 0 <= j < image.Length ==> image[j] == ImageByte(m, cam, world, draws, j)
  {
    var h := 0;
    ghost var written := 0;
    while h < cam.height
      invariant 0 <= h <= cam.height
      invariant written == h * cam.width * 4 <= image.Length
      invariant forall j :: 0 <= j < written ==> image[j] == ImageByte(m, cam, world, draws, j)
    {
      var w := 0;
      while w < cam.width
        invariant 0 <= w <= cam.width
        invariant written == h * cam.width * 4 + w * 4 <= image.Length
        invariant forall j :: 0 <= j < written ==> image[j] == ImageByte(m, cam, world, draws, j)
      {
        RenderPixel(m, cam, world, draws, image, h, w, h * cam.width * 4 + w * 4);
        written := written + 4;
        w := w + 1;
      }
      assert written == (h + 1) * cam.width * 4;
      h := h + 1;
    }
    assert written == image.Length;
  }
}
