# A verified model of the star-wars path tracer core

The renderer is a small CPU path tracer. A `PerspectiveCamera` shoots
jittered rays through every pixel. `get_color` follows each ray through the
scene, bouncing off materials until the path misses (sky), is absorbed, or
runs out of depth. `render` averages the samples of each pixel,
gamma-corrects, clamps and quantises them, and writes RGBA bytes into a
row-major image buffer. The scene is made of two primitives, `Sphere` and
`Triangle`. Each primitive answers a broad-phase query (`bvh_hit`: is there
a hit in a ray-parameter interval, and at which `t`), builds a shading
record for the winning hit (`hit`) and reports its bounding box (`aabb`).

This project models those three headers over the reals:

- `vectors.dfy`: glm's `vec3` arithmetic, the `Ray` of `ray.h`, and the real-arithmetic facts the proofs need (modules `RealArith` and `Vectors`).
- `mathlib.dfy`: `sqrt`, `acos`, `atan2`, `glm::normalize` and the value of pi (module `MathLib`). The functions are values constrained by the range contracts the renderer relies on.
- `random.dfy`: `random_hemisphere` and the draws `get_ray` consumes (module `Random`).
- `object.dfy`: the records passed through the `Object` interface: the broad-phase result, the shading record and the box (module `Objects`).
- `sphere.dfy`: `Sphere` (module `Spheres`).
- `triangle.dfy`: `Triangle` (module `Triangles`).
- `camera.dfy`: `PerspectiveCamera::get_color`, `get_ray` and `render` (module `Cameras`). It also holds the integer facts about the buffer layout (module `IntArith`).

Sphere, triangle and camera are immutable once built, so they are datatypes.
`hit`, `bvh_hit`, `aabb`, `get_ray` and `get_color` are pure functions.
`render` changes the image buffer step by step, so it is a method over an
`array` of bytes. Its loops are split into methods for one pixel's samples,
one pixel's shading and one pixel's four writes. `Render` is proved to leave
every byte equal to `ImageByte`, the value the layout assigns to that byte.

The main properties proved:

- The sphere's broad phase returns exactly the nearest root of the sphere equation in `(tmin, tmax]`, or a miss when there is none.
- The triangle's broad phase (Moller-Trumbore) reports `t` exactly when the ray is not within float epsilon of parallel to the plane (abs(det) > epsilon) and meets the closed triangle at `t` in `[tmin, tmax]`. This is Cramer's rule in both directions.
- Shading records face against the ray, have in-range texture coordinates and lie in the primitive's bounding box. Sphere records carry a unit normal parallel to point - center. Triangle records carry a unit normal when the triangle was built by the constructor from non-degenerate edges.
- `get_ray` starts each ray on the lens disk and aims it, as a unit vector, at a point inside the pixel's footprint on the focal plane.
- `get_color` agrees with a front-to-back throughput integration. It stays in the unit cube for scenes whose materials do not amplify light. It makes at most `depth` scene queries.
- Every pixel is the tone-mapped mean of its samples, and every byte of the image lands where the row-major RGBA layout puts it.

## Model

| member | source | states |
|---|---|---|
| Spheres.Sphere.BvhHit | src/sphere.h:36-64 | a negative discriminant is a miss; a reported t lies in (tmin, tmax] |
| Spheres.Sphere.RootEquation | src/sphere.h:37-41 | for a unit direction, t is on the sphere exactly when (t - h)^2 equals h^2 - c, the discriminant with a = 1 |
| Spheres.Sphere.NoRoot | src/sphere.h:46-48 | with a negative discriminant no t puts the ray on the sphere |
| Spheres.Sphere.RootCandidates | src/sphere.h:50-54 | for a unit direction with a non-negative discriminant the ray meets the sphere at exactly h - sqrt(disc) and h + sqrt(disc) |
| Spheres.Sphere.RootsFromSquareRoot | src/sphere.h:50-54 | for a unit direction and any s with s^2 equal to the discriminant, t is a root exactly when t is h - s or h + s |
| Spheres.Sphere.DistanceAlongRay | src/sphere.h:37-41 | for a unit direction the squared distance from the center at t is t^2 - 2 t h + the squared distance of the origin |
| Spheres.Sphere.BvhHitIsNearestRoot | src/sphere.h:36-64 | for a unit direction, a reported t is a root in (tmin, tmax] and no root in that interval is smaller; a miss means no root lies in (tmin, tmax] |
| Spheres.Sphere.BvhHitOnSphere | src/sphere.h:36-64 | a broad-phase hit with a unit direction lies on the sphere |
| Spheres.Sphere.Hit | src/sphere.h:18-34 | the point is r.at(t); is_front holds exactly when the ray meets the outward normal head-on; the normal is the outward normal or its negation, facing against the ray and, away from the center, parallel to point - center; the scattered direction lies in the hemisphere about it; the material is the sphere's; away from the center u and v lie in [0, 1] |
| Spheres.Sphere.UnitOutwardNormal | src/sphere.h:21 | away from the center the normalised (point - center) / radius is a unit vector parallel to point - center, pointing away from the center for a positive radius |
| Spheres.Sphere.HitAwayFromCenter | src/sphere.h:18-34 | the recorded point of a broad-phase hit is not the center, so u and v lie in [0, 1] |
| Spheres.Sphere.BvhHitAwayFromCenter | src/sphere.h:36-64 | for a non-zero radius, the point a broad-phase hit names is not the center |
| Spheres.Sphere.HitAfterBvhHit | src/sphere.h:18-64 | after a broad-phase hit: the recorded point lies on the sphere and, for a positive radius, in the bounding box; the outward normal is a unit vector; u and v lie in [0, 1] |
| Spheres.Sphere.Aabb | src/sphere.h:66-69 | the box is non-empty, and contains the center, exactly when the radius is non-negative |
| Spheres.Sphere.AabbContainsBall | src/sphere.h:66-69 | every point of the ball lies in the box |
| Triangles.MakeTriangle | src/triangle.h:32-36 | vertices and material are kept; for a non-degenerate triangle the normal is a unit vector parallel to e1 x e2, so perpendicular to the triangle, on the side from which v1, v2, v3 run counter-clockwise |
| Triangles.MadeTriangleUnitNormal | src/triangle.h:32-43 | the shading record of a triangle built from non-degenerate edges has a unit normal, perpendicular to the triangle (parallel to e1 x e2) and facing against the ray |
| Triangles.Triangle.InvDet | src/triangle.h:76 | inv_det times det is 1 |
| Triangles.Triangle.BaryU | src/triangle.h:76-78 | u times det is s . (direction x edge2): u is that ratio |
| Triangles.Triangle.BaryV | src/triangle.h:85-86 | v times det is direction . q: v is that ratio |
| Triangles.Triangle.BaryT | src/triangle.h:93 | t times det is edge2 . q: t is that ratio |
| Triangles.Triangle.BvhHit | src/triangle.h:62-104 | a hit is reported exactly when abs(det) exceeds float epsilon, (u, v) lies in the closed triangle and t lies in [tmin, tmax]; the reported t is t |
| Triangles.Cramer | src/triangle.h:76-93 | with inv the inverse of e1 . (d x e2), the three determinant ratios u, v, t solve u e1 + v e2 - t d == s |
| Triangles.Triangle.BarycentricPointOnRay | src/triangle.h:76-93 | the computed u, v name the point of the plane that the ray reaches at the computed t |
| Triangles.Triangle.PlaneHitHasBarycentrics | src/triangle.h:76-93 | any (u, v, t) where the ray meets the plane are the computed u, v, t |
| Triangles.Triangle.BvhHitOnTriangle | src/triangle.h:62-104 | a reported t is where the ray meets the closed triangle, in [tmin, tmax] |
| Triangles.Triangle.TriangleHitIsReported | src/triangle.h:62-104 | a ray not within epsilon of parallel that meets the closed triangle at t in [tmin, tmax] is reported at t |
| Triangles.Triangle.BvhHitIsTriangleHit | src/triangle.h:62-104 | the broad phase reports t exactly when abs(det) exceeds epsilon, t lies in [tmin, tmax] and some (u, v) of the closed triangle is the ray's point at t |
| Triangles.Triangle.Oriented | src/triangle.h:42-43 | the normal used is the stored one or its negation, whichever faces against the ray |
| Triangles.Triangle.Hit | src/triangle.h:38-60 | the point is r.at(t); is_front holds exactly when the ray meets the stored normal head-on; the normal is flipped to face against the ray; with a valid sampler the scattered direction lies in the hemisphere about it; u and v are the barycentric parameters |
| Triangles.Triangle.HitAsWritten | src/triangle.h:38-60 | as written, the scattered direction is drawn about the record's normal before it is set; the record otherwise equals the corrected one |
| Triangles.HitAsWrittenScattersIntoSurface | src/triangle.h:40-43 | with a valid sampler and a zero initial normal, the as-written record scatters straight into the surface while the corrected record stays in the hemisphere |
| Triangles.Triangle.HitAfterBvhHit | src/triangle.h:38-104 | after a broad-phase hit, for any sampler: det is non-zero, the recorded (u, v) name the recorded point, lie in the closed triangle, and the point is in the bounding box |
| Triangles.Triangle.Aabb | src/triangle.h:106-120 | the box is non-empty and contains the three vertices |
| Triangles.Triangle.TriangleInBox | src/triangle.h:106-120 | every point of the closed triangle lies in the box |
| Cameras.Background | src/camera.h:134-136 | the blue channel is 1; for y in [-1, 1] every channel lies in [0.5, 1] |
| Cameras.BackgroundBetweenEndpoints | src/camera.h:134-136 | for y in [-1, 1] the blend weight lies in [0, 1]; each channel lies between white and the sky colour; y = -1 gives white and y = 1 the sky colour |
| Cameras.GetColor | src/camera.h:118-137 | at depth 0 or below the colour is black |
| Cameras.HitQueries | src/camera.h:118-137 | a get_color call queries the scene at most depth times |
| Cameras.EndedPathIgnoresDepth | src/camera.h:118-137 | once a path ends (misses, is absorbed) before its depth runs out, a larger depth gives the same colour and the same number of queries, so depth 50 (src/camera.h:60) only cuts paths that are still bouncing |
| Cameras.AccumulateIsGetColor | src/camera.h:118-137 | the recursive colour times any throughput equals the front-to-back product of attenuations applied to the background |
| Cameras.GetColorInUnitCube | src/camera.h:118-137 | in a scene whose attenuations lie in [0, 1] and whose scattered directions have y in [-1, 1], every colour lies in [0, 1] per channel |
| Cameras.Jitter | src/camera.h:101-102 | a random_float() draw in [0, 1) keeps the coordinate in [i, i + 1) |
| Cameras.OriginOnLens | src/camera.h:105-110 | with a random_disk() draw in the unit disk, the origin (the center, or center + x disk_u + y disk_v) is a point of the lens disk |
| Cameras.LensPointOnLens | src/camera.h:108-109 | center + x disk_u + y disk_v is on the lens for (x, y) in the unit disk; the disk's center gives the camera center |
| Cameras.RayTarget | src/camera.h:101-113 | with random_float() draws in [0, 1) the target pixel00 + dv random_h + du random_w lies in the footprint of pixel (h, w) |
| Cameras.GetRay | src/camera.h:98-116 | with defocus angle at most 0 the origin is the camera center; with valid draws the origin is on the lens disk and the target in the pixel's footprint; when the target differs from the origin the direction is a unit vector parallel to target - origin and pointing at it, with y in [-1, 1] |
| Cameras.UnitDirection | src/camera.h:112-114 | a valid normalize gives a unit vector parallel to its argument and pointing the same way, each component in [-1, 1] |
| Cameras.CameraSampleInUnitCube | src/camera.h:59-60 | in such a scene each camera sample lies in [0, 1] per channel |
| Cameras.SumSamples | src/camera.h:58-62 | the sample loop's sum is the sum of the colours of samples 0 .. samples - 1 |
| Cameras.SumBounds | src/camera.h:58-62 | n sample colours in [0, 1] sum to a vector in [0, n] |
| Cameras.Average | src/camera.h:64 | with n > 0 samples, n times the mean is the sum; with none the mean is black |
| Cameras.MeanOfBounded | src/camera.h:64 | a sum in [0, n] divided by n > 0 lies in [0, 1] |
| Cameras.AverageBounds | src/camera.h:58-64 | the mean of n > 0 colours in [0, 1] lies in [0, 1] |
| Cameras.PixelMeanInUnitCube | src/camera.h:53-64 | in such a scene a pixel's mean colour lies in [0, 1] before tone mapping |
| Cameras.Gamma | src/camera.h:72-74 | a non-positive channel maps to 0; a positive one to its non-negative square root |
| Cameras.Clamp | src/camera.h:77-82 | the result lies in [0, 1]: 0 below 0, 1 above 1, the channel itself in between |
| Cameras.ToneChannel | src/camera.h:71-82 | the gamma and clamp steps give a value in [0, 1]: 0 for a non-positive channel, 1 for a channel of at least 1, and the square root otherwise |
| Cameras.ToneMap | src/camera.h:71-82 | a tone-mapped pixel lies in [0, 1] per channel |
| Cameras.Quantise | src/camera.h:84-86 | the byte is the integer part of 255.999 c |
| Cameras.QuantiseEnds | src/camera.h:84-86 | 0 quantises to 0 and 1 to 255; quantising is monotone |
| Cameras.PixelColor | src/camera.h:53-86 | a pixel's final colour lies in [0, 1] per channel |
| Cameras.ShadePixel | src/camera.h:53-82 | the shaded pixel is the tone-mapped mean of its samples and lies in [0, 1] |
| Cameras.WritePixel | src/camera.h:84-91 | bytes base .. base + 3 hold red, green, blue and 255; no other byte changes |
| Cameras.ImageLayout | src/camera.h:88-91 | byte h * width * 4 + w * 4 + k is in the buffer and is channel k of pixel (h, w); every alpha byte is 255 |
| Cameras.PixelBytes | src/camera.h:88-91 | the four bytes from h * width * 4 + w * 4 on are the layout's bytes of pixel (h, w) |
| Cameras.RenderPixel | src/camera.h:50-92 | one column step writes the layout's four bytes of pixel (h, w) and changes nothing else |
| Cameras.Render | src/camera.h:48-96 | afterwards every byte of the buffer is the byte the layout assigns it |

## Left out

- The `PerspectiveCamera` constructor (src/camera.h:20-46) is not modelled. It computes the viewport from `tan`, the field of view and the up vector. `Camera` takes its results (`pixel00`, `du`, `dv`, `disk_u`, `disk_v`) as given fields.
- main.cpp, which builds the scene and saves the image, is not part of this model.
- object.h, material.h, random.h, ray.h and the `ObjectList`/BVH are not part of this model. `ObjectList::hit` and `Material::scatter` are function fields of `World`. `random_hemisphere` is a field of `Rng`, and the `random_float`/`random_disk` draws of each sample are a function `draws(h, w, s)` passed to `Render`. `ValidDraw` says what those draws promise (jitter in [0, 1), a disk point in the unit disk); `GetRay`'s lens and pixel ensures assume it. The global generator's state and call order are not modelled.
- Single-precision floating point is not modelled: all arithmetic is over the reals, so rounding, overflow to infinity, NaN and signed zero are out. The constants `0.001f` and `1000.0f` are the exact reals of their float values, and float epsilon is 2^-23. `pi_v<float>` is likewise the exact real of its float value.
- `sqrt`, `acos`, `atan2` and `glm::normalize` are not modelled beyond the range contracts in `ValidLibm`.
- The progress output to `std::clog` and `std::cout` in `render` is left out. So is the dead debug branch (src/camera.h:65-69), since its condition is always true.
- 32-bit overflow of `h * width * 4 + w * 4` and of the sample counter is not modelled; indices are unbounded integers.
- `Cameras.Render` requires non-negative height and width and a buffer of exactly height * width * 4 bytes. That is how main.cpp sizes it; the source itself does not check.
- `Cameras.Average`: with zero samples the source divides by zero (NaN, which gamma then maps to 0). The model returns black directly, which gives the same bytes.
- `Cameras.GetColorInUnitCube`, `Cameras.SumBounds` and `Cameras.AverageBounds` are stated for colours in [0, 1] only, not for arbitrary bounds.
- `Cameras.GetRay`: the unit-direction ensures needs the target to differ from the origin. When they coincide, `glm::normalize` of the zero vector is NaN in the source.
- The camera's `max_depth` field is carried but unused, as in the source: `render` always passes depth 50 (src/camera.h:60).
- `Spheres.Sphere.Hit`: requires a non-zero radius, because the source divides by it (src/sphere.h:21). Unlike the source, it takes no tmin/tmax: the source's `hit` takes them and ignores them.
- `Triangles.Triangle.Hit`: requires a non-zero determinant, because the source divides by it (src/triangle.h:50). The model assumes the two-phase protocol: the narrow phase runs only on the broad phase's winning hit for the same ray, and that hit implies abs(det) > epsilon. Its hemisphere ensures holds only for a sampler satisfying `ValidRng`. Like `Spheres.Sphere.Hit`, it leaves out the tmin/tmax the source's `hit` takes and ignores.
- `Spheres.Sphere.BvhHitIsNearestRoot`: it holds only for unit ray directions. `bvh_hit` fixes the quadratic's a to 1. Every ray `get_ray` builds is normalised, but the rays `Material::scatter` returns are not shown to be.

- Scattered rays come from `Material::scatter` (src/camera.h:125-129), which is not part of this model. Nothing shows they are normalised: `Cameras.GetColorInUnitCube` and the lemmas built on it assume, through `Passive`, that every scattered direction has y in [-1, 1].

## Findings

| source | as written | input that shows it | evidently intended | confidence | as-written member | corrected member |
|---|---|---|---|---|---|---|
| src/triangle.h:41 | `ret.direction = random_hemisphere(ret.normal)` runs before `ret.normal` is assigned (line 43), so the sample is drawn about the fresh record's normal, not the surface normal | any broad-phase hit of a triangle with a unit normal, when the fresh record's normal is the zero vector and the sampler maps zero to the negated oriented normal: the scattered direction's dot product with the record's normal is -1 | draw the hemisphere sample about the oriented normal, after it is set, as `Sphere::hit` does | not executed | Triangles.Triangle.HitAsWritten, Triangles.HitAsWrittenScattersIntoSurface | Triangles.Triangle.Hit |
