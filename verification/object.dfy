/**
 * The records exchanged through the Object interface of object.h (not itself
 * part of this model): the broad-phase result, the shading record and the
 * bounding box.
 */
module Objects {
  import opened Vectors

  /** A shared_ptr<Material>, as an index into the scene's table of materials. */
  type MaterialRef = nat

  /** BVHHit: whether the ray hits (is_hit), and at which ray parameter (t). */
  datatype BvhResult = Miss | HitAt(t: real)

  /** ColorHit: the shading record built for the winning broad-phase hit. */
  datatype ColorHit = ColorHit(
    point: Vec3,
    normal: Vec3,
    isFront: bool,
    direction: Vec3,
    mat: MaterialRef,
    u: real,
    v: real)

  /** AABB: an axis-aligned box given by its minimum and maximum corners. */
  datatype Box = Box(min: Vec3, max: Vec3) {
    predicate NonEmpty() {
      min.x <= max.x && min.y <= max.y && min.z <= max.z
    }

    predicate Contains(p: Vec3) {
      && min.x <= p.x <= max.x
      && min.y <= p.y <= max.y
      && min.z <= p.z <= max.z
    }
  }
}
