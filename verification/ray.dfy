/**
 * Rays: an origin point and a direction vector. The ray type's own source
 * file is not part of this model; only the two operations its callers use
 * are defined here.
 */
module Rays {
  import opened Tuples
  import opened Matrices

  datatype Ray = Ray(origin: Tuple, direction: Tuple)

  /** The point reached after travelling t units of direction from the origin. */
  function Position(r: Ray, t: real): (p: Tuple)
    ensures IsPoint(r.origin) && IsVector(r.direction) ==> IsPoint(p)
    ensures Sub(p, r.origin) == Scale(r.direction, t)
  {
    Add(r.origin, Scale(r.direction, t))
  }

  /** The ray with both origin and direction multiplied by a 4x4 matrix. */
  function Transform(r: Ray, m: Matrix): (s: Ray)
    requires Transform4(m)
    ensures s.origin == MulTuple(m, r.origin) && s.direction == MulTuple(m, r.direction)
  {
    Ray(MulTuple(m, r.origin), MulTuple(m, r.direction))
  }

  /** Transforming by the identity leaves a ray unchanged. */
  lemma TransformIdentity(r: Ray)
    ensures Transform(r, Identity()) == r
  {
    IdentityTimesTuple(r.origin);
    IdentityTimesTuple(r.direction);
  }

  /** Translation moves the origin of a ray and keeps its direction. */
  lemma TransformTranslation(r: Ray, x: real, y: real, z: real)
    requires IsPoint(r.origin) && IsVector(r.direction)
    ensures Transform(r, Translation(x, y, z)) == Ray(Point(r.origin.x + x, r.origin.y + y, r.origin.z + z), r.direction)
  {
    TranslationMoves(x, y, z, r.origin);
    TranslationMoves(x, y, z, r.direction);
  }
}
