/**
 * The plane y = 0: a single intersection unless the ray runs (nearly)
 * parallel to it, and the same normal everywhere.
 */
module Planes {
  import opened Tuples
  import opened Rays
  import opened Intersections
  import opened ShapeCore
  import Materials

  /** `f64::EPSILON`, 2^-52. */
  const Epsilon: real := 1.0 / 4503599627370496.0

  /** Rays whose |direction.y| is below this count as parallel to the plane. */
  const ParallelThreshold: real := Epsilon * 50000.0

  function Abs(v: real): (r: real)
    ensures r >= 0.0 && (r == v || r == -v)
  {
    if v < 0.0 then -v else v
  }

  /** `Plane::new`: placeholder id 0, identity transforms, default material. */
  function New(): (d: ShapeData)
    ensures d == DefaultData(Materials.New()) && Consistent(d)
  {
    DefaultDataConsistent(Materials.New());
    DefaultData(Materials.New())
  }

  /**
   * `local_intersect`: nothing for a ray (nearly) parallel to the plane,
   * otherwise the single t at which the ray crosses y = 0.
   */
  function LocalIntersect(d: ShapeData, ray: Ray): (xs: seq<Intersection>)
    ensures Abs(ray.direction.y) < ParallelThreshold <==> xs == []
    ensures Abs(ray.direction.y) >= ParallelThreshold ==>
      |xs| == 1 && xs[0].objectId == d.id && Position(ray, xs[0].t).y == 0.0
  {
    if Abs(ray.direction.y) < ParallelThreshold then []
    else
      var t := -ray.origin.y / ray.direction.y;
      assert ray.direction.y * t == -ray.origin.y;
      [Intersections.New(t, d.id)]
  }

  /** A ray that is not parallel meets y = 0 at one t only: the one reported. */
  lemma LocalIntersectUnique(d: ShapeData, ray: Ray, t: real)
    requires Abs(ray.direction.y) >= ParallelThreshold
    ensures Position(ray, t).y == 0.0 <==> LocalIntersect(d, ray)[0].t == t
  {
    var s := LocalIntersect(d, ray)[0].t;
    assert Position(ray, s).y == 0.0;
    assert Position(ray, t).y - Position(ray, s).y == ray.direction.y * (t - s);
  }

  /** A ray running inside the plane (y = 0, no y motion) is reported as a miss. */
  lemma CoplanarMisses(d: ShapeData, ray: Ray)
    requires ray.origin.y == 0.0 && ray.direction.y == 0.0
    ensures LocalIntersect(d, ray) == []
  {
  }

  /** `local_normal_at`: the vector (0, 1, 0) at every point. */
  function LocalNormalAt(p: Tuple): (n: Tuple)
    ensures IsVector(n) && n.x == 0.0 && n.y == 1.0 && n.z == 0.0
  {
    Vector(0.0, 1.0, 0.0)
  }
}
