/**
 * A shape is a sphere or a plane around the shared `ShapeData`. The
 * operations every shape has in common: reading and setting the id, the
 * transform and the material, and intersection and normals in world space
 * computed through the cached inverse.
 */
module Shapes {
  import opened Tuples
  import opened Matrices
  import opened Inversion
  import opened Rays
  import opened Intersections
  import opened ShapeCore
  import Materials
  import Spheres
  import Planes

  datatype Shape = Sphere(data: ShapeData) | Plane(data: ShapeData)

  /** The same kind of shape around other data. */
  function WithData(s: Shape, d: ShapeData): (r: Shape)
    ensures r.data == d && (r.Sphere? <==> s.Sphere?)
  {
    match s
    case Sphere(_) => Sphere(d)
    case Plane(_) => Plane(d)
  }

  function Id(s: Shape): nat
  {
    s.data.id
  }

  /** Stamping an id onto a shape, as the registry does before storing it. */
  function SetId(s: Shape, id: nat): (r: Shape)
    ensures Id(r) == id && (r.Sphere? <==> s.Sphere?)
    ensures r.data == s.data.(id := id)
  {
    WithData(s, ShapeCore.SetId(s.data, id))
  }

  /** `set_transform`: stores the transform and its inverse together. */
  function SetTransform(s: Shape, t: Matrix): (r: Shape)
    requires Transform4(t) && Invertible(t)
    ensures r.data.transform == t && Consistent(r.data)
    ensures r.data.id == s.data.id && r.data.material == s.data.material && (r.Sphere? <==> s.Sphere?)
  {
    WithData(s, s.data.(transform := t, inverse := Inverse(t)))
  }

  /** `set_material`: only the material changes. */
  function SetMaterial(s: Shape, m: Materials.Material): (r: Shape)
    ensures r.data.material == m
    ensures r.data.id == s.data.id && r.data.transform == s.data.transform && r.data.inverse == s.data.inverse
    ensures r.Sphere? <==> s.Sphere?
  {
    WithData(s, s.data.(material := m))
  }

  /** Setting the material keeps a consistent shape consistent. */
  lemma SetMaterialKeepsConsistent(s: Shape, m: Materials.Material)
    requires Consistent(s.data)
    ensures Consistent(SetMaterial(s, m).data)
  {
  }

  /** What a shape's local intersection needs: a sphere cannot take a zero direction. */
  ghost predicate CanIntersectLocally(s: Shape, localRay: Ray)
  {
    s.Sphere? ==> Dot(localRay.direction, localRay.direction) != 0.0
  }

  function LocalIntersect(num: Numerics, s: Shape, localRay: Ray): (xs: seq<Intersection>)
    requires num.Valid() && CanIntersectLocally(s, localRay)
    ensures forall i :: 0 <= i < |xs| ==> xs[i].objectId == s.data.id
  {
    match s
    case Sphere(d) => Spheres.LocalIntersect(num, d, localRay)
    case Plane(d) => Planes.LocalIntersect(d, localRay)
  }

  /** The world ray taken into the shape's own space. */
  function LocalRay(s: Shape, ray: Ray): Ray
    requires Transform4(s.data.inverse)
  {
    Rays.Transform(ray, s.data.inverse)
  }

  /**
   * `intersect`: the local intersections of the ray taken into object
   * space; every one is tagged with this shape's id.
   */
  function Intersect(num: Numerics, s: Shape, ray: Ray): (xs: seq<Intersection>)
    requires num.Valid() && Transform4(s.data.inverse) && CanIntersectLocally(s, LocalRay(s, ray))
    ensures forall i :: 0 <= i < |xs| ==> xs[i].objectId == Id(s)
  {
    LocalIntersect(num, s, LocalRay(s, ray))
  }

  /** An untransformed shape intersects the world ray directly. */
  lemma IntersectUntransformed(num: Numerics, s: Shape, ray: Ray)
    requires num.Valid() && s.data.inverse == Identity() && CanIntersectLocally(s, ray)
    ensures LocalRay(s, ray) == ray
    ensures Intersect(num, s, ray) == LocalIntersect(num, s, ray)
  {
    TransformIdentity(ray);
  }

  /**
   * A sphere scaled by k > 0 meets the ray from (0, 0, -5) along +z at
   * t = 5 - k and t = 5 + k (3 and 7 for k = 2).
   */
  lemma ScaledSphereAxialRay(num: Numerics, s: Shape, k: real)
    requires num.Valid() && s.Sphere? && 0.0 < k
    requires s.data.inverse == Scaling(1.0 / k, 1.0 / k, 1.0 / k)
    ensures CanIntersectLocally(s, LocalRay(s, Ray(Point(0.0, 0.0, -5.0), Vector(0.0, 0.0, 1.0))))
    ensures var xs := Intersect(num, s, Ray(Point(0.0, 0.0, -5.0), Vector(0.0, 0.0, 1.0)));
      |xs| == 2 && xs[0].t == 5.0 - k && xs[1].t == 5.0 + k
  {
    var ray := Ray(Point(0.0, 0.0, -5.0), Vector(0.0, 0.0, 1.0));
    var j := 1.0 / k;
    ScalingScales(j, j, j, ray.origin);
    ScalingScales(j, j, j, ray.direction);
    var local := LocalRay(s, ray);
    assert local.origin.z == -5.0 * j && local.direction.z == j;
    var q := Spheres.Coefficients(local);
    assert q.a == j * j;
    assert q.b == -10.0 * (j * j);
    assert q.c == 25.0 * (j * j) - 1.0;
    ScaledSphereRoots(num, q, k, j);
  }

  lemma ScaledSphereRoots(num: Numerics, q: Spheres.Quadratic, k: real, j: real)
    requires num.Valid() && 0.0 < k && j == 1.0 / k
    requires q.a == j * j && q.b == -10.0 * (j * j) && q.c == 25.0 * (j * j) - 1.0
    ensures q.Discriminant() == 4.0 * (j * j)
    ensures num.sqrt(q.Discriminant()) == 2.0 * j
    ensures (-q.b - num.sqrt(q.Discriminant())) * (1.0 / (2.0 * q.a)) == 5.0 - k
    ensures (-q.b + num.sqrt(q.Discriminant())) * (1.0 / (2.0 * q.a)) == 5.0 + k
  {
    assert j * k == 1.0;
    var jj := j * j;
    assert q.Discriminant() == 100.0 * jj * jj - 4.0 * jj * (25.0 * jj - 1.0);
    assert q.Discriminant() == 4.0 * jj;
    assert 0.0 < j;
    assert (2.0 * j) * (2.0 * j) == 4.0 * jj;
    SqrtOf(num, 4.0 * jj, 2.0 * j);
    var inv := 1.0 / (2.0 * jj);
    assert inv == k * k / 2.0;
    assert (10.0 * jj - 2.0 * j) * inv == 5.0 - k;
    assert (10.0 * jj + 2.0 * j) * inv == 5.0 + k;
  }

  function LocalNormalAt(s: Shape, p: Tuple): Tuple
  {
    match s
    case Sphere(_) => Spheres.LocalNormalAt(p)
    case Plane(_) => Planes.LocalNormalAt(p)
  }

  /**
   * `normal_at`: the local normal at the point taken into object space,
   * carried back by the transposed inverse, with w forced to 0, then
   * normalised. The result is always a vector, of unit length unless the
   * carried-back normal vanishes.
   */
  function NormalAt(num: Numerics, s: Shape, world: Tuple): (n: Tuple)
    requires num.Valid() && Transform4(s.data.inverse)
    ensures IsVector(n)
    ensures var w := WorldNormal(s, world); Dot(w, w) != 0.0 ==> Dot(n, n) == 1.0
  {
    Normalise(num, WorldNormal(s, world))
  }

  /** The local normal carried back to world space, as a vector. */
  function WorldNormal(s: Shape, world: Tuple): (w: Tuple)
    requires Transform4(s.data.inverse)
    ensures IsVector(w)
  {
    var objectPoint := MulTuple(s.data.inverse, world);
    var objectNormal := LocalNormalAt(s, objectPoint);
    var carried := MulTuple(Transpose(s.data.inverse), objectNormal);
    Vector(carried.x, carried.y, carried.z)
  }

  /** On an untransformed unit sphere the normal at p is p - origin. */
  lemma SphereNormalUntransformed(num: Numerics, s: Shape, p: Tuple)
    requires num.Valid() && s.Sphere? && s.data.inverse == Identity()
    requires IsPoint(p) && p.x * p.x + p.y * p.y + p.z * p.z == 1.0
    ensures NormalAt(num, s, p) == Vector(p.x, p.y, p.z)
  {
    IdentityTimesTuple(p);
    TransposeIdentity();
    var v := Sub(p, Point(0.0, 0.0, 0.0));
    IdentityTimesTuple(v);
    assert WorldNormal(s, p) == Vector(p.x, p.y, p.z);
    NormaliseByMagnitude(num, Vector(p.x, p.y, p.z), 1.0);
  }

  /** On an untransformed plane the normal is (0, 1, 0) everywhere. */
  lemma PlaneNormalUntransformed(num: Numerics, s: Shape, p: Tuple)
    requires num.Valid() && s.Plane? && s.data.inverse == Identity()
    ensures NormalAt(num, s, p) == Vector(0.0, 1.0, 0.0)
  {
    IdentityTimesTuple(p);
    TransposeIdentity();
    var up := Vector(0.0, 1.0, 0.0);
    IdentityTimesTuple(up);
    assert WorldNormal(s, p) == up;
    NormaliseByMagnitude(num, up, 1.0);
  }
}
