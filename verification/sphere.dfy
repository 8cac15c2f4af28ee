/**
 * The unit sphere at the origin: its constructors, the quadratic
 * ray-sphere intersection and the outward normal.
 */
module Spheres {
  import opened Tuples
  import opened Rays
  import opened Intersections
  import opened ShapeCore
  import Materials

  /** `Sphere::new`: placeholder id 0, identity transforms, default material. */
  function New(): (d: ShapeData)
    ensures d.id == 0 && d.transform == Matrices.Identity() && d.inverse == Matrices.Identity()
    ensures d.material == Materials.New()
  {
    DefaultData(Materials.New())
  }

  /** `Sphere::glass`: the default sphere with a transparent material of index 1.5. */
  function Glass(): (d: ShapeData)
    ensures d == New().(material := d.material)
    ensures d.material == Materials.New().(transparency := 1.0, refractiveIndex := 1.5)
  {
    DefaultData(Materials.New().(transparency := 1.0, refractiveIndex := 1.5))
  }

  /** The coefficients a, b, c of a t^2 + b t + c = 0 for a ray against the unit sphere. */
  datatype Quadratic = Quadratic(a: real, b: real, c: real)
  {
    function Discriminant(): real
    {
      b * b - 4.0 * a * c
    }

    function At(t: real): real
    {
      a * t * t + b * t + c
    }
  }

  function Coefficients(ray: Ray): Quadratic
  {
    var sphereToRay := Sub(ray.origin, Point(0.0, 0.0, 0.0));
    Quadratic(Dot(ray.direction, ray.direction),
              2.0 * Dot(ray.direction, sphereToRay),
              Dot(sphereToRay, sphereToRay) - 1.0)
  }

  /**
   * `local_intersect`: nothing when the discriminant is negative, otherwise
   * both roots, smaller first, each tagged with this sphere's id. The
   * direction must not be zero (the source would divide by zero).
   */
  function LocalIntersect(num: Numerics, d: ShapeData, ray: Ray): (xs: seq<Intersection>)
    requires num.Valid() && Dot(ray.direction, ray.direction) != 0.0
    ensures var q := Coefficients(ray);
      && (q.Discriminant() < 0.0 <==> xs == [])
      && (q.Discriminant() >= 0.0 ==> |xs| == 2 && xs[0].t <= xs[1].t)
      && (forall i :: 0 <= i < |xs| ==> xs[i].objectId == d.id && q.At(xs[i].t) == 0.0)
  {
    var q := Coefficients(ray);
    var discriminant := q.Discriminant();
    if discriminant < 0.0 then []
    else
      var root := num.sqrt(discriminant);
      var inv2a := 1.0 / (2.0 * q.a);
      var t1 := (-q.b - root) * inv2a;
      var t2 := (-q.b + root) * inv2a;
      DotSelfNonnegative(ray.direction);
      RootsOrdered(q.a, q.b, root);
      RootSolves(q, root, t1);
      RootSolves(q, root, t2);
      [Intersections.New(t1, d.id), Intersections.New(t2, d.id)]
  }

  /** The two intersections `LocalIntersect` finds, written out. */
  lemma LocalIntersectRoots(num: Numerics, d: ShapeData, ray: Ray, t1: real, t2: real)
    requires num.Valid() && Dot(ray.direction, ray.direction) != 0.0
    requires Coefficients(ray).Discriminant() >= 0.0
    requires var q := Coefficients(ray);
      && t1 == (-q.b - num.sqrt(q.Discriminant())) * (1.0 / (2.0 * q.a))
      && t2 == (-q.b + num.sqrt(q.Discriminant())) * (1.0 / (2.0 * q.a))
    ensures var xs := LocalIntersect(num, d, ray);
      |xs| == 2 && xs[0] == Intersections.New(t1, d.id) && xs[1] == Intersections.New(t2, d.id)
  {
  }

  /** `local_normal_at`: the vector from the centre to the point. */
  function LocalNormalAt(p: Tuple): (n: Tuple)
    ensures IsPoint(p) ==> IsVector(n)
    ensures Add(Point(0.0, 0.0, 0.0), n) == p
  {
    Sub(p, Point(0.0, 0.0, 0.0))
  }

  lemma DotSelfNonnegative(v: Tuple)
    ensures Dot(v, v) >= 0.0
  {
  }

  /** With a > 0 and a non-negative root, the minus root is the smaller one. */
  lemma RootsOrdered(a: real, b: real, root: real)
    requires a > 0.0 && root >= 0.0
    ensures (-b - root) * (1.0 / (2.0 * a)) <= (-b + root) * (1.0 / (2.0 * a))
  {
    var k := 1.0 / (2.0 * a);
    assert k > 0.0;
    assert (-b + root) * k - (-b - root) * k == (2.0 * root) * k;
    assert (2.0 * root) * k >= 0.0;
  }

  /** 4a times the quadratic is the square of 2at + b less the discriminant. */
  lemma CompleteSquare(q: Quadratic, t: real)
    ensures 4.0 * q.a * q.At(t) == (2.0 * q.a * t + q.b) * (2.0 * q.a * t + q.b) - q.Discriminant()
  {
  }

  /** Both values (-b -/+ root) / 2a, with root the square root of the discriminant, are roots. */
  lemma RootSolves(q: Quadratic, root: real, t: real)
    requires q.a != 0.0 && root * root == q.Discriminant()
    requires t == (-q.b - root) * (1.0 / (2.0 * q.a)) || t == (-q.b + root) * (1.0 / (2.0 * q.a))
    ensures q.At(t) == 0.0
  {
    var u := 2.0 * q.a * t + q.b;
    assert 2.0 * q.a * (1.0 / (2.0 * q.a)) == 1.0;
    assert u == root || u == -root;
    assert u * u == root * root;
    CompleteSquare(q, t);
    assert 4.0 * q.a * q.At(t) == 0.0;
  }

  /** With a negative discriminant the quadratic has no real root. */
  lemma NoRootBelowZero(q: Quadratic, t: real)
    requires q.a != 0.0 && q.Discriminant() < 0.0
    ensures q.At(t) != 0.0
  {
    CompleteSquare(q, t);
    var u := 2.0 * q.a * t + q.b;
    assert u * u >= 0.0;
  }

  /** Every real root of the quadratic is one of the two the formula gives. */
  lemma OnlyTheseRoots(q: Quadratic, root: real, t: real)
    requires q.a != 0.0 && root >= 0.0 && root * root == q.Discriminant()
    requires q.At(t) == 0.0
    ensures t == (-q.b - root) * (1.0 / (2.0 * q.a)) || t == (-q.b + root) * (1.0 / (2.0 * q.a))
  {
    CompleteSquare(q, t);
    var u := 2.0 * q.a * t + q.b;
    assert u * u == root * root;
    assert (u - root) * (u + root) == 0.0;
    var k := 1.0 / (2.0 * q.a);
    assert t == (u - q.b) * k;
  }

  /**
   * The local intersections are exactly the real solutions: a value t is
   * reported iff a t^2 + b t + c = 0.
   */
  lemma LocalIntersectExactlyRoots(num: Numerics, d: ShapeData, ray: Ray, t: real)
    requires num.Valid() && Dot(ray.direction, ray.direction) != 0.0
    ensures (exists i :: 0 <= i < |LocalIntersect(num, d, ray)| && LocalIntersect(num, d, ray)[i].t == t)
        <==> Coefficients(ray).At(t) == 0.0
  {
    var q := Coefficients(ray);
    var xs := LocalIntersect(num, d, ray);
    if q.Discriminant() < 0.0 {
      NoRootBelowZero(q, t);
    } else if q.At(t) == 0.0 {
      OnlyTheseRoots(q, num.sqrt(q.Discriminant()), t);
      assert xs[0].t == t || xs[1].t == t;
    }
  }

  /** Expanding the squared length of s + t d. */
  lemma DotAlongRay(s: Tuple, dir: Tuple, t: real)
    ensures Dot(Add(s, Scale(dir, t)), Add(s, Scale(dir, t)))
      == Dot(s, s) + 2.0 * t * Dot(dir, s) + t * t * Dot(dir, dir)
  {
  }

  /** At a root, the point the ray reaches lies on the unit sphere. */
  lemma RootOnSphere(ray: Ray, t: real)
    requires Coefficients(ray).At(t) == 0.0
    ensures var v := Sub(Position(ray, t), Point(0.0, 0.0, 0.0)); Dot(v, v) == 1.0
  {
    var s := Sub(ray.origin, Point(0.0, 0.0, 0.0));
    var v := Sub(Position(ray, t), Point(0.0, 0.0, 0.0));
    assert v == Add(s, Scale(ray.direction, t));
    DotAlongRay(s, ray.direction, t);
  }
}
