/**
 * The two earlier sphere types that hand out ids from a process-wide
 * 32-bit counter instead of a registry: the `Shape`-trait sphere with
 * transform and material, and the bare sphere that carries only an id.
 * The counter is threaded through explicitly.
 */
module LegacyShapes {
  import opened Tuples
  import opened Matrices
  import opened Inversion
  import opened Rays
  import opened Intersections
  import opened ShapeCore
  import Materials
  import Spheres

  /** An `AtomicU32` wraps around at 2^32. */
  const U32Modulus: nat := 0x1_0000_0000

  /** The global id counter: the id the next sphere receives. */
  datatype Counter = Counter(next: nat)
  {
    predicate Valid()
    {
      next < U32Modulus
    }
  }

  /** `reset_sphere_counter`: the next id is 0 again. */
  function ResetCounter(): (c: Counter)
    ensures c.Valid() && c.next == 0
  {
    Counter(0)
  }

  /** `fetch_add(1)`: yields the current value and advances the counter, wrapping at 2^32. */
  function FetchAdd(c: Counter): (r: (nat, Counter))
    requires c.Valid()
    ensures r.0 == c.next && r.1.Valid()
    ensures r.1.next == if c.next == U32Modulus - 1 then 0 else c.next + 1
  {
    (c.next, Counter((c.next + 1) % U32Modulus))
  }

  /**
   * `Sphere::new` of the trait-based sphere: the counter's id, identity
   * transform and inverse, default material. Apart from the id it is the
   * registry sphere's default.
   */
  function NewSphere(c: Counter): (r: (ShapeData, Counter))
    requires c.Valid()
    ensures r.0 == Spheres.New().(id := c.next)
    ensures Consistent(r.0)
    ensures r.1 == FetchAdd(c).1
  {
    var (id, next) := FetchAdd(c);
    DefaultDataConsistent(Materials.New());
    (ShapeData(id, Identity(), Inverse(Identity()), Materials.New()), next)
  }

  /** `set_transform`: stores the transform and its inverse; id and material stay. */
  function SetTransform(d: ShapeData, t: Matrix): (r: ShapeData)
    requires Transform4(t) && Invertible(t)
    ensures Consistent(r) && r.transform == t
    ensures r.id == d.id && r.material == d.material
  {
    d.(inverse := Inverse(t), transform := t)
  }

  /** `set_material`: only the material changes, so consistency is kept. */
  function SetMaterial(d: ShapeData, m: Materials.Material): (r: ShapeData)
    ensures r.material == m && r.id == d.id
    ensures r.transform == d.transform && r.inverse == d.inverse
    ensures Consistent(d) ==> Consistent(r)
  {
    d.(material := m)
  }

  /** The ids of k spheres created one after another, and the counter afterwards. */
  function Spawn(c: Counter, k: nat): (r: (seq<nat>, Counter))
    requires c.Valid()
    ensures |r.0| == k && r.1.Valid()
  {
    if k == 0 then ([], c)
    else
      var (ids, c1) := Spawn(c, k - 1);
      var (id, c2) := FetchAdd(c1);
      (ids + [id], c2)
  }

  /** Successive spheres receive consecutive ids modulo 2^32. */
  lemma {:induction false} SpawnIds(c: Counter, k: nat)
    requires c.Valid()
    ensures forall i :: 0 <= i < k ==> Spawn(c, k).0[i] == (c.next + i) % U32Modulus
    ensures Spawn(c, k).1.next == (c.next + k) % U32Modulus
  {
    if k > 0 {
      SpawnIds(c, k - 1);
      var c1 := Spawn(c, k - 1).1;
      assert c1.next == (c.next + k - 1) % U32Modulus;
      assert (c1.next + 1) % U32Modulus == (c.next + k) % U32Modulus;
    }
  }

  /**
   * After a reset, the first 2^32 spheres receive the ids 0, 1, 2, ... and
   * so are pairwise distinct; the next one would repeat id 0.
   */
  lemma SpawnAfterReset(k: nat)
    requires k <= U32Modulus
    ensures forall i :: 0 <= i < k ==> Spawn(ResetCounter(), k).0[i] == i
    ensures forall i, j :: 0 <= i < j < k ==> Spawn(ResetCounter(), k).0[i] != Spawn(ResetCounter(), k).0[j]
    ensures k == U32Modulus ==> Spawn(ResetCounter(), k).1.next == 0
  {
    var r := Spawn(ResetCounter(), k);
    SpawnIds(ResetCounter(), k);
    assert ResetCounter().next == 0;
    forall i | 0 <= i < k
      ensures r.0[i] == i
    {
      assert r.0[i] == (0 + i) % U32Modulus;
    }
    if k == U32Modulus {
      assert r.1.next == (0 + k) % U32Modulus;
    }
  }

  /** The bare sphere of the earliest version: only an id. */
  datatype BareSphere = BareSphere(id: nat)

  /** Its `Sphere::new`: the counter's id. */
  function NewBareSphere(c: Counter): (r: (BareSphere, Counter))
    requires c.Valid()
    ensures r.0.id == c.next && r.1 == FetchAdd(c).1
  {
    var (id, next) := FetchAdd(c);
    (BareSphere(id), next)
  }

  /**
   * `intersect` of the bare sphere: the same quadratic, but each root is
   * divided by 2a rather than multiplied by its reciprocal.
   */
  function BareIntersect(num: Numerics, s: BareSphere, ray: Ray): (xs: seq<Intersection>)
    requires num.Valid() && Dot(ray.direction, ray.direction) != 0.0
    ensures xs == Spheres.LocalIntersect(num, Spheres.New().(id := s.id), ray)
  {
    var q := Spheres.Coefficients(ray);
    var discriminant := q.Discriminant();
    if discriminant < 0.0 then []
    else
      var t1 := (-q.b - num.sqrt(discriminant)) / (2.0 * q.a);
      var t2 := (-q.b + num.sqrt(discriminant)) / (2.0 * q.a);
      var xs := [Intersections.New(t1, s.id), Intersections.New(t2, s.id)];
      BareRootsAgree(num, s, ray, t1, t2);
      xs
  }

  /** Dividing by 2a gives the same roots as multiplying by 1 / 2a. */
  lemma BareRootsAgree(num: Numerics, s: BareSphere, ray: Ray, t1: real, t2: real)
    requires num.Valid() && Dot(ray.direction, ray.direction) != 0.0
    requires Spheres.Coefficients(ray).Discriminant() >= 0.0
    requires var q := Spheres.Coefficients(ray);
      && t1 == (-q.b - num.sqrt(q.Discriminant())) / (2.0 * q.a)
      && t2 == (-q.b + num.sqrt(q.Discriminant())) / (2.0 * q.a)
    ensures Spheres.LocalIntersect(num, Spheres.New().(id := s.id), ray) == [Intersections.New(t1, s.id), Intersections.New(t2, s.id)]
  {
    var q := Spheres.Coefficients(ray);
    var root := num.sqrt(q.Discriminant());
    var a2 := 2.0 * q.a;
    DivideByReciprocal(-q.b - root, a2);
    DivideByReciprocal(-q.b + root, a2);
    var d := Spheres.New().(id := s.id);
    Spheres.LocalIntersectRoots(num, d, ray, t1, t2);
    var xs := Spheres.LocalIntersect(num, d, ray);
    assert xs == [xs[0], xs[1]];
  }

  /** Dividing is multiplying by the reciprocal, over plain numbers. */
  lemma DivideByReciprocal(x: real, a: real)
    requires a != 0.0
    ensures x / a == x * (1.0 / a)
  {
  }

  /** A root larger than |b| in magnitude: r^2 > b^2 with r >= 0. */
  lemma RootExceeds(b: real, r: real)
    requires r >= 0.0 && r * r > b * b
    ensures r > b && r > -b
  {
  }

  /** A root smaller than b: r^2 < b^2 with r >= 0 and b > 0. */
  lemma RootBelow(b: real, r: real)
    requires r >= 0.0 && b > 0.0 && r * r < b * b
    ensures r < b
  {
  }

  /**
   * A ray starting inside the sphere meets it once behind and once ahead
   * of its origin.
   */
  lemma StartInside(num: Numerics, s: BareSphere, ray: Ray)
    requires num.Valid() && Dot(ray.direction, ray.direction) != 0.0
    requires var o := Sub(ray.origin, Point(0.0, 0.0, 0.0)); Dot(o, o) < 1.0
    ensures var xs := BareIntersect(num, s, ray); |xs| == 2 && xs[0].t < 0.0 < xs[1].t
  {
    var q := Spheres.Coefficients(ray);
    Spheres.DotSelfNonnegative(ray.direction);
    assert q.a > 0.0 && q.c < 0.0;
    assert 4.0 * q.a * q.c < 0.0;
    var root := num.sqrt(q.Discriminant());
    RootExceeds(q.b, root);
    var k := 1.0 / (2.0 * q.a);
    assert k > 0.0;
    assert (-q.b - root) * k < 0.0;
    assert (-q.b + root) * k > 0.0;
  }

  /**
   * A ray starting outside the sphere and pointing away from its centre
   * meets it, if at all, only behind its origin.
   */
  lemma SphereBehind(num: Numerics, s: BareSphere, ray: Ray)
    requires num.Valid() && Dot(ray.direction, ray.direction) != 0.0
    requires var o := Sub(ray.origin, Point(0.0, 0.0, 0.0)); Dot(o, o) > 1.0 && Dot(ray.direction, o) > 0.0
    ensures var xs := BareIntersect(num, s, ray); forall i :: 0 <= i < |xs| ==> xs[i].t < 0.0
  {
    var q := Spheres.Coefficients(ray);
    Spheres.DotSelfNonnegative(ray.direction);
    assert q.a > 0.0 && q.c > 0.0 && q.b > 0.0;
    if q.Discriminant() >= 0.0 {
      assert 4.0 * q.a * q.c > 0.0;
      var root := num.sqrt(q.Discriminant());
      RootBelow(q.b, root);
      var k := 1.0 / (2.0 * q.a);
      assert k > 0.0;
      assert (-q.b - root) * k < 0.0;
      assert (-q.b + root) * k < 0.0;
    }
  }
}
