/**
 * Homogeneous 4-tuples (points have w = 1, vectors have w = 0) and the
 * floating-point primitives the ray tracer takes from the platform.
 *
 * The model works over exact reals. `sqrt` and `powf` are not computable
 * here, so they travel as fields of a `Numerics` record; `Valid` states
 * the only facts any proof relies on.
 */
module Tuples {

  /** The platform numerics the source calls (`f64::sqrt`, `f64::powf`). */
  datatype Numerics = Numerics(sqrt: real -> real, powf: (real, real) -> real)
  {
    /** The square root is the non-negative root; one to any power is one. */
    ghost predicate Valid()
    {
      && (forall x: real {:trigger sqrt(x)} :: 0.0 <= x ==> 0.0 <= sqrt(x) && sqrt(x) * sqrt(x) == x)
      && (forall e: real {:trigger powf(1.0, e)} :: powf(1.0, e) == 1.0)
    }
  }

  /** A square root is unique: the non-negative real whose square is x. */
  lemma SqrtOf(num: Numerics, x: real, r: real)
    requires num.Valid()
    requires 0.0 <= r && r * r == x
    ensures num.sqrt(x) == r
  {
    var s := num.sqrt(x);
    assert 0.0 <= s && s * s == x;
    assert (s - r) * (s + r) == 0.0;
    if s + r == 0.0 {
      assert s == 0.0 && r == 0.0;
    } else {
      assert s - r == ((s - r) * (s + r)) / (s + r);
    }
  }

  datatype Tuple = Tuple(x: real, y: real, z: real, w: real)

  /** `Tuple::point`: w is 1. */
  function Point(x: real, y: real, z: real): (t: Tuple)
    ensures t.x == x && t.y == y && t.z == z && t.w == 1.0
    ensures IsPoint(t) && !IsVector(t)
  {
    Tuple(x, y, z, 1.0)
  }

  /** `Tuple::vector`: w is 0. */
  function Vector(x: real, y: real, z: real): (t: Tuple)
    ensures t.x == x && t.y == y && t.z == z && t.w == 0.0
    ensures IsVector(t) && !IsPoint(t)
  {
    Tuple(x, y, z, 0.0)
  }

  predicate IsPoint(t: Tuple)
  {
    t.w == 1.0
  }

  predicate IsVector(t: Tuple)
  {
    t.w == 0.0
  }

  /** No tuple is both a point and a vector, and w outside {0, 1} makes it neither. */
  lemma PointVectorExclusive(t: Tuple)
    ensures !(IsPoint(t) && IsVector(t))
    ensures t.w != 0.0 && t.w != 1.0 ==> !IsPoint(t) && !IsVector(t)
  {
  }

  function Add(a: Tuple, b: Tuple): Tuple
  {
    Tuple(a.x + b.x, a.y + b.y, a.z + b.z, a.w + b.w)
  }

  function Sub(a: Tuple, b: Tuple): Tuple
  {
    Tuple(a.x - b.x, a.y - b.y, a.z - b.z, a.w - b.w)
  }

  function Neg(a: Tuple): Tuple
  {
    Tuple(-a.x, -a.y, -a.z, -a.w)
  }

  function Scale(a: Tuple, k: real): Tuple
  {
    Tuple(a.x * k, a.y * k, a.z * k, a.w * k)
  }

  function Dot(a: Tuple, b: Tuple): real
  {
    a.x * b.x + a.y * b.y + a.z * b.z + a.w * b.w
  }

  /** The cross product of the x, y, z parts; always a vector. */
  function Cross(a: Tuple, b: Tuple): Tuple
  {
    Vector(a.y * b.z - a.z * b.y, a.z * b.x - a.x * b.z, a.x * b.y - a.y * b.x)
  }

  function Magnitude(num: Numerics, a: Tuple): real
  {
    num.sqrt(Dot(a, a))
  }

  /**
   * `a / |a|`. The zero tuple, which has no direction, is left as it is.
   */
  function Normalise(num: Numerics, a: Tuple): (r: Tuple)
    requires num.Valid()
    ensures Dot(a, a) != 0.0 ==> Dot(r, r) == 1.0
    ensures a.w == 0.0 ==> r.w == 0.0
  {
    var m := Magnitude(num, a);
    if m == 0.0 then a
    else
      var r := Scale(a, 1.0 / m);
      NormaliseUnit(a, m);
      r
  }

  lemma NormaliseUnit(a: Tuple, m: real)
    requires m != 0.0 && m * m == Dot(a, a)
    ensures Dot(Scale(a, 1.0 / m), Scale(a, 1.0 / m)) == 1.0
  {
    var k := 1.0 / m;
    calc {
      Dot(Scale(a, k), Scale(a, k));
      (a.x * a.x + a.y * a.y + a.z * a.z + a.w * a.w) * (k * k);
      Dot(a, a) * (k * k);
      (m * m) * (k * k);
      (m * k) * (m * k);
    }
    assert m * k == 1.0;
  }

  /** Knowing the magnitude m > 0 of `a`, normalising divides by it. */
  lemma NormaliseByMagnitude(num: Numerics, a: Tuple, m: real)
    requires num.Valid() && 0.0 < m && m * m == Dot(a, a)
    ensures Normalise(num, a) == Scale(a, 1.0 / m)
  {
    SqrtOf(num, Dot(a, a), m);
  }

  /** Scaling by d and then by 1 / d gives the tuple back. */
  lemma ScaleBack(a: Tuple, d: real)
    requires d != 0.0
    ensures Scale(Scale(a, d), 1.0 / d) == a
  {
    var k := 1.0 / d;
    assert d * k == 1.0;
    assert a.x * d * k == a.x && a.y * d * k == a.y;
    assert a.z * d * k == a.z && a.w * d * k == a.w;
  }

  /** Reflects `v` about the normal `n`: v - 2 (v . n) n. */
  function Reflect(v: Tuple, n: Tuple): Tuple
  {
    Sub(v, Scale(n, 2.0 * Dot(v, n)))
  }
}
