/**
 * The ring pattern: concentric bands around the y axis, alternating by
 * the parity of floor(sqrt(x^2 + z^2)). The band index is also
 * characterised without square roots: it is the n with
 * n^2 <= x^2 + z^2 < (n + 1)^2.
 */
module Ring {
  import opened Tuples
  import opened Matrices
  import opened Colours
  import opened Patterns

  /** `Ring::new`: the colours with identity transform and inverse. */
  function New(a: Colour, b: Colour): (p: PatternData)
    ensures p == NewData(a, b)
  {
    NewData(a, b)
  }

  /** The squared distance from the y axis. */
  function RadiusSquared(point: Tuple): (s: real)
    ensures s >= 0.0
  {
    point.x * point.x + point.z * point.z
  }

  /** `pattern_at`: the parity of the floor of the distance from the y axis. */
  function PatternAt(num: Numerics, p: PatternData, point: Tuple): (c: Colour)
    ensures c == p.a || c == p.b
  {
    if num.sqrt(RadiusSquared(point)).Floor % 2 == 0 then p.a else p.b
  }

  /** Searches upward from n for the band that contains s. */
  function RingIndexFrom(s: real, n: nat): (k: nat)
    requires (n * n) as real <= s
    ensures n <= k
    ensures (k * k) as real <= s < ((k + 1) * (k + 1)) as real
    decreases s.Floor - n
  {
    if s < ((n + 1) * (n + 1)) as real then n
    else
      assert n <= n * n;
      RingIndexFrom(s, n + 1)
  }

  /** The band index of s >= 0: the n with n^2 <= s < (n + 1)^2. */
  function RingIndex(s: real): (n: nat)
    requires s >= 0.0
    ensures (n * n) as real <= s < ((n + 1) * (n + 1)) as real
  {
    RingIndexFrom(s, 0)
  }

  lemma SquareMonotone(m: nat, n: nat)
    requires m <= n
    ensures m * m <= n * n
  {
    assert m * m <= m * n <= n * n;
  }

  /** At most one natural n has n^2 <= s < (n + 1)^2. */
  lemma RingIndexUnique(s: real, m: nat, n: nat)
    requires (m * m) as real <= s < ((m + 1) * (m + 1)) as real
    requires (n * n) as real <= s < ((n + 1) * (n + 1)) as real
    ensures m == n
  {
    if m < n {
      SquareMonotone(m + 1, n);
    } else if n < m {
      SquareMonotone(n + 1, m);
    }
  }

  lemma MulMonotone(a: real, b: real, c: real)
    requires 0.0 <= c && a <= b
    ensures a * c <= b * c
  {
  }

  lemma PositiveProduct(u: real, v: real)
    requires 0.0 < u && 0.0 < v
    ensures 0.0 < u * v
  {
  }

  lemma SquareStrict(r: real, q: real)
    requires 0.0 <= r < q
    ensures r * r < q * q
  {
    PositiveProduct(q - r, q + r);
    assert (q - r) * (q + r) == q * q - r * r;
  }

  /** Squaring preserves the order of non-negative reals. */
  lemma SquareBetween(k: nat, r: real)
    requires k as real <= r < k as real + 1.0
    ensures (k * k) as real <= r * r < ((k + 1) * (k + 1)) as real
  {
    var kr := k as real;
    var k1 := (k + 1) as real;
    MulMonotone(kr, r, kr);
    MulMonotone(kr, r, r);
    SquareStrict(r, k1);
    assert (k * k) as real == kr * kr;
    assert ((k + 1) * (k + 1)) as real == k1 * k1;
  }

  /** The floor of the square root of s >= 0 is its band index. */
  lemma FloorSqrtIsRingIndex(num: Numerics, s: real)
    requires num.Valid() && s >= 0.0
    ensures num.sqrt(s).Floor == RingIndex(s)
  {
    var r := num.sqrt(s);
    assert 0.0 <= r && r * r == s;
    var k: nat := r.Floor;
    SquareBetween(k, r);
    RingIndexUnique(s, k, RingIndex(s));
  }

  /** The ring colour is `a` exactly when the band index of x^2 + z^2 is even. */
  lemma RingByBand(num: Numerics, p: PatternData, point: Tuple)
    requires num.Valid()
    ensures PatternAt(num, p, point) == if RingIndex(RadiusSquared(point)) % 2 == 0 then p.a else p.b
  {
    FloorSqrtIsRingIndex(num, RadiusSquared(point));
  }

  /** The colour depends only on x^2 + z^2: y, the signs of x and z, and their order do not matter. */
  lemma RingSymmetric(num: Numerics, p: PatternData, point: Tuple)
    ensures PatternAt(num, p, point.(y := 0.0)) == PatternAt(num, p, point)
    ensures PatternAt(num, p, point.(x := -point.x)) == PatternAt(num, p, point)
    ensures PatternAt(num, p, point.(z := -point.z)) == PatternAt(num, p, point)
    ensures PatternAt(num, p, point.(x := point.z, z := point.x)) == PatternAt(num, p, point)
  {
    assert RadiusSquared(point.(y := 0.0)) == RadiusSquared(point);
    assert RadiusSquared(point.(x := -point.x)) == RadiusSquared(point);
    assert RadiusSquared(point.(z := -point.z)) == RadiusSquared(point);
    assert RadiusSquared(point.(x := point.z, z := point.x)) == RadiusSquared(point);
  }

  /** A point whose squared radius lies in [n^2, (n + 1)^2) gets the colour of band n. */
  lemma RingInBand(num: Numerics, p: PatternData, point: Tuple, n: nat)
    requires num.Valid()
    requires (n * n) as real <= RadiusSquared(point) < ((n + 1) * (n + 1)) as real
    ensures PatternAt(num, p, point) == if n % 2 == 0 then p.a else p.b
  {
    RingByBand(num, p, point);
    RingIndexUnique(RadiusSquared(point), n, RingIndex(RadiusSquared(point)));
  }

  /** The origin is in band 0. */
  lemma RingAtOrigin(num: Numerics, p: PatternData)
    requires num.Valid()
    ensures PatternAt(num, p, Point(0.0, 0.0, 0.0)) == p.a
  {
    RingInBand(num, p, Point(0.0, 0.0, 0.0), 0);
  }

  /** (1, 0, 0), (0, 0, 1) and (0.708, 0, 0.708) are in band 1. */
  lemma RingBandOne(num: Numerics, p: PatternData, point: Tuple)
    requires num.Valid()
    requires point == Point(1.0, 0.0, 0.0) || point == Point(0.0, 0.0, 1.0) || point == Point(0.708, 0.0, 0.708)
    ensures PatternAt(num, p, point) == p.b
  {
    var s := RadiusSquared(point);
    if point == Point(0.708, 0.0, 0.708) {
      assert s == 1.002528;
    } else {
      assert s == 1.0;
    }
    assert (1 * 1) as real <= s < (2 * 2) as real;
    RingInBand(num, p, point, 1);
  }

  /** The pattern's colour at a world point. */
  function PatternAtShape(num: Numerics, p: PatternData, shapeInverse: Matrix, world: Tuple): (c: Colour)
    requires WellShaped(p) && Transform4(shapeInverse)
    ensures c == p.a || c == p.b
    ensures c == PatternAt(num, p, PatternPoint(p, shapeInverse, world))
  {
    PatternAt(num, p, PatternPoint(p, shapeInverse, world))
  }

  /** At a world point the ring colour is `a` exactly when the band of the pattern point's x^2 + z^2 is even. */
  lemma PatternAtShapeByBand(num: Numerics, p: PatternData, shapeInverse: Matrix, world: Tuple)
    requires num.Valid() && WellShaped(p) && Transform4(shapeInverse)
    ensures var q := PatternPoint(p, shapeInverse, world);
      PatternAtShape(num, p, shapeInverse, world) == if RingIndex(RadiusSquared(q)) % 2 == 0 then p.a else p.b
  {
    RingByBand(num, p, PatternPoint(p, shapeInverse, world));
  }
}
