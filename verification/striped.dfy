/**
 * The stripe pattern: colour `a` on bands where floor(x) is even and `b`
 * where it is odd; y and z play no part.
 */
module Striped {
  import opened Tuples
  import opened Matrices
  import opened Colours
  import opened Patterns

  /** The band of x: `a` when floor(x) is even, `b` when odd (negative x included). */
  function StripeColour(a: Colour, b: Colour, x: real): (c: Colour)
    ensures c == a || c == b
  {
    if x.Floor % 2 == 0 then a else b
  }

  /** Every x in [n, n + 1) lies in band n, whose parity picks the colour. */
  lemma StripeBand(a: Colour, b: Colour, x: real, n: int)
    requires n as real <= x < n as real + 1.0
    ensures StripeColour(a, b, x) == if n % 2 == 0 then a else b
  {
    assert x.Floor == n;
  }

  /** Moving two bands along x keeps the colour; moving one swaps it. */
  lemma StripeShift(a: Colour, b: Colour, x: real)
    ensures StripeColour(a, b, x + 2.0) == StripeColour(a, b, x)
    ensures StripeColour(a, b, x + 1.0) == if StripeColour(a, b, x) == a then b else a
  {
    var n := x.Floor;
    StripeBand(a, b, x + 2.0, n + 2);
    StripeBand(a, b, x + 1.0, n + 1);
    StripeBand(a, b, x, n);
  }

  /** `Striped::new`: the colours with identity transform and inverse. */
  function New(a: Colour, b: Colour): (p: PatternData)
    ensures p == NewData(a, b)
  {
    NewData(a, b)
  }

  /** `pattern_at`: the band of the point's x coordinate. */
  function PatternAt(p: PatternData, point: Tuple): (c: Colour)
    ensures c == StripeColour(p.a, p.b, point.x)
  {
    StripeColour(p.a, p.b, point.x)
  }

  /** `stripe_at`: the same test as `pattern_at`, so the two agree everywhere. */
  function StripeAt(p: PatternData, point: Tuple): (c: Colour)
    ensures c == PatternAt(p, point)
  {
    if point.x.Floor % 2 == 0 then p.a else p.b
  }

  /** `pattern_at_shape`: the stripe at the world point mapped into pattern space. */
  function PatternAtShape(p: PatternData, shapeInverse: Matrix, world: Tuple): (c: Colour)
    requires WellShaped(p) && Transform4(shapeInverse)
    ensures var q := PatternPoint(p, shapeInverse, world);
      (q.x.Floor % 2 == 0 ==> c == p.a) && (q.x.Floor % 2 != 0 ==> c == p.b)
  {
    PatternAt(p, PatternPoint(p, shapeInverse, world))
  }

  /**
   * `stripe_at_object`: like `pattern_at_shape`, but the pattern inverse is
   * recomputed from the transform instead of read from the cache.
   */
  function StripeAtObject(p: PatternData, shapeInverse: Matrix, world: Tuple): (c: Colour)
    requires Transform4(p.transform) && Invertible(p.transform) && Transform4(shapeInverse)
    ensures c == p.a || c == p.b
  {
    var objectPoint := MulTuple(shapeInverse, world);
    var patternPoint := MulTuple(Inverse(p.transform), objectPoint);
    StripeAt(p, patternPoint)
  }

  /** While the cache is consistent, both routes to pattern space agree. */
  lemma StripeAtObjectAgrees(p: PatternData, shapeInverse: Matrix, world: Tuple)
    requires Consistent(p) && WellShaped(p) && Transform4(shapeInverse)
    ensures StripeAtObject(p, shapeInverse, world) == PatternAtShape(p, shapeInverse, world)
  {
  }

  /**
   * `set_pattern_transform`: overwrites the transform only. The cached
   * inverse is left as it was.
   */
  function SetPatternTransform(p: PatternData, t: Matrix): (q: PatternData)
    ensures q.transform == t
    ensures q.a == p.a && q.b == p.b && q.inverse == p.inverse
  {
    p.(transform := t)
  }

  /** Hence `pattern_at_shape`, which reads the cache, does not see the new transform. */
  lemma SetPatternTransformIgnoredByCache(p: PatternData, t: Matrix, shapeInverse: Matrix, world: Tuple)
    requires WellShaped(p) && Transform4(t) && Transform4(shapeInverse)
    ensures WellShaped(SetPatternTransform(p, t))
    ensures PatternAtShape(SetPatternTransform(p, t), shapeInverse, world) == PatternAtShape(p, shapeInverse, world)
  {
  }

  /** Whereas `stripe_at_object` follows the new transform. */
  lemma SetPatternTransformSeenByObject(p: PatternData, t: Matrix, shapeInverse: Matrix, world: Tuple)
    requires Transform4(t) && Invertible(t) && Transform4(shapeInverse)
    ensures StripeAtObject(SetPatternTransform(p, t), shapeInverse, world)
      == StripeColour(p.a, p.b, MulTuple(Inverse(t), MulTuple(shapeInverse, world)).x)
  {
  }

  /** The stripes at x = -0.1 and x = -1.1: floor goes down, so -0.1 is odd. */
  lemma StripeNegativeX(a: Colour, b: Colour)
    ensures StripeColour(a, b, -0.1) == b
    ensures StripeColour(a, b, -1.1) == a
    ensures StripeColour(a, b, 0.9) == a && StripeColour(a, b, 1.0) == b
  {
    StripeBand(a, b, -0.1, -1);
    StripeBand(a, b, -1.1, -2);
    StripeBand(a, b, 0.9, 0);
    StripeBand(a, b, 1.0, 1);
  }
}
