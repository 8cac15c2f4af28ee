/**
 * The older stand-alone stripe pattern: two colours and a transform, with
 * no cached inverse.
 */
module StripePatterns {
  import opened Tuples
  import opened Matrices
  import opened Colours
  import opened Patterns
  import Striped

  datatype StripePattern = StripePattern(a: Colour, b: Colour, transform: Matrix)

  /** `StripePattern::new`: the two colours and the identity transform. */
  function New(a: Colour, b: Colour): (p: StripePattern)
    ensures p.a == a && p.b == b && p.transform == Identity()
  {
    StripePattern(a, b, Identity())
  }

  /** `stripe_at`: `a` where floor(x) is even, `b` where odd; y and z are ignored. */
  function StripeAt(p: StripePattern, point: Tuple): (c: Colour)
    ensures c == Striped.StripeColour(p.a, p.b, point.x)
  {
    if point.x.Floor % 2 == 0 then p.a else p.b
  }

  /** The same stripes as the newer pattern with the same colours. */
  lemma StripeAtMatchesStriped(p: StripePattern, d: PatternData, point: Tuple)
    requires d.a == p.a && d.b == p.b
    ensures StripeAt(p, point) == Striped.PatternAt(d, point)
  {
  }

  /** `stripe_at_object`: through the shape's inverse, then the inverse of the pattern transform. */
  function StripeAtObject(p: StripePattern, shapeInverse: Matrix, world: Tuple): (c: Colour)
    requires Transform4(p.transform) && Invertible(p.transform) && Transform4(shapeInverse)
    ensures c == p.a || c == p.b
    ensures c == StripeAt(p, MulTuple(Inverse(p.transform), MulTuple(shapeInverse, world)))
  {
    var objectPoint := MulTuple(shapeInverse, world);
    var patternPoint := MulTuple(Inverse(p.transform), objectPoint);
    StripeAt(p, patternPoint)
  }

  /** `set_pattern_transform`: replaces the transform and keeps the colours. */
  function SetPatternTransform(p: StripePattern, t: Matrix): (q: StripePattern)
    ensures q.transform == t && q.a == p.a && q.b == p.b
  {
    p.(transform := t)
  }
}
