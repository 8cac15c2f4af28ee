/**
 * The gradient pattern: a linear blend from `a` to `b` across each unit
 * interval of x, starting again at every integer.
 */
module Gradient {
  import opened Tuples
  import opened Matrices
  import opened Colours
  import opened Patterns

  /** `Gradient::new`: the colours with identity transform and inverse. */
  function New(a: Colour, b: Colour): (p: PatternData)
    ensures p == NewData(a, b)
  {
    NewData(a, b)
  }

  /** The fractional part of x, always in [0, 1). */
  function Frac(x: real): (f: real)
    ensures 0.0 <= f < 1.0
    ensures (x - f).Floor as real == x - f
  {
    x - x.Floor as real
  }

  /** `pattern_at`: a + (b - a) * frac(x). */
  function PatternAt(p: PatternData, point: Tuple): (c: Colour)
    ensures c == Colours.Add(p.a, Colours.Scale(Colours.Sub(p.b, p.a), Frac(point.x)))
  {
    var dist := Colours.Sub(p.b, p.a);
    var frac := point.x - point.x.Floor as real;
    Colours.Add(p.a, Colours.Scale(dist, frac))
  }

  predicate Between(v: real, lo: real, hi: real)
  {
    (lo <= v <= hi) || (hi <= v <= lo)
  }

  /** Each channel lies between the corresponding channels of `a` and `b`. */
  lemma GradientBetween(p: PatternData, point: Tuple)
    ensures Between(PatternAt(p, point).r, p.a.r, p.b.r)
    ensures Between(PatternAt(p, point).g, p.a.g, p.b.g)
    ensures Between(PatternAt(p, point).b, p.a.b, p.b.b)
  {
    var f := Frac(point.x);
    BlendBetween(p.a.r, p.b.r, f);
    BlendBetween(p.a.g, p.b.g, f);
    BlendBetween(p.a.b, p.b.b, f);
  }

  lemma BlendBetween(lo: real, hi: real, f: real)
    requires 0.0 <= f <= 1.0
    ensures Between(lo + (hi - lo) * f, lo, hi)
  {
    var d := hi - lo;
    if lo <= hi {
      NonnegativeProduct(d, f);
      NonnegativeProduct(d, 1.0 - f);
      assert d * f + d * (1.0 - f) == d;
    } else {
      NonnegativeProduct(-d, f);
      NonnegativeProduct(-d, 1.0 - f);
      assert (-d) * f + (-d) * (1.0 - f) == -d;
    }
  }

  lemma NonnegativeProduct(u: real, v: real)
    requires 0.0 <= u && 0.0 <= v
    ensures 0.0 <= u * v
  {
  }

  /** At integer x the result is exactly `a`. */
  lemma GradientAtInteger(p: PatternData, point: Tuple, n: int)
    requires point.x == n as real
    ensures PatternAt(p, point) == p.a
  {
    assert point.x.Floor == n;
  }

  /** The result repeats every unit in x and ignores y and z. */
  lemma GradientPeriodic(p: PatternData, point: Tuple, q: Tuple)
    requires q.x == point.x + 1.0
    ensures PatternAt(p, q) == PatternAt(p, point)
  {
    assert q.x.Floor == point.x.Floor + 1;
  }

  /** From white to black: a quarter of the way gives 0.75, half 0.5, three quarters 0.25. */
  lemma GradientWhiteToBlack(p: PatternData, point: Tuple)
    requires p.a == White() && p.b == Black()
    requires point.x == 0.25 || point.x == 0.5 || point.x == 0.75
    ensures PatternAt(p, point) == Colour(1.0 - point.x, 1.0 - point.x, 1.0 - point.x)
  {
    assert point.x.Floor == 0;
    assert Frac(point.x) == point.x;
  }

  /**
   * The pattern's colour at a world point: the blend at the fractional
   * part of the pattern-space x, so every channel lies between those of
   * `a` and `b`.
   */
  function PatternAtShape(p: PatternData, shapeInverse: Matrix, world: Tuple): (c: Colour)
    requires WellShaped(p) && Transform4(shapeInverse)
    ensures var q := PatternPoint(p, shapeInverse, world);
      c == Colours.Add(p.a, Colours.Scale(Colours.Sub(p.b, p.a), Frac(q.x)))
    ensures Between(c.r, p.a.r, p.b.r) && Between(c.g, p.a.g, p.b.g) && Between(c.b, p.a.b, p.b.b)
  {
    var q := PatternPoint(p, shapeInverse, world);
    GradientBetween(p, q);
    PatternAt(p, q)
  }

  /** Two world points whose pattern-space x differ by 1 get the same colour. */
  lemma PatternAtShapePeriodic(p: PatternData, shapeInverse: Matrix, world: Tuple, other: Tuple)
    requires WellShaped(p) && Transform4(shapeInverse)
    requires PatternPoint(p, shapeInverse, other).x == PatternPoint(p, shapeInverse, world).x + 1.0
    ensures PatternAtShape(p, shapeInverse, other) == PatternAtShape(p, shapeInverse, world)
  {
    GradientPeriodic(p, PatternPoint(p, shapeInverse, world), PatternPoint(p, shapeInverse, other));
  }
}
