/**
 * The checker pattern: unit cubes alternate between `a` and `b` by the
 * parity of floor(x) + floor(y) + floor(z).
 */
module Checkered {
  import opened Tuples
  import opened Matrices
  import opened Colours
  import opened Patterns

  /** `Checkered::new`: the colours with identity transform and inverse. */
  function New(a: Colour, b: Colour): (p: PatternData)
    ensures p == NewData(a, b)
  {
    NewData(a, b)
  }

  /** `pattern_at`: `a` when the floors of the coordinates sum to an even number. */
  function PatternAt(p: PatternData, point: Tuple): (c: Colour)
    ensures c == p.a || c == p.b
  {
    var sum := point.x.Floor + point.y.Floor + point.z.Floor;
    if sum % 2 == 0 then p.a else p.b
  }

  /** The cube [i, i+1) x [j, j+1) x [k, k+1) has the colour of the parity of i + j + k. */
  lemma CheckerCube(p: PatternData, point: Tuple, i: int, j: int, k: int)
    requires i as real <= point.x < i as real + 1.0
    requires j as real <= point.y < j as real + 1.0
    requires k as real <= point.z < k as real + 1.0
    ensures PatternAt(p, point) == if (i + j + k) % 2 == 0 then p.a else p.b
  {
    assert point.x.Floor == i && point.y.Floor == j && point.z.Floor == k;
  }

  /** Stepping one cube along any single axis swaps the colour. */
  lemma CheckerNeighbours(p: PatternData, point: Tuple)
    ensures PatternAt(p, point.(x := point.x + 1.0)) == if PatternAt(p, point) == p.a then p.b else p.a
    ensures PatternAt(p, point.(y := point.y + 1.0)) == if PatternAt(p, point) == p.a then p.b else p.a
    ensures PatternAt(p, point.(z := point.z + 1.0)) == if PatternAt(p, point) == p.a then p.b else p.a
  {
    var i, j, k := point.x.Floor, point.y.Floor, point.z.Floor;
    var s := i + j + k;
    Parity(s);
    CheckerCube(p, point, i, j, k);
    CheckerCube(p, point.(x := point.x + 1.0), i + 1, j, k);
    assert (i + 1) + j + k == s + 1;
    CheckerCube(p, point.(y := point.y + 1.0), i, j + 1, k);
    assert i + (j + 1) + k == s + 1;
    CheckerCube(p, point.(z := point.z + 1.0), i, j, k + 1);
    assert i + j + (k + 1) == s + 1;
  }

  /** One more flips the parity; two more keeps it. */
  lemma Parity(s: int)
    ensures ((s + 1) % 2 == 0) == (s % 2 != 0)
    ensures (s + 2) % 2 == s % 2
  {
  }

  /** Stepping two cubes along any single axis keeps the colour. */
  lemma CheckerPeriod(p: PatternData, point: Tuple)
    ensures PatternAt(p, point.(x := point.x + 2.0)) == PatternAt(p, point)
    ensures PatternAt(p, point.(y := point.y + 2.0)) == PatternAt(p, point)
    ensures PatternAt(p, point.(z := point.z + 2.0)) == PatternAt(p, point)
  {
    var i, j, k := point.x.Floor, point.y.Floor, point.z.Floor;
    var s := i + j + k;
    Parity(s);
    CheckerCube(p, point, i, j, k);
    CheckerCube(p, point.(x := point.x + 2.0), i + 2, j, k);
    assert (i + 2) + j + k == s + 2;
    CheckerCube(p, point.(y := point.y + 2.0), i, j + 2, k);
    assert i + (j + 2) + k == s + 2;
    CheckerCube(p, point.(z := point.z + 2.0), i, j, k + 2);
    assert i + j + (k + 2) == s + 2;
  }

  /** The pattern's colour at a world point. */
  function PatternAtShape(p: PatternData, shapeInverse: Matrix, world: Tuple): (c: Colour)
    requires WellShaped(p) && Transform4(shapeInverse)
    ensures var q := PatternPoint(p, shapeInverse, world);
      var sum := q.x.Floor + q.y.Floor + q.z.Floor;
      (sum % 2 == 0 ==> c == p.a) && (sum % 2 != 0 ==> c == p.b)
  {
    PatternAt(p, PatternPoint(p, shapeInverse, world))
  }
}
