/**
 * What every pattern shares: two colours, a transform and its cached
 * inverse, and the two-stage mapping from a world point to pattern space
 * (through the shape's inverse first, then the pattern's).
 */
module Patterns {
  import opened Tuples
  import opened Matrices
  import opened Inversion
  import opened InverseFour
  import opened Colours

  datatype PatternData = PatternData(a: Colour, b: Colour, transform: Matrix, inverse: Matrix)

  /** The cached inverse is the inverse of the transform. */
  ghost predicate Consistent(p: PatternData)
  {
    Invertible(p.transform) && p.inverse == Inverse(p.transform)
  }

  /** Both matrices are 4x4, so points can be mapped through them. */
  ghost predicate WellShaped(p: PatternData)
  {
    Transform4(p.transform) && Transform4(p.inverse)
  }

  /** The data every pattern constructor builds: the colours, identity transform and inverse. */
  function NewData(a: Colour, b: Colour): (p: PatternData)
    ensures p.a == a && p.b == b
    ensures p.transform == Identity() && p.inverse == Identity()
    ensures Consistent(p) && WellShaped(p)
  {
    InverseIdentity();
    PatternData(a, b, Identity(), Inverse(Identity()))
  }

  /** `Pattern::set_transform`: stores the transform with its inverse, keeps the colours. */
  function SetTransform(p: PatternData, t: Matrix): (q: PatternData)
    requires Invertible(t) && Transform4(t)
    ensures q.a == p.a && q.b == p.b && q.transform == t
    ensures Consistent(q) && WellShaped(q)
  {
    p.(transform := t, inverse := Inverse(t))
  }

  /**
   * The first half of `pattern_at_shape`: the world point taken into
   * object space by the shape's inverse, then into pattern space by the
   * pattern's inverse.
   */
  function PatternPoint(p: PatternData, shapeInverse: Matrix, world: Tuple): (q: Tuple)
    requires WellShaped(p) && Transform4(shapeInverse)
    ensures q == MulTuple(p.inverse, MulTuple(shapeInverse, world))
  {
    var objectPoint := MulTuple(shapeInverse, world);
    MulTuple(p.inverse, objectPoint)
  }

  /** With identity shape and pattern transforms the world point is the pattern point. */
  lemma PatternPointIdentity(a: Colour, b: Colour, world: Tuple)
    ensures PatternPoint(NewData(a, b), Identity(), world) == world
  {
    IdentityTimesTuple(world);
  }

  /** A point seen through a scaled object is divided by the scale factor. */
  lemma PatternPointObjectScaling(a: Colour, b: Colour, k: real, x: real, y: real, z: real)
    requires k != 0.0
    ensures Invertible(Scaling(k, k, k))
    ensures PatternPoint(NewData(a, b), Inverse(Scaling(k, k, k)), Point(x, y, z)) == Point(x / k, y / k, z / k)
  {
    InverseScalingDivides(k, x, y, z);
    var objectPoint := MulTuple(Inverse(Scaling(k, k, k)), Point(x, y, z));
    IdentityTimesTuple(objectPoint);
    assert PatternPoint(NewData(a, b), Inverse(Scaling(k, k, k)), Point(x, y, z)) == MulTuple(Identity(), objectPoint);
  }

  /** A scaled pattern divides the point by the scale factor the same way. */
  lemma PatternPointPatternScaling(a: Colour, b: Colour, k: real, x: real, y: real, z: real)
    requires k != 0.0
    ensures Invertible(Scaling(k, k, k))
    ensures PatternPoint(SetTransform(NewData(a, b), Scaling(k, k, k)), Identity(), Point(x, y, z)) == Point(x / k, y / k, z / k)
  {
    var s := Scaling(k, k, k);
    InverseScalingDivides(k, x, y, z);
    IdentityTimesTuple(Point(x, y, z));
    var p := SetTransform(NewData(a, b), s);
    PatternPointThrough(p, Identity(), Point(x, y, z), Point(x, y, z), Point(x / k, y / k, z / k));
  }

  /** The pattern point, given the object-space point and its image under the pattern's inverse. */
  lemma PatternPointThrough(p: PatternData, shapeInverse: Matrix, world: Tuple, objectPoint: Tuple, q: Tuple)
    requires WellShaped(p) && Transform4(shapeInverse)
    requires MulTuple(shapeInverse, world) == objectPoint && MulTuple(p.inverse, objectPoint) == q
    ensures PatternPoint(p, shapeInverse, world) == q
  {
  }

  /**
   * The shape's inverse is applied first: with the shape scaled by k and
   * the pattern translated by (x, y, z), the world point k o is o in
   * object space and o - (x, y, z) in pattern space. With k = 2, a shift
   * of (0.5, 1, 1.5) and o = (1.25, 1.5, 1.75), the world point
   * (2.5, 3, 3.5) lands on (0.75, 0.5, 0.25).
   */
  lemma PatternPointScaledShapeShiftedPattern(a: Colour, b: Colour, k: real, x: real, y: real, z: real,
                                              ox: real, oy: real, oz: real)
    requires k != 0.0
    ensures Invertible(Scaling(k, k, k)) && Invertible(Translation(x, y, z))
    ensures PatternPoint(SetTransform(NewData(a, b), Translation(x, y, z)), Inverse(Scaling(k, k, k)), Point(k * ox, k * oy, k * oz))
         == Point(ox - x, oy - y, oz - z)
  {
    InverseTranslation(x, y, z);
    InverseScalingDivides(k, k * ox, k * oy, k * oz);
    assert (k * ox) / k == ox && (k * oy) / k == oy && (k * oz) / k == oz;
    var p := SetTransform(NewData(a, b), Translation(x, y, z));
    PatternPointShifted(p, Inverse(Scaling(k, k, k)), Point(k * ox, k * oy, k * oz), x, y, z, ox, oy, oz);
  }

  /** A pattern translated by (x, y, z) moves the object-space point back by (x, y, z). */
  lemma PatternPointShifted(p: PatternData, shapeInverse: Matrix, world: Tuple, x: real, y: real, z: real,
                            ox: real, oy: real, oz: real)
    requires WellShaped(p) && Transform4(shapeInverse)
    requires p.inverse == Translation(-x, -y, -z) && MulTuple(shapeInverse, world) == Point(ox, oy, oz)
    ensures PatternPoint(p, shapeInverse, world) == Point(ox - x, oy - y, oz - z)
  {
    TranslationMoves(-x, -y, -z, Point(ox, oy, oz));
  }

  /**
   * The pattern point undoes both transforms in order: mapping it back
   * through the pattern's transform and then the shape's gives the world
   * point again.
   */
  lemma PatternPointRoundTrip(p: PatternData, shapeTransform: Matrix, world: Tuple)
    requires Consistent(p) && WellShaped(p) && Invertible(shapeTransform) && shapeTransform.rows == 4
    ensures MulTuple(shapeTransform, MulTuple(p.transform, PatternPoint(p, Inverse(shapeTransform), world))) == world
  {
    var objectPoint := MulTuple(Inverse(shapeTransform), world);
    InverseUndoes(p.transform, objectPoint);
    InverseUndoes(shapeTransform, world);
  }
}
