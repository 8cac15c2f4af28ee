/**
 * The tagged pattern variant a material carries, and its dispatch to the
 * pattern of each kind.
 */
module PatternTypes {
  import opened Tuples
  import opened Matrices
  import opened Colours
  import opened Patterns
  import Striped
  import Gradient
  import Ring
  import Checkered

  datatype PatternType =
    | StripedPattern(data: PatternData)
    | GradientPattern(data: PatternData)
    | RingPattern(data: PatternData)
    | CheckeredPattern(data: PatternData)

  /** `pattern_at_shape`: each variant hands the point to its own pattern. */
  function PatternAtShape(num: Numerics, pt: PatternType, shapeInverse: Matrix, world: Tuple): (c: Colour)
    requires WellShaped(pt.data) && Transform4(shapeInverse)
    ensures pt.StripedPattern? ==> c == Striped.PatternAtShape(pt.data, shapeInverse, world)
    ensures pt.GradientPattern? ==> c == Gradient.PatternAtShape(pt.data, shapeInverse, world)
    ensures pt.RingPattern? ==> c == Ring.PatternAtShape(num, pt.data, shapeInverse, world)
    ensures pt.CheckeredPattern? ==> c == Checkered.PatternAtShape(pt.data, shapeInverse, world)
  {
    match pt
    case StripedPattern(p) => Striped.PatternAtShape(p, shapeInverse, world)
    case GradientPattern(p) => Gradient.PatternAtShape(p, shapeInverse, world)
    case RingPattern(p) => Ring.PatternAtShape(num, p, shapeInverse, world)
    case CheckeredPattern(p) => Checkered.PatternAtShape(p, shapeInverse, world)
  }

  /** Every variant but the gradient yields one of its two colours. */
  lemma TwoColourVariants(num: Numerics, pt: PatternType, shapeInverse: Matrix, world: Tuple)
    requires WellShaped(pt.data) && Transform4(shapeInverse)
    requires !pt.GradientPattern?
    ensures PatternAtShape(num, pt, shapeInverse, world) in {pt.data.a, pt.data.b}
  {
  }
}
