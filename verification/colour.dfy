/** RGB colours with unclamped real channels and their component-wise algebra. */
module Colours {

  datatype Colour = Colour(r: real, g: real, b: real)

  function Black(): Colour
  {
    Colour(0.0, 0.0, 0.0)
  }

  function White(): Colour
  {
    Colour(1.0, 1.0, 1.0)
  }

  function Add(c1: Colour, c2: Colour): Colour
  {
    Colour(c1.r + c2.r, c1.g + c2.g, c1.b + c2.b)
  }

  function Sub(c1: Colour, c2: Colour): Colour
  {
    Colour(c1.r - c2.r, c1.g - c2.g, c1.b - c2.b)
  }

  /** `Colour * f64`. */
  function Scale(c: Colour, k: real): Colour
  {
    Colour(c.r * k, c.g * k, c.b * k)
  }

  /** `Colour * Colour`: the component-wise (Hadamard) product. */
  function Blend(c1: Colour, c2: Colour): Colour
  {
    Colour(c1.r * c2.r, c1.g * c2.g, c1.b * c2.b)
  }

  /** Subtraction undoes addition, and adding black changes nothing. */
  lemma SubAddCancel(c1: Colour, c2: Colour)
    ensures Add(Sub(c1, c2), c2) == c1
    ensures Sub(Add(c1, c2), c2) == c1
    ensures Add(c1, Black()) == c1 && Add(Black(), c1) == c1
  {
  }

  /** Addition is commutative and associative. */
  lemma AddCommutesAssociates(c1: Colour, c2: Colour, c3: Colour)
    ensures Add(c1, c2) == Add(c2, c1)
    ensures Add(Add(c1, c2), c3) == Add(c1, Add(c2, c3))
  {
  }

  /** Scaling by one is the identity, by zero gives black, and scaling distributes. */
  lemma ScaleUnitZero(c: Colour, k: real, j: real)
    ensures Scale(c, 1.0) == c
    ensures Scale(c, 0.0) == Black()
    ensures Scale(Scale(c, k), j) == Scale(c, k * j)
  {
  }

  /** Blending is commutative, white is its unit and black absorbs. */
  lemma BlendCommutes(c1: Colour, c2: Colour)
    ensures Blend(c1, c2) == Blend(c2, c1)
    ensures Blend(c1, White()) == c1
    ensures Blend(c1, Black()) == Black()
  {
  }
}
