/**
 * The view transform: the matrix that moves the world so the eye sits at
 * the origin looking down -z with `up` pointing along +y.
 */
module Transformations {
  import opened Tuples
  import opened Matrices

  /** The camera basis as rows: left, true up and backward, then (0, 0, 0, 1). */
  function Orientation(left: Tuple, trueUp: Tuple, forward: Tuple): (m: Matrix)
    ensures Transform4(m)
    ensures m.data[3] == [0.0, 0.0, 0.0, 1.0]
  {
    Matrix(4, 4, [
      [left.x, left.y, left.z, 0.0],
      [trueUp.x, trueUp.y, trueUp.z, 0.0],
      [-forward.x, -forward.y, -forward.z, 0.0],
      [0.0, 0.0, 0.0, 1.0]])
  }

  /**
   * Multiplying a 4x4 matrix by a translation keeps its first three columns
   * and folds the shift into the last one.
   */
  lemma TimesTranslation(o: Matrix, a: real, b: real, c: real)
    requires Transform4(o)
    ensures Transform4(Mul(o, Translation(a, b, c)))
    ensures forall i, j :: 0 <= i < 4 && 0 <= j < 4 ==>
      Mul(o, Translation(a, b, c)).data[i][j] == ShiftedEntry(o, a, b, c, i, j)
  {
    var t := Translation(a, b, c);
    var r := Mul(o, t);
    forall i, j | 0 <= i < 4 && 0 <= j < 4
      ensures r.data[i][j] == ShiftedEntry(o, a, b, c, i, j)
    {
      RowColumnFour(o, t, i, j);
    }
  }

  /** Entry (i, j) of o times translation(a, b, c). */
  function ShiftedEntry(o: Matrix, a: real, b: real, c: real, i: nat, j: nat): real
    requires Transform4(o) && i < 4 && j < 4
  {
    if j < 3 then o.data[i][j] else o.data[i][0] * a + o.data[i][1] * b + o.data[i][2] * c + o.data[i][3]
  }

  /** The unit direction from the eye to the target. */
  function Forward(num: Numerics, from: Tuple, to: Tuple): Tuple
    requires num.Valid()
  {
    Normalise(num, Sub(to, from))
  }

  /** The camera's left: forward crossed with the normalised up. */
  function Left(num: Numerics, from: Tuple, to: Tuple, up: Tuple): Tuple
    requires num.Valid()
  {
    Cross(Forward(num, from, to), Normalise(num, up))
  }

  /** The up direction made orthogonal to forward. */
  function TrueUp(num: Numerics, from: Tuple, to: Tuple, up: Tuple): Tuple
    requires num.Valid()
  {
    Cross(Left(num, from, to, up), Forward(num, from, to))
  }

  /**
   * The orientation rows (left, true up, backward) with the translation by
   * -from folded into the last column.
   */
  function ViewMatrix(l: Tuple, u: Tuple, f: Tuple, from: Tuple): (m: Matrix)
    ensures Transform4(m)
    ensures m.data[3] == [0.0, 0.0, 0.0, 1.0]
  {
    Matrix(4, 4, [
      [l.x, l.y, l.z, -(l.x * from.x + l.y * from.y + l.z * from.z)],
      [u.x, u.y, u.z, -(u.x * from.x + u.y * from.y + u.z * from.z)],
      [-f.x, -f.y, -f.z, f.x * from.x + f.y * from.y + f.z * from.z],
      [0.0, 0.0, 0.0, 1.0]])
  }

  /**
   * `view_transform`: orientation times translation(-from), for the basis
   * built from the normalised view direction and up vector. The result is
   * a 4x4 affine transform: its bottom row is (0, 0, 0, 1).
   */
  function ViewTransform(num: Numerics, from: Tuple, to: Tuple, up: Tuple): (m: Matrix)
    requires num.Valid()
    ensures Transform4(m)
    ensures m.data[3] == [0.0, 0.0, 0.0, 1.0]
  {
    ViewMatrix(Left(num, from, to, up), TrueUp(num, from, to, up), Forward(num, from, to), from)
  }

  /** The folded matrix is the orientation matrix times the translation by -from. */
  lemma ViewMatrixIsProduct(l: Tuple, u: Tuple, f: Tuple, from: Tuple)
    ensures ViewMatrix(l, u, f, from) == Mul(Orientation(l, u, f), Translation(-from.x, -from.y, -from.z))
  {
    var o := Orientation(l, u, f);
    var m := ViewMatrix(l, u, f, from);
    var r := Mul(o, Translation(-from.x, -from.y, -from.z));
    TimesTranslation(o, -from.x, -from.y, -from.z);
    forall i | 0 <= i < 4
      ensures m.data[i] == r.data[i]
    {
      assert forall j :: 0 <= j < 4 ==> m.data[i][j] == r.data[i][j];
    }
  }

  /** The view transform is the orientation matrix times the translation by -from. */
  lemma ViewTransformIsProduct(num: Numerics, from: Tuple, to: Tuple, up: Tuple)
    requires num.Valid()
    ensures ViewTransform(num, from, to, up) ==
      Mul(Orientation(Left(num, from, to, up), TrueUp(num, from, to, up), Forward(num, from, to)),
          Translation(-from.x, -from.y, -from.z))
  {
    ViewMatrixIsProduct(Left(num, from, to, up), TrueUp(num, from, to, up), Forward(num, from, to), from);
  }

  /** A row (a, -a . from) of the folded matrix applied to a point is a dotted with the offset. */
  lemma RowOnOffset(a: Tuple, from: Tuple, p: Tuple)
    requires IsPoint(from) && IsPoint(p)
    ensures a.x * p.x + a.y * p.y + a.z * p.z + -(a.x * from.x + a.y * from.y + a.z * from.z) * p.w
      == Dot(a, Sub(p, from))
  {
  }

  /** The backward row (-f, f . from) gives minus f dotted with the offset. */
  lemma BackwardRowOnOffset(f: Tuple, from: Tuple, p: Tuple)
    requires IsPoint(from) && IsPoint(p)
    ensures (-f.x) * p.x + (-f.y) * p.y + (-f.z) * p.z + (f.x * from.x + f.y * from.y + f.z * from.z) * p.w
      == -Dot(f, Sub(p, from))
  {
  }

  /**
   * The folded matrix expresses a point relative to the eye in the basis:
   * its coordinates are the offset from the eye measured along l, u and -f.
   */
  lemma ViewMatrixMapsPoint(l: Tuple, u: Tuple, f: Tuple, from: Tuple, p: Tuple)
    requires IsPoint(from) && IsPoint(p)
    ensures var offset := Sub(p, from);
      MulTuple(ViewMatrix(l, u, f, from), p) == Point(Dot(l, offset), Dot(u, offset), -Dot(f, offset))
  {
    var q := MulTuple(ViewMatrix(l, u, f, from), p);
    var offset := Sub(p, from);
    assert q.x == Dot(l, offset) by { RowOnOffset(l, from, p); }
    assert q.y == Dot(u, offset) by { RowOnOffset(u, from, p); }
    assert q.z == -Dot(f, offset) by { BackwardRowOnOffset(f, from, p); }
    assert q.w == 1.0;
  }

  /**
   * The view transform expresses a point relative to the eye in the camera
   * basis: its coordinates are the offset from the eye measured along left,
   * true up and backward. In particular the eye itself goes to the origin.
   */
  lemma ViewTransformMapsPoint(num: Numerics, from: Tuple, to: Tuple, up: Tuple, p: Tuple)
    requires num.Valid() && IsPoint(from) && IsPoint(p)
    ensures var offset := Sub(p, from);
      MulTuple(ViewTransform(num, from, to, up), p) == Point(
        Dot(Left(num, from, to, up), offset),
        Dot(TrueUp(num, from, to, up), offset),
        -Dot(Forward(num, from, to), offset))
    ensures MulTuple(ViewTransform(num, from, to, up), from) == Point(0.0, 0.0, 0.0)
  {
    var l := Left(num, from, to, up);
    var u := TrueUp(num, from, to, up);
    var f := Forward(num, from, to);
    ViewMatrixMapsPoint(l, u, f, from, p);
    ViewMatrixMapsPoint(l, u, f, from, from);
    assert Sub(from, from) == Tuple(0.0, 0.0, 0.0, 0.0);
  }

  /** Up along +y normalises to itself. */
  lemma UnitUp(num: Numerics)
    requires num.Valid()
    ensures Normalise(num, Vector(0.0, 1.0, 0.0)) == Vector(0.0, 1.0, 0.0)
  {
    NormaliseByMagnitude(num, Vector(0.0, 1.0, 0.0), 1.0);
  }

  /** A non-zero vector along z normalises to the unit vector with the same sign. */
  lemma UnitAlongZ(num: Numerics, c: real)
    requires num.Valid() && c != 0.0
    ensures Normalise(num, Vector(0.0, 0.0, c)) == Vector(0.0, 0.0, if c < 0.0 then -1.0 else 1.0)
  {
    var m := if c < 0.0 then -c else c;
    NormaliseByMagnitude(num, Vector(0.0, 0.0, c), m);
    assert c * (1.0 / m) == if c < 0.0 then -1.0 else 1.0;
  }

  /** Looking along z, forward is the unit z vector with the same sign. */
  lemma ForwardAlongZ(num: Numerics, from: Tuple, to: Tuple, c: real)
    requires num.Valid() && c != 0.0 && Sub(to, from) == Vector(0.0, 0.0, c)
    ensures Forward(num, from, to) == Vector(0.0, 0.0, if c < 0.0 then -1.0 else 1.0)
  {
    UnitAlongZ(num, c);
  }

  /** Looking down -z with up along +y, the camera basis is the standard one. */
  lemma BasisAlongNegativeZ(num: Numerics, from: Tuple, d: real)
    requires num.Valid() && IsPoint(from) && 0.0 < d
    ensures var to := Point(from.x, from.y, from.z - d);
      var f := Forward(num, from, to);
      var l := Left(num, from, to, Vector(0.0, 1.0, 0.0));
      var u := TrueUp(num, from, to, Vector(0.0, 1.0, 0.0));
      && f.x == 0.0 && f.y == 0.0 && f.z == -1.0
      && l.x == 1.0 && l.y == 0.0 && l.z == 0.0
      && u.x == 0.0 && u.y == 1.0 && u.z == 0.0
  {
    var to := Point(from.x, from.y, from.z - d);
    ForwardAlongZ(num, from, to, -d);
    UnitUp(num);
  }

  /** Looking down +z with up along +y, left and forward flip sign. */
  lemma BasisAlongPositiveZ(num: Numerics, from: Tuple, d: real)
    requires num.Valid() && IsPoint(from) && 0.0 < d
    ensures var to := Point(from.x, from.y, from.z + d);
      var f := Forward(num, from, to);
      var l := Left(num, from, to, Vector(0.0, 1.0, 0.0));
      var u := TrueUp(num, from, to, Vector(0.0, 1.0, 0.0));
      && f.x == 0.0 && f.y == 0.0 && f.z == 1.0
      && l.x == -1.0 && l.y == 0.0 && l.z == 0.0
      && u.x == 0.0 && u.y == 1.0 && u.z == 0.0
  {
    var to := Point(from.x, from.y, from.z + d);
    ForwardAlongZ(num, from, to, d);
    UnitUp(num);
  }

  /** The standard basis gives the plain translation by -from. */
  lemma ViewMatrixStandard(l: Tuple, u: Tuple, f: Tuple, from: Tuple)
    requires l.x == 1.0 && l.y == 0.0 && l.z == 0.0
    requires u.x == 0.0 && u.y == 1.0 && u.z == 0.0
    requires f.x == 0.0 && f.y == 0.0 && f.z == -1.0
    ensures ViewMatrix(l, u, f, from) == Translation(-from.x, -from.y, -from.z)
  {
  }

  /** The mirrored basis gives scaling(-1, 1, -1) after the translation by -from. */
  lemma ViewMatrixMirrored(l: Tuple, u: Tuple, f: Tuple, from: Tuple)
    requires l.x == -1.0 && l.y == 0.0 && l.z == 0.0
    requires u.x == 0.0 && u.y == 1.0 && u.z == 0.0
    requires f.x == 0.0 && f.y == 0.0 && f.z == 1.0
    ensures ViewMatrix(l, u, f, from) == Mul(Scaling(-1.0, 1.0, -1.0), Translation(-from.x, -from.y, -from.z))
  {
    var s := Scaling(-1.0, 1.0, -1.0);
    var m := ViewMatrix(l, u, f, from);
    var r := Mul(s, Translation(-from.x, -from.y, -from.z));
    TimesTranslation(s, -from.x, -from.y, -from.z);
    forall i, j | 0 <= i < 4 && 0 <= j < 4
      ensures m.data[i][j] == r.data[i][j]
    {
      assert r.data[i][j] == ShiftedEntry(s, -from.x, -from.y, -from.z, i, j);
    }
    forall i | 0 <= i < 4
      ensures m.data[i] == r.data[i]
    {
    }
  }

  /**
   * Looking down -z with up along +y, the view transform is just the
   * translation by -from (the identity when the eye is at the origin, and
   * translation(0, 0, -8) from (0, 0, 8)).
   */
  lemma ViewAlongNegativeZ(num: Numerics, from: Tuple, d: real)
    requires num.Valid() && IsPoint(from) && 0.0 < d
    ensures ViewTransform(num, from, Point(from.x, from.y, from.z - d), Vector(0.0, 1.0, 0.0))
      == Translation(-from.x, -from.y, -from.z)
  {
    var to := Point(from.x, from.y, from.z - d);
    var up := Vector(0.0, 1.0, 0.0);
    BasisAlongNegativeZ(num, from, d);
    ViewMatrixStandard(Left(num, from, to, up), TrueUp(num, from, to, up), Forward(num, from, to), from);
  }

  /**
   * Looking down +z with up along +y mirrors x and z: the view transform is
   * scaling(-1, 1, -1) after the translation by -from (scaling(-1, 1, -1)
   * itself when the eye is at the origin).
   */
  lemma ViewAlongPositiveZ(num: Numerics, from: Tuple, d: real)
    requires num.Valid() && IsPoint(from) && 0.0 < d
    ensures ViewTransform(num, from, Point(from.x, from.y, from.z + d), Vector(0.0, 1.0, 0.0))
      == Mul(Scaling(-1.0, 1.0, -1.0), Translation(-from.x, -from.y, -from.z))
  {
    var to := Point(from.x, from.y, from.z + d);
    var up := Vector(0.0, 1.0, 0.0);
    BasisAlongPositiveZ(num, from, d);
    ViewMatrixMirrored(Left(num, from, to, up), TrueUp(num, from, to, up), Forward(num, from, to), from);
  }
}
