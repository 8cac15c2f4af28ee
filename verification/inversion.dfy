/**
 * What cofactor inversion computes: the determinant of a diagonal matrix
 * is the product of its diagonal, a matrix with a zero row has
 * determinant 0, so a diagonal matrix (the identity, a scaling) inverts to
 * the diagonal of reciprocals; and every invertible 2x2 matrix times its
 * inverse is the identity, on both sides.
 */
module Inversion {
  import opened Tuples
  import opened Matrices

  function Product(d: seq<real>): real
  {
    if |d| == 0 then 1.0 else d[0] * Product(d[1..])
  }

  /** The sequence with position i removed. */
  function Remove(d: seq<real>, i: nat): (r: seq<real>)
    requires i < |d|
    ensures |r| == |d| - 1
    ensures forall k :: 0 <= k < |r| ==> r[k] == d[Skip(k, i)]
  {
    d[..i] + d[i + 1..]
  }

  function Reciprocals(d: seq<real>): (r: seq<real>)
    requires forall i :: 0 <= i < |d| ==> d[i] != 0.0
    ensures |r| == |d| && forall i :: 0 <= i < |d| ==> r[i] * d[i] == 1.0
  {
    seq(|d|, (i: nat) requires i < |d| => 1.0 / d[i])
  }

  /** The product of a concatenation is the product of the products. */
  lemma {:induction false} ProductAppend(a: seq<real>, b: seq<real>)
    ensures Product(a + b) == Product(a) * Product(b)
  {
    if |a| == 0 {
      assert a + b == b;
    } else {
      var ab := a + b;
      assert ab[0] == a[0] && ab[1..] == a[1..] + b;
      ProductAppend(a[1..], b);
      AppendStep(Product(ab), a[0], Product(ab[1..]), Product(a[1..]), Product(a), Product(b));
    }
  }

  /** The associativity step of `ProductAppend`, over plain numbers. */
  lemma AppendStep(pab: real, a0: real, prest: real, pa1: real, pa: real, pb: real)
    requires pab == a0 * prest && prest == pa1 * pb && pa == a0 * pa1
    ensures pab == pa * pb
  {
  }

  lemma {:induction false} ProductRemove(d: seq<real>, i: nat)
    requires i < |d|
    ensures Product(d) == d[i] * Product(Remove(d, i))
  {
    var front, back := d[..i], d[i + 1..];
    assert d == front + ([d[i]] + back);
    assert Remove(d, i) == front + back;
    ProductAppend(front, [d[i]] + back);
    ProductAppend(front, back);
    assert Product([d[i]] + back) == d[i] * Product(back);
    Rearrange(Product(front), d[i], Product(back));
  }

  lemma Rearrange(x: real, y: real, z: real)
    ensures x * (y * z) == y * (x * z)
  {
  }

  lemma {:induction false} ProductNonzero(d: seq<real>)
    requires forall i :: 0 <= i < |d| ==> d[i] != 0.0
    ensures Product(d) != 0.0
  {
    if |d| > 0 {
      ProductNonzero(d[1..]);
    }
  }

  /** Removing row i and column i of a diagonal matrix leaves a diagonal matrix. */
  lemma SubmatrixOfDiagonal(d: seq<real>, i: nat)
    requires i < |d|
    ensures Submatrix(Diagonal(d), i, i) == Diagonal(Remove(d, i))
  {
    var s := Submatrix(Diagonal(d), i, i);
    var e := Diagonal(Remove(d, i));
    forall a | 0 <= a < s.rows
      ensures s.data[a] == e.data[a]
    {
      forall b | 0 <= b < s.cols
        ensures s.data[a][b] == e.data[a][b]
      {
        assert (Skip(a, i) == Skip(b, i)) == (a == b);
      }
    }
  }

  /** When row 0 is zero past its first entry, the expansion keeps only the first term: the entry times its minor. */
  lemma {:induction false} ExpandFirstOnly(m: Matrix, k: nat)
    requires m.Valid() && m.cols <= m.rows && 1 <= k <= m.cols
    requires forall c :: 1 <= c < m.cols ==> m.data[0][c] == 0.0
    ensures ExpandRow0(m, k) == m.data[0][0] * Determinant(Submatrix(m, 0, 0))
  {
    if k > 1 {
      ExpandFirstOnly(m, k - 1);
      assert m.data[0][k - 1] == 0.0;
    } else {
      assert Cofactor(m, 0, 0) == Determinant(Submatrix(m, 0, 0));
      FirstTerm(ExpandRow0(m, 1), ExpandRow0(m, 0), m.data[0][0], Cofactor(m, 0, 0), Determinant(Submatrix(m, 0, 0)));
    }
  }

  /** e = 0 + a c with c = c' gives e = a c', over plain numbers. */
  lemma FirstTerm(e: real, z: real, a: real, c: real, c': real)
    requires e == z + a * c && z == 0.0 && c == c'
    ensures e == a * c'
  {
  }

  /** A square matrix of size 3 or more whose row 0 is zero past its first entry expands to that entry times its minor. */
  lemma FirstOnlyDeterminant(m: Matrix)
    requires m.Valid() && m.rows == m.cols && 3 <= m.rows
    requires forall c :: 1 <= c < m.cols ==> m.data[0][c] == 0.0
    ensures Determinant(m) == m.data[0][0] * Determinant(Submatrix(m, 0, 0))
  {
    ExpandFirstOnly(m, m.cols);
  }

  /** The determinant of a diagonal matrix is the product of the diagonal. */
  lemma {:induction false} DeterminantOfDiagonal(d: seq<real>)
    requires 1 <= |d|
    ensures Determinant(Diagonal(d)) == Product(d)
    decreases |d|
  {
    if |d| == 1 {
      assert Product(d[1..]) == 1.0;
    } else if |d| == 2 {
      assert Product(d[1..][1..]) == 1.0;
    } else {
      DiagonalExpandFirst(d);
      DeterminantOfDiagonal(d[1..]);
    }
  }

  /** Expanding a diagonal matrix of size 3 or more along row 0 leaves d[0] times the rest. */
  lemma {:induction false} DiagonalExpandFirst(d: seq<real>)
    requires 3 <= |d|
    ensures Determinant(Diagonal(d)) == d[0] * Determinant(Diagonal(d[1..]))
  {
    var m := Diagonal(d);
    FirstOnlyDeterminant(m);
    SubmatrixOfDiagonal(d, 0);
    assert Remove(d, 0) == d[1..];
    Substitute(Determinant(m), m.data[0][0], d[0], Determinant(Submatrix(m, 0, 0)), Determinant(Diagonal(d[1..])));
  }

  /** x = a c with a = a' and c = c' gives x = a' c', over plain numbers. */
  lemma Substitute(x: real, a: real, a': real, c: real, c': real)
    requires x == a * c && a == a' && c == c'
    ensures x == a' * c'
  {
  }

  /** Row k of m holds only zeros. */
  ghost predicate ZeroRow(m: Matrix, k: nat)
    requires m.Valid() && k < m.rows
  {
    forall c :: 0 <= c < m.cols ==> m.data[k][c] == 0.0
  }

  /** A square matrix with a row of zeros has determinant 0. */
  lemma {:induction false} ZeroRowDeterminant(m: Matrix, k: nat)
    requires m.Valid() && m.rows == m.cols && k < m.rows
    requires ZeroRow(m, k)
    ensures Determinant(m) == 0.0
    decreases m.rows, 3, 0
  {
    if m.rows == 2 || m.rows == 1 {
    } else {
      ZeroRowExpansion(m, k, m.cols);
    }
  }

  lemma {:induction false} ZeroRowExpansion(m: Matrix, k: nat, n: nat)
    requires m.Valid() && m.rows == m.cols && k < m.rows && n <= m.cols
    requires ZeroRow(m, k)
    ensures ExpandRow0(m, n) == 0.0
    decreases m.rows, 2, n
  {
    if n > 0 {
      ZeroRowExpansion(m, k, n - 1);
      ZeroRowTerm(m, k, n - 1);
    }
  }

  /** Each term of the expansion along row 0 vanishes when row k is zero. */
  lemma ZeroRowTerm(m: Matrix, k: nat, col: nat)
    requires m.Valid() && m.rows == m.cols && k < m.rows && col < m.cols
    requires ZeroRow(m, k)
    ensures m.data[0][col] * Cofactor(m, 0, col) == 0.0
    decreases m.rows, 1, 0
  {
    if k == 0 {
      assert m.data[0][col] == 0.0;
    } else {
      ZeroRowBelowCofactor(m, k, col);
    }
  }

  /** A zero row below row 0 survives into every submatrix of row 0, so those cofactors vanish. */
  lemma ZeroRowBelowCofactor(m: Matrix, k: nat, col: nat)
    requires m.Valid() && m.rows == m.cols && 0 < k < m.rows && col < m.cols
    requires ZeroRow(m, k)
    ensures Cofactor(m, 0, col) == 0.0
    decreases m.rows, 0, 0
  {
    SubmatrixKeepsZeroRow(m, k, col);
    ZeroRowDeterminant(Submatrix(m, 0, col), k - 1);
  }

  /** Dropping row 0 and a column moves a zero row k up to k - 1, still zero. */
  lemma SubmatrixKeepsZeroRow(m: Matrix, k: nat, col: nat)
    requires m.Valid() && 0 < k < m.rows && col < m.cols
    requires ZeroRow(m, k)
    ensures ZeroRow(Submatrix(m, 0, col), k - 1)
  {
    var sub := Submatrix(m, 0, col);
    var row := k - 1;
    forall c | 0 <= c < sub.cols
      ensures sub.data[row][c] == 0.0
    {
      assert sub.data[row][c] == m.data[k][Skip(c, col)];
    }
  }

  /** Off the diagonal, every cofactor of a diagonal matrix is 0. */
  lemma CofactorOfDiagonalOff(d: seq<real>, i: nat, j: nat)
    requires i < |d| && j < |d| && i != j
    ensures Cofactor(Diagonal(d), i, j) == 0.0
  {
    var m := Diagonal(d);
    var sub := Submatrix(m, i, j);
    // Row j of the diagonal matrix survives, and its only nonzero entry is in column j.
    var r := if j < i then j else j - 1;
    assert Skip(r, i) == j;
    assert forall c :: 0 <= c < sub.cols ==> sub.data[r][c] == m.data[j][Skip(c, j)];
    assert ZeroRow(sub, r);
    ZeroRowDeterminant(sub, r);
  }

  /** On the diagonal, the cofactor is the product of the other diagonal entries. */
  lemma CofactorOfDiagonalOn(d: seq<real>, i: nat)
    requires 2 <= |d| && i < |d|
    ensures Cofactor(Diagonal(d), i, i) == Product(Remove(d, i))
  {
    SubmatrixOfDiagonal(d, i);
    DeterminantOfDiagonal(Remove(d, i));
    assert (i + i) % 2 == 0;
  }

  /** A quotient c / det with c = p and det = q p cancels to 1 / q. */
  lemma CancelCommon(c: real, det: real, p: real, q: real)
    requires c == p && det == q * p && det != 0.0
    ensures c / det == 1.0 / q
  {
    assert p != 0.0 && q != 0.0;
    calc {
      c / det;
      p / (q * p);
      (p / p) / q;
      1.0 / q;
    }
  }

  /** The determinant of a diagonal matrix factors as d[i] times the product of the others. */
  lemma DeterminantSplits(d: seq<real>, i: nat)
    requires 1 <= |d| && i < |d|
    ensures Determinant(Diagonal(d)) == d[i] * Product(Remove(d, i))
  {
    DeterminantOfDiagonal(d);
    ProductRemove(d, i);
  }

  /** With no zero on the diagonal the determinant, the product of the diagonal, is not 0. */
  lemma DiagonalInvertible(d: seq<real>)
    requires 1 <= |d| && forall k :: 0 <= k < |d| ==> d[k] != 0.0
    ensures Determinant(Diagonal(d)) == Product(d) != 0.0
  {
    DeterminantOfDiagonal(d);
    ProductNonzero(d);
  }

  /** On the diagonal of the inverse: the product of the others over the product of all is 1 / d[i]. */
  lemma InverseOfDiagonalOn(d: seq<real>, i: nat)
    requires 2 <= |d| && forall k :: 0 <= k < |d| ==> d[k] != 0.0
    requires i < |d|
    ensures Determinant(Diagonal(d)) != 0.0
    ensures Cofactor(Diagonal(d), i, i) / Determinant(Diagonal(d)) == 1.0 / d[i]
  {
    CofactorOfDiagonalOn(d, i);
    DeterminantSplits(d, i);
    ProductNonzero(Remove(d, i));
    CancelCommon(Cofactor(Diagonal(d), i, i), Determinant(Diagonal(d)), Product(Remove(d, i)), d[i]);
  }

  /** One entry of the inverse of a diagonal matrix. */
  lemma InverseOfDiagonalEntry(d: seq<real>, i: nat, j: nat)
    requires 2 <= |d| && forall k :: 0 <= k < |d| ==> d[k] != 0.0
    requires i < |d| && j < |d|
    ensures Determinant(Diagonal(d)) == Product(d) != 0.0
    ensures Cofactor(Diagonal(d), j, i) / Determinant(Diagonal(d)) == if i == j then 1.0 / d[i] else 0.0
  {
    DiagonalInvertible(d);
    InverseOfDiagonalOn(d, i);
    if i != j {
      CofactorOfDiagonalOff(d, j, i);
    }
  }

  /** Entry (i, j) of the inverse of a diagonal matrix is that of the diagonal of reciprocals. */
  lemma InverseOfDiagonalAt(d: seq<real>, i: nat, j: nat)
    requires 2 <= |d| && forall k :: 0 <= k < |d| ==> d[k] != 0.0
    requires i < |d| && j < |d|
    ensures Invertible(Diagonal(d))
    ensures Inverse(Diagonal(d)).data[i][j] == Diagonal(Reciprocals(d)).data[i][j]
  {
    InverseOfDiagonalEntry(d, i, j);
    if i == j {
      assert Reciprocals(d)[i] * d[i] == 1.0;
    }
  }

  /** A diagonal matrix with no zero on the diagonal inverts to the reciprocals. */
  lemma InverseOfDiagonal(d: seq<real>)
    requires 2 <= |d| && forall i :: 0 <= i < |d| ==> d[i] != 0.0
    ensures Invertible(Diagonal(d))
    ensures Inverse(Diagonal(d)) == Diagonal(Reciprocals(d))
  {
    InverseOfDiagonalAt(d, 0, 0);
    var inv := Inverse(Diagonal(d));
    var e := Diagonal(Reciprocals(d));
    forall i | 0 <= i < |d|
      ensures inv.data[i] == e.data[i]
    {
      forall j | 0 <= j < |d|
        ensures inv.data[i][j] == e.data[i][j]
      {
        InverseOfDiagonalAt(d, i, j);
      }
    }
  }

  /** Every reciprocal of 1 is 1. */
  lemma ReciprocalsOfOnes(n: nat)
    ensures Reciprocals(Ones(n)) == Ones(n)
  {
    assert forall i :: 0 <= i < n ==> Reciprocals(Ones(n))[i] * 1.0 == 1.0;
  }

  /** `Matrix::identity().inverse()` is the identity. */
  lemma InverseIdentity()
    ensures Invertible(Identity())
    ensures Inverse(Identity()) == Identity()
  {
    InverseOfDiagonal(Ones(4));
    ReciprocalsOfOnes(4);
  }

  /** A scaling by nonzero factors inverts to the scaling by their reciprocals. */
  lemma InverseScaling(x: real, y: real, z: real)
    requires x != 0.0 && y != 0.0 && z != 0.0
    ensures Invertible(Scaling(x, y, z))
    ensures Inverse(Scaling(x, y, z)) == Scaling(1.0 / x, 1.0 / y, 1.0 / z)
  {
    InverseOfDiagonal([x, y, z, 1.0]);
    assert Reciprocals([x, y, z, 1.0]) == [1.0 / x, 1.0 / y, 1.0 / z, 1.0];
  }

  /** The cofactors of a 2x2 matrix are its entries, swapped and signed. */
  lemma TwoByTwoCofactors(m: Matrix)
    requires IsSquare(m, 2)
    ensures Cofactor(m, 0, 0) == m.data[1][1] && Cofactor(m, 0, 1) == -m.data[1][0]
    ensures Cofactor(m, 1, 0) == -m.data[0][1] && Cofactor(m, 1, 1) == m.data[0][0]
  {
    var s00, s01, s10, s11 := Submatrix(m, 0, 0), Submatrix(m, 0, 1), Submatrix(m, 1, 0), Submatrix(m, 1, 1);
    assert Determinant(s00) == s00.data[0][0] == m.data[1][1];
    assert Determinant(s01) == s01.data[0][0] == m.data[1][0];
    assert Determinant(s10) == s10.data[0][0] == m.data[0][1];
    assert Determinant(s11) == s11.data[0][0] == m.data[0][0];
  }

  /** With e the swapped, negated entries over the determinant, both products give the identity. */
  lemma TwoByTwoAlgebra(a: real, b: real, c: real, d: real, det: real, e00: real, e01: real, e10: real, e11: real)
    requires det == a * d - b * c && det != 0.0
    requires e00 == d / det && e01 == -b / det && e10 == -c / det && e11 == a / det
    ensures a * e00 + b * e10 == 1.0 && a * e01 + b * e11 == 0.0
    ensures c * e00 + d * e10 == 0.0 && c * e01 + d * e11 == 1.0
    ensures e00 * a + e01 * c == 1.0 && e00 * b + e01 * d == 0.0
    ensures e10 * a + e11 * c == 0.0 && e10 * b + e11 * d == 1.0
  {
    assert a * e00 + b * e10 == (a * d - b * c) / det;
    assert c * e01 + d * e11 == (a * d - b * c) / det;
    assert e00 * a + e01 * c == (a * d - b * c) / det;
    assert e10 * b + e11 * d == (a * d - b * c) / det;
  }

  lemma RowColumnTwo(a: Matrix, b: Matrix, i: nat, j: nat)
    requires a.Valid() && b.Valid() && a.cols == 2 && b.rows == 2 && i < a.rows && j < b.cols
    ensures RowColumn(a, b, i, j, 2) == a.data[i][0] * b.data[0][j] + a.data[i][1] * b.data[1][j]
  {
    assert RowColumn(a, b, i, j, 1) == a.data[i][0] * b.data[0][j];
  }

  /** The product of two 2x2 matrices, entry by entry. */
  lemma MulTwoByTwo(x: Matrix, y: Matrix)
    requires IsSquare(x, 2) && IsSquare(y, 2)
    ensures IsSquare(Mul(x, y), 2)
    ensures Mul(x, y).data[0][0] == x.data[0][0] * y.data[0][0] + x.data[0][1] * y.data[1][0]
    ensures Mul(x, y).data[0][1] == x.data[0][0] * y.data[0][1] + x.data[0][1] * y.data[1][1]
    ensures Mul(x, y).data[1][0] == x.data[1][0] * y.data[0][0] + x.data[1][1] * y.data[1][0]
    ensures Mul(x, y).data[1][1] == x.data[1][0] * y.data[0][1] + x.data[1][1] * y.data[1][1]
  {
    RowColumnTwo(x, y, 0, 0);
    RowColumnTwo(x, y, 0, 1);
    RowColumnTwo(x, y, 1, 0);
    RowColumnTwo(x, y, 1, 1);
  }

  /** The inverse of a 2x2 matrix: entries swapped and negated, over the determinant. */
  lemma InverseTwoByTwoEntries(m: Matrix)
    requires Invertible(m) && m.rows == 2
    ensures Determinant(m) == m.data[0][0] * m.data[1][1] - m.data[0][1] * m.data[1][0]
    ensures Inverse(m).data[0][0] == m.data[1][1] / Determinant(m)
    ensures Inverse(m).data[0][1] == -m.data[0][1] / Determinant(m)
    ensures Inverse(m).data[1][0] == -m.data[1][0] / Determinant(m)
    ensures Inverse(m).data[1][1] == m.data[0][0] / Determinant(m)
  {
    TwoByTwoCofactors(m);
  }

  /** A 2x2 matrix whose entries are those of the identity is the identity. */
  lemma IsIdentityTwo(p: Matrix)
    requires IsSquare(p, 2)
    requires p.data[0][0] == 1.0 && p.data[0][1] == 0.0 && p.data[1][0] == 0.0 && p.data[1][1] == 1.0
    ensures p == IdentityN(2)
  {
    var id := IdentityN(2);
    assert p.data[0] == id.data[0] && p.data[1] == id.data[1];
  }

  /** The inverse of a uniform scaling divides a point's coordinates by the factor. */
  lemma InverseScalingDivides(k: real, x: real, y: real, z: real)
    requires k != 0.0
    ensures Invertible(Scaling(k, k, k))
    ensures MulTuple(Inverse(Scaling(k, k, k)), Point(x, y, z)) == Point(x / k, y / k, z / k)
  {
    InverseScaling(k, k, k);
    ScalingScales(1.0 / k, 1.0 / k, 1.0 / k, Point(x, y, z));
  }

  /** Every invertible 2x2 matrix times its inverse is the identity, on both sides. */
  lemma InverseTwoByTwo(m: Matrix)
    requires Invertible(m) && m.rows == 2
    ensures Mul(m, Inverse(m)) == IdentityN(2)
    ensures Mul(Inverse(m), m) == IdentityN(2)
  {
    var inv := Inverse(m);
    InverseTwoByTwoEntries(m);
    TwoByTwoAlgebra(m.data[0][0], m.data[0][1], m.data[1][0], m.data[1][1], Determinant(m),
      inv.data[0][0], inv.data[0][1], inv.data[1][0], inv.data[1][1]);
    ProductIsIdentity(m, inv);
    ProductIsIdentity(inv, m);
  }

  lemma ProductIsIdentity(x: Matrix, y: Matrix)
    requires IsSquare(x, 2) && IsSquare(y, 2)
    requires x.data[0][0] * y.data[0][0] + x.data[0][1] * y.data[1][0] == 1.0
    requires x.data[0][0] * y.data[0][1] + x.data[0][1] * y.data[1][1] == 0.0
    requires x.data[1][0] * y.data[0][0] + x.data[1][1] * y.data[1][0] == 0.0
    requires x.data[1][0] * y.data[0][1] + x.data[1][1] * y.data[1][1] == 1.0
    ensures Mul(x, y) == IdentityN(2)
  {
    MulTwoByTwo(x, y);
    IsIdentityTwo(Mul(x, y));
  }
}
