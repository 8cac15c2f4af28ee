/**
 * Dense real matrices as the ray tracer builds them: a row count, a column
 * count and row-major data. Transforms are 4x4; the cofactor machinery
 * works on the smaller matrices that submatrices produce.
 */
module Matrices {
  import opened Tuples

  datatype Matrix = Matrix(rows: nat, cols: nat, data: seq<seq<real>>)
  {
    /** The data holds `rows` rows of `cols` entries each. */
    ghost predicate Valid()
    {
      |data| == rows && forall i :: 0 <= i < rows ==> |data[i]| == cols
    }

    function At(i: nat, j: nat): real
      requires Valid() && i < rows && j < cols
    {
      data[i][j]
    }
  }

  ghost predicate IsSquare(m: Matrix, n: nat)
  {
    m.Valid() && m.rows == n && m.cols == n
  }

  /** The rows-by-cols matrix whose (i, j) entry is f(i, j). */
  function Build(rows: nat, cols: nat, f: (nat, nat) -> real): (m: Matrix)
    ensures m.Valid() && m.rows == rows && m.cols == cols
    ensures forall i, j :: 0 <= i < rows && 0 <= j < cols ==> m.data[i][j] == f(i, j)
  {
    Matrix(rows, cols, seq(rows, (i: nat) => seq(cols, (j: nat) => f(i, j))))
  }

  /** `Matrix::new`: all entries zero. */
  function Zero(rows: nat, cols: nat): (m: Matrix)
    ensures m.Valid() && m.rows == rows && m.cols == cols
    ensures forall i, j :: 0 <= i < rows && 0 <= j < cols ==> m.data[i][j] == 0.0
  {
    Build(rows, cols, (i: nat, j: nat) => 0.0)
  }

  /** The square matrix with `d` on the diagonal and zeros elsewhere. */
  function Diagonal(d: seq<real>): (m: Matrix)
    ensures IsSquare(m, |d|)
    ensures forall i, j :: 0 <= i < |d| && 0 <= j < |d| ==> m.data[i][j] == if i == j then d[i] else 0.0
  {
    Build(|d|, |d|, (i: nat, j: nat) => if i == j && i < |d| then d[i] else 0.0)
  }

  function Ones(n: nat): (d: seq<real>)
    ensures |d| == n && forall i :: 0 <= i < n ==> d[i] == 1.0
  {
    seq(n, i => 1.0)
  }

  /** The n-by-n identity. */
  function IdentityN(n: nat): (m: Matrix)
    ensures IsSquare(m, n)
    ensures forall i, j :: 0 <= i < n && 0 <= j < n ==> m.data[i][j] == if i == j then 1.0 else 0.0
  {
    Diagonal(Ones(n))
  }

  /** `Matrix::identity`: the 4x4 identity. */
  function Identity(): (m: Matrix)
    ensures IsSquare(m, 4)
    ensures forall i, j :: 0 <= i < 4 && 0 <= j < 4 ==> m.data[i][j] == if i == j then 1.0 else 0.0
  {
    IdentityN(4)
  }

  /** `Matrix::translation`: the identity with (x, y, z) in the last column. */
  function Translation(x: real, y: real, z: real): (m: Matrix)
    ensures IsSquare(m, 4)
  {
    Matrix(4, 4, [[1.0, 0.0, 0.0, x], [0.0, 1.0, 0.0, y], [0.0, 0.0, 1.0, z], [0.0, 0.0, 0.0, 1.0]])
  }

  /** `Matrix::scaling`: the identity with (x, y, z) on the first three diagonal entries. */
  function Scaling(x: real, y: real, z: real): (m: Matrix)
    ensures IsSquare(m, 4)
  {
    Diagonal([x, y, z, 1.0])
  }

  /** `Matrix::shearing`: each coordinate moves in proportion to the other two. */
  function Shearing(xy: real, xz: real, yx: real, yz: real, zx: real, zy: real): (m: Matrix)
    ensures IsSquare(m, 4)
  {
    Matrix(4, 4, [[1.0, xy, xz, 0.0], [yx, 1.0, yz, 0.0], [zx, zy, 1.0, 0.0], [0.0, 0.0, 0.0, 1.0]])
  }

  /** `transpose`: a rows-by-cols matrix becomes cols-by-rows with entries mirrored. */
  function Transpose(m: Matrix): (r: Matrix)
    requires m.Valid()
    ensures r.Valid() && r.rows == m.cols && r.cols == m.rows
    ensures forall i, j :: 0 <= i < m.rows && 0 <= j < m.cols ==> r.data[j][i] == m.data[i][j]
  {
    Build(m.cols, m.rows, (j: nat, i: nat) => if i < m.rows && j < m.cols then m.data[i][j] else 0.0)
  }

  /** Transposing twice gives the matrix back. */
  lemma TransposeInvolution(m: Matrix)
    requires m.Valid()
    ensures Transpose(Transpose(m)) == m
  {
    var t := Transpose(Transpose(m));
    assert |t.data| == |m.data|;
    forall i | 0 <= i < m.rows
      ensures t.data[i] == m.data[i]
    {
      assert |t.data[i]| == |m.data[i]|;
    }
  }

  /** The identity is its own transpose. */
  lemma TransposeIdentity()
    ensures Transpose(Identity()) == Identity()
  {
    var t := Transpose(Identity());
    forall i | 0 <= i < 4
      ensures t.data[i] == Identity().data[i]
    {
    }
  }

  /** Maps an index of the smaller matrix back past the removed index `skip`. */
  function Skip(i: nat, skip: nat): nat
  {
    if i < skip then i else i + 1
  }

  /**
   * `submatrix`: drops one row and one column. Entry (i, j) of the result is
   * the entry of `m` whose row and column indices step over the removed ones.
   */
  function Submatrix(m: Matrix, row: nat, col: nat): (r: Matrix)
    requires m.Valid() && row < m.rows && col < m.cols
    ensures r.Valid() && r.rows == m.rows - 1 && r.cols == m.cols - 1
    ensures forall i, j :: 0 <= i < r.rows && 0 <= j < r.cols ==> r.data[i][j] == m.data[Skip(i, row)][Skip(j, col)]
  {
    Build(m.rows - 1, m.cols - 1,
      (i: nat, j: nat) => if Skip(i, row) < m.rows && Skip(j, col) < m.cols then m.data[Skip(i, row)][Skip(j, col)] else 0.0)
  }

  /**
   * The source's two nested loops that copy every kept entry and `continue`
   * past the removed row and column. They produce exactly `Submatrix`.
   */
  method SubmatrixByCopy(m: Matrix, row: nat, col: nat) returns (r: Matrix)
    requires m.Valid() && row < m.rows && col < m.cols
    ensures r == Submatrix(m, row, col)
  {
    var data: seq<seq<real>> := [];
    var mr := 0;
    while mr < m.rows
      invariant 0 <= mr <= m.rows
      invariant |data| == if mr <= row then mr else mr - 1
      invariant forall i :: 0 <= i < |data| ==> data[i] == Submatrix(m, row, col).data[i]
    {
      if mr != row {
        var line: seq<real> := [];
        var mc := 0;
        while mc < m.cols
          invariant 0 <= mc <= m.cols
          invariant |line| == if mc <= col then mc else mc - 1
          invariant forall j :: 0 <= j < |line| ==> line[j] == m.data[mr][Skip(j, col)]
        {
          if mc != col {
            line := line + [m.data[mr][mc]];
          }
          mc := mc + 1;
        }
        assert Skip(|data|, row) == mr;
        data := data + [line];
      }
      mr := mr + 1;
    }
    r := Matrix(m.rows - 1, m.cols - 1, data);
  }

  // ---------------------------------------------------------------------
  // Determinants by cofactor expansion along row 0.
  // `Determinant` is the corrected definition the model uses; the
  // `...AsWritten` group reproduces the source, whose 1x1 case falls
  // through to an empty expansion and yields 0.
  // ---------------------------------------------------------------------

  /**
   * The determinant. Defined whenever the matrix has no more columns than
   * rows (the source's recursion only indexes row 0 of each submatrix).
   */
  function Determinant(m: Matrix): real
    requires m.Valid() && m.cols <= m.rows
    decreases m.rows, 2, 0
  {
    if m.rows == 2 && m.cols == 2 then
      m.data[0][0] * m.data[1][1] - m.data[0][1] * m.data[1][0]
    else if m.rows == 1 && m.cols == 1 then
      m.data[0][0]
    else
      ExpandRow0(m, m.cols)
  }

  /** The first k terms of the expansion along row 0, summed left to right. */
  function ExpandRow0(m: Matrix, k: nat): real
    requires m.Valid() && m.cols <= m.rows && k <= m.cols
    decreases m.rows, 1, k
  {
    if k == 0 then 0.0
    else ExpandRow0(m, k - 1) + m.data[0][k - 1] * Cofactor(m, 0, k - 1)
  }

  /** `minor`: the determinant of the submatrix. */
  function Minor(m: Matrix, row: nat, col: nat): real
    requires m.Valid() && m.cols <= m.rows && row < m.rows && col < m.cols
    decreases m.rows, 0, 0
  {
    Determinant(Submatrix(m, row, col))
  }

  /** `cofactor`: the minor, negated when row + col is odd. */
  function Cofactor(m: Matrix, row: nat, col: nat): (c: real)
    requires m.Valid() && m.cols <= m.rows && row < m.rows && col < m.cols
    ensures (row + col) % 2 == 0 ==> c == Minor(m, row, col)
    ensures (row + col) % 2 == 1 ==> c == -Minor(m, row, col)
    decreases m.rows, 0, 1
  {
    var minor := Minor(m, row, col);
    if (row + col) % 2 == 0 then minor else -minor
  }

  /** The source's determinant: identical except that a 1x1 matrix expands to 0. */
  function DeterminantAsWritten(m: Matrix): real
    requires m.Valid() && m.cols <= m.rows
    decreases m.rows, 2, 0
  {
    if m.rows == 2 && m.cols == 2 then
      m.data[0][0] * m.data[1][1] - m.data[0][1] * m.data[1][0]
    else
      ExpandRow0AsWritten(m, m.cols)
  }

  function ExpandRow0AsWritten(m: Matrix, k: nat): real
    requires m.Valid() && m.cols <= m.rows && k <= m.cols
    decreases m.rows, 1, k
  {
    if k == 0 then 0.0
    else ExpandRow0AsWritten(m, k - 1) + m.data[0][k - 1] * CofactorAsWritten(m, 0, k - 1)
  }

  /** The source's cofactor: the as-written minor, negated when row + col is odd. */
  function CofactorAsWritten(m: Matrix, row: nat, col: nat): real
    requires m.Valid() && m.cols <= m.rows && row < m.rows && col < m.cols
    decreases m.rows, 0, 0
  {
    var minor := DeterminantAsWritten(Submatrix(m, row, col));
    if (row + col) % 2 == 0 then minor else -minor
  }

  /** As written, every 1x1 matrix has determinant 0: [[5]] gives 0, not 5. */
  lemma {:induction false} DeterminantAsWrittenOneByOne(m: Matrix)
    requires IsSquare(m, 1)
    ensures DeterminantAsWritten(m) == 0.0
    ensures Determinant(m) == m.data[0][0]
  {
    var sub := Submatrix(m, 0, 0);
    assert sub.rows == 0 && sub.cols == 0;
    assert DeterminantAsWritten(sub) == 0.0;
    assert ExpandRow0AsWritten(m, 1) == ExpandRow0AsWritten(m, 0) + m.data[0][0] * CofactorAsWritten(m, 0, 0);
  }

  /** The correction changes nothing except on 1x1 matrices. */
  lemma {:induction false} DeterminantAsWrittenAgrees(m: Matrix)
    requires m.Valid() && m.cols <= m.rows
    requires !(m.rows == 1 && m.cols == 1)
    ensures DeterminantAsWritten(m) == Determinant(m)
    decreases m.rows, 2, 0
  {
    if m.rows == 2 && m.cols == 2 {
    } else {
      ExpandAsWrittenAgrees(m, m.cols);
    }
  }

  lemma {:induction false} ExpandAsWrittenAgrees(m: Matrix, k: nat)
    requires m.Valid() && m.cols <= m.rows && k <= m.cols
    requires !(m.rows == 2 && m.cols == 2) && !(m.rows == 1 && m.cols == 1)
    ensures ExpandRow0AsWritten(m, k) == ExpandRow0(m, k)
    decreases m.rows, 1, k
  {
    if k > 0 {
      ExpandAsWrittenAgrees(m, k - 1);
      CofactorAsWrittenAgrees(m, 0, k - 1);
    }
  }

  /** Outside 2x2 matrices the submatrix is never 1x1, so the cofactors agree. */
  lemma {:induction false} CofactorAsWrittenAgrees(m: Matrix, row: nat, col: nat)
    requires m.Valid() && m.cols <= m.rows && row < m.rows && col < m.cols
    requires !(m.rows == 2 && m.cols == 2)
    ensures CofactorAsWritten(m, row, col) == Cofactor(m, row, col)
    decreases m.rows, 0, 0
  {
    DeterminantAsWrittenAgrees(Submatrix(m, row, col));
  }

  /** All cofactors of the matrix, in place. */
  function CofactorMatrix(m: Matrix): (r: Matrix)
    requires m.Valid() && m.cols <= m.rows
    ensures r.Valid() && r.rows == m.rows && r.cols == m.cols
    ensures forall i, j :: 0 <= i < m.rows && 0 <= j < m.cols ==> r.data[i][j] == Cofactor(m, i, j)
  {
    Build(m.rows, m.cols, (i: nat, j: nat) => if i < m.rows && j < m.cols then Cofactor(m, i, j) else 0.0)
  }

  /**
   * A matrix the source can invert without panicking: square, at least
   * 2x2 (the as-written determinant of a 1x1 matrix is 0) and with a
   * non-zero determinant.
   */
  ghost predicate Invertible(m: Matrix)
  {
    m.Valid() && m.rows == m.cols && 2 <= m.rows && Determinant(m) != 0.0
  }

  /** `Invertible` is exactly the source's guard: the as-written determinant is not 0. */
  lemma InvertibleIsSourceGuard(m: Matrix)
    requires m.Valid() && m.rows == m.cols
    ensures Invertible(m) <==> DeterminantAsWritten(m) != 0.0
  {
    if 2 <= m.rows {
      DeterminantAsWrittenAgrees(m);
    } else if m.rows == 1 {
      DeterminantAsWrittenOneByOne(m);
    } else {
      assert DeterminantAsWritten(m) == ExpandRow0AsWritten(m, 0);
    }
  }

  /**
   * `inverse`: the transposed cofactor matrix divided by the determinant.
   * The source panics when its determinant is 0; here avoiding that is the
   * caller's obligation.
   */
  function Inverse(m: Matrix): (r: Matrix)
    requires Invertible(m)
    ensures IsSquare(r, m.rows)
    ensures forall i, j :: 0 <= i < m.rows && 0 <= j < m.rows ==> r.data[i][j] == Cofactor(m, j, i) / Determinant(m)
  {
    var det := Determinant(m);
    var t := Transpose(CofactorMatrix(m));
    Build(m.rows, m.cols, (i: nat, j: nat) => if i < t.rows && j < t.cols then t.data[i][j] / det else 0.0)
  }

  /** The source's `inverse`, with its as-written cofactors and determinant. */
  function InverseAsWritten(m: Matrix): (r: Matrix)
    requires m.Valid() && m.rows == m.cols && DeterminantAsWritten(m) != 0.0
    ensures IsSquare(r, m.rows)
    ensures forall i, j :: 0 <= i < m.rows && 0 <= j < m.rows ==> r.data[i][j] == CofactorAsWritten(m, j, i) / DeterminantAsWritten(m)
  {
    var det := DeterminantAsWritten(m);
    Build(m.rows, m.cols, (i: nat, j: nat) => if i < m.rows && j < m.cols then CofactorAsWritten(m, j, i) / det else 0.0)
  }

  /**
   * As written, every 2x2 matrix with ad - bc != 0 passes the guard and
   * inverts to the zero matrix: each cofactor is a 1x1 determinant, which
   * the source computes as 0.
   */
  lemma InverseAsWrittenTwoByTwo(m: Matrix)
    requires IsSquare(m, 2) && m.data[0][0] * m.data[1][1] - m.data[0][1] * m.data[1][0] != 0.0
    ensures DeterminantAsWritten(m) != 0.0
    ensures InverseAsWritten(m) == Zero(2, 2)
  {
    assert DeterminantAsWritten(m) == m.data[0][0] * m.data[1][1] - m.data[0][1] * m.data[1][0];
    var r := InverseAsWritten(m);
    forall i, j | 0 <= i < 2 && 0 <= j < 2
      ensures r.data[i][j] == 0.0
    {
      InverseAsWrittenTwoByTwoEntry(m, i, j);
    }
    assert r.data[0] == Zero(2, 2).data[0] && r.data[1] == Zero(2, 2).data[1];
  }

  lemma InverseAsWrittenTwoByTwoEntry(m: Matrix, i: nat, j: nat)
    requires IsSquare(m, 2) && DeterminantAsWritten(m) != 0.0 && i < 2 && j < 2
    ensures InverseAsWritten(m).data[i][j] == 0.0
  {
    var det := DeterminantAsWritten(m);
    DeterminantAsWrittenOneByOne(Submatrix(m, j, i));
    var c := CofactorAsWritten(m, j, i);
    assert c == 0.0;
    assert InverseAsWritten(m).data[i][j] == c / det;
    QuotientOfZero(c, det);
  }

  lemma QuotientOfZero(c: real, d: real)
    requires c == 0.0 && d != 0.0
    ensures c / d == 0.0
  {
  }

  /** From 3x3 up the source's inverse is the corrected one. */
  lemma InverseAsWrittenAgrees(m: Matrix)
    requires Invertible(m) && 3 <= m.rows
    ensures DeterminantAsWritten(m) != 0.0
    ensures InverseAsWritten(m) == Inverse(m)
  {
    DeterminantAsWrittenAgrees(m);
    var r, e := InverseAsWritten(m), Inverse(m);
    forall i, j | 0 <= i < m.rows && 0 <= j < m.rows
      ensures r.data[i][j] == e.data[i][j]
    {
      CofactorAsWrittenAgrees(m, j, i);
    }
    assert forall i | 0 <= i < m.rows :: r.data[i] == e.data[i];
  }

  // ---------------------------------------------------------------------
  // Products.
  // ---------------------------------------------------------------------

  /** Sum over k' < k of a[i][k'] * b[k'][j], accumulated left to right. */
  function RowColumn(a: Matrix, b: Matrix, i: nat, j: nat, k: nat): real
    requires a.Valid() && b.Valid() && a.cols == b.rows && i < a.rows && j < b.cols && k <= a.cols
  {
    if k == 0 then 0.0 else RowColumn(a, b, i, j, k - 1) + a.data[i][k - 1] * b.data[k - 1][j]
  }

  /** `Matrix * Matrix`: an r-by-k times a k-by-c matrix is r-by-c. */
  function Mul(a: Matrix, b: Matrix): (r: Matrix)
    requires a.Valid() && b.Valid() && a.cols == b.rows
    ensures r.Valid() && r.rows == a.rows && r.cols == b.cols
    ensures forall i, j :: 0 <= i < a.rows && 0 <= j < b.cols ==> r.data[i][j] == RowColumn(a, b, i, j, a.cols)
  {
    Build(a.rows, b.cols, (i: nat, j: nat) => if i < a.rows && j < b.cols then RowColumn(a, b, i, j, a.cols) else 0.0)
  }

  /** A sum against an identity column picks out a single entry. */
  lemma {:induction false} RowColumnIdentityRight(a: Matrix, n: nat, i: nat, j: nat, k: nat)
    requires a.Valid() && a.cols == n && i < a.rows && j < n && k <= n
    ensures RowColumn(a, IdentityN(n), i, j, k) == if j < k then a.data[i][j] else 0.0
  {
    if k > 0 {
      RowColumnIdentityRight(a, n, i, j, k - 1);
    }
  }

  lemma {:induction false} RowColumnIdentityLeft(b: Matrix, n: nat, i: nat, j: nat, k: nat)
    requires b.Valid() && b.rows == n && i < n && j < b.cols && k <= n
    ensures RowColumn(IdentityN(n), b, i, j, k) == if i < k then b.data[i][j] else 0.0
  {
    if k > 0 {
      RowColumnIdentityLeft(b, n, i, j, k - 1);
    }
  }

  /** The identity is a left and a right unit of the product. */
  lemma IdentityUnit(m: Matrix)
    requires m.Valid()
    ensures Mul(m, IdentityN(m.cols)) == m
    ensures Mul(IdentityN(m.rows), m) == m
  {
    var r := Mul(m, IdentityN(m.cols));
    forall i, j | 0 <= i < m.rows && 0 <= j < m.cols
      ensures r.data[i][j] == m.data[i][j]
    {
      RowColumnIdentityRight(m, m.cols, i, j, m.cols);
    }
    assert forall i | 0 <= i < m.rows :: r.data[i] == m.data[i];
    var l := Mul(IdentityN(m.rows), m);
    forall i, j | 0 <= i < m.rows && 0 <= j < m.cols
      ensures l.data[i][j] == m.data[i][j]
    {
      RowColumnIdentityLeft(m, m.rows, i, j, m.rows);
    }
    assert forall i | 0 <= i < m.rows :: l.data[i] == m.data[i];
  }

  /** Entry (i, j) of the product of two 4x4 matrices, written out term by term. */
  function RowColumnByHand(o: Matrix, t: Matrix, i: nat, j: nat): real
    requires Transform4(o) && Transform4(t) && i < 4 && j < 4
  {
    o.data[i][0] * t.data[0][j] + o.data[i][1] * t.data[1][j] + o.data[i][2] * t.data[2][j] + o.data[i][3] * t.data[3][j]
  }

  /** A product entry of two 4x4 matrices, written out. */
  lemma RowColumnFour(o: Matrix, t: Matrix, i: nat, j: nat)
    requires Transform4(o) && Transform4(t) && i < 4 && j < 4
    ensures RowColumn(o, t, i, j, 4) == RowColumnByHand(o, t, i, j)
  {
    assert RowColumn(o, t, i, j, 1) == o.data[i][0] * t.data[0][j];
    assert RowColumn(o, t, i, j, 2) == RowColumn(o, t, i, j, 1) + o.data[i][1] * t.data[1][j];
    assert RowColumn(o, t, i, j, 3) == RowColumn(o, t, i, j, 2) + o.data[i][2] * t.data[2][j];
  }

  /** The tuple as the column (x, y, z, w). */
  function Column(t: Tuple): seq<real>
  {
    [t.x, t.y, t.z, t.w]
  }

  /** Sum over c < k of m[row][c] * t[c]. */
  function RowTimes(m: Matrix, row: nat, t: Tuple, k: nat): real
    requires m.Valid() && row < m.rows && k <= m.cols && m.cols <= 4
  {
    if k == 0 then 0.0 else RowTimes(m, row, t, k - 1) + m.data[row][k - 1] * Column(t)[k - 1]
  }

  /**
   * `Matrix * Tuple`: each of the first four rows dotted with the tuple.
   * The source needs at least four rows and at most four columns.
   */
  function MulTuple(m: Matrix, t: Tuple): (r: Tuple)
    requires m.Valid() && 4 <= m.rows && m.cols <= 4
    ensures m.cols == 4 ==> r == Tuple(
      m.data[0][0] * t.x + m.data[0][1] * t.y + m.data[0][2] * t.z + m.data[0][3] * t.w,
      m.data[1][0] * t.x + m.data[1][1] * t.y + m.data[1][2] * t.z + m.data[1][3] * t.w,
      m.data[2][0] * t.x + m.data[2][1] * t.y + m.data[2][2] * t.z + m.data[2][3] * t.w,
      m.data[3][0] * t.x + m.data[3][1] * t.y + m.data[3][2] * t.z + m.data[3][3] * t.w)
  {
    if m.cols == 4 then
      RowTimesFour(m, 0, t);
      RowTimesFour(m, 1, t);
      RowTimesFour(m, 2, t);
      RowTimesFour(m, 3, t);
      Tuple(RowTimes(m, 0, t, 4), RowTimes(m, 1, t, 4), RowTimes(m, 2, t, 4), RowTimes(m, 3, t, 4))
    else
      Tuple(RowTimes(m, 0, t, m.cols), RowTimes(m, 1, t, m.cols), RowTimes(m, 2, t, m.cols), RowTimes(m, 3, t, m.cols))
  }

  lemma RowTimesFour(m: Matrix, row: nat, t: Tuple)
    requires m.Valid() && row < m.rows && m.cols == 4
    ensures RowTimes(m, row, t, 4)
      == m.data[row][0] * t.x + m.data[row][1] * t.y + m.data[row][2] * t.z + m.data[row][3] * t.w
  {
    assert RowTimes(m, row, t, 1) == m.data[row][0] * t.x;
    assert RowTimes(m, row, t, 2) == RowTimes(m, row, t, 1) + m.data[row][1] * t.y;
    assert RowTimes(m, row, t, 3) == RowTimes(m, row, t, 2) + m.data[row][2] * t.z;
  }

  /** A 4x4 transform: the shape every transform in the ray tracer has. */
  ghost predicate Transform4(m: Matrix)
  {
    IsSquare(m, 4)
  }

  /** The identity leaves every tuple unchanged. */
  lemma IdentityTimesTuple(t: Tuple)
    ensures MulTuple(Identity(), t) == t
  {
  }

  /**
   * Over plain numbers: row a of a product A B against t equals row a of A
   * against B t, where B has rows b0.., b1.., b2.., b3...
   */
  lemma ProductRowTimes(a0: real, a1: real, a2: real, a3: real,
                        b00: real, b01: real, b02: real, b03: real, b10: real, b11: real, b12: real, b13: real,
                        b20: real, b21: real, b22: real, b23: real, b30: real, b31: real, b32: real, b33: real,
                        x: real, y: real, z: real, w: real)
    ensures (a0 * b00 + a1 * b10 + a2 * b20 + a3 * b30) * x + (a0 * b01 + a1 * b11 + a2 * b21 + a3 * b31) * y
          + (a0 * b02 + a1 * b12 + a2 * b22 + a3 * b32) * z + (a0 * b03 + a1 * b13 + a2 * b23 + a3 * b33) * w
         == a0 * (b00 * x + b01 * y + b02 * z + b03 * w) + a1 * (b10 * x + b11 * y + b12 * z + b13 * w)
          + a2 * (b20 * x + b21 * y + b22 * z + b23 * w) + a3 * (b30 * x + b31 * y + b32 * z + b33 * w)
  {
  }

  /** Each component of a tuple mapped through a product A B is that of the tuple mapped through B, then A. */
  lemma ProductX(a: Matrix, b: Matrix, t: Tuple)
    requires Transform4(a) && Transform4(b)
    ensures MulTuple(Mul(a, b), t).x == MulTuple(a, MulTuple(b, t)).x
  {
    var ab, bt := Mul(a, b), MulTuple(b, t);
    ProductRowSum(a, b, t, 0);
    assert MulTuple(ab, t).x == ab.data[0][0] * t.x + ab.data[0][1] * t.y + ab.data[0][2] * t.z + ab.data[0][3] * t.w;
    assert MulTuple(a, bt).x == a.data[0][0] * bt.x + a.data[0][1] * bt.y + a.data[0][2] * bt.z + a.data[0][3] * bt.w;
  }

  lemma ProductY(a: Matrix, b: Matrix, t: Tuple)
    requires Transform4(a) && Transform4(b)
    ensures MulTuple(Mul(a, b), t).y == MulTuple(a, MulTuple(b, t)).y
  {
    var ab, bt := Mul(a, b), MulTuple(b, t);
    ProductRowSum(a, b, t, 1);
    assert MulTuple(ab, t).y == ab.data[1][0] * t.x + ab.data[1][1] * t.y + ab.data[1][2] * t.z + ab.data[1][3] * t.w;
    assert MulTuple(a, bt).y == a.data[1][0] * bt.x + a.data[1][1] * bt.y + a.data[1][2] * bt.z + a.data[1][3] * bt.w;
  }

  lemma ProductZ(a: Matrix, b: Matrix, t: Tuple)
    requires Transform4(a) && Transform4(b)
    ensures MulTuple(Mul(a, b), t).z == MulTuple(a, MulTuple(b, t)).z
  {
    var ab, bt := Mul(a, b), MulTuple(b, t);
    ProductRowSum(a, b, t, 2);
    assert MulTuple(ab, t).z == ab.data[2][0] * t.x + ab.data[2][1] * t.y + ab.data[2][2] * t.z + ab.data[2][3] * t.w;
    assert MulTuple(a, bt).z == a.data[2][0] * bt.x + a.data[2][1] * bt.y + a.data[2][2] * bt.z + a.data[2][3] * bt.w;
  }

  lemma ProductW(a: Matrix, b: Matrix, t: Tuple)
    requires Transform4(a) && Transform4(b)
    ensures MulTuple(Mul(a, b), t).w == MulTuple(a, MulTuple(b, t)).w
  {
    var ab, bt := Mul(a, b), MulTuple(b, t);
    ProductRowSum(a, b, t, 3);
    assert MulTuple(ab, t).w == ab.data[3][0] * t.x + ab.data[3][1] * t.y + ab.data[3][2] * t.z + ab.data[3][3] * t.w;
    assert MulTuple(a, bt).w == a.data[3][0] * bt.x + a.data[3][1] * bt.y + a.data[3][2] * bt.z + a.data[3][3] * bt.w;
  }

  /** The same, for the sums that make up the two sides. */
  lemma ProductRowSum(a: Matrix, b: Matrix, t: Tuple, i: nat)
    requires Transform4(a) && Transform4(b) && i < 4
    ensures var ab, bt := Mul(a, b), MulTuple(b, t);
      ab.data[i][0] * t.x + ab.data[i][1] * t.y + ab.data[i][2] * t.z + ab.data[i][3] * t.w
        == a.data[i][0] * bt.x + a.data[i][1] * bt.y + a.data[i][2] * bt.z + a.data[i][3] * bt.w
  {
    RowColumnFour(a, b, i, 0);
    RowColumnFour(a, b, i, 1);
    RowColumnFour(a, b, i, 2);
    RowColumnFour(a, b, i, 3);
    ProductRowTimes(a.data[i][0], a.data[i][1], a.data[i][2], a.data[i][3],
      b.data[0][0], b.data[0][1], b.data[0][2], b.data[0][3], b.data[1][0], b.data[1][1], b.data[1][2], b.data[1][3],
      b.data[2][0], b.data[2][1], b.data[2][2], b.data[2][3], b.data[3][0], b.data[3][1], b.data[3][2], b.data[3][3],
      t.x, t.y, t.z, t.w);
  }

  /** Mapping a tuple through a product A B is mapping it through B, then A. */
  lemma MulTupleMul(a: Matrix, b: Matrix, t: Tuple)
    requires Transform4(a) && Transform4(b)
    ensures MulTuple(Mul(a, b), t) == MulTuple(a, MulTuple(b, t))
  {
    ProductX(a, b, t);
    ProductY(a, b, t);
    ProductZ(a, b, t);
    ProductW(a, b, t);
  }

  /** Translation moves points by (x, y, z) and leaves vectors alone. */
  lemma TranslationMoves(x: real, y: real, z: real, t: Tuple)
    ensures IsPoint(t) ==> MulTuple(Translation(x, y, z), t) == Point(t.x + x, t.y + y, t.z + z)
    ensures IsVector(t) ==> MulTuple(Translation(x, y, z), t) == t
  {
  }

  /** Scaling multiplies each spatial component and keeps w. */
  lemma ScalingScales(x: real, y: real, z: real, t: Tuple)
    ensures MulTuple(Scaling(x, y, z), t) == Tuple(t.x * x, t.y * y, t.z * z, t.w)
  {
  }

  /** Shearing moves each spatial component in proportion to the other two and keeps w. */
  lemma ShearingMoves(xy: real, xz: real, yx: real, yz: real, zx: real, zy: real, t: Tuple)
    ensures MulTuple(Shearing(xy, xz, yx, yz, zx, zy), t)
      == Tuple(t.x + xy * t.y + xz * t.z, t.y + yx * t.x + yz * t.z, t.z + zx * t.x + zy * t.y, t.w)
  {
  }
}
