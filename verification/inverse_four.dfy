/**
 * Cofactor inversion of the 4x4 matrices the ray tracer transforms with.
 * A 4x4 determinant is the alternating expansion of 3x3 minors along its
 * first row; it changes sign when two rows are swapped and survives
 * transposition. So expanding any row against the cofactors of a row
 * gives the determinant when the two rows are the same and 0 otherwise,
 * and every invertible 4x4 matrix times its inverse is the identity, on
 * both sides.
 */
module InverseFour {
  import opened Tuples
  import opened Matrices

  /** Four entries of one row (or column) of a 4x4 matrix. */
  datatype Row = Row(c0: real, c1: real, c2: real, c3: real)

  function Entry(r: Row, k: nat): real
  {
    if k == 0 then r.c0 else if k == 1 then r.c1 else if k == 2 then r.c2 else r.c3
  }

  /** Row i of a matrix with four columns. */
  function RowOf(m: Matrix, i: nat): (r: Row)
    requires m.Valid() && m.cols == 4 && i < m.rows
    ensures forall k :: 0 <= k < 4 ==> Entry(r, k) == m.data[i][k]
  {
    Row(m.data[i][0], m.data[i][1], m.data[i][2], m.data[i][3])
  }

  /** Column j of a matrix with four rows. */
  function ColOf(m: Matrix, j: nat): (r: Row)
    requires m.Valid() && m.rows == 4 && j < m.cols
    ensures forall k :: 0 <= k < 4 ==> Entry(r, k) == m.data[k][j]
  {
    Row(m.data[0][j], m.data[1][j], m.data[2][j], m.data[3][j])
  }

  /** The 3x3 determinant of the rows (a, b, c), (d, e, f), (g, h, i), expanded along the first row. */
  function Det3(a: real, b: real, c: real, d: real, e: real, f: real, g: real, h: real, i: real): real
  {
    a * (e * i - f * h) - b * (d * i - f * g) + c * (d * h - e * g)
  }

  /** The 3x3 determinant of three rows with column k left out. */
  function Minor3(a: Row, b: Row, c: Row, k: nat): real
  {
    if k == 0 then Det3(a.c1, a.c2, a.c3, b.c1, b.c2, b.c3, c.c1, c.c2, c.c3)
    else if k == 1 then Det3(a.c0, a.c2, a.c3, b.c0, b.c2, b.c3, c.c0, c.c2, c.c3)
    else if k == 2 then Det3(a.c0, a.c1, a.c3, b.c0, b.c1, b.c3, c.c0, c.c1, c.c3)
    else Det3(a.c0, a.c1, a.c2, b.c0, b.c1, b.c2, c.c0, c.c1, c.c2)
  }

  /** The 4x4 determinant of four rows, expanded along the first. */
  function Det4(a: Row, b: Row, c: Row, d: Row): real
  {
    a.c0 * Minor3(b, c, d, 0) - a.c1 * Minor3(b, c, d, 1) + a.c2 * Minor3(b, c, d, 2) - a.c3 * Minor3(b, c, d, 3)
  }

  // ---------------------------------------------------------------------
  // Algebra of Det4 over plain rows.
  // ---------------------------------------------------------------------

  /**
   * Det4 with the first two rows a, b spelled out against the 2x2 minors
   * m_kl of the last two rows (columns k and l kept).
   */
  function ByPairs(a0: real, a1: real, a2: real, a3: real, b0: real, b1: real, b2: real, b3: real,
                   m01: real, m02: real, m03: real, m12: real, m13: real, m23: real): real
  {
    a0 * (b1 * m23 - b2 * m13 + b3 * m12) - a1 * (b0 * m23 - b2 * m03 + b3 * m02)
      + a2 * (b0 * m13 - b1 * m03 + b3 * m01) - a3 * (b0 * m12 - b1 * m02 + b2 * m01)
  }

  /** Over plain numbers: swapping a and b in that expansion negates it. */
  lemma ByPairsSwap(a0: real, a1: real, a2: real, a3: real, b0: real, b1: real, b2: real, b3: real,
                    m01: real, m02: real, m03: real, m12: real, m13: real, m23: real)
    ensures ByPairs(a0, a1, a2, a3, b0, b1, b2, b3, m01, m02, m03, m12, m13, m23)
         == -ByPairs(b0, b1, b2, b3, a0, a1, a2, a3, m01, m02, m03, m12, m13, m23)
  {
  }

  /** Det4 is that expansion, with m_kl = c_k d_l - c_l d_k. */
  lemma Det4ByPairs(a: Row, b: Row, c: Row, d: Row)
    ensures Det4(a, b, c, d) == ByPairs(a.c0, a.c1, a.c2, a.c3, b.c0, b.c1, b.c2, b.c3,
      c.c0 * d.c1 - c.c1 * d.c0, c.c0 * d.c2 - c.c2 * d.c0, c.c0 * d.c3 - c.c3 * d.c0,
      c.c1 * d.c2 - c.c2 * d.c1, c.c1 * d.c3 - c.c3 * d.c1, c.c2 * d.c3 - c.c3 * d.c2)
  {
  }

  /** Swapping the first two rows negates the determinant. */
  lemma SwapFirst(a: Row, b: Row, c: Row, d: Row)
    ensures Det4(a, b, c, d) == -Det4(b, a, c, d)
  {
    Det4ByPairs(a, b, c, d);
    Det4ByPairs(b, a, c, d);
    ByPairsSwap(a.c0, a.c1, a.c2, a.c3, b.c0, b.c1, b.c2, b.c3,
      c.c0 * d.c1 - c.c1 * d.c0, c.c0 * d.c2 - c.c2 * d.c0, c.c0 * d.c3 - c.c3 * d.c0,
      c.c1 * d.c2 - c.c2 * d.c1, c.c1 * d.c3 - c.c3 * d.c1, c.c2 * d.c3 - c.c3 * d.c2);
  }

  /** Swapping the second and third rows negates the determinant. */
  lemma SwapSecond(a: Row, b: Row, c: Row, d: Row)
    ensures Det4(a, b, c, d) == -Det4(a, c, b, d)
  {
  }

  /** Swapping the last two rows negates the determinant. */
  lemma SwapThird(a: Row, b: Row, c: Row, d: Row)
    ensures Det4(a, b, c, d) == -Det4(a, b, d, c)
  {
  }

  /** A repeated row makes the determinant 0, wherever the copy sits. */
  lemma RepeatedRow(a: Row, b: Row, c: Row, d: Row)
    ensures Det4(a, a, c, d) == 0.0
    ensures Det4(a, b, a, d) == 0.0
    ensures Det4(a, b, c, a) == 0.0
  {
    SwapFirst(a, a, c, d);
    SwapSecond(a, b, a, d);
    SwapFirst(a, a, b, d);
    SwapThird(a, b, c, a);
    SwapSecond(a, b, a, c);
    SwapFirst(a, a, b, c);
  }

  /** The determinant of the columns is the determinant of the rows. */
  lemma Transposed(a: Row, b: Row, c: Row, d: Row)
    ensures Det4(a, b, c, d) == Det4(Row(a.c0, b.c0, c.c0, d.c0), Row(a.c1, b.c1, c.c1, d.c1),
                                     Row(a.c2, b.c2, c.c2, d.c2), Row(a.c3, b.c3, c.c3, d.c3))
  {
  }

  /** The i-th of four rows. */
  function Pick(r0: Row, r1: Row, r2: Row, r3: Row, i: nat): Row
  {
    if i == 0 then r0 else if i == 1 then r1 else if i == 2 then r2 else r3
  }

  /**
   * Row i expanded against the signed minors of row j, with the other
   * three rows kept in order: the determinant when i == j, 0 otherwise.
   */
  lemma ExpandAgainst(r0: Row, r1: Row, r2: Row, r3: Row, i: nat, j: nat)
    requires i < 4 && j < 4
    ensures var e := Det4(Pick(r0, r1, r2, r3, i), Pick(r0, r1, r2, r3, Skip(0, j)),
                          Pick(r0, r1, r2, r3, Skip(1, j)), Pick(r0, r1, r2, r3, Skip(2, j)));
      (if j % 2 == 0 then e else -e) == if i == j then Det4(r0, r1, r2, r3) else 0.0
  {
    if i != j {
      RepeatedRow(Pick(r0, r1, r2, r3, i), Pick(r0, r1, r2, r3, Skip(0, j)),
                  Pick(r0, r1, r2, r3, Skip(1, j)), Pick(r0, r1, r2, r3, Skip(2, j)));
    } else if j == 1 {
      SwapFirst(r1, r0, r2, r3);
    } else if j == 2 {
      SwapFirst(r2, r0, r1, r3);
      SwapSecond(r0, r2, r1, r3);
    } else if j == 3 {
      SwapFirst(r3, r0, r1, r2);
      SwapSecond(r0, r3, r1, r2);
      SwapThird(r0, r1, r3, r2);
    }
  }

  // ---------------------------------------------------------------------
  // The recursive determinant and cofactors of 3x3 and 4x4 matrices.
  // ---------------------------------------------------------------------

  /** The minor of entry (0, k) of a 3x3 matrix: the 2x2 determinant of rows 1 and 2 without column k. */
  lemma MinorOfThree(s: Matrix, k: nat)
    requires IsSquare(s, 3) && k < 3
    ensures Determinant(Submatrix(s, 0, k))
      == s.data[1][Skip(0, k)] * s.data[2][Skip(1, k)] - s.data[1][Skip(1, k)] * s.data[2][Skip(0, k)]
  {
    var t := Submatrix(s, 0, k);
    assert t.data[0][0] == s.data[1][Skip(0, k)] && t.data[0][1] == s.data[1][Skip(1, k)];
    assert t.data[1][0] == s.data[2][Skip(0, k)] && t.data[1][1] == s.data[2][Skip(1, k)];
  }

  /** A 3x3 determinant is the six-term formula. */
  lemma DeterminantThree(s: Matrix)
    requires IsSquare(s, 3)
    ensures Determinant(s) == Det3(s.data[0][0], s.data[0][1], s.data[0][2],
                                   s.data[1][0], s.data[1][1], s.data[1][2],
                                   s.data[2][0], s.data[2][1], s.data[2][2])
  {
    MinorOfThree(s, 0);
    MinorOfThree(s, 1);
    MinorOfThree(s, 2);
    assert Determinant(s) == ExpandRow0(s, 3);
    assert ExpandRow0(s, 1) == 0.0 + s.data[0][0] * Cofactor(s, 0, 0);
    ExpandThree(Determinant(s), ExpandRow0(s, 2), ExpandRow0(s, 1),
      Cofactor(s, 0, 0), Cofactor(s, 0, 1), Cofactor(s, 0, 2),
      s.data[0][0], s.data[0][1], s.data[0][2], s.data[1][0], s.data[1][1], s.data[1][2],
      s.data[2][0], s.data[2][1], s.data[2][2]);
  }

  /** Over plain numbers: a three-term expansion along the first row, with 2x2 cofactors, is Det3. */
  lemma ExpandThree(det: real, e2: real, e1: real, x: real, y: real, z: real,
                    a: real, b: real, c: real, d: real, e: real, f: real, g: real, h: real, i: real)
    requires det == e2 + c * z && e2 == e1 + b * y && e1 == 0.0 + a * x
    requires x == e * i - f * h && y == -(d * i - f * g) && z == d * h - e * g
    ensures det == Det3(a, b, c, d, e, f, g, h, i)
  {
  }

  /** Transposing the nine entries leaves a 3x3 determinant unchanged. */
  lemma Det3Transposed(a: real, b: real, c: real, d: real, e: real, f: real, g: real, h: real, i: real)
    ensures Det3(a, b, c, d, e, f, g, h, i) == Det3(a, d, g, b, e, h, c, f, i)
  {
  }

  /** The three rows of m other than row j, in order. */
  function OtherRow(m: Matrix, j: nat, r: nat): Row
    requires IsSquare(m, 4) && j < 4 && r < 3
  {
    RowOf(m, Skip(r, j))
  }

  /** The three columns of m other than column k, in order. */
  function OtherCol(m: Matrix, k: nat, r: nat): Row
    requires IsSquare(m, 4) && k < 4 && r < 3
  {
    ColOf(m, Skip(r, k))
  }

  /** A cofactor of a 4x4 matrix is the signed 3x3 minor of the other rows with column k left out. */
  lemma CofactorByRows(m: Matrix, j: nat, k: nat)
    requires IsSquare(m, 4) && j < 4 && k < 4
    ensures var minor := Minor3(OtherRow(m, j, 0), OtherRow(m, j, 1), OtherRow(m, j, 2), k);
      Cofactor(m, j, k) == if (j % 2 == 0) == (k % 2 == 0) then minor else -minor
  {
    var s := Submatrix(m, j, k);
    DeterminantThree(s);
  }

  /** The same cofactor as the signed 3x3 minor of the other columns with row j left out. */
  lemma CofactorByColumns(m: Matrix, j: nat, k: nat)
    requires IsSquare(m, 4) && j < 4 && k < 4
    ensures var minor := Minor3(OtherCol(m, k, 0), OtherCol(m, k, 1), OtherCol(m, k, 2), j);
      Cofactor(m, j, k) == if (j % 2 == 0) == (k % 2 == 0) then minor else -minor
  {
    var s := Submatrix(m, j, k);
    DeterminantThree(s);
    Det3Transposed(s.data[0][0], s.data[0][1], s.data[0][2],
                   s.data[1][0], s.data[1][1], s.data[1][2],
                   s.data[2][0], s.data[2][1], s.data[2][2]);
  }

  /** The determinant of a 4x4 matrix is Det4 of its rows, and of its columns. */
  lemma DeterminantFour(m: Matrix)
    requires IsSquare(m, 4)
    ensures Determinant(m) == Det4(RowOf(m, 0), RowOf(m, 1), RowOf(m, 2), RowOf(m, 3))
    ensures Determinant(m) == Det4(ColOf(m, 0), ColOf(m, 1), ColOf(m, 2), ColOf(m, 3))
  {
    assert Determinant(m) == ExpandRow0(m, 4);
    assert ExpandRow0(m, 1) == 0.0 + m.data[0][0] * Cofactor(m, 0, 0);
    FourPartials(ExpandRow0(m, 4), ExpandRow0(m, 3), ExpandRow0(m, 2), ExpandRow0(m, 1),
      m.data[0][0] * Cofactor(m, 0, 0), m.data[0][1] * Cofactor(m, 0, 1),
      m.data[0][2] * Cofactor(m, 0, 2), m.data[0][3] * Cofactor(m, 0, 3));
    assert RowExpansion(m, 0, 0) == Determinant(m);
    RowExpansionByMinors(m, 0, 0);
    assert OtherRow(m, 0, 0) == RowOf(m, 1) && OtherRow(m, 0, 1) == RowOf(m, 2) && OtherRow(m, 0, 2) == RowOf(m, 3);
    Transposed(RowOf(m, 0), RowOf(m, 1), RowOf(m, 2), RowOf(m, 3));
  }

  /** Over plain numbers: four partial sums starting from 0 add up to the four terms. */
  lemma FourPartials(r4: real, r3: real, r2: real, r1: real, t0: real, t1: real, t2: real, t3: real)
    requires r4 == r3 + t3 && r3 == r2 + t2 && r2 == r1 + t1 && r1 == 0.0 + t0
    ensures r4 == t0 + t1 + t2 + t3
  {
  }

  /** Over plain numbers: terms against alternately signed minors give the alternating sum, or its negation. */
  lemma SignedSum(a0: real, a1: real, a2: real, a3: real, c0: real, c1: real, c2: real, c3: real,
                  y0: real, y1: real, y2: real, y3: real, even: bool)
    requires even ==> c0 == y0 && c1 == -y1 && c2 == y2 && c3 == -y3
    requires !even ==> c0 == -y0 && c1 == y1 && c2 == -y2 && c3 == y3
    ensures var alt := a0 * y0 - a1 * y1 + a2 * y2 - a3 * y3;
      a0 * c0 + a1 * c1 + a2 * c2 + a3 * c3 == if even then alt else -alt
  {
  }

  /** Det4 is the alternating sum of the first row against the minors of the other three. */
  lemma Det4ByMinors(x: Row, p: Row, q: Row, r: Row, y0: real, y1: real, y2: real, y3: real)
    requires y0 == Minor3(p, q, r, 0) && y1 == Minor3(p, q, r, 1) && y2 == Minor3(p, q, r, 2) && y3 == Minor3(p, q, r, 3)
    ensures Det4(x, p, q, r) == x.c0 * y0 - x.c1 * y1 + x.c2 * y2 - x.c3 * y3
  {
  }

  /**
   * Terms a_k (the entries of x) against cofactors c_k that are the minors of
   * p, q, r with alternating signs sum to Det4(x, p, q, r), or its negation.
   */
  lemma ExpansionByMinors(x: Row, p: Row, q: Row, r: Row, a0: real, a1: real, a2: real, a3: real,
                          c0: real, c1: real, c2: real, c3: real, even: bool)
    requires a0 == x.c0 && a1 == x.c1 && a2 == x.c2 && a3 == x.c3
    requires var y0, y1, y2, y3 := Minor3(p, q, r, 0), Minor3(p, q, r, 1), Minor3(p, q, r, 2), Minor3(p, q, r, 3);
      if even then c0 == y0 && c1 == -y1 && c2 == y2 && c3 == -y3
      else c0 == -y0 && c1 == y1 && c2 == -y2 && c3 == y3
    ensures a0 * c0 + a1 * c1 + a2 * c2 + a3 * c3 == if even then Det4(x, p, q, r) else -Det4(x, p, q, r)
  {
    var y0, y1, y2, y3 := Minor3(p, q, r, 0), Minor3(p, q, r, 1), Minor3(p, q, r, 2), Minor3(p, q, r, 3);
    SignedSum(a0, a1, a2, a3, c0, c1, c2, c3, y0, y1, y2, y3, even);
    Det4ByMinors(x, p, q, r, y0, y1, y2, y3);
  }

  // ---------------------------------------------------------------------
  // Expansions against cofactors, and the inverse.
  // ---------------------------------------------------------------------

  /** Row i of m against the cofactors of row j. */
  function RowExpansion(m: Matrix, i: nat, j: nat): real
    requires IsSquare(m, 4) && i < 4 && j < 4
  {
    m.data[i][0] * Cofactor(m, j, 0) + m.data[i][1] * Cofactor(m, j, 1)
      + m.data[i][2] * Cofactor(m, j, 2) + m.data[i][3] * Cofactor(m, j, 3)
  }

  /** Column j of m against the cofactors of column i. */
  function ColumnExpansion(m: Matrix, i: nat, j: nat): real
    requires IsSquare(m, 4) && i < 4 && j < 4
  {
    m.data[0][j] * Cofactor(m, 0, i) + m.data[1][j] * Cofactor(m, 1, i)
      + m.data[2][j] * Cofactor(m, 2, i) + m.data[3][j] * Cofactor(m, 3, i)
  }

  /** Row i against the cofactors of row j is Det4 of row i over the other rows, negated when j is odd. */
  lemma RowExpansionByMinors(m: Matrix, i: nat, j: nat)
    requires IsSquare(m, 4) && i < 4 && j < 4
    ensures var e := Det4(RowOf(m, i), OtherRow(m, j, 0), OtherRow(m, j, 1), OtherRow(m, j, 2));
      RowExpansion(m, i, j) == if j % 2 == 0 then e else -e
  {
    var x, p, q, r := RowOf(m, i), OtherRow(m, j, 0), OtherRow(m, j, 1), OtherRow(m, j, 2);
    assert Entry(x, 0) == x.c0 && Entry(x, 1) == x.c1 && Entry(x, 2) == x.c2 && Entry(x, 3) == x.c3;
    CofactorByRows(m, j, 0);
    CofactorByRows(m, j, 1);
    CofactorByRows(m, j, 2);
    CofactorByRows(m, j, 3);
    ExpansionByMinors(x, p, q, r, m.data[i][0], m.data[i][1], m.data[i][2], m.data[i][3],
      Cofactor(m, j, 0), Cofactor(m, j, 1), Cofactor(m, j, 2), Cofactor(m, j, 3), j % 2 == 0);
  }

  /** Column j against the cofactors of column i is Det4 of column j over the other columns, negated when i is odd. */
  lemma ColumnExpansionByMinors(m: Matrix, i: nat, j: nat)
    requires IsSquare(m, 4) && i < 4 && j < 4
    ensures var e := Det4(ColOf(m, j), OtherCol(m, i, 0), OtherCol(m, i, 1), OtherCol(m, i, 2));
      ColumnExpansion(m, i, j) == if i % 2 == 0 then e else -e
  {
    var x, p, q, r := ColOf(m, j), OtherCol(m, i, 0), OtherCol(m, i, 1), OtherCol(m, i, 2);
    assert Entry(x, 0) == x.c0 && Entry(x, 1) == x.c1 && Entry(x, 2) == x.c2 && Entry(x, 3) == x.c3;
    CofactorByColumns(m, 0, i);
    CofactorByColumns(m, 1, i);
    CofactorByColumns(m, 2, i);
    CofactorByColumns(m, 3, i);
    ExpansionByMinors(x, p, q, r, m.data[0][j], m.data[1][j], m.data[2][j], m.data[3][j],
      Cofactor(m, 0, i), Cofactor(m, 1, i), Cofactor(m, 2, i), Cofactor(m, 3, i), i % 2 == 0);
  }

  /** Expanding row i against the cofactors of row j gives the determinant when i == j and 0 otherwise. */
  lemma RowExpansionFour(m: Matrix, i: nat, j: nat)
    requires IsSquare(m, 4) && i < 4 && j < 4
    ensures RowExpansion(m, i, j) == if i == j then Determinant(m) else 0.0
  {
    var r0, r1, r2, r3 := RowOf(m, 0), RowOf(m, 1), RowOf(m, 2), RowOf(m, 3);
    assert RowOf(m, i) == Pick(r0, r1, r2, r3, i);
    assert forall r :: 0 <= r < 3 ==> OtherRow(m, j, r) == Pick(r0, r1, r2, r3, Skip(r, j));
    RowExpansionByMinors(m, i, j);
    DeterminantFour(m);
    ExpandAgainst(r0, r1, r2, r3, i, j);
  }

  /** Expanding column j against the cofactors of column i gives the determinant when i == j and 0 otherwise. */
  lemma ColumnExpansionFour(m: Matrix, i: nat, j: nat)
    requires IsSquare(m, 4) && i < 4 && j < 4
    ensures ColumnExpansion(m, i, j) == if i == j then Determinant(m) else 0.0
  {
    var c0, c1, c2, c3 := ColOf(m, 0), ColOf(m, 1), ColOf(m, 2), ColOf(m, 3);
    assert ColOf(m, j) == Pick(c0, c1, c2, c3, j);
    assert forall r :: 0 <= r < 3 ==> OtherCol(m, i, r) == Pick(c0, c1, c2, c3, Skip(r, i));
    ColumnExpansionByMinors(m, i, j);
    DeterminantFour(m);
    ExpandAgainst(c0, c1, c2, c3, j, i);
  }

  /**
   * Over plain numbers: with b_k = c_k / d, the sum s of the a_k b_k is
   * e / d for e the sum of the a_k c_k; so when e is d or 0, s is 1 or 0.
   */
  lemma SumOverDeterminant(s: real, e: real, a0: real, a1: real, a2: real, a3: real, b0: real, b1: real, b2: real, b3: real,
                           c0: real, c1: real, c2: real, c3: real, d: real, same: bool)
    requires d != 0.0 && b0 == c0 / d && b1 == c1 / d && b2 == c2 / d && b3 == c3 / d
    requires s == a0 * b0 + a1 * b1 + a2 * b2 + a3 * b3 || s == b0 * a0 + b1 * a1 + b2 * a2 + b3 * a3
    requires e == a0 * c0 + a1 * c1 + a2 * c2 + a3 * c3
    requires e == if same then d else 0.0
    ensures s == if same then 1.0 else 0.0
  {
    TimesQuotient(a0, c0, d);
    TimesQuotient(a1, c1, d);
    TimesQuotient(a2, c2, d);
    TimesQuotient(a3, c3, d);
    SumOfQuotients(a0 * c0, a1 * c1, a2 * c2, a3 * c3, d);
    if same {
      assert e / d == 1.0;
    } else {
      assert e / d == 0.0;
    }
  }

  /** Over plain numbers: a (c / d) is (a c) / d, in either order of the product. */
  lemma TimesQuotient(a: real, c: real, d: real)
    requires d != 0.0
    ensures a * (c / d) == (a * c) / d && (c / d) * a == (a * c) / d
  {
  }

  /** Over plain numbers: a sum of quotients by d is the quotient of the sum. */
  lemma SumOfQuotients(x0: real, x1: real, x2: real, x3: real, d: real)
    requires d != 0.0
    ensures x0 / d + x1 / d + x2 / d + x3 / d == (x0 + x1 + x2 + x3) / d
  {
  }

  /** A 4x4 matrix whose entries are those of the identity is the identity. */
  lemma IsIdentityFour(p: Matrix)
    requires IsSquare(p, 4)
    requires forall i, j :: 0 <= i < 4 && 0 <= j < 4 ==> p.data[i][j] == if i == j then 1.0 else 0.0
    ensures p == IdentityN(4)
  {
    var id := IdentityN(4);
    assert forall i | 0 <= i < 4 :: p.data[i] == id.data[i];
  }

  /** Entry (i, j) of m times its inverse: row i against the cofactors of row j, over the determinant. */
  lemma RightInverseEntry(m: Matrix, i: nat, j: nat)
    requires Invertible(m) && m.rows == 4 && i < 4 && j < 4
    ensures Mul(m, Inverse(m)).data[i][j] == if i == j then 1.0 else 0.0
  {
    var inv := Inverse(m);
    RowColumnFour(m, inv, i, j);
    RowExpansionFour(m, i, j);
    SumOverDeterminant(RowColumnByHand(m, inv, i, j), RowExpansion(m, i, j),
      m.data[i][0], m.data[i][1], m.data[i][2], m.data[i][3],
      inv.data[0][j], inv.data[1][j], inv.data[2][j], inv.data[3][j],
      Cofactor(m, j, 0), Cofactor(m, j, 1), Cofactor(m, j, 2), Cofactor(m, j, 3), Determinant(m), i == j);
  }

  /** Entry (i, j) of the inverse times m: column j against the cofactors of column i, over the determinant. */
  lemma LeftInverseEntry(m: Matrix, i: nat, j: nat)
    requires Invertible(m) && m.rows == 4 && i < 4 && j < 4
    ensures Mul(Inverse(m), m).data[i][j] == if i == j then 1.0 else 0.0
  {
    var inv := Inverse(m);
    RowColumnFour(inv, m, i, j);
    ColumnExpansionFour(m, i, j);
    SumOverDeterminant(RowColumnByHand(inv, m, i, j), ColumnExpansion(m, i, j),
      m.data[0][j], m.data[1][j], m.data[2][j], m.data[3][j],
      inv.data[i][0], inv.data[i][1], inv.data[i][2], inv.data[i][3],
      Cofactor(m, 0, i), Cofactor(m, 1, i), Cofactor(m, 2, i), Cofactor(m, 3, i), Determinant(m), i == j);
  }

  /** Every invertible 4x4 matrix times its inverse is the identity, on both sides. */
  lemma InverseFourByFour(m: Matrix)
    requires Invertible(m) && m.rows == 4
    ensures Mul(m, Inverse(m)) == IdentityN(4)
    ensures Mul(Inverse(m), m) == IdentityN(4)
  {
    forall i, j | 0 <= i < 4 && 0 <= j < 4
      ensures Mul(m, Inverse(m)).data[i][j] == if i == j then 1.0 else 0.0
      ensures Mul(Inverse(m), m).data[i][j] == if i == j then 1.0 else 0.0
    {
      RightInverseEntry(m, i, j);
      LeftInverseEntry(m, i, j);
    }
    IsIdentityFour(Mul(m, Inverse(m)));
    IsIdentityFour(Mul(Inverse(m), m));
  }

  /** A translation has determinant 1. */
  lemma TranslationDeterminant(x: real, y: real, z: real)
    ensures Determinant(Translation(x, y, z)) == 1.0
  {
    var t := Translation(x, y, z);
    DeterminantFour(t);
    assert RowOf(t, 0) == Row(1.0, 0.0, 0.0, x) && RowOf(t, 1) == Row(0.0, 1.0, 0.0, y);
    assert RowOf(t, 2) == Row(0.0, 0.0, 1.0, z) && RowOf(t, 3) == Row(0.0, 0.0, 0.0, 1.0);
  }

  /**
   * Row i of a left inverse of a translation: its first three entries are
   * those of the identity, and the last is the identity's less the shift.
   */
  lemma LeftInverseOfTranslationRow(a: Matrix, x: real, y: real, z: real, i: nat)
    requires IsSquare(a, 4) && i < 4 && Mul(a, Translation(x, y, z)) == IdentityN(4)
    ensures forall j :: 0 <= j < 4 ==> a.data[i][j] == Translation(-x, -y, -z).data[i][j]
  {
    var t, u := Translation(x, y, z), Translation(-x, -y, -z);
    RowColumnFour(a, t, i, 0);
    RowColumnFour(a, t, i, 1);
    RowColumnFour(a, t, i, 2);
    RowColumnFour(a, t, i, 3);
    assert a.data[i][0] == u.data[i][0] && a.data[i][1] == u.data[i][1] && a.data[i][2] == u.data[i][2];
  }

  /** `Matrix::translation(x, y, z).inverse()` is the translation by (-x, -y, -z), and undoes it on both sides. */
  lemma InverseTranslation(x: real, y: real, z: real)
    ensures Invertible(Translation(x, y, z))
    ensures Inverse(Translation(x, y, z)) == Translation(-x, -y, -z)
    ensures Mul(Translation(x, y, z), Inverse(Translation(x, y, z))) == IdentityN(4)
    ensures Mul(Inverse(Translation(x, y, z)), Translation(x, y, z)) == IdentityN(4)
  {
    var t, u := Translation(x, y, z), Translation(-x, -y, -z);
    TranslationDeterminant(x, y, z);
    InverseFourByFour(t);
    var inv := Inverse(t);
    forall i | 0 <= i < 4
      ensures inv.data[i] == u.data[i]
    {
      LeftInverseOfTranslationRow(inv, x, y, z, i);
    }
  }

  /** Mapping a tuple through an invertible 4x4 matrix and its inverse, in either order, gives the tuple back. */
  lemma InverseUndoes(m: Matrix, t: Tuple)
    requires Invertible(m) && m.rows == 4
    ensures MulTuple(m, MulTuple(Inverse(m), t)) == t
    ensures MulTuple(Inverse(m), MulTuple(m, t)) == t
  {
    InverseFourByFour(m);
    MulTupleMul(m, Inverse(m), t);
    MulTupleMul(Inverse(m), m, t);
    IdentityTimesTuple(t);
  }

  /** The inverse of a translation moves points back by (x, y, z). */
  lemma InverseTranslationMoves(x: real, y: real, z: real, px: real, py: real, pz: real)
    ensures Invertible(Translation(x, y, z))
    ensures MulTuple(Inverse(Translation(x, y, z)), Point(px, py, pz)) == Point(px - x, py - y, pz - z)
  {
    InverseTranslation(x, y, z);
    TranslationMoves(-x, -y, -z, Point(px, py, pz));
  }
}
