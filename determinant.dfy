/** The determinant engine of `MatrixDeterminant`: the closed forms `det`
    uses up to 3x3, the Berkowitz characteristic-polynomial vector and the
    recursive Bareiss algorithm. Each is compared with the cofactor
    expansion `Laplace` of the matrix module. */
module Determinants {
  import opened Common
  import opened Matrices
  import opened Pivot

  // ---------------------------------------------------------------------
  // Facts about the reference determinant
  // ---------------------------------------------------------------------

  /** The diagonal product, peeled from the top left corner. */
  lemma {:induction false} DiagProductFirst(m: Mat, k: nat)
    requires 1 <= k <= m.rows && k <= m.cols
    ensures DiagProduct(m, k) == m.e[0][0] * DiagProduct(Extract(m, 0, 0), k - 1)
    decreases k
  {
    if k > 1 {
      DiagProductFirst(m, k - 1);
      var e := Extract(m, 0, 0);
      assert e.e[k - 2][k - 2] == m.e[k - 1][k - 1];
    }
  }

  /** Terms of the expansion whose first-column entry is zero vanish. */
  lemma {:induction false} LaplaceFromZeroColumn(m: Mat, k: nat)
    requires IsSquare(m) && 0 < m.rows && k <= m.rows
    requires forall i | k <= i < m.rows :: m.e[i][0] == 0.0
    ensures LaplaceFrom(m, k) == 0.0
    decreases m.rows - k
  {
    if k < m.rows {
      LaplaceFromZeroColumn(m, k + 1);
      assert ExpansionTerm(m, k) == 0.0;
    }
  }

  /** The minor of the top left entry of an upper-triangular matrix is
      upper triangular. */
  lemma CornerMinorUpper(m: Mat)
    requires IsSquare(m) && 0 < m.rows && UpperTriangular(m)
    ensures UpperTriangular(Extract(m, 0, 0))
  {
    var e := Extract(m, 0, 0);
    forall i, j | 0 <= j < i < e.rows && j < e.cols ensures e.e[i][j] == 0.0 {
      assert e.e[i][j] == m.e[i + 1][j + 1];
    }
  }

  /** When the first column is zero below the top, the expansion keeps only
      its first term. */
  lemma LaplaceUpperStep(m: Mat)
    requires IsSquare(m) && 0 < m.rows
    requires forall i | 1 <= i < m.rows :: m.e[i][0] == 0.0
    ensures Laplace(m) == m.e[0][0] * Laplace(Extract(m, 0, 0))
  {
    LaplaceFromZeroColumn(m, 1);
    assert Laplace(m) == ExpansionTerm(m, 0) + LaplaceFrom(m, 1);
    assert Sign(0) == 1.0;
  }

  /** The determinant of an upper-triangular matrix is its diagonal product. */
  lemma {:induction false} LaplaceUpperTriangular(m: Mat)
    requires IsSquare(m) && UpperTriangular(m)
    ensures Laplace(m) == DiagProduct(m, m.rows)
    decreases m.rows
  {
    if m.rows > 0 {
      var e := Extract(m, 0, 0);
      CornerMinorUpper(m);
      LaplaceUpperTriangular(e);
      LaplaceUpperStep(m);
      DiagProductFirst(m, m.rows);
    }
  }

  lemma Laplace1(m: Mat)
    requires m.rows == 1 && m.cols == 1
    ensures Laplace(m) == m.e[0][0]
  {
    assert Sign(0) == 1.0;
    assert ExpansionTerm(m, 0) == m.e[0][0] * Laplace(Extract(m, 0, 0));
    assert Laplace(m) == ExpansionTerm(m, 0) + LaplaceFrom(m, 1);
  }

  lemma Laplace2(m: Mat)
    requires m.rows == 2 && m.cols == 2
    ensures Laplace(m) == m.e[0][0] * m.e[1][1] - m.e[0][1] * m.e[1][0]
  {
    var e0, e1 := Extract(m, 0, 0), Extract(m, 1, 0);
    Laplace1(e0);
    Laplace1(e1);
    assert e0.e[0][0] == m.e[1][1] && e1.e[0][0] == m.e[0][1];
    assert Sign(0) == 1.0 && Sign(1) == -1.0;
    assert ExpansionTerm(m, 1) == -1.0 * m.e[1][0] * Laplace(e1);
    assert ExpansionTerm(m, 0) == m.e[0][0] * Laplace(e0);
    assert LaplaceFrom(m, 1) == ExpansionTerm(m, 1) + LaplaceFrom(m, 2);
    assert Laplace(m) == ExpansionTerm(m, 0) + LaplaceFrom(m, 1);
  }

  lemma Laplace3(m: Mat)
    requires m.rows == 3 && m.cols == 3
    ensures Laplace(m) == Det3(m)
  {
    var e0, e1, e2 := Extract(m, 0, 0), Extract(m, 1, 0), Extract(m, 2, 0);
    Laplace2(e0);
    Laplace2(e1);
    Laplace2(e2);
    assert e0.e[0][0] == m.e[1][1] && e0.e[0][1] == m.e[1][2] && e0.e[1][0] == m.e[2][1] && e0.e[1][1] == m.e[2][2];
    assert e1.e[0][0] == m.e[0][1] && e1.e[0][1] == m.e[0][2] && e1.e[1][0] == m.e[2][1] && e1.e[1][1] == m.e[2][2];
    assert e2.e[0][0] == m.e[0][1] && e2.e[0][1] == m.e[0][2] && e2.e[1][0] == m.e[1][1] && e2.e[1][1] == m.e[1][2];
    assert Sign(0) == 1.0 && Sign(1) == -1.0 && Sign(2) == 1.0;
    assert ExpansionTerm(m, 2) == m.e[2][0] * Laplace(e2);
    assert ExpansionTerm(m, 1) == -1.0 * m.e[1][0] * Laplace(e1);
    assert ExpansionTerm(m, 0) == m.e[0][0] * Laplace(e0);
    assert LaplaceFrom(m, 2) == ExpansionTerm(m, 2) + LaplaceFrom(m, 3);
    assert LaplaceFrom(m, 1) == ExpansionTerm(m, 1) + LaplaceFrom(m, 2);
    assert Laplace(m) == ExpansionTerm(m, 0) + LaplaceFrom(m, 1);
  }

  // ---------------------------------------------------------------------
  // Closed forms of det for n <= 3
  // ---------------------------------------------------------------------

  /** The two-term expansion `det` uses for a 2x2 matrix. */
  function Det2(m: Mat): real
    requires m.rows == 2 && m.cols == 2
  {
    m.e[0][0] * m.e[1][1] - m.e[0][1] * m.e[1][0]
  }

  /** The six-term expansion `det` uses for a 3x3 matrix. */
  function Det3(m: Mat): real
    requires m.rows == 3 && m.cols == 3
  {
    Sarrus(m.e[0][0], m.e[0][1], m.e[0][2], m.e[1][0], m.e[1][1], m.e[1][2], m.e[2][0], m.e[2][1], m.e[2][2])
  }

  /** The rule of Sarrus on the entries of a 3x3 matrix, row by row. */
  function Sarrus(a: real, b: real, c: real, d: real, e: real, f: real, g: real, h: real, i: real): real
  {
    a * e * i + b * f * g + c * d * h - c * e * g - a * f * h - b * d * i
  }

  /** The hard-coded determinant of `det` for matrices up to 3x3; it is the
      cofactor expansion. */
  function ClosedForm(m: Mat): (d: real)
    requires IsSquare(m) && m.rows <= 3
    ensures d == Laplace(m)
  {
    if m.rows == 0 then 1.0
    else if m.rows == 1 then Laplace1(m); m.e[0][0]
    else if m.rows == 2 then Laplace2(m); Det2(m)
    else Laplace3(m); Det3(m)
  }

  // ---------------------------------------------------------------------
  // Berkowitz
  // ---------------------------------------------------------------------

  /** `a, R = self[0,0], self[0, 1:]`: the first row without its first entry. */
  function FirstRowRest(m: Mat): (r: seq<real>)
    requires 0 < m.rows && 0 < m.cols
    ensures |r| == m.cols - 1
  {
    seq(m.cols - 1, j requires 0 <= j < m.cols - 1 => m.e[0][j + 1])
  }

  /** `C = self[1:, 0]`: the first column without its first entry. */
  function FirstColumnRest(m: Mat): (c: seq<real>)
    requires 0 < m.rows && 0 < m.cols
    ensures |c| == m.rows - 1
  {
    seq(m.rows - 1, i requires 0 <= i < m.rows - 1 => m.e[i + 1][0])
  }

  /** `diags`: [C, A*C, ..., A**(k-1)*C], each vector from the one before. */
  function Krylov(a: Mat, c: seq<real>, k: nat): (ds: seq<seq<real>>)
    requires IsSquare(a) && |c| == a.cols
    ensures |ds| == k && forall i | 0 <= i < k :: |ds[i]| == a.rows
  {
    if k == 0 then []
    else if k == 1 then [c]
    else
      var ds := Krylov(a, c, k - 1);
      ds + [MatVec(a, ds[k - 2])]
  }

  /** The first column of the Toeplitz matrix: 1, -a, -R*C, -R*A*C, ... */
  function ToeplitzDiagonals(m: Mat): (d: seq<real>)
    requires IsSquare(m) && 0 < m.rows
    ensures |d| == m.rows + 1 && d[0] == 1.0 && d[1] == -m.e[0][0]
  {
    var a := Extract(m, 0, 0);
    var ds := Krylov(a, FirstColumnRest(m), m.rows - 1);
    var r := FirstRowRest(m);
    [1.0, -m.e[0][0]] + seq(m.rows - 1, i requires 0 <= i < m.rows - 1 => -Dot(r, ds[i]))
  }

  /** `_eval_berkowitz_toeplitz_matrix`: the (n+1) x n lower-triangular
      Toeplitz matrix built from the diagonals (its first principal
      submatrix A is `Extract(m, 0, 0)`). */
  function Toeplitz(m: Mat): (t: Mat)
    requires IsSquare(m) && 0 < m.rows
    ensures t.rows == m.rows + 1 && t.cols == m.rows
    ensures forall i, j | 0 <= i <= m.rows && 0 <= j < m.rows ::
      t.e[i][j] == if j > i then 0.0 else ToeplitzDiagonals(m)[i - j]
  {
    var d := ToeplitzDiagonals(m);
    Matrix(m.rows + 1, m.rows, seq(m.rows + 1, i requires 0 <= i < m.rows + 1 =>
      seq(m.rows, j requires 0 <= j < m.rows => if j > i then 0.0 else d[i - j])))
  }

  /** `_eval_berkowitz_vector`: the coefficients of det(t*I - M), highest
      power first; each level multiplies the Toeplitz matrix of M into the
      vector of its first principal submatrix. */
  function BerkowitzVector(m: Mat): (v: seq<real>)
    requires IsSquare(m)
    ensures |v| == m.rows + 1
    decreases m.rows
  {
    if m.rows == 0 then [1.0]
    else if m.rows == 1 then [1.0, -m.e[0][0]]
    else MatVec(Toeplitz(m), BerkowitzVector(Extract(m, 0, 0)))
  }

  /** `(-1)**(len(v) - 1) * v[-1]`. */
  function LastSigned(v: seq<real>): real
    requires 0 < |v|
  {
    if (|v| - 1) % 2 == 0 then v[|v| - 1] else -v[|v| - 1]
  }

  /** `_eval_det_berkowitz`. */
  function DetBerkowitz(m: Mat): real
    requires IsSquare(m)
  {
    LastSigned(BerkowitzVector(m))
  }

  /** The leading entry of a Toeplitz product is the leading entry of the
      vector it multiplies. */
  lemma ToeplitzLeading(m: Mat, w: seq<real>)
    requires IsSquare(m) && 0 < m.rows && |w| == m.rows
    ensures MatVec(Toeplitz(m), w)[0] == w[0]
  {
    var t := Toeplitz(m);
    DotSingle(t.e[0], w, 0, 1.0);
  }

  /** The polynomial is monic: the leading coefficient is 1. */
  lemma {:induction false} BerkowitzMonic(m: Mat)
    requires IsSquare(m)
    ensures BerkowitzVector(m)[0] == 1.0
    decreases m.rows
  {
    if m.rows > 1 {
      BerkowitzMonic(Extract(m, 0, 0));
      ToeplitzLeading(m, BerkowitzVector(Extract(m, 0, 0)));
    }
  }

  /** The second entry of a Toeplitz product: -a w[0] + w[1]. */
  lemma ToeplitzSecond(m: Mat, w: seq<real>)
    requires IsSquare(m) && 1 < m.rows && |w| == m.rows && w[0] == 1.0
    ensures MatVec(Toeplitz(m), w)[1] == w[1] - m.e[0][0]
  {
    var t := Toeplitz(m);
    DotSparse(t.e[1], w, 0, 1);
  }

  /** The coefficient of t**(n-1) is minus the trace. */
  lemma {:induction false} BerkowitzTrace(m: Mat)
    requires IsSquare(m) && 0 < m.rows
    ensures BerkowitzVector(m)[1] == -Trace(m)
    decreases m.rows
  {
    if m.rows > 1 {
      var a := Extract(m, 0, 0);
      BerkowitzTrace(a);
      BerkowitzMonic(a);
      ToeplitzSecond(m, BerkowitzVector(a));
      assert Trace(m) == m.e[0][0] + Trace(a);
    }
  }

  /** A dot product with a zero vector. */
  lemma DotZero(a: seq<real>, z: seq<real>)
    requires |a| == |z| && forall k | 0 <= k < |z| :: z[k] == 0.0
    ensures Dot(a, z) == 0.0
  {
    DotSparse(a, z, -1, -2);
  }

  /** With C = 0 every Krylov vector vanishes. */
  lemma {:induction false} KrylovOfZero(a: Mat, c: seq<real>, k: nat)
    requires IsSquare(a) && |c| == a.cols && forall i | 0 <= i < |c| :: c[i] == 0.0
    ensures forall i, j | 0 <= i < k && 0 <= j < a.rows :: Krylov(a, c, k)[i][j] == 0.0
  {
    if k > 1 {
      KrylovOfZero(a, c, k - 1);
      var ds := Krylov(a, c, k - 1);
      var v := MatVec(a, ds[k - 2]);
      forall j | 0 <= j < a.rows ensures v[j] == 0.0 {
        DotZero(a.e[j], ds[k - 2]);
      }
    }
  }

  /** The first column is zero below the top entry. */
  ghost predicate ColumnCleared(m: Mat)
    requires 0 < m.cols
  {
    forall i | 1 <= i < m.rows :: m.e[i][0] == 0.0
  }

  /** With C = 0 every diagonal past -a vanishes. */
  lemma ClearedDiagonals(m: Mat)
    requires IsSquare(m) && 0 < m.rows && ColumnCleared(m)
    ensures forall i | 2 <= i <= m.rows :: ToeplitzDiagonals(m)[i] == 0.0
  {
    var c := FirstColumnRest(m);
    var a := Extract(m, 0, 0);
    KrylovOfZero(a, c, m.rows - 1);
    var ds := Krylov(a, c, m.rows - 1);
    forall i | 0 <= i < m.rows - 1 ensures Dot(FirstRowRest(m), ds[i]) == 0.0 {
      DotZero(FirstRowRest(m), ds[i]);
    }
  }

  /** The last entry of v is -x times the last entry of w. */
  ghost predicate LastScaled(v: seq<real>, x: real, w: seq<real>)
  {
    |v| == |w| + 1 && 0 < |w| && v[|w|] == -(x * w[|w| - 1])
  }

  /** z is the product x * y. */
  ghost predicate IsProduct(z: real, x: real, y: real)
  {
    z == x * y
  }

  /** With C = 0 the last row of the Toeplitz matrix is zero but for -a in
      its last column. */
  lemma ClearedLastRow(m: Mat, w: seq<real>)
    requires IsSquare(m) && 1 < m.rows && ColumnCleared(m) && |w| == m.rows
    ensures LastScaled(MatVec(Toeplitz(m), w), m.e[0][0], w)
  {
    var n := m.rows;
    var t := Toeplitz(m);
    ClearedDiagonals(m);
    DotSingle(t.e[n], w, n - 1, -m.e[0][0]);
  }

  /** The arithmetic of one level of `BerkowitzUpperTriangular`: dropping
      the last power flips the sign, and the new root factor is x. */
  lemma LastSignedScaled(v: seq<real>, w: seq<real>, x: real, l: real, l': real)
    requires LastScaled(v, x, w) && l == LastSigned(w) && IsProduct(l', x, l)
    ensures LastSigned(v) == l'
  {
    var n := |w|;
    var y := w[n - 1];
    if (n - 1) % 2 == 0 {
      assert LastSigned(v) == -v[n] && l == y;
      MulCong(x, x, l, y);
    } else {
      assert LastSigned(v) == v[n] && l == -y;
      MulCong(x, x, l, -y);
    }
  }

  /** On an upper-triangular matrix the Berkowitz determinant is the
      diagonal product, so it agrees with the cofactor expansion. */
  lemma {:induction false} BerkowitzUpperTriangular(m: Mat)
    requires IsSquare(m) && UpperTriangular(m)
    ensures DetBerkowitz(m) == Laplace(m)
    decreases m.rows
  {
    if m.rows > 1 {
      var a := Extract(m, 0, 0);
      CornerMinorUpper(m);
      BerkowitzUpperTriangular(a);
      LaplaceUpperStep(m);
      assert IsProduct(Laplace(m), m.e[0][0], Laplace(a));
      ClearedLastRow(m, BerkowitzVector(a));
      LastSignedScaled(BerkowitzVector(m), BerkowitzVector(a), m.e[0][0], Laplace(a), Laplace(m));
    } else if m.rows == 1 {
      Laplace1(m);
    }
  }

  /** Three-term dot products, written out. */
  lemma Dot2(a: seq<real>, b: seq<real>)
    requires |a| == 2 && |b| == 2
    ensures Dot(a, b) == a[0] * b[0] + a[1] * b[1]
  {
    assert Dot(a[1..], b[1..]) == a[1] * b[1] + Dot(a[2..], b[2..]);
  }

  lemma Dot3(a: seq<real>, b: seq<real>)
    requires |a| == 3 && |b| == 3
    ensures Dot(a, b) == a[0] * b[0] + a[1] * b[1] + a[2] * b[2]
  {
    Dot2(a[1..], b[1..]);
  }

  /** The trace of a 2x2 matrix. */
  lemma Trace2(m: Mat)
    requires m.rows == 2 && m.cols == 2
    ensures Trace(m) == m.e[0][0] + m.e[1][1]
  {
    var a := Extract(m, 0, 0);
    assert a.e[0][0] == m.e[1][1];
    assert Trace(a) == a.e[0][0] + Trace(Extract(a, 0, 0));
  }

  /** The third diagonal of a 2x2 Toeplitz matrix is -R*C. */
  lemma ToeplitzDiagonals2(m: Mat)
    requires m.rows == 2 && m.cols == 2
    ensures ToeplitzDiagonals(m)[2] == -(m.e[0][1] * m.e[1][0])
  {
    var c := FirstColumnRest(m);
    var r := FirstRowRest(m);
    assert c == [m.e[1][0]] && r == [m.e[0][1]];
    assert Krylov(Extract(m, 0, 0), c, 1) == [c];
    assert Dot(r, c) == r[0] * c[0] + Dot([], []);
  }

  /** The 2x2 Toeplitz product with the vector [1, -d] of the corner. */
  lemma Toeplitz2Product(m: Mat, w: seq<real>)
    requires m.rows == 2 && m.cols == 2 && w == [1.0, -m.e[1][1]]
    ensures MatVec(Toeplitz(m), w) == [1.0, -Trace(m), Det2(m)]
  {
    var t := Toeplitz(m);
    var d := ToeplitzDiagonals(m);
    ToeplitzDiagonals2(m);
    Trace2(m);
    var v := MatVec(t, w);
    ToeplitzLeading(m, w);
    ToeplitzSecond(m, w);
    assert t.e[2][0] == d[2] && t.e[2][1] == d[1];
    Dot2(t.e[2], w);
    assert v[2] == d[2] * 1.0 + d[1] * -m.e[1][1];
    assert v[0] == 1.0 && v[1] == -Trace(m) && v[2] == Det2(m);
  }

  /** For 2x2 matrices: [1, -(a + d), a*d - b*c]. */
  lemma Berkowitz2(m: Mat)
    requires m.rows == 2 && m.cols == 2
    ensures BerkowitzVector(m) == [1.0, -Trace(m), Det2(m)]
  {
    var a := Extract(m, 0, 0);
    assert a.e[0][0] == m.e[1][1];
    assert BerkowitzVector(a) == [1.0, -m.e[1][1]];
    Toeplitz2Product(m, BerkowitzVector(a));
  }

  /** A 2x2 matrix times a vector. */
  lemma MatVec2(a: Mat, c: seq<real>)
    requires a.rows == 2 && a.cols == 2 && |c| == 2
    ensures MatVec(a, c) == [a.e[0][0] * c[0] + a.e[0][1] * c[1], a.e[1][0] * c[0] + a.e[1][1] * c[1]]
  {
    var v := MatVec(a, c);
    assert v[0] == Dot(a.e[0], c) && v[1] == Dot(a.e[1], c);
    Dot2(a.e[0], c);
    Dot2(a.e[1], c);
    assert v[0] == a.e[0][0] * c[0] + a.e[0][1] * c[1];
    assert v[1] == a.e[1][0] * c[0] + a.e[1][1] * c[1];
    assert |v| == 2;
  }

  /** The corner minor of a 3x3 matrix, entry by entry. */
  lemma Corner3(m: Mat)
    requires m.rows == 3 && m.cols == 3
    ensures var a := Extract(m, 0, 0);
      a.e[0][0] == m.e[1][1] && a.e[0][1] == m.e[1][2] && a.e[1][0] == m.e[2][1] && a.e[1][1] == m.e[2][2]
  {
  }

  /** The diagonals of a 3x3 Toeplitz matrix: 1, -a, -RC, -RAC. */
  lemma ToeplitzDiagonals3(m: Mat)
    requires m.rows == 3 && m.cols == 3
    ensures ToeplitzDiagonals(m)[2] == -(m.e[0][1] * m.e[1][0] + m.e[0][2] * m.e[2][0])
    ensures ToeplitzDiagonals(m)[3] == -(m.e[0][1] * (m.e[1][1] * m.e[1][0] + m.e[1][2] * m.e[2][0])
                                        + m.e[0][2] * (m.e[2][1] * m.e[1][0] + m.e[2][2] * m.e[2][0]))
  {
    var a := Extract(m, 0, 0);
    var c := FirstColumnRest(m);
    var r := FirstRowRest(m);
    assert c == [m.e[1][0], m.e[2][0]] && r == [m.e[0][1], m.e[0][2]];
    var ac := MatVec(a, c);
    assert Krylov(a, c, 2) == [c, ac];
    MatVec2(a, c);
    Corner3(m);
    Dot2(r, c);
    Dot2(r, ac);
  }

  /** The last entry of the 3x3 Toeplitz product, as a polynomial identity. */
  lemma Berkowitz3Arith(m: Mat, row: seq<real>, w: seq<real>)
    requires m.rows == 3 && m.cols == 3 && |row| == 3 && |w| == 3
    requires row[0] == -(m.e[0][1] * (m.e[1][1] * m.e[1][0] + m.e[1][2] * m.e[2][0])
                        + m.e[0][2] * (m.e[2][1] * m.e[1][0] + m.e[2][2] * m.e[2][0]))
    requires row[1] == -(m.e[0][1] * m.e[1][0] + m.e[0][2] * m.e[2][0]) && row[2] == -m.e[0][0]
    requires w[0] == 1.0 && w[1] == -(m.e[1][1] + m.e[2][2]) && w[2] == m.e[1][1] * m.e[2][2] - m.e[1][2] * m.e[2][1]
    ensures Dot(row, w) == -Det3(m)
  {
    calc {
      Dot(row, w);
    == { Dot3(row, w); }
      row[0] * w[0] + row[1] * w[1] + row[2] * w[2];
    == { Cubic(m.e[0][0], m.e[0][1], m.e[0][2], m.e[1][0], m.e[1][1], m.e[1][2], m.e[2][0], m.e[2][1], m.e[2][2],
               row[0], row[1], row[2], w[0], w[1], w[2]); }
      -Sarrus(m.e[0][0], m.e[0][1], m.e[0][2], m.e[1][0], m.e[1][1], m.e[1][2], m.e[2][0], m.e[2][1], m.e[2][2]);
    }
  }

  /** The same identity on plain values. */
  lemma Cubic(a: real, b: real, c: real, d: real, e: real, f: real, g: real, h: real, i: real,
              r0: real, r1: real, r2: real, w0: real, w1: real, w2: real)
    requires r0 == -(b * (e * d + f * g) + c * (h * d + i * g))
    requires r1 == -(b * d + c * g) && r2 == -a
    requires w0 == 1.0 && w1 == -(e + i) && w2 == e * i - f * h
    ensures r0 * w0 + r1 * w1 + r2 * w2 == -Sarrus(a, b, c, d, e, f, g, h, i)
  {
  }

  /** The last entry of the 3x3 Toeplitz product with the vector of the
      corner minor is -det. */
  lemma Toeplitz3Last(m: Mat, w: seq<real>)
    requires m.rows == 3 && m.cols == 3 && |w| == 3
    requires w[0] == 1.0 && w[1] == -(m.e[1][1] + m.e[2][2]) && w[2] == m.e[1][1] * m.e[2][2] - m.e[1][2] * m.e[2][1]
    ensures MatVec(Toeplitz(m), w)[3] == -Det3(m)
  {
    var t := Toeplitz(m);
    ToeplitzDiagonals3(m);
    assert t.e[3][0] == ToeplitzDiagonals(m)[3] && t.e[3][1] == ToeplitzDiagonals(m)[2];
    Berkowitz3Arith(m, t.e[3], w);
  }

  /** The 3x3 Berkowitz vector ends with -det. */
  lemma Berkowitz3(m: Mat)
    requires m.rows == 3 && m.cols == 3
    ensures BerkowitzVector(m)[3] == -Det3(m)
  {
    var a := Extract(m, 0, 0);
    Berkowitz2(a);
    Berkowitz2Entries(m);
    Toeplitz3Last(m, BerkowitzVector(a));
  }

  /** The corner minor's trace and determinant in the entries of m. */
  lemma Berkowitz2Entries(m: Mat)
    requires m.rows == 3 && m.cols == 3
    ensures var a := Extract(m, 0, 0);
      Trace(a) == m.e[1][1] + m.e[2][2] && Det2(a) == m.e[1][1] * m.e[2][2] - m.e[1][2] * m.e[2][1]
  {
    Corner3(m);
    Trace2(Extract(m, 0, 0));
  }

  /** Berkowitz agrees with the closed forms of `det` for every matrix up to
      3x3. */
  lemma BerkowitzSmall(m: Mat)
    requires IsSquare(m) && m.rows <= 3
    ensures DetBerkowitz(m) == ClosedForm(m)
  {
    if m.rows == 1 {
    } else if m.rows == 2 {
      Berkowitz2(m);
    } else if m.rows == 3 {
      Berkowitz3(m);
    }
  }

  // ---------------------------------------------------------------------
  // Bareiss
  // ---------------------------------------------------------------------

  /** `_is_zero_after_expand_mul`: a two-valued test, exact on rationals. */
  function ExpandMulIsZero(x: real): Option<bool>
  {
    Some(x == 0.0)
  }

  /** The default simplifier and `equals(0)` of `_find_reasonable_pivot`;
      an exact zero test never lets the search reach them. */
  function Unsimplified(x: real): real
  {
    x
  }

  function EqualsZero(x: real): bool
  {
    x == 0.0
  }

  /** `mat[:, 0]`. */
  function FirstColumn(m: Mat): (c: seq<real>)
    requires 0 < m.cols
    ensures |c| == m.rows && forall i | 0 <= i < m.rows :: c[i] == m.e[i][0]
  {
    seq(m.rows, i requires 0 <= i < m.rows => m.e[i][0])
  }

  /** The pivot search of one Bareiss level: the first nonzero entry of the
      first column, or None for a zero column. */
  function BareissPivot(m: Mat): (r: PivotResult)
    requires 0 < m.cols
    ensures r.offset.None? <==> forall i | 0 <= i < m.rows :: m.e[i][0] == 0.0
    ensures r.offset.Some? ==>
      r.offset.value < m.rows && r.value == Some(m.e[r.offset.value][0]) && m.e[r.offset.value][0] != 0.0 &&
      forall i | 0 <= i < r.offset.value :: m.e[i][0] == 0.0
  {
    var col := FirstColumn(m);
    var r := ReasonablePivot(col, ExpandMulIsZero, Unsimplified, EqualsZero);
    ReasonablePivotNone(col, ExpandMulIsZero, Unsimplified, EqualsZero);
    if exists i | 0 <= i < m.rows :: m.e[i][0] != 0.0 then
      ReasonablePivotFirstDecided(col, ExpandMulIsZero, Unsimplified, EqualsZero);
      r
    else
      r
  }

  /** One Bareiss condensation: every row but the pivot row, combined with
      the pivot row, divided by the previous pivot `cumm`. */
  function Condensed(m: Mat, pos: nat, pv: real, cumm: real): (b: Mat)
    requires IsSquare(m) && 0 < m.rows && pos < m.rows
    ensures b.rows == m.rows - 1 && b.cols == m.cols - 1
    ensures forall i, j | 0 <= i < b.rows && 0 <= j < b.cols :: b.e[i][j] == CondensedEntry(m, pos, pv, cumm, i, j)
  {
    Matrix(m.rows - 1, m.cols - 1, seq(m.rows - 1, i requires 0 <= i < m.rows - 1 =>
      seq(m.cols - 1, j requires 0 <= j < m.cols - 1 => CondensedEntry(m, pos, pv, cumm, i, j))))
  }

  /** `entry(i, j)` of `bareiss`, with `tmp_mat[i, :]` the row `Skip(i, pos)`. */
  function CondensedEntry(m: Mat, pos: nat, pv: real, cumm: real, i: nat, j: nat): real
    requires IsSquare(m) && pos < m.rows && i < m.rows - 1 && j < m.cols - 1
  {
    Quot(pv * m.e[Skip(i, pos)][j + 1] - m.e[pos][j + 1] * m.e[Skip(i, pos)][0], cumm)
  }

  /** The recursive `bareiss(mat, cumm)`; moving the pivot row to the top
      costs the sign (-1)**(pivot_pos % 2). */
  function Bareiss(m: Mat, cumm: real): real
    requires IsSquare(m)
    decreases m.rows
  {
    if m.rows == 0 then 1.0
    else if m.rows == 1 then m.e[0][0]
    else
      var r := BareissPivot(m);
      match r.offset
      case None => 0.0
      case Some(pos) =>
        var pv := r.value.value;
        var rest := Bareiss(Condensed(m, pos, pv, cumm), pv);
        if pos % 2 == 0 then rest else -rest
  }

  /** `_eval_det_bareiss`; the final `cancel` is the identity on exact values. */
  function DetBareiss(m: Mat): real
    requires IsSquare(m)
  {
    Bareiss(m, 1.0)
  }

  /** Bareiss agrees with the closed form on every 2x2 matrix. */
  lemma Bareiss2(m: Mat)
    requires m.rows == 2 && m.cols == 2
    ensures DetBareiss(m) == m.e[0][0] * m.e[1][1] - m.e[0][1] * m.e[1][0]
  {
    var r := BareissPivot(m);
    if r.offset.Some? {
      var pos := r.offset.value;
      var pv := r.value.value;
      var b := Condensed(m, pos, pv, 1.0);
      assert Bareiss(b, pv) == b.e[0][0];
      var other := Skip(0, pos);
      var x := pv * m.e[other][1] - m.e[pos][1] * m.e[other][0];
      assert b.e[0][0] == Quot(x, 1.0) == x;
      if pos == 0 {
        assert other == 1;
      } else {
        assert other == 0;
      }
    }
  }

  function Pow(x: real, k: nat): real
  {
    if k == 0 then 1.0 else x * Pow(x, k - 1)
  }

  lemma {:induction false} PowNonzero(x: real, k: nat)
    requires x != 0.0
    ensures Pow(x, k) != 0.0
  {
    if k > 0 {
      PowNonzero(x, k - 1);
    }
  }

  /** Scaling each diagonal entry by p/c scales the diagonal product by
      (p/c)**k. */
  lemma {:induction false} ScaledDiagProduct(b: Mat, a: Mat, p: real, c: real, k: nat)
    requires k <= b.rows && k <= b.cols && k <= a.rows && k <= a.cols
    requires ScaledDiagonal(b, a, p, c, k)
    ensures DiagProduct(b, k) * Pow(c, k) == Pow(p, k) * DiagProduct(a, k)
  {
    if k > 0 {
      ScaledDiagProduct(b, a, p, c, k - 1);
      var db, da := DiagProduct(b, k - 1), DiagProduct(a, k - 1);
      var x, y := b.e[k - 1][k - 1], a.e[k - 1][k - 1];
      var ck, pk := Pow(c, k - 1), Pow(p, k - 1);
      assert x * c == p * y;
      ScaleStep(db, x, c, ck, pk, da, p, y, DiagProduct(b, k), Pow(c, k), Pow(p, k), DiagProduct(a, k));
    }
  }

  /** The first k diagonal entries of b are those of a scaled by p/c. */
  ghost predicate ScaledDiagonal(b: Mat, a: Mat, p: real, c: real, k: nat)
    requires k <= b.rows && k <= b.cols && k <= a.rows && k <= a.cols
  {
    forall i | 0 <= i < k :: b.e[i][i] * c == p * a.e[i][i]
  }

  /** The arithmetic of one step of `ScaledDiagProduct`, on plain values. */
  lemma ScaleStep(db: real, x: real, c: real, ck: real, pk: real, da: real, p: real, y: real,
                  bk: real, ckk: real, pkk: real, ak: real)
    requires bk == db * x && ckk == c * ck && pkk == p * pk && ak == da * y
    requires db * ck == pk * da && x * c == p * y
    ensures bk * ckk == pkk * ak
  {
    calc {
      bk * ckk;
      { MulCong(bk, db * x, ckk, c * ck); }
      (db * x) * (c * ck);
      { Regroup(db, x, c, ck); }
      (db * ck) * (x * c);
      { MulCong(db * ck, pk * da, x * c, p * y); }
      (pk * da) * (p * y);
      { Regroup(pk, da, p, y); }
      (p * pk) * (da * y);
      { MulCong(pkk, p * pk, ak, da * y); }
      pkk * ak;
    }
  }

  /** Equal factors give equal products. */
  lemma MulCong(u: real, u': real, v: real, v': real)
    requires u == u' && v == v'
    ensures u * v == u' * v'
  {
  }

  lemma Regroup(a: real, b: real, c: real, d: real)
    ensures (a * b) * (c * d) == (a * d) * (b * c)
    ensures (a * b) * (c * d) == (c * a) * (b * d)
  {
  }

  /** The condensation of an upper-triangular matrix around its top left
      entry p: the result is upper triangular and its diagonal is that of the
      corner minor scaled by p/cumm. */
  lemma CondensedUpper(m: Mat, c: real)
    requires IsSquare(m) && 1 < m.rows && UpperTriangular(m) && c != 0.0
    ensures var b := Condensed(m, 0, m.e[0][0], c);
      UpperTriangular(b) && ScaledDiagonal(b, Extract(m, 0, 0), m.e[0][0], c, b.rows)
  {
    var p := m.e[0][0];
    var a := Extract(m, 0, 0);
    var b := Condensed(m, 0, p, c);
    forall i | 0 <= i < b.rows ensures b.e[i][i] * c == p * a.e[i][i] {
      CondensedUpperEntry(m, c, i, i);
      assert a.e[i][i] == m.e[i + 1][i + 1];
    }
    forall i, j | 0 <= j < i < b.rows && j < b.cols ensures b.e[i][j] == 0.0 {
      CondensedLowerZero(m, c, i, j);
    }
  }

  /** Below the diagonal that condensation is zero. */
  lemma CondensedLowerZero(m: Mat, c: real, i: nat, j: nat)
    requires IsSquare(m) && 1 < m.rows && UpperTriangular(m) && c != 0.0
    requires j < i < m.rows - 1
    ensures Condensed(m, 0, m.e[0][0], c).e[i][j] == 0.0
  {
    CondensedUpperEntry(m, c, i, j);
    assert m.e[i + 1][j + 1] == 0.0;
    CancelFactor(Condensed(m, 0, m.e[0][0], c).e[i][j], 0.0, c);
  }

  /** One entry of that condensation: the first column below the corner is
      zero, so only the product with the corner is left. */
  lemma CondensedUpperEntry(m: Mat, c: real, i: nat, j: nat)
    requires IsSquare(m) && 1 < m.rows && UpperTriangular(m) && c != 0.0
    requires i < m.rows - 1 && j < m.cols - 1
    ensures Condensed(m, 0, m.e[0][0], c).e[i][j] * c == m.e[0][0] * m.e[i + 1][j + 1]
  {
    assert Skip(i, 0) == i + 1;
    assert m.e[i + 1][0] == 0.0;
    var x := m.e[0][0] * m.e[i + 1][j + 1] - m.e[0][j + 1] * m.e[i + 1][0];
    assert Condensed(m, 0, m.e[0][0], c).e[i][j] == Quot(x, c);
  }

  /** Cancelling a nonzero factor q. */
  lemma CancelFactor(x: real, y: real, q: real)
    requires q != 0.0 && x * q == y * q
    ensures x == y
  {
    assert (x - y) * q == 0.0;
  }

  /** A nonzero top left entry is the pivot, and no row moves. */
  lemma BareissFirstPivot(m: Mat, c: real)
    requires IsSquare(m) && 1 < m.rows && m.e[0][0] != 0.0
    ensures Bareiss(m, c) == Bareiss(Condensed(m, 0, m.e[0][0], c), m.e[0][0])
  {
    var r := BareissPivot(m);
    assert r.offset == Some(0);
  }

  /** A zero first column leaves no pivot, and the determinant is zero. */
  lemma BareissZeroColumn(m: Mat, c: real)
    requires IsSquare(m) && 1 < m.rows && forall i | 0 <= i < m.rows :: m.e[i][0] == 0.0
    ensures Bareiss(m, c) == 0.0
  {
    var r := BareissPivot(m);
    assert r.offset.None?;
  }

  /** The arithmetic of one level of `BareissUpperTriangular`. */
  lemma BareissArith(x: real, cn: real, pn: real, pn1: real, p: real, da: real, db: real)
    requires x * pn == db && pn1 == p * pn && db * cn == pn1 * da && pn != 0.0
    ensures x * cn == p * da
  {
    MulCong(pn1, p * pn, da, da);
    calc {
      (x * cn) * pn;
      { Regroup(x, cn, pn, 1.0); }
      (x * pn) * cn;
      { MulCong(x * pn, db, cn, cn); }
      db * cn;
      (p * pn) * da;
      (p * da) * pn;
    }
    CancelFactor(x * cn, p * da, pn);
  }

  /** A zero top left entry of an upper-triangular matrix makes both sides
      zero. */
  lemma BareissUpperZeroCorner(m: Mat, c: real)
    requires IsSquare(m) && 1 < m.rows && ColumnCleared(m) && m.e[0][0] == 0.0
    ensures Bareiss(m, c) * Pow(c, m.rows - 1) == DiagProduct(m, m.rows)
  {
    var n := m.rows;
    BareissZeroColumn(m, c);
    DiagProductFirst(m, n);
    MulCong(Bareiss(m, c), 0.0, Pow(c, n - 1), Pow(c, n - 1));
  }

  /** x times c**(n-1) is the diagonal product of the n x n matrix m: the
      claim of `BareissUpperTriangular` for x = bareiss(m, c). */
  ghost predicate ScalesToDiagonal(x: real, c: real, m: Mat)
    requires IsSquare(m) && 0 < m.rows
  {
    x * Pow(c, m.rows - 1) == DiagProduct(m, m.rows)
  }

  /** One level of `BareissUpperTriangular`: b is the condensed matrix,
      whose diagonal is that of the corner minor scaled by p/c, and the claim
      holds for b with cumm = p. */
  lemma BareissUpperStep(m: Mat, c: real, p: real, b: Mat, x: real)
    requires IsSquare(m) && 1 < m.rows && c != 0.0 && p == m.e[0][0] && p != 0.0
    requires b.rows == m.rows - 1 && b.cols == m.cols - 1
    requires ScaledDiagonal(b, Extract(m, 0, 0), p, c, b.rows)
    requires ScalesToDiagonal(x, p, b)
    ensures ScalesToDiagonal(x, c, m)
  {
    var a := Extract(m, 0, 0);
    ScaledDiagProduct(b, a, p, c, b.rows);
    PowNonzero(p, b.rows - 1);
    BareissArith(x, Pow(c, b.rows), Pow(p, b.rows - 1), Pow(p, b.rows), p,
                 DiagProduct(a, b.rows), DiagProduct(b, b.rows));
    MulCong(x, x, Pow(c, m.rows - 1), Pow(c, b.rows));
    DiagProductFirst(m, m.rows);
    MulCong(p, p, DiagProduct(a, m.rows - 1), DiagProduct(a, b.rows));
  }

  /** On an upper-triangular matrix, `bareiss(mat, cumm)` times cumm**(n-1)
      is the diagonal product (whatever the starting cumm). */
  lemma {:induction false} BareissUpperTriangular(m: Mat, c: real)
    requires IsSquare(m) && 0 < m.rows && UpperTriangular(m) && c != 0.0
    ensures ScalesToDiagonal(Bareiss(m, c), c, m)
    decreases m.rows
  {
    if m.rows == 1 {
      assert DiagProduct(m, 1) == m.e[0][0];
    } else if m.e[0][0] == 0.0 {
      BareissUpperZeroCorner(m, c);
    } else {
      var p := m.e[0][0];
      CondensedUpper(m, c);
      var b := Condensed(m, 0, p, c);
      BareissUpperTriangular(b, p);
      BareissUpperStep(m, c, p, b, Bareiss(b, p));
      BareissFirstPivot(m, c);
    }
  }

  /** So `_eval_det_bareiss` of an upper-triangular matrix is its
      determinant. */
  lemma BareissDetUpperTriangular(m: Mat)
    requires IsSquare(m) && UpperTriangular(m)
    ensures DetBareiss(m) == Laplace(m)
  {
    LaplaceUpperTriangular(m);
    if m.rows > 0 {
      BareissUpperTriangular(m, 1.0);
      assert Pow(1.0, m.rows - 1) == 1.0 by { PowOne(m.rows - 1); }
    }
  }

  lemma {:induction false} PowOne(k: nat)
    ensures Pow(1.0, k) == 1.0
  {
    if k > 0 {
      PowOne(k - 1);
    }
  }
}
