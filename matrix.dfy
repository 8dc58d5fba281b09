/** Dense matrices of exact ring elements, the flat row-major view used by
    row reduction, and the cofactor-expansion determinant that serves as the
    reference every determinant algorithm of the engine is compared with. */
module Matrices {
  import opened Common

  /** A rows x cols matrix stored as a list of rows. */
  datatype Matrix = Matrix(rows: nat, cols: nat, e: seq<seq<real>>)

  /** Shape invariant: `len(elements) == rows*cols`, here one list per row. */
  type Mat = m: Matrix | |m.e| == m.rows && (forall i | 0 <= i < m.rows :: |m.e[i]| == m.cols)
    witness Matrix(0, 0, [])

  predicate IsSquare(m: Mat)
  {
    m.rows == m.cols
  }

  /** The zero matrix of the given shape (`zeros(rows, cols)`). */
  function Zeros(rows: nat, cols: nat): (z: Mat)
    ensures z.rows == rows && z.cols == cols
    ensures forall i, j | 0 <= i < rows && 0 <= j < cols :: z.e[i][j] == 0.0
  {
    Matrix(rows, cols, seq(rows, i => seq(cols, j => 0.0)))
  }

  /** The identity matrix (`eye(n)`). */
  function Identity(n: nat): (id: Mat)
    ensures id.rows == n && id.cols == n
    ensures forall i, j | 0 <= i < n && 0 <= j < n :: id.e[i][j] == if i == j then 1.0 else 0.0
  {
    Matrix(n, n, seq(n, i => seq(n, j => if i == j then 1.0 else 0.0)))
  }

  /** Index into the list that `extract` keeps when it drops entry `skip`. */
  function Skip(a: nat, skip: nat): nat
  {
    if a < skip then a else a + 1
  }

  /** The submatrix keeping every row but `i` and every column but `j`
      (`extract(rows, cols)` with `i` and `j` left out of the index lists). */
  function Extract(m: Mat, i: nat, j: nat): (r: Mat)
    requires i < m.rows && j < m.cols
    ensures r.rows == m.rows - 1 && r.cols == m.cols - 1
    ensures forall a, b | 0 <= a < r.rows && 0 <= b < r.cols :: r.e[a][b] == m.e[Skip(a, i)][Skip(b, j)]
  {
    Matrix(m.rows - 1, m.cols - 1,
      seq(m.rows - 1, a requires 0 <= a < m.rows - 1 =>
        seq(m.cols - 1, b requires 0 <= b < m.cols - 1 => m.e[Skip(a, i)][Skip(b, j)])))
  }

  /** The transpose. */
  function Transpose(m: Mat): (t: Mat)
    ensures t.rows == m.cols && t.cols == m.rows
    ensures forall i, j | 0 <= i < m.cols && 0 <= j < m.rows :: t.e[i][j] == m.e[j][i]
  {
    Matrix(m.cols, m.rows, seq(m.cols, i requires 0 <= i < m.cols => seq(m.rows, j requires 0 <= j < m.rows => m.e[j][i])))
  }

  lemma TransposeTwice(m: Mat)
    ensures Transpose(Transpose(m)) == m
  {
    var t := Transpose(Transpose(m));
    forall i | 0 <= i < m.rows ensures t.e[i] == m.e[i] {
    }
  }

  /** Every entry strictly below the diagonal is zero. */
  ghost predicate UpperTriangular(m: Mat)
  {
    forall i, j | 0 <= j < i < m.rows && j < m.cols :: m.e[i][j] == 0.0
  }

  /** Product of the first n diagonal entries, multiplied in index order. */
  function DiagProduct(m: Mat, n: nat): real
    requires n <= m.rows && n <= m.cols
  {
    if n == 0 then 1.0 else DiagProduct(m, n - 1) * m.e[n - 1][n - 1]
  }

  /** Sum of the diagonal entries. */
  function Trace(m: Mat): real
    requires IsSquare(m)
    decreases m.rows
  {
    if m.rows == 0 then 0.0 else m.e[0][0] + Trace(Extract(m, 0, 0))
  }

  /** Reference determinant: cofactor expansion along the first column. */
  function Laplace(m: Mat): real
    requires IsSquare(m)
    decreases m.rows, m.rows + 2
  {
    if m.rows == 0 then 1.0 else LaplaceFrom(m, 0)
  }

  /** The terms k, k+1, ..., rows-1 of the expansion along the first column. */
  function LaplaceFrom(m: Mat, k: nat): real
    requires IsSquare(m) && 0 < m.rows && k <= m.rows
    decreases m.rows, m.rows - k + 1
  {
    if k == m.rows then 0.0 else ExpansionTerm(m, k) + LaplaceFrom(m, k + 1)
  }

  /** Term k of the expansion: (-1)**k times entry (k, 0) times its minor. */
  function ExpansionTerm(m: Mat, k: nat): real
    requires IsSquare(m) && k < m.rows
    decreases m.rows, 0
  {
    Sign(k) * m.e[k][0] * Laplace(Extract(m, k, 0))
  }

  /** Inner product of two equally long vectors. */
  function Dot(a: seq<real>, b: seq<real>): real
    requires |a| == |b|
  {
    if |a| == 0 then 0.0 else a[0] * b[0] + Dot(a[1..], b[1..])
  }

  /** Matrix times column vector. */
  function MatVec(m: Mat, v: seq<real>): (w: seq<real>)
    requires |v| == m.cols
    ensures |w| == m.rows
    ensures forall i | 0 <= i < m.rows :: w[i] == Dot(m.e[i], v)
  {
    seq(m.rows, i requires 0 <= i < m.rows => Dot(m.e[i], v))
  }

  /** `m*v == 0`: every row of m is orthogonal to v. */
  predicate Annihilates(m: Mat, v: seq<real>)
    requires |v| == m.cols
  {
    forall i | 0 <= i < m.rows :: Dot(m.e[i], v) == 0.0
  }

  /** Two matrices with the same columns and the same null space, the
      invariant of every row operation that can be undone. */
  ghost predicate SameNullspace(a: Mat, b: Mat)
  {
    a.cols == b.cols && forall v | |v| == a.cols :: Annihilates(a, v) <==> Annihilates(b, v)
  }

  /** z is a*x - b*y, entry by entry. */
  predicate IsCombination(z: seq<real>, x: seq<real>, y: seq<real>, a: real, b: real)
  {
    |z| == |x| == |y| && forall c | 0 <= c < |z| :: z[c] == a * x[c] - b * y[c]
  }

  /** The dot product is linear in its first argument: a row that is
      a*x - b*y entry by entry meets v in a*(x.v) - b*(y.v). */
  lemma {:induction false} DotCombine(x: seq<real>, y: seq<real>, z: seq<real>, v: seq<real>, a: real, b: real)
    requires |x| == |v| && |y| == |v| && |z| == |v|
    requires IsCombination(z, x, y, a, b)
    ensures Dot(z, v) == a * Dot(x, v) - b * Dot(y, v)
    decreases |v|
  {
    if |v| > 0 {
      CombinationTail(z, x, y, a, b);
      DotCombine(x[1..], y[1..], z[1..], v[1..], a, b);
      CombineTerm(z[0], x[0], y[0], v[0], a, b, Dot(z[1..], v[1..]), Dot(x[1..], v[1..]), Dot(y[1..], v[1..]));
    }
  }

  lemma CombinationTail(z: seq<real>, x: seq<real>, y: seq<real>, a: real, b: real)
    requires IsCombination(z, x, y, a, b) && |z| > 0
    ensures IsCombination(z[1..], x[1..], y[1..], a, b) && z[0] == a * x[0] - b * y[0]
  {
    forall c | 0 <= c < |z| - 1 ensures z[1..][c] == a * x[1..][c] - b * y[1..][c] {
      assert z[1..][c] == z[c + 1];
    }
  }

  lemma CombineTerm(z: real, x: real, y: real, w: real, a: real, b: real, dz: real, dx: real, dy: real)
    requires z == a * x - b * y && dz == a * dx - b * dy
    ensures z * w + dz == a * (x * w + dx) - b * (y * w + dy)
  {
  }

  /** The term of a dot product at position p, or 0 when p is out of range. */
  function TermAt(a: seq<real>, b: seq<real>, p: int): real
    requires |a| == |b|
  {
    if 0 <= p < |a| then a[p] * b[p] else 0.0
  }

  /** A dot product whose terms vanish outside positions p and q. */
  lemma {:induction false} DotSparse(a: seq<real>, b: seq<real>, p: int, q: int)
    requires |a| == |b| && p != q
    requires forall c | 0 <= c < |a| && c != p && c != q :: a[c] * b[c] == 0.0
    ensures Dot(a, b) == TermAt(a, b, p) + TermAt(a, b, q)
    decreases |a|
  {
    if |a| > 0 {
      var a', b' := a[1..], b[1..];
      forall c | 0 <= c < |a'| && c != p - 1 && c != q - 1 ensures a'[c] * b'[c] == 0.0 {
        assert a'[c] == a[c + 1] && b'[c] == b[c + 1];
      }
      DotSparse(a', b', p - 1, q - 1);
      assert Dot(a, b) == a[0] * b[0] + TermAt(a', b', p - 1) + TermAt(a', b', q - 1);
      ShiftedTerm(a, b, p);
      ShiftedTerm(a, b, q);
      if p != 0 && q != 0 {
        assert a[0] * b[0] == 0.0;
      }
    }
  }

  lemma ShiftedTerm(a: seq<real>, b: seq<real>, p: int)
    requires |a| == |b| && |a| > 0
    ensures TermAt(a[1..], b[1..], p - 1) == if p == 0 then 0.0 else TermAt(a, b, p)
  {
    if 0 < p < |a| {
      assert a[1..][p - 1] == a[p] && b[1..][p - 1] == b[p];
    }
  }

  /** A dot product with a row that is zero but for the entry x at p. */
  lemma DotSingle(a: seq<real>, b: seq<real>, p: nat, x: real)
    requires |a| == |b| && p < |a| && a[p] == x
    requires forall c | 0 <= c < |a| && c != p :: a[c] == 0.0
    ensures Dot(a, b) == x * b[p]
  {
    DotSparse(a, b, p, -1);
  }

  /** A zero row is orthogonal to everything. */
  lemma ZeroRowDot(row: seq<real>, v: seq<real>)
    requires |row| == |v| && forall c | 0 <= c < |row| :: row[c] == 0.0
    ensures Dot(row, v) == 0.0
  {
    DotSparse(row, v, -1, -2);
  }

  // ---------------------------------------------------------------------
  // Arithmetic of the flat row-major index i*cols + j
  // ---------------------------------------------------------------------

  lemma MulMonotone(a: nat, b: nat, c: nat)
    requires a <= b
    ensures a * c <= b * c
  {
  }

  /** Row a of a flat list ends no later than row b starts. */
  lemma RowBefore(a: nat, b: nat, cols: nat)
    requires a < b
    ensures a * cols + cols <= b * cols
  {
    MulMonotone(a + 1, b, cols);
  }

  lemma FlatIndexBound(i: nat, j: nat, rows: nat, cols: nat)
    requires i < rows && j < cols
    ensures i * cols + j < rows * cols
  {
    MulMonotone(i + 1, rows, cols);
  }

  lemma FlatIndexDecode(i: nat, j: nat, cols: nat)
    requires j < cols
    ensures (i * cols + j) / cols == i && (i * cols + j) % cols == j
  {
    var p := i * cols + j;
    var q, r := p / cols, p % cols;
    assert p == q * cols + r;
    if q < i {
      MulMonotone(q + 1, i, cols);
    } else if q > i {
      MulMonotone(i + 1, q, cols);
    }
  }

  lemma FlatIndexDistinct(i1: nat, j1: nat, i2: nat, j2: nat, cols: nat)
    requires j1 < cols && j2 < cols && (i1 != i2 || j1 != j2)
    ensures i1 * cols + j1 != i2 * cols + j2
  {
    FlatIndexDecode(i1, j1, cols);
    FlatIndexDecode(i2, j2, cols);
  }

  lemma FlatIndexEncode(p: nat, rows: nat, cols: nat)
    requires p < rows * cols
    ensures cols > 0 && p / cols < rows && p % cols < cols
    ensures p == (p / cols) * cols + p % cols
  {
    if p / cols >= rows {
      MulMonotone(rows, p / cols, cols);
    }
  }

  /** The entry in row i, column j of a flat row-major list of shape rows x cols. */
  function FlatAt(s: seq<real>, rows: nat, cols: nat, i: nat, j: nat): real
    requires |s| == rows * cols && i < rows && j < cols
  {
    FlatIndexBound(i, j, rows, cols);
    s[i * cols + j]
  }

  /** `list(self)`: the entries in row-major order. */
  function Flatten(m: Mat): (s: seq<real>)
    ensures |s| == m.rows * m.cols
  {
    seq(m.rows * m.cols, p requires 0 <= p < m.rows * m.cols =>
      FlatIndexEncode(p, m.rows, m.cols); m.e[p / m.cols][p % m.cols])
  }

  lemma FlattenAt(m: Mat)
    ensures forall i, j | 0 <= i < m.rows && 0 <= j < m.cols :: FlatAt(Flatten(m), m.rows, m.cols, i, j) == m.e[i][j]
  {
    forall i, j | 0 <= i < m.rows && 0 <= j < m.cols
      ensures FlatAt(Flatten(m), m.rows, m.cols, i, j) == m.e[i][j]
    {
      FlatIndexBound(i, j, m.rows, m.cols);
      FlatIndexDecode(i, j, m.cols);
    }
  }

  /** `_new(rows, cols, mat)`: rebuild a matrix from its row-major list. */
  function Unflatten(rows: nat, cols: nat, s: seq<real>): (m: Mat)
    requires |s| == rows * cols
    ensures m.rows == rows && m.cols == cols
    ensures forall i, j | 0 <= i < rows && 0 <= j < cols :: m.e[i][j] == FlatAt(s, rows, cols, i, j)
  {
    Matrix(rows, cols, seq(rows, i requires 0 <= i < rows =>
      seq(cols, j requires 0 <= j < cols => FlatAt(s, rows, cols, i, j))))
  }

  /** Rebuilding a matrix from its row-major list gives the matrix back. */
  lemma UnflattenFlatten(m: Mat)
    ensures Unflatten(m.rows, m.cols, Flatten(m)) == m
  {
    var u := Unflatten(m.rows, m.cols, Flatten(m));
    FlattenAt(m);
    forall i | 0 <= i < m.rows ensures u.e[i] == m.e[i] {
    }
  }
}
