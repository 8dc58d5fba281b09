/** The flat row-major list `mat` that `_row_reduce` works on, and the
    in-place operations it applies to it: writing simplified entries back,
    `row_swap`, `cross_cancel` and normalising a pivot row. Each operation is
    a function on the list, the source's loops are methods proved to compute
    it, and an `...At` lemma reads the result off entry by entry. */
module FlatOps {
  import opened Common
  import opened Matrices
  import opened Pivot

  // ---------------------------------------------------------------------
  // Rows of the flat index
  // ---------------------------------------------------------------------

  /** Index r*cols + c lies in the slice of row i exactly when r == i. */
  lemma RowOfIndex(r: nat, c: nat, i: nat, cols: nat)
    requires c < cols
    ensures i * cols <= r * cols + c < i * cols + cols <==> r == i
  {
    if r < i {
      RowBefore(r, i, cols);
    } else if r > i {
      RowBefore(i, r, cols);
    }
  }

  /** Moving an index of row i by j*cols - i*cols gives the same column of row j. */
  lemma ShiftRow(p: int, i: nat, j: nat, rows: nat, cols: nat)
    requires i < rows && j < rows && i * cols <= p < i * cols + cols
    ensures j * cols <= p - i * cols + j * cols < j * cols + cols <= rows * cols
    ensures i != j ==> p - i * cols + j * cols < i * cols || i * cols + cols <= p - i * cols + j * cols
  {
    RowBefore(j, rows, cols);
    if j < i {
      RowBefore(j, i, cols);
    } else if j > i {
      RowBefore(i, j, cols);
    }
  }

  /** `get_col(j)[from:]`: column j from row `from` down. */
  function ColumnFrom(mat: seq<real>, rows: nat, cols: nat, j: nat, from: nat): (c: seq<real>)
    requires |mat| == rows * cols && j < cols && from <= rows
    ensures |c| == rows - from
    ensures forall k | 0 <= k < rows - from :: c[k] == FlatAt(mat, rows, cols, from + k, j)
  {
    seq(rows - from, k requires 0 <= k < rows - from => FlatAt(mat, rows, cols, from + k, j))
  }

  // ---------------------------------------------------------------------
  // Writing back the entries the pivot search simplified
  // ---------------------------------------------------------------------

  /** `mat[(offset + piv_row)*cols + piv_col] = val` for each reported pair,
      in order. */
  function WriteBack(mat: seq<real>, rows: nat, cols: nat, pivRow: nat, pivCol: nat,
                     newly: seq<(nat, real)>): (m: seq<real>)
    requires |mat| == rows * cols && pivRow <= rows && pivCol < cols
    requires OffsetsBelow(newly, rows - pivRow)
    ensures |m| == |mat|
    decreases |newly|
  {
    if newly == [] then mat
    else
      FlatIndexBound(pivRow + newly[0].0, pivCol, rows, cols);
      WriteBack(mat[(pivRow + newly[0].0) * cols + pivCol := newly[0].1], rows, cols, pivRow, pivCol, newly[1..])
  }

  /** Writing back changes only column `pivCol` from row `pivRow` down, and
      there it is the pivot search's own write-back. */
  lemma {:induction false} WriteBackAt(mat: seq<real>, rows: nat, cols: nat, pivRow: nat, pivCol: nat,
                                       newly: seq<(nat, real)>)
    requires |mat| == rows * cols && pivRow <= rows && pivCol < cols
    requires OffsetsBelow(newly, rows - pivRow)
    ensures var m := WriteBack(mat, rows, cols, pivRow, pivCol, newly);
      ColumnFrom(m, rows, cols, pivCol, pivRow) == ApplyNewly(ColumnFrom(mat, rows, cols, pivCol, pivRow), newly) &&
      forall r, c | 0 <= r < rows && 0 <= c < cols && (c != pivCol || r < pivRow) ::
        FlatAt(m, rows, cols, r, c) == FlatAt(mat, rows, cols, r, c)
    decreases |newly|
  {
    if newly != [] {
      var (off, v) := newly[0];
      FlatIndexBound(pivRow + off, pivCol, rows, cols);
      var mat' := mat[(pivRow + off) * cols + pivCol := v];
      WriteBackAt(mat', rows, cols, pivRow, pivCol, newly[1..]);
      var col := ColumnFrom(mat, rows, cols, pivCol, pivRow);
      forall r, c | 0 <= r < rows && 0 <= c < cols && (r != pivRow + off || c != pivCol)
        ensures FlatAt(mat', rows, cols, r, c) == FlatAt(mat, rows, cols, r, c)
      {
        FlatIndexBound(r, c, rows, cols);
        FlatIndexDistinct(r, c, pivRow + off, pivCol, cols);
      }
      assert ColumnFrom(mat', rows, cols, pivCol, pivRow) == col[off := v];
    }
  }

  /** The write-back loop of `_row_reduce`. */
  method WriteBackNewly(mat: seq<real>, rows: nat, cols: nat, pivRow: nat, pivCol: nat,
                        newly: seq<(nat, real)>) returns (m: seq<real>)
    requires |mat| == rows * cols && pivRow <= rows && pivCol < cols
    requires OffsetsBelow(newly, rows - pivRow)
    ensures m == WriteBack(mat, rows, cols, pivRow, pivCol, newly)
  {
    m := mat;
    var t := 0;
    while t < |newly|
      invariant t <= |newly| && |m| == |mat|
      invariant WriteBack(m, rows, cols, pivRow, pivCol, newly[t..]) == WriteBack(mat, rows, cols, pivRow, pivCol, newly)
    {
      var (offset, val) := newly[t];
      assert newly[t..][1..] == newly[t + 1..];
      FlatIndexBound(offset + pivRow, pivCol, rows, cols);
      m := m[(offset + pivRow) * cols + pivCol := val];
      t := t + 1;
    }
  }

  // ---------------------------------------------------------------------
  // row_swap
  // ---------------------------------------------------------------------

  /** `row_swap(i, j)`: the slices of rows i and j trade places. */
  function SwapRows(mat: seq<real>, rows: nat, cols: nat, i: nat, j: nat): (m: seq<real>)
    requires |mat| == rows * cols && i < rows && j < rows
    ensures |m| == |mat|
  {
    seq(|mat|, p requires 0 <= p < |mat| => mat[SwapSource(p, rows, cols, i, j)])
  }

  /** The index that entry p of the swapped list is read from. */
  function SwapSource(p: nat, rows: nat, cols: nat, i: nat, j: nat): (q: nat)
    requires p < rows * cols && i < rows && j < rows
    ensures q < rows * cols
  {
    if i * cols <= p < i * cols + cols then
      ShiftRow(p, i, j, rows, cols);
      p - i * cols + j * cols
    else if j * cols <= p < j * cols + cols then
      ShiftRow(p, j, i, rows, cols);
      p - j * cols + i * cols
    else p
  }

  lemma SwapRowsAt(mat: seq<real>, rows: nat, cols: nat, i: nat, j: nat)
    requires |mat| == rows * cols && i < rows && j < rows
    ensures forall r, c | 0 <= r < rows && 0 <= c < cols ::
      FlatAt(SwapRows(mat, rows, cols, i, j), rows, cols, r, c) ==
      FlatAt(mat, rows, cols, if r == i then j else if r == j then i else r, c)
  {
    forall r, c | 0 <= r < rows && 0 <= c < cols
      ensures FlatAt(SwapRows(mat, rows, cols, i, j), rows, cols, r, c) ==
              FlatAt(mat, rows, cols, if r == i then j else if r == j then i else r, c)
    {
      SwapRowsEntry(mat, rows, cols, i, j, r, c);
    }
  }

  lemma SwapRowsEntry(mat: seq<real>, rows: nat, cols: nat, i: nat, j: nat, r: nat, c: nat)
    requires |mat| == rows * cols && i < rows && j < rows && r < rows && c < cols
    ensures FlatAt(SwapRows(mat, rows, cols, i, j), rows, cols, r, c) ==
            FlatAt(mat, rows, cols, if r == i then j else if r == j then i else r, c)
  {
    var p := r * cols + c;
    var s := SwapRows(mat, rows, cols, i, j);
    FlatIndexBound(r, c, rows, cols);
    assert FlatAt(s, rows, cols, r, c) == s[p];
    if r == i {
      FlatIndexBound(j, c, rows, cols);
      assert i * cols <= p < i * cols + cols;
      assert SwapSource(p, rows, cols, i, j) == j * cols + c;
    } else if r == j {
      FlatIndexBound(i, c, rows, cols);
      RowOfIndex(r, c, i, cols);
      assert !(i * cols <= p < i * cols + cols) && j * cols <= p < j * cols + cols;
      assert SwapSource(p, rows, cols, i, j) == i * cols + c;
    } else {
      RowOfIndex(r, c, i, cols);
      RowOfIndex(r, c, j, cols);
      assert SwapSource(p, rows, cols, i, j) == p;
    }
  }

  // ---------------------------------------------------------------------
  // cross_cancel
  // ---------------------------------------------------------------------

  /** `cross_cancel(a, i, b, j)`: row i becomes a*row_i - b*row_j. */
  function CrossCancel(mat: seq<real>, rows: nat, cols: nat, a: real, i: nat, b: real, j: nat): (m: seq<real>)
    requires |mat| == rows * cols && i < rows && j < rows
    ensures |m| == |mat|
  {
    seq(|mat|, p requires 0 <= p < |mat| =>
      if i * cols <= p < i * cols + cols then a * mat[p] - b * mat[SwapSource(p, rows, cols, i, j)]
      else mat[p])
  }

  lemma CrossCancelAt(mat: seq<real>, rows: nat, cols: nat, a: real, i: nat, b: real, j: nat)
    requires |mat| == rows * cols && i < rows && j < rows
    ensures forall r, c | 0 <= r < rows && 0 <= c < cols ::
      FlatAt(CrossCancel(mat, rows, cols, a, i, b, j), rows, cols, r, c) ==
      if r == i then a * FlatAt(mat, rows, cols, i, c) - b * FlatAt(mat, rows, cols, j, c)
      else FlatAt(mat, rows, cols, r, c)
  {
    forall r, c | 0 <= r < rows && 0 <= c < cols
      ensures FlatAt(CrossCancel(mat, rows, cols, a, i, b, j), rows, cols, r, c) ==
        if r == i then a * FlatAt(mat, rows, cols, i, c) - b * FlatAt(mat, rows, cols, j, c)
        else FlatAt(mat, rows, cols, r, c)
    {
      CrossCancelEntry(mat, rows, cols, a, i, b, j, r, c);
    }
  }

  lemma CrossCancelEntry(mat: seq<real>, rows: nat, cols: nat, a: real, i: nat, b: real, j: nat, r: nat, c: nat)
    requires |mat| == rows * cols && i < rows && j < rows && r < rows && c < cols
    ensures FlatAt(CrossCancel(mat, rows, cols, a, i, b, j), rows, cols, r, c) ==
      if r == i then a * FlatAt(mat, rows, cols, i, c) - b * FlatAt(mat, rows, cols, j, c)
      else FlatAt(mat, rows, cols, r, c)
  {
    var p := r * cols + c;
    var s := CrossCancel(mat, rows, cols, a, i, b, j);
    FlatIndexBound(r, c, rows, cols);
    assert FlatAt(s, rows, cols, r, c) == s[p];
    if r == i {
      FlatIndexBound(j, c, rows, cols);
      assert i * cols <= p < i * cols + cols;
      assert SwapSource(p, rows, cols, i, j) == j * cols + c;
    } else {
      RowOfIndex(r, c, i, cols);
      assert s[p] == mat[p];
    }
  }

  /** Entry p of row i reads the same column of row j, which lies outside
      row i; the target's entry there is a*mat[p] - b*mat[p + q]. */
  lemma CrossCancelSource(mat: seq<real>, rows: nat, cols: nat, a: real, i: nat, b: real, j: nat, p: int)
    requires |mat| == rows * cols && i < rows && j < rows && i != j
    requires i * cols <= p < i * cols + cols
    ensures var q := j * cols - i * cols;
      0 <= p < |mat| && 0 <= p + q < |mat| && !(i * cols <= p + q < i * cols + cols) &&
      CrossCancel(mat, rows, cols, a, i, b, j)[p] == a * mat[p] - b * mat[p + q]
  {
    ShiftRow(p, i, j, rows, cols);
    RowBefore(i, rows, cols);
  }

  /** One iteration of the `cross_cancel` loop: entry p of the row `lo .. hi`
      is updated from an entry outside the row, which the loop never writes,
      so the written prefix grows by one. */
  lemma WriteStep(mat: seq<real>, target: seq<real>, m: seq<real>, lo: int, hi: int, p: int, q: int, a: real, b: real)
    requires |m| == |mat| && |target| == |mat| && 0 <= lo <= p < hi <= |mat|
    requires 0 <= p + q < |mat| && !(lo <= p + q < hi)
    requires target[p] == a * mat[p] - b * mat[p + q]
    requires forall t {:trigger m[t]} | lo <= t < p :: m[t] == target[t]
    requires forall t {:trigger m[t]} | 0 <= t < |mat| && !(lo <= t < p) :: m[t] == mat[t]
    ensures var next := m[p := a * m[p] - b * m[p + q]];
      (forall t {:trigger next[t]} | lo <= t < p + 1 :: next[t] == target[t]) &&
      (forall t {:trigger next[t]} | 0 <= t < |mat| && !(lo <= t < p + 1) :: next[t] == mat[t])
  {
    assert m[p] == mat[p] && m[p + q] == mat[p + q];
  }

  /** The loop of `cross_cancel`, entry by entry over row i. */
  method CrossCancelRow(mat: seq<real>, rows: nat, cols: nat, a: real, i: nat, b: real, j: nat)
    returns (m: seq<real>)
    requires |mat| == rows * cols && i < rows && j < rows && i != j
    ensures m == CrossCancel(mat, rows, cols, a, i, b, j)
  {
    ghost var target := CrossCancel(mat, rows, cols, a, i, b, j);
    m := mat;
    var q := j * cols - i * cols;
    var lo, hi := i * cols, i * cols + cols;
    RowBefore(i, rows, cols);
    var p := lo;
    while p < hi
      invariant lo <= p <= hi <= |mat| && |m| == |mat|
      invariant forall t {:trigger m[t]} | lo <= t < p :: m[t] == target[t]
      invariant forall t {:trigger m[t]} | 0 <= t < |mat| && !(lo <= t < p) :: m[t] == mat[t]
    {
      CrossCancelSource(mat, rows, cols, a, i, b, j, p);
      WriteStep(mat, target, m, lo, hi, p, q, a, b);
      m := m[p := a * m[p] - b * m[p + q]];
      p := p + 1;
    }
    forall t | 0 <= t < |mat| ensures m[t] == target[t] {
      if !(lo <= t < hi) {
        assert target[t] == mat[t];
      }
    }
  }

  // ---------------------------------------------------------------------
  // Normalising a pivot row
  // ---------------------------------------------------------------------

  /** `mat[i*cols + j] = 1` and every later entry of row i divided by `pv`. */
  function NormalizeRow(mat: seq<real>, rows: nat, cols: nat, i: nat, j: nat, pv: real): (m: seq<real>)
    requires |mat| == rows * cols && i < rows && j < cols
    ensures |m| == |mat|
  {
    seq(|mat|, p requires 0 <= p < |mat| =>
      if p == i * cols + j then 1.0
      else if i * cols + j < p < i * cols + cols then Quot(mat[p], pv)
      else mat[p])
  }

  lemma NormalizeRowAt(mat: seq<real>, rows: nat, cols: nat, i: nat, j: nat, pv: real)
    requires |mat| == rows * cols && i < rows && j < cols
    ensures forall r, c | 0 <= r < rows && 0 <= c < cols ::
      FlatAt(NormalizeRow(mat, rows, cols, i, j, pv), rows, cols, r, c) ==
      if r == i && c == j then 1.0
      else if r == i && c > j then Quot(FlatAt(mat, rows, cols, r, c), pv)
      else FlatAt(mat, rows, cols, r, c)
  {
    forall r, c | 0 <= r < rows && 0 <= c < cols
      ensures FlatAt(NormalizeRow(mat, rows, cols, i, j, pv), rows, cols, r, c) ==
        if r == i && c == j then 1.0
        else if r == i && c > j then Quot(FlatAt(mat, rows, cols, r, c), pv)
        else FlatAt(mat, rows, cols, r, c)
    {
      FlatIndexBound(r, c, rows, cols);
      RowOfIndex(r, c, i, cols);
      if r != i || c != j {
        FlatIndexDistinct(r, c, i, j, cols);
      }
    }
  }

  /** The normalising loop: the pivot becomes 1, the rest of the row is divided. */
  method NormalizePivotRow(mat: seq<real>, rows: nat, cols: nat, i: nat, j: nat, pv: real)
    returns (m: seq<real>)
    requires |mat| == rows * cols && i < rows && j < cols
    ensures m == NormalizeRow(mat, rows, cols, i, j, pv)
  {
    FlatIndexBound(i, j, rows, cols);
    RowBefore(i, rows, cols);
    m := mat[i * cols + j := 1.0];
    var p := i * cols + j + 1;
    while p < i * cols + cols
      invariant i * cols + j < p <= i * cols + cols && |m| == |mat|
      invariant forall t | 0 <= t < |mat| ::
        m[t] == if i * cols + j <= t < p then NormalizeRow(mat, rows, cols, i, j, pv)[t] else mat[t]
    {
      m := m[p := Quot(m[p], pv)];
      p := p + 1;
    }
    assert forall t | 0 <= t < |mat| :: m[t] == NormalizeRow(mat, rows, cols, i, j, pv)[t];
  }

  // ---------------------------------------------------------------------
  // Null vectors: what the row operations keep
  // ---------------------------------------------------------------------

  /** Row i of the flat list. */
  function RowOf(mat: seq<real>, rows: nat, cols: nat, i: nat): (row: seq<real>)
    requires |mat| == rows * cols && i < rows
    ensures |row| == cols
  {
    seq(cols, c requires 0 <= c < cols => FlatAt(mat, rows, cols, i, c))
  }

  lemma RowOfAt(mat: seq<real>, rows: nat, cols: nat, i: nat)
    requires |mat| == rows * cols && i < rows
    ensures forall c | 0 <= c < cols :: RowOf(mat, rows, cols, i)[c] == FlatAt(mat, rows, cols, i, c)
  {
  }

  /** Every row of the flat list is orthogonal to v. */
  predicate FlatAnnihilates(mat: seq<real>, rows: nat, cols: nat, v: seq<real>)
    requires |mat| == rows * cols && |v| == cols
  {
    forall i | 0 <= i < rows :: RowDots(mat, rows, cols, v)[i] == 0.0
  }

  /** The flat list annihilates v exactly when the matrix it stands for does. */
  lemma UnflattenAnnihilates(mat: seq<real>, rows: nat, cols: nat, v: seq<real>)
    requires |mat| == rows * cols && |v| == cols
    ensures Annihilates(Unflatten(rows, cols, mat), v) <==> FlatAnnihilates(mat, rows, cols, v)
  {
    var u := Unflatten(rows, cols, mat);
    forall i | 0 <= i < rows ensures Dot(u.e[i], v) == RowDots(mat, rows, cols, v)[i] {
      assert u.e[i] == RowOf(mat, rows, cols, i);
    }
  }

  /** A nonzero factor neither creates nor removes a zero. */
  lemma NonzeroFactor(a: real, x: real)
    requires a != 0.0
    ensures a * x == 0.0 <==> x == 0.0
  {
  }

  /** `row_swap` keeps the null space: the rows are only reordered. */
  lemma SwapRowsNull(mat: seq<real>, rows: nat, cols: nat, i: nat, j: nat, v: seq<real>)
    requires |mat| == rows * cols && i < rows && j < rows && |v| == cols
    ensures FlatAnnihilates(SwapRows(mat, rows, cols, i, j), rows, cols, v) <==> FlatAnnihilates(mat, rows, cols, v)
  {
    var s := SwapRows(mat, rows, cols, i, j);
    SwapRowsAt(mat, rows, cols, i, j);
    forall r | 0 <= r < rows
      ensures RowOf(s, rows, cols, r) == RowOf(mat, rows, cols, if r == i then j else if r == j then i else r)
    {
    }
    var ds, dt := RowDots(mat, rows, cols, v), RowDots(s, rows, cols, v);
    if FlatAnnihilates(mat, rows, cols, v) {
      forall r | 0 <= r < rows ensures dt[r] == 0.0 {
        var r' := if r == i then j else if r == j then i else r;
        assert dt[r] == ds[r'];
      }
    }
    if FlatAnnihilates(s, rows, cols, v) {
      forall r | 0 <= r < rows ensures ds[r] == 0.0 {
        var r' := if r == i then j else if r == j then i else r;
        assert RowOf(s, rows, cols, r') == RowOf(mat, rows, cols, r);
        assert ds[r] == dt[r'];
      }
    }
  }

  /** The dot product of every row of the flat list with v. */
  function RowDots(mat: seq<real>, rows: nat, cols: nat, v: seq<real>): (d: seq<real>)
    requires |mat| == rows * cols && |v| == cols
    ensures |d| == rows
    ensures forall r | 0 <= r < rows :: d[r] == Dot(RowOf(mat, rows, cols, r), v)
  {
    seq(rows, r requires 0 <= r < rows => Dot(RowOf(mat, rows, cols, r), v))
  }

  /** Replacing row i by a row that meets v in a*(row_i.v) - b*(row_j.v),
      with a != 0 and row j a row left in place, keeps the null space. */
  lemma ReplaceRowNull(mat: seq<real>, s: seq<real>, rows: nat, cols: nat, i: nat, j: nat, a: real, b: real, v: seq<real>)
    requires |mat| == rows * cols && |s| == rows * cols && i < rows && j < rows && |v| == cols
    requires a != 0.0 && (j != i || b == 0.0)
    requires forall r | 0 <= r < rows && r != i :: RowDots(s, rows, cols, v)[r] == RowDots(mat, rows, cols, v)[r]
    requires RowDots(s, rows, cols, v)[i] == a * RowDots(mat, rows, cols, v)[i] - b * RowDots(mat, rows, cols, v)[j]
    ensures FlatAnnihilates(s, rows, cols, v) <==> FlatAnnihilates(mat, rows, cols, v)
  {
    var ds, dt := RowDots(mat, rows, cols, v), RowDots(s, rows, cols, v);
    ReplaceOne(ds, dt, i, j, a, b);
  }

  /** The same on the list of dot products. */
  lemma ReplaceOne(ds: seq<real>, dt: seq<real>, i: nat, j: nat, a: real, b: real)
    requires |ds| == |dt| && i < |ds| && j < |ds| && a != 0.0 && (j != i || b == 0.0)
    requires forall r | 0 <= r < |ds| && r != i :: dt[r] == ds[r]
    requires dt[i] == a * ds[i] - b * ds[j]
    ensures (forall r | 0 <= r < |dt| :: dt[r] == 0.0) <==> (forall r | 0 <= r < |ds| :: ds[r] == 0.0)
  {
    if forall r | 0 <= r < |ds| :: ds[r] == 0.0 {
      CombineZero(a, b, ds[i], ds[j]);
    }
    if forall r | 0 <= r < |dt| :: dt[r] == 0.0 {
      CombineCancels(a, b, ds[i], ds[j]);
    }
  }

  lemma CombineZero(a: real, b: real, x: real, y: real)
    requires x == 0.0 && y == 0.0
    ensures a * x - b * y == 0.0
  {
  }

  lemma CombineCancels(a: real, b: real, x: real, y: real)
    requires a != 0.0 && a * x - b * y == 0.0 && (y == 0.0 || b == 0.0)
    ensures x == 0.0
  {
    NonzeroFactor(a, x);
  }

  /** `cross_cancel(a, i, b, j)` with a != 0 keeps the null space: row j is
      unchanged and row i can be recovered from the new row i and row j. */
  lemma CrossCancelNull(mat: seq<real>, rows: nat, cols: nat, a: real, i: nat, b: real, j: nat, v: seq<real>)
    requires |mat| == rows * cols && i < rows && j < rows && i != j && a != 0.0 && |v| == cols
    ensures FlatAnnihilates(CrossCancel(mat, rows, cols, a, i, b, j), rows, cols, v) <==> FlatAnnihilates(mat, rows, cols, v)
  {
    var s := CrossCancel(mat, rows, cols, a, i, b, j);
    forall r | 0 <= r < rows && r != i ensures RowDots(s, rows, cols, v)[r] == RowDots(mat, rows, cols, v)[r] {
      CrossCancelKeepsRow(mat, rows, cols, a, i, b, j, r);
    }
    CrossCancelRowDot(mat, rows, cols, a, i, b, j, v);
    ReplaceRowNull(mat, s, rows, cols, i, j, a, b, v);
  }

  /** `cross_cancel` leaves every row but row i as it was. */
  lemma CrossCancelKeepsRow(mat: seq<real>, rows: nat, cols: nat, a: real, i: nat, b: real, j: nat, r: nat)
    requires |mat| == rows * cols && i < rows && j < rows && r < rows && r != i
    ensures RowOf(CrossCancel(mat, rows, cols, a, i, b, j), rows, cols, r) == RowOf(mat, rows, cols, r)
  {
    var s := CrossCancel(mat, rows, cols, a, i, b, j);
    forall c | 0 <= c < cols ensures RowOf(s, rows, cols, r)[c] == RowOf(mat, rows, cols, r)[c] {
      CrossCancelEntry(mat, rows, cols, a, i, b, j, r, c);
    }
  }

  /** The new row i meets v in a*(row_i.v) - b*(row_j.v). */
  lemma CrossCancelRowDot(mat: seq<real>, rows: nat, cols: nat, a: real, i: nat, b: real, j: nat, v: seq<real>)
    requires |mat| == rows * cols && i < rows && j < rows && |v| == cols
    ensures RowDots(CrossCancel(mat, rows, cols, a, i, b, j), rows, cols, v)[i] ==
      a * RowDots(mat, rows, cols, v)[i] - b * RowDots(mat, rows, cols, v)[j]
  {
    CrossCancelRowIs(mat, rows, cols, a, i, b, j);
    CombinedRowDot(CrossCancel(mat, rows, cols, a, i, b, j), mat, rows, cols, a, i, b, j, v);
  }

  /** A row that is a*row_i - b*row_j of another list meets v in a*(row_i.v) - b*(row_j.v). */
  lemma CombinedRowDot(s: seq<real>, mat: seq<real>, rows: nat, cols: nat, a: real, i: nat, b: real, j: nat, v: seq<real>)
    requires |mat| == rows * cols && |s| == rows * cols && i < rows && j < rows && |v| == cols
    requires IsCombination(RowOf(s, rows, cols, i), RowOf(mat, rows, cols, i), RowOf(mat, rows, cols, j), a, b)
    ensures RowDots(s, rows, cols, v)[i] == a * RowDots(mat, rows, cols, v)[i] - b * RowDots(mat, rows, cols, v)[j]
  {
    DotCombine(RowOf(mat, rows, cols, i), RowOf(mat, rows, cols, j), RowOf(s, rows, cols, i), v, a, b);
  }

  /** The new row i is a*row_i - b*row_j. */
  lemma CrossCancelRowIs(mat: seq<real>, rows: nat, cols: nat, a: real, i: nat, b: real, j: nat)
    requires |mat| == rows * cols && i < rows && j < rows
    ensures IsCombination(RowOf(CrossCancel(mat, rows, cols, a, i, b, j), rows, cols, i),
      RowOf(mat, rows, cols, i), RowOf(mat, rows, cols, j), a, b)
  {
    var s := CrossCancel(mat, rows, cols, a, i, b, j);
    forall c | 0 <= c < cols
      ensures RowOf(s, rows, cols, i)[c] == a * RowOf(mat, rows, cols, i)[c] - b * RowOf(mat, rows, cols, j)[c]
    {
      CrossCancelEntry(mat, rows, cols, a, i, b, j, i, c);
    }
  }

  /** Normalising a pivot row that is zero left of its pivot `pv != 0`
      divides the whole row by `pv`, which keeps the null space. */
  lemma NormalizeRowNull(mat: seq<real>, rows: nat, cols: nat, i: nat, j: nat, pv: real, v: seq<real>)
    requires |mat| == rows * cols && i < rows && j < cols && |v| == cols
    requires pv != 0.0 && FlatAt(mat, rows, cols, i, j) == pv
    requires forall c | 0 <= c < j :: FlatAt(mat, rows, cols, i, c) == 0.0
    ensures FlatAnnihilates(NormalizeRow(mat, rows, cols, i, j, pv), rows, cols, v) <==> FlatAnnihilates(mat, rows, cols, v)
  {
    var s := NormalizeRow(mat, rows, cols, i, j, pv);
    forall r | 0 <= r < rows && r != i ensures RowDots(s, rows, cols, v)[r] == RowDots(mat, rows, cols, v)[r] {
      NormalizeKeepsRow(mat, rows, cols, i, j, pv, r);
    }
    NormalizeRowDot(mat, rows, cols, i, j, pv, v);
    ReplaceRowNull(mat, s, rows, cols, i, i, 1.0 / pv, 0.0, v);
  }

  /** Normalising row i leaves every other row as it was. */
  lemma NormalizeKeepsRow(mat: seq<real>, rows: nat, cols: nat, i: nat, j: nat, pv: real, r: nat)
    requires |mat| == rows * cols && i < rows && j < cols && r < rows && r != i
    ensures RowOf(NormalizeRow(mat, rows, cols, i, j, pv), rows, cols, r) == RowOf(mat, rows, cols, r)
  {
    NormalizeRowAt(mat, rows, cols, i, j, pv);
  }

  /** The normalised row meets v in (row_i.v)/pv. */
  lemma NormalizeRowDot(mat: seq<real>, rows: nat, cols: nat, i: nat, j: nat, pv: real, v: seq<real>)
    requires |mat| == rows * cols && i < rows && j < cols && |v| == cols
    requires pv != 0.0 && FlatAt(mat, rows, cols, i, j) == pv
    requires forall c | 0 <= c < j :: FlatAt(mat, rows, cols, i, c) == 0.0
    ensures RowDots(NormalizeRow(mat, rows, cols, i, j, pv), rows, cols, v)[i] ==
      (1.0 / pv) * RowDots(mat, rows, cols, v)[i] - 0.0 * RowDots(mat, rows, cols, v)[i]
  {
    NormalizedRowIs(mat, rows, cols, i, j, pv);
    CombinedRowDot(NormalizeRow(mat, rows, cols, i, j, pv), mat, rows, cols, 1.0 / pv, i, 0.0, i, v);
  }

  /** The normalised row is the row times 1/pv. */
  lemma NormalizedRowIs(mat: seq<real>, rows: nat, cols: nat, i: nat, j: nat, pv: real)
    requires |mat| == rows * cols && i < rows && j < cols
    requires pv != 0.0 && FlatAt(mat, rows, cols, i, j) == pv
    requires forall c | 0 <= c < j :: FlatAt(mat, rows, cols, i, c) == 0.0
    ensures IsCombination(RowOf(NormalizeRow(mat, rows, cols, i, j, pv), rows, cols, i),
      RowOf(mat, rows, cols, i), RowOf(mat, rows, cols, i), 1.0 / pv, 0.0)
  {
    var s := NormalizeRow(mat, rows, cols, i, j, pv);
    NormalizeRowAt(mat, rows, cols, i, j, pv);
    var x := RowOf(mat, rows, cols, i);
    forall c | 0 <= c < cols ensures RowOf(s, rows, cols, i)[c] == (1.0 / pv) * x[c] - 0.0 * x[c] {
      ScaledEntry(x[c], pv, c, j);
    }
  }

  /** The normalised entry is the entry times 1/pv: 1 at the pivot, the
      quotient right of it, and 0 left of it, where the entry is 0. */
  lemma ScaledEntry(x: real, pv: real, c: nat, j: nat)
    requires pv != 0.0 && (c == j ==> x == pv) && (c < j ==> x == 0.0)
    ensures (if c == j then 1.0 else if c > j then Quot(x, pv) else x) == (1.0 / pv) * x - 0.0 * x
  {
  }
}
