/** The elementary row and column operations of `MatrixReductions`, the minor
    submatrix, and the column permutation that moves columns with undecided
    entries to the right. Each is a pure function built entry by entry, as
    the source builds them with `entry(i, j)`. */
module Elementary {
  import opened Common
  import opened Matrices

  // ---------------------------------------------------------------------
  // Row operations
  // ---------------------------------------------------------------------

  /** `_eval_row_op_swap(row1, row2)`. */
  function RowSwap(m: Mat, row1: nat, row2: nat): (r: Mat)
    requires row1 < m.rows && row2 < m.rows
    ensures r.rows == m.rows && r.cols == m.cols
  {
    Matrix(m.rows, m.cols, seq(m.rows, i requires 0 <= i < m.rows => seq(m.cols, j requires 0 <= j < m.cols =>
      if i == row1 then m.e[row2][j] else if i == row2 then m.e[row1][j] else m.e[i][j])))
  }

  /** `_eval_row_op_multiply_row_by_const(row, k)`. */
  function RowScale(m: Mat, row: nat, k: real): (r: Mat)
    requires row < m.rows
    ensures r.rows == m.rows && r.cols == m.cols
  {
    Matrix(m.rows, m.cols, seq(m.rows, i requires 0 <= i < m.rows => seq(m.cols, j requires 0 <= j < m.cols =>
      if i == row then k * m.e[i][j] else m.e[i][j])))
  }

  /** `_eval_row_op_add_multiple_to_other_row(row, k, row2)`: row += k * row2. */
  function RowAddMultiple(m: Mat, row: nat, k: real, row2: nat): (r: Mat)
    requires row < m.rows && row2 < m.rows
    ensures r.rows == m.rows && r.cols == m.cols
  {
    Matrix(m.rows, m.cols, seq(m.rows, i requires 0 <= i < m.rows => seq(m.cols, j requires 0 <= j < m.cols =>
      if i == row then m.e[i][j] + k * m.e[row2][j] else m.e[i][j])))
  }

  /** A row swap exchanges the two rows and leaves every other row as it was. */
  lemma RowSwapRows(m: Mat, row1: nat, row2: nat)
    requires row1 < m.rows && row2 < m.rows
    ensures var r := RowSwap(m, row1, row2);
      r.e[row1] == m.e[row2] && r.e[row2] == m.e[row1] &&
      forall i | 0 <= i < m.rows && i != row1 && i != row2 :: r.e[i] == m.e[i]
  {
    var r := RowSwap(m, row1, row2);
    assert r.e[row1] == m.e[row2];
    assert r.e[row2] == m.e[row1];
    forall i | 0 <= i < m.rows && i != row1 && i != row2 ensures r.e[i] == m.e[i] {
    }
  }

  /** Swapping the same two rows twice gives back the original matrix. */
  lemma RowSwapInvolution(m: Mat, row1: nat, row2: nat)
    requires row1 < m.rows && row2 < m.rows
    ensures RowSwap(RowSwap(m, row1, row2), row1, row2) == m
  {
    var r := RowSwap(RowSwap(m, row1, row2), row1, row2);
    forall i | 0 <= i < m.rows ensures r.e[i] == m.e[i] {
    }
  }

  /** Adding a multiple of another row changes only the target row, by
      exactly that multiple. */
  lemma RowAddMultipleRows(m: Mat, row: nat, k: real, row2: nat)
    requires row < m.rows && row2 < m.rows
    ensures var r := RowAddMultiple(m, row, k, row2);
      (forall i | 0 <= i < m.rows && i != row :: r.e[i] == m.e[i]) &&
      forall j | 0 <= j < m.cols :: r.e[row][j] == m.e[row][j] + k * m.e[row2][j]
  {
    var r := RowAddMultiple(m, row, k, row2);
    forall i | 0 <= i < m.rows && i != row ensures r.e[i] == m.e[i] {
    }
  }

  /** Adding k times another row and then -k times it undoes the first step. */
  lemma RowAddMultipleUndo(m: Mat, row: nat, k: real, row2: nat)
    requires row < m.rows && row2 < m.rows && row != row2
    ensures RowAddMultiple(RowAddMultiple(m, row, k, row2), row, -k, row2) == m
  {
    var r := RowAddMultiple(RowAddMultiple(m, row, k, row2), row, -k, row2);
    forall i | 0 <= i < m.rows ensures r.e[i] == m.e[i] {
      forall j | 0 <= j < m.cols ensures r.e[i][j] == m.e[i][j] {
      }
    }
  }

  /** Scaling a row by a nonzero k and then by 1/k undoes the first step. */
  lemma RowScaleUndo(m: Mat, row: nat, k: real)
    requires row < m.rows && k != 0.0
    ensures RowScale(RowScale(m, row, k), row, 1.0 / k) == m
  {
    var r := RowScale(RowScale(m, row, k), row, 1.0 / k);
    forall i | 0 <= i < m.rows ensures r.e[i] == m.e[i] {
      if i == row {
        forall j | 0 <= j < m.cols ensures r.e[i][j] == m.e[i][j] {
          calc {
            r.e[i][j];
            1.0 / k * (k * m.e[i][j]);
            (1.0 / k * k) * m.e[i][j];
            m.e[i][j];
          }
        }
      }
    }
  }

  // ---------------------------------------------------------------------
  // Column operations
  // ---------------------------------------------------------------------

  /** `_eval_col_op_swap(col1, col2)`. */
  function ColSwap(m: Mat, col1: nat, col2: nat): (r: Mat)
    requires col1 < m.cols && col2 < m.cols
    ensures r.rows == m.rows && r.cols == m.cols
  {
    Matrix(m.rows, m.cols, seq(m.rows, i requires 0 <= i < m.rows => seq(m.cols, j requires 0 <= j < m.cols =>
      if j == col1 then m.e[i][col2] else if j == col2 then m.e[i][col1] else m.e[i][j])))
  }

  /** `_eval_col_op_multiply_col_by_const(col, k)`. */
  function ColScale(m: Mat, col: nat, k: real): (r: Mat)
    requires col < m.cols
    ensures r.rows == m.rows && r.cols == m.cols
  {
    Matrix(m.rows, m.cols, seq(m.rows, i requires 0 <= i < m.rows => seq(m.cols, j requires 0 <= j < m.cols =>
      if j == col then k * m.e[i][j] else m.e[i][j])))
  }

  /** `_eval_col_op_add_multiple_to_other_col(col, k, col2)`: col += k * col2. */
  function ColAddMultiple(m: Mat, col: nat, k: real, col2: nat): (r: Mat)
    requires col < m.cols && col2 < m.cols
    ensures r.rows == m.rows && r.cols == m.cols
  {
    Matrix(m.rows, m.cols, seq(m.rows, i requires 0 <= i < m.rows => seq(m.cols, j requires 0 <= j < m.cols =>
      if j == col then m.e[i][j] + k * m.e[i][col2] else m.e[i][j])))
  }

  /** Each column operation is the matching row operation on the transpose. */
  lemma ColOpsAreTransposedRowOps(m: Mat, col: nat, k: real, col2: nat)
    requires col < m.cols && col2 < m.cols
    ensures ColSwap(m, col, col2) == Transpose(RowSwap(Transpose(m), col, col2))
    ensures ColScale(m, col, k) == Transpose(RowScale(Transpose(m), col, k))
    ensures ColAddMultiple(m, col, k, col2) == Transpose(RowAddMultiple(Transpose(m), col, k, col2))
  {
    var a, b, c := ColSwap(m, col, col2), ColScale(m, col, k), ColAddMultiple(m, col, k, col2);
    var a', b', c' := Transpose(RowSwap(Transpose(m), col, col2)), Transpose(RowScale(Transpose(m), col, k)),
      Transpose(RowAddMultiple(Transpose(m), col, k, col2));
    forall i | 0 <= i < m.rows ensures a.e[i] == a'.e[i] && b.e[i] == b'.e[i] && c.e[i] == c'.e[i] {
      forall j | 0 <= j < m.cols ensures a.e[i][j] == a'.e[i][j] && b.e[i][j] == b'.e[i][j] && c.e[i][j] == c'.e[i][j] {
      }
    }
  }

  /** Swapping the same two columns twice gives back the original matrix. */
  lemma ColSwapInvolution(m: Mat, col1: nat, col2: nat)
    requires col1 < m.cols && col2 < m.cols
    ensures ColSwap(ColSwap(m, col1, col2), col1, col2) == m
  {
    ColOpsAreTransposedRowOps(m, col1, 0.0, col2);
    var t := RowSwap(Transpose(m), col1, col2);
    ColOpsAreTransposedRowOps(Transpose(t), col1, 0.0, col2);
    TransposeTwice(t);
    RowSwapInvolution(Transpose(m), col1, col2);
    TransposeTwice(m);
  }

  // ---------------------------------------------------------------------
  // minor_submatrix
  // ---------------------------------------------------------------------

  /** A Python index into a list of length n: negative values count from the
      end. */
  function NormalizeIndex(i: int, n: nat): int
  {
    if i < 0 then i + n else i
  }

  /** `minor_submatrix(i, j)`: drop row i and column j; negative indices
      count from the end, and anything still out of range is an error. */
  function MinorSubmatrix(m: Mat, i: int, j: int): (r: Result<Mat, MatrixError>)
    ensures r.Err? <==> !(0 <= NormalizeIndex(i, m.rows) < m.rows && 0 <= NormalizeIndex(j, m.cols) < m.cols)
    ensures r.Err? ==> r.error == IndexOutOfRange
    ensures r.Ok? ==> r.value.rows == m.rows - 1 && r.value.cols == m.cols - 1
  {
    var i', j' := NormalizeIndex(i, m.rows), NormalizeIndex(j, m.cols);
    if !(0 <= i' < m.rows) || !(0 <= j' < m.cols) then Err(IndexOutOfRange)
    else Ok(Extract(m, i', j'))
  }

  /** The position, among the kept rows, of row x when row i is dropped. */
  function Unskip(x: nat, i: nat): nat
    requires x != i
  {
    if x < i then x else x - 1
  }

  /** The minor is the matrix with row i and column j dropped: its entry
      (a, b) is the entry at the a-th kept row and b-th kept column, no kept
      index is the dropped one, and every other row and column is kept. */
  lemma MinorSubmatrixEntries(m: Mat, i: nat, j: nat)
    requires i < m.rows && j < m.cols
    ensures MinorSubmatrix(m, i, j) == Ok(Extract(m, i, j))
    ensures forall a | 0 <= a < m.rows - 1 :: Skip(a, i) < m.rows && Skip(a, i) != i
    ensures forall b | 0 <= b < m.cols - 1 :: Skip(b, j) < m.cols && Skip(b, j) != j
    ensures forall x | 0 <= x < m.rows && x != i :: Unskip(x, i) < m.rows - 1 && Skip(Unskip(x, i), i) == x
    ensures forall y | 0 <= y < m.cols && y != j :: Unskip(y, j) < m.cols - 1 && Skip(Unskip(y, j), j) == y
  {
  }

  /** A negative index names the same row as its positive counterpart. */
  lemma MinorSubmatrixNegative(m: Mat, i: int, j: int)
    requires -(m.rows as int) <= i < 0 && 0 <= j < m.cols
    ensures MinorSubmatrix(m, i, j) == MinorSubmatrix(m, i + m.rows, j)
  {
  }

  // ---------------------------------------------------------------------
  // _permute_complexity_right
  // ---------------------------------------------------------------------

  /** The number of entries of column j whose zero test is undecided. */
  function Complexity(m: Mat, isZero: ZeroTest, j: nat): nat
    requires j < m.cols
  {
    CountUndecided(m, isZero, j, m.rows)
  }

  function CountUndecided(m: Mat, isZero: ZeroTest, j: nat, n: nat): nat
    requires j < m.cols && n <= m.rows
  {
    if n == 0 then 0 else CountUndecided(m, isZero, j, n - 1) + (if isZero(m.e[n - 1][j]) == None then 1 else 0)
  }

  /** Lexicographic order on (complexity, index) pairs, as Python compares
      tuples. */
  predicate PairLess(a: (nat, nat), b: (nat, nat))
  {
    a.0 < b.0 || (a.0 == b.0 && a.1 < b.1)
  }

  predicate SortedPairs(s: seq<(nat, nat)>)
  {
    forall a, b | 0 <= a < b < |s| :: PairLess(s[a], s[b])
  }

  /** Insert x into a sorted list, before the first element not below it. */
  function Insert(x: (nat, nat), s: seq<(nat, nat)>): (r: seq<(nat, nat)>)
    ensures multiset(r) == multiset(s) + multiset{x}
    ensures |r| == |s| + 1
  {
    if s == [] then [x]
    else
      assert s == [s[0]] + s[1..];
      if PairLess(s[0], x) then [s[0]] + Insert(x, s[1..]) else [x] + s
  }

  lemma {:induction false} InsertSorted(x: (nat, nat), s: seq<(nat, nat)>)
    requires SortedPairs(s) && x !in s
    ensures SortedPairs(Insert(x, s))
  {
    if s != [] && PairLess(s[0], x) {
      assert SortedPairs(s[1..]);
      InsertSorted(x, s[1..]);
      var r := Insert(x, s[1..]);
      forall y | y in r ensures PairLess(s[0], y) {
        assert y in multiset(r);
        if y != x {
          assert y in multiset(s[1..]);
          var k :| 0 <= k < |s[1..]| && s[1..][k] == y;
          assert s[k + 1] == y;
        }
      }
      var t := [s[0]] + r;
      assert Insert(x, s) == t;
      forall a, b | 0 <= a < b < |t| ensures PairLess(t[a], t[b]) {
        if a == 0 {
          assert t[b] == r[b - 1] && t[b] in r;
        } else {
          assert t[a] == r[a - 1] && t[b] == r[b - 1];
        }
      }
    } else if s != [] {
      assert s[0] != x;
      var t := [x] + s;
      assert Insert(x, s) == t;
      forall a, b | 0 <= a < b < |t| ensures PairLess(t[a], t[b]) {
        assert t[b] == s[b - 1];
        if a > 0 {
          assert t[a] == s[a - 1];
        } else if b > 1 {
          assert PairLess(s[0], s[b - 1]);
        }
      }
    }
  }

  /** `sorted(pairs)` (insertion sort; the pairs are distinct, so every stable
      sort gives the same list). */
  function SortPairs(s: seq<(nat, nat)>): (r: seq<(nat, nat)>)
    ensures multiset(r) == multiset(s) && |r| == |s|
  {
    if s == [] then []
    else
      assert s == s[..|s| - 1] + [s[|s| - 1]];
      Insert(s[|s| - 1], SortPairs(s[..|s| - 1]))
  }

  lemma {:induction false} SortPairsSorted(s: seq<(nat, nat)>)
    requires forall a, b | 0 <= a < b < |s| :: s[a] != s[b]
    ensures SortedPairs(SortPairs(s))
  {
    if s != [] {
      var init := s[..|s| - 1];
      SortPairsSorted(init);
      assert s[|s| - 1] !in multiset(SortPairs(init)) by {
        forall k | 0 <= k < |init| ensures init[k] != s[|s| - 1] {
        }
        assert s[|s| - 1] !in init;
      }
      InsertSorted(s[|s| - 1], SortPairs(init));
    }
  }

  /** `[(complexity(i), i) for i in range(self.cols)]`. */
  function ComplexityPairs(m: Mat, isZero: ZeroTest): (s: seq<(nat, nat)>)
    ensures |s| == m.cols && forall j | 0 <= j < m.cols :: s[j] == (Complexity(m, isZero, j), j)
  {
    seq(m.cols, j requires 0 <= j < m.cols => (Complexity(m, isZero, j), j))
  }

  /** `self.permute(perm, orientation='cols')`: column k of the result is
      column perm[k] of the matrix. */
  function PermuteCols(m: Mat, perm: seq<nat>): (r: Mat)
    requires |perm| == m.cols && forall k | 0 <= k < |perm| :: perm[k] < m.cols
    ensures r.rows == m.rows && r.cols == m.cols
    ensures forall i, k | 0 <= i < m.rows && 0 <= k < m.cols :: r.e[i][k] == m.e[i][perm[k]]
  {
    Matrix(m.rows, m.cols, seq(m.rows, i requires 0 <= i < m.rows => seq(m.cols, k requires 0 <= k < m.cols => m.e[i][perm[k]])))
  }

  /** `perm = [j for (i, j) in sorted(complex)]`. */
  function ComplexityOrder(m: Mat, isZero: ZeroTest): (perm: seq<nat>)
    ensures |perm| == m.cols
  {
    var sorted := SortPairs(ComplexityPairs(m, isZero));
    seq(|sorted|, k requires 0 <= k < |sorted| => sorted[k].1)
  }

  /** The order lists every column exactly once, by non-decreasing number of
      undecided entries, ties kept in column order. */
  lemma ComplexityOrderIsSortedPermutation(m: Mat, isZero: ZeroTest)
    ensures var perm := ComplexityOrder(m, isZero);
      (forall k | 0 <= k < m.cols :: perm[k] < m.cols) &&
      (forall k1, k2 | 0 <= k1 < k2 < m.cols :: perm[k1] != perm[k2]) &&
      (forall j | 0 <= j < m.cols :: j in perm) &&
      (forall k1, k2 | 0 <= k1 < k2 < m.cols ::
        Complexity(m, isZero, perm[k1]) < Complexity(m, isZero, perm[k2]) ||
        (Complexity(m, isZero, perm[k1]) == Complexity(m, isZero, perm[k2]) && perm[k1] < perm[k2]))
  {
    var pairs := ComplexityPairs(m, isZero);
    var sorted := SortPairs(pairs);
    var perm := ComplexityOrder(m, isZero);
    SortPairsSorted(pairs);
    forall k | 0 <= k < m.cols ensures perm[k] < m.cols && sorted[k] == (Complexity(m, isZero, perm[k]), perm[k]) {
      assert sorted[k] in multiset(pairs);
      var j :| 0 <= j < |pairs| && pairs[j] == sorted[k];
    }
    forall j | 0 <= j < m.cols ensures j in perm {
      assert pairs[j] in multiset(sorted);
      var k :| 0 <= k < |sorted| && sorted[k] == pairs[j];
      assert perm[k] == j;
    }
    forall k1, k2 | 0 <= k1 < k2 < m.cols ensures perm[k1] != perm[k2] {
      assert PairLess(sorted[k1], sorted[k2]);
    }
  }

  /** `_permute_complexity_right`: the permuted matrix and the permutation. */
  function PermuteComplexityRight(m: Mat, isZero: ZeroTest): (r: (Mat, seq<nat>))
    ensures r.1 == ComplexityOrder(m, isZero)
    ensures r.0.rows == m.rows && r.0.cols == m.cols
    ensures forall i, k | 0 <= i < m.rows && 0 <= k < m.cols :: r.1[k] < m.cols && r.0.e[i][k] == m.e[i][r.1[k]]
  {
    var perm := ComplexityOrder(m, isZero);
    ComplexityOrderIsSortedPermutation(m, isZero);
    (PermuteCols(m, perm), perm)
  }
}
