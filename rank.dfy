/** `rank()`: the shortcuts for empty, single-row or single-column and 2x2
    matrices, and otherwise the number of pivots of an echelon form of the
    matrix with its columns sorted by complexity. */
module Ranks {
  import opened Common
  import opened Matrices
  import opened Pivot
  import opened Determinants
  import opened Elementary
  import opened RowReduction
  import opened Reductions

  /** `False in [iszerofunc(x) for x in self]`. */
  predicate SomeNonzero(m: Mat, isZero: ZeroTest)
  {
    exists i, j | 0 <= i < m.rows && 0 <= j < m.cols :: isZero(m.e[i][j]) == Some(false)
  }

  /** `None in [iszerofunc(x) for x in self]`. */
  predicate SomeUndecided(m: Mat, isZero: ZeroTest)
  {
    exists i, j | 0 <= i < m.rows && 0 <= j < m.cols :: isZero(m.e[i][j]).None?
  }

  /** The general route: `len(pivots)` of the echelon form of the matrix
      with its columns permuted by complexity. */
  function PivotCount(m: Mat, isZero: ZeroTest, simplify: real -> real, equalsZero: real -> bool): nat
  {
    |EchelonFormOf(PermuteComplexityRight(m, isZero).0, isZero, simplify, equalsZero).1|
  }

  /** `rank(iszerofunc, simplify)`; `self.det()` of a 2x2 matrix is its
      closed form whatever the method. */
  function Rank(m: Mat, isZero: ZeroTest, simplify: real -> real, equalsZero: real -> bool): nat
  {
    if m.rows == 0 || m.cols == 0 then 0
    else if (m.rows <= 1 || m.cols <= 1) && SomeNonzero(m, isZero) then 1
    else if m.rows == 2 && m.cols == 2 && !SomeNonzero(m, isZero) && !SomeUndecided(m, isZero) then 0
    else if m.rows == 2 && m.cols == 2 && isZero(ClosedForm(m)) == Some(true) && SomeNonzero(m, isZero) then 1
    else if m.rows == 2 && m.cols == 2 && isZero(ClosedForm(m)) == Some(false) then 2
    else PivotCount(m, isZero, simplify, equalsZero)
  }

  /** The rank is at most the number of rows and at most the number of
      columns, and an empty matrix has rank 0. */
  lemma RankBounds(m: Mat, isZero: ZeroTest, simplify: real -> real, equalsZero: real -> bool)
    requires RecognisesZero(isZero)
    ensures Rank(m, isZero, simplify, equalsZero) <= m.rows
    ensures Rank(m, isZero, simplify, equalsZero) <= m.cols
    ensures m.rows == 0 || m.cols == 0 ==> Rank(m, isZero, simplify, equalsZero) == 0
  {
    PivotCountBounds(m, isZero, simplify, equalsZero);
  }

  /** The general route counts at most one pivot per row and per column. */
  lemma PivotCountBounds(m: Mat, isZero: ZeroTest, simplify: real -> real, equalsZero: real -> bool)
    requires RecognisesZero(isZero)
    ensures PivotCount(m, isZero, simplify, equalsZero) <= m.rows
    ensures PivotCount(m, isZero, simplify, equalsZero) <= m.cols
  {
    var p := PermuteComplexityRight(m, isZero).0;
    RowReducePivotsIncrease(p, isZero, simplify, equalsZero, true, false, false);
  }

  /** A 2x2 matrix whose entries the zero test decides: rank 0 when it is
      zero, 1 when it is nonzero with zero determinant, 2 otherwise. */
  lemma Rank2(m: Mat, isZero: ZeroTest, simplify: real -> real, equalsZero: real -> bool)
    requires m.rows == 2 && m.cols == 2 && ExactZeroTest(isZero)
    ensures var zero := m.e[0][0] == 0.0 && m.e[0][1] == 0.0 && m.e[1][0] == 0.0 && m.e[1][1] == 0.0;
      Rank(m, isZero, simplify, equalsZero) == if zero then 0 else if Laplace(m) == 0.0 then 1 else 2
  {
    var zero := m.e[0][0] == 0.0 && m.e[0][1] == 0.0 && m.e[1][0] == 0.0 && m.e[1][1] == 0.0;
    forall i, j | 0 <= i < m.rows && 0 <= j < m.cols
      ensures isZero(m.e[i][j]).Some?
    {
      assert isZero(m.e[i][j]) == Some(m.e[i][j] == 0.0);
    }
    assert !SomeUndecided(m, isZero);
    if !zero {
      if m.e[0][0] != 0.0 { assert isZero(m.e[0][0]) == Some(false); }
      else if m.e[0][1] != 0.0 { assert isZero(m.e[0][1]) == Some(false); }
      else if m.e[1][0] != 0.0 { assert isZero(m.e[1][0]) == Some(false); }
      else { assert isZero(m.e[1][1]) == Some(false); }
      assert SomeNonzero(m, isZero);
    }
    assert isZero(ClosedForm(m)) == Some(Laplace(m) == 0.0);
  }

  /** A single row or column with an entry the zero test calls nonzero has
      rank 1. */
  lemma RankVector(m: Mat, isZero: ZeroTest, simplify: real -> real, equalsZero: real -> bool, i: nat, j: nat)
    requires m.rows == 1 || m.cols == 1
    requires i < m.rows && j < m.cols && isZero(m.e[i][j]) == Some(false)
    ensures Rank(m, isZero, simplify, equalsZero) == 1
  {
  }

  /** Outside the shortcuts, with a zero test that decides every entry, the
      rank counts the nonzero rows of an echelon form of the matrix with its
      columns permuted: each of the first `rank` rows has a nonzero leading
      entry, every row after them is zero, and the echelon form is
      row-equivalent to the permuted matrix. */
  lemma RankCountsEchelonRows(m: Mat, isZero: ZeroTest, simplify: real -> real, equalsZero: real -> bool)
    requires ExactZeroTest(isZero) && PreservesZero(simplify) && SoundEqualsZero(equalsZero)
    requires 2 <= m.rows && 2 <= m.cols && !(m.rows == 2 && m.cols == 2)
    ensures var p := PermuteComplexityRight(m, isZero);
      var e := EchelonFormOf(p.0, isZero, simplify, equalsZero);
      var r := Rank(m, isZero, simplify, equalsZero);
      r == |e.1| && e.0.rows == m.rows && e.0.cols == m.cols &&
      (forall k | 0 <= k < r :: e.1[k] < m.cols && e.0.e[k][e.1[k]] != 0.0) &&
      (forall i, j | r <= i < m.rows && 0 <= j < m.cols :: e.0.e[i][j] == 0.0) &&
      SameNullspace(e.0, p.0)
  {
    var p := PermuteComplexityRight(m, isZero);
    EchelonFormIsEchelon(p.0, isZero, simplify, equalsZero);
  }
}
