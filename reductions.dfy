/** The reductions built on `_row_reduce`: `echelon_form`, `is_echelon`,
    `rref` and `nullspace`. */
module Reductions {
  import opened Common
  import opened Matrices
  import opened Pivot
  import opened RowReduction

  // ---------------------------------------------------------------------
  // is_echelon
  // ---------------------------------------------------------------------

  /** `_eval_is_echelon` on the submatrix from row r0 and column c0 on: every
      entry below the corner tests zero, and the check goes on right of the
      corner when the corner tests zero, diagonally otherwise. An undecided
      test counts as "not zero", as Python's truth test on None does. */
  function IsEchelonFrom(m: Mat, isZero: ZeroTest, r0: nat, c0: nat): bool
    requires r0 <= m.rows && c0 <= m.cols
    decreases m.cols - c0
  {
    if r0 == m.rows || c0 == m.cols then true
    else
      var zerosBelow := forall i | r0 < i < m.rows :: isZero(m.e[i][c0]) == Some(true);
      if isZero(m.e[r0][c0]) == Some(true) then zerosBelow && IsEchelonFrom(m, isZero, r0, c0 + 1)
      else zerosBelow && IsEchelonFrom(m, isZero, r0 + 1, c0 + 1)
  }

  /** `is_echelon`. */
  function IsEchelon(m: Mat, isZero: ZeroTest): bool
  {
    IsEchelonFrom(m, isZero, 0, 0)
  }

  /** Echelon shape with respect to a list of pivot columns: strictly
      increasing pivots, nonzero pivot entries, every pivot row zero left of
      its pivot and every row after the last pivot row zero. */
  ghost predicate EchelonShape(m: Mat, pivots: seq<nat>)
  {
    |pivots| <= m.rows &&
    (forall k | 0 <= k < |pivots| :: pivots[k] < m.cols && m.e[k][pivots[k]] != 0.0) &&
    (forall a, b | 0 <= a < b < |pivots| :: pivots[a] < pivots[b]) &&
    (forall k, j | 0 <= k < |pivots| && 0 <= j < pivots[k] :: m.e[k][j] == 0.0) &&
    (forall i, j | |pivots| <= i < m.rows && 0 <= j < m.cols :: m.e[i][j] == 0.0)
  }

  /** Entries of column c0 from row r0 on, when r0 counts the pivots left
      of c0: every one below row r0 is zero, and so is the corner unless it
      is the pivot of row r0. */
  lemma ColumnBelowCorner(m: Mat, pivots: seq<nat>, r0: nat, c0: nat, i: nat)
    requires EchelonShape(m, pivots) && r0 <= i < m.rows && c0 < m.cols && r0 <= |pivots|
    requires r0 == |pivots| || pivots[r0] >= c0
    requires i > r0 || r0 == |pivots| || pivots[r0] != c0
    ensures m.e[i][c0] == 0.0
  {
    if i < |pivots| {
      if i > r0 {
        assert pivots[r0] < pivots[i];
      }
    }
  }

  /** A matrix of echelon shape passes the check from every corner (r0, c0)
      where r0 is the number of pivots left of column c0. */
  lemma {:induction false} EchelonShapePassesFrom(m: Mat, pivots: seq<nat>, isZero: ZeroTest, r0: nat, c0: nat)
    requires EchelonShape(m, pivots) && SoundZeroTest(isZero) && RecognisesZero(isZero)
    requires r0 <= |pivots| && c0 <= m.cols
    requires r0 == |pivots| || pivots[r0] >= c0
    requires r0 == 0 || pivots[r0 - 1] < c0
    ensures IsEchelonFrom(m, isZero, r0, c0)
    decreases m.cols - c0
  {
    if r0 < m.rows && c0 < m.cols {
      forall i | r0 < i < m.rows ensures isZero(m.e[i][c0]) == Some(true) {
        ColumnBelowCorner(m, pivots, r0, c0, i);
      }
      if r0 < |pivots| && pivots[r0] == c0 {
        assert isZero(m.e[r0][c0]) != Some(true);
        if r0 + 1 < |pivots| {
          assert pivots[r0] < pivots[r0 + 1];
        }
        EchelonShapePassesFrom(m, pivots, isZero, r0 + 1, c0 + 1);
      } else {
        ColumnBelowCorner(m, pivots, r0, c0, r0);
        EchelonShapePassesFrom(m, pivots, isZero, r0, c0 + 1);
      }
    }
  }

  lemma EchelonShapePasses(m: Mat, pivots: seq<nat>, isZero: ZeroTest)
    requires EchelonShape(m, pivots) && SoundZeroTest(isZero) && RecognisesZero(isZero)
    ensures IsEchelon(m, isZero)
  {
    EchelonShapePassesFrom(m, pivots, isZero, 0, 0);
  }

  // ---------------------------------------------------------------------
  // echelon_form and rref
  // ---------------------------------------------------------------------

  /** `_eval_echelon_form`: fraction-free, no final normalisation, nothing
      zeroed above the pivots. */
  function EchelonFormOf(m: Mat, isZero: ZeroTest, simplify: real -> real, equalsZero: real -> bool)
    : (res: (Mat, seq<nat>))
  {
    var r := RowReduced(m, isZero, simplify, equalsZero, true, false, false);
    (r.0, r.1)
  }

  /** With a zero test that decides every entry, `echelon_form` returns a
      matrix of echelon shape for its pivots, `is_echelon` accepts it, and it
      is row-equivalent to the input: it annihilates exactly the vectors the
      input does. */
  lemma EchelonFormIsEchelon(m: Mat, isZero: ZeroTest, simplify: real -> real, equalsZero: real -> bool)
    requires ExactZeroTest(isZero) && PreservesZero(simplify) && SoundEqualsZero(equalsZero)
    ensures var res := EchelonFormOf(m, isZero, simplify, equalsZero);
      EchelonShape(res.0, res.1) && IsEchelon(res.0, isZero) && SameNullspace(res.0, m)
  {
    assert SoundZeroTest(isZero) && RecognisesZero(isZero);
    RowReduceKeepsNullspace(m, isZero, simplify, equalsZero, true, false, false);
    RowReduceEchelon(m, isZero, simplify, equalsZero, true, false, false);
    RowReducePivotsIncrease(m, isZero, simplify, equalsZero, true, false, false);
    var res := EchelonFormOf(m, isZero, simplify, equalsZero);
    EchelonShapePasses(res.0, res.1, isZero);
  }

  /** `echelon_form(with_pivots=True)`. */
  method EchelonForm(m: Mat, isZero: ZeroTest, simplify: real -> real, equalsZero: real -> bool)
    returns (r: Mat, pivots: seq<nat>)
    ensures (r, pivots) == EchelonFormOf(m, isZero, simplify, equalsZero)
    ensures r.rows == m.rows && r.cols == m.cols
    ensures ExactZeroTest(isZero) && PreservesZero(simplify) && SoundEqualsZero(equalsZero) ==>
      EchelonShape(r, pivots) && IsEchelon(r, isZero) && SameNullspace(r, m)
  {
    var swaps;
    r, pivots, swaps := RowReduce(m, isZero, simplify, equalsZero, true, false, false);
    if ExactZeroTest(isZero) && PreservesZero(simplify) && SoundEqualsZero(equalsZero) {
      EchelonFormIsEchelon(m, isZero, simplify, equalsZero);
    }
  }

  /** Reduced row echelon form with respect to a list of pivot columns:
      every pivot entry is 1 and every other entry of a pivot column is 0. */
  ghost predicate ReducedShape(m: Mat, pivots: seq<nat>)
  {
    |pivots| <= m.rows &&
    (forall k | 0 <= k < |pivots| :: pivots[k] < m.cols && m.e[k][pivots[k]] == 1.0) &&
    (forall k, i | 0 <= k < |pivots| && 0 <= i < m.rows && i != k :: m.e[i][pivots[k]] == 0.0)
  }

  /** `_eval_rref`: normalise, zero above and below. */
  function RrefOf(m: Mat, isZero: ZeroTest, simplify: real -> real, equalsZero: real -> bool, normalizeLast: bool)
    : (res: (Mat, seq<nat>))
    ensures res.0.rows == m.rows && res.0.cols == m.cols
    ensures |res.1| <= m.rows && forall k | 0 <= k < |res.1| :: res.1[k] < m.cols
  {
    var r := RowReduced(m, isZero, simplify, equalsZero, normalizeLast, true, true);
    (r.0, r.1)
  }

  /** With trustworthy tests that recognise a literal 0, `rref` returns
      reduced row echelon form with strictly increasing pivots, and rows
      past the last pivot row are zero. When the zero test decides every
      entry, the result is row-equivalent to the input. */
  lemma RrefIsReduced(m: Mat, isZero: ZeroTest, simplify: real -> real, equalsZero: real -> bool, normalizeLast: bool)
    requires SoundZeroTest(isZero) && RecognisesZero(isZero) && PreservesZero(simplify) && SoundEqualsZero(equalsZero)
    ensures var res := RrefOf(m, isZero, simplify, equalsZero, normalizeLast);
      ReducedShape(res.0, res.1) &&
      (forall a, b | 0 <= a < b < |res.1| :: res.1[a] < res.1[b]) &&
      (forall i, j | |res.1| <= i < m.rows && 0 <= j < m.cols :: res.0.e[i][j] == 0.0) &&
      (forall k, j | 0 <= k < |res.1| && 0 <= j < res.1[k] :: res.0.e[k][j] == 0.0) &&
      (ExactZeroTest(isZero) ==> SameNullspace(res.0, m))
  {
    RowReduceReduced(m, isZero, simplify, equalsZero, normalizeLast);
    if ExactZeroTest(isZero) {
      RowReduceKeepsNullspace(m, isZero, simplify, equalsZero, normalizeLast, true, true);
    }
    RowReducePivotsIncrease(m, isZero, simplify, equalsZero, normalizeLast, true, true);
    RowReduceEchelon(m, isZero, simplify, equalsZero, normalizeLast, true, true);
  }

  /** `rref(pivots=True)`. */
  method Rref(m: Mat, isZero: ZeroTest, simplify: real -> real, equalsZero: real -> bool, normalizeLast: bool)
    returns (r: Mat, pivots: seq<nat>)
    ensures (r, pivots) == RrefOf(m, isZero, simplify, equalsZero, normalizeLast)
    ensures SoundZeroTest(isZero) && RecognisesZero(isZero) && PreservesZero(simplify) && SoundEqualsZero(equalsZero) ==>
      ReducedShape(r, pivots)
    ensures ExactZeroTest(isZero) && PreservesZero(simplify) && SoundEqualsZero(equalsZero) ==>
      ReducedShape(r, pivots) && SameNullspace(r, m)
  {
    var swaps;
    r, pivots, swaps := RowReduce(m, isZero, simplify, equalsZero, normalizeLast, true, true);
    if SoundZeroTest(isZero) && RecognisesZero(isZero) && PreservesZero(simplify) && SoundEqualsZero(equalsZero) {
      RrefIsReduced(m, isZero, simplify, equalsZero, normalizeLast);
    }
    if ExactZeroTest(isZero) && PreservesZero(simplify) && SoundEqualsZero(equalsZero) {
      assert SoundZeroTest(isZero) && RecognisesZero(isZero);
      RrefIsReduced(m, isZero, simplify, equalsZero, normalizeLast);
    }
  }

  // ---------------------------------------------------------------------
  // nullspace
  // ---------------------------------------------------------------------

  /** `[i for i in range(n) if i not in pivots]`: the free columns, in
      increasing order. */
  function FreeVars(n: nat, pivots: seq<nat>): (fv: seq<nat>)
    ensures forall t | 0 <= t < |fv| :: fv[t] < n && fv[t] !in pivots
    ensures forall a, b | 0 <= a < b < |fv| :: fv[a] < fv[b]
    ensures forall c | 0 <= c < n && c !in pivots :: c in fv
  {
    if n == 0 then [] else FreeVars(n - 1, pivots) + (if n - 1 in pivots then [] else [n - 1])
  }

  /** The pivot columns below n. */
  ghost function PivotSet(n: nat, pivots: seq<nat>): set<nat>
  {
    set c: nat | c < n && c in pivots
  }

  lemma {:induction false} FreeVarsCount(n: nat, pivots: seq<nat>)
    ensures |FreeVars(n, pivots)| + |PivotSet(n, pivots)| == n
  {
    if n == 0 {
      assert PivotSet(0, pivots) == {};
    } else {
      FreeVarsCount(n - 1, pivots);
      if n - 1 in pivots {
        assert PivotSet(n, pivots) == PivotSet(n - 1, pivots) + {n - 1};
      } else {
        assert PivotSet(n, pivots) == PivotSet(n - 1, pivots);
      }
    }
  }

  lemma {:induction false} IncreasingPivotSet(n: nat, pivots: seq<nat>)
    requires forall a | 0 <= a < |pivots| :: pivots[a] < n
    requires forall a, b | 0 <= a < b < |pivots| :: pivots[a] < pivots[b]
    ensures |PivotSet(n, pivots)| == |pivots|
  {
    if |pivots| == 0 {
      assert PivotSet(n, pivots) == {};
    } else {
      var q := pivots[..|pivots| - 1];
      var last := pivots[|pivots| - 1];
      IncreasingPivotSet(n, q);
      assert PivotSet(n, pivots) == PivotSet(n, q) + {last};
      assert last !in PivotSet(n, q);
    }
  }

  /** `vec = [0]*cols; vec[free_var] = 1`, then
      `vec[piv_col] -= reduced[piv_row, free_var]` for the first k pivots. */
  function BackSubstituted(r: Mat, pivots: seq<nat>, f: nat, k: nat): (v: seq<real>)
    requires f < r.cols && k <= |pivots| <= r.rows
    requires forall a | 0 <= a < |pivots| :: pivots[a] < r.cols
    ensures |v| == r.cols
  {
    if k == 0 then seq(r.cols, c => if c == f then 1.0 else 0.0)
    else
      var v := BackSubstituted(r, pivots, f, k - 1);
      v[pivots[k - 1] := v[pivots[k - 1]] - r.e[k - 1][f]]
  }

  /** With distinct pivots and a free column f, the vector is 1 at f, minus
      the reduced entry of pivot row a at the pivot column of a, and 0
      elsewhere. */
  lemma {:induction false} BackSubstitutedAt(r: Mat, pivots: seq<nat>, f: nat, k: nat)
    requires f < r.cols && k <= |pivots| <= r.rows
    requires forall a | 0 <= a < |pivots| :: pivots[a] < r.cols
    requires forall a, b | 0 <= a < b < |pivots| :: pivots[a] < pivots[b]
    requires f !in pivots
    ensures var v := BackSubstituted(r, pivots, f, k);
      v[f] == 1.0 &&
      (forall a | 0 <= a < k :: v[pivots[a]] == -r.e[a][f]) &&
      (forall c | 0 <= c < r.cols && c != f && c !in pivots[..k] :: v[c] == 0.0)
  {
    if k > 0 {
      BackSubstitutedAt(r, pivots, f, k - 1);
      var v := BackSubstituted(r, pivots, f, k - 1);
      var p := pivots[k - 1];
      assert p != f && p !in pivots[..k - 1];
      forall a | 0 <= a < k - 1 ensures pivots[a] != p {
        assert pivots[a] < p;
      }
      forall c | 0 <= c < r.cols && c != f && c !in pivots[..k] ensures c !in pivots[..k - 1] && c != p {
        assert pivots[..k] == pivots[..k - 1] + [p];
      }
    }
  }

  /** One back-substituted vector per listed free column. */
  function NullBasis(r: Mat, pivots: seq<nat>, fv: seq<nat>): (basis: seq<seq<real>>)
    requires |pivots| <= r.rows && forall a | 0 <= a < |pivots| :: pivots[a] < r.cols
    requires forall t | 0 <= t < |fv| :: fv[t] < r.cols
    ensures |basis| == |fv| && forall t | 0 <= t < |basis| :: |basis[t]| == r.cols
  {
    seq(|fv|, t requires 0 <= t < |fv| => BackSubstituted(r, pivots, fv[t], |pivots|))
  }

  /** The basis `nullspace` returns: `rref` with `normalize_last=True`, then
      one back-substituted vector per free column. */
  function NullspaceOf(m: Mat, isZero: ZeroTest, simplify: real -> real, equalsZero: real -> bool): (basis: seq<seq<real>>)
  {
    var res := RrefOf(m, isZero, simplify, equalsZero, true);
    NullBasis(res.0, res.1, FreeVars(m.cols, res.1))
  }

  /** With a zero test that recognises a literal 0, there is one vector per
      column that is not a pivot column: `cols - len(pivots)` of them. */
  lemma NullspaceCount(m: Mat, isZero: ZeroTest, simplify: real -> real, equalsZero: real -> bool)
    requires RecognisesZero(isZero)
    ensures |NullspaceOf(m, isZero, simplify, equalsZero)| + |RrefOf(m, isZero, simplify, equalsZero, true).1| == m.cols
  {
    var pivots := RrefOf(m, isZero, simplify, equalsZero, true).1;
    RowReducePivotsIncrease(m, isZero, simplify, equalsZero, true, true, true);
    FreeVarsCount(m.cols, pivots);
    IncreasingPivotSet(m.cols, pivots);
  }

  /** With a zero test that recognises a literal 0, the vector of a free
      column is 1 there and 0 at every other free column. */
  lemma NullspaceFreeColumns(m: Mat, isZero: ZeroTest, simplify: real -> real, equalsZero: real -> bool)
    requires RecognisesZero(isZero)
    ensures var basis := NullspaceOf(m, isZero, simplify, equalsZero);
      var fv := FreeVars(m.cols, RrefOf(m, isZero, simplify, equalsZero, true).1);
      |basis| == |fv| &&
      forall t, u | 0 <= t < |basis| && 0 <= u < |basis| :: basis[t][fv[u]] == if t == u then 1.0 else 0.0
  {
    var res := RrefOf(m, isZero, simplify, equalsZero, true);
    var pivots := res.1;
    var fv := FreeVars(m.cols, pivots);
    var basis := NullspaceOf(m, isZero, simplify, equalsZero);
    RowReducePivotsIncrease(m, isZero, simplify, equalsZero, true, true, true);
    forall t, u | 0 <= t < |basis| && 0 <= u < |basis| ensures basis[t][fv[u]] == if t == u then 1.0 else 0.0 {
      BackSubstitutedAt(res.0, pivots, fv[t], |pivots|);
      assert pivots[..|pivots|] == pivots;
      if t != u {
        assert fv[t] != fv[u] by {
          if t < u { assert fv[t] < fv[u]; } else { assert fv[u] < fv[t]; }
        }
      }
    }
  }

  /** A row that is 1 at p, against a vector that is 1 at f and cancels the
      row's entry at f in position p, with nothing else meeting. */
  lemma CancellingDot(row: seq<real>, v: seq<real>, f: nat, p: nat)
    requires |row| == |v| && f < |row| && p < |row| && f != p
    requires row[p] == 1.0 && v[f] == 1.0 && v[p] == -row[f]
    requires forall c | 0 <= c < |row| && c != f && c != p :: row[c] == 0.0 || v[c] == 0.0
    ensures Dot(row, v) == 0.0
  {
    forall c | 0 <= c < |row| && c != f && c != p ensures row[c] * v[c] == 0.0 {
    }
    DotSparse(row, v, f, p);
  }

  /** The vector of free column f, read off entry by entry. */
  lemma NullVectorAt(r: Mat, pivots: seq<nat>, f: nat)
    requires f < r.cols && |pivots| <= r.rows && f !in pivots
    requires forall a | 0 <= a < |pivots| :: pivots[a] < r.cols
    requires forall a, b | 0 <= a < b < |pivots| :: pivots[a] < pivots[b]
    ensures var v := BackSubstituted(r, pivots, f, |pivots|);
      v[f] == 1.0 &&
      (forall a | 0 <= a < |pivots| :: v[pivots[a]] == -r.e[a][f]) &&
      (forall c | 0 <= c < r.cols && c != f && c !in pivots :: v[c] == 0.0)
  {
    BackSubstitutedAt(r, pivots, f, |pivots|);
    assert pivots[..|pivots|] == pivots;
  }

  /** Pivot row i against a vector that vanishes off the pivot columns and f:
      the only entries that meet are at f and at the pivot of row i. */
  lemma PivotRowMeets(r: Mat, pivots: seq<nat>, v: seq<real>, f: nat, i: nat)
    requires ReducedShape(r, pivots) && |v| == r.cols && i < |pivots| && f < r.cols
    requires forall c | 0 <= c < r.cols && c != f && c !in pivots :: v[c] == 0.0
    ensures forall c | 0 <= c < r.cols && c != f && c != pivots[i] :: r.e[i][c] == 0.0 || v[c] == 0.0
  {
    forall c | 0 <= c < r.cols && c != f && c != pivots[i] ensures r.e[i][c] == 0.0 || v[c] == 0.0 {
      if c in pivots {
        var a :| 0 <= a < |pivots| && pivots[a] == c;
        assert r.e[i][pivots[a]] == 0.0;
      }
    }
  }

  /** One row of the reduced system applied to the vector of free column f. */
  lemma RowTimesNullVector(r: Mat, pivots: seq<nat>, f: nat, i: nat)
    requires ReducedShape(r, pivots) && f < r.cols && f !in pivots && i < r.rows
    requires forall a, b | 0 <= a < b < |pivots| :: pivots[a] < pivots[b]
    requires forall i, j | |pivots| <= i < r.rows && 0 <= j < r.cols :: r.e[i][j] == 0.0
    ensures Dot(r.e[i], BackSubstituted(r, pivots, f, |pivots|)) == 0.0
  {
    var v := BackSubstituted(r, pivots, f, |pivots|);
    NullVectorAt(r, pivots, f);
    if i < |pivots| {
      PivotRowMeets(r, pivots, v, f, i);
      CancellingDot(r.e[i], v, f, pivots[i]);
    } else {
      ZeroRowDot(r.e[i], v);
    }
  }

  /** With trustworthy tests that recognise a literal 0, every vector solves
      the reduced system: `reduced * vec == 0`. */
  lemma NullspaceSolvesReduced(m: Mat, isZero: ZeroTest, simplify: real -> real, equalsZero: real -> bool)
    requires SoundZeroTest(isZero) && RecognisesZero(isZero) && PreservesZero(simplify) && SoundEqualsZero(equalsZero)
    ensures var r := RrefOf(m, isZero, simplify, equalsZero, true).0;
      var basis := NullspaceOf(m, isZero, simplify, equalsZero);
      forall t, i | 0 <= t < |basis| && 0 <= i < m.rows :: Dot(r.e[i], basis[t]) == 0.0
  {
    var res := RrefOf(m, isZero, simplify, equalsZero, true);
    var fv := FreeVars(m.cols, res.1);
    var basis := NullspaceOf(m, isZero, simplify, equalsZero);
    RrefIsReduced(m, isZero, simplify, equalsZero, true);
    forall t, i | 0 <= t < |basis| && 0 <= i < m.rows ensures Dot(res.0.e[i], basis[t]) == 0.0 {
      RowTimesNullVector(res.0, res.1, fv[t], i);
    }
  }

  /** When the zero test decides every entry (integer or rational entries),
      every vector `nullspace` returns lies in the null space of the matrix
      itself: `self * vec == 0`. */
  lemma NullspaceInKernel(m: Mat, isZero: ZeroTest, simplify: real -> real, equalsZero: real -> bool)
    requires ExactZeroTest(isZero) && PreservesZero(simplify) && SoundEqualsZero(equalsZero)
    ensures var basis := NullspaceOf(m, isZero, simplify, equalsZero);
      forall t | 0 <= t < |basis| :: |basis[t]| == m.cols && Annihilates(m, basis[t])
  {
    assert SoundZeroTest(isZero) && RecognisesZero(isZero);
    var r := RrefOf(m, isZero, simplify, equalsZero, true).0;
    var basis := NullspaceOf(m, isZero, simplify, equalsZero);
    NullspaceSolvesReduced(m, isZero, simplify, equalsZero);
    RrefIsReduced(m, isZero, simplify, equalsZero, true);
    forall t | 0 <= t < |basis| ensures |basis[t]| == m.cols && Annihilates(m, basis[t]) {
      assert Annihilates(r, basis[t]);
    }
  }

  /** The body of the loop over free columns: set the free column to 1 and
      subtract each pivot row's entry at it. */
  method BackSubstitute(reduced: Mat, pivots: seq<nat>, freeVar: nat) returns (vec: seq<real>)
    requires freeVar < reduced.cols && |pivots| <= reduced.rows
    requires forall a | 0 <= a < |pivots| :: pivots[a] < reduced.cols
    ensures vec == BackSubstituted(reduced, pivots, freeVar, |pivots|)
  {
    vec := seq(reduced.cols, c => if c == freeVar then 1.0 else 0.0);
    var k := 0;
    while k < |pivots|
      invariant k <= |pivots| && vec == BackSubstituted(reduced, pivots, freeVar, k)
    {
      vec := vec[pivots[k] := vec[pivots[k]] - reduced.e[k][freeVar]];
      k := k + 1;
    }
  }

  /** The loop over the free columns. */
  method BuildBasis(reduced: Mat, pivots: seq<nat>, freeVars: seq<nat>) returns (basis: seq<seq<real>>)
    requires |pivots| <= reduced.rows && forall a | 0 <= a < |pivots| :: pivots[a] < reduced.cols
    requires forall t | 0 <= t < |freeVars| :: freeVars[t] < reduced.cols
    ensures basis == NullBasis(reduced, pivots, freeVars)
  {
    basis := [];
    var t := 0;
    while t < |freeVars|
      invariant t <= |freeVars| && basis == NullBasis(reduced, pivots, freeVars[..t])
    {
      var vec := BackSubstitute(reduced, pivots, freeVars[t]);
      assert freeVars[..t + 1] == freeVars[..t] + [freeVars[t]];
      basis := basis + [vec];
      t := t + 1;
    }
    assert freeVars[..t] == freeVars;
  }

  /** `nullspace`: one vector per free column, each set to 1 there and
      back-substituted through the pivot rows of `rref`. */
  method Nullspace(m: Mat, isZero: ZeroTest, simplify: real -> real, equalsZero: real -> bool)
    returns (basis: seq<seq<real>>)
    ensures basis == NullspaceOf(m, isZero, simplify, equalsZero)
    ensures ExactZeroTest(isZero) && PreservesZero(simplify) && SoundEqualsZero(equalsZero) ==>
      forall t | 0 <= t < |basis| :: |basis[t]| == m.cols && Annihilates(m, basis[t])
  {
    var reduced, pivots := Rref(m, isZero, simplify, equalsZero, true);
    var freeVars := FreeVars(m.cols, pivots);
    basis := BuildBasis(reduced, pivots, freeVars);
    if ExactZeroTest(isZero) && PreservesZero(simplify) && SoundEqualsZero(equalsZero) {
      NullspaceInKernel(m, isZero, simplify, equalsZero);
    }
  }
}
