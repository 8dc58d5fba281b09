/** `LUdecomposition_Simple`, `LUdecomposition` and `LUdecompositionFF`.
    The combined L/U matrix `lu` is a private copy of the input that the
    source updates entry by entry; here it is a matrix value that each loop
    reassigns. Every loop is a method proved equal to a specification
    function, step by step, and the lemmas state what the factorisation
    promises: the shape of the swap record, the Gaussian step that each
    elimination undoes, and the exact behaviour on triangular input. */
module LUFactor {
  import opened Common
  import opened Matrices
  import opened Pivot

  // ---------------------------------------------------------------------
  // Entry and row updates of the combined matrix
  // ---------------------------------------------------------------------

  /** The matrix with row `i` replaced. */
  function SetRow(m: Mat, i: nat, row: seq<real>): (r: Mat)
    requires i < m.rows && |row| == m.cols
    ensures r.rows == m.rows && r.cols == m.cols && r.e == m.e[i := row]
  {
    Matrix(m.rows, m.cols, m.e[i := row])
  }

  /** `lu[i, j] = x`. */
  function SetEntry(m: Mat, i: nat, j: nat, x: real): (r: Mat)
    requires i < m.rows && j < m.cols
    ensures r.rows == m.rows && r.cols == m.cols && r.e == m.e[i := m.e[i][j := x]]
  {
    SetRow(m, i, m.e[i][j := x])
  }

  /** `lu[r, pivot_col] for r in range(pivot_row, rows)`. */
  function ColumnBelow(m: Mat, pr: nat, pc: nat): (c: seq<real>)
    requires pr <= m.rows && pc < m.cols
    ensures |c| == m.rows - pr
    ensures forall k | 0 <= k < |c| :: c[k] == m.e[pr + k][pc]
  {
    seq(m.rows - pr, k requires 0 <= k < m.rows - pr => m.e[pr + k][pc])
  }

  // ---------------------------------------------------------------------
  // One pivot step, as specification functions
  // ---------------------------------------------------------------------

  /** The `while pivot_col != cols and iszeropivot` search: the naive pivot
      search on each column from `pc` on until one has a pivot. The result
      is the column where the search stopped (`cols` when none has one) and
      the last search result. */
  function SearchPivot(m: Mat, pr: nat, pc: nat, isZero: ZeroTest, simp: Option<real -> real>): (s: (nat, PivotResult))
    requires pr < m.rows && pc < m.cols
    ensures pc <= s.0 <= m.cols
    decreases m.cols - pc
  {
    var r := NaivePivot(ColumnBelow(m, pr, pc), isZero, simp);
    if r.value.Some? then (pc, r)
    else if pc + 1 == m.cols then (m.cols, r)
    else SearchPivot(m, pr, pc + 1, isZero, simp)
  }

  /** One column of the search. */
  lemma SearchPivotUnfold(m: Mat, pr: nat, pc: nat, isZero: ZeroTest, simp: Option<real -> real>, r: PivotResult)
    requires pr < m.rows && pc < m.cols && r == NaivePivot(ColumnBelow(m, pr, pc), isZero, simp)
    ensures r.value.Some? ==> SearchPivot(m, pr, pc, isZero, simp) == (pc, r)
    ensures r.value.None? && pc + 1 == m.cols ==> SearchPivot(m, pr, pc, isZero, simp) == (m.cols, r)
    ensures r.value.None? && pc + 1 < m.cols ==> SearchPivot(m, pr, pc, isZero, simp) == SearchPivot(m, pr, pc + 1, isZero, simp)
  {
  }

  /** What the search promises the elimination: it stops in a column of the
      matrix exactly when it found a pivot there, the pivot lies in that
      column below the pivot row, every column it passed holds no pivot,
      and the simplified entries it reports lie in the column. */
  lemma {:induction false} SearchPivotFacts(m: Mat, pr: nat, pc: nat, isZero: ZeroTest, simp: Option<real -> real>)
    requires pr < m.rows && pc < m.cols
    ensures var (col, r) := SearchPivot(m, pr, pc, isZero, simp);
      (col < m.cols <==> r.value.Some?) &&
      (r.offset.None? <==> r.value.None?) &&
      (r.offset.Some? ==> r.offset.value < m.rows - pr && r == NaivePivot(ColumnBelow(m, pr, col), isZero, simp)) &&
      (r.offset.None? ==> r == NoPivot([])) &&
      OffsetsBelow(r.newlyDetermined, m.rows - pr) &&
      (forall c | pc <= c < col :: AllZero(Statuses(ColumnBelow(m, pr, c), isZero)))
    decreases m.cols - pc
  {
    var r := NaivePivot(ColumnBelow(m, pr, pc), isZero, simp);
    NaivePivotPromises(ColumnBelow(m, pr, pc), isZero, simp);
    if r.value.None? && pc + 1 < m.cols {
      SearchPivotFacts(m, pr, pc + 1, isZero, simp);
    }
  }

  /** `for offset, val in ind_simplified_pairs: lu[pivot_row + offset, pivot_col] = val`. */
  function WriteBack(m: Mat, pr: nat, pc: nat, newly: seq<(nat, real)>): (r: Mat)
    requires pr < m.rows && pc < m.cols && OffsetsBelow(newly, m.rows - pr)
    ensures r.rows == m.rows && r.cols == m.cols
    decreases |newly|
  {
    if newly == [] then m
    else WriteBack(SetEntry(m, pr + newly[0].0, pc, newly[0].1), pr, pc, newly[1..])
  }

  /** Writing back changes only the searched column, and there it is the
      column the pivot search describes with its reported values applied. */
  lemma {:induction false} WriteBackColumn(m: Mat, pr: nat, pc: nat, newly: seq<(nat, real)>)
    requires pr < m.rows && pc < m.cols && OffsetsBelow(newly, m.rows - pr)
    ensures var r := WriteBack(m, pr, pc, newly);
      ColumnBelow(r, pr, pc) == ApplyNewly(ColumnBelow(m, pr, pc), newly) &&
      (forall i, j | 0 <= i < m.rows && 0 <= j < m.cols && (i < pr || j != pc) :: r.e[i][j] == m.e[i][j])
    decreases |newly|
  {
    if newly != [] {
      var m1 := SetEntry(m, pr + newly[0].0, pc, newly[0].1);
      assert ColumnBelow(m1, pr, pc) == ColumnBelow(m, pr, pc)[newly[0].0 := newly[0].1];
      WriteBackColumn(m1, pr, pc, newly[1..]);
    }
  }

  /** The row exchange: `lu[i, 0:pr]` with `lu[j, 0:pr]` (the stored part of
      L) and `lu[i, pc:]` with `lu[j, pc:]` (the rows of U); the columns in
      between stay where they are. */
  function SwapParts(m: Mat, i: nat, j: nat, pr: nat, pc: nat): (r: Mat)
    requires i < m.rows && j < m.rows && i != j
    ensures r.rows == m.rows && r.cols == m.cols
  {
    var rowI := seq(m.cols, c requires 0 <= c < m.cols => if c < pr || pc <= c then m.e[j][c] else m.e[i][c]);
    var rowJ := seq(m.cols, c requires 0 <= c < m.cols => if c < pr || pc <= c then m.e[i][c] else m.e[j][c]);
    SetRow(SetRow(m, i, rowI), j, rowJ)
  }

  /** Exchanging the same parts twice restores the matrix. */
  lemma SwapPartsTwice(m: Mat, i: nat, j: nat, pr: nat, pc: nat)
    requires i < m.rows && j < m.rows && i != j
    ensures SwapParts(SwapParts(m, i, j, pr, pc), i, j, pr, pc) == m
  {
    var r := SwapParts(SwapParts(m, i, j, pr, pc), i, j, pr, pc);
    forall k | 0 <= k < m.rows
      ensures r.e[k] == m.e[k]
    {
    }
  }

  /** The multiplier `lu[row, pivot_col] / lu[pivot_row, pivot_col]`. */
  function Multiplier(m: Mat, pr: nat, pc: nat, row: nat): real
    requires pr < m.rows && row < m.rows && pc < m.cols
  {
    Quot(m.e[row][pc], m.e[pr][pc])
  }

  /** Row `row` after its elimination pass has reached column `c`: the
      multiplier stored at `pivot_row`, and `lu[row, k] - l*lu[pivot_row, k]`
      in the columns `pc < k < c`. */
  function PartlyEliminated(m: Mat, pr: nat, pc: nat, row: nat, c: nat): (r: seq<real>)
    requires pr <= pc < m.cols && row < m.rows && pr < m.rows
    ensures |r| == m.cols
  {
    var l := Multiplier(m, pr, pc, row);
    seq(m.cols, k requires 0 <= k < m.cols =>
      if k == pr then l else if pc < k < c then m.e[row][k] - l * m.e[pr][k] else m.e[row][k])
  }

  /** One more column of the elimination pass. */
  lemma PartlyEliminatedStep(m: Mat, pr: nat, pc: nat, row: nat, c: nat, p: seq<real>)
    requires pr <= pc < c < m.cols && row < m.rows && pr < m.rows
    requires p == PartlyEliminated(m, pr, pc, row, c)
    ensures PartlyEliminated(m, pr, pc, row, c + 1) == p[c := p[c] - p[pr] * m.e[pr][c]]
  {
    var q := PartlyEliminated(m, pr, pc, row, c + 1);
    forall k | 0 <= k < m.cols
      ensures q[k] == p[c := p[c] - p[pr] * m.e[pr][c]][k]
    {
    }
  }

  /** Row `row` after its elimination pass. */
  function EliminatedRow(m: Mat, pr: nat, pc: nat, row: nat): (r: seq<real>)
    requires pr <= pc < m.cols && row < m.rows && pr < m.rows
    ensures |r| == m.cols
  {
    PartlyEliminated(m, pr, pc, row, m.cols)
  }

  /** The matrix after rows `pr + 1 .. k - 1` have been eliminated. */
  function EliminatedUpTo(m: Mat, pr: nat, pc: nat, k: nat): (r: Mat)
    requires pr <= pc < m.cols && pr < m.rows
    ensures r.rows == m.rows && r.cols == m.cols
  {
    Matrix(m.rows, m.cols, seq(m.rows, i requires 0 <= i < m.rows =>
      if pr < i < k then EliminatedRow(m, pr, pc, i) else m.e[i]))
  }

  /** The `for row in range(pivot_row + 1, rows)` elimination below the pivot. */
  function Eliminate(m: Mat, pr: nat, pc: nat): (r: Mat)
    requires pr <= pc < m.cols && pr < m.rows
    ensures r.rows == m.rows && r.cols == m.cols
  {
    EliminatedUpTo(m, pr, pc, m.rows)
  }

  /** An entry of an eliminated row. */
  lemma EliminatedEntry(m: Mat, pr: nat, pc: nat, i: nat, c: nat)
    requires pr <= pc < m.cols && pr < i < m.rows && c < m.cols
    ensures var r := Eliminate(m, pr, pc);
      r.e[pr] == m.e[pr] && r.e[i][pr] == Multiplier(m, pr, pc, i) &&
      r.e[i][c] == if c == pr then Multiplier(m, pr, pc, i)
                   else if pc < c then m.e[i][c] - Multiplier(m, pr, pc, i) * m.e[pr][c]
                   else m.e[i][c]
  {
  }

  /** The Gaussian step is undone by adding back the multiple of the pivot
      row: an eliminated entry right of the pivot column plus the stored
      multiplier times the pivot row gives the entry before the step. */
  lemma EliminateUndone(m: Mat, pr: nat, pc: nat, i: nat, c: nat)
    requires pr <= pc < c < m.cols && pr < i < m.rows
    ensures var r := Eliminate(m, pr, pc);
      m.e[i][c] == r.e[i][c] + r.e[i][pr] * r.e[pr][c]
  {
    var r := Eliminate(m, pr, pc);
    EliminatedEntry(m, pr, pc, i, c);
    AddBack(m.e[i][c], r.e[i][c], Multiplier(m, pr, pc, i), m.e[pr][c], r.e[i][pr], r.e[pr][c]);
  }

  /** Adding back what was subtracted, with the factors read from where
      they were stored. */
  lemma AddBack(x: real, y: real, l: real, p: real, l': real, p': real)
    requires y == x - l * p && l' == l && p' == p
    ensures x == y + l' * p'
  {
  }

  /** The stored multiplier times a nonzero pivot gives back the entry it
      eliminates. */
  lemma EliminateMultipliers(m: Mat, pr: nat, pc: nat)
    requires pr <= pc < m.cols && pr < m.rows && m.e[pr][pc] != 0.0
    ensures var r := Eliminate(m, pr, pc);
      forall i | pr < i < m.rows :: m.e[i][pc] == r.e[i][pr] * r.e[pr][pc]
  {
    var r := Eliminate(m, pr, pc);
    forall i | pr < i < m.rows
      ensures m.e[i][pc] == r.e[i][pr] * r.e[pr][pc]
    {
      EliminatedEntry(m, pr, pc, i, pr);
    }
  }

  /** The elimination changes nothing in the pivot row and above, and
      nothing left of the pivot column except the multiplier's column. */
  lemma EliminateKeeps(m: Mat, pr: nat, pc: nat)
    requires pr <= pc < m.cols && pr < m.rows
    ensures var r := Eliminate(m, pr, pc);
      (forall i | 0 <= i <= pr :: r.e[i] == m.e[i]) &&
      (forall i, c | pr < i < m.rows && 0 <= c <= pc && c != pr :: r.e[i][c] == m.e[i][c])
  {
    var r := Eliminate(m, pr, pc);
    forall i, c | pr < i < m.rows && 0 <= c <= pc && c != pr
      ensures r.e[i][c] == m.e[i][c]
    {
      EliminatedEntry(m, pr, pc, i, c);
    }
  }

  /** `lu[row, pivot_col] = 0` for every row below the pivot. */
  function ZeroedUpTo(m: Mat, pr: nat, pc: nat, k: nat): (r: Mat)
    requires pc < m.cols
    ensures r.rows == m.rows && r.cols == m.cols
  {
    Matrix(m.rows, m.cols, seq(m.rows, i requires 0 <= i < m.rows =>
      if pr < i < k then m.e[i][pc := 0.0] else m.e[i]))
  }

  function ZeroBelow(m: Mat, pr: nat, pc: nat): (r: Mat)
    requires pc < m.cols
    ensures r.rows == m.rows && r.cols == m.cols
  {
    ZeroedUpTo(m, pr, pc, m.rows)
  }

  /** Where a pivot step leaves the decomposition. */
  datatype Outcome =
    | Continue(lu: Mat, swaps: seq<(nat, nat)>, col: nat)
    | Finished(lu: Mat, swaps: seq<(nat, nat)>)
    | Failed(error: MatrixError)

  /** `row_swaps.append([pivot_row, candidate_pivot_row])` with the
      candidate below the pivot row. */
  predicate SwapAppended(swaps: seq<(nat, nat)>, swaps': seq<(nat, nat)>, pr: nat, n: nat)
  {
    |swaps'| == |swaps| + 1 && swaps'[..|swaps|] == swaps && swaps'[|swaps|].0 == pr && pr < swaps'[|swaps|].1 < n
  }

  /** One pass of `for pivot_row in range(0, rows - 1)`. */
  function Step(m: Mat, swaps: seq<(nat, nat)>, pr: nat, pc: nat,
                isZero: ZeroTest, simp: Option<real -> real>, rankcheck: bool): (o: Outcome)
    requires pr + 1 < m.rows && pr <= pc < m.cols
    ensures o.Continue? ==> o.lu.rows == m.rows && o.lu.cols == m.cols && pc < o.col < m.cols
    ensures !o.Failed? ==> o.lu.rows == m.rows && o.lu.cols == m.cols
    ensures !o.Failed? ==> o.swaps == swaps || SwapAppended(swaps, o.swaps, pr, m.rows)
    ensures o.Failed? ==> rankcheck && o.error == RankDeficient
  {
    var (col, r) := SearchPivot(m, pr, pc, isZero, simp);
    SearchPivotFacts(m, pr, pc, isZero, simp);
    if rankcheck && col != pr then Failed(RankDeficient)
    else if r.offset.None? && r.value.None? then Finished(m, swaps)
    else Pivoted(m, swaps, pr, col, r)
  }

  /** The rest of the pass once a pivot was found in column `col`: write
      back the simplified entries, swap the candidate row up, eliminate
      below the pivot and clear the pivot column when it is right of the
      diagonal. */
  function Pivoted(m: Mat, swaps: seq<(nat, nat)>, pr: nat, col: nat, r: PivotResult): (o: Outcome)
    requires pr + 1 < m.rows && pr <= col < m.cols
    requires r.offset.Some? && r.offset.value < m.rows - pr && OffsetsBelow(r.newlyDetermined, m.rows - pr)
    ensures o.Continue? ==> o.col == col + 1 < m.cols
    ensures !o.Failed? && o.lu.rows == m.rows && o.lu.cols == m.cols
    ensures o.swaps == swaps || SwapAppended(swaps, o.swaps, pr, m.rows)
  {
    var lu1 := WriteBack(m, pr, col, r.newlyDetermined);
    var cand := pr + r.offset.value;
    var lu2 := if pr != cand then SwapParts(lu1, pr, cand, pr, col) else lu1;
    var swaps2 := if pr != cand then swaps + [(pr, cand)] else swaps;
    var lu3 := Eliminate(lu2, pr, col);
    var lu4 := if pr != col then ZeroBelow(lu3, pr, col) else lu3;
    if col + 1 == m.cols then Finished(lu4, swaps2) else Continue(lu4, swaps2, col + 1)
  }

  /** The decomposition from pivot row `pr` and pivot column `pc` on. */
  function LUFrom(m: Mat, swaps: seq<(nat, nat)>, pr: nat, pc: nat,
                  isZero: ZeroTest, simp: Option<real -> real>, rankcheck: bool): Result<(Mat, seq<(nat, nat)>), MatrixError>
    requires pr <= pc < m.cols && pr < m.rows
    decreases m.rows - pr
  {
    if pr + 1 == m.rows then Ok((m, swaps))
    else match Step(m, swaps, pr, pc, isZero, simp, rankcheck)
      case Failed(e) => Err(e)
      case Finished(lu, s) => Ok((lu, s))
      case Continue(lu, s, c) => LUFrom(lu, s, pr + 1, c, isZero, simp, rankcheck)
  }

  /** One pivot row of the decomposition. */
  lemma LUFromUnfold(m: Mat, swaps: seq<(nat, nat)>, pr: nat, pc: nat,
                     isZero: ZeroTest, simp: Option<real -> real>, rankcheck: bool, o: Outcome)
    requires pr <= pc < m.cols && pr + 1 < m.rows && o == Step(m, swaps, pr, pc, isZero, simp, rankcheck)
    ensures o.Failed? ==> LUFrom(m, swaps, pr, pc, isZero, simp, rankcheck) == Err(o.error)
    ensures o.Finished? ==> LUFrom(m, swaps, pr, pc, isZero, simp, rankcheck) == Ok((o.lu, o.swaps))
    ensures o.Continue? ==> LUFrom(m, swaps, pr, pc, isZero, simp, rankcheck) == LUFrom(o.lu, o.swaps, pr + 1, o.col, isZero, simp, rankcheck)
  {
  }

  /** Where the decomposition goes after the outcome of pivot row `pr`. */
  function After(o: Outcome, pr: nat, isZero: ZeroTest, simp: Option<real -> real>, rankcheck: bool)
    : Result<(Mat, seq<(nat, nat)>), MatrixError>
  {
    match o
    case Failed(e) => Err(e)
    case Finished(lu, s) => Ok((lu, s))
    case Continue(lu, s, c) =>
      if pr + 1 <= c < lu.cols && pr + 1 < lu.rows then LUFrom(lu, s, pr + 1, c, isZero, simp, rankcheck)
      else Err(IndexOutOfRange)
  }

  /** The same unfolding as one equation. */
  lemma LUFromAfter(m: Mat, swaps: seq<(nat, nat)>, pr: nat, pc: nat,
                    isZero: ZeroTest, simp: Option<real -> real>, rankcheck: bool, o: Outcome)
    requires pr <= pc < m.cols && pr + 1 < m.rows && o == Step(m, swaps, pr, pc, isZero, simp, rankcheck)
    ensures LUFrom(m, swaps, pr, pc, isZero, simp, rankcheck) == After(o, pr, isZero, simp, rankcheck)
  {
    LUFromUnfold(m, swaps, pr, pc, isZero, simp, rankcheck, o);
  }

  /** `LUdecomposition_Simple(iszerofunc, simpfunc, rankcheck)`: the combined
      matrix and the list of row swaps, or the rank-check error. A matrix
      with no entries decomposes into zeros and no swaps. */
  function LUSimple(m: Mat, isZero: ZeroTest, simp: Option<real -> real>, rankcheck: bool): Result<(Mat, seq<(nat, nat)>), MatrixError>
  {
    if m.rows == 0 || m.cols == 0 then Ok((Zeros(m.rows, m.cols), []))
    else LUFrom(m, [], 0, 0, isZero, simp, rankcheck)
  }

  // ---------------------------------------------------------------------
  // Properties of the decomposition
  // ---------------------------------------------------------------------

  /** Row swaps as recorded: each pairs the pivot row with a row below it,
      and the pivot rows strictly increase (one swap per pivot row at most). */
  predicate SwapRecord(swaps: seq<(nat, nat)>, n: nat)
  {
    (forall k | 0 <= k < |swaps| :: swaps[k].0 < swaps[k].1 < n) &&
    (forall k, l | 0 <= k < l < |swaps| :: swaps[k].0 < swaps[l].0)
  }

  lemma SwapRecordGrows(swaps: seq<(nat, nat)>, swaps': seq<(nat, nat)>, pr: nat, n: nat)
    requires SwapRecord(swaps, n) && forall k | 0 <= k < |swaps| :: swaps[k].0 < pr
    requires swaps' == swaps || SwapAppended(swaps, swaps', pr, n)
    ensures SwapRecord(swaps', n) && |swaps'| <= |swaps| + 1
    ensures forall k | 0 <= k < |swaps'| :: swaps'[k].0 < pr + 1
  {
    if swaps' != swaps {
      assert forall k | 0 <= k < |swaps| :: swaps'[k] == swaps[k];
    }
  }

  /** The combined matrix keeps the shape, the swaps are recorded as
      `SwapRecord` says, and the only error is the rank check. */
  predicate Booked(res: Result<(Mat, seq<(nat, nat)>), MatrixError>, rows: nat, cols: nat, rankcheck: bool)
  {
    (res.Ok? ==> res.value.0.rows == rows && res.value.0.cols == cols &&
                 SwapRecord(res.value.1, rows) && |res.value.1| < rows) &&
    (res.Err? ==> rankcheck && res.error == RankDeficient)
  }

  lemma {:induction false} LUFromBookkeeping(m: Mat, swaps: seq<(nat, nat)>, pr: nat, pc: nat,
                                             isZero: ZeroTest, simp: Option<real -> real>, rankcheck: bool)
    requires pr <= pc < m.cols && pr < m.rows
    requires SwapRecord(swaps, m.rows) && |swaps| <= pr
    requires forall k | 0 <= k < |swaps| :: swaps[k].0 < pr
    ensures Booked(LUFrom(m, swaps, pr, pc, isZero, simp, rankcheck), m.rows, m.cols, rankcheck)
    decreases m.rows - pr
  {
    if pr + 1 < m.rows {
      var o := Step(m, swaps, pr, pc, isZero, simp, rankcheck);
      LUFromUnfold(m, swaps, pr, pc, isZero, simp, rankcheck, o);
      match o
      case Failed(e) =>
      case Finished(lu, s) =>
        SwapRecordGrows(swaps, s, pr, m.rows);
      case Continue(lu, s, c) =>
        SwapRecordGrows(swaps, s, pr, m.rows);
        LUFromBookkeeping(lu, s, pr + 1, c, isZero, simp, rankcheck);
    } else {
      LUFromLast(m, swaps, pr, pc, isZero, simp, rankcheck);
    }
  }

  /** What `LUdecomposition_Simple` promises about its shape and bookkeeping:
      the combined matrix has the input's shape, every recorded swap pairs a
      pivot row with a row below it, pivot rows increase, and the only error
      is the rank check, raised only when it was asked for. */
  lemma LUSimpleBookkeeping(m: Mat, isZero: ZeroTest, simp: Option<real -> real>, rankcheck: bool)
    ensures var res := LUSimple(m, isZero, simp, rankcheck);
      (res.Ok? ==> res.value.0.rows == m.rows && res.value.0.cols == m.cols &&
                   SwapRecord(res.value.1, m.rows) && |res.value.1| <= m.rows) &&
      (res.Err? ==> rankcheck && res.error == RankDeficient)
  {
    if 0 < m.rows && 0 < m.cols {
      LUFromBookkeeping(m, [], 0, 0, isZero, simp, rankcheck);
    }
  }

  /** The pivot step on an upper-triangular matrix whose pivot is provably
      nonzero changes nothing and records no swap. */
  lemma StepUpperTriangular(m: Mat, swaps: seq<(nat, nat)>, pr: nat,
                            isZero: ZeroTest, simp: Option<real -> real>, rankcheck: bool)
    requires IsSquare(m) && UpperTriangular(m) && pr + 1 < m.rows
    requires isZero(m.e[pr][pr]) == Some(false)
    ensures Step(m, swaps, pr, pr, isZero, simp, rankcheck) == Continue(m, swaps, pr + 1)
  {
    var col := ColumnBelow(m, pr, pr);
    NaivePivotFirstNonzero(col, isZero, simp, 0);
    var e := Eliminate(m, pr, pr);
    forall i | 0 <= i < m.rows
      ensures e.e[i] == m.e[i]
    {
      if pr < i {
        assert Multiplier(m, pr, pr, i) == 0.0;
      }
    }
  }

  /** The zero test proves every diagonal entry but the last nonzero. */
  ghost predicate LeadingPivotsNonzero(m: Mat, isZero: ZeroTest)
    requires IsSquare(m)
  {
    forall k | 0 <= k < m.rows - 1 :: isZero(m.e[k][k]) == Some(false)
  }

  /** A pivot row whose step hands the matrix on unchanged leaves the rest
      of the decomposition to the next row. */
  lemma LUFromContinues(m: Mat, pr: nat, isZero: ZeroTest, simp: Option<real -> real>, rankcheck: bool)
    requires pr + 1 < m.rows && pr + 1 < m.cols
    requires Step(m, [], pr, pr, isZero, simp, rankcheck) == Continue(m, [], pr + 1)
    ensures LUFrom(m, [], pr, pr, isZero, simp, rankcheck) == LUFrom(m, [], pr + 1, pr + 1, isZero, simp, rankcheck)
  {
    LUFromAfter(m, [], pr, pr, isZero, simp, rankcheck, Continue(m, [], pr + 1));
  }

  /** On an upper-triangular matrix whose leading diagonal entries (all but
      the last) the zero test proves nonzero, the decomposition is the
      matrix itself with no swaps, whether or not the rank is checked. */
  lemma LUFromUpperTriangular(m: Mat, pr: nat, isZero: ZeroTest, simp: Option<real -> real>, rankcheck: bool)
    requires IsSquare(m) && UpperTriangular(m) && pr < m.rows && LeadingPivotsNonzero(m, isZero)
    ensures LUFrom(m, [], pr, pr, isZero, simp, rankcheck) == Ok((m, []))
  {
    forall k | pr <= k < m.rows - 1
      ensures LUFrom(m, [], k, k, isZero, simp, rankcheck) == LUFrom(m, [], k + 1, k + 1, isZero, simp, rankcheck)
    {
      assert isZero(m.e[k][k]) == Some(false);
      StepUpperTriangular(m, [], k, isZero, simp, rankcheck);
      LUFromContinues(m, k, isZero, simp, rankcheck);
    }
    LUFromChain(m, pr, isZero, simp, rankcheck);
    LUFromLast(m, [], m.rows - 1, m.rows - 1, isZero, simp, rankcheck);
  }

  /** Pivot rows that each hand the decomposition on unchanged. */
  lemma {:induction false} LUFromChain(m: Mat, pr: nat, isZero: ZeroTest, simp: Option<real -> real>, rankcheck: bool)
    requires pr < m.rows && m.rows == m.cols
    requires forall k | pr <= k < m.rows - 1 ::
      LUFrom(m, [], k, k, isZero, simp, rankcheck) == LUFrom(m, [], k + 1, k + 1, isZero, simp, rankcheck)
    ensures LUFrom(m, [], pr, pr, isZero, simp, rankcheck) == LUFrom(m, [], m.rows - 1, m.rows - 1, isZero, simp, rankcheck)
    decreases m.rows - pr
  {
    if pr + 1 < m.rows {
      LUFromChain(m, pr + 1, isZero, simp, rankcheck);
    }
  }

  /** The last pivot row ends the decomposition. */
  lemma LUFromLast(m: Mat, swaps: seq<(nat, nat)>, pr: nat, pc: nat,
                    isZero: ZeroTest, simp: Option<real -> real>, rankcheck: bool)
    requires pr <= pc < m.cols && pr + 1 == m.rows
    ensures LUFrom(m, swaps, pr, pc, isZero, simp, rankcheck) == Ok((m, swaps))
  {
  }

  lemma LUSimpleUpperTriangular(m: Mat, isZero: ZeroTest, simp: Option<real -> real>, rankcheck: bool)
    requires IsSquare(m) && UpperTriangular(m) && 0 < m.rows && LeadingPivotsNonzero(m, isZero)
    ensures LUSimple(m, isZero, simp, rankcheck) == Ok((m, []))
  {
    LUFromUpperTriangular(m, 0, isZero, simp, rankcheck);
  }

  // ---------------------------------------------------------------------
  // The loops of LUdecomposition_Simple
  // ---------------------------------------------------------------------

  /** The pivot search loop: `while pivot_col != cols and iszeropivot`. */
  method SearchColumns(lu: Mat, pr: nat, pc: nat, isZero: ZeroTest, simp: Option<real -> real>)
    returns (col: nat, r: PivotResult)
    requires pr < lu.rows && pc < lu.cols
    ensures (col, r) == SearchPivot(lu, pr, pc, isZero, simp)
  {
    col := pc;
    r := NoPivot([]);
    var isZeroPivot := true;
    while col != lu.cols && isZeroPivot
      invariant pc <= col <= lu.cols
      invariant isZeroPivot && col < lu.cols ==> SearchPivot(lu, pr, pc, isZero, simp) == SearchPivot(lu, pr, col, isZero, simp)
      invariant !(isZeroPivot && col < lu.cols) ==> SearchPivot(lu, pr, pc, isZero, simp) == (col, r)
      decreases lu.cols - col, isZeroPivot
    {
      var subCol := ColumnBelow(lu, pr, col);
      r := FindPivotNaive(subCol, isZero, simp);
      SearchPivotUnfold(lu, pr, col, isZero, simp, r);
      isZeroPivot := r.value.None?;
      if isZeroPivot {
        col := col + 1;
      }
    }
  }

  /** `for offset, val in ind_simplified_pairs: lu[pivot_row + offset, pivot_col] = val`. */
  method WriteBackPairs(lu: Mat, pr: nat, pc: nat, newly: seq<(nat, real)>) returns (r: Mat)
    requires pr < lu.rows && pc < lu.cols && OffsetsBelow(newly, lu.rows - pr)
    ensures r == WriteBack(lu, pr, pc, newly)
  {
    r := lu;
    for t := 0 to |newly|
      invariant r.rows == lu.rows && r.cols == lu.cols
      invariant WriteBack(r, pr, pc, newly[t..]) == WriteBack(lu, pr, pc, newly)
    {
      assert newly[t..][1..] == newly[t + 1..];
      r := SetEntry(r, pr + newly[t].0, pc, newly[t].1);
    }
  }

  /** The elimination of one row below the pivot: store the multiplier at
      `lu[row, pivot_row]`, then `lu[row, c] = lu[row, c] - lu[row, pivot_row]*lu[pivot_row, c]`
      for `c` from `pivot_col + 1` on. */
  method EliminateRowPass(lu: Mat, pr: nat, pc: nat, row: nat) returns (newRow: seq<real>)
    requires pr <= pc < lu.cols && pr < row < lu.rows
    ensures newRow == EliminatedRow(lu, pr, pc, row)
  {
    newRow := lu.e[row][pr := Quot(lu.e[row][pc], lu.e[pr][pc])];
    for c := pc + 1 to lu.cols
      invariant newRow == PartlyEliminated(lu, pr, pc, row, c)
    {
      PartlyEliminatedStep(lu, pr, pc, row, c, newRow);
      newRow := newRow[c := newRow[c] - newRow[pr] * lu.e[pr][c]];
    }
  }

  /** `for row in range(pivot_row + 1, rows)`: eliminate every row below the pivot. */
  method EliminateBelowPivot(lu: Mat, pr: nat, pc: nat) returns (r: Mat)
    requires pr <= pc < lu.cols && pr < lu.rows
    ensures r == Eliminate(lu, pr, pc)
  {
    r := lu;
    for row := pr + 1 to lu.rows
      invariant r == EliminatedUpTo(lu, pr, pc, row)
    {
      var newRow := EliminateRowPass(lu, pr, pc, row);
      r := SetRow(r, row, newRow);
    }
  }

  /** `for row in range(pivot_row + 1, rows): lu[row, pivot_col] = 0`. */
  method ZeroColumnBelow(lu: Mat, pr: nat, pc: nat) returns (r: Mat)
    requires pr < lu.rows && pc < lu.cols
    ensures r == ZeroBelow(lu, pr, pc)
  {
    r := lu;
    for row := pr + 1 to lu.rows
      invariant r == ZeroedUpTo(lu, pr, pc, row)
    {
      r := SetEntry(r, row, pc, 0.0);
    }
  }

  /** One pass of `for pivot_row in range(0, rows - 1)`: search, rank
      check, then the elimination. */
  method PivotStep(lu: Mat, rowSwaps: seq<(nat, nat)>, pivotRow: nat, pivotCol: nat,
                   isZero: ZeroTest, simp: Option<real -> real>, rankcheck: bool)
    returns (o: Outcome)
    requires pivotRow + 1 < lu.rows && pivotRow <= pivotCol < lu.cols
    ensures o == Step(lu, rowSwaps, pivotRow, pivotCol, isZero, simp, rankcheck)
  {
    var col, r := SearchColumns(lu, pivotRow, pivotCol, isZero, simp);
    SearchPivotFacts(lu, pivotRow, pivotCol, isZero, simp);
    if rankcheck && col != pivotRow {
      return Failed(RankDeficient);
    }
    if r.offset.None? && r.value.None? {
      return Finished(lu, rowSwaps);
    }
    o := EliminationPass(lu, rowSwaps, pivotRow, col, r);
  }

  /** The part of the pass after a pivot was found. */
  method EliminationPass(lu: Mat, rowSwaps: seq<(nat, nat)>, pivotRow: nat, col: nat, r: PivotResult)
    returns (o: Outcome)
    requires pivotRow + 1 < lu.rows && pivotRow <= col < lu.cols
    requires r.offset.Some? && r.offset.value < lu.rows - pivotRow && OffsetsBelow(r.newlyDetermined, lu.rows - pivotRow)
    ensures o == Pivoted(lu, rowSwaps, pivotRow, col, r)
  {
    var written := WriteBackPairs(lu, pivotRow, col, r.newlyDetermined);
    var candidate := pivotRow + r.offset.value;
    var swapped, swaps := written, rowSwaps;
    if pivotRow != candidate {
      swapped := SwapParts(written, pivotRow, candidate, pivotRow, col);
      swaps := rowSwaps + [(pivotRow, candidate)];
    }
    var eliminated := EliminateBelowPivot(swapped, pivotRow, col);
    var m := eliminated;
    if pivotRow != col {
      m := ZeroColumnBelow(eliminated, pivotRow, col);
    }
    o := if col + 1 == lu.cols then Finished(m, swaps) else Continue(m, swaps, col + 1);
  }

  /** `LUdecomposition_Simple`, loop by loop. */
  method LUDecompositionSimple(m: Mat, isZero: ZeroTest, simp: Option<real -> real>, rankcheck: bool)
    returns (res: Result<(Mat, seq<(nat, nat)>), MatrixError>)
    ensures res == LUSimple(m, isZero, simp, rankcheck)
  {
    if m.rows == 0 || m.cols == 0 {
      return Ok((Zeros(m.rows, m.cols), []));
    }
    res := PivotRows(m, isZero, simp, rankcheck, LUSimple(m, isZero, simp, rankcheck));
  }

  /** `for pivot_row in range(0, rows - 1)`, from the first pivot on. */
  method PivotRows(m: Mat, isZero: ZeroTest, simp: Option<real -> real>, rankcheck: bool,
                   ghost target: Result<(Mat, seq<(nat, nat)>), MatrixError>)
    returns (res: Result<(Mat, seq<(nat, nat)>), MatrixError>)
    requires 0 < m.rows && 0 < m.cols && LUFrom(m, [], 0, 0, isZero, simp, rankcheck) == target
    ensures res == target
  {
    var lu := m;
    var rowSwaps: seq<(nat, nat)> := [];
    var pivotCol := 0;
    var pivotRow := 0;
    while pivotRow < m.rows - 1
      invariant lu.rows == m.rows && Reaches(lu, rowSwaps, pivotRow, pivotCol, isZero, simp, rankcheck, target)
      decreases m.rows - pivotRow
    {
      var o := PivotStep(lu, rowSwaps, pivotRow, pivotCol, isZero, simp, rankcheck);
      ReachesNext(lu, rowSwaps, pivotRow, pivotCol, isZero, simp, rankcheck, target, o);
      match o
      case Failed(e) =>
        return Err(e);
      case Finished(l, s) =>
        return Ok((l, s));
      case Continue(l, s, c) =>
        lu, rowSwaps, pivotCol := l, s, c;
        pivotRow := pivotRow + 1;
    }
    LUFromLast(lu, rowSwaps, pivotRow, pivotCol, isZero, simp, rankcheck);
    return Ok((lu, rowSwaps));
  }

  /** The loop state of `LUdecomposition_Simple` is on its way to `target`. */
  predicate Reaches(lu: Mat, swaps: seq<(nat, nat)>, pr: nat, pc: nat,
                    isZero: ZeroTest, simp: Option<real -> real>, rankcheck: bool,
                    target: Result<(Mat, seq<(nat, nat)>), MatrixError>)
  {
    pr <= pc < lu.cols && pr < lu.rows && LUFrom(lu, swaps, pr, pc, isZero, simp, rankcheck) == target
  }

  /** One pass of the loop keeps it on its way, or ends it at `target`. */
  lemma ReachesNext(lu: Mat, swaps: seq<(nat, nat)>, pr: nat, pc: nat,
                    isZero: ZeroTest, simp: Option<real -> real>, rankcheck: bool,
                    target: Result<(Mat, seq<(nat, nat)>), MatrixError>, o: Outcome)
    requires Reaches(lu, swaps, pr, pc, isZero, simp, rankcheck, target) && pr + 1 < lu.rows
    requires o == Step(lu, swaps, pr, pc, isZero, simp, rankcheck)
    ensures o.Failed? ==> target == Err(o.error)
    ensures o.Finished? ==> target == Ok((o.lu, o.swaps))
    ensures o.Continue? ==> o.lu.rows == lu.rows && Reaches(o.lu, o.swaps, pr + 1, o.col, isZero, simp, rankcheck, target)
  {
    LUFromAfter(lu, swaps, pr, pc, isZero, simp, rankcheck, o);
  }

  // ---------------------------------------------------------------------
  // LUdecomposition: splitting the combined matrix
  // ---------------------------------------------------------------------

  /** `entry_L`: unit diagonal, zeros above it, the combined matrix below
      it where it has a column, zeros where it has none. */
  function SplitL(c: Mat): (l: Mat)
    ensures l.rows == c.rows && l.cols == c.rows
  {
    Matrix(c.rows, c.rows, seq(c.rows, i requires 0 <= i < c.rows => seq(c.rows, j requires 0 <= j < c.rows =>
      if i < j then 0.0 else if i == j then 1.0 else if j < c.cols then c.e[i][j] else 0.0)))
  }

  /** `entry_U`: zeros below the diagonal, the combined matrix on and above it. */
  function SplitU(c: Mat): (u: Mat)
    ensures u.rows == c.rows && u.cols == c.cols
  {
    Matrix(c.rows, c.cols, seq(c.rows, i requires 0 <= i < c.rows => seq(c.cols, j requires 0 <= j < c.cols =>
      if i > j then 0.0 else c.e[i][j])))
  }

  /** L has unit diagonal and nothing above it. */
  ghost predicate UnitLowerTriangular(l: Mat)
  {
    forall i, j | 0 <= i < l.rows && 0 <= j < l.cols && i <= j :: l.e[i][j] == if i == j then 1.0 else 0.0
  }

  /** The split loses nothing: L is unit lower triangular, U is upper
      triangular, and the combined matrix is recovered entry by entry from
      L below the diagonal and U on and above it; L has nothing below the
      diagonal where the combined matrix has no column. */
  lemma SplitRecombines(c: Mat)
    ensures UnitLowerTriangular(SplitL(c)) && UpperTriangular(SplitU(c))
    ensures forall i, j | 0 <= i < c.rows && 0 <= j < c.cols ::
      c.e[i][j] == if i > j then SplitL(c).e[i][j] else SplitU(c).e[i][j]
    ensures forall i, j | 0 <= j < i < c.rows && c.cols <= j :: SplitL(c).e[i][j] == 0.0
  {
  }

  /** `LUdecomposition`: `(L, U, perm)` from the combined matrix. */
  function LUDecomposition(m: Mat, isZero: ZeroTest, simp: Option<real -> real>, rankcheck: bool)
    : Result<(Mat, Mat, seq<(nat, nat)>), MatrixError>
  {
    match LUSimple(m, isZero, simp, rankcheck)
    case Err(e) => Err(e)
    case Ok((combined, p)) => Ok((SplitL(combined), SplitU(combined), p))
  }

  /** What `LUdecomposition` promises: L is rows x rows with unit diagonal,
      U has the input's shape and is upper triangular, the swaps are those
      of the combined decomposition, and the only error is the rank check. */
  lemma LUDecompositionFactors(m: Mat, isZero: ZeroTest, simp: Option<real -> real>, rankcheck: bool)
    ensures var res := LUDecomposition(m, isZero, simp, rankcheck);
      (res.Ok? ==>
        var (l, u, p) := res.value;
        l.rows == m.rows && l.cols == m.rows && UnitLowerTriangular(l) &&
        u.rows == m.rows && u.cols == m.cols && UpperTriangular(u) &&
        SwapRecord(p, m.rows)) &&
      (res.Err? ==> rankcheck && res.error == RankDeficient)
  {
    LUSimpleBookkeeping(m, isZero, simp, rankcheck);
    if LUSimple(m, isZero, simp, rankcheck).Ok? {
      SplitRecombines(LUSimple(m, isZero, simp, rankcheck).value.0);
    }
  }

  /** An upper-triangular matrix whose leading pivots the zero test proves
      nonzero factors as the identity times itself, with no swaps. */
  lemma LUDecompositionUpperTriangular(m: Mat, isZero: ZeroTest, simp: Option<real -> real>, rankcheck: bool)
    requires IsSquare(m) && UpperTriangular(m) && 0 < m.rows && LeadingPivotsNonzero(m, isZero)
    ensures LUDecomposition(m, isZero, simp, rankcheck) == Ok((Identity(m.rows), m, []))
  {
    LUSimpleUpperTriangular(m, isZero, simp, rankcheck);
    var l := SplitL(m);
    forall i | 0 <= i < m.rows
      ensures l.e[i] == Identity(m.rows).e[i]
    {
      assert forall j | 0 <= j < m.rows :: l.e[i][j] == Identity(m.rows).e[i][j];
    }
    assert l.e == Identity(m.rows).e;
    var u := SplitU(m);
    forall i | 0 <= i < m.rows
      ensures u.e[i] == m.e[i]
    {
      assert forall j | 0 <= j < m.rows :: u.e[i][j] == m.e[i][j];
    }
    assert u.e == m.e;
  }
}
