/** `_row_reduce`: fraction-free Gauss-Jordan elimination on the flat
    row-major list, with `echelon_form` and `rref` built on it.

    One pass of the source's `while` loop is the function `Step`, and the
    whole loop is `ReduceFrom`. The method `RowReduce` runs the loop the way
    the source does and is proved to compute `RowReduced`. The lemmas state
    what the loop keeps: its bookkeeping of pivots and swaps, strictly
    increasing pivot columns, and, with trustworthy zero tests, echelon and
    reduced echelon form. */
module RowReduction {
  import opened Common
  import opened Matrices
  import opened Pivot
  import opened FlatOps

  /** The fixed inputs of one reduction: the shape, the zero test, the
      simplifier, `equals(0)`, and the flags `normalize_last` and
      `zero_above`. */
  datatype Config = Config(
    rows: nat, cols: nat,
    isZero: ZeroTest, simplify: real -> real, equalsZero: real -> bool,
    normalizeLast: bool, zeroAbove: bool)

  /** The loop variables `mat`, `piv_row`, `piv_col`, `pivot_cols`, `swaps`. */
  datatype State = State(mat: seq<real>, pivRow: nat, pivCol: nat, pivots: seq<nat>, swaps: seq<(nat, nat)>)

  predicate Fits(cfg: Config, s: State)
  {
    |s.mat| == cfg.rows * cfg.cols && s.pivRow <= cfg.rows && s.pivCol <= cfg.cols
  }

  /** The tests the caller passes in are trustworthy. */
  ghost predicate Sound(cfg: Config)
  {
    SoundZeroTest(cfg.isZero) && PreservesZero(cfg.simplify) && SoundEqualsZero(cfg.equalsZero)
  }

  function Entry(cfg: Config, mat: seq<real>, r: nat, c: nat): real
    requires |mat| == cfg.rows * cfg.cols && r < cfg.rows && c < cfg.cols
  {
    FlatAt(mat, cfg.rows, cfg.cols, r, c)
  }

  // ---------------------------------------------------------------------
  // Zeroing the pivot column
  // ---------------------------------------------------------------------

  /** Whether the zeroing loop cancels `row` against the pivot row: not the
      pivot row itself, not a row above it unless `zero_above`, and not a row
      whose entry already tests zero. */
  predicate Cancels(cfg: Config, mat: seq<real>, pivRow: nat, pivCol: nat, row: nat)
    requires |mat| == cfg.rows * cfg.cols && pivCol < cfg.cols && row < cfg.rows
  {
    row != pivRow && (cfg.zeroAbove || row > pivRow) &&
    cfg.isZero(Entry(cfg, mat, row, pivCol)) != Some(true)
  }

  /** The zeroing loop from `row` on: `cross_cancel(pivot_val, row, val, piv_row)`. */
  function EliminateFrom(cfg: Config, mat: seq<real>, pivRow: nat, pivCol: nat, pv: real, row: nat): (m: seq<real>)
    requires |mat| == cfg.rows * cfg.cols && pivRow < cfg.rows && pivCol < cfg.cols && row <= cfg.rows
    ensures |m| == |mat|
    decreases cfg.rows - row
  {
    if row == cfg.rows then mat
    else
      var next :=
        if Cancels(cfg, mat, pivRow, pivCol, row)
        then CrossCancel(mat, cfg.rows, cfg.cols, pv, row, Entry(cfg, mat, row, pivCol), pivRow)
        else mat;
      EliminateFrom(cfg, next, pivRow, pivCol, pv, row + 1)
  }

  /** Every row the loop cancels becomes pv*row - val*pivot_row, with `val`
      its own entry in the pivot column; every other row is left alone. */
  lemma EliminateAt(cfg: Config, mat: seq<real>, pivRow: nat, pivCol: nat, pv: real)
    requires |mat| == cfg.rows * cfg.cols && pivRow < cfg.rows && pivCol < cfg.cols
    ensures var m := EliminateFrom(cfg, mat, pivRow, pivCol, pv, 0);
      forall r, c | 0 <= r < cfg.rows && 0 <= c < cfg.cols ::
        Entry(cfg, m, r, c) ==
          if Cancels(cfg, mat, pivRow, pivCol, r)
          then pv * Entry(cfg, mat, r, c) - Entry(cfg, mat, r, pivCol) * Entry(cfg, mat, pivRow, c)
          else Entry(cfg, mat, r, c)
  {
    forall r, c | 0 <= r < cfg.rows && 0 <= c < cfg.cols
      ensures Entry(cfg, EliminateFrom(cfg, mat, pivRow, pivCol, pv, 0), r, c) ==
          if Cancels(cfg, mat, pivRow, pivCol, r)
          then pv * Entry(cfg, mat, r, c) - Entry(cfg, mat, r, pivCol) * Entry(cfg, mat, pivRow, c)
          else Entry(cfg, mat, r, c)
    {
      EliminateEntry(cfg, mat, pivRow, pivCol, pv, 0, r, c);
    }
  }

  /** `pv*mat[r, c] - val*mat[pivot, c]`, the entry `cross_cancel` writes. */
  function Cancelled(pv: real, x: real, val: real, p: real): real
  {
    pv * x - val * p
  }

  lemma {:induction false} EliminateEntry(cfg: Config, mat: seq<real>, pivRow: nat, pivCol: nat, pv: real,
                                          row: nat, r: nat, c: nat)
    requires |mat| == cfg.rows * cfg.cols && pivRow < cfg.rows && pivCol < cfg.cols && row <= cfg.rows
    requires r < cfg.rows && c < cfg.cols
    ensures Entry(cfg, EliminateFrom(cfg, mat, pivRow, pivCol, pv, row), r, c) ==
      if row <= r && Cancels(cfg, mat, pivRow, pivCol, r)
      then Cancelled(pv, Entry(cfg, mat, r, c), Entry(cfg, mat, r, pivCol), Entry(cfg, mat, pivRow, c))
      else Entry(cfg, mat, r, c)
    decreases cfg.rows - row
  {
    if row < cfg.rows {
      var next :=
        if Cancels(cfg, mat, pivRow, pivCol, row)
        then CrossCancel(mat, cfg.rows, cfg.cols, pv, row, Entry(cfg, mat, row, pivCol), pivRow)
        else mat;
      EliminateEntry(cfg, next, pivRow, pivCol, pv, row + 1, r, c);
      var result := EliminateFrom(cfg, next, pivRow, pivCol, pv, row + 1);
      assert EliminateFrom(cfg, mat, pivRow, pivCol, pv, row) == result;
      if r == row {
        CancelStepRow(cfg, mat, pivRow, pivCol, pv, row, c);
        assert Entry(cfg, result, r, c) == Entry(cfg, next, r, c);
      } else if r < row {
        CancelStepOther(cfg, mat, pivRow, pivCol, pv, row, r, c);
        assert Entry(cfg, result, r, c) == Entry(cfg, next, r, c) == Entry(cfg, mat, r, c);
      } else {
        CancelStepOther(cfg, mat, pivRow, pivCol, pv, row, r, c);
        assert Cancels(cfg, next, pivRow, pivCol, r) == Cancels(cfg, mat, pivRow, pivCol, r);
        assert Entry(cfg, next, r, c) == Entry(cfg, mat, r, c);
        assert Entry(cfg, next, r, pivCol) == Entry(cfg, mat, r, pivCol);
        assert Entry(cfg, next, pivRow, c) == Entry(cfg, mat, pivRow, c);
      }
    }
  }

  /** One step of the zeroing loop, read in the row it visits. */
  lemma CancelStepRow(cfg: Config, mat: seq<real>, pivRow: nat, pivCol: nat, pv: real, row: nat, c: nat)
    requires |mat| == cfg.rows * cfg.cols && pivRow < cfg.rows && pivCol < cfg.cols && row < cfg.rows
    requires c < cfg.cols
    ensures var next :=
        if Cancels(cfg, mat, pivRow, pivCol, row)
        then CrossCancel(mat, cfg.rows, cfg.cols, pv, row, Entry(cfg, mat, row, pivCol), pivRow)
        else mat;
      Entry(cfg, next, row, c) ==
        if Cancels(cfg, mat, pivRow, pivCol, row)
        then Cancelled(pv, Entry(cfg, mat, row, c), Entry(cfg, mat, row, pivCol), Entry(cfg, mat, pivRow, c))
        else Entry(cfg, mat, row, c)
  {
    if Cancels(cfg, mat, pivRow, pivCol, row) {
      CrossCancelEntry(mat, cfg.rows, cfg.cols, pv, row, Entry(cfg, mat, row, pivCol), pivRow, row, c);
    }
  }

  /** One step of the zeroing loop, read in any other row r: nothing the
      later steps read from row r or from the pivot row has changed. */
  lemma CancelStepOther(cfg: Config, mat: seq<real>, pivRow: nat, pivCol: nat, pv: real, row: nat, r: nat, c: nat)
    requires |mat| == cfg.rows * cfg.cols && pivRow < cfg.rows && pivCol < cfg.cols && row < cfg.rows
    requires r < cfg.rows && c < cfg.cols && r != row
    ensures var next :=
        if Cancels(cfg, mat, pivRow, pivCol, row)
        then CrossCancel(mat, cfg.rows, cfg.cols, pv, row, Entry(cfg, mat, row, pivCol), pivRow)
        else mat;
      Entry(cfg, next, r, c) == Entry(cfg, mat, r, c) &&
      Entry(cfg, next, r, pivCol) == Entry(cfg, mat, r, pivCol) &&
      Entry(cfg, next, pivRow, c) == Entry(cfg, mat, pivRow, c) &&
      Cancels(cfg, next, pivRow, pivCol, r) == Cancels(cfg, mat, pivRow, pivCol, r)
  {
    if Cancels(cfg, mat, pivRow, pivCol, row) {
      var val := Entry(cfg, mat, row, pivCol);
      CrossCancelEntry(mat, cfg.rows, cfg.cols, pv, row, val, pivRow, r, c);
      CrossCancelEntry(mat, cfg.rows, cfg.cols, pv, row, val, pivRow, r, pivCol);
      CrossCancelEntry(mat, cfg.rows, cfg.cols, pv, row, val, pivRow, pivRow, c);
    }
  }

  /** The zeroing loop of `_row_reduce`. */
  method ZeroPivotColumn(cfg: Config, mat: seq<real>, pivRow: nat, pivCol: nat, pv: real) returns (m: seq<real>)
    requires |mat| == cfg.rows * cfg.cols && pivRow < cfg.rows && pivCol < cfg.cols
    ensures m == EliminateFrom(cfg, mat, pivRow, pivCol, pv, 0)
  {
    m := mat;
    var row := 0;
    while row < cfg.rows
      invariant row <= cfg.rows && |m| == |mat|
      invariant EliminateFrom(cfg, m, pivRow, pivCol, pv, row) == EliminateFrom(cfg, mat, pivRow, pivCol, pv, 0)
    {
      if row != pivRow && (cfg.zeroAbove || row >= pivRow) {
        var val := Entry(cfg, m, row, pivCol);
        if cfg.isZero(val) != Some(true) {
          assert Cancels(cfg, m, pivRow, pivCol, row);
          m := CrossCancelRow(m, cfg.rows, cfg.cols, pv, row, val, pivRow);
        } else {
          assert !Cancels(cfg, m, pivRow, pivCol, row);
        }
      } else {
        assert !Cancels(cfg, m, pivRow, pivCol, row);
      }
      row := row + 1;
    }
  }

  // ---------------------------------------------------------------------
  // One pass of the main loop
  // ---------------------------------------------------------------------

  /** The pivot search on `get_col(piv_col)[piv_row:]`. */
  function Search(cfg: Config, s: State): PivotResult
    requires Fits(cfg, s) && s.pivRow < cfg.rows && s.pivCol < cfg.cols
  {
    ReasonablePivot(ColumnFrom(s.mat, cfg.rows, cfg.cols, s.pivCol, s.pivRow), cfg.isZero, cfg.simplify, cfg.equalsZero)
  }

  /** The list after the simplified entries are written back. */
  function Written(cfg: Config, s: State): (m: seq<real>)
    requires Fits(cfg, s) && s.pivRow < cfg.rows && s.pivCol < cfg.cols
    ensures |m| == |s.mat|
  {
    var col := ColumnFrom(s.mat, cfg.rows, cfg.cols, s.pivCol, s.pivRow);
    ReasonablePivotWriteBack(col, cfg.isZero, cfg.simplify, cfg.equalsZero);
    WriteBack(s.mat, cfg.rows, cfg.cols, s.pivRow, s.pivCol, Search(cfg, s).newlyDetermined)
  }

  /** Row index of the pivot the search found. */
  function PivotRowFound(cfg: Config, s: State): (j: nat)
    requires Fits(cfg, s) && s.pivRow < cfg.rows && s.pivCol < cfg.cols && Search(cfg, s).offset.Some?
    ensures s.pivRow <= j < cfg.rows
  {
    var col := ColumnFrom(s.mat, cfg.rows, cfg.cols, s.pivCol, s.pivRow);
    ReasonablePivotWriteBack(col, cfg.isZero, cfg.simplify, cfg.equalsZero);
    s.pivRow + Search(cfg, s).offset.value
  }

  /** `pivot_val` as the zeroing loop uses it: 1 when the row was normalised
      first. */
  function PivotValue(cfg: Config, s: State): real
    requires Fits(cfg, s) && s.pivRow < cfg.rows && s.pivCol < cfg.cols && Search(cfg, s).offset.Some?
  {
    var col := ColumnFrom(s.mat, cfg.rows, cfg.cols, s.pivCol, s.pivRow);
    ReasonablePivotWriteBack(col, cfg.isZero, cfg.simplify, cfg.equalsZero);
    if cfg.normalizeLast then Search(cfg, s).value.value else 1.0
  }

  /** The list once the pivot row is swapped into place and, when
      `normalize_last` is false, normalised. */
  function Prepared(cfg: Config, s: State): (m: seq<real>)
    requires Fits(cfg, s) && s.pivRow < cfg.rows && s.pivCol < cfg.cols && Search(cfg, s).offset.Some?
    ensures |m| == |s.mat|
  {
    var col := ColumnFrom(s.mat, cfg.rows, cfg.cols, s.pivCol, s.pivRow);
    ReasonablePivotWriteBack(col, cfg.isZero, cfg.simplify, cfg.equalsZero);
    var j := PivotRowFound(cfg, s);
    var m1 := Written(cfg, s);
    var m2 := if j != s.pivRow then SwapRows(m1, cfg.rows, cfg.cols, s.pivRow, j) else m1;
    if cfg.normalizeLast then m2
    else NormalizeRow(m2, cfg.rows, cfg.cols, s.pivRow, s.pivCol, Search(cfg, s).value.value)
  }

  /** One pass of the `while` loop. Without a pivot the column is skipped;
      with one, the pivot column is recorded, the pivot row is swapped into
      place, the other rows are cancelled and `piv_row` advances, while
      `piv_col` stays for the next pass to revisit. */
  function Step(cfg: Config, s: State): (t: State)
    requires Fits(cfg, s) && s.pivRow < cfg.rows && s.pivCol < cfg.cols
    ensures Fits(cfg, t)
    ensures (t.pivRow, t.pivCol) == if Search(cfg, s).offset.None? then (s.pivRow, s.pivCol + 1) else (s.pivRow + 1, s.pivCol)
  {
    if Search(cfg, s).offset.None? then
      State(Written(cfg, s), s.pivRow, s.pivCol + 1, s.pivots, s.swaps)
    else
      Pivoted(cfg, s)
  }

  /** A pass that found its pivot: the swap is recorded, the other rows are
      cancelled against the pivot row and the pivot column is recorded. */
  function Pivoted(cfg: Config, s: State): (t: State)
    requires Fits(cfg, s) && s.pivRow < cfg.rows && s.pivCol < cfg.cols && Search(cfg, s).offset.Some?
    ensures Fits(cfg, t) && t.pivRow == s.pivRow + 1 && t.pivCol == s.pivCol
  {
    var j := PivotRowFound(cfg, s);
    var swaps := if j != s.pivRow then s.swaps + [(s.pivRow, j)] else s.swaps;
    var m := EliminateFrom(cfg, Prepared(cfg, s), s.pivRow, s.pivCol, PivotValue(cfg, s), 0);
    State(m, s.pivRow + 1, s.pivCol, s.pivots + [s.pivCol], swaps)
  }

  /** The `while` loop from state s to its end. */
  function ReduceFrom(cfg: Config, s: State): (t: State)
    requires Fits(cfg, s)
    ensures Fits(cfg, t)
    decreases cfg.cols - s.pivCol + cfg.rows - s.pivRow
  {
    if s.pivCol < cfg.cols && s.pivRow < cfg.rows then ReduceFrom(cfg, Step(cfg, s)) else s
  }

  // ---------------------------------------------------------------------
  // Bookkeeping the loop keeps
  // ---------------------------------------------------------------------

  /** One pivot row per pivot, every pivot column already visited, and every
      swap exchanges the pivot row of its pass with a later row. */
  predicate Bookkeeping(cfg: Config, s: State)
  {
    Fits(cfg, s) && |s.pivots| == s.pivRow &&
    (forall a | 0 <= a < |s.pivots| :: s.pivots[a] <= s.pivCol && s.pivots[a] < cfg.cols) &&
    (forall a | 0 <= a < |s.swaps| :: s.swaps[a].0 < s.swaps[a].1 < cfg.rows && s.swaps[a].0 < s.pivRow) &&
    (forall a, b | 0 <= a < b < |s.swaps| :: s.swaps[a].0 < s.swaps[b].0)
  }

  lemma StepBookkeeping(cfg: Config, s: State)
    requires Bookkeeping(cfg, s) && s.pivRow < cfg.rows && s.pivCol < cfg.cols
    ensures Bookkeeping(cfg, Step(cfg, s))
  {
    var t := Step(cfg, s);
    if Search(cfg, s).offset.Some? {
      PivotBookkeeping(cfg, s, t, PivotRowFound(cfg, s));
    } else {
      assert t.pivots == s.pivots && t.swaps == s.swaps;
    }
  }

  /** A pass that finds its pivot in row j records the pivot column, and the
      swap when j is not the pivot row. */
  lemma PivotBookkeeping(cfg: Config, s: State, t: State, j: nat)
    requires Bookkeeping(cfg, s) && s.pivRow < cfg.rows && s.pivCol < cfg.cols && s.pivRow <= j < cfg.rows
    requires Fits(cfg, t) && t.pivRow == s.pivRow + 1 && t.pivCol == s.pivCol
    requires t.pivots == s.pivots + [s.pivCol]
    requires t.swaps == if j != s.pivRow then s.swaps + [(s.pivRow, j)] else s.swaps
    ensures Bookkeeping(cfg, t)
  {
  }

  /** With a zero test that recognises a literal 0, the columns are strictly
      increasing; after a pivot, the rest of its column tests zero, so the
      next pass moves on to the next column. */
  ghost predicate Increasing(cfg: Config, s: State)
    requires Bookkeeping(cfg, s)
  {
    (forall a, b | 0 <= a < b < |s.pivots| :: s.pivots[a] < s.pivots[b]) &&
    (forall a | 0 <= a < |s.pivots| :: a <= s.pivots[a]) &&
    (|s.pivots| > 0 && s.pivots[|s.pivots| - 1] == s.pivCol ==>
      forall r | s.pivRow <= r < cfg.rows :: cfg.isZero(Entry(cfg, s.mat, r, s.pivCol)) == Some(true))
  }

  // ---------------------------------------------------------------------
  // What one pass does to the entries
  // ---------------------------------------------------------------------

  /** Row r after rows i and j trade places. */
  function Swapped(r: nat, i: nat, j: nat): nat
  {
    if r == i then j else if r == j then i else r
  }

  /** Write-back touches only the searched part of the pivot column, and
      there it is the pivot search's own write-back. */
  lemma WrittenFacts(cfg: Config, s: State)
    requires Fits(cfg, s) && s.pivRow < cfg.rows && s.pivCol < cfg.cols
    ensures OffsetsBelow(Search(cfg, s).newlyDetermined, cfg.rows - s.pivRow)
    ensures var m1 := Written(cfg, s);
      (forall r, c | 0 <= r < cfg.rows && 0 <= c < cfg.cols && (c != s.pivCol || r < s.pivRow) ::
        Entry(cfg, m1, r, c) == Entry(cfg, s.mat, r, c)) &&
      forall r | s.pivRow <= r < cfg.rows ::
        Entry(cfg, m1, r, s.pivCol) ==
          ApplyNewly(ColumnFrom(s.mat, cfg.rows, cfg.cols, s.pivCol, s.pivRow), Search(cfg, s).newlyDetermined)[r - s.pivRow]
  {
    var col := ColumnFrom(s.mat, cfg.rows, cfg.cols, s.pivCol, s.pivRow);
    ReasonablePivotWriteBack(col, cfg.isZero, cfg.simplify, cfg.equalsZero);
    WriteBackAt(s.mat, cfg.rows, cfg.cols, s.pivRow, s.pivCol, Search(cfg, s).newlyDetermined);
    var m1 := Written(cfg, s);
    forall r | s.pivRow <= r < cfg.rows
      ensures Entry(cfg, m1, r, s.pivCol) ==
        ApplyNewly(col, Search(cfg, s).newlyDetermined)[r - s.pivRow]
    {
      assert Entry(cfg, m1, r, s.pivCol) == ColumnFrom(m1, cfg.rows, cfg.cols, s.pivCol, s.pivRow)[r - s.pivRow];
    }
  }

  /** With trustworthy tests, write-back keeps every entry of the pivot column
      zero or nonzero as it was, and a pass without pivot leaves that part of
      the column zero. */
  lemma WrittenSound(cfg: Config, s: State)
    requires Fits(cfg, s) && s.pivRow < cfg.rows && s.pivCol < cfg.cols && Sound(cfg)
    ensures var m1 := Written(cfg, s);
      forall r | s.pivRow <= r < cfg.rows ::
        (Entry(cfg, m1, r, s.pivCol) == 0.0 <==> Entry(cfg, s.mat, r, s.pivCol) == 0.0) &&
        (Search(cfg, s).offset.None? ==> Entry(cfg, m1, r, s.pivCol) == 0.0)
  {
    var col := ColumnFrom(s.mat, cfg.rows, cfg.cols, s.pivCol, s.pivRow);
    ReasonablePivotSound(col, cfg.isZero, cfg.simplify, cfg.equalsZero);
    var newly := Search(cfg, s).newlyDetermined;
    var m1 := Written(cfg, s);
    forall r | s.pivRow <= r < cfg.rows
      ensures (Entry(cfg, m1, r, s.pivCol) == 0.0 <==> Entry(cfg, s.mat, r, s.pivCol) == 0.0) &&
        (Search(cfg, s).offset.None? ==> Entry(cfg, m1, r, s.pivCol) == 0.0)
    {
      WrittenColumnAt(cfg, s, r);
      var k := r - s.pivRow;
      assert ApplyNewly(col, newly)[k] == 0.0 <==> col[k] == 0.0;
    }
  }

  /** Entry r of the pivot column, before and after write-back, read off the
      searched column and its written-back version. */
  lemma WrittenColumnAt(cfg: Config, s: State, r: nat)
    requires Fits(cfg, s) && s.pivRow <= r < cfg.rows && s.pivCol < cfg.cols
    ensures var col := ColumnFrom(s.mat, cfg.rows, cfg.cols, s.pivCol, s.pivRow);
      OffsetsBelow(Search(cfg, s).newlyDetermined, |col|) &&
      col[r - s.pivRow] == Entry(cfg, s.mat, r, s.pivCol) &&
      Entry(cfg, Written(cfg, s), r, s.pivCol) == ApplyNewly(col, Search(cfg, s).newlyDetermined)[r - s.pivRow]
  {
    WrittenFacts(cfg, s);
    assert s.pivRow + (r - s.pivRow) == r;
  }

  /** After write-back, the row the search found holds the pivot value. */
  lemma WrittenPivot(cfg: Config, s: State)
    requires Fits(cfg, s) && s.pivRow < cfg.rows && s.pivCol < cfg.cols && Search(cfg, s).offset.Some?
    ensures Search(cfg, s).value.Some?
    ensures Entry(cfg, Written(cfg, s), PivotRowFound(cfg, s), s.pivCol) == Search(cfg, s).value.value
  {
    var col := ColumnFrom(s.mat, cfg.rows, cfg.cols, s.pivCol, s.pivRow);
    ReasonablePivotWriteBack(col, cfg.isZero, cfg.simplify, cfg.equalsZero);
    WrittenFacts(cfg, s);
  }

  /** The pivot entry the zeroing loop cancels with is the pivot value. */
  lemma PreparedPivot(cfg: Config, s: State)
    requires Fits(cfg, s) && s.pivRow < cfg.rows && s.pivCol < cfg.cols && Search(cfg, s).offset.Some?
    ensures Entry(cfg, Prepared(cfg, s), s.pivRow, s.pivCol) == PivotValue(cfg, s)
  {
    WrittenPivot(cfg, s);
    var j := PivotRowFound(cfg, s);
    var m1 := Written(cfg, s);
    var m2 := if j != s.pivRow then SwapRows(m1, cfg.rows, cfg.cols, s.pivRow, j) else m1;
    if j != s.pivRow {
      SwapRowsEntry(m1, cfg.rows, cfg.cols, s.pivRow, j, s.pivRow, s.pivCol);
    }
    assert Entry(cfg, m2, s.pivRow, s.pivCol) == Search(cfg, s).value.value;
    if !cfg.normalizeLast {
      var pv := Search(cfg, s).value.value;
      assert Prepared(cfg, s) == NormalizeRow(m2, cfg.rows, cfg.cols, s.pivRow, s.pivCol, pv);
      NormalizeRowAt(m2, cfg.rows, cfg.cols, s.pivRow, s.pivCol, pv);
    }
  }

  /** Before the zeroing loop: the rows above the pivot row are as they were,
      the rows from the pivot row on are the old rows with the pivot row
      swapped in (in the columns already passed), and the pivot entry is the
      pivot value the loop cancels with. */
  lemma PreparedFacts(cfg: Config, s: State)
    requires Fits(cfg, s) && s.pivRow < cfg.rows && s.pivCol < cfg.cols && Search(cfg, s).offset.Some?
    ensures var m3 := Prepared(cfg, s);
      var j := PivotRowFound(cfg, s);
      (forall r, c | 0 <= r < s.pivRow && 0 <= c < cfg.cols :: Entry(cfg, m3, r, c) == Entry(cfg, s.mat, r, c)) &&
      (forall r, c | s.pivRow <= r < cfg.rows && 0 <= c < s.pivCol ::
        Entry(cfg, m3, r, c) == Entry(cfg, s.mat, Swapped(r, s.pivRow, j), c)) &&
      Entry(cfg, m3, s.pivRow, s.pivCol) == PivotValue(cfg, s)
  {
    PreparedPivot(cfg, s);
    var col := ColumnFrom(s.mat, cfg.rows, cfg.cols, s.pivCol, s.pivRow);
    ReasonablePivotWriteBack(col, cfg.isZero, cfg.simplify, cfg.equalsZero);
    WrittenFacts(cfg, s);
    var j := PivotRowFound(cfg, s);
    var m1 := Written(cfg, s);
    var m2 := if j != s.pivRow then SwapRows(m1, cfg.rows, cfg.cols, s.pivRow, j) else m1;
    SwapRowsAt(m1, cfg.rows, cfg.cols, s.pivRow, j);
    NormalizeRowAt(m2, cfg.rows, cfg.cols, s.pivRow, s.pivCol, Search(cfg, s).value.value);
    forall r, c | s.pivRow <= r < cfg.rows && 0 <= c < s.pivCol
      ensures Entry(cfg, m2, r, c) == Entry(cfg, s.mat, Swapped(r, s.pivRow, j), c)
    {
      assert Entry(cfg, m2, r, c) == Entry(cfg, m1, Swapped(r, s.pivRow, j), c);
    }
  }

  // ---------------------------------------------------------------------
  // Strictly increasing pivot columns
  // ---------------------------------------------------------------------

  /** The pass that revisits the column of the last pivot finds no pivot
      there: the rest of that column tests zero. */
  lemma RevisitFindsNoPivot(cfg: Config, s: State)
    requires Bookkeeping(cfg, s) && s.pivRow < cfg.rows && s.pivCol < cfg.cols && Increasing(cfg, s)
    ensures |s.pivots| > 0 && s.pivots[|s.pivots| - 1] == s.pivCol ==> Search(cfg, s).offset.None?
  {
    var col := ColumnFrom(s.mat, cfg.rows, cfg.cols, s.pivCol, s.pivRow);
    ReasonablePivotNone(col, cfg.isZero, cfg.simplify, cfg.equalsZero);
    if |s.pivots| > 0 && s.pivots[|s.pivots| - 1] == s.pivCol {
      forall k | 0 <= k < |col| ensures SettledZero(col[k], cfg.isZero, cfg.simplify, cfg.equalsZero) {
        assert col[k] == Entry(cfg, s.mat, s.pivRow + k, s.pivCol);
      }
    }
  }

  /** Below the pivot, the zeroing loop leaves only entries that test zero:
      a cancelled entry is the literal pv*val - val*pv. */
  lemma CancelledBelow(cfg: Config, m3: seq<real>, pivRow: nat, pivCol: nat, pv: real, r: nat)
    requires |m3| == cfg.rows * cfg.cols && pivRow < r < cfg.rows && pivCol < cfg.cols
    requires Entry(cfg, m3, pivRow, pivCol) == pv && RecognisesZero(cfg.isZero)
    ensures cfg.isZero(Entry(cfg, EliminateFrom(cfg, m3, pivRow, pivCol, pv, 0), r, pivCol)) == Some(true)
  {
    EliminateEntry(cfg, m3, pivRow, pivCol, pv, 0, r, pivCol);
    var a := Entry(cfg, m3, r, pivCol);
    if Cancels(cfg, m3, pivRow, pivCol, r) {
      assert Entry(cfg, EliminateFrom(cfg, m3, pivRow, pivCol, pv, 0), r, pivCol) == pv * a - a * pv;
      CrossTermsCancel(pv, a);
    }
  }

  lemma CrossTermsCancel(x: real, y: real)
    ensures x * y - y * x == 0.0
  {
  }

  /** A pass keeps the pivot columns strictly increasing: after a pivot the
      rest of its column cancels to a literal 0, which the zero test
      recognises. */
  lemma StepIncreasing(cfg: Config, s: State)
    requires Bookkeeping(cfg, s) && s.pivRow < cfg.rows && s.pivCol < cfg.cols
    requires RecognisesZero(cfg.isZero) && Increasing(cfg, s)
    ensures Bookkeeping(cfg, Step(cfg, s)) && Increasing(cfg, Step(cfg, s))
  {
    StepBookkeeping(cfg, s);
    RevisitFindsNoPivot(cfg, s);
    if Search(cfg, s).offset.Some? {
      var m3 := Prepared(cfg, s);
      var pv := PivotValue(cfg, s);
      PreparedPivot(cfg, s);
      var m4 := EliminateFrom(cfg, m3, s.pivRow, s.pivCol, pv, 0);
      var t := Step(cfg, s);
      assert t.mat == m4;
      forall r | s.pivRow < r < cfg.rows ensures cfg.isZero(Entry(cfg, m4, r, s.pivCol)) == Some(true) {
        CancelledBelow(cfg, m3, s.pivRow, s.pivCol, pv, r);
      }
      PivotIncreasing(cfg, s, t);
    }
  }

  /** A pass that records pivot column `piv_col` after a smaller last pivot,
      and leaves the rest of that column testing zero, keeps `Increasing`. */
  lemma PivotIncreasing(cfg: Config, s: State, t: State)
    requires Bookkeeping(cfg, s) && Bookkeeping(cfg, t) && Increasing(cfg, s) && s.pivCol < cfg.cols
    requires t.pivRow == s.pivRow + 1 && t.pivCol == s.pivCol && t.pivots == s.pivots + [s.pivCol]
    requires |s.pivots| > 0 ==> s.pivots[|s.pivots| - 1] < s.pivCol
    requires forall r | t.pivRow <= r < cfg.rows :: cfg.isZero(Entry(cfg, t.mat, r, t.pivCol)) == Some(true)
    ensures Increasing(cfg, t)
  {
  }

  // ---------------------------------------------------------------------
  // Echelon form
  // ---------------------------------------------------------------------

  /** Echelon form of the columns passed so far: the rows from `piv_row` on
      are zero there, and every pivot row is zero left of its pivot. */
  ghost predicate Echelon(cfg: Config, s: State)
    requires Bookkeeping(cfg, s)
  {
    (forall r, c | s.pivRow <= r < cfg.rows && 0 <= c < s.pivCol :: Entry(cfg, s.mat, r, c) == 0.0) &&
    (forall k, c | 0 <= k < s.pivRow && 0 <= c < s.pivots[k] :: Entry(cfg, s.mat, k, c) == 0.0)
  }

  /** Every pivot column is zero outside its pivot row. */
  ghost predicate Cleared(cfg: Config, s: State)
    requires Bookkeeping(cfg, s)
  {
    forall k, r | 0 <= k < s.pivRow && 0 <= r < cfg.rows && r != k :: Entry(cfg, s.mat, r, s.pivots[k]) == 0.0
  }

  /** An entry that is zero, over a pivot-row entry that is zero, stays zero
      through the zeroing loop. */
  lemma ZeroStays(cfg: Config, m3: seq<real>, pivRow: nat, pivCol: nat, pv: real, r: nat, c: nat)
    requires |m3| == cfg.rows * cfg.cols && pivRow < cfg.rows && pivCol < cfg.cols && r < cfg.rows && c < cfg.cols
    requires Entry(cfg, m3, r, c) == 0.0 && Entry(cfg, m3, pivRow, c) == 0.0
    ensures Entry(cfg, EliminateFrom(cfg, m3, pivRow, pivCol, pv, 0), r, c) == 0.0
  {
    EliminateEntry(cfg, m3, pivRow, pivCol, pv, 0, r, c);
  }

  /** With a sound zero test, the zeroing loop leaves the pivot column zero in
      every row it visits. */
  lemma PivotColumnZeroed(cfg: Config, m3: seq<real>, pivRow: nat, pivCol: nat, pv: real, r: nat)
    requires |m3| == cfg.rows * cfg.cols && pivRow < cfg.rows && pivCol < cfg.cols && r < cfg.rows
    requires Entry(cfg, m3, pivRow, pivCol) == pv && SoundZeroTest(cfg.isZero)
    requires r != pivRow && (cfg.zeroAbove || r > pivRow)
    ensures Entry(cfg, EliminateFrom(cfg, m3, pivRow, pivCol, pv, 0), r, pivCol) == 0.0
  {
    EliminateEntry(cfg, m3, pivRow, pivCol, pv, 0, r, pivCol);
    var x := Entry(cfg, m3, r, pivCol);
    if !Cancels(cfg, m3, pivRow, pivCol, r) {
      assert cfg.isZero(x) == Some(true);
    }
  }

  /** A pass without a pivot keeps the echelon form and extends it by the
      column it skips, which trustworthy tests show to be zero. */
  lemma StepEchelonNoPivot(cfg: Config, s: State)
    requires Bookkeeping(cfg, s) && s.pivRow < cfg.rows && s.pivCol < cfg.cols && Search(cfg, s).offset.None?
    requires Sound(cfg) && Echelon(cfg, s)
    ensures Bookkeeping(cfg, Step(cfg, s)) && Echelon(cfg, Step(cfg, s))
    ensures RecognisesZero(cfg.isZero) && Cleared(cfg, s) ==> Cleared(cfg, Step(cfg, s))
  {
    StepBookkeeping(cfg, s);
    WrittenFacts(cfg, s);
    WrittenSound(cfg, s);
  }

  /** A pass with a pivot keeps the echelon form and adds its pivot row. */
  lemma StepEchelonPivot(cfg: Config, s: State)
    requires Bookkeeping(cfg, s) && s.pivRow < cfg.rows && s.pivCol < cfg.cols && Search(cfg, s).offset.Some?
    requires Sound(cfg) && Echelon(cfg, s)
    ensures Bookkeeping(cfg, Step(cfg, s)) && Echelon(cfg, Step(cfg, s))
  {
    StepBookkeeping(cfg, s);
    PreparedFacts(cfg, s);
    var m3 := Prepared(cfg, s);
    var pv := PivotValue(cfg, s);
    var j := PivotRowFound(cfg, s);
    var t := Step(cfg, s);
    assert t.mat == EliminateFrom(cfg, m3, s.pivRow, s.pivCol, pv, 0);
    forall r, c | t.pivRow <= r < cfg.rows && 0 <= c < t.pivCol ensures Entry(cfg, t.mat, r, c) == 0.0 {
      assert Entry(cfg, m3, r, c) == Entry(cfg, s.mat, Swapped(r, s.pivRow, j), c);
      assert Entry(cfg, m3, s.pivRow, c) == Entry(cfg, s.mat, j, c);
      ZeroStays(cfg, m3, s.pivRow, s.pivCol, pv, r, c);
    }
    forall k, c | 0 <= k < t.pivRow && 0 <= c < t.pivots[k] ensures Entry(cfg, t.mat, k, c) == 0.0 {
      assert Entry(cfg, m3, s.pivRow, c) == Entry(cfg, s.mat, j, c);
      if k == s.pivRow {
        assert Entry(cfg, m3, k, c) == Entry(cfg, s.mat, j, c);
      } else {
        assert t.pivots[k] == s.pivots[k];
      }
      ZeroStays(cfg, m3, s.pivRow, s.pivCol, pv, k, c);
    }
  }

  /** A pass with a pivot, zeroing above as well as below, keeps every pivot
      column cleared and clears its own. */
  lemma StepClearedPivot(cfg: Config, s: State)
    requires Bookkeeping(cfg, s) && s.pivRow < cfg.rows && s.pivCol < cfg.cols && Search(cfg, s).offset.Some?
    requires Sound(cfg) && RecognisesZero(cfg.isZero) && cfg.zeroAbove
    requires Increasing(cfg, s) && Echelon(cfg, s) && Cleared(cfg, s)
    ensures Bookkeeping(cfg, Step(cfg, s)) && Cleared(cfg, Step(cfg, s))
  {
    StepBookkeeping(cfg, s);
    RevisitFindsNoPivot(cfg, s);
    PreparedFacts(cfg, s);
    var m3 := Prepared(cfg, s);
    var pv := PivotValue(cfg, s);
    var j := PivotRowFound(cfg, s);
    var t := Step(cfg, s);
    assert t.mat == EliminateFrom(cfg, m3, s.pivRow, s.pivCol, pv, 0);
    forall k, r | 0 <= k < t.pivRow && 0 <= r < cfg.rows && r != k ensures Entry(cfg, t.mat, r, t.pivots[k]) == 0.0 {
      if k == s.pivRow {
        PivotColumnZeroed(cfg, m3, s.pivRow, s.pivCol, pv, r);
      } else {
        var c := s.pivots[k];
        assert t.pivots[k] == c && c < s.pivCol;
        assert Entry(cfg, m3, s.pivRow, c) == Entry(cfg, s.mat, j, c);
        if r >= s.pivRow {
          assert Entry(cfg, m3, r, c) == Entry(cfg, s.mat, Swapped(r, s.pivRow, j), c);
        }
        ZeroStays(cfg, m3, s.pivRow, s.pivCol, pv, r, c);
      }
    }
  }

  // ---------------------------------------------------------------------
  // Pivot entries
  // ---------------------------------------------------------------------

  /** Every pivot entry is nonzero. */
  ghost predicate LeadingNonzero(cfg: Config, s: State)
    requires Bookkeeping(cfg, s)
  {
    forall k | 0 <= k < s.pivRow :: Entry(cfg, s.mat, k, s.pivots[k]) != 0.0
  }

  /** Every pivot entry is 1. */
  ghost predicate UnitPivots(cfg: Config, s: State)
    requires Bookkeeping(cfg, s)
  {
    forall k | 0 <= k < s.pivRow :: Entry(cfg, s.mat, k, s.pivots[k]) == 1.0
  }

  /** Through the zeroing loop, an entry over a zero of the pivot row is at
      most multiplied by the pivot value. */
  lemma PivotEntryScaled(cfg: Config, m3: seq<real>, pivRow: nat, pivCol: nat, pv: real, k: nat, c: nat)
    requires |m3| == cfg.rows * cfg.cols && pivRow < cfg.rows && pivCol < cfg.cols && k < cfg.rows && c < cfg.cols
    requires Entry(cfg, m3, pivRow, c) == 0.0
    ensures var y := Entry(cfg, EliminateFrom(cfg, m3, pivRow, pivCol, pv, 0), k, c);
      y == Entry(cfg, m3, k, c) || y == pv * Entry(cfg, m3, k, c)
  {
    EliminateEntry(cfg, m3, pivRow, pivCol, pv, 0, k, c);
  }

  /** The value the zeroing loop cancels with is 1 when the row was
      normalised first, and nonzero when the zero test decides every entry. */
  lemma PivotValueFacts(cfg: Config, s: State)
    requires Fits(cfg, s) && s.pivRow < cfg.rows && s.pivCol < cfg.cols && Search(cfg, s).offset.Some?
    ensures !cfg.normalizeLast ==> PivotValue(cfg, s) == 1.0
    ensures Sound(cfg) && ExactZeroTest(cfg.isZero) ==> PivotValue(cfg, s) != 0.0
  {
    var col := ColumnFrom(s.mat, cfg.rows, cfg.cols, s.pivCol, s.pivRow);
    if Sound(cfg) && ExactZeroTest(cfg.isZero) {
      ReasonablePivotSound(col, cfg.isZero, cfg.simplify, cfg.equalsZero);
      ExactSearchAssumesNothing(col, cfg.isZero, cfg.simplify, cfg.equalsZero);
    }
  }

  /** After a pass with a pivot, its pivot entry is the pivot value. */
  lemma StepNewPivotEntry(cfg: Config, s: State)
    requires Bookkeeping(cfg, s) && s.pivRow < cfg.rows && s.pivCol < cfg.cols && Search(cfg, s).offset.Some?
    ensures Entry(cfg, Step(cfg, s).mat, s.pivRow, s.pivCol) == PivotValue(cfg, s)
  {
    PreparedPivot(cfg, s);
    var m3 := Prepared(cfg, s);
    var pv := PivotValue(cfg, s);
    assert Step(cfg, s).mat == EliminateFrom(cfg, m3, s.pivRow, s.pivCol, pv, 0);
    EliminateEntry(cfg, m3, s.pivRow, s.pivCol, pv, 0, s.pivRow, s.pivCol);
  }

  /** Before a pass that finds a pivot, every earlier pivot column lies left
      of the current column. */
  lemma EarlierPivotsPassed(cfg: Config, s: State)
    requires Bookkeeping(cfg, s) && s.pivRow < cfg.rows && s.pivCol < cfg.cols && Search(cfg, s).offset.Some?
    requires RecognisesZero(cfg.isZero) && Increasing(cfg, s)
    ensures forall k | 0 <= k < s.pivRow :: s.pivots[k] < s.pivCol
  {
    RevisitFindsNoPivot(cfg, s);
    forall k | 0 <= k < s.pivRow ensures s.pivots[k] < s.pivCol {
      if k < s.pivRow - 1 {
        assert s.pivots[k] < s.pivots[s.pivRow - 1];
      }
    }
  }

  /** An entry left of the pivot column before the zeroing loop. */
  lemma PreparedEntry(cfg: Config, s: State, r: nat, c: nat)
    requires Fits(cfg, s) && s.pivRow < cfg.rows && s.pivCol < cfg.cols && Search(cfg, s).offset.Some?
    requires r < cfg.rows && c < s.pivCol
    ensures Entry(cfg, Prepared(cfg, s), r, c) ==
      Entry(cfg, s.mat, if r < s.pivRow then r else Swapped(r, s.pivRow, PivotRowFound(cfg, s)), c)
  {
    PreparedFacts(cfg, s);
  }

  /** After a pass with a pivot, an earlier pivot entry is what the zeroing
      loop makes of it, and the new pivot row is zero in its column. */
  lemma StepOldPivotEntry(cfg: Config, s: State, k: nat)
    requires Bookkeeping(cfg, s) && s.pivRow < cfg.rows && s.pivCol < cfg.cols && Search(cfg, s).offset.Some?
    requires RecognisesZero(cfg.isZero) && Increasing(cfg, s) && Echelon(cfg, s)
    requires k < s.pivRow
    ensures var m3 := Prepared(cfg, s); var c := s.pivots[k];
      c < cfg.cols &&
      Step(cfg, s).mat == EliminateFrom(cfg, m3, s.pivRow, s.pivCol, PivotValue(cfg, s), 0) &&
      Entry(cfg, m3, k, c) == Entry(cfg, s.mat, k, c) &&
      Entry(cfg, m3, s.pivRow, c) == 0.0
  {
    EarlierPivotsPassed(cfg, s);
    var j := PivotRowFound(cfg, s);
    var c := s.pivots[k];
    PreparedEntry(cfg, s, k, c);
    PreparedEntry(cfg, s, s.pivRow, c);
    assert Entry(cfg, s.mat, j, c) == 0.0;
  }

  lemma NonzeroProduct(x: real, y: real)
    requires x != 0.0 && y != 0.0
    ensures x * y != 0.0
  {
  }

  /** A pass keeps the pivot entries 1 when rows are normalised before
      zeroing. */
  lemma StepUnitPivots(cfg: Config, s: State)
    requires Bookkeeping(cfg, s) && s.pivRow < cfg.rows && s.pivCol < cfg.cols
    requires Sound(cfg) && RecognisesZero(cfg.isZero) && Increasing(cfg, s) && Echelon(cfg, s)
    requires !cfg.normalizeLast && UnitPivots(cfg, s)
    ensures Bookkeeping(cfg, Step(cfg, s)) && UnitPivots(cfg, Step(cfg, s))
  {
    StepBookkeeping(cfg, s);
    var t := Step(cfg, s);
    if Search(cfg, s).offset.None? {
      WrittenFacts(cfg, s);
    } else {
      PivotValueFacts(cfg, s);
      var pv := PivotValue(cfg, s);
      forall k | 0 <= k < t.pivRow ensures Entry(cfg, t.mat, k, t.pivots[k]) == 1.0 {
        if k == s.pivRow {
          StepNewPivotEntry(cfg, s);
        } else {
          StepOldPivotEntry(cfg, s, k);
          PivotEntryScaled(cfg, Prepared(cfg, s), s.pivRow, s.pivCol, pv, k, s.pivots[k]);
        }
      }
    }
  }

  /** A pass keeps the pivot entries nonzero when the zero test decides
      every entry. */
  lemma StepLeadingNonzero(cfg: Config, s: State)
    requires Bookkeeping(cfg, s) && s.pivRow < cfg.rows && s.pivCol < cfg.cols
    requires Sound(cfg) && RecognisesZero(cfg.isZero) && Increasing(cfg, s) && Echelon(cfg, s)
    requires ExactZeroTest(cfg.isZero) && LeadingNonzero(cfg, s)
    ensures Bookkeeping(cfg, Step(cfg, s)) && LeadingNonzero(cfg, Step(cfg, s))
  {
    StepBookkeeping(cfg, s);
    var t := Step(cfg, s);
    if Search(cfg, s).offset.None? {
      WrittenFacts(cfg, s);
    } else {
      PivotValueFacts(cfg, s);
      var pv := PivotValue(cfg, s);
      forall k | 0 <= k < t.pivRow ensures Entry(cfg, t.mat, k, t.pivots[k]) != 0.0 {
        if k == s.pivRow {
          StepNewPivotEntry(cfg, s);
        } else {
          StepOldPivotEntry(cfg, s, k);
          PivotEntryScaled(cfg, Prepared(cfg, s), s.pivRow, s.pivCol, pv, k, s.pivots[k]);
          NonzeroProduct(pv, Entry(cfg, s.mat, k, s.pivots[k]));
        }
      }
    }
  }

  // ---------------------------------------------------------------------
  // The whole loop
  // ---------------------------------------------------------------------

  /** The loop keeps its bookkeeping and stops when it runs out of columns or
      of rows. */
  lemma {:induction false} ReduceBookkeeping(cfg: Config, s: State)
    requires Bookkeeping(cfg, s)
    ensures var t := ReduceFrom(cfg, s);
      Bookkeeping(cfg, t) && (t.pivCol == cfg.cols || t.pivRow == cfg.rows)
    decreases cfg.cols - s.pivCol + cfg.rows - s.pivRow
  {
    if s.pivCol < cfg.cols && s.pivRow < cfg.rows {
      StepBookkeeping(cfg, s);
      ReduceBookkeeping(cfg, Step(cfg, s));
    }
  }

  lemma {:induction false} ReduceIncreasing(cfg: Config, s: State)
    requires Bookkeeping(cfg, s) && RecognisesZero(cfg.isZero) && Increasing(cfg, s)
    ensures Bookkeeping(cfg, ReduceFrom(cfg, s)) && Increasing(cfg, ReduceFrom(cfg, s))
    decreases cfg.cols - s.pivCol + cfg.rows - s.pivRow
  {
    if s.pivCol < cfg.cols && s.pivRow < cfg.rows {
      StepIncreasing(cfg, s);
      ReduceIncreasing(cfg, Step(cfg, s));
    }
  }

  lemma {:induction false} ReduceEchelon(cfg: Config, s: State)
    requires Bookkeeping(cfg, s) && Sound(cfg) && Echelon(cfg, s)
    ensures Bookkeeping(cfg, ReduceFrom(cfg, s)) && Echelon(cfg, ReduceFrom(cfg, s))
    decreases cfg.cols - s.pivCol + cfg.rows - s.pivRow
  {
    if s.pivCol < cfg.cols && s.pivRow < cfg.rows {
      if Search(cfg, s).offset.None? {
        StepEchelonNoPivot(cfg, s);
      } else {
        StepEchelonPivot(cfg, s);
      }
      ReduceEchelon(cfg, Step(cfg, s));
    }
  }

  lemma {:induction false} ReduceCleared(cfg: Config, s: State)
    requires Bookkeeping(cfg, s) && Sound(cfg) && RecognisesZero(cfg.isZero) && cfg.zeroAbove
    requires Increasing(cfg, s) && Echelon(cfg, s) && Cleared(cfg, s)
    ensures Bookkeeping(cfg, ReduceFrom(cfg, s)) && Cleared(cfg, ReduceFrom(cfg, s))
    decreases cfg.cols - s.pivCol + cfg.rows - s.pivRow
  {
    if s.pivCol < cfg.cols && s.pivRow < cfg.rows {
      StepIncreasing(cfg, s);
      if Search(cfg, s).offset.None? {
        StepEchelonNoPivot(cfg, s);
      } else {
        StepEchelonPivot(cfg, s);
        StepClearedPivot(cfg, s);
      }
      ReduceCleared(cfg, Step(cfg, s));
    }
  }

  lemma {:induction false} ReducePivotEntries(cfg: Config, s: State)
    requires Bookkeeping(cfg, s) && Sound(cfg) && RecognisesZero(cfg.isZero)
    requires Increasing(cfg, s) && Echelon(cfg, s)
    ensures Bookkeeping(cfg, ReduceFrom(cfg, s))
    ensures !cfg.normalizeLast && UnitPivots(cfg, s) ==> UnitPivots(cfg, ReduceFrom(cfg, s))
    ensures ExactZeroTest(cfg.isZero) && LeadingNonzero(cfg, s) ==> LeadingNonzero(cfg, ReduceFrom(cfg, s))
    decreases cfg.cols - s.pivCol + cfg.rows - s.pivRow
  {
    if s.pivCol < cfg.cols && s.pivRow < cfg.rows {
      StepIncreasing(cfg, s);
      StepBookkeeping(cfg, s);
      if !cfg.normalizeLast && UnitPivots(cfg, s) {
        StepUnitPivots(cfg, s);
      }
      if ExactZeroTest(cfg.isZero) && LeadingNonzero(cfg, s) {
        StepLeadingNonzero(cfg, s);
      }
      if Search(cfg, s).offset.None? {
        StepEchelonNoPivot(cfg, s);
      } else {
        StepEchelonPivot(cfg, s);
      }
      ReducePivotEntries(cfg, Step(cfg, s));
    }
  }

  // ---------------------------------------------------------------------
  // Normalising the pivot rows at the end
  // ---------------------------------------------------------------------

  predicate PivotsFit(cfg: Config, pivots: seq<nat>)
  {
    |pivots| <= cfg.rows && forall a | 0 <= a < |pivots| :: pivots[a] < cfg.cols
  }

  /** `for piv_i, piv_j in enumerate(pivot_cols)` from `piv_i == k` on: the
      pivot becomes 1 and the rest of its row is divided by it. */
  function NormalizeFrom(cfg: Config, mat: seq<real>, pivots: seq<nat>, k: nat): (m: seq<real>)
    requires |mat| == cfg.rows * cfg.cols && PivotsFit(cfg, pivots) && k <= |pivots|
    ensures |m| == |mat|
    decreases |pivots| - k
  {
    if k == |pivots| then mat
    else
      var pv := Entry(cfg, mat, k, pivots[k]);
      NormalizeFrom(cfg, NormalizeRow(mat, cfg.rows, cfg.cols, k, pivots[k], pv), pivots, k + 1)
  }

  /** Row r of the result, for r from k on: its pivot is 1 and the entries
      right of it are divided by its pivot as it stood; nothing else moves. */
  lemma {:induction false} NormalizeFromEntry(cfg: Config, mat: seq<real>, pivots: seq<nat>, k: nat, r: nat, c: nat)
    requires |mat| == cfg.rows * cfg.cols && PivotsFit(cfg, pivots) && k <= |pivots|
    requires r < cfg.rows && c < cfg.cols
    ensures Entry(cfg, NormalizeFrom(cfg, mat, pivots, k), r, c) ==
      if k <= r < |pivots| && c == pivots[r] then 1.0
      else if k <= r < |pivots| && c > pivots[r] then Quot(Entry(cfg, mat, r, c), Entry(cfg, mat, r, pivots[r]))
      else Entry(cfg, mat, r, c)
    decreases |pivots| - k
  {
    if k < |pivots| {
      var pv := Entry(cfg, mat, k, pivots[k]);
      var next := NormalizeRow(mat, cfg.rows, cfg.cols, k, pivots[k], pv);
      NormalizeRowAt(mat, cfg.rows, cfg.cols, k, pivots[k], pv);
      NormalizeFromEntry(cfg, next, pivots, k + 1, r, c);
      if r > k && r < |pivots| {
        assert Entry(cfg, next, r, pivots[r]) == Entry(cfg, mat, r, pivots[r]);
      }
    }
  }

  /** The final normalising loop of `_row_reduce`. */
  method NormalizePivotRows(cfg: Config, mat: seq<real>, pivots: seq<nat>) returns (m: seq<real>)
    requires |mat| == cfg.rows * cfg.cols && PivotsFit(cfg, pivots)
    ensures m == NormalizeFrom(cfg, mat, pivots, 0)
  {
    m := mat;
    var k := 0;
    while k < |pivots|
      invariant k <= |pivots| && |m| == |mat|
      invariant NormalizeFrom(cfg, m, pivots, k) == NormalizeFrom(cfg, mat, pivots, 0)
    {
      var pivotVal := Entry(cfg, m, k, pivots[k]);
      ghost var before := m;
      m := NormalizePivotRow(m, cfg.rows, cfg.cols, k, pivots[k], pivotVal);
      assert NormalizeFrom(cfg, before, pivots, k) == NormalizeFrom(cfg, m, pivots, k + 1);
      k := k + 1;
    }
  }

  // ---------------------------------------------------------------------
  // The null space the loops keep
  // ---------------------------------------------------------------------

  /** With a nonzero pivot value, the zeroing loop keeps the null space:
      every row it cancels is pv*row - val*pivot_row, with the pivot row
      itself left in place. */
  lemma {:induction false} EliminateNull(cfg: Config, mat: seq<real>, pivRow: nat, pivCol: nat, pv: real,
                                         row: nat, v: seq<real>)
    requires |mat| == cfg.rows * cfg.cols && pivRow < cfg.rows && pivCol < cfg.cols && row <= cfg.rows
    requires pv != 0.0 && |v| == cfg.cols
    ensures FlatAnnihilates(EliminateFrom(cfg, mat, pivRow, pivCol, pv, row), cfg.rows, cfg.cols, v) <==>
      FlatAnnihilates(mat, cfg.rows, cfg.cols, v)
    decreases cfg.rows - row
  {
    if row < cfg.rows {
      var next :=
        if Cancels(cfg, mat, pivRow, pivCol, row)
        then CrossCancel(mat, cfg.rows, cfg.cols, pv, row, Entry(cfg, mat, row, pivCol), pivRow)
        else mat;
      if Cancels(cfg, mat, pivRow, pivCol, row) {
        CrossCancelNull(mat, cfg.rows, cfg.cols, pv, row, Entry(cfg, mat, row, pivCol), pivRow, v);
      }
      EliminateNull(cfg, next, pivRow, pivCol, pv, row + 1, v);
    }
  }

  /** When the zero test decides every entry, the search writes nothing back. */
  lemma ExactWritten(cfg: Config, s: State)
    requires Fits(cfg, s) && s.pivRow < cfg.rows && s.pivCol < cfg.cols && ExactZeroTest(cfg.isZero)
    ensures Written(cfg, s) == s.mat
  {
    var col := ColumnFrom(s.mat, cfg.rows, cfg.cols, s.pivCol, s.pivRow);
    ExactSearchAssumesNothing(col, cfg.isZero, cfg.simplify, cfg.equalsZero);
  }

  /** Before the zeroing loop, with exact tests and the echelon form so far:
      the pivot row is the found row, zero left of the pivot column and
      holding the nonzero pivot value, and swapping and normalising it kept
      the null space. */
  lemma PreparedNull(cfg: Config, s: State, v: seq<real>)
    requires Bookkeeping(cfg, s) && s.pivRow < cfg.rows && s.pivCol < cfg.cols && Search(cfg, s).offset.Some?
    requires Sound(cfg) && ExactZeroTest(cfg.isZero) && Echelon(cfg, s) && |v| == cfg.cols
    ensures FlatAnnihilates(Prepared(cfg, s), cfg.rows, cfg.cols, v) <==> FlatAnnihilates(s.mat, cfg.rows, cfg.cols, v)
  {
    ExactWritten(cfg, s);
    WrittenPivot(cfg, s);
    var col := ColumnFrom(s.mat, cfg.rows, cfg.cols, s.pivCol, s.pivRow);
    ReasonablePivotSound(col, cfg.isZero, cfg.simplify, cfg.equalsZero);
    ExactSearchAssumesNothing(col, cfg.isZero, cfg.simplify, cfg.equalsZero);
    var j := PivotRowFound(cfg, s);
    var pv := Search(cfg, s).value.value;
    assert pv != 0.0;
    var m2 := if j != s.pivRow then SwapRows(s.mat, cfg.rows, cfg.cols, s.pivRow, j) else s.mat;
    if j != s.pivRow {
      SwapRowsNull(s.mat, cfg.rows, cfg.cols, s.pivRow, j, v);
    }
    if !cfg.normalizeLast {
      assert Prepared(cfg, s) == NormalizeRow(m2, cfg.rows, cfg.cols, s.pivRow, s.pivCol, pv);
      forall c | 0 <= c < s.pivCol ensures FlatAt(m2, cfg.rows, cfg.cols, s.pivRow, c) == 0.0 {
        SwapRowsEntry(s.mat, cfg.rows, cfg.cols, s.pivRow, j, s.pivRow, c);
        assert Entry(cfg, s.mat, j, c) == 0.0;
      }
      SwapRowsEntry(s.mat, cfg.rows, cfg.cols, s.pivRow, j, s.pivRow, s.pivCol);
      NormalizeRowNull(m2, cfg.rows, cfg.cols, s.pivRow, s.pivCol, pv, v);
    }
  }

  /** With exact tests, a pass keeps the null space. */
  lemma StepNull(cfg: Config, s: State, v: seq<real>)
    requires Bookkeeping(cfg, s) && s.pivRow < cfg.rows && s.pivCol < cfg.cols
    requires Sound(cfg) && ExactZeroTest(cfg.isZero) && Echelon(cfg, s) && |v| == cfg.cols
    ensures FlatAnnihilates(Step(cfg, s).mat, cfg.rows, cfg.cols, v) <==> FlatAnnihilates(s.mat, cfg.rows, cfg.cols, v)
  {
    ExactWritten(cfg, s);
    if Search(cfg, s).offset.Some? {
      PreparedNull(cfg, s, v);
      PivotValueFacts(cfg, s);
      EliminateNull(cfg, Prepared(cfg, s), s.pivRow, s.pivCol, PivotValue(cfg, s), 0, v);
    }
  }

  /** With exact tests, the whole loop keeps the null space. */
  lemma {:induction false} ReduceNull(cfg: Config, s: State, v: seq<real>)
    requires Bookkeeping(cfg, s) && Sound(cfg) && ExactZeroTest(cfg.isZero) && Echelon(cfg, s) && |v| == cfg.cols
    ensures FlatAnnihilates(ReduceFrom(cfg, s).mat, cfg.rows, cfg.cols, v) <==> FlatAnnihilates(s.mat, cfg.rows, cfg.cols, v)
    decreases cfg.cols - s.pivCol + cfg.rows - s.pivRow
  {
    if s.pivCol < cfg.cols && s.pivRow < cfg.rows {
      StepNull(cfg, s, v);
      if Search(cfg, s).offset.None? {
        StepEchelonNoPivot(cfg, s);
      } else {
        StepEchelonPivot(cfg, s);
      }
      ReduceNull(cfg, Step(cfg, s), v);
    }
  }

  /** Every pivot row from k on is zero left of its pivot and nonzero there. */
  ghost predicate PivotRowsLead(cfg: Config, mat: seq<real>, pivots: seq<nat>, k: nat)
    requires |mat| == cfg.rows * cfg.cols && PivotsFit(cfg, pivots)
  {
    forall r | k <= r < |pivots| ::
      Entry(cfg, mat, r, pivots[r]) != 0.0 && forall c | 0 <= c < pivots[r] :: Entry(cfg, mat, r, c) == 0.0
  }

  /** Normalising pivot row k leaves the later pivot rows as they were. */
  lemma NormalizeKeepsLead(cfg: Config, mat: seq<real>, pivots: seq<nat>, k: nat)
    requires |mat| == cfg.rows * cfg.cols && PivotsFit(cfg, pivots) && k < |pivots|
    requires PivotRowsLead(cfg, mat, pivots, k)
    ensures PivotRowsLead(cfg, NormalizeRow(mat, cfg.rows, cfg.cols, k, pivots[k], Entry(cfg, mat, k, pivots[k])), pivots, k + 1)
  {
    var next := NormalizeRow(mat, cfg.rows, cfg.cols, k, pivots[k], Entry(cfg, mat, k, pivots[k]));
    forall r | k < r < |pivots|
      ensures Entry(cfg, next, r, pivots[r]) != 0.0 && forall c | 0 <= c < pivots[r] :: Entry(cfg, next, r, c) == 0.0
    {
      NormalizeKeepsRow(mat, cfg.rows, cfg.cols, k, pivots[k], Entry(cfg, mat, k, pivots[k]), r);
      SameRowEntries(cfg, mat, next, r);
    }
  }

  lemma SameRowEntries(cfg: Config, a: seq<real>, b: seq<real>, r: nat)
    requires |a| == cfg.rows * cfg.cols && |b| == cfg.rows * cfg.cols && r < cfg.rows
    requires RowOf(a, cfg.rows, cfg.cols, r) == RowOf(b, cfg.rows, cfg.cols, r)
    ensures forall c | 0 <= c < cfg.cols :: Entry(cfg, a, r, c) == Entry(cfg, b, r, c)
  {
    RowOfAt(a, cfg.rows, cfg.cols, r);
    RowOfAt(b, cfg.rows, cfg.cols, r);
  }

  /** Pivot row k is zero left of its pivot and nonzero there. */
  lemma LeadingRow(cfg: Config, mat: seq<real>, pivots: seq<nat>, k: nat)
    requires |mat| == cfg.rows * cfg.cols && PivotsFit(cfg, pivots) && k < |pivots|
    requires PivotRowsLead(cfg, mat, pivots, k)
    ensures FlatAt(mat, cfg.rows, cfg.cols, k, pivots[k]) != 0.0
    ensures forall c | 0 <= c < pivots[k] :: FlatAt(mat, cfg.rows, cfg.cols, k, c) == 0.0
  {
    forall c | 0 <= c < pivots[k] ensures FlatAt(mat, cfg.rows, cfg.cols, k, c) == 0.0 {
      assert Entry(cfg, mat, k, c) == 0.0;
    }
  }

  /** Dividing each pivot row by its nonzero leading entry keeps the null space. */
  lemma {:induction false} NormalizeFromNull(cfg: Config, mat: seq<real>, pivots: seq<nat>, k: nat, v: seq<real>)
    requires |mat| == cfg.rows * cfg.cols && PivotsFit(cfg, pivots) && k <= |pivots| && |v| == cfg.cols
    requires PivotRowsLead(cfg, mat, pivots, k)
    ensures FlatAnnihilates(NormalizeFrom(cfg, mat, pivots, k), cfg.rows, cfg.cols, v) <==>
      FlatAnnihilates(mat, cfg.rows, cfg.cols, v)
    decreases |pivots| - k
  {
    if k < |pivots| {
      var pv := Entry(cfg, mat, k, pivots[k]);
      var next := NormalizeRow(mat, cfg.rows, cfg.cols, k, pivots[k], pv);
      LeadingRow(cfg, mat, pivots, k);
      NormalizeRowNull(mat, cfg.rows, cfg.cols, k, pivots[k], pv, v);
      NormalizeKeepsLead(cfg, mat, pivots, k);
      NormalizeFromNull(cfg, next, pivots, k + 1, v);
    }
  }

  // ---------------------------------------------------------------------
  // _row_reduce
  // ---------------------------------------------------------------------

  function ConfigOf(m: Mat, isZero: ZeroTest, simplify: real -> real, equalsZero: real -> bool,
                    normalizeLast: bool, zeroAbove: bool): Config
  {
    Config(m.rows, m.cols, isZero, simplify, equalsZero, normalizeLast, zeroAbove)
  }

  /** `mat = list(self)` with nothing found yet. */
  function Start(m: Mat): State
  {
    State(Flatten(m), 0, 0, [], [])
  }

  /** The result of `_row_reduce`: the reduced matrix, the pivot columns and
      the recorded swaps. */
  function RowReduced(m: Mat, isZero: ZeroTest, simplify: real -> real, equalsZero: real -> bool,
                      normalizeLast: bool, normalize: bool, zeroAbove: bool): (res: (Mat, seq<nat>, seq<(nat, nat)>))
    ensures res.0.rows == m.rows && res.0.cols == m.cols
    ensures |res.1| <= m.rows && forall a | 0 <= a < |res.1| :: res.1[a] < m.cols
  {
    var cfg := ConfigOf(m, isZero, simplify, equalsZero, normalizeLast, zeroAbove);
    ReduceBookkeeping(cfg, Start(m));
    var t := ReduceFrom(cfg, Start(m));
    var mat := if normalizeLast && normalize then NormalizeFrom(cfg, t.mat, t.pivots, 0) else t.mat;
    (Unflatten(m.rows, m.cols, mat), t.pivots, t.swaps)
  }

  // ---------------------------------------------------------------------
  // What _row_reduce promises
  // ---------------------------------------------------------------------

  /** The loop's invariants hold before its first pass. */
  lemma StartFacts(cfg: Config, m: Mat)
    requires cfg.rows == m.rows && cfg.cols == m.cols
    ensures Bookkeeping(cfg, Start(m)) && Increasing(cfg, Start(m)) && Echelon(cfg, Start(m))
    ensures Cleared(cfg, Start(m)) && UnitPivots(cfg, Start(m)) && LeadingNonzero(cfg, Start(m))
  {
  }

  /** Every recorded swap (i, j) exchanges the pivot row i of its pass with a
      later row j, and the swaps come in increasing order of i. */
  lemma RowReduceBookkeeping(m: Mat, isZero: ZeroTest, simplify: real -> real, equalsZero: real -> bool,
                             normalizeLast: bool, normalize: bool, zeroAbove: bool)
    ensures var res := RowReduced(m, isZero, simplify, equalsZero, normalizeLast, normalize, zeroAbove);
      var pivots, swaps := res.1, res.2;
      (forall a | 0 <= a < |swaps| :: swaps[a].0 < swaps[a].1 < m.rows && swaps[a].0 < |pivots|) &&
      (forall a, b | 0 <= a < b < |swaps| :: swaps[a].0 < swaps[b].0)
  {
    ReduceBookkeeping(ConfigOf(m, isZero, simplify, equalsZero, normalizeLast, zeroAbove), Start(m));
  }

  /** With a zero test that recognises a literal 0, the pivot columns are
      strictly increasing, so there are at most min(rows, cols) of them. */
  lemma RowReducePivotsIncrease(m: Mat, isZero: ZeroTest, simplify: real -> real, equalsZero: real -> bool,
                                normalizeLast: bool, normalize: bool, zeroAbove: bool)
    requires RecognisesZero(isZero)
    ensures var pivots := RowReduced(m, isZero, simplify, equalsZero, normalizeLast, normalize, zeroAbove).1;
      (forall a, b | 0 <= a < b < |pivots| :: pivots[a] < pivots[b]) &&
      |pivots| <= m.rows && |pivots| <= m.cols
  {
    var cfg := ConfigOf(m, isZero, simplify, equalsZero, normalizeLast, zeroAbove);
    StartFacts(cfg, m);
    ReduceIncreasing(cfg, Start(m));
    var t := ReduceFrom(cfg, Start(m));
    if |t.pivots| > 0 {
      assert |t.pivots| - 1 <= t.pivots[|t.pivots| - 1] < m.cols;
    }
  }

  /** The final normalisation, read at an entry of the reduced matrix. */
  lemma NormalizedEntry(cfg: Config, t: State, normalize: bool, i: nat, j: nat)
    requires Bookkeeping(cfg, t) && i < cfg.rows && j < cfg.cols
    ensures var mat := if normalize then NormalizeFrom(cfg, t.mat, t.pivots, 0) else t.mat;
      (!normalize || i >= |t.pivots| || j < t.pivots[i] ==> Entry(cfg, mat, i, j) == Entry(cfg, t.mat, i, j)) &&
      (normalize && i < |t.pivots| && j == t.pivots[i] ==> Entry(cfg, mat, i, j) == 1.0) &&
      (normalize && i < |t.pivots| && j > t.pivots[i] ==>
        Entry(cfg, mat, i, j) == Quot(Entry(cfg, t.mat, i, j), Entry(cfg, t.mat, i, t.pivots[i])))
  {
    if normalize {
      NormalizeFromEntry(cfg, t.mat, t.pivots, 0, i, j);
    }
  }

  /** With trustworthy tests the result is in echelon form: the rows after
      the last pivot row are zero and every pivot row is zero left of its
      pivot. When the zero test decides every entry (integer or rational
      entries), no pivot is ever assumed and every pivot entry is nonzero. */
  lemma RowReduceEchelon(m: Mat, isZero: ZeroTest, simplify: real -> real, equalsZero: real -> bool,
                         normalizeLast: bool, normalize: bool, zeroAbove: bool)
    requires SoundZeroTest(isZero) && PreservesZero(simplify) && SoundEqualsZero(equalsZero)
    ensures var res := RowReduced(m, isZero, simplify, equalsZero, normalizeLast, normalize, zeroAbove);
      var r, pivots := res.0, res.1;
      (forall i, j | |pivots| <= i < m.rows && 0 <= j < m.cols :: r.e[i][j] == 0.0) &&
      (forall k, j | 0 <= k < |pivots| && 0 <= j < pivots[k] :: r.e[k][j] == 0.0) &&
      (ExactZeroTest(isZero) ==> forall k | 0 <= k < |pivots| :: r.e[k][pivots[k]] != 0.0)
  {
    var cfg := ConfigOf(m, isZero, simplify, equalsZero, normalizeLast, zeroAbove);
    StartFacts(cfg, m);
    ReduceBookkeeping(cfg, Start(m));
    ReduceEchelon(cfg, Start(m));
    var t := ReduceFrom(cfg, Start(m));
    var res := RowReduced(m, isZero, simplify, equalsZero, normalizeLast, normalize, zeroAbove);
    var r := res.0;
    var nl := normalizeLast && normalize;
    assert forall i, j | 0 <= i < m.rows && 0 <= j < m.cols ::
      r.e[i][j] == Entry(cfg, if nl then NormalizeFrom(cfg, t.mat, t.pivots, 0) else t.mat, i, j);
    forall i, j | |t.pivots| <= i < m.rows && 0 <= j < m.cols ensures r.e[i][j] == 0.0 {
      NormalizedEntry(cfg, t, nl, i, j);
    }
    forall k, j | 0 <= k < |t.pivots| && 0 <= j < t.pivots[k] ensures r.e[k][j] == 0.0 {
      NormalizedEntry(cfg, t, nl, k, j);
    }
    if ExactZeroTest(isZero) {
      assert RecognisesZero(isZero);
      ReduceIncreasing(cfg, Start(m));
      ReducePivotEntries(cfg, Start(m));
      forall k | 0 <= k < |t.pivots| ensures r.e[k][t.pivots[k]] != 0.0 {
        NormalizedEntry(cfg, t, nl, k, t.pivots[k]);
      }
    }
  }

  /** With trustworthy tests that recognise a literal 0, zeroing above as
      well as below and normalising gives reduced row echelon form: every
      pivot entry is 1 and every other entry of a pivot column is 0, whether
      the rows are normalised last or before zeroing. */
  lemma RowReduceReduced(m: Mat, isZero: ZeroTest, simplify: real -> real, equalsZero: real -> bool, normalizeLast: bool)
    requires SoundZeroTest(isZero) && PreservesZero(simplify) && SoundEqualsZero(equalsZero) && RecognisesZero(isZero)
    ensures var res := RowReduced(m, isZero, simplify, equalsZero, normalizeLast, true, true);
      var r, pivots := res.0, res.1;
      (forall k | 0 <= k < |pivots| :: r.e[k][pivots[k]] == 1.0) &&
      (forall k, i | 0 <= k < |pivots| && 0 <= i < m.rows && i != k :: r.e[i][pivots[k]] == 0.0)
  {
    var cfg := ConfigOf(m, isZero, simplify, equalsZero, normalizeLast, true);
    StartFacts(cfg, m);
    ReduceBookkeeping(cfg, Start(m));
    ReduceIncreasing(cfg, Start(m));
    ReduceCleared(cfg, Start(m));
    ReducePivotEntries(cfg, Start(m));
    var t := ReduceFrom(cfg, Start(m));
    var res := RowReduced(m, isZero, simplify, equalsZero, normalizeLast, true, true);
    var r := res.0;
    assert forall i, j | 0 <= i < m.rows && 0 <= j < m.cols ::
      r.e[i][j] == Entry(cfg, if normalizeLast then NormalizeFrom(cfg, t.mat, t.pivots, 0) else t.mat, i, j);
    forall k | 0 <= k < |t.pivots| ensures r.e[k][t.pivots[k]] == 1.0 {
      NormalizedEntry(cfg, t, normalizeLast, k, t.pivots[k]);
    }
    forall k, i | 0 <= k < |t.pivots| && 0 <= i < m.rows && i != k ensures r.e[i][t.pivots[k]] == 0.0 {
      NormalizedEntry(cfg, t, normalizeLast, i, t.pivots[k]);
      if i < |t.pivots| {
        assert k < i || i < k;
      }
    }
  }

  /** When the zero test decides every entry (integer or rational entries),
      the result is row-equivalent to the input: swapping rows,
      `cross_cancel` with a nonzero pivot value and dividing a row by its
      nonzero pivot are all invertible, so exactly the same vectors are
      annihilated by the result and by the input. */
  lemma RowReduceKeepsNullspace(m: Mat, isZero: ZeroTest, simplify: real -> real, equalsZero: real -> bool,
                                normalizeLast: bool, normalize: bool, zeroAbove: bool)
    requires ExactZeroTest(isZero) && PreservesZero(simplify) && SoundEqualsZero(equalsZero)
    ensures SameNullspace(RowReduced(m, isZero, simplify, equalsZero, normalizeLast, normalize, zeroAbove).0, m)
  {
    var cfg := ConfigOf(m, isZero, simplify, equalsZero, normalizeLast, zeroAbove);
    assert SoundZeroTest(isZero) && RecognisesZero(isZero);
    StartFacts(cfg, m);
    ReduceBookkeeping(cfg, Start(m));
    ReduceIncreasing(cfg, Start(m));
    ReduceEchelon(cfg, Start(m));
    ReducePivotEntries(cfg, Start(m));
    var t := ReduceFrom(cfg, Start(m));
    var nl := normalizeLast && normalize;
    var mat := if nl then NormalizeFrom(cfg, t.mat, t.pivots, 0) else t.mat;
    assert RowReduced(m, isZero, simplify, equalsZero, normalizeLast, normalize, zeroAbove).0 == Unflatten(m.rows, m.cols, mat);
    UnflattenFlatten(m);
    forall v | |v| == m.cols
      ensures Annihilates(Unflatten(m.rows, m.cols, mat), v) <==> Annihilates(m, v)
    {
      ReduceNull(cfg, Start(m), v);
      if nl {
        NormalizeFromNull(cfg, t.mat, t.pivots, 0, v);
      }
      UnflattenAnnihilates(mat, m.rows, m.cols, v);
      UnflattenAnnihilates(Flatten(m), m.rows, m.cols, v);
    }
  }

  /** `_row_reduce`, loop by loop on the flat list. */
  method RowReduce(m: Mat, isZero: ZeroTest, simplify: real -> real, equalsZero: real -> bool,
                   normalizeLast: bool, normalize: bool, zeroAbove: bool)
    returns (reduced: Mat, pivots: seq<nat>, swaps: seq<(nat, nat)>)
    ensures (reduced, pivots, swaps) == RowReduced(m, isZero, simplify, equalsZero, normalizeLast, normalize, zeroAbove)
  {
    var cfg := ConfigOf(m, isZero, simplify, equalsZero, normalizeLast, zeroAbove);
    var rows, cols := m.rows, m.cols;
    var mat := Flatten(m);
    var pivRow, pivCol := 0, 0;
    pivots, swaps := [], [];
    ghost var target := ReduceFrom(cfg, Start(m));
    while pivCol < cols && pivRow < rows
      invariant Fits(cfg, State(mat, pivRow, pivCol, pivots, swaps))
      invariant ReduceFrom(cfg, State(mat, pivRow, pivCol, pivots, swaps)) == target
      decreases cols - pivCol + rows - pivRow
    {
      ghost var s := State(mat, pivRow, pivCol, pivots, swaps);
      var col := ColumnFrom(mat, rows, cols, pivCol, pivRow);
      var r := FindReasonablePivot(col, isZero, simplify, equalsZero);
      ReasonablePivotWriteBack(col, isZero, simplify, equalsZero);
      mat := WriteBackNewly(mat, rows, cols, pivRow, pivCol, r.newlyDetermined);
      assert mat == Written(cfg, s);
      if r.offset.None? {
        pivCol := pivCol + 1;
        assert State(mat, pivRow, pivCol, pivots, swaps) == Step(cfg, s);
        continue;
      }
      pivots := pivots + [pivCol];
      var pivotVal := r.value.value;
      var j := pivRow + r.offset.value;
      assert j == PivotRowFound(cfg, s);
      if r.offset.value != 0 {
        mat := SwapRows(mat, rows, cols, pivRow, j);
        swaps := swaps + [(pivRow, j)];
      }
      if !normalizeLast {
        mat := NormalizePivotRow(mat, rows, cols, pivRow, pivCol, pivotVal);
        pivotVal := 1.0;
      }
      assert mat == Prepared(cfg, s) && pivotVal == PivotValue(cfg, s);
      mat := ZeroPivotColumn(cfg, mat, pivRow, pivCol, pivotVal);
      pivRow := pivRow + 1;
      assert State(mat, pivRow, pivCol, pivots, swaps) == Step(cfg, s);
    }
    if normalizeLast && normalize {
      ReduceBookkeeping(cfg, Start(m));
      mat := NormalizePivotRows(cfg, mat, pivots);
    }
    reduced := Unflatten(rows, cols, mat);
  }
}
