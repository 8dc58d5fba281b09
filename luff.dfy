/** `LUdecompositionFF`: the fraction-free factorisation P*A = L*D^-1*U of
    Zhou and Jeffrey. The four matrices the source updates in its nested
    loops are matrix values here, reassigned by methods that follow those
    loops, and each pass over a pivot row is proved equal to a
    specification function. The lemmas state the shape the source's
    docstring promises: P a permutation matrix, L lower triangular with the
    pivots on its diagonal, D diagonal with the products of consecutive
    pivots, U upper triangular with the same pivots on its diagonal. */
module FractionFree {
  import opened Common
  import opened Matrices
  import opened LUFactor
  import opened Determinants

  /** `(P, L, DD, U, oldpivot)` between two passes of `for k in range(n - 1)`. */
  datatype FFState = FFState(p: Mat, l: Mat, d: Mat, u: Mat, oldPivot: real)

  /** The shapes the source creates: P, L and DD are n x n, U is the input's shape. */
  predicate Shaped(s: FFState, n: nat, m: nat)
  {
    s.p.rows == n && s.p.cols == n && s.l.rows == n && s.l.cols == n &&
    s.d.rows == n && s.d.cols == n && s.u.rows == n && s.u.cols == m
  }

  /** `U, L, P = self.as_mutable(), eye(n), eye(n)`, `DD = zeros(n, n)`, `oldpivot = 1`. */
  function Start(a: Mat): (s: FFState)
    ensures Shaped(s, a.rows, a.cols)
  {
    FFState(Identity(a.rows), Identity(a.rows), Zeros(a.rows, a.rows), a, 1.0)
  }

  /** The `for kpivot in range(k + 1, n): if U[kpivot, k]: break` search,
      from `from` on; None is the `else` branch. */
  function NonzeroBelow(u: Mat, k: nat, from: nat): (r: Option<nat>)
    requires k < u.cols && from <= u.rows
    ensures r.Some? ==> from <= r.value < u.rows && u.e[r.value][k] != 0.0
    ensures r.Some? ==> forall i | from <= i < r.value :: u.e[i][k] == 0.0
    ensures r.None? ==> forall i | from <= i < u.rows :: u.e[i][k] == 0.0
    decreases u.rows - from
  {
    if from == u.rows then None
    else if u.e[from][k] != 0.0 then Some(from)
    else NonzeroBelow(u, k, from + 1)
  }

  /** The exchange of rows `k` and `kpivot`: U from column k on, L before
      column k, P entirely. */
  function Exchange(s: FFState, k: nat, kp: nat): (r: FFState)
    requires k < kp < s.u.rows && s.l.rows == s.u.rows && s.p.rows == s.u.rows
    ensures r.d == s.d && r.oldPivot == s.oldPivot
    ensures r.u.rows == s.u.rows && r.u.cols == s.u.cols && r.l.rows == s.l.rows && r.l.cols == s.l.cols
    ensures r.p.rows == s.p.rows && r.p.cols == s.p.cols
  {
    FFState(SwapParts(s.p, k, kp, 0, 0), SwapParts(s.l, k, kp, k, s.l.cols), s.d, SwapParts(s.u, k, kp, 0, k), s.oldPivot)
  }

  /** `(Ukk*U[i, j] - U[k, j]*Uik) / oldpivot`, the fraction-free update of
      one entry, as a division of reals (that it is exact over an integral
      domain is not part of this model). */
  function CondensedEntry(ukk: real, uij: real, ukj: real, uik: real, prev: real): real
    requires prev != 0.0
  {
    (ukk * uij - ukj * uik) / prev
  }

  /** Row `row` of U below pivot row `pivot` after the inner loop has reached
      column `j`: the entries of columns `k < c < j` condensed. */
  function PartlyCondensed(pivot: seq<real>, row: seq<real>, k: nat, prev: real, j: nat): (r: seq<real>)
    requires |pivot| == |row| && k < |row| && prev != 0.0
    ensures |r| == |row|
  {
    seq(|row|, c requires 0 <= c < |row| =>
      if k < c < j then CondensedEntry(pivot[k], row[c], pivot[c], row[k], prev) else row[c])
  }

  /** The row after its pass, with `U[i, k] = 0` at the end. */
  function CondensedRow(pivot: seq<real>, row: seq<real>, k: nat, prev: real): (r: seq<real>)
    requires |pivot| == |row| && k < |row| && prev != 0.0
    ensures |r| == |row|
  {
    PartlyCondensed(pivot, row, k, prev, |row|)[k := 0.0]
  }

  /** U and L after rows `k + 1 .. t - 1` were processed: each such row of U
      condensed against row k, and its old entry in column k stored in L. */
  function CondensedUpTo(s: FFState, k: nat, t: nat): (r: FFState)
    requires k < s.u.rows && k < s.u.cols && s.l.rows == s.u.rows && s.l.cols == s.u.rows && s.oldPivot != 0.0
    ensures r.p == s.p && r.d == s.d && r.oldPivot == s.oldPivot
    ensures r.u.rows == s.u.rows && r.u.cols == s.u.cols && r.l.rows == s.l.rows && r.l.cols == s.l.cols
  {
    var u := Matrix(s.u.rows, s.u.cols, seq(s.u.rows, i requires 0 <= i < s.u.rows =>
      if k < i < t then CondensedRow(s.u.e[k], s.u.e[i], k, s.oldPivot) else s.u.e[i]));
    var l := Matrix(s.l.rows, s.l.cols, seq(s.l.rows, i requires 0 <= i < s.l.rows =>
      if k < i < t then s.l.e[i][k := s.u.e[i][k]] else s.l.e[i]));
    FFState(s.p, l, s.d, u, s.oldPivot)
  }

  /** `oldpivot*U[k, k]`, the entry pass k stores on the diagonal of DD. */
  function DDEntry(prev: real, ukk: real): real
  {
    prev * ukk
  }

  /** The rest of pass k once `U[k, k]` is a nonzero pivot: `L[k, k] = Ukk`,
      `DD[k, k] = oldpivot*Ukk`, the rows below condensed, `oldpivot = Ukk`. */
  function Condense(s: FFState, k: nat, n: nat, m: nat): (r: FFState)
    requires Shaped(s, n, m) && k < n && k < m && s.oldPivot != 0.0
    ensures Shaped(r, n, m) && r.oldPivot == s.u.e[k][k]
  {
    var ukk := s.u.e[k][k];
    var l := SetEntry(s.l, k, k, ukk);
    var d := SetEntry(s.d, k, k, DDEntry(s.oldPivot, s.u.e[k][k]));
    var s3 := CondensedUpTo(FFState(s.p, l, d, s.u, s.oldPivot), k, n);
    FFState(s3.p, s3.l, s3.d, s3.u, ukk)
  }

  /** The state after `Condense`, row by row. */
  lemma CondenseRows(s: FFState, k: nat, n: nat, m: nat)
    requires Shaped(s, n, m) && k < n && k < m && s.oldPivot != 0.0
    ensures var r := Condense(s, k, n, m);
      r.p == s.p && r.d == SetEntry(s.d, k, k, DDEntry(s.oldPivot, s.u.e[k][k])) &&
      (forall i | 0 <= i < k :: r.l.e[i] == s.l.e[i] && r.u.e[i] == s.u.e[i]) &&
      r.l.e[k] == s.l.e[k][k := s.u.e[k][k]] && r.u.e[k] == s.u.e[k] &&
      (forall i | k < i < n ::
        r.l.e[i] == s.l.e[i][k := s.u.e[i][k]] && r.u.e[i] == CondensedRow(s.u.e[k], s.u.e[i], k, s.oldPivot))
  {
  }

  /** One pass of `for k in range(n - 1)`. */
  function Pass(s: FFState, k: nat, n: nat, m: nat): (r: Result<FFState, MatrixError>)
    requires Shaped(s, n, m) && k + 1 < n && s.oldPivot != 0.0
    ensures r.Ok? ==> Shaped(r.value, n, m) && r.value.oldPivot != 0.0
    ensures r.Err? ==> r.error == NotFullRank || (r.error == EntryIndexError && m <= k)
  {
    if m <= k then Err(EntryIndexError)
    else if s.u.e[k][k] != 0.0 then Ok(Condense(s, k, n, m))
    else match NonzeroBelow(s.u, k, k + 1)
      case None => Err(NotFullRank)
      case Some(kp) => Ok(Condense(Exchange(s, k, kp), k, n, m))
  }

  /** The passes from pivot row `k` on. */
  function PassesFrom(s: FFState, k: nat, n: nat, m: nat): (r: Result<FFState, MatrixError>)
    requires Shaped(s, n, m) && s.oldPivot != 0.0 && k < n
    ensures r.Ok? ==> Shaped(r.value, n, m) && r.value.oldPivot != 0.0
    decreases n - k, 1
  {
    if k + 1 == n then Ok(s) else PassThenRest(s, k, n, m)
  }

  /** Pass k, then the passes after it unless pass k failed. */
  function PassThenRest(s: FFState, k: nat, n: nat, m: nat): (r: Result<FFState, MatrixError>)
    requires Shaped(s, n, m) && s.oldPivot != 0.0 && k + 1 < n
    ensures r.Ok? ==> Shaped(r.value, n, m) && r.value.oldPivot != 0.0
    decreases n - k, 0
  {
    match Pass(s, k, n, m)
    case Err(e) => Err(e)
    case Ok(s') => PassesFrom(s', k + 1, n, m)
  }

  /** `LUdecompositionFF()`: `(P, L, DD, U)`, the rank error, or the index
      error that `DD[n - 1, n - 1]` raises on an empty matrix and `U[k, k]`
      raises when a pivot row has no column. */
  function LUFF(a: Mat): Result<(Mat, Mat, Mat, Mat), MatrixError>
  {
    if a.rows == 0 then Err(EntryIndexError)
    else match PassesFrom(Start(a), 0, a.rows, a.cols)
      case Err(e) => Err(e)
      case Ok(s) => Ok((s.p, s.l, SetEntry(s.d, a.rows - 1, a.rows - 1, s.oldPivot), s.u))
  }

  // ---------------------------------------------------------------------
  // What the passes keep
  // ---------------------------------------------------------------------

  /** The unit row vector with its one at `c`. */
  function UnitRow(n: nat, c: nat): (r: seq<real>)
    ensures |r| == n
  {
    seq(n, j requires 0 <= j < n => if j == c then 1.0 else 0.0)
  }

  /** A row of the identity matrix. */
  ghost predicate IsUnitRow(r: seq<real>)
  {
    exists c :: 0 <= c < |r| && r == UnitRow(|r|, c)
  }

  /** Every row of P is a unit row and no two rows are equal: the identity
      with its rows permuted. */
  ghost predicate PermutationMatrix(p: Mat)
  {
    (forall i | 0 <= i < p.rows :: IsUnitRow(p.e[i])) &&
    (forall i, j | 0 <= i < j < p.rows :: p.e[i] != p.e[j])
  }

  /** `oldpivot` before pass `j`: the previous pivot, or 1 before the first. */
  function PrevPivot(l: Mat, j: nat): real
    requires j < l.rows && j < l.cols
  {
    if j == 0 then 1.0 else l.e[j - 1][j - 1]
  }

  /** `DD[j, j] = oldpivot*Ukk` as pass j sets it, read off L's diagonal. */
  function PivotProduct(l: Mat, j: nat): real
    requires j < l.rows && j < l.cols
  {
    DDEntry(PrevPivot(l, j), l.e[j][j])
  }

  /** L after k passes: nothing above the diagonal, nonzero pivots on the
      first k diagonal entries, the identity's columns from k on. */
  ghost predicate LowerWithPivots(l: Mat, k: nat)
  {
    (forall i, j | 0 <= i < j < l.rows && j < l.cols :: l.e[i][j] == 0.0) &&
    (forall j | 0 <= j < k && j < l.rows && j < l.cols :: l.e[j][j] != 0.0) &&
    (forall j | k <= j < l.rows && j < l.cols :: l.e[j][j] == 1.0) &&
    (forall i, j | k <= j < i < l.rows && j < l.cols :: l.e[i][j] == 0.0)
  }

  /** DD after k passes: diagonal, each of the first k entries the product
      of the previous pivot and the pivot, zero from k on. */
  ghost predicate PivotProducts(d: Mat, l: Mat, k: nat)
    requires d.rows == l.rows && d.cols == l.cols
  {
    (forall i, j | 0 <= i < d.rows && 0 <= j < d.cols && i != j :: d.e[i][j] == 0.0) &&
    (forall j | 0 <= j < k && j < d.rows && j < d.cols :: d.e[j][j] == PivotProduct(l, j)) &&
    (forall j | k <= j < d.rows && j < d.cols :: d.e[j][j] == 0.0)
  }

  /** U after k passes: zeros below the diagonal in the first k columns, and
      the pivots of L on its diagonal. */
  ghost predicate ClearedWithPivots(u: Mat, l: Mat, k: nat)
    requires u.rows == l.rows && u.rows == l.cols
  {
    (forall i, c | 0 <= c < k && c < i < u.rows && c < u.cols :: u.e[i][c] == 0.0) &&
    (forall j | 0 <= j < k && j < u.rows && j < u.cols :: u.e[j][j] == l.e[j][j])
  }

  /** Everything the passes keep. */
  ghost predicate Kept(s: FFState, k: nat, n: nat, m: nat)
  {
    Shaped(s, n, m) && k < n && PermutationMatrix(s.p) && LowerWithPivots(s.l, k) &&
    PivotProducts(s.d, s.l, k) && ClearedWithPivots(s.u, s.l, k) && s.oldPivot == PrevPivot(s.l, k)
  }

  lemma StartKept(a: Mat)
    requires 0 < a.rows
    ensures Kept(Start(a), 0, a.rows, a.cols)
  {
    var p := Identity(a.rows);
    forall i | 0 <= i < p.rows
      ensures IsUnitRow(p.e[i])
    {
      assert forall c | 0 <= c < p.cols :: p.e[i][c] == UnitRow(p.cols, i)[c];
      assert p.e[i] == UnitRow(p.cols, i);
    }
    forall i, j | 0 <= i < j < a.rows
      ensures p.e[i] != p.e[j]
    {
      assert p.e[i][i] != p.e[j][i];
    }
    assert PermutationMatrix(p);
    assert LowerWithPivots(Identity(a.rows), 0);
    var d := Zeros(a.rows, a.rows);
    assert forall i, j | 0 <= i < a.rows && 0 <= j < a.rows :: d.e[i][j] == 0.0;
    assert PivotProducts(d, p, 0);
  }

  /** The entries after an exchange of parts of rows i and j. */
  lemma SwapPartsEntries(m: Mat, i: nat, j: nat, pr: nat, pc: nat)
    requires i < m.rows && j < m.rows && i != j
    ensures var r := SwapParts(m, i, j, pr, pc);
      forall a, c | 0 <= a < m.rows && 0 <= c < m.cols ::
        r.e[a][c] == if a == i && (c < pr || pc <= c) then m.e[j][c]
                     else if a == j && (c < pr || pc <= c) then m.e[i][c]
                     else m.e[a][c]
  {
  }

  /** Exchanging whole rows of P keeps it a permutation matrix. */
  lemma ExchangePermutation(p: Mat, k: nat, kp: nat)
    requires k < kp < p.rows && PermutationMatrix(p)
    ensures PermutationMatrix(SwapParts(p, k, kp, 0, 0))
  {
    var q := SwapParts(p, k, kp, 0, 0);
    SwapPartsEntries(p, k, kp, 0, 0);
    assert forall c | 0 <= c < p.cols :: q.e[k][c] == p.e[kp][c];
    assert forall c | 0 <= c < p.cols :: q.e[kp][c] == p.e[k][c];
    forall i | 0 <= i < p.rows && i != k && i != kp
      ensures q.e[i] == p.e[i]
    {
      assert forall c | 0 <= c < p.cols :: q.e[i][c] == p.e[i][c];
    }
    assert q.e[k] == p.e[kp] && q.e[kp] == p.e[k];
    forall i | 0 <= i < q.rows
      ensures IsUnitRow(q.e[i])
    {
      var i' := if i == k then kp else if i == kp then k else i;
      assert q.e[i] == p.e[i'];
    }
    forall i, j | 0 <= i < j < q.rows
      ensures q.e[i] != q.e[j]
    {
      var i' := if i == k then kp else if i == kp then k else i;
      var j' := if j == k then kp else if j == kp then k else j;
      assert q.e[i] == p.e[i'] && q.e[j] == p.e[j'];
      if i' > j' {
        assert p.e[j'] != p.e[i'];
      }
    }
  }

  /** Exchanging the parts of L before column k keeps its shape and diagonal. */
  lemma ExchangeLower(l: Mat, k: nat, kp: nat)
    requires k < kp < l.rows && l.rows == l.cols && LowerWithPivots(l, k)
    ensures var r := SwapParts(l, k, kp, k, l.cols);
      LowerWithPivots(r, k) && forall j | 0 <= j < l.rows :: r.e[j][j] == l.e[j][j]
  {
    SwapPartsEntries(l, k, kp, k, l.cols);
  }

  /** Exchanging the parts of U from column k on keeps its cleared columns. */
  lemma ExchangeCleared(u: Mat, l: Mat, l': Mat, k: nat, kp: nat)
    requires k < kp < u.rows && u.rows == l.rows == l.cols && l'.rows == l.rows && l'.cols == l.cols
    requires ClearedWithPivots(u, l, k) && forall j | 0 <= j < l.rows :: l'.e[j][j] == l.e[j][j]
    ensures ClearedWithPivots(SwapParts(u, k, kp, 0, k), l', k)
  {
    SwapPartsEntries(u, k, kp, 0, k);
  }

  /** DD and oldpivot only read the diagonal of L. */
  lemma SameDiagonal(d: Mat, l: Mat, l': Mat, k: nat)
    requires d.rows == l.rows == l.cols && d.cols == l.cols && l'.rows == l.rows && l'.cols == l.cols
    requires k < l.rows
    requires PivotProducts(d, l, k) && forall j | 0 <= j < l.rows :: l'.e[j][j] == l.e[j][j]
    ensures PivotProducts(d, l', k) && PrevPivot(l', k) == PrevPivot(l, k)
  {
    forall j | 0 <= j < k
      ensures PivotProduct(l', j) == PivotProduct(l, j)
    {
      assert PrevPivot(l', j) == PrevPivot(l, j);
    }
  }

  /** The exchange keeps what the passes keep before pass k. */
  lemma ExchangeKept(s: FFState, k: nat, kp: nat, n: nat, m: nat)
    requires Kept(s, k, n, m) && k < kp < n
    ensures Kept(Exchange(s, k, kp), k, n, m)
  {
    var l' := SwapParts(s.l, k, kp, k, s.l.cols);
    ExchangePermutation(s.p, k, kp);
    ExchangeLower(s.l, k, kp);
    ExchangeCleared(s.u, s.l, l', k, kp);
    SameDiagonal(s.d, s.l, l', k);
  }

  /** The entries of a condensed row: untouched before column k, zero in
      column k. */
  lemma CondensedRowEntries(pivot: seq<real>, row: seq<real>, k: nat, prev: real)
    requires |pivot| == |row| && k < |row| && prev != 0.0
    ensures var r := CondensedRow(pivot, row, k, prev);
      r[k] == 0.0 && forall c | 0 <= c < k :: r[c] == row[c]
  {
  }

  /** The rows that pass k condenses and the rows it leaves alone. */
  lemma CondensedUpToRows(s: FFState, k: nat, t: nat)
    requires k < s.u.rows && k < s.u.cols && s.l.rows == s.u.rows && s.l.cols == s.u.rows && s.oldPivot != 0.0
    ensures var r := CondensedUpTo(s, k, t);
      (forall i | 0 <= i < s.u.rows && !(k < i < t) :: r.u.e[i] == s.u.e[i] && r.l.e[i] == s.l.e[i]) &&
      (forall i | k < i < t && i < s.u.rows ::
         r.u.e[i] == CondensedRow(s.u.e[k], s.u.e[i], k, s.oldPivot) && r.l.e[i] == s.l.e[i][k := s.u.e[i][k]])
  {
  }

  /** Processing row t extends the rows processed by one. */
  lemma CondensedUpToStep(s: FFState, k: nat, t: nat)
    requires k < t < s.u.rows && k < s.u.cols && s.l.rows == s.u.rows && s.l.cols == s.u.rows && s.oldPivot != 0.0
    ensures var r := CondensedUpTo(s, k, t);
      CondensedUpTo(s, k, t + 1) ==
        FFState(r.p, SetEntry(r.l, t, k, s.u.e[t][k]), r.d, SetRow(r.u, t, CondensedRow(s.u.e[k], s.u.e[t], k, s.oldPivot)), r.oldPivot)
  {
    var r := CondensedUpTo(s, k, t);
    var r' := CondensedUpTo(s, k, t + 1);
    CondensedUpToRows(s, k, t);
    CondensedUpToRows(s, k, t + 1);
    assert r'.l.e == SetEntry(r.l, t, k, s.u.e[t][k]).e;
    assert r'.u.e == SetRow(r.u, t, CondensedRow(s.u.e[k], s.u.e[t], k, s.oldPivot)).e;
  }

  /** Storing the pivot in L[k, k] and the multipliers below it in column k
      makes L lower triangular with k + 1 pivots. */
  lemma CondensedLower(l: Mat, l': Mat, u: Mat, k: nat)
    requires k < l.rows == l.cols == l'.rows == l'.cols == u.rows && k < u.cols && u.e[k][k] != 0.0
    requires LowerWithPivots(l, k)
    requires forall i | 0 <= i < k :: l'.e[i] == l.e[i]
    requires l'.e[k] == l.e[k][k := u.e[k][k]]
    requires forall i | k < i < l.rows :: l'.e[i] == l.e[i][k := u.e[i][k]]
    ensures LowerWithPivots(l', k + 1)
    ensures l'.e[k][k] == u.e[k][k] && forall j | 0 <= j < l.rows && j != k :: l'.e[j][j] == l.e[j][j]
  {
  }

  /** Setting DD[k, k] to oldpivot * Ukk extends the products by one. */
  lemma ProductsStep(d: Mat, l: Mat, d': Mat, l': Mat, k: nat, prev: real, ukk: real)
    requires d.rows == l.rows == l.cols == d.cols && d'.rows == d.rows && d'.cols == d.cols
    requires l'.rows == l.rows && l'.cols == l.cols && k < l.rows
    requires PivotProducts(d, l, k)
    requires l'.e[k][k] == ukk && forall j | 0 <= j < l.rows && j != k :: l'.e[j][j] == l.e[j][j]
    requires prev == PrevPivot(l, k) && d' == SetEntry(d, k, k, DDEntry(prev, ukk))
    ensures PivotProducts(d', l', k + 1)
  {
    forall j | 0 <= j <= k
      ensures PrevPivot(l', j) == PrevPivot(l, j)
    {
    }
    forall j | 0 <= j < k
      ensures PivotProduct(l', j) == PivotProduct(l, j)
    {
    }
    assert PivotProduct(l', k) == DDEntry(prev, ukk);
  }

  /** Condensing the rows below the pivot clears column k of U. */
  lemma ClearedStep(u: Mat, l: Mat, u': Mat, l': Mat, k: nat)
    requires u.rows == l.rows == l.cols && u'.rows == u.rows && u'.cols == u.cols && l'.rows == l.rows && l'.cols == l.cols
    requires k < u.rows && k < u.cols && ClearedWithPivots(u, l, k)
    requires l'.e[k][k] == u.e[k][k] && forall j | 0 <= j < l.rows && j != k :: l'.e[j][j] == l.e[j][j]
    requires forall i | 0 <= i <= k :: u'.e[i] == u.e[i]
    requires forall i | k < i < u.rows :: u'.e[i][k] == 0.0 && forall c | 0 <= c < k :: u'.e[i][c] == u.e[i][c]
    ensures ClearedWithPivots(u', l', k + 1)
  {
  }

  /** The second half of pass k: store the pivot in L and DD, condense the
      rows below it. */
  lemma CondensedKept(s2: FFState, k: nat, n: nat, m: nat)
    requires Kept(s2, k, n, m) && k + 1 < n && k < m && s2.oldPivot != 0.0 && s2.u.e[k][k] != 0.0
    ensures Kept(Condense(s2, k, n, m), k + 1, n, m)
  {
    var c := Condense(s2, k, n, m);
    CondenseRows(s2, k, n, m);
    forall i | k < i < n
      ensures c.u.e[i][k] == 0.0 && forall j | 0 <= j < k :: c.u.e[i][j] == s2.u.e[i][j]
    {
      CondensedRowEntries(s2.u.e[k], s2.u.e[i], k, s2.oldPivot);
    }
    CondensedLower(s2.l, c.l, s2.u, k);
    ProductsStep(s2.d, s2.l, c.d, c.l, k, s2.oldPivot, s2.u.e[k][k]);
    ClearedStep(s2.u, s2.l, c.u, c.l, k);
  }

  /** Pass k keeps everything, one pivot further. */
  lemma PassKept(s: FFState, k: nat, n: nat, m: nat)
    requires Kept(s, k, n, m) && k + 1 < n && s.oldPivot != 0.0
    ensures Pass(s, k, n, m).Ok? ==> Kept(Pass(s, k, n, m).value, k + 1, n, m)
  {
    if k < m && Pass(s, k, n, m).Ok? {
      if s.u.e[k][k] == 0.0 {
        var kp := NonzeroBelow(s.u, k, k + 1).value;
        ExchangeKept(s, k, kp, n, m);
        SwapPartsEntries(s.u, k, kp, 0, k);
        CondensedKept(Exchange(s, k, kp), k, n, m);
      } else {
        CondensedKept(s, k, n, m);
      }
    }
  }

  /** One pass further along the chain of passes. */
  lemma PassesFromNext(s: FFState, k: nat, n: nat, m: nat)
    requires Shaped(s, n, m) && s.oldPivot != 0.0 && k + 1 < n
    ensures Pass(s, k, n, m).Ok? ==> PassesFrom(s, k, n, m) == PassesFrom(Pass(s, k, n, m).value, k + 1, n, m)
    ensures Pass(s, k, n, m).Err? ==> PassesFrom(s, k, n, m) == Err(Pass(s, k, n, m).error)
  {
    assert PassesFrom(s, k, n, m) == PassThenRest(s, k, n, m);
  }

  /** All the passes keep everything. */
  lemma {:induction false} PassesKept(s: FFState, k: nat, n: nat, m: nat)
    requires Kept(s, k, n, m) && s.oldPivot != 0.0
    ensures forall r :: PassesFrom(s, k, n, m) == Ok(r) ==> Kept(r, n - 1, n, m)
    decreases n - k
  {
    if k + 1 < n {
      var t, ok := NextKept(s, k, n, m);
      if ok {
        PassesKept(t, k + 1, n, m);
      }
    } else {
      assert PassesFrom(s, k, n, m) == Ok(s);
    }
  }

  /** Pass k, when it succeeds, hands on a state that keeps everything to
      the rest of the passes; when it fails, so do the passes. */
  lemma NextKept(s: FFState, k: nat, n: nat, m: nat) returns (t: FFState, ok: bool)
    requires Kept(s, k, n, m) && s.oldPivot != 0.0 && k + 1 < n
    ensures ok ==> Kept(t, k + 1, n, m) && t.oldPivot != 0.0 && PassesFrom(s, k, n, m) == PassesFrom(t, k + 1, n, m)
    ensures !ok ==> PassesFrom(s, k, n, m).Err?
  {
    PassKept(s, k, n, m);
    PassesFromNext(s, k, n, m);
    var r := Pass(s, k, n, m);
    ok := r.Ok?;
    t := if ok then r.value else s;
  }

  /** A failure of the passes: a rank deficiency, or a pivot row past the
      last column, which only a matrix with two more rows than columns has. */
  predicate KnownError<T>(r: Result<T, MatrixError>, n: nat, m: nat)
  {
    r.Err? ==> r.error == NotFullRank || (r.error == EntryIndexError && m + 2 <= n)
  }

  /** The passes fail only for a rank deficiency or a pivot row past the
      last column. */
  lemma {:induction false} PassesErrors(s: FFState, k: nat, n: nat, m: nat)
    requires Shaped(s, n, m) && s.oldPivot != 0.0 && k < n
    ensures KnownError(PassesFrom(s, k, n, m), n, m)
    decreases n - k
  {
    if k + 1 < n {
      var t, ok := NextPass(s, k, n, m);
      if ok {
        PassesErrors(t, k + 1, n, m);
      }
    }
  }

  /** The passes fail whenever they reach a pivot row past the last column. */
  lemma {:induction false} PassesFailShort(s: FFState, k: nat, n: nat, m: nat)
    requires Shaped(s, n, m) && s.oldPivot != 0.0 && k <= m && m + 2 <= n
    ensures PassesFrom(s, k, n, m).Err?
    decreases n - k
  {
    var t, ok := NextPass(s, k, n, m);
    if ok {
      PassesFailShort(t, k + 1, n, m);
    }
  }

  /** Pass k either hands a state on to the rest of the passes, which needs
      a column k, or ends them with its own error. */
  lemma NextPass(s: FFState, k: nat, n: nat, m: nat) returns (t: FFState, ok: bool)
    requires Shaped(s, n, m) && s.oldPivot != 0.0 && k + 1 < n
    ensures ok ==> k < m && Shaped(t, n, m) && t.oldPivot != 0.0 && PassesFrom(s, k, n, m) == PassesFrom(t, k + 1, n, m)
    ensures !ok ==> PassesFrom(s, k, n, m).Err?
    ensures !ok ==> PassesFrom(s, k, n, m).error == NotFullRank || (PassesFrom(s, k, n, m).error == EntryIndexError && m <= k)
  {
    PassesFromNext(s, k, n, m);
    var r := Pass(s, k, n, m);
    ok := r.Ok?;
    t := if ok then r.value else s;
  }

  /** What `LUdecompositionFF` promises of its four factors: P a permutation
      matrix; L lower triangular with nonzero diagonal; DD diagonal, each
      entry the product of the previous and the current pivot; U upper
      triangular with the pivots of L on its diagonal. */
  lemma LUFFFactors(a: Mat)
    requires LUFF(a).Ok?
    ensures var n := a.rows;
      var (p, l, d, u) := LUFF(a).value;
      0 < n && n <= a.cols + 1 &&
      p.rows == n && p.cols == n && PermutationMatrix(p) &&
      l.rows == n && l.cols == n && d.rows == n && d.cols == n && u.rows == n && u.cols == a.cols &&
      (forall i, j | 0 <= i < j < n :: l.e[i][j] == 0.0) &&
      (forall j | 0 <= j < n :: l.e[j][j] != 0.0) && l.e[n - 1][n - 1] == 1.0 &&
      (forall i, j | 0 <= i < n && 0 <= j < n && i != j :: d.e[i][j] == 0.0) &&
      (forall j | 0 <= j < n :: d.e[j][j] == PivotProduct(l, j)) &&
      UpperTriangular(u) &&
      (forall j | 0 <= j < n - 1 :: u.e[j][j] == l.e[j][j])
  {
    var n := a.rows;
    StartKept(a);
    PassesKept(Start(a), 0, n, a.cols);
    if a.cols + 2 <= n {
      PassesFailShort(Start(a), 0, n, a.cols);
    }
    var s := PassesFrom(Start(a), 0, n, a.cols).value;
    var d := SetEntry(s.d, n - 1, n - 1, s.oldPivot);
    assert LUFF(a).value == (s.p, s.l, d, s.u);
    assert PivotProduct(s.l, n - 1) == s.oldPivot;
    assert forall j | 0 <= j < n - 1 :: d.e[j][j] == s.d.e[j][j];
  }

  /** The errors: an empty matrix hits `DD[-1, -1]`; otherwise only a
      missing pivot or a pivot row past the last column, and a matrix with
      at least two more rows than columns always fails. */
  lemma LUFFErrors(a: Mat)
    ensures a.rows == 0 ==> LUFF(a) == Err(EntryIndexError)
    ensures LUFF(a).Err? ==>
      (LUFF(a).error == NotFullRank || (LUFF(a).error == EntryIndexError && (a.rows == 0 || a.cols + 2 <= a.rows)))
    ensures a.cols + 2 <= a.rows ==> LUFF(a).Err?
  {
    if 0 < a.rows {
      PassesErrors(Start(a), 0, a.rows, a.cols);
      if a.cols + 2 <= a.rows {
        PassesFailShort(Start(a), 0, a.rows, a.cols);
      }
    }
  }

  /** A zero matrix with at least two rows and a column has no pivot. */
  lemma LUFFZero(a: Mat)
    requires 2 <= a.rows && 1 <= a.cols
    requires forall i, j | 0 <= i < a.rows && 0 <= j < a.cols :: a.e[i][j] == 0.0
    ensures LUFF(a) == Err(NotFullRank)
  {
    assert NonzeroBelow(a, 0, 1).None?;
    PassesFromNext(Start(a), 0, a.rows, a.cols);
  }

  /** A 2x2 matrix with a nonzero corner: no exchange, the corner as first
      pivot, and the determinant as the last entry of U. */
  lemma LUFF2(a: Mat)
    requires a.rows == 2 && a.cols == 2 && a.e[0][0] != 0.0
    ensures LUFF(a).Ok?
    ensures var (p, l, d, u) := LUFF(a).value;
      p == Identity(2) &&
      l.e == [[a.e[0][0], 0.0], [a.e[1][0], 1.0]] &&
      d.e == [[a.e[0][0], 0.0], [0.0, a.e[0][0]]] &&
      u.e == [[a.e[0][0], a.e[0][1]], [0.0, Laplace(a)]]
  {
    var s := Start(a);
    var c := Condense(s, 0, 2, 2);
    assert Pass(s, 0, 2, 2) == Ok(c);
    assert PassesFrom(s, 0, 2, 2) == Ok(c);
    CondenseRows(s, 0, 2, 2);
    var d := SetEntry(c.d, 1, 1, c.oldPivot);
    assert LUFF(a).value == (c.p, c.l, d, c.u);
    TwoByTwoRows(a, c.l, d, c.u);
  }

  /** The entries of the factors of a 2x2 matrix, from the rows that one
      pass leaves. */
  lemma TwoByTwoRows(a: Mat, l: Mat, d: Mat, u: Mat)
    requires a.rows == 2 && a.cols == 2 && l.rows == 2 && l.cols == 2 && d.rows == 2 && d.cols == 2 && u.rows == 2 && u.cols == 2
    requires l.e[0][0] == a.e[0][0] && l.e[0][1] == 0.0 && l.e[1][0] == a.e[1][0] && l.e[1][1] == 1.0
    requires d.e[0][0] == DDEntry(1.0, a.e[0][0]) && d.e[0][1] == 0.0 && d.e[1][0] == 0.0 && d.e[1][1] == a.e[0][0]
    requires u.e[0] == a.e[0] && u.e[1] == CondensedRow(a.e[0], a.e[1], 0, 1.0)
    ensures l.e == [[a.e[0][0], 0.0], [a.e[1][0], 1.0]]
    ensures d.e == [[a.e[0][0], 0.0], [0.0, a.e[0][0]]]
    ensures u.e == [[a.e[0][0], a.e[0][1]], [0.0, Laplace(a)]]
  {
    Laplace2(a);
    assert CondensedEntry(a.e[0][0], a.e[1][1], a.e[0][1], a.e[1][0], 1.0) == Laplace(a);
    assert u.e[1] == [0.0, Laplace(a)];
    assert u.e[0] == [a.e[0][0], a.e[0][1]];
    assert l.e[0] == [a.e[0][0], 0.0] && l.e[1] == [a.e[1][0], 1.0];
    assert DDEntry(1.0, a.e[0][0]) == a.e[0][0];
    assert d.e[0] == [a.e[0][0], 0.0] && d.e[1] == [0.0, a.e[0][0]];
  }

  // ---------------------------------------------------------------------
  // The loops
  // ---------------------------------------------------------------------

  /** `for kpivot in range(k + 1, n): if U[kpivot, k]: break`, with the
      `else` branch as None. */
  method FindPivotRow(u: Mat, k: nat) returns (r: Option<nat>)
    requires k < u.rows && k < u.cols
    ensures r == NonzeroBelow(u, k, k + 1)
  {
    var kp := k + 1;
    while kp < u.rows
      invariant k + 1 <= kp <= u.rows
      invariant NonzeroBelow(u, k, kp) == NonzeroBelow(u, k, k + 1)
      decreases u.rows - kp
    {
      if u.e[kp][k] != 0.0 {
        return Some(kp);
      }
      kp := kp + 1;
    }
    return None;
  }

  /** `for j in range(k + 1, m): U[i, j] = (Ukk*U[i, j] - U[k, j]*Uik) / oldpivot`
      followed by `U[i, k] = 0`, on row i of U. */
  method CondenseRow(pivot: seq<real>, row: seq<real>, k: nat, prev: real) returns (r: seq<real>)
    requires |pivot| == |row| && k < |row| && prev != 0.0
    ensures r == CondensedRow(pivot, row, k, prev)
  {
    var ukk, uik := pivot[k], row[k];
    r := row;
    var j := k + 1;
    while j < |row|
      invariant k + 1 <= j <= |row|
      invariant r == PartlyCondensed(pivot, row, k, prev, j)
    {
      r := r[j := CondensedEntry(ukk, r[j], pivot[j], uik, prev)];
      j := j + 1;
    }
    r := r[k := 0.0];
  }

  /** `for i in range(k + 1, n)`: store `U[i, k]` in L and condense row i. */
  method CondenseBelow(s: FFState, k: nat, n: nat, m: nat) returns (r: FFState)
    requires Shaped(s, n, m) && k < n && k < m && s.oldPivot != 0.0
    ensures r == CondensedUpTo(s, k, n)
  {
    var l, u := s.l, s.u;
    var i := k + 1;
    CondensedUpToRows(s, k, i);
    assert CondensedUpTo(s, k, i) == s;
    while i < n
      invariant k + 1 <= i <= n
      invariant FFState(s.p, l, s.d, u, s.oldPivot) == CondensedUpTo(s, k, i)
    {
      CondensedUpToRows(s, k, i);
      l := SetEntry(l, i, k, u.e[i][k]);
      var row := CondenseRow(u.e[k], u.e[i], k, s.oldPivot);
      u := SetRow(u, i, row);
      CondensedUpToStep(s, k, i);
      i := i + 1;
    }
    r := FFState(s.p, l, s.d, u, s.oldPivot);
  }

  /** One pass of `for k in range(n - 1)`. */
  method PassStep(s: FFState, k: nat, n: nat, m: nat) returns (r: Result<FFState, MatrixError>)
    requires Shaped(s, n, m) && k + 1 < n && s.oldPivot != 0.0
    ensures r == Pass(s, k, n, m)
  {
    if m <= k {
      return Err(EntryIndexError);
    }
    var t := s;
    if s.u.e[k][k] == 0.0 {
      var found := FindPivotRow(s.u, k);
      if found.None? {
        return Err(NotFullRank);
      }
      var kp := found.value;
      var u := SwapParts(s.u, k, kp, 0, k);
      var l := SwapParts(s.l, k, kp, k, s.l.cols);
      var p := SwapParts(s.p, k, kp, 0, 0);
      t := FFState(p, l, s.d, u, s.oldPivot);
    }
    var ukk := t.u.e[k][k];
    var l := SetEntry(t.l, k, k, ukk);
    var d := SetEntry(t.d, k, k, DDEntry(t.oldPivot, ukk));
    var c := CondenseBelow(FFState(t.p, l, d, t.u, t.oldPivot), k, n, m);
    r := Ok(FFState(c.p, c.l, c.d, c.u, ukk));
  }

  /** `LUdecompositionFF()`. */
  method LUDecompositionFF(a: Mat) returns (res: Result<(Mat, Mat, Mat, Mat), MatrixError>)
    ensures res == LUFF(a)
  {
    var n, m := a.rows, a.cols;
    var s := FFState(Identity(n), Identity(n), Zeros(n, n), a, 1.0);
    var k := 0;
    while k + 1 < n
      invariant Shaped(s, n, m) && s.oldPivot != 0.0 && (0 < n ==> k < n)
      invariant 0 < n ==> PassesFrom(s, k, n, m) == PassesFrom(Start(a), 0, n, m)
    {
      var r := PassStep(s, k, n, m);
      if r.Err? {
        return Err(r.error);
      }
      s := r.value;
      k := k + 1;
    }
    if n == 0 {
      return Err(EntryIndexError);
    }
    var dd := SetEntry(s.d, n - 1, n - 1, s.oldPivot);
    return Ok((s.p, s.l, dd, s.u));
  }
}
