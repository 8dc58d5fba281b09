# Exact matrix engine of SymPy 1.2, modelled in Dafny

This project models the exact linear-algebra core of SymPy 1.2's
`sympy/matrices/matrices.py` and proves what it promises:

- **Pivot search.** `_find_reasonable_pivot_naive` and the three symbolic
  passes of `_find_reasonable_pivot` (`pivot.dfy`, module `Pivot`). The zero
  test is a function returning `Option<bool>` (`None` is "cannot decide").
  The simplifier and `x.equals(0)` are function parameters. Each search is a
  method with one loop per source pass, proved equal to a specification
  function. Lemmas state which candidate becomes the pivot, when a pivot is
  only *assumed* nonzero, and which simplified entries are reported.
- **Fraction-free row reduction.** `_row_reduce` works on the flat row-major
  list with `row_swap` and `cross_cancel` (`flatops.dfy`, `rowreduce.dfy`).
  `echelon_form`, `is_echelon`, `rref` and `nullspace` are built on it
  (`reductions.dfy`), and so is `rank` (`rank.dfy`). The proofs cover the
  bookkeeping of pivots and swaps, strictly increasing pivot columns, echelon
  form, reduced row echelon form, row-equivalence of the result and the
  input (both annihilate the same vectors) when the zero test decides every
  entry, and null vectors that lie in the null space of the input.
- **Determinants.** The reference determinant is cofactor expansion along the
  first column (`Matrices.Laplace`). `determinant.dfy` and `det.dfy` model:
  - the closed forms of `det` up to 3x3;
  - Berkowitz (`_eval_berkowitz_toeplitz_matrix`, `_eval_berkowitz_vector`,
    `_eval_det_berkowitz`);
  - Bareiss (`_eval_det_bareiss`);
  - the LU determinant (`_eval_det_lu`);
  - the method dispatch and error order of `det`.
- **LU factorisations.** `lu.dfy` models `LUdecomposition_Simple` (combined
  L/U matrix, row-swap record, `rankcheck`) and `LUdecomposition`.
  `luff.dfy` models `LUdecompositionFF` with its P, L, DD and U.
- **Small helpers.** `elementary.dfy` has the elementary row and column
  operations, `minor_submatrix` and `_permute_complexity_right`.
  `jordan.dfy` has `blocks_from_nullity_chain`.

Ring elements are Dafny `real`s. Integer and rational matrices, the
entries this engine handles exactly, are a subset of the reals. Division
goes through `Common.Quot`. Loops that the source runs in place are
methods over values (`seq<real>` for the flat list, matrix values for
`lu`). Each such method's postcondition equals a specification function
that the lemmas are about.

## Model

| member | source | states |
|---|---|---|
| `Common.Quot` | sympy-1.2/sympy/matrices/matrices.py:3318-3319 | division of ring elements: q * b == a whenever b != 0, and a zero numerator gives 0 |
| `Common.Sign` | sympy-1.2/sympy/matrices/matrices.py:262 | (-1)**k is 1 or -1 and flips sign with every further swap |
| `Matrices.Zeros` | sympy-1.2/sympy/matrices/matrices.py:3236-3239 | the zero matrix of the requested shape: every entry 0 |
| `Matrices.Identity` | sympy-1.2/sympy/matrices/matrices.py:3370 | `eye(n)`: n x n, 1 on the diagonal and 0 elsewhere |
| `Matrices.Extract` | sympy-1.2/sympy/matrices/matrices.py:207-209 | `mat.extract(rows, cols)` dropping one row and one column: shape (rows-1) x (cols-1), entry (a, b) read from the kept row and column |
| `Matrices.MatVec` | sympy-1.2/sympy/matrices/matrices.py:117 | matrix times vector: one entry per row, each the row's dot product with the vector |
| `Matrices.Flatten` | sympy-1.2/sympy/matrices/matrices.py:643 | `list(self)`: rows*cols entries in row-major order |
| `Matrices.FlattenAt` | sympy-1.2/sympy/matrices/matrices.py:643 | entry (i, j) of the flat list is entry (i, j) of the matrix |
| `Matrices.Unflatten` | sympy-1.2/sympy/matrices/matrices.py:715 | `_new(rows, cols, mat)`: the matrix whose entry (i, j) is entry i*cols + j of the list |
| `Elementary.RowSwap` | sympy-1.2/sympy/matrices/matrices.py:505-512 | `_eval_row_op_swap` keeps the shape |
| `Elementary.RowSwapRows` | sympy-1.2/sympy/matrices/matrices.py:505-512 | row1 and row2 trade places and every other row is unchanged |
| `Elementary.RowSwapInvolution` | sympy-1.2/sympy/matrices/matrices.py:505-512 | swapping the same two rows twice gives back the matrix |
| `Elementary.RowScale` | sympy-1.2/sympy/matrices/matrices.py:514-519 | `_eval_row_op_multiply_row_by_const` keeps the shape |
| `Elementary.RowScaleUndo` | sympy-1.2/sympy/matrices/matrices.py:514-519 | scaling a row by k != 0 and then by 1/k gives back the matrix |
| `Elementary.RowAddMultiple` | sympy-1.2/sympy/matrices/matrices.py:521-526 | `_eval_row_op_add_multiple_to_other_row` keeps the shape |
| `Elementary.RowAddMultipleRows` | sympy-1.2/sympy/matrices/matrices.py:521-526 | only the target row changes, to row + k*row2 entry by entry |
| `Elementary.RowAddMultipleUndo` | sympy-1.2/sympy/matrices/matrices.py:521-526 | adding k*row2 and then -k*row2 to a different row gives back the matrix |
| `Elementary.ColSwap` | sympy-1.2/sympy/matrices/matrices.py:482-489 | `_eval_col_op_swap` keeps the shape |
| `Elementary.ColScale` | sympy-1.2/sympy/matrices/matrices.py:491-496 | `_eval_col_op_multiply_col_by_const` keeps the shape |
| `Elementary.ColAddMultiple` | sympy-1.2/sympy/matrices/matrices.py:498-503 | `_eval_col_op_add_multiple_to_other_col` keeps the shape |
| `Elementary.ColOpsAreTransposedRowOps` | sympy-1.2/sympy/matrices/matrices.py:482-526 | each column operation equals the matching row operation on the transpose, transposed back |
| `Elementary.ColSwapInvolution` | sympy-1.2/sympy/matrices/matrices.py:482-489 | swapping the same two columns twice gives back the matrix |
| `Elementary.MinorSubmatrix` | sympy-1.2/sympy/matrices/matrices.py:453-475 | an error exactly when a (normalised) index is out of range; otherwise a (rows-1) x (cols-1) matrix |
| `Elementary.MinorSubmatrixEntries` | sympy-1.2/sympy/matrices/matrices.py:473-475 | in range, the minor is the matrix with row i and column j dropped, and every other row and column is kept exactly once |
| `Elementary.MinorSubmatrixNegative` | sympy-1.2/sympy/matrices/matrices.py:464-467 | a negative row index names the same row as index + rows |
| `Elementary.Insert` | sympy-1.2/sympy/matrices/matrices.py:615 | inserting into a sorted list adds exactly that pair (as a multiset) |
| `Elementary.InsertSorted` | sympy-1.2/sympy/matrices/matrices.py:615 | insertion keeps a list of distinct pairs sorted |
| `Elementary.SortPairs` | sympy-1.2/sympy/matrices/matrices.py:615 | `sorted(complex)` is a permutation of its input |
| `Elementary.SortPairsSorted` | sympy-1.2/sympy/matrices/matrices.py:615 | the result is sorted in Python's tuple order |
| `Elementary.ComplexityPairs` | sympy-1.2/sympy/matrices/matrices.py:610-614 | pair j is (number of entries of column j whose zero test is undecided, j) |
| `Elementary.PermuteCols` | sympy-1.2/sympy/matrices/matrices.py:617 | column k of the permuted matrix is column perm[k] of the input |
| `Elementary.ComplexityOrder` | sympy-1.2/sympy/matrices/matrices.py:615 | the permutation has one entry per column |
| `Elementary.ComplexityOrderIsSortedPermutation` | sympy-1.2/sympy/matrices/matrices.py:610-615 | the order lists every column exactly once, by non-decreasing complexity, ties by index |
| `Elementary.PermuteComplexityRight` | sympy-1.2/sympy/matrices/matrices.py:600-617 | the returned matrix is the input with its columns in complexity order, and the returned permutation is that order |
| `Jordan.BlocksFromNullityChain` | sympy-1.2/sympy/matrices/matrices.py:1389-1400 | one block count per chain step (one entry for a chain of length 1) |
| `Jordan.BlocksFollowPlateauRule` | sympy-1.2/sympy/matrices/matrices.py:1396-1399 | with the chain taken to plateau, every entry is 2*d[n] - d[n-1] - d[n+1], the last one included |
| `Jordan.BlocksEntries` | sympy-1.2/sympy/matrices/matrices.py:1396-1400 | the middle entries follow the rule, the last is d[-1] - d[-2] |
| `Jordan.BlocksAccountForNullities` | sympy-1.2/sympy/matrices/matrices.py:1389-1400 | the counts add up to d[1] - d[0] blocks, and the sizes weighted by their counts to d[-1] - d[0] |
| `Determinants.LaplaceUpperTriangular` | sympy-1.2/sympy/matrices/matrices.py:264-268 | the determinant of an upper-triangular matrix is the product of its diagonal |
| `Determinants.Laplace1` | sympy-1.2/sympy/matrices/matrices.py:416-417 | a 1x1 determinant is its entry |
| `Determinants.Laplace2` | sympy-1.2/sympy/matrices/matrices.py:418-419 | a 2x2 determinant is a00*a11 - a01*a10 |
| `Determinants.Laplace3` | sympy-1.2/sympy/matrices/matrices.py:420-426 | a 3x3 determinant is the six-term formula of `det` |
| `Determinants.ClosedForm` | sympy-1.2/sympy/matrices/matrices.py:413-426 | the closed forms of `det` for n <= 3 equal the cofactor expansion |
| `Determinants.FirstRowRest` | sympy-1.2/sympy/matrices/matrices.py:98 | R has cols - 1 entries |
| `Determinants.FirstColumnRest` | sympy-1.2/sympy/matrices/matrices.py:99 | C has rows - 1 entries |
| `Determinants.Krylov` | sympy-1.2/sympy/matrices/matrices.py:115-117 | `diags` holds k vectors, each with as many entries as A has rows |
| `Determinants.ToeplitzDiagonals` | sympy-1.2/sympy/matrices/matrices.py:115-119 | the diagonals are n + 1 values starting 1, -a |
| `Determinants.Toeplitz` | sympy-1.2/sympy/matrices/matrices.py:85-127 | the Toeplitz matrix is (n+1) x n, lower triangular, constant along each diagonal |
| `Determinants.BerkowitzVector` | sympy-1.2/sympy/matrices/matrices.py:129-171 | the Berkowitz vector of an n x n matrix has n + 1 entries |
| `Determinants.DetBerkowitz` | sympy-1.2/sympy/matrices/matrices.py:221-224 | `_eval_det_berkowitz`: the signed last Berkowitz coefficient; its agreement with the determinant is `Determinants.BerkowitzSmall` and `Determinants.BerkowitzUpperTriangular` |
| `Determinants.ToeplitzLeading` | sympy-1.2/sympy/matrices/matrices.py:121-126 | the first entry of a Toeplitz product is the first entry of the vector |
| `Determinants.BerkowitzMonic` | sympy-1.2/sympy/matrices/matrices.py:150-151 | the first coefficient is 1: the characteristic polynomial is monic |
| `Determinants.ToeplitzSecond` | sympy-1.2/sympy/matrices/matrices.py:119-126 | the second entry of a Toeplitz product is w[1] - a*w[0] |
| `Determinants.BerkowitzTrace` | sympy-1.2/sympy/matrices/matrices.py:164-171 | the second coefficient is minus the trace |
| `Determinants.KrylovOfZero` | sympy-1.2/sympy/matrices/matrices.py:115-117 | with C = 0 every Krylov vector is zero |
| `Determinants.ClearedDiagonals` | sympy-1.2/sympy/matrices/matrices.py:115-119 | with C = 0 every diagonal after -a is zero |
| `Determinants.ClearedLastRow` | sympy-1.2/sympy/matrices/matrices.py:121-126 | with C = 0 the last entry of a Toeplitz product is -a times the last entry of the vector |
| `Determinants.BerkowitzUpperTriangular` | sympy-1.2/sympy/matrices/matrices.py:221-224 | on an upper-triangular matrix the Berkowitz determinant is the cofactor expansion |
| `Determinants.ToeplitzDiagonals2` | sympy-1.2/sympy/matrices/matrices.py:115-119 | the third 2x2 diagonal is -R*C |
| `Determinants.Toeplitz2Product` | sympy-1.2/sympy/matrices/matrices.py:170-171 | the 2x2 Toeplitz product is [1, -trace, det] |
| `Determinants.Berkowitz2` | sympy-1.2/sympy/matrices/matrices.py:164-171 | a 2x2 Berkowitz vector is [1, -(a + d), a*d - b*c] |
| `Determinants.ToeplitzDiagonals3` | sympy-1.2/sympy/matrices/matrices.py:115-119 | the 3x3 diagonals are 1, -a, -RC, -RAC written out |
| `Determinants.Toeplitz3Last` | sympy-1.2/sympy/matrices/matrices.py:170-171 | the last entry of the 3x3 Toeplitz product is -det |
| `Determinants.Berkowitz3` | sympy-1.2/sympy/matrices/matrices.py:164-171 | a 3x3 Berkowitz vector ends with -det |
| `Determinants.BerkowitzSmall` | sympy-1.2/sympy/matrices/matrices.py:221-224 | Berkowitz agrees with the closed forms of `det` for every matrix up to 3x3 |
| `Determinants.FirstColumn` | sympy-1.2/sympy/matrices/matrices.py:197 | `mat[:, 0]`, entry by entry |
| `Determinants.BareissPivot` | sympy-1.2/sympy/matrices/matrices.py:197-200 | no pivot exactly when the first column is zero; otherwise the first nonzero entry, its position and value |
| `Determinants.Bareiss` | sympy-1.2/sympy/matrices/matrices.py:187-219 | the recursive `bareiss(mat, cumm)`: pivot search, row exchange sign, condensed minor divided by `cumm`; its properties are `Determinants.BareissUpperTriangular` and `Determinants.Bareiss2` |
| `Determinants.DetBareiss` | sympy-1.2/sympy/matrices/matrices.py:173-219 | `_eval_det_bareiss` is `bareiss(self)` with `cumm = 1`; its agreement with the determinant is `Determinants.BareissDetUpperTriangular` |
| `Determinants.Condensed` | sympy-1.2/sympy/matrices/matrices.py:206-217 | the condensed matrix is one smaller each way, entry (i, j) as `entry(i, j)` of `bareiss` |
| `Determinants.Bareiss2` | sympy-1.2/sympy/matrices/matrices.py:187-219 | on every 2x2 matrix Bareiss gives a00*a11 - a01*a10 |
| `Determinants.CondensedUpper` | sympy-1.2/sympy/matrices/matrices.py:211-217 | condensing an upper-triangular matrix gives an upper-triangular one whose diagonal is the corner minor's scaled by p/cumm |
| `Determinants.CondensedLowerZero` | sympy-1.2/sympy/matrices/matrices.py:211-217 | that condensation is zero below its diagonal |
| `Determinants.CondensedUpperEntry` | sympy-1.2/sympy/matrices/matrices.py:211-215 | an entry of that condensation times cumm is p times the corner-minor entry |
| `Determinants.BareissFirstPivot` | sympy-1.2/sympy/matrices/matrices.py:197-217 | a nonzero top-left entry is the pivot and no row moves |
| `Determinants.BareissZeroColumn` | sympy-1.2/sympy/matrices/matrices.py:199-200 | a zero first column gives determinant 0 |
| `Determinants.BareissUpperZeroCorner` | sympy-1.2/sympy/matrices/matrices.py:197-200 | a zero top-left entry of an upper-triangular matrix makes both the Bareiss result and the diagonal product zero |
| `Determinants.BareissUpperStep` | sympy-1.2/sympy/matrices/matrices.py:204-217 | one level of the recursion keeps the claim bareiss(m, c) * c**(n-1) == diagonal product |
| `Determinants.BareissUpperTriangular` | sympy-1.2/sympy/matrices/matrices.py:187-217 | on an upper-triangular matrix, bareiss(mat, cumm) times cumm**(n-1) is the diagonal product |
| `Determinants.BareissDetUpperTriangular` | sympy-1.2/sympy/matrices/matrices.py:173-219 | `_eval_det_bareiss` of an upper-triangular matrix is its determinant |
| `DetMethods.SignedDiagonalScales` | sympy-1.2/sympy/matrices/matrices.py:262-268 | the running product is the sign times the diagonal product |
| `DetMethods.Factor` | sympy-1.2/sympy/matrices/matrices.py:247 | the combined LU matrix has the input's shape |
| `DetMethods.DetLUShortcut` | sympy-1.2/sympy/matrices/matrices.py:254-268 | with a sound zero test the early return of 0 agrees with det(P)*det(U) |
| `DetMethods.FactorShortcut` | sympy-1.2/sympy/matrices/matrices.py:258-268 | the same on the factor: the shortcut value equals the signed diagonal product |
| `DetMethods.LastDiagonalZero` | sympy-1.2/sympy/matrices/matrices.py:256-259 | a zero last diagonal entry makes the diagonal product zero |
| `DetMethods.DetLUUpperTriangular` | sympy-1.2/sympy/matrices/matrices.py:241-271 | on an upper-triangular matrix whose leading pivots test nonzero, the LU determinant is the cofactor expansion |
| `DetMethods.DetLU` | sympy-1.2/sympy/matrices/matrices.py:241-271 | `_eval_det_lu`: 1 for 0 rows, 0 when the last diagonal entry tests zero, otherwise (-1)**len(row_swaps) times the diagonal of `lu` |
| `DetMethods.DetLUOf` | sympy-1.2/sympy/matrices/matrices.py:226-271 | `_eval_det_lu` as a value: 1 for 0 rows, 0 when the last diagonal entry tests zero, otherwise the signed diagonal product; its agreement with the determinant is `DetMethods.DetLUUpperTriangular` |
| `DetMethods.MultiplyDiagonal` | sympy-1.2/sympy/matrices/matrices.py:267-268 | the loop computes the sign times the first n diagonal entries, in order |
| `DetMethods.LowerChar` | sympy-1.2/sympy/matrices/matrices.py:399 | `lower` maps 'A'..'Z' to 'a'..'z' and leaves everything else |
| `DetMethods.ParseMethod` | sympy-1.2/sympy/matrices/matrices.py:396-405 | the sanitised method name: `bareis` and `det_lu` are aliases, anything else is unknown; read case-blind by `DetMethods.ParseMethodIgnoresCase` |
| `DetMethods.Det` | sympy-1.2/sympy/matrices/matrices.py:386-433 | `det`: unknown method, then non-square, are errors; closed forms up to 3x3, else the chosen algorithm; its promises are `DetMethods.DetErrors`, `DetMethods.DetSmall` and `DetMethods.DetUpperTriangular` |
| `DetMethods.Lower` | sympy-1.2/sympy/matrices/matrices.py:399 | `method.lower()` lowers each character, keeping the length |
| `DetMethods.LowerIdempotent` | sympy-1.2/sympy/matrices/matrices.py:399 | lowering twice equals lowering once |
| `DetMethods.ParseMethodIgnoresCase` | sympy-1.2/sympy/matrices/matrices.py:398-405 | method names are read without regard to case |
| `DetMethods.DetErrors` | sympy-1.2/sympy/matrices/matrices.py:404-411 | an error exactly for an unknown method or a non-square matrix; the unknown name is reported first |
| `DetMethods.DetSmall` | sympy-1.2/sympy/matrices/matrices.py:413-426 | up to 3x3 every method gives the cofactor expansion, and so does Berkowitz |
| `DetMethods.DetUpperTriangular` | sympy-1.2/sympy/matrices/matrices.py:428-433 | on an upper-triangular matrix (leading pivots nonzero) every method gives the cofactor expansion |
| `FlatOps.ColumnFrom` | sympy-1.2/sympy/matrices/matrices.py:644-645 | `get_col(j)[from:]`: rows - from entries, entry k the one in row from + k |
| `FlatOps.WriteBack` | sympy-1.2/sympy/matrices/matrices.py:668-670 | writing back keeps the length of the list |
| `FlatOps.WriteBackAt` | sympy-1.2/sympy/matrices/matrices.py:668-670 | write-back changes only column pivCol from pivRow down, and there it applies the reported pairs |
| `FlatOps.WriteBackNewly` | sympy-1.2/sympy/matrices/matrices.py:668-670 | the write-back loop computes `WriteBack` |
| `FlatOps.SwapRows` | sympy-1.2/sympy/matrices/matrices.py:647-649 | `row_swap` keeps the length of the list |
| `FlatOps.SwapSource` | sympy-1.2/sympy/matrices/matrices.py:647-649 | the index an entry is read from stays in the list |
| `FlatOps.SwapRowsAt` | sympy-1.2/sympy/matrices/matrices.py:647-649 | rows i and j trade places and every other row is unchanged |
| `FlatOps.SwapRowsEntry` | sympy-1.2/sympy/matrices/matrices.py:647-649 | the same at a single entry |
| `FlatOps.CrossCancel` | sympy-1.2/sympy/matrices/matrices.py:651-655 | `cross_cancel` keeps the length of the list |
| `FlatOps.CrossCancelAt` | sympy-1.2/sympy/matrices/matrices.py:651-655 | row i becomes a*row_i - b*row_j and every other row is unchanged |
| `FlatOps.CrossCancelEntry` | sympy-1.2/sympy/matrices/matrices.py:651-655 | the same at a single entry |
| `FlatOps.CrossCancelSource` | sympy-1.2/sympy/matrices/matrices.py:653-655 | the index p + q an entry of row i reads lies in row j, outside row i |
| `FlatOps.WriteStep` | sympy-1.2/sympy/matrices/matrices.py:654-655 | one loop iteration extends the updated prefix of row i by one entry and leaves the rest of the list alone |
| `FlatOps.CrossCancelRow` | sympy-1.2/sympy/matrices/matrices.py:651-655 | the loop computes `CrossCancel` |
| `FlatOps.NormalizeRow` | sympy-1.2/sympy/matrices/matrices.py:684-687 | normalising keeps the length |
| `FlatOps.NormalizeRowAt` | sympy-1.2/sympy/matrices/matrices.py:684-687 | the pivot becomes 1, the entries of row i right of it are divided by pv, and nothing else changes |
| `FlatOps.NormalizePivotRow` | sympy-1.2/sympy/matrices/matrices.py:684-687 | the loop computes `NormalizeRow` |
| `FlatOps.SwapRowsNull` | sympy-1.2/sympy/matrices/matrices.py:647-649 | `row_swap` keeps the null space: the list annihilates v exactly when it did before |
| `FlatOps.CrossCancelNull` | sympy-1.2/sympy/matrices/matrices.py:651-655 | `cross_cancel(a, i, b, j)` with a != 0 and i != j keeps the null space |
| `FlatOps.NormalizeRowNull` | sympy-1.2/sympy/matrices/matrices.py:684-687 | normalising a row that is zero left of its nonzero pivot keeps the null space |
| `Pivot.Statuses` | sympy-1.2/sympy/matrices/matrices.py:4185-4193 | one zero-test outcome per candidate |
| `Pivot.FirstIndexOf` | sympy-1.2/sympy/matrices/matrices.py:4246 | `s.index(x)`: None exactly when x is absent, otherwise the first position holding x |
| `Pivot.ApplyNewly` | sympy-1.2/sympy/matrices/matrices.py:668-670 | writing the reported pairs into the column keeps its length |
| `Pivot.ApplyNewlyAt` | sympy-1.2/sympy/matrices/matrices.py:668-670 | an entry not reported is unchanged and a reported one holds its reported value |
| `Pivot.UndecidedFacts` | sympy-1.2/sympy/matrices/matrices.py:4292-4301 | `indeterminates` lists exactly the undecided candidates, in column order |
| `Pivot.SimplifySearchPicks` | sympy-1.2/sympy/matrices/matrices.py:4317-4327 | the simplification loop picks a candidate that simplified to a provably nonzero value, or else the first undecided one, assumed nonzero; it reports exactly what it changed |
| `Pivot.SimplifySearch` | sympy-1.2/sympy/matrices/matrices.py:4314-4327 | the simplification loop over the undecided candidates; its promises are `Pivot.SimplifySearchPicks` and `Pivot.SimplifySearchReports` |
| `Pivot.SimplifySearchChoice` | sympy-1.2/sympy/matrices/matrices.py:4318-4327 | the candidate the simplification loop settles on |
| `Pivot.SimplifySearchReports` | sympy-1.2/sympy/matrices/matrices.py:4318-4322 | the reported pairs are in column order and each is a candidate the simplifier changed |
| `Pivot.NaivePivotPromises` | sympy-1.2/sympy/matrices/matrices.py:4293-4327 | no pivot means every candidate tests zero; a pivot is proved nonzero or assumed; unassumed, it is the first proved nonzero (as it stands or simplified) |
| `Pivot.NaivePivot` | sympy-1.2/sympy/matrices/matrices.py:4249-4327 | `_find_reasonable_pivot_naive`: the first candidate proved nonzero, else none when no candidate is undecided, else the simplification loop; its promises are `Pivot.NaivePivotPromises` |
| `Pivot.NaivePivotFirstNonzero` | sympy-1.2/sympy/matrices/matrices.py:4293-4297 | the first candidate the zero test proves nonzero is returned, unassumed, with no simplified entries |
| `Pivot.NaivePivotNoNonzero` | sympy-1.2/sympy/matrices/matrices.py:4303-4313 | all candidates zero gives (None, None, False, []); without a simplifier, the first undecided candidate is returned, assumed nonzero |
| `Pivot.FindPivotNaive` | sympy-1.2/sympy/matrices/matrices.py:4249-4327 | the loops of `_find_reasonable_pivot_naive` compute `NaivePivot` |
| `Pivot.SimplifyUndecided` | sympy-1.2/sympy/matrices/matrices.py:4317-4327 | the second loop computes `SimplifySearch` |
| `Pivot.SimplifiedStatuses` | sympy-1.2/sympy/matrices/matrices.py:4206-4215 | `possible_zeros` after pass 2: undecided candidates retested after simplification, the others unchanged |
| `Pivot.EqualsStatuses` | sympy-1.2/sympy/matrices/matrices.py:4228-4237 | `possible_zeros` after pass 3: a candidate still undecided is zero when `equals(0)` holds |
| `Pivot.SimplifiedPairsFacts` | sympy-1.2/sympy/matrices/matrices.py:4206-4215 | pass 2 reports, in order, each undecided candidate whose simplified form the test decides, with that form |
| `Pivot.EqualsPairsFacts` | sympy-1.2/sympy/matrices/matrices.py:4228-4237 | pass 3 reports, in order, each still-undecided candidate that `equals(0)` settles, with 0 |
| `Pivot.UndecidedRemains` | sympy-1.2/sympy/matrices/matrices.py:4239-4247 | when the fallback is reached some candidate is still undecided, so `index(None)` succeeds |
| `Pivot.FinalStatusMeaning` | sympy-1.2/sympy/matrices/matrices.py:4183-4240 | a candidate's final status is zero, nonzero or undecided exactly as the three passes settle it |
| `Pivot.FinalStatuses` | sympy-1.2/sympy/matrices/matrices.py:4183-4240 | the same for every candidate |
| `Pivot.ReasonablePivotNone` | sympy-1.2/sympy/matrices/matrices.py:4196-4240 | no pivot exactly when every candidate is settled as zero |
| `Pivot.ReasonablePivot` | sympy-1.2/sympy/matrices/matrices.py:4146-4247 | `_find_reasonable_pivot`: pass 1 on the plain zero test, then the simplified and `equals(0)` passes; its promises are the `Pivot.ReasonablePivot*` lemmas |
| `Pivot.ReasonablePivotFirstDecided` | sympy-1.2/sympy/matrices/matrices.py:4184-4192 | the first candidate proved nonzero by the plain test is the pivot, unsimplified and unassumed |
| `Pivot.ReasonablePivotProved` | sympy-1.2/sympy/matrices/matrices.py:4201-4214 | an unassumed pivot is proved nonzero; after pass 1 it is the first candidate simplification proves nonzero |
| `Pivot.ReasonablePivotAssumed` | sympy-1.2/sympy/matrices/matrices.py:4242-4247 | an assumed pivot is the first candidate no pass settles, and then no candidate was proved nonzero |
| `Pivot.ReasonablePivotReports` | sympy-1.2/sympy/matrices/matrices.py:4201-4237 | `newly_determined` names each settled candidate at most once |
| `Pivot.BothPassesReport` | sympy-1.2/sympy/matrices/matrices.py:4206-4237 | the pairs of pass 2 and pass 3 name distinct candidates |
| `Pivot.ReasonablePivotWriteBack` | sympy-1.2/sympy/matrices/matrices.py:4206-4247 | after the caller writes `newly_determined` back, the pivot entry holds the returned pivot value |
| `Pivot.AssumedPivotNotReported` | sympy-1.2/sympy/matrices/matrices.py:4242-4247 | an assumed pivot is never among the reported pairs |
| `Pivot.ReasonablePivotSound` | sympy-1.2/sympy/matrices/matrices.py:4183-4247 | with sound tests: no pivot means a zero column, a proved pivot is nonzero, and write-back changes no entry between zero and nonzero |
| `Pivot.ExactSearchAssumesNothing` | sympy-1.2/sympy/matrices/matrices.py:4183-4199 | with a zero test that decides every candidate, no pivot is ever assumed and nothing is reported for write-back |
| `Pivot.NaiveAgreesWithReasonable` | sympy-1.2/sympy/matrices/matrices.py:4256-4259 | the naive and full searches agree whenever the plain zero test decides the column |
| `Pivot.NaivePivotSound` | sympy-1.2/sympy/matrices/matrices.py:4276-4279 | with a sound test: no pivot means a zero column, and an unassumed pivot is nonzero |
| `Pivot.NaivePivotWriteBack` | sympy-1.2/sympy/matrices/matrices.py:4273-4275 | after write-back, the entry of an unassumed pivot holds the returned pivot value |
| `Pivot.FindReasonablePivot` | sympy-1.2/sympy/matrices/matrices.py:4183-4247 | the three passes of `_find_reasonable_pivot` compute `ReasonablePivot` |
| `Pivot.ZeroTestPass` | sympy-1.2/sympy/matrices/matrices.py:4183-4193 | pass 1 stops at the first candidate proved nonzero, or returns every outcome |
| `Pivot.SimplifyPass` | sympy-1.2/sympy/matrices/matrices.py:4201-4215 | pass 2 stops at the first candidate simplification proves nonzero, recording the pairs it decided |
| `Pivot.EqualsPass` | sympy-1.2/sympy/matrices/matrices.py:4224-4237 | pass 3 computes the final statuses and appends its pairs |
| `Ranks.RankBounds` | sympy-1.2/sympy/matrices/matrices.py:798-835 | the rank is at most rows and at most cols, and 0 for an empty matrix |
| `Ranks.Rank` | sympy-1.2/sympy/matrices/matrices.py:798-835 | `rank`: 0 for an empty matrix, the vector and 2x2 shortcuts, else the pivot count of the echelon form of the permuted matrix; its promises are the `Ranks` lemmas below |
| `Ranks.PivotCountBounds` | sympy-1.2/sympy/matrices/matrices.py:833-835 | the general route counts at most one pivot per row and per column |
| `Ranks.Rank2` | sympy-1.2/sympy/matrices/matrices.py:823-831 | a decided 2x2 matrix has rank 0 when zero, 1 when nonzero with zero determinant, 2 otherwise |
| `Ranks.RankVector` | sympy-1.2/sympy/matrices/matrices.py:819-822 | a row or column vector with an entry proved nonzero has rank 1 |
| `Ranks.RankCountsEchelonRows` | sympy-1.2/sympy/matrices/matrices.py:798-835 | outside the shortcuts, with an exact zero test, the rank is the number of nonzero rows of an echelon form of the permuted matrix, and that echelon form is row-equivalent to the permuted matrix (it annihilates exactly the same vectors) |
| `Reductions.ColumnBelowCorner` | sympy-1.2/sympy/matrices/matrices.py:537-543 | in echelon shape a column is zero below the row counting the pivots to its left |
| `Reductions.IsEchelonFrom` | sympy-1.2/sympy/matrices/matrices.py:537-543 | `_eval_is_echelon` from one corner, with an undecided test read as nonzero; `Reductions.EchelonShapePassesFrom` states which matrices pass |
| `Reductions.IsEchelon` | sympy-1.2/sympy/matrices/matrices.py:791-796 | `is_echelon` starts the check at the top-left corner; `Reductions.EchelonShapePasses` states which matrices pass |
| `Reductions.EchelonFormOf` | sympy-1.2/sympy/matrices/matrices.py:528-535 | `_eval_echelon_form`: `_row_reduce` with `normalize_last`, no normalising, no zeroing above; its promises are `Reductions.EchelonFormIsEchelon` |
| `Reductions.EchelonShapePassesFrom` | sympy-1.2/sympy/matrices/matrices.py:537-543 | a matrix of echelon shape passes `_eval_is_echelon` from every such corner |
| `Reductions.EchelonShapePasses` | sympy-1.2/sympy/matrices/matrices.py:791-796 | a matrix of echelon shape is accepted by `is_echelon` |
| `Reductions.EchelonFormIsEchelon` | sympy-1.2/sympy/matrices/matrices.py:528-535 | with an exact zero test, `echelon_form` has echelon shape for its pivots, `is_echelon` accepts it, and it is row-equivalent to the input: it annihilates exactly the vectors the input does |
| `Reductions.EchelonForm` | sympy-1.2/sympy/matrices/matrices.py:717-728 | `echelon_form(with_pivots=True)` keeps the shape and, with an exact zero test, returns an echelon form row-equivalent to the input |
| `Reductions.RrefOf` | sympy-1.2/sympy/matrices/matrices.py:545-549 | `_eval_rref` keeps the shape, with at most one pivot per row, each a column of the matrix |
| `Reductions.RrefIsReduced` | sympy-1.2/sympy/matrices/matrices.py:837-896 | with sound tests that recognise 0, `rref` is in reduced row echelon form with strictly increasing pivots; with an exact zero test it is also row-equivalent to the input |
| `Reductions.Rref` | sympy-1.2/sympy/matrices/matrices.py:837-896 | `rref(pivots=True)` computes `RrefOf`, in reduced row echelon form under sound tests and row-equivalent to the input under an exact zero test |
| `Reductions.FreeVars` | sympy-1.2/sympy/matrices/matrices.py:963 | the free columns: increasing, none a pivot, and every non-pivot column is one |
| `Reductions.FreeVarsCount` | sympy-1.2/sympy/matrices/matrices.py:963 | free and pivot columns together number cols |
| `Reductions.IncreasingPivotSet` | sympy-1.2/sympy/matrices/matrices.py:963 | strictly increasing pivots are len(pivots) distinct columns |
| `Reductions.BackSubstituted` | sympy-1.2/sympy/matrices/matrices.py:969-972 | each vector has cols entries |
| `Reductions.BackSubstitutedAt` | sympy-1.2/sympy/matrices/matrices.py:969-972 | the vector is 1 at its free column, minus the reduced entry at each pivot column, 0 elsewhere |
| `Reductions.NullBasis` | sympy-1.2/sympy/matrices/matrices.py:965-973 | one vector of length cols per free column |
| `Reductions.NullspaceOf` | sympy-1.2/sympy/matrices/matrices.py:935-975 | `nullspace`: `rref`, then one back-substituted vector per free column; its promises are `Reductions.NullspaceCount`, `Reductions.NullspaceFreeColumns`, `Reductions.NullspaceSolvesReduced` and `Reductions.NullspaceInKernel` |
| `Reductions.NullspaceCount` | sympy-1.2/sympy/matrices/matrices.py:961-975 | `nullspace` returns cols - len(pivots) vectors |
| `Reductions.NullspaceFreeColumns` | sympy-1.2/sympy/matrices/matrices.py:961-975 | each vector is 1 at its own free column and 0 at every other free column |
| `Reductions.NullVectorAt` | sympy-1.2/sympy/matrices/matrices.py:969-972 | the vector of a free column, entry by entry |
| `Reductions.RowTimesNullVector` | sympy-1.2/sympy/matrices/matrices.py:971-972 | each row of the reduced matrix times a basis vector is 0 |
| `Reductions.NullspaceSolvesReduced` | sympy-1.2/sympy/matrices/matrices.py:935-975 | with sound tests every returned vector solves reduced * vec == 0 |
| `Reductions.NullspaceInKernel` | sympy-1.2/sympy/matrices/matrices.py:935-975 | with an exact zero test every returned vector lies in the null space of the matrix itself: `self * vec == 0` |
| `Reductions.BackSubstitute` | sympy-1.2/sympy/matrices/matrices.py:969-972 | the back-substitution loop computes `BackSubstituted` |
| `Reductions.BuildBasis` | sympy-1.2/sympy/matrices/matrices.py:965-973 | the loop over the free columns computes `NullBasis` |
| `Reductions.Nullspace` | sympy-1.2/sympy/matrices/matrices.py:935-975 | `nullspace` computes `NullspaceOf`; with an exact zero test every vector it returns is annihilated by the matrix |
| `RowReduction.EliminateFrom` | sympy-1.2/sympy/matrices/matrices.py:692-704 | the zeroing loop keeps the length of the list |
| `RowReduction.EliminateAt` | sympy-1.2/sympy/matrices/matrices.py:692-704 | every cancelled row becomes pv*row - val*pivot_row and every other row is unchanged |
| `RowReduction.EliminateEntry` | sympy-1.2/sympy/matrices/matrices.py:692-704 | the same at a single entry, from any starting row |
| `RowReduction.CancelStepRow` | sympy-1.2/sympy/matrices/matrices.py:699-704 | one iteration of the zeroing loop cancels the visited row against the pivot row exactly when that row is eligible |
| `RowReduction.CancelStepOther` | sympy-1.2/sympy/matrices/matrices.py:699-704 | one iteration of the zeroing loop leaves every other row, the pivot row included, and its eligibility unchanged |
| `RowReduction.ZeroPivotColumn` | sympy-1.2/sympy/matrices/matrices.py:692-704 | the zeroing loop computes `EliminateFrom` |
| `RowReduction.Written` | sympy-1.2/sympy/matrices/matrices.py:668-670 | write-back keeps the length |
| `RowReduction.PivotRowFound` | sympy-1.2/sympy/matrices/matrices.py:676-679 | the pivot row lies between piv_row and the last row |
| `RowReduction.Prepared` | sympy-1.2/sympy/matrices/matrices.py:676-689 | swapping and normalising keep the length |
| `RowReduction.Step` | sympy-1.2/sympy/matrices/matrices.py:661-705 | a pass without a pivot advances piv_col only; with a pivot it advances piv_row only |
| `RowReduction.Pivoted` | sympy-1.2/sympy/matrices/matrices.py:676-705 | a pass with a pivot advances piv_row and keeps piv_col |
| `RowReduction.ReduceFrom` | sympy-1.2/sympy/matrices/matrices.py:661-705 | the `while` loop keeps the list's shape |
| `RowReduction.StepBookkeeping` | sympy-1.2/sympy/matrices/matrices.py:672-679 | a pass keeps one pivot row per pivot, and every swap pairs its pivot row with a later row |
| `RowReduction.PivotBookkeeping` | sympy-1.2/sympy/matrices/matrices.py:676-679 | recording the pivot column and the swap keeps the bookkeeping |
| `RowReduction.WrittenFacts` | sympy-1.2/sympy/matrices/matrices.py:666-670 | write-back touches only the searched part of the pivot column |
| `RowReduction.WrittenSound` | sympy-1.2/sympy/matrices/matrices.py:662-674 | with sound tests write-back keeps each entry zero or nonzero, and a pass without pivot leaves that part of the column zero |
| `RowReduction.WrittenColumnAt` | sympy-1.2/sympy/matrices/matrices.py:668-670 | an entry of the pivot column before and after write-back |
| `RowReduction.WrittenPivot` | sympy-1.2/sympy/matrices/matrices.py:662-670 | after write-back the pivot row holds the pivot value |
| `RowReduction.PreparedPivot` | sympy-1.2/sympy/matrices/matrices.py:676-689 | the pivot entry the zeroing loop uses is `pivot_val` (1 after normalising) |
| `RowReduction.PreparedFacts` | sympy-1.2/sympy/matrices/matrices.py:676-689 | rows above piv_row are unchanged, the pivot row is swapped in, and the passed columns keep their entries |
| `RowReduction.RevisitFindsNoPivot` | sympy-1.2/sympy/matrices/matrices.py:661-705 | the pass that revisits the last pivot's column finds no pivot there |
| `RowReduction.CancelledBelow` | sympy-1.2/sympy/matrices/matrices.py:699-704 | below the pivot every entry of the pivot column tests zero after the zeroing loop |
| `RowReduction.StepIncreasing` | sympy-1.2/sympy/matrices/matrices.py:661-705 | with a test that recognises 0, a pass keeps the pivot columns strictly increasing |
| `RowReduction.PivotIncreasing` | sympy-1.2/sympy/matrices/matrices.py:676-705 | recording a column after a smaller last pivot keeps them increasing |
| `RowReduction.ZeroStays` | sympy-1.2/sympy/matrices/matrices.py:692-704 | a zero entry over a zero of the pivot row stays zero |
| `RowReduction.PivotColumnZeroed` | sympy-1.2/sympy/matrices/matrices.py:692-704 | with a sound test the zeroing loop leaves the pivot column zero in every row it visits |
| `RowReduction.StepEchelonNoPivot` | sympy-1.2/sympy/matrices/matrices.py:672-674 | a pass without a pivot keeps the echelon form (and the cleared columns) |
| `RowReduction.StepEchelonPivot` | sympy-1.2/sympy/matrices/matrices.py:676-705 | a pass with a pivot keeps the echelon form and adds its pivot row |
| `RowReduction.StepClearedPivot` | sympy-1.2/sympy/matrices/matrices.py:692-704 | zeroing above and below keeps every pivot column cleared outside its pivot row |
| `RowReduction.PivotEntryScaled` | sympy-1.2/sympy/matrices/matrices.py:692-704 | an entry over a zero of the pivot row is at most multiplied by the pivot value |
| `RowReduction.PivotValueFacts` | sympy-1.2/sympy/matrices/matrices.py:683-689 | `pivot_val` is 1 after normalising first, and nonzero with an exact zero test |
| `RowReduction.StepNewPivotEntry` | sympy-1.2/sympy/matrices/matrices.py:676-705 | after a pass the new pivot entry is the pivot value |
| `RowReduction.EarlierPivotsPassed` | sympy-1.2/sympy/matrices/matrices.py:661-676 | every earlier pivot column lies left of the current column |
| `RowReduction.PreparedEntry` | sympy-1.2/sympy/matrices/matrices.py:676-689 | an entry left of the pivot column before the zeroing loop |
| `RowReduction.StepOldPivotEntry` | sympy-1.2/sympy/matrices/matrices.py:692-704 | an earlier pivot entry after a pass is what the zeroing loop makes of it |
| `RowReduction.StepUnitPivots` | sympy-1.2/sympy/matrices/matrices.py:683-704 | normalising before zeroing keeps every pivot entry 1 |
| `RowReduction.StepLeadingNonzero` | sympy-1.2/sympy/matrices/matrices.py:692-704 | with an exact zero test every pivot entry stays nonzero |
| `RowReduction.ReduceBookkeeping` | sympy-1.2/sympy/matrices/matrices.py:657-705 | the loop keeps its bookkeeping and stops when it runs out of rows or columns |
| `RowReduction.ReduceIncreasing` | sympy-1.2/sympy/matrices/matrices.py:657-705 | the loop keeps the pivot columns strictly increasing |
| `RowReduction.ReduceEchelon` | sympy-1.2/sympy/matrices/matrices.py:657-705 | the loop keeps the echelon form |
| `RowReduction.ReduceCleared` | sympy-1.2/sympy/matrices/matrices.py:657-705 | zeroing above, the loop keeps every pivot column cleared |
| `RowReduction.ReducePivotEntries` | sympy-1.2/sympy/matrices/matrices.py:657-705 | the loop keeps pivot entries 1 (normalising first) or nonzero (exact test) |
| `RowReduction.NormalizeFrom` | sympy-1.2/sympy/matrices/matrices.py:707-713 | final normalisation keeps the length |
| `RowReduction.NormalizeFromEntry` | sympy-1.2/sympy/matrices/matrices.py:707-713 | each pivot becomes 1 and the entries right of it are divided by it; nothing else moves |
| `RowReduction.NormalizePivotRows` | sympy-1.2/sympy/matrices/matrices.py:707-713 | the final loop computes `NormalizeFrom` |
| `RowReduction.EliminateNull` | sympy-1.2/sympy/matrices/matrices.py:692-704 | with a nonzero pivot value the zeroing loop keeps the null space |
| `RowReduction.ExactWritten` | sympy-1.2/sympy/matrices/matrices.py:662-670 | with an exact zero test the search writes nothing back |
| `RowReduction.PreparedNull` | sympy-1.2/sympy/matrices/matrices.py:676-689 | with an exact zero test, swapping the pivot row in and normalising it keep the null space |
| `RowReduction.StepNull` | sympy-1.2/sympy/matrices/matrices.py:661-705 | with an exact zero test a pass of the loop keeps the null space |
| `RowReduction.ReduceNull` | sympy-1.2/sympy/matrices/matrices.py:657-705 | with an exact zero test the whole loop keeps the null space |
| `RowReduction.NormalizeFromNull` | sympy-1.2/sympy/matrices/matrices.py:707-713 | dividing each pivot row by its nonzero leading entry keeps the null space |
| `RowReduction.RowReduced` | sympy-1.2/sympy/matrices/matrices.py:619-715 | the reduced matrix keeps the shape, with at most one pivot per row, each a column of the matrix |
| `RowReduction.StartFacts` | sympy-1.2/sympy/matrices/matrices.py:657-659 | the loop's invariants hold before the first pass |
| `RowReduction.RowReduceBookkeeping` | sympy-1.2/sympy/matrices/matrices.py:657-715 | every swap (i, j) has i < j, swaps come in increasing i, and one pivot row is used per pivot |
| `RowReduction.RowReducePivotsIncrease` | sympy-1.2/sympy/matrices/matrices.py:657-715 | with a test that recognises 0 the pivot columns are strictly increasing, at most min(rows, cols) |
| `RowReduction.NormalizedEntry` | sympy-1.2/sympy/matrices/matrices.py:707-713 | the final normalisation read at one entry of the result |
| `RowReduction.RowReduceEchelon` | sympy-1.2/sympy/matrices/matrices.py:619-715 | with sound tests the result is in echelon form; with an exact test the pivot entries are nonzero |
| `RowReduction.RowReduceReduced` | sympy-1.2/sympy/matrices/matrices.py:619-715 | with sound tests that recognise 0, normalising and zeroing above gives reduced row echelon form |
| `RowReduction.RowReduceKeepsNullspace` | sympy-1.2/sympy/matrices/matrices.py:619-715 | with an exact zero test the result of `_row_reduce` is row-equivalent to the input: both annihilate exactly the same vectors |
| `RowReduction.RowReduce` | sympy-1.2/sympy/matrices/matrices.py:619-715 | `_row_reduce`, loop by loop, computes `RowReduced` |
| `LUFactor.SetEntry` | sympy-1.2/sympy/matrices/matrices.py:3291 | `lu[i, j] = x` changes exactly that entry |
| `LUFactor.ColumnBelow` | sympy-1.2/sympy/matrices/matrices.py:3258 | `sub_col`: the entries of the column from the pivot row down |
| `LUFactor.SearchPivot` | sympy-1.2/sympy/matrices/matrices.py:3256-3265 | the search stops at a column between pc and cols |
| `LUFactor.SearchPivotUnfold` | sympy-1.2/sympy/matrices/matrices.py:3257-3265 | one column of the search: stop on a pivot, stop at the last column, otherwise move right |
| `LUFactor.SearchPivotFacts` | sympy-1.2/sympy/matrices/matrices.py:3256-3265 | the search stops inside the matrix exactly when it found a pivot there, below the pivot row, and every column it passed tests zero |
| `LUFactor.WriteBack` | sympy-1.2/sympy/matrices/matrices.py:3290-3291 | write-back keeps the shape |
| `LUFactor.WriteBackColumn` | sympy-1.2/sympy/matrices/matrices.py:3290-3291 | write-back changes only the searched column, where it applies the reported pairs |
| `LUFactor.SwapParts` | sympy-1.2/sympy/matrices/matrices.py:3301-3307 | the exchange keeps the shape |
| `LUFactor.SwapPartsTwice` | sympy-1.2/sympy/matrices/matrices.py:3301-3307 | exchanging the same parts twice restores the matrix |
| `LUFactor.PartlyEliminated` | sympy-1.2/sympy/matrices/matrices.py:3315-3328 | the partly eliminated row keeps the width |
| `LUFactor.PartlyEliminatedStep` | sympy-1.2/sympy/matrices/matrices.py:3327-3328 | one more column: lu[row, c] - lu[row, pivot_row]*lu[pivot_row, c] |
| `LUFactor.EliminatedRow` | sympy-1.2/sympy/matrices/matrices.py:3315-3328 | an eliminated row keeps the width |
| `LUFactor.EliminatedUpTo` | sympy-1.2/sympy/matrices/matrices.py:3315-3328 | partial elimination keeps the shape |
| `LUFactor.Eliminate` | sympy-1.2/sympy/matrices/matrices.py:3315-3328 | elimination keeps the shape |
| `LUFactor.EliminatedEntry` | sympy-1.2/sympy/matrices/matrices.py:3315-3328 | an eliminated row holds the multiplier at pivot_row and the reduced entries right of the pivot column |
| `LUFactor.EliminateUndone` | sympy-1.2/sympy/matrices/matrices.py:3318-3328 | an eliminated entry plus multiplier times the pivot row gives back the entry before elimination |
| `LUFactor.EliminateMultipliers` | sympy-1.2/sympy/matrices/matrices.py:3318-3319 | the stored multiplier times a nonzero pivot gives back the eliminated entry |
| `LUFactor.EliminateKeeps` | sympy-1.2/sympy/matrices/matrices.py:3315-3328 | nothing changes in the pivot row and above, nor left of the pivot column except the multiplier's column |
| `LUFactor.ZeroedUpTo` | sympy-1.2/sympy/matrices/matrices.py:3335-3336 | zeroing keeps the shape |
| `LUFactor.ZeroBelow` | sympy-1.2/sympy/matrices/matrices.py:3330-3336 | zeroing keeps the shape |
| `LUFactor.Step` | sympy-1.2/sympy/matrices/matrices.py:3245-3342 | one pass keeps the shape, records at most one swap of the pivot row with a row below, and fails only for the rank check |
| `LUFactor.Pivoted` | sympy-1.2/sympy/matrices/matrices.py:3289-3342 | the pass after a pivot was found never fails and moves to the next column |
| `LUFactor.LUFromUnfold` | sympy-1.2/sympy/matrices/matrices.py:3245-3344 | one pivot row of the decomposition: fail, finish or go on with the next row |
| `LUFactor.LUFrom` | sympy-1.2/sympy/matrices/matrices.py:3245-3344 | the loop over pivot rows of `LUdecomposition_Simple`, from one pivot row on; its promises are `LUFactor.LUFromBookkeeping` and `LUFactor.LUFromUpperTriangular` |
| `LUFactor.LUSimple` | sympy-1.2/sympy/matrices/matrices.py:3149-3344 | `LUdecomposition_Simple`: zeros for an empty matrix, otherwise the pivot-row loop; its promises are `LUFactor.LUSimpleBookkeeping` and `LUFactor.LUSimpleUpperTriangular` |
| `LUFactor.LUFromAfter` | sympy-1.2/sympy/matrices/matrices.py:3245-3344 | the same as one equation |
| `LUFactor.SwapRecordGrows` | sympy-1.2/sympy/matrices/matrices.py:3293-3299 | appending a swap of the pivot row with a row below keeps the swap record |
| `LUFactor.LUFromBookkeeping` | sympy-1.2/sympy/matrices/matrices.py:3245-3344 | the decomposition keeps the shape, records swaps of increasing pivot rows with rows below, and fails only for the rank check |
| `LUFactor.LUSimpleBookkeeping` | sympy-1.2/sympy/matrices/matrices.py:3236-3344 | `LUdecomposition_Simple` keeps the shape, records each swap as [pivot_row, lower row] with increasing pivot rows, and errs only with rankcheck |
| `LUFactor.StepUpperTriangular` | sympy-1.2/sympy/matrices/matrices.py:3256-3338 | on an upper-triangular matrix with a proved-nonzero pivot a pass changes nothing and records no swap |
| `LUFactor.LUFromContinues` | sympy-1.2/sympy/matrices/matrices.py:3245-3344 | a pass that changes nothing hands the rest to the next row |
| `LUFactor.LUFromUpperTriangular` | sympy-1.2/sympy/matrices/matrices.py:3245-3344 | an upper-triangular matrix with proved-nonzero leading pivots decomposes to itself with no swaps |
| `LUFactor.LUFromChain` | sympy-1.2/sympy/matrices/matrices.py:3245-3344 | a chain of such passes reaches the last pivot row unchanged |
| `LUFactor.LUFromLast` | sympy-1.2/sympy/matrices/matrices.py:3245-3344 | the last pivot row ends the decomposition |
| `LUFactor.LUSimpleUpperTriangular` | sympy-1.2/sympy/matrices/matrices.py:3236-3344 | `LUdecomposition_Simple` of such a matrix is the matrix itself with no swaps |
| `LUFactor.SearchColumns` | sympy-1.2/sympy/matrices/matrices.py:3256-3265 | the search loop computes `SearchPivot` |
| `LUFactor.WriteBackPairs` | sympy-1.2/sympy/matrices/matrices.py:3290-3291 | the write-back loop computes `WriteBack` |
| `LUFactor.EliminateRowPass` | sympy-1.2/sympy/matrices/matrices.py:3316-3328 | the loop over one row computes `EliminatedRow` |
| `LUFactor.EliminateBelowPivot` | sympy-1.2/sympy/matrices/matrices.py:3315-3328 | the loop over the rows below computes `Eliminate` |
| `LUFactor.ZeroColumnBelow` | sympy-1.2/sympy/matrices/matrices.py:3335-3336 | the zeroing loop computes `ZeroBelow` |
| `LUFactor.PivotStep` | sympy-1.2/sympy/matrices/matrices.py:3246-3342 | one pass of the loop computes `Step` |
| `LUFactor.EliminationPass` | sympy-1.2/sympy/matrices/matrices.py:3289-3342 | the rest of the pass computes `Pivoted` |
| `LUFactor.LUDecompositionSimple` | sympy-1.2/sympy/matrices/matrices.py:3149-3344 | `LUdecomposition_Simple` computes `LUSimple` |
| `LUFactor.PivotRows` | sympy-1.2/sympy/matrices/matrices.py:3245-3344 | the loop over the pivot rows reaches the decomposition |
| `LUFactor.ReachesNext` | sympy-1.2/sympy/matrices/matrices.py:3245-3344 | one pass keeps the loop on its way to the result, or ends it there |
| `LUFactor.SplitL` | sympy-1.2/sympy/matrices/matrices.py:3128-3138 | L is rows x rows |
| `LUFactor.SplitU` | sympy-1.2/sympy/matrices/matrices.py:3140-3141 | U has the combined matrix's shape |
| `LUFactor.SplitRecombines` | sympy-1.2/sympy/matrices/matrices.py:3121-3144 | L is unit lower triangular, U is upper triangular, and together they give back the combined matrix |
| `LUFactor.LUDecompositionFactors` | sympy-1.2/sympy/matrices/matrices.py:3078-3146 | `LUdecomposition` returns a unit lower-triangular rows x rows L, an upper-triangular U of the input's shape and swaps that each pair a pivot row with a lower row; it errs only under rankcheck |
| `LUFactor.LUDecomposition` | sympy-1.2/sympy/matrices/matrices.py:3078-3146 | `LUdecomposition` splits the combined matrix into L and U; its promises are `LUFactor.LUDecompositionFactors` |
| `LUFactor.LUDecompositionUpperTriangular` | sympy-1.2/sympy/matrices/matrices.py:3078-3146 | an upper-triangular matrix with proved-nonzero leading pivots factors as the identity times itself, with no swaps |
| `FractionFree.Start` | sympy-1.2/sympy/matrices/matrices.py:3369-3372 | the initial state has the source's shapes |
| `FractionFree.LUFF` | sympy-1.2/sympy/matrices/matrices.py:3346-3393 | `LUdecompositionFF`: an error for an empty matrix, else the passes and the last DD entry; its promises are `FractionFree.LUFFFactors` |
| `FractionFree.NonzeroBelow` | sympy-1.2/sympy/matrices/matrices.py:3376-3380 | the first row from `from` with a nonzero entry in column k, or None when all are zero |
| `FractionFree.Exchange` | sympy-1.2/sympy/matrices/matrices.py:3381-3383 | the exchange keeps the shapes, DD and oldpivot |
| `FractionFree.PartlyCondensed` | sympy-1.2/sympy/matrices/matrices.py:3388-3389 | the partly condensed row keeps its width |
| `FractionFree.CondensedRow` | sympy-1.2/sympy/matrices/matrices.py:3386-3390 | the condensed row keeps its width |
| `FractionFree.CondensedUpTo` | sympy-1.2/sympy/matrices/matrices.py:3386-3390 | condensing rows keeps P, DD, oldpivot and the shapes |
| `FractionFree.Condense` | sympy-1.2/sympy/matrices/matrices.py:3384-3391 | the rest of pass k keeps the shapes and sets oldpivot to U[k, k] |
| `FractionFree.CondenseRows` | sympy-1.2/sympy/matrices/matrices.py:3384-3391 | the state after pass k, row by row |
| `FractionFree.Pass` | sympy-1.2/sympy/matrices/matrices.py:3374-3391 | a pass keeps the shapes with a nonzero oldpivot, or fails for a missing pivot or a pivot row past the last column |
| `FractionFree.PassesFrom` | sympy-1.2/sympy/matrices/matrices.py:3374-3391 | the passes keep the shapes with a nonzero oldpivot |
| `FractionFree.PassThenRest` | sympy-1.2/sympy/matrices/matrices.py:3374-3391 | a pass followed by the rest keeps the shapes |
| `FractionFree.UnitRow` | sympy-1.2/sympy/matrices/matrices.py:3370 | a row of `eye(n)` has n entries |
| `FractionFree.StartKept` | sympy-1.2/sympy/matrices/matrices.py:3369-3372 | the initial state satisfies the pass invariant |
| `FractionFree.SwapPartsEntries` | sympy-1.2/sympy/matrices/matrices.py:3381-3383 | the entries after exchanging parts of two rows |
| `FractionFree.ExchangePermutation` | sympy-1.2/sympy/matrices/matrices.py:3383 | exchanging rows of P keeps it a permutation matrix |
| `FractionFree.ExchangeLower` | sympy-1.2/sympy/matrices/matrices.py:3382 | exchanging the parts of L before column k keeps its shape and diagonal |
| `FractionFree.ExchangeCleared` | sympy-1.2/sympy/matrices/matrices.py:3381 | exchanging U from column k on keeps its cleared columns |
| `FractionFree.SameDiagonal` | sympy-1.2/sympy/matrices/matrices.py:3385 | DD and oldpivot depend only on L's diagonal |
| `FractionFree.ExchangeKept` | sympy-1.2/sympy/matrices/matrices.py:3381-3383 | the exchange keeps the pass invariant |
| `FractionFree.CondensedRowEntries` | sympy-1.2/sympy/matrices/matrices.py:3386-3390 | a condensed row is untouched before column k and zero in column k |
| `FractionFree.CondensedUpToRows` | sympy-1.2/sympy/matrices/matrices.py:3386-3390 | which rows pass k has condensed and which it left alone |
| `FractionFree.CondensedUpToStep` | sympy-1.2/sympy/matrices/matrices.py:3386-3390 | processing one more row extends the condensed rows by one |
| `FractionFree.CondensedLower` | sympy-1.2/sympy/matrices/matrices.py:3384-3387 | storing the pivot and the multipliers keeps L lower triangular with one more pivot |
| `FractionFree.ProductsStep` | sympy-1.2/sympy/matrices/matrices.py:3385 | setting DD[k, k] = oldpivot*Ukk extends the products by one |
| `FractionFree.ClearedStep` | sympy-1.2/sympy/matrices/matrices.py:3386-3390 | condensing the rows below the pivot clears column k of U |
| `FractionFree.CondensedKept` | sympy-1.2/sympy/matrices/matrices.py:3384-3391 | the second half of pass k keeps the invariant, one pivot further |
| `FractionFree.PassKept` | sympy-1.2/sympy/matrices/matrices.py:3374-3391 | a successful pass keeps the invariant, one pivot further |
| `FractionFree.PassesFromNext` | sympy-1.2/sympy/matrices/matrices.py:3374-3391 | the chain of passes after one step |
| `FractionFree.PassesKept` | sympy-1.2/sympy/matrices/matrices.py:3374-3391 | every pass keeps the invariant |
| `FractionFree.NextKept` | sympy-1.2/sympy/matrices/matrices.py:3374-3391 | a successful pass hands an invariant-keeping state to the rest |
| `FractionFree.PassesErrors` | sympy-1.2/sympy/matrices/matrices.py:3374-3391 | the passes fail only for a missing pivot or a pivot row past the last column |
| `FractionFree.PassesFailShort` | sympy-1.2/sympy/matrices/matrices.py:3374-3384 | reaching a pivot row past the last column always fails |
| `FractionFree.NextPass` | sympy-1.2/sympy/matrices/matrices.py:3374-3391 | a pass either hands on a state or ends the passes with its own error |
| `FractionFree.LUFFFactors` | sympy-1.2/sympy/matrices/matrices.py:3346-3393 | P is a permutation matrix, L lower triangular with nonzero pivots, DD diagonal holding oldpivot*pivot, U zero below the diagonal with L's pivots on it |
| `FractionFree.LUFFErrors` | sympy-1.2/sympy/matrices/matrices.py:3346-3393 | an empty matrix fails on DD[-1, -1]; otherwise only a missing pivot or a column-less pivot row, always when rows >= cols + 2 |
| `FractionFree.LUFFZero` | sympy-1.2/sympy/matrices/matrices.py:3376-3380 | a zero matrix with two rows and a column is not full rank |
| `FractionFree.LUFF2` | sympy-1.2/sympy/matrices/matrices.py:3346-3393 | a 2x2 matrix with a nonzero corner: no exchange, the corner as first pivot, and the determinant as the last entry of U |
| `FractionFree.TwoByTwoRows` | sympy-1.2/sympy/matrices/matrices.py:3384-3392 | the entries of the 2x2 factors |
| `FractionFree.FindPivotRow` | sympy-1.2/sympy/matrices/matrices.py:3376-3380 | the `kpivot` loop computes `NonzeroBelow` |
| `FractionFree.CondenseRow` | sympy-1.2/sympy/matrices/matrices.py:3386-3390 | the inner loop computes `CondensedRow` |
| `FractionFree.CondenseBelow` | sympy-1.2/sympy/matrices/matrices.py:3386-3390 | the loop over the rows below computes `CondensedUpTo` |
| `FractionFree.PassStep` | sympy-1.2/sympy/matrices/matrices.py:3374-3391 | one pass computes `Pass` |
| `FractionFree.LUDecompositionFF` | sympy-1.2/sympy/matrices/matrices.py:3346-3393 | `LUdecompositionFF` computes `LUFF` |

## Left out

- The Float/Integer partial-pivoting path of `_find_reasonable_pivot` (matrices.py lines 4169-4181) is not modelled. It depends on floating-point magnitudes.
- Common.Quot: returns 0 for a division by an exact zero. SymPy would produce `zoo` or `nan` there. Such a division happens only after a pivot was assumed nonzero and is not.
- DetMethods.LowerChar: lowercases only the ASCII letters. Python's `str.lower` also folds other Unicode letters, which cannot spell a method name anyway.
- Determinants.BerkowitzUpperTriangular: is stated weaker than the source's promise. Agreement of Berkowitz with the determinant is proved for upper-triangular matrices and, in `Determinants.BerkowitzSmall`, for every matrix up to 3x3, not for all matrices. The general identity needs the theory of the characteristic polynomial.
- Determinants.BareissDetUpperTriangular: is stated weaker than the source's promise. Bareiss is proved to equal the determinant for upper-triangular matrices and, in `Determinants.Bareiss2`, for every 2x2 matrix, not in general.
- DetMethods.DetLUUpperTriangular: is stated weaker than the source's promise. `det(P)*det(U)` is proved to be the determinant only for upper-triangular input, because P*A = L*U itself is not proved.
- LUFactor.LUDecompositionFactors: does not state `P*A = L*U`. It proves the shape, triangularity and swap-record facts, plus the undo identities of each elimination step (`LUFactor.EliminateUndone`, `LUFactor.EliminateMultipliers`). The product identity needs matrix products over sums that are out of reach here.
- FractionFree.LUFFFactors: does not state `P*A = L*DD**-1*U`, for the same reason. It proves the permutation, triangular and diagonal structure and where the pivots go. Nor does it state that every division by `oldpivot` is exact, so that the factors of a matrix over an integral domain stay in that domain (matrices.py:3350-3351): entries are reals, and the exactness rests on Sylvester's determinant identity, which is not proved here.
- RowReduction.RowReduceKeepsNullspace: states row-equivalence as "the result and the input annihilate exactly the same vectors", which for two matrices of one shape is the same as equal row spaces; it does not build the invertible matrix that turns one into the other. It is proved for a zero test that decides every entry. With an undecided test the source may assume a zero pivot is nonzero, and then `cross_cancel` by that pivot can lose a row.
- Reductions.NullspaceInKernel: is stated weaker than the source's promise. The returned vectors are proved to lie in the null space, and `Reductions.NullspaceFreeColumns` shows they are independent (each is 1 at its own free column and 0 at the others), but that they span the null space is not proved.
- DetMethods.DetLU: requires a square matrix. Its caller `det` rejects non-square input first.
- `simpfunc` of `_eval_det_lu` is not a parameter. The source ignores it and always passes `simpfunc=None` to `LUdecomposition_Simple`.
- `is_zero` on entries is `DetMethods.ExactIsZero`, since every entry of the model is an exact rational. `_is_zero_after_expand_mul` (Bareiss) and the truth test `if U[kpivot, k]` (`LUdecompositionFF`) are exact comparisons with 0 for the same reason.
- `cancel` in Bareiss is the identity on exact values and is not modelled separately.
- `rank` calls `self.det()` on a 2x2 matrix; the model uses the closed form, which is what `det` returns for any method at that size. The `simplify` argument of `rank`, `rref`, `echelon_form` and `nullspace` is a function parameter; SymPy's default `_simplify` is not modelled.
- In-place updates and aliasing are not modelled. Each mutating loop (`mat` in `_row_reduce`, `lu`, and `U`, `L`, `P`, `DD` in `LUdecompositionFF`) is a method over values that reassigns the whole list or matrix.
- Row and column operations do not model `_normalize_op_args` or the string dispatch of `elementary_row_op`/`elementary_col_op`. The `_eval_*` operations take validated indices.
- These are not modelled: `eigenvals`, `eigenvects`, `diagonalize`, `jordan_form` apart from `blocks_from_nullity_chain`, `singular_values`, QR, Cholesky/LDL, `pinv`, `gauss_jordan_solve`, the calculus methods, printing, and `charpoly`'s `PurePoly` wrapper. They rely on symbolic, floating-point or external routines.
