/** `det(method)`: the method name as the caller spells it, the checks in
    the order the source makes them, the closed forms up to 3x3, and the
    three algorithms beyond; with `_eval_det_lu`, the determinant read off
    the factor that `LUdecomposition_Simple` returns. */
module DetMethods {
  import opened Common
  import opened Matrices
  import opened Determinants
  import opened LUFactor

  // ---------------------------------------------------------------------
  // _eval_det_lu
  // ---------------------------------------------------------------------

  /** `det = -1 if len(row_swaps) % 2 else 1`, then `det *= lu[k, k]` for
      the first k diagonal entries, in that order. */
  function SignedDiagonal(s: real, lu: Mat, k: nat): real
    requires k <= lu.rows && k <= lu.cols
  {
    if k == 0 then s else SignedDiagonal(s, lu, k - 1) * lu.e[k - 1][k - 1]
  }

  /** The running product is the sign times the diagonal product. */
  lemma {:induction false} SignedDiagonalScales(s: real, lu: Mat, k: nat)
    requires k <= lu.rows && k <= lu.cols
    ensures SignedDiagonal(s, lu, k) == s * DiagProduct(lu, k)
  {
    if k > 0 {
      SignedDiagonalScales(s, lu, k - 1);
      var x, p := lu.e[k - 1][k - 1], DiagProduct(lu, k - 1);
      assert (s * p) * x == s * (p * x);
    }
  }

  /** `lu, row_swaps = self.LUdecomposition_Simple(iszerofunc=iszerofunc,
      simpfunc=None)`: without a rank check it always succeeds. */
  function Factor(m: Mat, isZero: ZeroTest): (r: (Mat, seq<(nat, nat)>))
    ensures r.0.rows == m.rows && r.0.cols == m.cols
  {
    LUSimpleBookkeeping(m, isZero, None, false);
    LUSimple(m, isZero, None, false).value
  }

  /** `_eval_det_lu()`: 1 for the empty matrix, 0 when the zero test says
      the last diagonal entry of the factor is zero, otherwise the sign of
      the row exchanges times the diagonal of the factor. */
  function DetLUOf(m: Mat, isZero: ZeroTest): real
    requires IsSquare(m)
  {
    if m.rows == 0 then 1.0
    else if isZero(Factor(m, isZero).0.e[m.rows - 1][m.rows - 1]) == Some(true) then 0.0
    else SignedDiagonal(Sign(|Factor(m, isZero).1|), Factor(m, isZero).0, m.rows)
  }

  /** The shortcut on a zero last entry is sound: with a zero test that is
      right whenever it answers, the result is always det(P)*det(U), the sign
      of the exchanges times the diagonal product of the factor. */
  lemma DetLUShortcut(m: Mat, isZero: ZeroTest)
    requires IsSquare(m) && 0 < m.rows && SoundZeroTest(isZero)
    ensures DetLUOf(m, isZero) == Sign(|Factor(m, isZero).1|) * DiagProduct(Factor(m, isZero).0, m.rows)
  {
    FactorShortcut(Factor(m, isZero).0, Factor(m, isZero).1, m.rows, isZero);
  }

  /** The same on the factor itself. */
  lemma FactorShortcut(lu: Mat, swaps: seq<(nat, nat)>, n: nat, isZero: ZeroTest)
    requires 0 < n <= lu.rows && n <= lu.cols && SoundZeroTest(isZero)
    ensures (if isZero(lu.e[n - 1][n - 1]) == Some(true) then 0.0 else SignedDiagonal(Sign(|swaps|), lu, n))
      == Sign(|swaps|) * DiagProduct(lu, n)
  {
    SignedDiagonalScales(Sign(|swaps|), lu, n);
    if isZero(lu.e[n - 1][n - 1]) == Some(true) {
      LastDiagonalZero(lu, n);
    }
  }

  /** A zero last entry makes the diagonal product zero. */
  lemma LastDiagonalZero(lu: Mat, n: nat)
    requires 0 < n <= lu.rows && n <= lu.cols && lu.e[n - 1][n - 1] == 0.0
    ensures DiagProduct(lu, n) == 0.0
  {
  }

  /** On an upper-triangular matrix whose leading pivots the zero test
      recognises as nonzero, the LU determinant is the cofactor expansion. */
  lemma DetLUUpperTriangular(m: Mat, isZero: ZeroTest)
    requires IsSquare(m) && UpperTriangular(m) && SoundZeroTest(isZero)
    requires LeadingPivotsNonzero(m, isZero)
    ensures DetLUOf(m, isZero) == Laplace(m)
  {
    LaplaceUpperTriangular(m);
    if 0 < m.rows {
      LUSimpleUpperTriangular(m, isZero, None, false);
      assert Factor(m, isZero) == (m, []);
      DetLUShortcut(m, isZero);
      assert Sign(0) == 1.0;
    }
  }

  /** `_eval_det_lu()`. */
  method DetLU(m: Mat, isZero: ZeroTest) returns (det: real)
    requires IsSquare(m)
    ensures det == DetLUOf(m, isZero)
  {
    if m.rows == 0 {
      return 1.0;
    }
    var res := LUDecompositionSimple(m, isZero, None, false);
    LUSimpleBookkeeping(m, isZero, None, false);
    var (lu, swaps) := res.value;
    assert (lu, swaps) == Factor(m, isZero);
    var n := m.rows;
    if isZero(lu.e[n - 1][n - 1]) == Some(true) {
      return 0.0;
    }
    var sign := if |swaps| % 2 == 1 then -1.0 else 1.0;
    det := MultiplyDiagonal(sign, lu, n);
  }

  /** `for k in range(lu.rows): det *= lu[k, k]`. */
  method MultiplyDiagonal(s: real, lu: Mat, n: nat) returns (det: real)
    requires n <= lu.rows && n <= lu.cols
    ensures det == SignedDiagonal(s, lu, n)
  {
    det := s;
    for k := 0 to n
      invariant det == SignedDiagonal(s, lu, k)
    {
      det := det * lu.e[k][k];
    }
  }

  // ---------------------------------------------------------------------
  // det(method)
  // ---------------------------------------------------------------------

  datatype DetMethod = Bareiss | Berkowitz | LU

  /** `str.lower` on the ASCII letters. */
  function LowerChar(c: char): (r: char)
    ensures 'A' <= c <= 'Z' ==> r as int == c as int + 32
    ensures !('A' <= c <= 'Z') ==> r == c
  {
    if 'A' <= c <= 'Z' then (c as int + 32) as char else c
  }

  function Lower(s: string): (r: string)
    ensures |r| == |s| && forall i | 0 <= i < |s| :: r[i] == LowerChar(s[i])
  {
    if s == [] then [] else [LowerChar(s[0])] + Lower(s[1..])
  }

  /** Lowering twice changes nothing more. */
  lemma LowerIdempotent(s: string)
    ensures Lower(Lower(s)) == Lower(s)
  {
    var l := Lower(s);
    assert forall i | 0 <= i < |s| :: LowerChar(l[i]) == l[i];
  }

  /** The method name after `method.lower()` and the two aliases, or None
      for the `ValueError`. */
  function ParseMethod(name: string): Option<DetMethod>
  {
    var l := Lower(name);
    if l == "bareis" || l == "bareiss" then Some(Bareiss)
    else if l == "berkowitz" then Some(Berkowitz)
    else if l == "lu" || l == "det_lu" then Some(LU)
    else None
  }

  /** The name is read without regard to case. */
  lemma ParseMethodIgnoresCase(name: string)
    ensures ParseMethod(Lower(name)) == ParseMethod(name)
  {
    LowerIdempotent(name);
  }

  /** `is_zero` on the exact entries of this model. */
  function ExactIsZero(x: real): Option<bool>
  {
    Some(x == 0.0)
  }

  /** `det(method)`: an unrecognised method name first, then a non-square
      matrix, are errors; up to 3x3 the closed forms; beyond, the algorithm
      named. */
  function Det(m: Mat, name: string): Result<real, MatrixError>
  {
    match ParseMethod(name)
    case None => Err(UnknownDeterminantMethod)
    case Some(kind) =>
      if m.rows != m.cols then Err(NonSquareMatrix)
      else if m.rows <= 3 then Ok(ClosedForm(m))
      else match kind
        case Bareiss => Ok(DetBareiss(m))
        case Berkowitz => Ok(DetBerkowitz(m))
        case LU => Ok(DetLUOf(m, ExactIsZero))
  }

  /** The errors, and the order in which they are raised. */
  lemma DetErrors(m: Mat, name: string)
    ensures Det(m, name).Err? <==> ParseMethod(name).None? || m.rows != m.cols
    ensures ParseMethod(name).None? ==> Det(m, name) == Err(UnknownDeterminantMethod)
    ensures ParseMethod(name).Some? && m.rows != m.cols ==> Det(m, name) == Err(NonSquareMatrix)
  {
  }

  /** Up to 3x3 every method gives the cofactor expansion, and so does
      Berkowitz itself. */
  lemma DetSmall(m: Mat, name: string)
    requires IsSquare(m) && m.rows <= 3 && ParseMethod(name).Some?
    ensures Det(m, name) == Ok(Laplace(m))
    ensures DetBerkowitz(m) == Laplace(m)
  {
    BerkowitzSmall(m);
  }

  /** On an upper-triangular matrix all three methods give the cofactor
      expansion; LU needs the diagonal nonzero except perhaps its last
      entry, since `LUdecomposition_Simple` does not search for a pivot in
      a column whose diagonal entry is nonzero. */
  lemma DetUpperTriangular(m: Mat, name: string)
    requires IsSquare(m) && UpperTriangular(m) && ParseMethod(name).Some?
    requires forall k | 0 <= k < m.rows - 1 :: m.e[k][k] != 0.0
    ensures Det(m, name) == Ok(Laplace(m))
  {
    if m.rows > 3 {
      match ParseMethod(name).value
      case Bareiss => BareissDetUpperTriangular(m);
      case Berkowitz => BerkowitzUpperTriangular(m);
      case LU =>
        assert SoundZeroTest(ExactIsZero);
        assert LeadingPivotsNonzero(m, ExactIsZero);
        DetLUUpperTriangular(m, ExactIsZero);
    }
  }
}
