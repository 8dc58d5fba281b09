/** Shared vocabulary of the matrix engine: optional and error-carrying results,
    exact division in the field of fractions, and what it means for an injected
    zero test to be trustworthy. */
module Common {

  datatype Option<T> = None | Some(value: T)

  datatype Result<T, E> = Ok(value: T) | Err(error: E)

  /** The errors the engine raises. */
  datatype MatrixError =
    | NonSquareMatrix                 // NonSquareMatrixError
    | UnknownDeterminantMethod        // ValueError("Determinant method ... unrecognized")
    | IndexOutOfRange                 // ValueError("`i` and `j` must satisfy ...")
    | RankDeficient                   // ValueError("Rank of matrix is strictly less than ...")
    | NotFullRank                     // ValueError("Matrix is not full rank")
    | EntryIndexError                 // IndexError on an entry outside the matrix

  /** A zero test answers Some(true) (provably zero), Some(false) (provably
      nonzero) or None (cannot decide). */
  type ZeroTest = real -> Option<bool>

  /** Division of ring elements. A division by an exact zero (which happens
      only when a pivot was assumed nonzero and is not) yields 0 here. */
  function Quot(a: real, b: real): (q: real)
    ensures b != 0.0 ==> q * b == a
    ensures a == 0.0 ==> q == 0.0
  {
    if b == 0.0 then 0.0 else a / b
  }

  /** The zero test is right whenever it answers. */
  ghost predicate SoundZeroTest(isZero: ZeroTest)
  {
    forall x :: isZero(x).Some? ==> (isZero(x).value <==> x == 0.0)
  }

  /** The zero test recognises the literal zero that cancellation produces. */
  predicate RecognisesZero(isZero: ZeroTest)
  {
    isZero(0.0) == Some(true)
  }

  /** The zero test decides every element correctly (as `is_zero` does on
      integer and rational entries). */
  ghost predicate ExactZeroTest(isZero: ZeroTest)
  {
    forall x :: isZero(x) == Some(x == 0.0)
  }

  /** (-1)**k as a ring element. */
  function Sign(k: nat): (s: real)
    ensures s == 1.0 || s == -1.0
    ensures k > 0 ==> s == -Sign(k - 1)
  {
    if k % 2 == 0 then 1.0 else -1.0
  }
}
