/** The Jordan block-size rule of `jordan_form`: from the chain of nullities
    d[n] = nullity(E**n) of E = A - val*I, the number of Jordan blocks of
    each size. */
module Jordan {

  /** Sum of the first m entries. */
  function SumTo(s: seq<int>, m: nat): int
    requires m <= |s|
  {
    if m == 0 then 0 else SumTo(s, m - 1) + s[m - 1]
  }

  /** Sum of the first m entries, entry k weighted by k + 1 (the block size
      it counts). */
  function WeightedSumTo(s: seq<int>, m: nat): int
    requires m <= |s|
  {
    if m == 0 then 0 else WeightedSumTo(s, m - 1) + m * s[m - 1]
  }

  /** `blocks_from_nullity_chain(d)`: entry n-1 is the number of blocks of
      size n, `2*d[n] - d[n-1] - d[n+1]` in the middle and `d[-1] - d[-2]`
      for the largest size; a chain of one entry gives `[d[0]]`. */
  function BlocksFromNullityChain(d: seq<int>): (b: seq<int>)
    requires |d| >= 1
    ensures |b| == if |d| > 1 then |d| - 1 else 1
  {
    var midLen := if |d| >= 2 then |d| - 2 else 0;
    var mid := seq(midLen, k requires 0 <= k < midLen => 2 * d[k + 1] - d[k] - d[k + 2]);
    var end := if |d| > 1 then [d[|d| - 1] - d[|d| - 2]] else [d[0]];
    mid + end
  }

  /** With the chain taken to plateau (d[|d|] == d[|d| - 1]), every entry
      follows the single rule 2*d[n] - d[n-1] - d[n+1]. */
  lemma BlocksFollowPlateauRule(d: seq<int>)
    requires |d| >= 2
    ensures var b := BlocksFromNullityChain(d);
      var ext := d + [d[|d| - 1]];
      forall n | 1 <= n < |d| :: b[n - 1] == 2 * ext[n] - ext[n - 1] - ext[n + 1]
  {
  }

  /** The middle entries of the block counts, summed plain and weighted,
      telescope. */
  lemma {:induction false} MidSum(d: seq<int>, b: seq<int>, m: nat)
    requires m + 2 <= |d| && m <= |b|
    requires forall k :: 0 <= k < m ==> b[k] == 2 * d[k + 1] - d[k] - d[k + 2]
    ensures SumTo(b, m) == (d[1] - d[0]) - (d[m + 1] - d[m])
  {
    if m > 0 {
      MidSum(d, b, m - 1);
    }
  }

  lemma {:induction false} MidWeightedSum(d: seq<int>, b: seq<int>, m: nat)
    requires m + 2 <= |d| && m <= |b|
    requires forall k :: 0 <= k < m ==> b[k] == 2 * d[k + 1] - d[k] - d[k + 2]
    ensures WeightedSumTo(b, m) == (d[m] - d[0]) - m * (d[m + 1] - d[m])
  {
    if m > 0 {
      MidWeightedSum(d, b, m - 1);
      var x, y, z := d[m - 1], d[m], d[m + 1];
      assert b[m - 1] == 2 * y - x - z;
      assert (m - 1) * (y - x) == m * y - m * x - y + x;
      assert m * (2 * y - x - z) == 2 * (m * y) - m * x - m * z;
      assert m * (z - y) == m * z - m * y;
    }
  }

  lemma BlocksEntries(d: seq<int>)
    requires |d| >= 2
    ensures var b := BlocksFromNullityChain(d);
      |b| == |d| - 1 && b[|d| - 2] == d[|d| - 1] - d[|d| - 2] &&
      forall k :: 0 <= k < |d| - 2 ==> b[k] == 2 * d[k + 1] - d[k] - d[k + 2]
  {
  }

  lemma SuccessorTimes(n: int, t: int)
    ensures (n + 1) * t == n * t + t
  {
  }

  /** The blocks count the geometric multiplicity d[1] - d[0] (one block per
      independent eigenvector) and their sizes add up to d[-1] - d[0], the
      dimension of the generalised eigenspace. */
  lemma BlocksAccountForNullities(d: seq<int>)
    requires |d| >= 2
    ensures var b := BlocksFromNullityChain(d);
      SumTo(b, |b|) == d[1] - d[0] && WeightedSumTo(b, |b|) == d[|d| - 1] - d[0]
  {
    var b := BlocksFromNullityChain(d);
    var L := |d|;
    BlocksEntries(d);
    MidSum(d, b, L - 2);
    MidWeightedSum(d, b, L - 2);
    var top := d[L - 1] - d[L - 2];
    assert SumTo(b, L - 1) == SumTo(b, L - 2) + top;
    var n := L - 2;
    assert WeightedSumTo(b, n) == (d[n] - d[0]) - n * top;
    assert WeightedSumTo(b, n + 1) == WeightedSumTo(b, n) + (n + 1) * top;
    SuccessorTimes(n, top);
  }
}
