/** Pivot selection under a three-valued zero test: `_find_reasonable_pivot`
    (without its Float fast path) and `_find_reasonable_pivot_naive`. Each
    search is a method that works the way the source does, pass by pass, and
    is proved equal to a specification function whose postconditions state
    what the search promises. */
module Pivot {
  import opened Common

  /** `(pivot_offset, pivot_val, assumed_nonzero, newly_determined)`. */
  datatype PivotResult = PivotResult(
    offset: Option<nat>,
    value: Option<real>,
    assumedNonzero: bool,
    newlyDetermined: seq<(nat, real)>)

  /** `(None, None, False, newly_determined)`: the column has no pivot. */
  function NoPivot(newly: seq<(nat, real)>): PivotResult
  {
    PivotResult(None, None, false, newly)
  }

  /** The zero-test outcome of every candidate. */
  function Statuses(col: seq<real>, isZero: ZeroTest): (s: seq<Option<bool>>)
    ensures |s| == |col|
    ensures forall k | 0 <= k < |col| :: s[k] == isZero(col[k])
  {
    seq(|col|, k requires 0 <= k < |col| => isZero(col[k]))
  }

  /** `all(possible_zeros)`: every outcome is "provably zero". */
  predicate AllZero(s: seq<Option<bool>>)
  {
    forall k | 0 <= k < |s| :: s[k] == Some(true)
  }

  /** `s.index(x)`, or None when x does not occur. */
  function FirstIndexOf<T(==)>(s: seq<T>, x: T): (r: Option<nat>)
    ensures r.None? <==> x !in s
    ensures r.Some? ==> r.value < |s| && s[r.value] == x && x !in s[..r.value]
  {
    if |s| == 0 then None
    else if s[0] == x then Some(0)
    else
      match FirstIndexOf(s[1..], x)
      case None => None
      case Some(i) =>
        assert s[1..][..i] == s[1..i + 1];
        assert s[..i + 1] == [s[0]] + s[1..i + 1];
        Some(i + 1)
  }

  /** Offsets of `newly_determined` are strictly increasing. */
  predicate IncreasingOffsets(newly: seq<(nat, real)>)
  {
    forall a, b | 0 <= a < b < |newly| :: newly[a].0 < newly[b].0
  }

  /** No offset of `newly_determined` is reported twice. */
  predicate DistinctOffsets(newly: seq<(nat, real)>)
  {
    forall a, b | 0 <= a < |newly| && 0 <= b < |newly| && a != b :: newly[a].0 != newly[b].0
  }

  predicate OffsetsBelow(newly: seq<(nat, real)>, n: nat)
  {
    forall a | 0 <= a < |newly| :: newly[a].0 < n
  }

  /** Write each simplified entry back into the column, as the callers of the
      pivot searches do (`mat[offset*cols + piv_col] = val`). */
  function ApplyNewly(col: seq<real>, newly: seq<(nat, real)>): (c: seq<real>)
    requires OffsetsBelow(newly, |col|)
    ensures |c| == |col|
    decreases |newly|
  {
    if newly == [] then col else ApplyNewly(col[newly[0].0 := newly[0].1], newly[1..])
  }

  lemma {:induction false} ApplyNewlyAt(col: seq<real>, newly: seq<(nat, real)>, k: nat)
    requires OffsetsBelow(newly, |col|) && DistinctOffsets(newly) && k < |col|
    ensures (forall a | 0 <= a < |newly| :: newly[a].0 != k) ==> ApplyNewly(col, newly)[k] == col[k]
    ensures forall a | 0 <= a < |newly| && newly[a].0 == k :: ApplyNewly(col, newly)[k] == newly[a].1
    decreases |newly|
  {
    if newly != [] {
      var col' := col[newly[0].0 := newly[0].1];
      ApplyNewlyAt(col', newly[1..], k);
      if newly[0].0 == k {
        forall a | 1 <= a < |newly| ensures newly[a].0 != k { assert newly[0].0 != newly[a].0; }
        assert forall a | 0 <= a < |newly[1..]| :: newly[1..][a].0 != k;
      } else {
        assert forall a | 1 <= a < |newly| && newly[a].0 == k :: newly[1..][a - 1].0 == k;
      }
    }
  }

  // ---------------------------------------------------------------------
  // _find_reasonable_pivot_naive
  // ---------------------------------------------------------------------

  /** Every reported pair is an undecided candidate that the simplifier
      changed, with its simplified value. */
  predicate ChangedBySimplifier(col: seq<real>, isZero: ZeroTest, f: real -> real, newly: seq<(nat, real)>)
  {
    forall a | 0 <= a < |newly| ::
      newly[a].0 < |col| && isZero(col[newly[a].0]) == None &&
      newly[a].1 == f(col[newly[a].0]) && newly[a].1 != col[newly[a].0]
  }

  /** `indeterminates`: the candidates among the first n whose zero test is
      undecided, as (offset, value) pairs in column order. */
  function Undecided(col: seq<real>, isZero: ZeroTest, n: nat): seq<(nat, real)>
    requires n <= |col|
  {
    if n == 0 then []
    else
      var u := Undecided(col, isZero, n - 1);
      if isZero(col[n - 1]) == None then u + [(n - 1, col[n - 1])] else u
  }

  /** `indeterminates` lists exactly the undecided candidates, in order. */
  lemma {:induction false} UndecidedFacts(col: seq<real>, isZero: ZeroTest, n: nat)
    requires n <= |col|
    ensures var u := Undecided(col, isZero, n);
      IncreasingOffsets(u) &&
      (forall a | 0 <= a < |u| :: u[a].0 < n && u[a].1 == col[u[a].0] && isZero(col[u[a].0]) == None) &&
      ((u == []) <==> (forall k | 0 <= k < n :: isZero(col[k]) != None)) &&
      (u != [] ==> forall k | 0 <= k < u[0].0 :: isZero(col[k]) != None)
  {
    if n > 0 {
      UndecidedFacts(col, isZero, n - 1);
    }
  }

  /** The simplification loop over `indeterminates`, from position t on, with
      the pairs simplified so far. */
  function SimplifySearch(isZero: ZeroTest, f: real -> real, ind: seq<(nat, real)>,
                          t: nat, newly: seq<(nat, real)>): PivotResult
    requires ind != [] && t <= |ind|
    decreases |ind| - t
  {
    if t == |ind| then PivotResult(Some(ind[0].0), Some(ind[0].1), true, newly)
    else
      var k, v := ind[t].0, ind[t].1;
      var s := f(v);
      if s != v then
        if isZero(s) == Some(false) then PivotResult(Some(k), Some(s), false, newly + [(k, s)])
        else SimplifySearch(isZero, f, ind, t + 1, newly + [(k, s)])
      else SimplifySearch(isZero, f, ind, t + 1, newly)
  }

  /** The simplification loop picks an undecided candidate: either one the
      simplifier turned provably nonzero, or else the first undecided one,
      assumed nonzero; it reports exactly what it simplified. */
  lemma SimplifySearchPicks(col: seq<real>, isZero: ZeroTest, f: real -> real,
                            ind: seq<(nat, real)>, t: nat, newly: seq<(nat, real)>)
    requires ind == Undecided(col, isZero, |col|) && ind != [] && t <= |ind|
    requires IncreasingOffsets(newly) && (t < |ind| ==> OffsetsBelow(newly, ind[t].0))
    requires ChangedBySimplifier(col, isZero, f, newly)
    ensures var r := SimplifySearch(isZero, f, ind, t, newly);
      r.offset.Some? && r.value.Some? && r.offset.value < |col| &&
      isZero(col[r.offset.value]) == None &&
      (r.assumedNonzero ==> r.offset == Some(ind[0].0) && r.value == Some(ind[0].1)) &&
      (!r.assumedNonzero ==>
        r.value == Some(f(col[r.offset.value])) && r.value.value != col[r.offset.value] &&
        isZero(r.value.value) == Some(false) &&
        r.newlyDetermined != [] && r.newlyDetermined[|r.newlyDetermined| - 1] == (r.offset.value, r.value.value)) &&
      IncreasingOffsets(r.newlyDetermined) &&
      ChangedBySimplifier(col, isZero, f, r.newlyDetermined)
  {
    SimplifySearchChoice(col, isZero, f, ind, t, newly);
    SimplifySearchReports(col, isZero, f, ind, t, newly);
  }

  /** The candidate the simplification loop settles on. */
  lemma {:induction false} SimplifySearchChoice(col: seq<real>, isZero: ZeroTest, f: real -> real,
                                                ind: seq<(nat, real)>, t: nat, newly: seq<(nat, real)>)
    requires ind == Undecided(col, isZero, |col|) && ind != [] && t <= |ind|
    ensures var r := SimplifySearch(isZero, f, ind, t, newly);
      r.offset.Some? && r.value.Some? && r.offset.value < |col| &&
      isZero(col[r.offset.value]) == None &&
      (r.assumedNonzero ==> r.offset == Some(ind[0].0) && r.value == Some(ind[0].1)) &&
      (!r.assumedNonzero ==>
        r.value == Some(f(col[r.offset.value])) && r.value.value != col[r.offset.value] &&
        isZero(r.value.value) == Some(false) &&
        r.newlyDetermined != [] && r.newlyDetermined[|r.newlyDetermined| - 1] == (r.offset.value, r.value.value))
    decreases |ind| - t
  {
    UndecidedFacts(col, isZero, |col|);
    if t < |ind| {
      var k, v := ind[t].0, ind[t].1;
      var s := f(v);
      if s != v {
        if isZero(s) != Some(false) {
          SimplifySearchChoice(col, isZero, f, ind, t + 1, newly + [(k, s)]);
        }
      } else {
        SimplifySearchChoice(col, isZero, f, ind, t + 1, newly);
      }
    }
  }

  /** The pairs the simplification loop reports are in column order and each
      is a candidate the simplifier changed. */
  lemma {:induction false} SimplifySearchReports(col: seq<real>, isZero: ZeroTest, f: real -> real,
                                                 ind: seq<(nat, real)>, t: nat, newly: seq<(nat, real)>)
    requires ind == Undecided(col, isZero, |col|) && ind != [] && t <= |ind|
    requires IncreasingOffsets(newly) && (t < |ind| ==> OffsetsBelow(newly, ind[t].0))
    requires ChangedBySimplifier(col, isZero, f, newly)
    ensures var r := SimplifySearch(isZero, f, ind, t, newly);
      IncreasingOffsets(r.newlyDetermined) && ChangedBySimplifier(col, isZero, f, r.newlyDetermined)
    decreases |ind| - t
  {
    UndecidedFacts(col, isZero, |col|);
    if t < |ind| {
      var k, v := ind[t].0, ind[t].1;
      var s := f(v);
      assert t + 1 < |ind| ==> k < ind[t + 1].0;
      if s != v {
        var newly' := newly + [(k, s)];
        assert IncreasingOffsets(newly') && ChangedBySimplifier(col, isZero, f, newly') by {
          assert ChangedBySimplifier(col, isZero, f, newly);
          assert k < |col| && isZero(col[k]) == None && v == col[k];
        }
        if isZero(s) != Some(false) {
          SimplifySearchReports(col, isZero, f, ind, t + 1, newly');
        }
      } else {
        SimplifySearchReports(col, isZero, f, ind, t + 1, newly);
      }
    }
  }

  /** What `_find_reasonable_pivot_naive(col, iszerofunc, simpfunc)` returns;
      `simp == None` is `simpfunc=None`. */
  function NaivePivot(col: seq<real>, isZero: ZeroTest, simp: Option<real -> real>): PivotResult
  {
    match FirstIndexOf(Statuses(col, isZero), Some(false))
    case Some(i) => PivotResult(Some(i), Some(col[i]), false, [])
    case None =>
      var ind := Undecided(col, isZero, |col|);
      if ind == [] then NoPivot([])
      else if simp.None? then PivotResult(Some(ind[0].0), Some(ind[0].1), true, [])
      else SimplifySearch(isZero, simp.value, ind, 0, [])
  }

  /** What the naive search promises its callers. */
  lemma NaivePivotPromises(col: seq<real>, isZero: ZeroTest, simp: Option<real -> real>)
    ensures var r := NaivePivot(col, isZero, simp);
      var statuses := Statuses(col, isZero);
      (r.offset.None? <==> r.value.None?) &&
      // No pivot exactly when every candidate is provably zero.
      (r.offset.None? <==> AllZero(statuses)) &&
      (r.offset.None? ==> r == NoPivot([])) &&
      (r.offset.Some? ==> r.offset.value < |col| && isZero(col[r.offset.value]) != Some(true)) &&
      // The first provably nonzero candidate wins, and nothing is simplified.
      (Some(false) in statuses ==>
        var i := FirstIndexOf(statuses, Some(false)).value;
        r == PivotResult(Some(i), Some(col[i]), false, [])) &&
      // Without a simplifier, the first undecided candidate is assumed nonzero.
      (simp.None? && Some(false) !in statuses && None in statuses ==>
        var u := FirstIndexOf(statuses, None).value;
        r == PivotResult(Some(u), Some(col[u]), true, [])) &&
      // An assumed pivot is the first undecided candidate, unsimplified.
      (r.assumedNonzero ==>
        r.offset.Some? && r.offset == FirstIndexOf(statuses, None) && r.value == Some(col[r.offset.value])) &&
      // A pivot that is not assumed is provably nonzero: a candidate as it
      // stands, or a simplified one, reported last.
      (r.offset.Some? && !r.assumedNonzero ==> isZero(r.value.value) == Some(false)) &&
      (r.offset.Some? && !r.assumedNonzero ==>
        (r.newlyDetermined == [] && r.value == Some(col[r.offset.value])) ||
        (simp.Some? && r.value == Some(simp.value(col[r.offset.value])) && r.newlyDetermined != [] &&
         r.newlyDetermined[|r.newlyDetermined| - 1] == (r.offset.value, r.value.value))) &&
      // Only undecided candidates that the simplifier changed are reported.
      IncreasingOffsets(r.newlyDetermined) && OffsetsBelow(r.newlyDetermined, |col|) &&
      (r.newlyDetermined != [] ==> simp.Some? && ChangedBySimplifier(col, isZero, simp.value, r.newlyDetermined))
  {
    var statuses := Statuses(col, isZero);
    if Some(false) !in statuses {
      var ind := Undecided(col, isZero, |col|);
      UndecidedFacts(col, isZero, |col|);
      if ind == [] {
        forall k | 0 <= k < |col| ensures statuses[k] == Some(true) {
          assert statuses[k] != Some(false) && isZero(col[k]) != None;
          assert statuses[k].Some? && statuses[k].value;
        }
      } else {
        assert FirstIndexOf(statuses, None) == Some(ind[0].0) by {
          assert statuses[ind[0].0] == None;
          assert None !in statuses[..ind[0].0];
        }
        if simp.Some? {
          SimplifySearchPicks(col, isZero, simp.value, ind, 0, []);
        }
      }
    }
  }

  lemma NaivePivotFirstNonzero(col: seq<real>, isZero: ZeroTest, simp: Option<real -> real>, i: nat)
    requires i < |col| && isZero(col[i]) == Some(false)
    requires forall k | 0 <= k < i :: isZero(col[k]) != Some(false)
    ensures NaivePivot(col, isZero, simp) == PivotResult(Some(i), Some(col[i]), false, [])
  {
    var statuses := Statuses(col, isZero);
    assert statuses[i] == Some(false);
    assert Some(false) !in statuses[..i];
  }

  lemma NaivePivotNoNonzero(col: seq<real>, isZero: ZeroTest, simp: Option<real -> real>)
    requires forall k | 0 <= k < |col| :: isZero(col[k]) != Some(false)
    ensures var ind := Undecided(col, isZero, |col|);
      NaivePivot(col, isZero, simp) ==
        if ind == [] then NoPivot([])
        else if simp.None? then PivotResult(Some(ind[0].0), Some(ind[0].1), true, [])
        else SimplifySearch(isZero, simp.value, ind, 0, [])
  {
    assert Some(false) !in Statuses(col, isZero);
  }

  /** `_find_reasonable_pivot_naive`: one scan that collects the undecided
      candidates, then (with a simplifier) a scan of those. */
  method FindPivotNaive(col: seq<real>, isZero: ZeroTest, simp: Option<real -> real>) returns (r: PivotResult)
    ensures r == NaivePivot(col, isZero, simp)
  {
    var indeterminates: seq<(nat, real)> := [];
    var i := 0;
    while i < |col|
      invariant 0 <= i <= |col|
      invariant forall k | 0 <= k < i :: isZero(col[k]) != Some(false)
      invariant indeterminates == Undecided(col, isZero, i)
    {
      var isZeroVal := isZero(col[i]);
      if isZeroVal == Some(false) {
        NaivePivotFirstNonzero(col, isZero, simp, i);
        return PivotResult(Some(i), Some(col[i]), false, []);
      } else if isZeroVal == None {
        indeterminates := indeterminates + [(i, col[i])];
      }
      i := i + 1;
    }
    NaivePivotNoNonzero(col, isZero, simp);
    if |indeterminates| == 0 {
      return NoPivot([]);
    }
    if simp.None? {
      return PivotResult(Some(indeterminates[0].0), Some(indeterminates[0].1), true, []);
    }
    r := SimplifyUndecided(isZero, simp.value, indeterminates);
  }

  /** The second loop of `_find_reasonable_pivot_naive`: simplify each
      undecided candidate in turn until one becomes provably nonzero. */
  method SimplifyUndecided(isZero: ZeroTest, f: real -> real, indeterminates: seq<(nat, real)>)
    returns (r: PivotResult)
    requires indeterminates != []
    ensures r == SimplifySearch(isZero, f, indeterminates, 0, [])
  {
    ghost var spec := SimplifySearch(isZero, f, indeterminates, 0, []);
    var newly: seq<(nat, real)> := [];
    var t := 0;
    while t < |indeterminates|
      invariant 0 <= t <= |indeterminates|
      invariant SimplifySearch(isZero, f, indeterminates, t, newly) == spec
    {
      var k, v := indeterminates[t].0, indeterminates[t].1;
      var simplified := f(v);
      if simplified != v {
        newly := newly + [(k, simplified)];
        if isZero(simplified) == Some(false) {
          return PivotResult(Some(k), Some(simplified), false, newly);
        }
      }
      t := t + 1;
    }
    return PivotResult(Some(indeterminates[0].0), Some(indeterminates[0].1), true, newly);
  }

  // ---------------------------------------------------------------------
  // _find_reasonable_pivot (without the Float fast path)
  // ---------------------------------------------------------------------

  /** `possible_zeros` after pass 2: each undecided candidate is retested
      after simplification. */
  function SimplifiedStatuses(col: seq<real>, isZero: ZeroTest, f: real -> real): (s: seq<Option<bool>>)
    ensures |s| == |col|
    ensures forall k | 0 <= k < |col| ::
      s[k] == if isZero(col[k]).Some? then isZero(col[k]) else isZero(f(col[k]))
  {
    seq(|col|, k requires 0 <= k < |col| =>
      if isZero(col[k]).Some? then isZero(col[k]) else isZero(f(col[k])))
  }

  /** `possible_zeros` after pass 3, from `possible_zeros` after pass 2: a
      candidate still undecided is settled as zero when `equals(0)` holds. */
  function EqualsStatuses(col: seq<real>, s2: seq<Option<bool>>, equalsZero: real -> bool): (s: seq<Option<bool>>)
    requires |s2| == |col|
    ensures |s| == |col|
    ensures forall k | 0 <= k < |col| :: s[k] == if s2[k] == None && equalsZero(col[k]) then Some(true) else s2[k]
  {
    seq(|col|, k requires 0 <= k < |col| => if s2[k] == None && equalsZero(col[k]) then Some(true) else s2[k])
  }

  /** The pairs pass 2 reports among the first n candidates: each undecided
      candidate whose simplified form the zero test decides. */
  function SimplifiedPairs(col: seq<real>, isZero: ZeroTest, f: real -> real, n: nat): seq<(nat, real)>
    requires n <= |col|
  {
    if n == 0 then []
    else
      var u := SimplifiedPairs(col, isZero, f, n - 1);
      if isZero(col[n - 1]) == None && isZero(f(col[n - 1])).Some? then u + [(n - 1, f(col[n - 1]))] else u
  }

  lemma {:induction false} SimplifiedPairsFacts(col: seq<real>, isZero: ZeroTest, f: real -> real, n: nat)
    requires n <= |col|
    ensures var u := SimplifiedPairs(col, isZero, f, n);
      IncreasingOffsets(u) &&
      forall a | 0 <= a < |u| ::
        u[a].0 < n && isZero(col[u[a].0]) == None && isZero(f(col[u[a].0])).Some? && u[a].1 == f(col[u[a].0])
  {
    if n > 0 {
      SimplifiedPairsFacts(col, isZero, f, n - 1);
    }
  }

  /** The pairs pass 3 reports among the first n candidates: each candidate
      still undecided after pass 2 that `equals(0)` settles, paired with 0. */
  function EqualsPairs(col: seq<real>, s2: seq<Option<bool>>, equalsZero: real -> bool, n: nat): seq<(nat, real)>
    requires |s2| == |col| && n <= |col|
  {
    if n == 0 then []
    else
      var u := EqualsPairs(col, s2, equalsZero, n - 1);
      if s2[n - 1] == None && equalsZero(col[n - 1]) then u + [(n - 1, 0.0)] else u
  }

  lemma {:induction false} EqualsPairsFacts(col: seq<real>, s2: seq<Option<bool>>, equalsZero: real -> bool, n: nat)
    requires |s2| == |col| && n <= |col|
    ensures var u := EqualsPairs(col, s2, equalsZero, n);
      IncreasingOffsets(u) &&
      forall a | 0 <= a < |u| :: u[a].0 < n && s2[u[a].0] == None && equalsZero(col[u[a].0]) && u[a].1 == 0.0
  {
    if n > 0 {
      EqualsPairsFacts(col, s2, equalsZero, n - 1);
    }
  }

  /** When pass 2 found nothing provably nonzero and not everything is zero
      after pass 3, some candidate is still undecided. */
  lemma UndecidedRemains(col: seq<real>, s2: seq<Option<bool>>, equalsZero: real -> bool)
    requires |s2| == |col| && Some(false) !in s2
    requires !AllZero(EqualsStatuses(col, s2, equalsZero))
    ensures None in EqualsStatuses(col, s2, equalsZero)
  {
    var s3 := EqualsStatuses(col, s2, equalsZero);
    var k :| 0 <= k < |s3| && s3[k] != Some(true);
    assert s3[k] == s2[k] && s2[k] != Some(true);
    assert s2[k] in s2;
    match s2[k]
    case None => assert s3[k] in s3;
    case Some(b) => assert false;
  }

  /** What `_find_reasonable_pivot(col, iszerofunc, simpfunc)` returns;
      `equalsZero` is the `x.equals(S.Zero)` test of pass 3. */
  function ReasonablePivot(col: seq<real>, isZero: ZeroTest, f: real -> real, equalsZero: real -> bool): PivotResult
  {
    var s1 := Statuses(col, isZero);
    match FirstIndexOf(s1, Some(false))
    case Some(i) => PivotResult(Some(i), Some(col[i]), false, [])
    case None => if AllZero(s1) then NoPivot([]) else SimplifiedPivot(col, isZero, f, equalsZero)
  }

  /** The result of passes 2 and 3, when pass 1 proved nothing nonzero and
      not everything zero. */
  function SimplifiedPivot(col: seq<real>, isZero: ZeroTest, f: real -> real, equalsZero: real -> bool): PivotResult
  {
    var s2 := SimplifiedStatuses(col, isZero, f);
    match FirstIndexOf(s2, Some(false))
    case Some(j) => PivotResult(Some(j), Some(f(col[j])), false, SimplifiedPairs(col, isZero, f, j + 1))
    case None =>
      var n2 := SimplifiedPairs(col, isZero, f, |col|);
      if AllZero(s2) then NoPivot(n2) else EqualsPivot(col, s2, equalsZero, n2)
  }

  /** The result of pass 3 and the final fallback, from `possible_zeros` and
      `newly_determined` after pass 2. */
  function EqualsPivot(col: seq<real>, s2: seq<Option<bool>>, equalsZero: real -> bool,
                       n2: seq<(nat, real)>): PivotResult
    requires |s2| == |col| && Some(false) !in s2
  {
    var s3 := EqualsStatuses(col, s2, equalsZero);
    var n3 := n2 + EqualsPairs(col, s2, equalsZero, |col|);
    if AllZero(s3) then NoPivot(n3)
    else
      UndecidedRemains(col, s2, equalsZero);
      var u := FirstIndexOf(s3, None).value;
      PivotResult(Some(u), Some(col[u]), true, n3)
  }

  /** A candidate some pass settles as zero: the zero test says so, or it
      says so of the simplified candidate, or `equals(0)` does when both are
      undecided. */
  predicate SettledZero(x: real, isZero: ZeroTest, f: real -> real, equalsZero: real -> bool)
  {
    isZero(x) == Some(true) ||
    (isZero(x) == None && (isZero(f(x)) == Some(true) || (isZero(f(x)) == None && equalsZero(x))))
  }

  /** A candidate that pass 1 or pass 2 proves nonzero. */
  predicate ProvedNonzero(x: real, isZero: ZeroTest, f: real -> real)
  {
    isZero(x) == Some(false) || (isZero(x) == None && isZero(f(x)) == Some(false))
  }

  lemma FinalStatusMeaning(col: seq<real>, isZero: ZeroTest, f: real -> real, equalsZero: real -> bool, k: nat)
    requires k < |col|
    ensures var s3 := EqualsStatuses(col, SimplifiedStatuses(col, isZero, f), equalsZero);
      (s3[k] == Some(true) <==> SettledZero(col[k], isZero, f, equalsZero)) &&
      (s3[k] == Some(false) <==> ProvedNonzero(col[k], isZero, f))
  {
  }

  /** `possible_zeros` after all three passes, entry by entry. */
  lemma FinalStatuses(col: seq<real>, isZero: ZeroTest, f: real -> real, equalsZero: real -> bool)
    ensures var s3 := EqualsStatuses(col, SimplifiedStatuses(col, isZero, f), equalsZero);
      forall k | 0 <= k < |col| ::
        (s3[k] == Some(true) <==> SettledZero(col[k], isZero, f, equalsZero)) &&
        (s3[k] == Some(false) <==> ProvedNonzero(col[k], isZero, f))
  {
    forall k | 0 <= k < |col| ensures
      var s3 := EqualsStatuses(col, SimplifiedStatuses(col, isZero, f), equalsZero);
      (s3[k] == Some(true) <==> SettledZero(col[k], isZero, f, equalsZero)) &&
      (s3[k] == Some(false) <==> ProvedNonzero(col[k], isZero, f))
    {
      FinalStatusMeaning(col, isZero, f, equalsZero, k);
    }
  }

  /** The search finds no pivot exactly when every candidate is settled as
      zero; otherwise it names one. */
  lemma ReasonablePivotNone(col: seq<real>, isZero: ZeroTest, f: real -> real, equalsZero: real -> bool)
    ensures var r := ReasonablePivot(col, isZero, f, equalsZero);
      (r.offset.None? <==> r.value.None?) &&
      (r.offset.Some? ==> r.offset.value < |col|) &&
      (r.offset.None? <==> forall k | 0 <= k < |col| :: SettledZero(col[k], isZero, f, equalsZero))
  {
    var s1 := Statuses(col, isZero);
    var s2 := SimplifiedStatuses(col, isZero, f);
    var s3 := EqualsStatuses(col, s2, equalsZero);
    FinalStatuses(col, isZero, f, equalsZero);
    match FirstIndexOf(s1, Some(false))
    case Some(i) =>
      assert s3[i] == Some(false);
    case None =>
      if AllZero(s1) {
        forall k | 0 <= k < |col| ensures s3[k] == Some(true) { assert s1[k] == Some(true); }
      } else {
        match FirstIndexOf(s2, Some(false))
        case Some(j) =>
          assert s3[j] == Some(false);
        case None =>
          if AllZero(s2) {
            forall k | 0 <= k < |col| ensures s3[k] == Some(true) { assert s2[k] == Some(true); }
          } else if !AllZero(s3) {
            UndecidedRemains(col, s2, equalsZero);
          }
      }
  }

  /** A candidate the plain zero test proves nonzero wins over every
      simplification: the first such candidate is the pivot, unsimplified. */
  lemma ReasonablePivotFirstDecided(col: seq<real>, isZero: ZeroTest, f: real -> real, equalsZero: real -> bool)
    requires Some(false) in Statuses(col, isZero)
    ensures var i := FirstIndexOf(Statuses(col, isZero), Some(false)).value;
      ReasonablePivot(col, isZero, f, equalsZero) == PivotResult(Some(i), Some(col[i]), false, []) &&
      isZero(col[i]) == Some(false) && forall k | 0 <= k < i :: isZero(col[k]) != Some(false)
  {
    var s1 := Statuses(col, isZero);
    var i := FirstIndexOf(s1, Some(false)).value;
    forall k | 0 <= k < i ensures isZero(col[k]) != Some(false) {
      assert s1[k] in s1[..i];
    }
  }

  /** A pivot that is not assumed is proved nonzero, as it stands or after
      simplification; when pass 1 proved nothing it is the first candidate
      that simplification proves nonzero. */
  lemma ReasonablePivotProved(col: seq<real>, isZero: ZeroTest, f: real -> real, equalsZero: real -> bool)
    ensures var r := ReasonablePivot(col, isZero, f, equalsZero);
      r.offset.Some? && !r.assumedNonzero ==>
        r.offset.value < |col| && ProvedNonzero(col[r.offset.value], isZero, f) &&
        isZero(r.value.value) == Some(false) &&
        (r.value.value == col[r.offset.value] ||
         (isZero(col[r.offset.value]) == None && r.value.value == f(col[r.offset.value]))) &&
        (Some(false) !in Statuses(col, isZero) ==>
          forall k | 0 <= k < r.offset.value :: !ProvedNonzero(col[k], isZero, f))
  {
    var s1 := Statuses(col, isZero);
    var s2 := SimplifiedStatuses(col, isZero, f);
    if Some(false) !in s1 && !AllZero(s1) {
      match FirstIndexOf(s2, Some(false))
      case Some(j) =>
        assert s1[j] in s1;
        forall k | 0 <= k < j ensures !ProvedNonzero(col[k], isZero, f) {
          assert s1[k] in s1 && s2[k] in s2[..j];
        }
      case None =>
    }
  }

  /** An assumed pivot is the first candidate no pass settles, unsimplified,
      and then no candidate at all was proved nonzero. */
  lemma ReasonablePivotAssumed(col: seq<real>, isZero: ZeroTest, f: real -> real, equalsZero: real -> bool)
    ensures var r := ReasonablePivot(col, isZero, f, equalsZero);
      r.assumedNonzero ==>
        r.offset.Some? && r.offset.value < |col| && r.value == Some(col[r.offset.value]) &&
        !SettledZero(col[r.offset.value], isZero, f, equalsZero) &&
        (forall k | 0 <= k < r.offset.value :: SettledZero(col[k], isZero, f, equalsZero)) &&
        (forall k | 0 <= k < |col| :: !ProvedNonzero(col[k], isZero, f))
  {
    var s1 := Statuses(col, isZero);
    var s2 := SimplifiedStatuses(col, isZero, f);
    var s3 := EqualsStatuses(col, s2, equalsZero);
    var r := ReasonablePivot(col, isZero, f, equalsZero);
    if r.assumedNonzero {
      FinalStatuses(col, isZero, f, equalsZero);
      assert Some(false) !in s1 && Some(false) !in s2 && !AllZero(s3);
      forall k | 0 <= k < |col| ensures s3[k] != Some(false) {
        assert s1[k] in s1 && s2[k] in s2;
      }
      UndecidedRemains(col, s2, equalsZero);
      var u := FirstIndexOf(s3, None).value;
      forall k | 0 <= k < u ensures s3[k] == Some(true) {
        assert s3[k] in s3[..u];
        match s3[k]
        case Some(b) =>
        case None => assert false;
      }
    }
  }

  /** A reported pair: an undecided candidate whose simplified form the zero
      test decides, paired with that form, or one that `equals(0)` settles,
      paired with 0. */
  predicate SettledPair(col: seq<real>, isZero: ZeroTest, f: real -> real, equalsZero: real -> bool, p: (nat, real))
  {
    p.0 < |col| && isZero(col[p.0]) == None &&
    ((isZero(f(col[p.0])).Some? && p.1 == f(col[p.0])) ||
     (isZero(f(col[p.0])) == None && equalsZero(col[p.0]) && p.1 == 0.0))
  }

  /** `newly_determined` reports each settled candidate at most once. */
  lemma ReasonablePivotReports(col: seq<real>, isZero: ZeroTest, f: real -> real, equalsZero: real -> bool)
    ensures var newly := ReasonablePivot(col, isZero, f, equalsZero).newlyDetermined;
      DistinctOffsets(newly) && OffsetsBelow(newly, |col|) &&
      forall a | 0 <= a < |newly| :: SettledPair(col, isZero, f, equalsZero, newly[a])
  {
    var s1 := Statuses(col, isZero);
    if Some(false) !in s1 && !AllZero(s1) {
      var s2 := SimplifiedStatuses(col, isZero, f);
      match FirstIndexOf(s2, Some(false))
      case Some(j) =>
        SimplifiedPairsFacts(col, isZero, f, j + 1);
      case None =>
        SimplifiedPairsFacts(col, isZero, f, |col|);
        if !AllZero(s2) {
          BothPassesReport(col, isZero, f, equalsZero);
          assert ReasonablePivot(col, isZero, f, equalsZero).newlyDetermined ==
            SimplifiedPairs(col, isZero, f, |col|) + EqualsPairs(col, s2, equalsZero, |col|);
        }
    }
  }

  /** The pairs of pass 2 followed by those of pass 3 name distinct
      candidates: pass 2 reports only what the simplified test decides, pass 3
      only what it leaves undecided. */
  lemma BothPassesReport(col: seq<real>, isZero: ZeroTest, f: real -> real, equalsZero: real -> bool)
    ensures var s2 := SimplifiedStatuses(col, isZero, f);
      var n3 := SimplifiedPairs(col, isZero, f, |col|) + EqualsPairs(col, s2, equalsZero, |col|);
      DistinctOffsets(n3) && OffsetsBelow(n3, |col|) &&
      forall a | 0 <= a < |n3| :: SettledPair(col, isZero, f, equalsZero, n3[a])
  {
    var s2 := SimplifiedStatuses(col, isZero, f);
    var n2 := SimplifiedPairs(col, isZero, f, |col|);
    var e3 := EqualsPairs(col, s2, equalsZero, |col|);
    SimplifiedPairsFacts(col, isZero, f, |col|);
    EqualsPairsFacts(col, s2, equalsZero, |col|);
    var n3 := n2 + e3;
    forall a | 0 <= a < |n3| ensures n3[a].0 < |col| && SettledPair(col, isZero, f, equalsZero, n3[a]) {
      if a >= |n2| {
        assert n3[a] == e3[a - |n2|];
      }
    }
    forall a, b | 0 <= a < |n3| && 0 <= b < |n3| && a != b ensures n3[a].0 != n3[b].0 {
      if a < |n2| && b >= |n2| {
        assert n3[b] == e3[b - |n2|];
      } else if a >= |n2| && b < |n2| {
        assert n3[a] == e3[a - |n2|];
      } else if a >= |n2| {
        assert n3[a] == e3[a - |n2|] && n3[b] == e3[b - |n2|];
      }
    }
  }

  /** After the caller writes `newly_determined` back into the column, the
      pivot entry holds the returned pivot value. */
  lemma ReasonablePivotWriteBack(col: seq<real>, isZero: ZeroTest, f: real -> real, equalsZero: real -> bool)
    ensures var r := ReasonablePivot(col, isZero, f, equalsZero);
      OffsetsBelow(r.newlyDetermined, |col|) &&
      (r.offset.Some? ==>
        r.offset.value < |col| && r.value.Some? &&
        ApplyNewly(col, r.newlyDetermined)[r.offset.value] == r.value.value)
  {
    var r := ReasonablePivot(col, isZero, f, equalsZero);
    ReasonablePivotReports(col, isZero, f, equalsZero);
    var s1 := Statuses(col, isZero);
    if Some(false) in s1 {
      assert r.newlyDetermined == [];
    } else if !AllZero(s1) {
      var s2 := SimplifiedStatuses(col, isZero, f);
      match FirstIndexOf(s2, Some(false))
      case Some(j) =>
        assert s1[j] in s1;
        var newly := SimplifiedPairs(col, isZero, f, j) + [(j, f(col[j]))];
        assert r.newlyDetermined == newly;
        ApplyNewlyAt(col, newly, j);
        assert newly[|newly| - 1].0 == j;
      case None =>
        if r.assumedNonzero {
          AssumedPivotNotReported(col, isZero, f, equalsZero);
        }
    }
  }

  /** A candidate neither settled as zero nor proved nonzero is undecided by
      every test. */
  lemma Unsettled(x: real, isZero: ZeroTest, f: real -> real, equalsZero: real -> bool)
    requires !SettledZero(x, isZero, f, equalsZero) && !ProvedNonzero(x, isZero, f)
    ensures isZero(x) == None && isZero(f(x)) == None && !equalsZero(x)
  {
    match isZero(x)
    case Some(b) => assert false;
    case None =>
      match isZero(f(x))
      case Some(c) => assert false;
      case None =>
  }

  lemma AssumedPivotNotReported(col: seq<real>, isZero: ZeroTest, f: real -> real, equalsZero: real -> bool)
    requires ReasonablePivot(col, isZero, f, equalsZero).assumedNonzero
    ensures var r := ReasonablePivot(col, isZero, f, equalsZero);
      r.offset.Some? && r.offset.value < |col| && r.value == Some(col[r.offset.value]) &&
      OffsetsBelow(r.newlyDetermined, |col|) &&
      ApplyNewly(col, r.newlyDetermined)[r.offset.value] == col[r.offset.value]
  {
    var r := ReasonablePivot(col, isZero, f, equalsZero);
    ReasonablePivotReports(col, isZero, f, equalsZero);
    ReasonablePivotAssumed(col, isZero, f, equalsZero);
    var u := r.offset.value;
    Unsettled(col[u], isZero, f, equalsZero);
    forall a | 0 <= a < |r.newlyDetermined| ensures r.newlyDetermined[a].0 != u {
      assert SettledPair(col, isZero, f, equalsZero, r.newlyDetermined[a]);
    }
    ApplyNewlyAt(col, r.newlyDetermined, u);
  }

  /** Simplification does not change whether a candidate is zero. */
  ghost predicate PreservesZero(f: real -> real)
  {
    forall x :: f(x) == 0.0 <==> x == 0.0
  }

  /** `equals(0)` holds only of zero. */
  ghost predicate SoundEqualsZero(equalsZero: real -> bool)
  {
    forall x :: equalsZero(x) ==> x == 0.0
  }

  /** With trustworthy tests the search is sound: no pivot means a zero
      column, a proved pivot is nonzero, and writing back the settled
      candidates changes no entry from zero to nonzero or back. */
  lemma ReasonablePivotSound(col: seq<real>, isZero: ZeroTest, f: real -> real, equalsZero: real -> bool)
    requires SoundZeroTest(isZero) && PreservesZero(f) && SoundEqualsZero(equalsZero)
    ensures var r := ReasonablePivot(col, isZero, f, equalsZero);
      OffsetsBelow(r.newlyDetermined, |col|) &&
      (r.offset.None? ==> forall k | 0 <= k < |col| :: col[k] == 0.0) &&
      (r.offset.Some? && !r.assumedNonzero ==>
        r.offset.value < |col| && r.value.Some? && col[r.offset.value] != 0.0 && r.value.value != 0.0) &&
      forall k | 0 <= k < |col| :: (ApplyNewly(col, r.newlyDetermined)[k] == 0.0 <==> col[k] == 0.0)
  {
    var r := ReasonablePivot(col, isZero, f, equalsZero);
    ReasonablePivotNone(col, isZero, f, equalsZero);
    ReasonablePivotProved(col, isZero, f, equalsZero);
    ReasonablePivotReports(col, isZero, f, equalsZero);
    var newly := r.newlyDetermined;
    forall k | 0 <= k < |col| ensures (ApplyNewly(col, newly)[k] == 0.0 <==> col[k] == 0.0) {
      ApplyNewlyAt(col, newly, k);
      if a :| 0 <= a < |newly| && newly[a].0 == k {
        assert SettledPair(col, isZero, f, equalsZero, newly[a]);
      }
    }
  }

  /** With a zero test that decides every candidate (integer or rational
      entries), the search never has to assume a pivot and has nothing to
      write back. */
  lemma ExactSearchAssumesNothing(col: seq<real>, isZero: ZeroTest, f: real -> real, equalsZero: real -> bool)
    requires ExactZeroTest(isZero)
    ensures !ReasonablePivot(col, isZero, f, equalsZero).assumedNonzero
    ensures ReasonablePivot(col, isZero, f, equalsZero).newlyDetermined == []
  {
    var s1 := Statuses(col, isZero);
    if FirstIndexOf(s1, Some(false)).None? {
      forall k | 0 <= k < |s1| ensures s1[k] == Some(true) {
        assert s1[k] in s1;
        var b := col[k] == 0.0;
        assert s1[k] == Some(b) && s1[k] != Some(false);
        assert b;
      }
      assert AllZero(s1);
    }
  }

  /** The two searches agree whenever the plain zero test decides the column:
      some candidate proved nonzero, or every candidate proved zero. */
  lemma NaiveAgreesWithReasonable(col: seq<real>, isZero: ZeroTest, simp: Option<real -> real>,
                                  f: real -> real, equalsZero: real -> bool)
    requires Some(false) in Statuses(col, isZero) || AllZero(Statuses(col, isZero))
    ensures NaivePivot(col, isZero, simp) == ReasonablePivot(col, isZero, f, equalsZero)
  {
    NaivePivotPromises(col, isZero, simp);
  }

  /** Naive search: with a sound zero test, no pivot means a zero column and a
      pivot that is not assumed is nonzero, and so is its entry when the
      simplifier does not change whether a candidate is zero. */
  lemma NaivePivotSound(col: seq<real>, isZero: ZeroTest, simp: Option<real -> real>)
    requires SoundZeroTest(isZero)
    ensures var r := NaivePivot(col, isZero, simp);
      (r.offset.None? ==> forall k | 0 <= k < |col| :: col[k] == 0.0) &&
      (r.offset.Some? && !r.assumedNonzero ==>
        r.offset.value < |col| && r.value.Some? && r.value.value != 0.0 &&
        (simp.Some? && PreservesZero(simp.value) ==> col[r.offset.value] != 0.0))
  {
    var r := NaivePivot(col, isZero, simp);
    NaivePivotPromises(col, isZero, simp);
    if r.offset.None? {
      forall k | 0 <= k < |col| ensures col[k] == 0.0 {
        assert Statuses(col, isZero)[k] == Some(true);
      }
    }
  }

  /** Naive search: after the caller writes `newly_determined` back, the entry
      of a pivot that is not assumed holds the returned pivot value. */
  lemma NaivePivotWriteBack(col: seq<real>, isZero: ZeroTest, simp: Option<real -> real>)
    ensures var r := NaivePivot(col, isZero, simp);
      OffsetsBelow(r.newlyDetermined, |col|) &&
      (r.offset.Some? && !r.assumedNonzero ==>
        r.offset.value < |col| && r.value.Some? &&
        ApplyNewly(col, r.newlyDetermined)[r.offset.value] == r.value.value)
  {
    var r := NaivePivot(col, isZero, simp);
    NaivePivotPromises(col, isZero, simp);
    if r.offset.Some? {
      ApplyNewlyAt(col, r.newlyDetermined, r.offset.value);
    }
  }

  lemma FirstIndexOfIs<T>(s: seq<T>, x: T, i: nat)
    requires i < |s| && s[i] == x && forall k | 0 <= k < i :: s[k] != x
    ensures FirstIndexOf(s, x) == Some(i)
  {
    assert x !in s[..i];
  }

  /** `_find_reasonable_pivot`: pass 1 tests every candidate, pass 2 retests
      the undecided ones after simplification, pass 3 tries `equals(0)` on
      those still undecided, and an undecided candidate is assumed nonzero
      last. */
  method FindReasonablePivot(col: seq<real>, isZero: ZeroTest, f: real -> real, equalsZero: real -> bool)
    returns (r: PivotResult)
    ensures r == ReasonablePivot(col, isZero, f, equalsZero)
  {
    var nonzero, possibleZeros := ZeroTestPass(col, isZero);
    if nonzero.Some? {
      return PivotResult(nonzero, Some(col[nonzero.value]), false, []);
    }
    if AllZero(possibleZeros) {
      return NoPivot([]);
    }
    var simplified, newly;
    nonzero, simplified, possibleZeros, newly := SimplifyPass(col, isZero, f, possibleZeros);
    if nonzero.Some? {
      return PivotResult(nonzero, Some(simplified), false, newly);
    }
    if AllZero(possibleZeros) {
      return NoPivot(newly);
    }
    ghost var s2 := possibleZeros;
    possibleZeros, newly := EqualsPass(col, equalsZero, possibleZeros, newly);
    if AllZero(possibleZeros) {
      return NoPivot(newly);
    }
    UndecidedRemains(col, s2, equalsZero);
    var u := FirstIndexOf(possibleZeros, None).value;
    return PivotResult(Some(u), Some(col[u]), true, newly);
  }

  /** Pass 1: test every candidate, stopping at the first provably nonzero one. */
  method ZeroTestPass(col: seq<real>, isZero: ZeroTest) returns (nonzero: Option<nat>, possibleZeros: seq<Option<bool>>)
    ensures nonzero == FirstIndexOf(Statuses(col, isZero), Some(false))
    ensures nonzero.None? ==> possibleZeros == Statuses(col, isZero)
  {
    ghost var s1 := Statuses(col, isZero);
    possibleZeros := [];
    var i := 0;
    while i < |col|
      invariant 0 <= i <= |col|
      invariant possibleZeros == s1[..i]
      invariant forall k | 0 <= k < i :: s1[k] != Some(false)
    {
      var z := isZero(col[i]);
      if z == Some(false) {
        FirstIndexOfIs(s1, Some(false), i);
        return Some(i), possibleZeros;
      }
      possibleZeros := possibleZeros + [z];
      i := i + 1;
    }
    assert possibleZeros == s1;
    return None, possibleZeros;
  }

  /** Pass 2: simplify each undecided candidate and test it again, recording
      every one the test now decides, until one is provably nonzero. */
  method SimplifyPass(col: seq<real>, isZero: ZeroTest, f: real -> real, s1: seq<Option<bool>>)
    returns (nonzero: Option<nat>, simplified: real, possibleZeros: seq<Option<bool>>, newly: seq<(nat, real)>)
    requires s1 == Statuses(col, isZero) && Some(false) !in s1
    ensures nonzero == FirstIndexOf(SimplifiedStatuses(col, isZero, f), Some(false))
    ensures nonzero.Some? ==>
      (simplified == f(col[nonzero.value]) && newly == SimplifiedPairs(col, isZero, f, nonzero.value + 1))
    ensures nonzero.None? ==>
      (possibleZeros == SimplifiedStatuses(col, isZero, f) && newly == SimplifiedPairs(col, isZero, f, |col|))
  {
    ghost var s2 := SimplifiedStatuses(col, isZero, f);
    possibleZeros, newly := s1, [];
    var i := 0;
    while i < |col|
      invariant 0 <= i <= |col| && |possibleZeros| == |col|
      invariant forall k | 0 <= k < i :: possibleZeros[k] == s2[k]
      invariant forall k | 0 <= k < i :: s2[k] != Some(false)
      invariant forall k | i <= k < |col| :: possibleZeros[k] == s1[k]
      invariant newly == SimplifiedPairs(col, isZero, f, i)
    {
      assert s1[i] in s1;
      if possibleZeros[i] == None {
        var simped := f(col[i]);
        var z := isZero(simped);
        assert z == s2[i];
        if z.Some? {
          newly := newly + [(i, simped)];
        }
        if z == Some(false) {
          FirstIndexOfIs(s2, Some(false), i);
          return Some(i), simped, possibleZeros, newly;
        }
        possibleZeros := possibleZeros[i := z];
      }
      i := i + 1;
    }
    assert possibleZeros == s2;
    return None, 0.0, possibleZeros, newly;
  }

  /** Pass 3: settle as zero each candidate still undecided for which
      `equals(0)` holds, recording it with the value 0. */
  method EqualsPass(col: seq<real>, equalsZero: real -> bool, s2: seq<Option<bool>>, n2: seq<(nat, real)>)
    returns (possibleZeros: seq<Option<bool>>, newly: seq<(nat, real)>)
    requires |s2| == |col|
    ensures possibleZeros == EqualsStatuses(col, s2, equalsZero)
    ensures newly == n2 + EqualsPairs(col, s2, equalsZero, |col|)
  {
    ghost var s3 := EqualsStatuses(col, s2, equalsZero);
    possibleZeros, newly := s2, n2;
    var i := 0;
    while i < |col|
      invariant 0 <= i <= |col| && |possibleZeros| == |col|
      invariant forall k | 0 <= k < i :: possibleZeros[k] == s3[k]
      invariant forall k | i <= k < |col| :: possibleZeros[k] == s2[k]
      invariant newly == n2 + EqualsPairs(col, s2, equalsZero, i)
    {
      assert possibleZeros[i] == s2[i];
      if possibleZeros[i] == None && equalsZero(col[i]) {
        possibleZeros := possibleZeros[i := Some(true)];
        newly := newly + [(i, 0.0)];
      }
      i := i + 1;
    }
    assert possibleZeros == s3;
  }
}
