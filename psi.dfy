/** The Population Stability Index, `psi(expected, actual, bins)` at
    src/monitor/psi.py, lines 10-18, over exact reals. The natural logarithm is
    a parameter `ln`; nothing here depends on what it computes except where a
    lemma states its assumptions about it. */
module PopulationStability {
  import opened Sequences
  import opened Quantile
  import opened Binning

  /** The lower clip bound applied to both probability vectors, 1e-6. */
  const Eps: real := 0.000001

  /** Clipping one element into [1e-6, 1]: the nearest point of [1e-6, 1]. */
  function Clip(x: real): (r: real)
    ensures Eps <= r <= 1.0
    ensures Eps <= x <= 1.0 ==> r == x
    ensures x < Eps ==> r == Eps
    ensures x > 1.0 ==> r == 1.0
  {
    if x < Eps then Eps else if x > 1.0 then 1.0 else x
  }

  /** Counts divided by the larger of 1 and their total, then clipped into [1e-6, 1].
      A zero total divides by 1, so an empty histogram yields 1e-6 everywhere; otherwise
      each share is at most 1 and only the lower bound can take effect. */
  function Normalise(h: seq<nat>): (p: seq<real>)
    ensures |p| == |h|
    ensures forall i :: 0 <= i < |p| ==> Eps <= p[i] <= 1.0
    ensures Sum(h) == 0 ==> forall i :: 0 <= i < |p| ==> p[i] == Eps
    ensures Sum(h) > 0 ==> forall i :: 0 <= i < |p| ==>
      var share := h[i] as real / Sum(h) as real;
      0.0 <= share <= 1.0 && p[i] == (if share < Eps then Eps else share)
  {
    var d := if Sum(h) > 1 then Sum(h) else 1;
    ElementsBelowSum(h);
    SumZero(h);
    var p := seq(|h|, i requires 0 <= i < |h| => Clip(h[i] as real / d as real));
    assert forall i :: 0 <= i < |h| ==> h[i] as real / d as real <= 1.0 by {
      forall i | 0 <= i < |h| ensures h[i] as real / d as real <= 1.0 {
        ShareAtMostOne(h[i] as real, d as real);
      }
    }
    p
  }

  lemma ShareAtMostOne(x: real, d: real)
    requires 0.0 <= x <= d && d > 0.0
    ensures 0.0 <= x / d <= 1.0
  {
    assert (x / d) * d == x;
  }

  lemma MulSign(a: real, b: real)
    requires b > 0.0
    ensures a <= 0.0 ==> a * b <= 0.0
  {
  }

  lemma RatioAboveOne(x: real, y: real)
    requires x > y > 0.0
    ensures x / y > 1.0
  {
    assert (x / y) * y == x;
  }

  lemma RatioBelowOne(x: real, y: real)
    requires y > x > 0.0
    ensures 0.0 < x / y < 1.0
  {
    var q := x / y;
    assert q * y == x;
    MulSign(1.0 - q, y);
    MulSign(q, y);
    assert (1.0 - q) * y == y - x;
  }

  /** The clipped probability vector of one sample: lines 16 and 17. */
  function Probabilities(xs: seq<real>, cuts: seq<real>): (p: seq<real>)
    ensures |p| == NumBins(cuts)
    ensures forall i :: 0 <= i < |p| ==> Eps <= p[i] <= 1.0
  {
    Normalise(Histogram(xs, cuts))
  }

  /** The index: the sum over bins of (a - e) times the logarithm of a / e. */
  function Score(a: seq<real>, e: seq<real>, ln: real -> real): (r: real)
    requires |a| == |e|
    requires forall i :: 0 <= i < |e| ==> e[i] > 0.0
  {
    if a == [] then 0.0
    else (a[0] - e[0]) * ln(a[0] / e[0]) + Score(a[1..], e[1..], ln)
  }

  /** Every summand of `Score(e, e)` has the zero factor `e[i] - e[i]`, whatever `ln` is. */
  lemma {:induction false} ScoreSelf(e: seq<real>, ln: real -> real)
    requires forall i :: 0 <= i < |e| ==> e[i] > 0.0
    ensures Score(e, e, ln) == 0.0
  {
    if e != [] {
      ScoreSelf(e[1..], ln);
    }
  }

  /** The natural logarithm's properties the sign of the score rests on. */
  ghost predicate LogLike(ln: real -> real) {
    ln(1.0) == 0.0 && forall x, y :: 0.0 < x < y ==> ln(x) < ln(y)
  }

  lemma TermNonNegative(x: real, y: real, ln: real -> real)
    requires x > 0.0 && y > 0.0 && LogLike(ln)
    ensures (x - y) * ln(x / y) >= 0.0
  {
    if x > y {
      RatioAboveOne(x, y);
      assert ln(x / y) > ln(1.0);
    } else if x < y {
      RatioBelowOne(x, y);
      assert ln(x / y) < ln(1.0);
    }
  }

  /** With an increasing logarithm that vanishes at 1, every summand is
      non-negative, so the score is too. */
  lemma {:induction false} ScoreNonNegative(a: seq<real>, e: seq<real>, ln: real -> real)
    requires |a| == |e| && LogLike(ln)
    requires forall i :: 0 <= i < |e| ==> e[i] > 0.0 && a[i] > 0.0
    ensures Score(a, e, ln) >= 0.0
  {
    if a != [] {
      TermNonNegative(a[0], e[0], ln);
      ScoreNonNegative(a[1..], e[1..], ln);
    }
  }

  datatype PsiError =
    /** `np.quantile` of an empty reference sample raises. */
    EmptyReference

  datatype Result<T> = Ok(value: T) | Err(error: PsiError)

  /** The index of `actual` against the reference sample `expected`, or the error an empty reference raises. */
  function Psi(expected: seq<real>, actual: seq<real>, bins: nat, ln: real -> real): (r: Result<real>)
    requires bins >= 1
    ensures r.Ok? <==> |expected| > 0
  {
    if |expected| == 0 then Err(EmptyReference)
    else Ok(Index(expected, actual, bins, ln))
  }

  /** Lines 12-18 on a non-empty reference sample: cut, bin, normalise and score. */
  function Index(expected: seq<real>, actual: seq<real>, bins: nat, ln: real -> real): (r: real)
    requires |expected| > 0 && bins >= 1
  {
    var cuts := Cuts(expected, bins);
    var e := Probabilities(expected, cuts);
    var a := Probabilities(actual, cuts);
    Score(a, e, ln)
  }

  /** Both histograms have one count per effective bin, at most `bins` of them. The
      reference histogram counts every reference value (its edges span the reference's
      minimum to maximum) unless all reference values are equal and there is no bin;
      the actual histogram counts exactly the actual values within the edges, so at
      most all of them. */
  lemma PsiHistograms(expected: seq<real>, actual: seq<real>, bins: nat)
    requires |expected| > 0 && bins >= 1
    ensures var cuts := Cuts(expected, bins);
      && |Histogram(expected, cuts)| == |Histogram(actual, cuts)| == |cuts| - 1 <= bins
      && Sum(Histogram(expected, cuts)) == (if |cuts| >= 2 then |expected| else 0)
      && Sum(Histogram(actual, cuts)) == CountWhere(actual, v => InRange(v, cuts))
      && Sum(Histogram(actual, cuts)) <= |actual|
  {
    var cuts := Cuts(expected, bins);
    HistogramTotal(actual, cuts);
    if |cuts| >= 2 {
      forall k | 0 <= k < |expected|
        ensures cuts[0] <= expected[k] <= cuts[|cuts| - 1]
      {
        assert expected[k] in expected;
      }
      HistogramCountsAll(expected, cuts);
    } else {
      SumZero(Histogram(expected, cuts));
    }
  }

  /** An actual sample with the same values as the reference, in any order, gets
      the same probability vector, so the index is exactly 0 for any `ln`. */
  lemma PsiOfPermutationIsZero(expected: seq<real>, actual: seq<real>, bins: nat, ln: real -> real)
    requires |expected| > 0 && bins >= 1
    requires multiset(actual) == multiset(expected)
    ensures Psi(expected, actual, bins, ln) == Ok(0.0)
  {
    var cuts := Cuts(expected, bins);
    HistogramPermutation(actual, expected, cuts);
    assert Probabilities(actual, cuts) == Probabilities(expected, cuts);
    ScoreSelf(Probabilities(expected, cuts), ln);
  }

  /** Reordering either sample changes nothing: the index depends only on the
      multisets of the two samples. */
  lemma PsiPermutation(expected: seq<real>, actual: seq<real>, expected': seq<real>, actual': seq<real>,
                       bins: nat, ln: real -> real)
    requires bins >= 1
    requires multiset(expected) == multiset(expected') && multiset(actual) == multiset(actual')
    ensures Psi(expected, actual, bins, ln) == Psi(expected', actual', bins, ln)
  {
    assert |expected| == |multiset(expected)| == |multiset(expected')| == |expected'|;
    if |expected| > 0 {
      CutsPermutation(expected, expected', bins);
      var cuts := Cuts(expected, bins);
      HistogramPermutation(expected, expected', cuts);
      HistogramPermutation(actual, actual', cuts);
    }
  }

  /** When every reference value is the same there is a single cut and no bin at
      all; both vectors are empty and the index is 0. */
  lemma PsiConstantReference(expected: seq<real>, actual: seq<real>, bins: nat, ln: real -> real)
    requires |expected| > 0 && bins >= 1
    requires forall k :: 0 <= k < |expected| ==> expected[k] == expected[0]
    ensures |Cuts(expected, bins)| == 1
    ensures Psi(expected, actual, bins, ln) == Ok(0.0)
  {
    CutsCollapse(expected, bins);
  }

  /** An actual sample lying wholly outside the reference's range is not counted at
      all: its vector is 1e-6 in every bin, and the index compares that floor with
      the reference vector. */
  lemma PsiTotalDrift(expected: seq<real>, actual: seq<real>, bins: nat, ln: real -> real)
    requires |expected| > 0 && bins >= 1
    requires forall k :: 0 <= k < |actual| ==>
      (forall j :: 0 <= j < |expected| ==> actual[k] < expected[j]) ||
      (forall j :: 0 <= j < |expected| ==> actual[k] > expected[j])
    ensures var cuts := Cuts(expected, bins);
      var e := Probabilities(expected, cuts);
      Psi(expected, actual, bins, ln) == Ok(Score(seq(|e|, _ => Eps), e, ln))
  {
    var cuts := Cuts(expected, bins);
    OutsideCuts(expected, actual, cuts);
    HistogramOutside(actual, cuts);
    NormaliseEmpty(Histogram(actual, cuts));
  }

  /** An all-zero histogram normalises to 1e-6 in every bin. */
  lemma NormaliseEmpty(h: seq<nat>)
    requires forall i :: 0 <= i < |h| ==> h[i] == 0
    ensures Normalise(h) == seq(|h|, _ => Eps)
  {
    SumZero(h);
  }

  lemma OutsideCuts(expected: seq<real>, actual: seq<real>, cuts: seq<real>)
    requires |cuts| > 0 && IsMin(cuts[0], expected) && IsMax(cuts[|cuts| - 1], expected)
    requires forall k :: 0 <= k < |actual| ==>
      (forall j :: 0 <= j < |expected| ==> actual[k] < expected[j]) ||
      (forall j :: 0 <= j < |expected| ==> actual[k] > expected[j])
    ensures forall k :: 0 <= k < |actual| ==> actual[k] < cuts[0] || actual[k] > cuts[|cuts| - 1]
  {
    var j :| 0 <= j < |expected| && expected[j] == cuts[0];
    var m :| 0 <= m < |expected| && expected[m] == cuts[|cuts| - 1];
  }

  /** The index is non-negative when `ln` is increasing and vanishes at 1, as the
      natural logarithm does over the reals. */
  lemma PsiNonNegative(expected: seq<real>, actual: seq<real>, bins: nat, ln: real -> real)
    requires |expected| > 0 && bins >= 1 && LogLike(ln)
    ensures Psi(expected, actual, bins, ln).value >= 0.0
  {
    var cuts := Cuts(expected, bins);
    ScoreNonNegative(Probabilities(actual, cuts), Probabilities(expected, cuts), ln);
  }
}
