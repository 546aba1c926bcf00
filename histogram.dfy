/** `np.histogram` with explicit edges, as used at src/monitor/psi.py, lines 14-15:
    one count per bin [cuts[i], cuts[i + 1]), the last bin closed on the right,
    values outside [cuts[0], cuts[-1]] not counted at all. */
module Binning {
  import opened Sequences

  /** Number of bins for a sequence of edges: one fewer than the edges, none for a single edge. */
  function NumBins(cuts: seq<real>): nat {
    if |cuts| == 0 then 0 else |cuts| - 1
  }

  /** `v` falls in bin `i`: cuts[i] <= v < cuts[i + 1], or, for the last bin,
      cuts[i] <= v <= cuts[i + 1]. */
  predicate InBin(v: real, cuts: seq<real>, i: int) {
    0 <= i < |cuts| - 1 && cuts[i] <= v &&
    (v < cuts[i + 1] || (i == |cuts| - 2 && v == cuts[i + 1]))
  }

  /** `v` lies within the edges, and there is at least one bin. */
  predicate InRange(v: real, cuts: seq<real>) {
    |cuts| >= 2 && cuts[0] <= v <= cuts[|cuts| - 1]
  }

  lemma FindBinFrom(v: real, cuts: seq<real>, k: nat) returns (i: nat)
    requires StrictlyIncreasing(cuts) && |cuts| >= 2 && k <= |cuts| - 2
    requires cuts[k] <= v <= cuts[|cuts| - 1]
    ensures InBin(v, cuts, i)
    decreases |cuts| - k
  {
    if k == |cuts| - 2 || v < cuts[k + 1] {
      i := k;
    } else {
      i := FindBinFrom(v, cuts, k + 1);
    }
  }

  /** With strictly increasing edges, a value is counted in some bin exactly when it
      lies within [cuts[0], cuts[-1]], and then in exactly one bin. */
  lemma BinExactlyOne(v: real, cuts: seq<real>)
    requires StrictlyIncreasing(cuts)
    ensures InRange(v, cuts) <==> exists i :: InBin(v, cuts, i)
    ensures forall i, j :: InBin(v, cuts, i) && InBin(v, cuts, j) ==> i == j
  {
    if InRange(v, cuts) {
      var i := FindBinFrom(v, cuts, 0);
    }
    forall i | InBin(v, cuts, i) ensures InRange(v, cuts) {
      assert cuts[0] <= cuts[i] && cuts[i + 1] <= cuts[|cuts| - 1];
    }
  }

  /** The histogram: count i is the number of values of `xs` in bin i. */
  function Histogram(xs: seq<real>, cuts: seq<real>): (h: seq<nat>)
    ensures |h| == NumBins(cuts)
    ensures forall i :: 0 <= i < |h| ==> h[i] <= |xs|
  {
    seq(NumBins(cuts), i requires 0 <= i < NumBins(cuts) => CountWhere(xs, v => InBin(v, cuts, i)))
  }

  /** The contribution of one value: a 1 in its bin, zeros elsewhere. */
  function Tally(x: real, cuts: seq<real>): (t: seq<nat>)
    ensures |t| == NumBins(cuts)
  {
    seq(NumBins(cuts), i requires 0 <= i < NumBins(cuts) => if InBin(x, cuts, i) then 1 else 0)
  }

  lemma TallySum(x: real, cuts: seq<real>)
    requires StrictlyIncreasing(cuts)
    ensures Sum(Tally(x, cuts)) == if InRange(x, cuts) then 1 else 0
  {
    var t := Tally(x, cuts);
    BinExactlyOne(x, cuts);
    if InRange(x, cuts) {
      var k :| InBin(x, cuts, k);
      SumOneHot(t, k);
    } else {
      SumZero(t);
    }
  }

  lemma HistogramCons(x: real, xs: seq<real>, cuts: seq<real>)
    ensures Histogram([x] + xs, cuts) == AddCounts(Tally(x, cuts), Histogram(xs, cuts))
  {
    var ys := [x] + xs;
    assert ys[0] == x && ys[1..] == xs;
  }

  /** The counts add up to the number of values within [cuts[0], cuts[-1]]. */
  lemma {:induction false} HistogramTotal(xs: seq<real>, cuts: seq<real>)
    requires StrictlyIncreasing(cuts)
    ensures Sum(Histogram(xs, cuts)) == CountWhere(xs, v => InRange(v, cuts))
    ensures Sum(Histogram(xs, cuts)) <= |xs|
  {
    if xs == [] {
      SumZero(Histogram(xs, cuts));
    } else {
      assert xs == [xs[0]] + xs[1..];
      HistogramCons(xs[0], xs[1..], cuts);
      SumAddCounts(Tally(xs[0], cuts), Histogram(xs[1..], cuts));
      TallySum(xs[0], cuts);
      HistogramTotal(xs[1..], cuts);
    }
  }

  /** When every value lies within the edges (as the reference sample does), every
      value is counted: the counts sum to the sample size. */
  lemma HistogramCountsAll(xs: seq<real>, cuts: seq<real>)
    requires StrictlyIncreasing(cuts) && |cuts| >= 2
    requires forall k :: 0 <= k < |xs| ==> cuts[0] <= xs[k] <= cuts[|cuts| - 1]
    ensures Sum(Histogram(xs, cuts)) == |xs|
  {
    HistogramTotal(xs, cuts);
    CountWhereAll(xs, v => InRange(v, cuts));
  }

  /** Values beyond the edges are not counted: a sample lying wholly outside
      [cuts[0], cuts[-1]] gets an all-zero histogram. */
  lemma HistogramOutside(xs: seq<real>, cuts: seq<real>)
    requires |cuts| >= 1 && StrictlyIncreasing(cuts)
    requires forall k :: 0 <= k < |xs| ==> xs[k] < cuts[0] || xs[k] > cuts[|cuts| - 1]
    ensures forall i :: 0 <= i < NumBins(cuts) ==> Histogram(xs, cuts)[i] == 0
  {
    forall i | 0 <= i < NumBins(cuts)
      ensures Histogram(xs, cuts)[i] == 0
    {
      forall k | 0 <= k < |xs| ensures !InBin(xs[k], cuts, i) {
        assert cuts[0] <= cuts[i] && cuts[i + 1] <= cuts[|cuts| - 1];
      }
      CountWhereNone(xs, v => InBin(v, cuts, i));
    }
  }

  /** The histogram depends only on the multiset of the sample. */
  lemma HistogramPermutation(xs: seq<real>, ys: seq<real>, cuts: seq<real>)
    requires multiset(xs) == multiset(ys)
    ensures Histogram(xs, cuts) == Histogram(ys, cuts)
  {
    forall i | 0 <= i < NumBins(cuts)
      ensures Histogram(xs, cuts)[i] == Histogram(ys, cuts)[i]
    {
      CountWherePermutation(xs, ys, v => InBin(v, cuts, i));
    }
  }
}
