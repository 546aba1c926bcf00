/** Transforming both samples by the same strictly increasing map `f` (src/monitor/psi.py,
    lines 12-18): sorting, `np.unique` and the histogram commute with every such map,
    and linear interpolation between order statistics commutes with the positive
    affine maps v |-> k * v + c. So the index is unchanged by any increasing map that
    carries the candidate edges along, in particular by every positive affine map. */
module Invariance {
  import opened Sequences
  import opened Quantile
  import opened Binning
  import opened PopulationStability

  /** `f` is strictly increasing. */
  ghost predicate Increasing(f: real -> real) {
    forall a, b :: a < b ==> f(a) < f(b)
  }

  /** Every value of `xs` mapped through `f`. */
  function Map(xs: seq<real>, f: real -> real): (ys: seq<real>)
    ensures |ys| == |xs|
    ensures forall i :: 0 <= i < |xs| ==> ys[i] == f(xs[i])
  {
    seq(|xs|, i requires 0 <= i < |xs| => f(xs[i]))
  }

  /** A strictly increasing map preserves and reflects order and equality. */
  lemma MapOrder(a: real, b: real, f: real -> real)
    requires Increasing(f)
    ensures a <= b <==> f(a) <= f(b)
    ensures a < b <==> f(a) < f(b)
  {
  }

  /** `f` is the map v |-> k * v + c. */
  ghost predicate Affine(f: real -> real, k: real, c: real) {
    forall v :: f(v) == k * v + c
  }

  /** v |-> k * v + c with k > 0 is strictly increasing. */
  lemma AffineIncreasing(f: real -> real, k: real, c: real)
    requires k > 0.0 && Affine(f, k, c)
    ensures Increasing(f)
  {
    forall a, b | a < b ensures f(a) < f(b) {
      assert f(a) == k * a + c && f(b) == k * b + c;
      MulPositive(k, b - a);
      Distribute(k, a, b);
    }
  }

  lemma MulPositive(a: real, b: real)
    requires a > 0.0 && b > 0.0
    ensures a * b > 0.0
  {
  }

  lemma Distribute(k: real, a: real, b: real)
    ensures k * b - k * a == k * (b - a)
  {
  }

  lemma MapSplit(xs: seq<real>, f: real -> real)
    requires |xs| > 0
    ensures Map(xs, f) == [f(xs[0])] + Map(xs[1..], f)
  {
    var r := [f(xs[0])] + Map(xs[1..], f);
    forall i | 0 <= i < |xs| ensures r[i] == Map(xs, f)[i] {
      if i > 0 {
        assert r[i] == Map(xs[1..], f)[i - 1];
      }
    }
  }

  lemma MapSorted(s: seq<real>, f: real -> real)
    requires Sorted(s) && Increasing(f)
    ensures Sorted(Map(s, f))
  {
    forall i, j | 0 <= i < j < |s|
      ensures Map(s, f)[i] <= Map(s, f)[j]
    {
      MapOrder(s[i], s[j], f);
    }
  }

  lemma {:induction false} InsertMap(x: real, s: seq<real>, f: real -> real)
    requires Sorted(s) && Increasing(f)
    ensures Sorted(Map(s, f))
    ensures Insert(f(x), Map(s, f)) == Map(Insert(x, s), f)
  {
    MapSorted(s, f);
    var t := Map(s, f);
    if s != [] {
      MapOrder(x, s[0], f);
      MapSplit(s, f);
      assert t[0] == f(s[0]) && t[1..] == Map(s[1..], f);
      if x <= s[0] {
        assert Insert(x, s) == [x] + s;
        assert Insert(f(x), t) == [f(x)] + t;
        MapSplit([x] + s, f);
        assert ([x] + s)[1..] == s;
      } else {
        var rest := Insert(x, s[1..]);
        assert Insert(x, s) == [s[0]] + rest;
        InsertMap(x, s[1..], f);
        assert Insert(f(x), t) == [t[0]] + Insert(f(x), t[1..]);
        MapSplit([s[0]] + rest, f);
        assert ([s[0]] + rest)[1..] == rest;
      }
    }
  }

  /** Sorting commutes with an increasing map. */
  lemma {:induction false} SortMap(xs: seq<real>, f: real -> real)
    requires Increasing(f)
    ensures Sort(Map(xs, f)) == Map(Sort(xs), f)
  {
    if xs != [] {
      MapSplit(xs, f);
      var ys := Map(xs, f);
      assert ys[0] == f(xs[0]) && ys[1..] == Map(xs[1..], f);
      SortMap(xs[1..], f);
      InsertMap(xs[0], Sort(xs[1..]), f);
    }
  }

  /** Each quantile of the sample mapped by v |-> k * v + c is the mapped quantile. */
  lemma InterpAffine(s: seq<real>, q: real, f: real -> real, k: real, c: real)
    requires |s| > 0 && 0.0 <= q <= 1.0
    requires Affine(f, k, c)
    ensures Interp(Map(s, f), q) == f(Interp(s, q))
  {
    var h := Position(|s|, q);
    var j := h.Floor;
    if j < |s| - 1 {
      var t := h - j as real;
      assert f(s[j + 1]) - f(s[j]) == k * (s[j + 1] - s[j]);
      assert t * (k * (s[j + 1] - s[j])) == k * (t * (s[j + 1] - s[j]));
      assert f(s[j] + t * (s[j + 1] - s[j])) == k * (s[j] + t * (s[j + 1] - s[j])) + c;
    }
  }

  /** The candidate edges of a sample mapped by v |-> k * v + c, k > 0, are the mapped candidate edges. */
  lemma CandidatesAffine(xs: seq<real>, bins: nat, f: real -> real, k: real, c: real)
    requires |xs| > 0 && bins >= 1
    requires k > 0.0 && Affine(f, k, c)
    ensures Candidates(Map(xs, f), bins) == Map(Candidates(xs, bins), f)
  {
    var lhs, rhs := Candidates(Map(xs, f), bins), Map(Candidates(xs, bins), f);
    assert |lhs| == |rhs| == bins + 1;
    forall i | 0 <= i <= bins
      ensures lhs[i] == rhs[i]
    {
      CandidateAffine(xs, bins, f, k, c, i);
    }
  }

  lemma SortLength(xs: seq<real>)
    ensures |Sort(xs)| == |xs|
  {
    assert |Sort(xs)| == |multiset(Sort(xs))| == |multiset(xs)| == |xs|;
  }

  /** One candidate edge of the mapped sample is the mapped candidate edge. */
  lemma CandidateAffine(xs: seq<real>, bins: nat, f: real -> real, k: real, c: real, i: nat)
    requires |xs| > 0 && bins >= 1 && i <= bins
    requires k > 0.0 && Affine(f, k, c)
    ensures Candidates(Map(xs, f), bins)[i] == f(Candidates(xs, bins)[i])
  {
    AffineIncreasing(f, k, c);
    SortMap(xs, f);
    SortLength(xs);
    var s := Sort(xs);
    var q := Grid(bins)[i];
    assert Candidates(xs, bins)[i] == Interp(s, q);
    assert Candidates(Map(xs, f), bins)[i] == Interp(Map(s, f), q);
    assert |s| > 0;
    assert 0.0 <= q <= 1.0;
    InterpAffine(s, q, f, k, c);
  }

  lemma {:induction false} DedupMap(s: seq<real>, f: real -> real)
    requires Sorted(s) && Increasing(f)
    ensures Sorted(Map(s, f))
    ensures Dedup(Map(s, f)) == Map(Dedup(s), f)
  {
    MapSorted(s, f);
    if |s| > 1 {
      var t := Map(s, f);
      MapSplit(s, f);
      assert t[0] == f(s[0]) && t[1] == f(s[1]) && t[1..] == Map(s[1..], f);
      MapOrder(s[0], s[1], f);
      MapOrder(s[1], s[0], f);
      DedupMap(s[1..], f);
      if s[0] != s[1] {
        assert Dedup(s) == [s[0]] + Dedup(s[1..]);
        assert Dedup(t) == [t[0]] + Dedup(t[1..]);
        MapSplit([s[0]] + Dedup(s[1..]), f);
        assert ([s[0]] + Dedup(s[1..]))[1..] == Dedup(s[1..]);
      } else {
        assert Dedup(t) == Dedup(t[1..]);
      }
    }
  }

  /** `np.unique` commutes with an increasing map. */
  lemma UniqueMap(s: seq<real>, f: real -> real)
    requires Increasing(f)
    ensures Unique(Map(s, f)) == Map(Unique(s), f)
  {
    SortMap(s, f);
    DedupMap(Sort(s), f);
  }

  /** Counting mapped values with `p` counts the original values with `q` when `q` is `p` after the map. */
  lemma {:induction false} CountWhereMap(xs: seq<real>, p: real -> bool, q: real -> bool, f: real -> real)
    requires forall v :: q(v) == p(f(v))
    ensures CountWhere(Map(xs, f), p) == CountWhere(xs, q)
  {
    if xs != [] {
      MapSplit(xs, f);
      var ys := Map(xs, f);
      assert ys[0] == f(xs[0]) && ys[1..] == Map(xs[1..], f);
      CountWhereMap(xs[1..], p, q, f);
    }
  }

  /** A mapped value lies in the same bin of the mapped edges. */
  lemma InBinMap(v: real, cuts: seq<real>, i: int, f: real -> real)
    requires Increasing(f)
    ensures InBin(f(v), Map(cuts, f), i) == InBin(v, cuts, i)
  {
    if 0 <= i < |cuts| - 1 {
      MapOrder(cuts[i], v, f);
      MapOrder(v, cuts[i + 1], f);
      MapOrder(cuts[i + 1], v, f);
    }
  }

  /** Mapping the sample and the edges together leaves every count unchanged. */
  lemma HistogramMap(xs: seq<real>, cuts: seq<real>, f: real -> real)
    requires Increasing(f)
    ensures Histogram(Map(xs, f), Map(cuts, f)) == Histogram(xs, cuts)
  {
    var mc := Map(cuts, f);
    forall i | 0 <= i < NumBins(cuts)
      ensures Histogram(Map(xs, f), mc)[i] == Histogram(xs, cuts)[i]
    {
      forall v ensures InBin(v, cuts, i) == InBin(f(v), mc, i) {
        InBinMap(v, cuts, i, f);
      }
      CountWhereMap(xs, v => InBin(v, mc, i), v => InBin(v, cuts, i), f);
    }
  }

  /** An increasing map applied to both samples leaves the index unchanged whenever it
      carries the reference's candidate edges to the candidate edges of the mapped
      reference; an empty reference stays an error. */
  lemma PsiMap(expected: seq<real>, actual: seq<real>, bins: nat, ln: real -> real, f: real -> real)
    requires bins >= 1 && Increasing(f)
    requires |expected| > 0 ==> Candidates(Map(expected, f), bins) == Map(Candidates(expected, bins), f)
    ensures Psi(Map(expected, f), Map(actual, f), bins, ln) == Psi(expected, actual, bins, ln)
  {
    if |expected| > 0 {
      UniqueMap(Candidates(expected, bins), f);
      var cuts := Cuts(expected, bins);
      assert Cuts(Map(expected, f), bins) == Map(cuts, f);
      HistogramMap(expected, cuts, f);
      HistogramMap(actual, cuts, f);
    }
  }

  /** Rescaling by k > 0 and shifting by c, applied to both samples, leaves the index unchanged. */
  lemma PsiAffine(expected: seq<real>, actual: seq<real>, bins: nat, ln: real -> real,
                  f: real -> real, k: real, c: real)
    requires bins >= 1
    requires k > 0.0 && Affine(f, k, c)
    ensures Psi(Map(expected, f), Map(actual, f), bins, ln) == Psi(expected, actual, bins, ln)
  {
    AffineIncreasing(f, k, c);
    if |expected| > 0 {
      CandidatesAffine(expected, bins, f, k, c);
    }
    PsiMap(expected, actual, bins, ln, f);
  }

  /** An increasing map that is not affine: slope 1 up to 0.5, slope 3 beyond. */
  function Bend(v: real): (w: real) {
    if v <= 0.5 then v else 3.0 * v - 1.0
  }

  /** With two bins, the middle candidate edge of a two-value sample is the midpoint. */
  lemma MiddleCandidate(lo: real, hi: real)
    requires lo <= hi
    ensures Candidates([lo, hi], 2)[1] == (lo + hi) / 2.0
  {
    var xs := [lo, hi];
    SortedUnique(Sort(xs), xs);
    var qs := Grid(2);
    assert qs[1] == 0.5;
    assert Candidates(xs, 2)[1] == Interp(xs, 0.5);
    MiddleInterp(lo, hi);
  }

  lemma MiddleInterp(lo: real, hi: real)
    ensures Interp([lo, hi], 0.5) == (lo + hi) / 2.0
  {
    assert Position(2, 0.5) == 0.5;
    assert (0.5).Floor == 0;
    assert lo + (0.5 - 0.0) * (hi - lo) == (lo + hi) / 2.0;
  }

  /** Increasing maps in general do not carry the candidate edges along: for the
      reference [0, 1] and two bins, the middle edge is 0.5, which `Bend` keeps at
      0.5, while the middle edge of the bent reference [0, 2] is 1. */
  lemma BendMovesCandidates()
    ensures Increasing(Bend)
    ensures Candidates(Map([0.0, 1.0], Bend), 2) != Map(Candidates([0.0, 1.0], 2), Bend)
  {
    BendIncreasing();
    assert Map([0.0, 1.0], Bend) == [0.0, 2.0];
    MiddleCandidate(0.0, 1.0);
    MiddleCandidate(0.0, 2.0);
  }

  /** With two bins, the cut points of a two-value sample lo < hi are lo, their midpoint and hi. */
  lemma CutsOfPair(lo: real, hi: real)
    requires lo < hi
    ensures Cuts([lo, hi], 2) == [lo, (lo + hi) / 2.0, hi]
  {
    var m := (lo + hi) / 2.0;
    CandidatesOfPair(lo, hi);
    assert StrictlyIncreasing([lo, m, hi]) by {
      assert lo < m < hi;
    }
    DistinctCandidates([lo, hi], 2);
  }

  /** Strictly increasing candidate edges are the cut points themselves. */
  lemma DistinctCandidates(xs: seq<real>, bins: nat)
    requires |xs| > 0 && bins >= 1
    requires StrictlyIncreasing(Candidates(xs, bins))
    ensures Cuts(xs, bins) == Candidates(xs, bins)
  {
    UniqueDetermined(Cuts(xs, bins), Candidates(xs, bins));
  }

  /** With two bins, the candidate edges of a two-value sample lo < hi are lo, their midpoint and hi. */
  lemma CandidatesOfPair(lo: real, hi: real)
    requires lo < hi
    ensures Candidates([lo, hi], 2) == [lo, (lo + hi) / 2.0, hi]
  {
    var xs := [lo, hi];
    var c := Candidates(xs, 2);
    MiddleCandidate(lo, hi);
    assert c[0] == lo by {
      assert IsMin(c[0], xs);
      assert c[0] in xs && c[0] <= xs[0];
    }
    assert c[2] == hi by {
      assert IsMax(c[2], xs);
      assert c[2] in xs && c[2] >= xs[1];
    }
  }

  /** The reference and the sample of the counterexample below. */
  const Reference: seq<real> := [0.0, 1.0]
  const Sample: seq<real> := [0.1, 0.6, 0.6]

  /** So increasing maps in general change the histograms and the index: bending the
      reference [0, 1] and the sample [0.1, 0.6, 0.6] leaves the reference counts at
      [1, 1] but moves the sample's counts from [1, 2] to [3, 0]. */
  lemma BendMovesHistogram()
    ensures Increasing(Bend)
    ensures Histogram(Map(Reference, Bend), Cuts(Map(Reference, Bend), 2))
         == Histogram(Reference, Cuts(Reference, 2)) == [1, 1]
    ensures Histogram(Map(Sample, Bend), Cuts(Map(Reference, Bend), 2)) == [3, 0]
    ensures Histogram(Sample, Cuts(Reference, 2)) == [1, 2]
  {
    BendIncreasing();
    BentSamples();
    PlainCuts();
    BentCuts();
    PlainCounts();
    BentCounts();
  }

  lemma BendIncreasing()
    ensures Increasing(Bend)
  {
    forall a, b | a < b ensures Bend(a) < Bend(b) {
    }
  }

  /** The two samples, bent. */
  lemma BentSamples()
    ensures Map(Reference, Bend) == [0.0, 2.0]
    ensures Map(Sample, Bend) == [0.1, 0.8, 0.8]
  {
    assert Bend(0.0) == 0.0 && Bend(1.0) == 2.0;
    assert Bend(0.1) == 0.1 && Bend(0.6) == 0.8;
    var r, m := Map(Reference, Bend), Map(Sample, Bend);
    assert r[0] == Bend(0.0) && r[1] == Bend(1.0);
    assert m[0] == Bend(0.1) && m[1] == Bend(0.6) && m[2] == Bend(0.6);
  }

  /** The cut points of the reference before bending. */
  lemma PlainCuts()
    ensures Cuts(Reference, 2) == [0.0, 0.5, 1.0]
  {
    var lo, hi := Reference[0], Reference[1];
    assert Reference == [lo, hi];
    CutsOfPair(lo, hi);
  }

  /** The cut points of the reference after bending. */
  lemma BentCuts()
    ensures Cuts(Map(Reference, Bend), 2) == [0.0, 1.0, 2.0]
  {
    BentSamples();
    var r := Map(Reference, Bend);
    var lo, hi := r[0], r[1];
    assert r == [lo, hi];
    CutsOfPair(lo, hi);
  }

  lemma PlainCounts()
    ensures Histogram([0.0, 1.0], [0.0, 0.5, 1.0]) == [1, 1]
    ensures Histogram([0.1, 0.6, 0.6], [0.0, 0.5, 1.0]) == [1, 2]
  {
    var cuts := [0.0, 0.5, 1.0];
    var h := HistogramOfTwo(0.0, 1.0, cuts);
    assert Hit(0.0, cuts, 0) == 1 && Hit(1.0, cuts, 0) == 0;
    assert Hit(0.0, cuts, 1) == 0 && Hit(1.0, cuts, 1) == 1;
    h := HistogramOfThree(0.1, 0.6, 0.6, cuts);
    assert Hit(0.1, cuts, 0) == 1 && Hit(0.6, cuts, 0) == 0;
    assert Hit(0.1, cuts, 1) == 0 && Hit(0.6, cuts, 1) == 1;
  }

  lemma BentCounts()
    ensures Histogram([0.0, 2.0], [0.0, 1.0, 2.0]) == [1, 1]
    ensures Histogram([0.1, 0.8, 0.8], [0.0, 1.0, 2.0]) == [3, 0]
  {
    var cuts := [0.0, 1.0, 2.0];
    var h := HistogramOfTwo(0.0, 2.0, cuts);
    assert Hit(0.0, cuts, 0) == 1 && Hit(2.0, cuts, 0) == 0;
    assert Hit(0.0, cuts, 1) == 0 && Hit(2.0, cuts, 1) == 1;
    h := HistogramOfThree(0.1, 0.8, 0.8, cuts);
    assert Hit(0.1, cuts, 0) == 1 && Hit(0.8, cuts, 0) == 1;
    assert Hit(0.1, cuts, 1) == 0 && Hit(0.8, cuts, 1) == 0;
  }

  /** Bin `i` of three edges scores 1 for `v` when `v` lies in it. */
  function Hit(v: real, cuts: seq<real>, i: int): (n: nat)
    ensures n == 1 <==> InBin(v, cuts, i)
  {
    if InBin(v, cuts, i) then 1 else 0
  }

  lemma CountOfTwo(a: real, b: real, p: real -> bool)
    ensures CountWhere([a, b], p) == (if p(a) then 1 else 0) + (if p(b) then 1 else 0)
  {
    assert [a, b][1..] == [b] && [b][1..] == [];
  }

  lemma CountOfThree(a: real, b: real, c: real, p: real -> bool)
    ensures CountWhere([a, b, c], p) == (if p(a) then 1 else 0) + CountWhere([b, c], p)
  {
    assert [a, b, c][1..] == [b, c];
  }

  /** The histogram of two values over three edges. */
  lemma HistogramOfTwo(a: real, b: real, cuts: seq<real>) returns (h: seq<nat>)
    requires |cuts| == 3
    ensures h == Histogram([a, b], cuts)
    ensures h == [Hit(a, cuts, 0) + Hit(b, cuts, 0), Hit(a, cuts, 1) + Hit(b, cuts, 1)]
  {
    h := Histogram([a, b], cuts);
    forall i | 0 <= i < 2
      ensures h[i] == Hit(a, cuts, i) + Hit(b, cuts, i)
    {
      CountOfTwo(a, b, v => InBin(v, cuts, i));
    }
  }

  /** The histogram of three values over three edges. */
  lemma HistogramOfThree(a: real, b: real, c: real, cuts: seq<real>) returns (h: seq<nat>)
    requires |cuts| == 3
    ensures h == Histogram([a, b, c], cuts)
    ensures h == [Hit(a, cuts, 0) + Hit(b, cuts, 0) + Hit(c, cuts, 0),
                  Hit(a, cuts, 1) + Hit(b, cuts, 1) + Hit(c, cuts, 1)]
  {
    h := Histogram([a, b, c], cuts);
    forall i | 0 <= i < 2
      ensures h[i] == Hit(a, cuts, i) + Hit(b, cuts, i) + Hit(c, cuts, i)
    {
      CountOfThree(a, b, c, v => InBin(v, cuts, i));
      CountOfTwo(b, c, v => InBin(v, cuts, i));
    }
  }
}
