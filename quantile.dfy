/** The cut points of the PSI routine (src/monitor/psi.py, lines 12-13): the
    distinct values among the reference sample's quantiles at bins + 1 evenly spaced
    probabilities. Each NumPy call is specified by its documented semantics over
    exact reals. */
module Quantile {
  import opened Sequences

  /** `np.linspace` over [0, 1]: `bins + 1` probabilities, the i-th equal to i / bins. */
  function Grid(bins: nat): (qs: seq<real>)
    requires bins >= 1
    ensures |qs| == bins + 1
    ensures forall i :: 0 <= i <= bins ==> qs[i] == i as real / bins as real
    ensures qs[0] == 0.0 && qs[bins] == 1.0
    ensures forall i :: 0 <= i < |qs| ==> 0.0 <= qs[i] <= 1.0
    ensures StrictlyIncreasing(qs)
  {
    var qs := seq(bins + 1, i requires 0 <= i <= bins => i as real / bins as real);
    assert forall i, j :: 0 <= i < j < |qs| ==> qs[i] < qs[j] by {
      forall i, j | 0 <= i < j < |qs| ensures qs[i] < qs[j] {
        DivideMonotone(i as real, j as real, bins as real);
      }
    }
    assert qs[bins] == 1.0 by { DivideSelf(bins as real); }
    qs
  }

  lemma DivideSelf(d: real)
    requires d > 0.0
    ensures d / d == 1.0
  {
  }

  lemma DivideMonotone(a: real, b: real, d: real)
    requires a < b && d > 0.0
    ensures a / d < b / d
  {
    assert b / d - a / d == (b - a) / d;
  }

  /** Position of probability `q` among the order statistics of a sample of
      size `n`, NumPy's "linear" method: h = (n - 1) * q. */
  function Position(n: nat, q: real): (h: real)
    requires n > 0 && 0.0 <= q <= 1.0
    ensures 0.0 <= h <= (n - 1) as real
  {
    var m := (n - 1) as real;
    assert m * q >= 0.0 by { MulNonNegative(m, q); }
    assert m - m * q == m * (1.0 - q);
    assert m * (1.0 - q) >= 0.0 by { MulNonNegative(m, 1.0 - q); }
    m * q
  }

  lemma MulNonNegative(a: real, b: real)
    requires a >= 0.0 && b >= 0.0
    ensures a * b >= 0.0
  {
  }

  /** `np.quantile` with the default "linear" method, on the sorted sample `s`:
      with h = (n - 1) * q and j = floor(h), the value s[j] + (h - j) * (s[j + 1] - s[j]);
      at the top position (j = n - 1) there is no s[j + 1] and the value is s[n - 1]. */
  function Interp(s: seq<real>, q: real): (v: real)
    requires |s| > 0 && 0.0 <= q <= 1.0
  {
    var h := Position(|s|, q);
    var j := h.Floor;
    if j >= |s| - 1 then s[|s| - 1]
    else s[j] + (h - j as real) * (s[j + 1] - s[j])
  }

  /** On a sorted sample the quantile lies between the two order statistics around its position. */
  lemma InterpBetween(s: seq<real>, q: real)
    requires |s| > 0 && 0.0 <= q <= 1.0 && Sorted(s)
    ensures var j := Position(|s|, q).Floor;
      0 <= j < |s| &&
      (j < |s| - 1 ==> s[j] <= Interp(s, q) <= s[j + 1]) &&
      (j >= |s| - 1 ==> Interp(s, q) == s[|s| - 1])
  {
    var h := Position(|s|, q);
    var j := h.Floor;
    if j < |s| - 1 {
      var t := h - j as real;
      assert 0.0 <= t < 1.0;
      var d := s[j + 1] - s[j];
      assert d >= 0.0;
      assert t * d <= d by { assert (1.0 - t) * d >= 0.0; }
      assert t * d >= 0.0;
    }
  }

  /** A quantile of a sorted sample lies within its range; q = 0 gives the first
      value and q = 1 the last. */
  lemma InterpBounds(s: seq<real>, q: real)
    requires |s| > 0 && 0.0 <= q <= 1.0 && Sorted(s)
    ensures s[0] <= Interp(s, q) <= s[|s| - 1]
    ensures q == 0.0 ==> Interp(s, q) == s[0]
    ensures q == 1.0 ==> Interp(s, q) == s[|s| - 1]
  {
    InterpBetween(s, q);
    var j := Position(|s|, q).Floor;
    assert s[0] <= s[j];
    if j < |s| - 1 {
      assert s[j + 1] <= s[|s| - 1];
    }
  }

  /** The quantile of a sorted sample is monotone in the probability. */
  lemma InterpMonotone(s: seq<real>, q1: real, q2: real)
    requires |s| > 0 && Sorted(s)
    requires 0.0 <= q1 <= q2 <= 1.0
    ensures Interp(s, q1) <= Interp(s, q2)
  {
    var n := |s|;
    var m := (n - 1) as real;
    var h1, h2 := Position(n, q1), Position(n, q2);
    assert h1 <= h2 by {
      assert h1 == m * q1 && h2 == m * q2;
      MulNonNegative(m, q2 - q1);
      assert m * q2 - m * q1 == m * (q2 - q1);
    }
    var j1, j2 := h1.Floor, h2.Floor;
    InterpBetween(s, q1);
    InterpBetween(s, q2);
    InterpBounds(s, q1);
    if j2 < n - 1 {
      if j1 == j2 {
        InterpSameSegment(s, q1, q2);
      } else {
        assert s[j1 + 1] <= s[j2];
      }
    }
  }

  /** Two positions in the same segment between order statistics interpolate in order. */
  lemma InterpSameSegment(s: seq<real>, q1: real, q2: real)
    requires |s| > 0 && Sorted(s)
    requires 0.0 <= q1 <= 1.0 && 0.0 <= q2 <= 1.0
    requires Position(|s|, q1) <= Position(|s|, q2)
    requires Position(|s|, q1).Floor == Position(|s|, q2).Floor < |s| - 1
    ensures Interp(s, q1) <= Interp(s, q2)
  {
    var h1, h2 := Position(|s|, q1), Position(|s|, q2);
    var j := h1.Floor;
    var d := s[j + 1] - s[j];
    var t1, t2 := h1 - j as real, h2 - j as real;
    assert d >= 0.0;
    MulNonNegative(t2 - t1, d);
    assert (t2 - t1) * d == t2 * d - t1 * d;
    assert Interp(s, q1) == s[j] + t1 * d;
    assert Interp(s, q2) == s[j] + t2 * d;
  }

  lemma InterpMonotoneAll(s: seq<real>, qs: seq<real>)
    requires |s| > 0 && Sorted(s) && Sorted(qs)
    requires forall i :: 0 <= i < |qs| ==> 0.0 <= qs[i] <= 1.0
    ensures forall i, j :: 0 <= i < j < |qs| ==> Interp(s, qs[i]) <= Interp(s, qs[j])
  {
    forall i, j | 0 <= i < j < |qs|
      ensures Interp(s, qs[i]) <= Interp(s, qs[j])
    {
      InterpMonotone(s, qs[i], qs[j]);
    }
  }

  /** The reference quantiles at the grid: the `bins + 1` candidate edges, non-decreasing,
      running from the sample's minimum to its maximum. */
  function Candidates(xs: seq<real>, bins: nat): (c: seq<real>)
    requires |xs| > 0 && bins >= 1
    ensures |c| == bins + 1
    ensures Sorted(c)
    ensures IsMin(c[0], xs) && IsMax(c[bins], xs)
  {
    SortEnds(xs);
    var c := QuantilesAt(Sort(xs), Grid(bins));
    CandidatesFacts(xs, bins);
    c
  }

  /** The quantiles of the sorted sample `s` at each probability of `qs`. */
  function QuantilesAt(s: seq<real>, qs: seq<real>): (c: seq<real>)
    requires |s| > 0 && forall i :: 0 <= i < |qs| ==> 0.0 <= qs[i] <= 1.0
    ensures |c| == |qs| && forall i :: 0 <= i < |qs| ==> c[i] == Interp(s, qs[i])
  {
    seq(|qs|, i requires 0 <= i < |qs| => Interp(s, qs[i]))
  }

  lemma CandidatesFacts(xs: seq<real>, bins: nat)
    requires |xs| > 0 && bins >= 1
    ensures |Sort(xs)| == |xs|
    ensures var c := QuantilesAt(Sort(xs), Grid(bins));
      Sorted(c) && IsMin(c[0], xs) && IsMax(c[bins], xs)
  {
    var s, qs := Sort(xs), Grid(bins);
    SortEnds(xs);
    var c := QuantilesAt(s, qs);
    StrictlySorted(qs);
    InterpMonotoneAll(s, qs);
    InterpBounds(s, 0.0);
    InterpBounds(s, 1.0);
  }

  /** Collapses runs of equal values in a sorted sequence. */
  function Dedup(s: seq<real>): (r: seq<real>)
    requires Sorted(s)
    ensures StrictlyIncreasing(r)
    ensures forall v :: v in r <==> v in s
    ensures |r| <= |s|
    ensures |s| > 0 ==> |r| > 0 && r[0] == s[0]
  {
    if |s| <= 1 then s
    else
      assert s == [s[0]] + s[1..];
      if s[0] == s[1] then Dedup(s[1..])
      else
        var t := Dedup(s[1..]);
        assert forall k :: 0 <= k < |t| ==> t[k] in s[1..];
        [s[0]] + t
  }

  /** `np.unique`: the sorted distinct values of `s`. */
  function Unique(s: seq<real>): (r: seq<real>)
    ensures StrictlyIncreasing(r)
    ensures forall v :: v in r <==> v in s
    ensures |r| <= |s|
    ensures |s| > 0 ==> |r| > 0
  {
    var t := Sort(s);
    assert |t| == |multiset(t)| == |multiset(s)| == |s|;
    assert forall v :: v in t <==> v in multiset(s);
    Dedup(t)
  }

  /** "The sorted distinct values" pins the result down: two strictly increasing
      sequences with the same values are equal, so `Unique` is NumPy's result. */
  lemma {:induction false} UniqueDetermined(a: seq<real>, b: seq<real>)
    requires StrictlyIncreasing(a) && StrictlyIncreasing(b)
    requires forall v :: v in a <==> v in b
    ensures a == b
  {
    if a != [] {
      assert a[0] in a;
    }
    if b != [] {
      assert b[0] in b;
    }
    if a != [] {
      assert a[0] in b && b[0] in a;
      assert a[0] == b[0];
      forall v
        ensures v in a[1..] <==> v in b[1..]
      {
        assert v in a[1..] <==> v in a && v != a[0];
        assert v in b[1..] <==> v in b && v != b[0];
      }
      UniqueDetermined(a[1..], b[1..]);
      assert a == [a[0]] + a[1..] && b == [b[0]] + b[1..];
    }
  }

  /** A strictly increasing sequence with the same values as a sorted one
      starts and ends where the sorted one does. */
  lemma SameEnds(r: seq<real>, c: seq<real>)
    requires StrictlyIncreasing(r) && Sorted(c) && |c| > 0
    requires forall v :: v in r <==> v in c
    ensures |r| > 0 && r[0] == c[0] && r[|r| - 1] == c[|c| - 1]
  {
    assert c[0] in r;
    assert c[|c| - 1] in r;
    assert r[0] in c;
    assert r[|r| - 1] in c;
  }

  /** The cut points: the distinct candidate edges, in increasing order. */
  function Cuts(xs: seq<real>, bins: nat): (cuts: seq<real>)
    requires |xs| > 0 && bins >= 1
    ensures StrictlyIncreasing(cuts)
    ensures 1 <= |cuts| <= bins + 1
    ensures IsMin(cuts[0], xs) && IsMax(cuts[|cuts| - 1], xs)
  {
    var c := Candidates(xs, bins);
    var cuts := Unique(c);
    SameEnds(cuts, c);
    cuts
  }

  /** There is a single cut, and so no bin at all, exactly when every reference
      value is the same. */
  lemma CutsCollapse(xs: seq<real>, bins: nat)
    requires |xs| > 0 && bins >= 1
    ensures |Cuts(xs, bins)| == 1 <==> forall k :: 0 <= k < |xs| ==> xs[k] == xs[0]
  {
    var cuts := Cuts(xs, bins);
    var lo, hi := cuts[0], cuts[|cuts| - 1];
    assert xs[0] in xs;
    if |cuts| == 1 {
      forall k | 0 <= k < |xs| ensures xs[k] == xs[0] {
        assert xs[k] in xs;
      }
    } else {
      assert lo < hi;
      var k :| 0 <= k < |xs| && xs[k] == hi;
      assert lo <= xs[0];
      assert xs[k] != xs[0] || lo < xs[0];
      if xs[k] == xs[0] {
        var m :| 0 <= m < |xs| && xs[m] == lo;
        assert xs[m] != xs[0];
      }
    }
  }

  /** Cut points depend only on the multiset of reference values. */
  lemma CutsPermutation(xs: seq<real>, ys: seq<real>, bins: nat)
    requires |xs| > 0 && bins >= 1
    requires multiset(xs) == multiset(ys)
    ensures |ys| > 0 && Cuts(xs, bins) == Cuts(ys, bins)
  {
    assert |xs| == |multiset(xs)| == |multiset(ys)| == |ys|;
    SortPermutation(xs, ys);
  }
}
