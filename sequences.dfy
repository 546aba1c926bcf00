/** Facts about finite samples of reals that the PSI routine relies on:
    ordering, NumPy's sort (specified by what it returns), counting and sums. */
module Sequences {

  /** Non-decreasing order, the order `np.sort` produces. */
  predicate Sorted(s: seq<real>) {
    forall i, j :: 0 <= i < j < |s| ==> s[i] <= s[j]
  }

  /** Strictly increasing order, the order `np.unique` produces. */
  predicate StrictlyIncreasing(s: seq<real>) {
    forall i, j :: 0 <= i < j < |s| ==> s[i] < s[j]
  }

  lemma StrictlySorted(s: seq<real>)
    requires StrictlyIncreasing(s)
    ensures Sorted(s)
  {
  }

  /** `m` is the smallest value of the sample `xs`. */
  predicate IsMin(m: real, xs: seq<real>) {
    m in xs && forall v :: v in xs ==> m <= v
  }

  /** `m` is the largest value of the sample `xs`. */
  predicate IsMax(m: real, xs: seq<real>) {
    m in xs && forall v :: v in xs ==> v <= m
  }

  /** Inserts `x` into a sorted sequence, keeping it sorted. */
  function Insert(x: real, s: seq<real>): (r: seq<real>)
    requires Sorted(s)
    ensures Sorted(r)
    ensures multiset(r) == multiset(s) + multiset{x}
  {
    if s == [] || x <= s[0] then
      [x] + s
    else
      var t := Insert(x, s[1..]);
      InsertBehindHead(x, s, t);
      [s[0]] + t
  }

  /** Keeping the head of `s` in front of `x` inserted into the rest keeps the order and the values. */
  lemma InsertBehindHead(x: real, s: seq<real>, t: seq<real>)
    requires Sorted(s) && s != [] && s[0] < x
    requires Sorted(t) && multiset(t) == multiset(s[1..]) + multiset{x}
    ensures Sorted([s[0]] + t)
    ensures multiset([s[0]] + t) == multiset(s) + multiset{x}
  {
    assert s == [s[0]] + s[1..];
    forall k | 0 <= k < |t|
      ensures s[0] <= t[k]
    {
      assert t[k] in multiset(t);
      if t[k] != x {
        assert t[k] in multiset(s[1..]);
        var j :| 0 <= j < |s[1..]| && s[1..][j] == t[k];
        assert s[0] <= s[j + 1];
      }
    }
  }

  /** The sorted rearrangement of a sample (what `np.quantile` sorts before interpolating). */
  function Sort(s: seq<real>): (r: seq<real>)
    ensures Sorted(r)
    ensures multiset(r) == multiset(s)
  {
    if s == [] then []
    else
      assert s == [s[0]] + s[1..];
      Insert(s[0], Sort(s[1..]))
  }

  /** A sorted sequence is determined by its multiset: any correct sort returns `Sort(s)`. */
  lemma {:induction false} SortedUnique(a: seq<real>, b: seq<real>)
    requires Sorted(a) && Sorted(b)
    requires multiset(a) == multiset(b)
    ensures a == b
  {
    if a != [] {
      assert b != [] by { assert a[0] in multiset(b); }
      SortedHeads(a, b);
      DropHead(a);
      DropHead(b);
      SortedUnique(a[1..], b[1..]);
      assert a == [a[0]] + a[1..] && b == [b[0]] + b[1..];
    }
  }

  /** Two sorted sequences with the same values start with the same value. */
  lemma SortedHeads(a: seq<real>, b: seq<real>)
    requires Sorted(a) && Sorted(b) && a != [] && b != []
    requires multiset(a) == multiset(b)
    ensures a[0] == b[0]
  {
    assert a[0] in multiset(b);
    assert b[0] in multiset(a);
    var i :| 0 <= i < |b| && b[i] == a[0];
    var j :| 0 <= j < |a| && a[j] == b[0];
    assert b[0] <= b[i] && a[0] <= a[j];
  }

  /** Dropping the head removes one copy of it from the multiset. */
  lemma DropHead(a: seq<real>)
    requires a != []
    ensures multiset(a[1..]) == multiset(a) - multiset{a[0]}
  {
    assert a == [a[0]] + a[1..];
  }

  /** Sorting is insensitive to the order of the input. */
  lemma SortPermutation(xs: seq<real>, ys: seq<real>)
    requires multiset(xs) == multiset(ys)
    ensures Sort(xs) == Sort(ys)
  {
    SortedUnique(Sort(xs), Sort(ys));
  }

  /** The first and last elements of the sorted sample are its minimum and maximum. */
  lemma SortEnds(xs: seq<real>)
    requires |xs| > 0
    ensures |Sort(xs)| == |xs|
    ensures IsMin(Sort(xs)[0], xs)
    ensures IsMax(Sort(xs)[|xs| - 1], xs)
  {
    var s := Sort(xs);
    SameLength(s, xs);
    SameMembers(s, xs);
    SortedEnds(s);
  }

  /** Sequences with the same multiset have the same length. */
  lemma SameLength(a: seq<real>, b: seq<real>)
    requires multiset(a) == multiset(b)
    ensures |a| == |b|
  {
    assert |a| == |multiset(a)| && |b| == |multiset(b)|;
  }

  /** A sorted non-empty sequence starts at its minimum and ends at its maximum. */
  lemma SortedEnds(s: seq<real>)
    requires Sorted(s) && |s| > 0
    ensures IsMin(s[0], s) && IsMax(s[|s| - 1], s)
  {
    forall v | v in s ensures s[0] <= v <= s[|s| - 1] {
      InSorted(s, v);
    }
  }

  /** Sequences with the same multiset have the same members. */
  lemma SameMembers(a: seq<real>, b: seq<real>)
    requires multiset(a) == multiset(b)
    ensures forall v :: v in a <==> v in b
  {
    forall v ensures v in a <==> v in b {
      assert v in a <==> v in multiset(a);
      assert v in b <==> v in multiset(b);
    }
  }

  /** Every member of a sorted sequence lies between its first and last element. */
  lemma InSorted(s: seq<real>, v: real)
    requires Sorted(s) && v in s
    ensures s[0] <= v <= s[|s| - 1]
  {
    var i :| 0 <= i < |s| && s[i] == v;
  }

  /** Number of values of `xs` that satisfy `p`. */
  function CountWhere(xs: seq<real>, p: real -> bool): (n: nat)
    ensures n <= |xs|
  {
    if xs == [] then 0
    else (if p(xs[0]) then 1 else 0) + CountWhere(xs[1..], p)
  }

  lemma {:induction false} CountWhereConcat(xs: seq<real>, ys: seq<real>, p: real -> bool)
    ensures CountWhere(xs + ys, p) == CountWhere(xs, p) + CountWhere(ys, p)
  {
    if xs != [] {
      assert (xs + ys)[0] == xs[0];
      assert (xs + ys)[1..] == xs[1..] + ys;
      CountWhereConcat(xs[1..], ys, p);
    } else {
      assert xs + ys == ys;
    }
  }

  /** Removing the value at position `j` lowers the count by that value's own contribution. */
  lemma CountWhereRemove(ys: seq<real>, j: nat, p: real -> bool)
    requires j < |ys|
    ensures CountWhere(ys, p) == (if p(ys[j]) then 1 else 0) + CountWhere(ys[..j] + ys[j + 1..], p)
  {
    var front, back := ys[..j], ys[j + 1..];
    SplitAt(ys, j);
    CountWhereConcat(front, [ys[j]] + back, p);
    CountWhereCons(ys[j], back, p);
    CountWhereConcat(front, back, p);
  }

  lemma SplitAt(ys: seq<real>, j: nat)
    requires j < |ys|
    ensures ys == ys[..j] + ([ys[j]] + ys[j + 1..])
  {
  }

  lemma CountWhereCons(x: real, xs: seq<real>, p: real -> bool)
    ensures CountWhere([x] + xs, p) == (if p(x) then 1 else 0) + CountWhere(xs, p)
  {
    assert ([x] + xs)[0] == x && ([x] + xs)[1..] == xs;
  }

  /** Removing the value at position `j` removes one copy of it from the multiset. */
  lemma MultisetRemove(ys: seq<real>, j: nat)
    requires j < |ys|
    ensures multiset(ys[..j] + ys[j + 1..]) == multiset(ys) - multiset{ys[j]}
  {
    assert ys == ys[..j] + [ys[j]] + ys[j + 1..];
  }

  /** A count depends only on the multiset of the values counted. */
  lemma {:induction false} CountWherePermutation(xs: seq<real>, ys: seq<real>, p: real -> bool)
    requires multiset(xs) == multiset(ys)
    ensures CountWhere(xs, p) == CountWhere(ys, p)
  {
    if xs != [] {
      var x := xs[0];
      assert x in multiset(ys);
      var j :| 0 <= j < |ys| && ys[j] == x;
      var rest := ys[..j] + ys[j + 1..];
      MultisetRemove(ys, j);
      DropHead(xs);
      CountWherePermutation(xs[1..], rest, p);
      CountWhereRemove(ys, j, p);
      CountWhereCons(x, xs[1..], p);
      assert xs == [x] + xs[1..];
    } else {
      assert |ys| == |multiset(ys)| == 0;
    }
  }

  /** When every value satisfies `p`, all of them are counted. */
  lemma {:induction false} CountWhereAll(xs: seq<real>, p: real -> bool)
    requires forall k :: 0 <= k < |xs| ==> p(xs[k])
    ensures CountWhere(xs, p) == |xs|
  {
    if xs != [] {
      CountWhereAll(xs[1..], p);
    }
  }

  /** When no value satisfies `p`, the count is zero. */
  lemma {:induction false} CountWhereNone(xs: seq<real>, p: real -> bool)
    requires forall k :: 0 <= k < |xs| ==> !p(xs[k])
    ensures CountWhere(xs, p) == 0
  {
    if xs != [] {
      CountWhereNone(xs[1..], p);
    }
  }

  /** Total of a vector of counts (`ndarray.sum` on a histogram). */
  function Sum(s: seq<nat>): nat {
    if s == [] then 0 else s[0] + Sum(s[1..])
  }

  /** No single count exceeds the total. */
  lemma {:induction false} ElementsBelowSum(s: seq<nat>)
    ensures forall i :: 0 <= i < |s| ==> s[i] <= Sum(s)
  {
    if s != [] {
      ElementsBelowSum(s[1..]);
      assert forall i :: 1 <= i < |s| ==> s[i] == s[1..][i - 1];
    }
  }

  /** A vector of counts sums to zero exactly when every count is zero. */
  lemma {:induction false} SumZero(s: seq<nat>)
    ensures Sum(s) == 0 <==> forall i :: 0 <= i < |s| ==> s[i] == 0
  {
    if s != [] {
      SumZero(s[1..]);
      assert forall i :: 1 <= i < |s| ==> s[i] == s[1..][i - 1];
    }
  }

  /** Element-wise sum of two count vectors of the same length. */
  function AddCounts(a: seq<nat>, b: seq<nat>): (r: seq<nat>)
    requires |a| == |b|
    ensures |r| == |a|
  {
    seq(|a|, i requires 0 <= i < |a| => a[i] + b[i])
  }

  /** Totals add up under element-wise addition. */
  lemma {:induction false} SumAddCounts(a: seq<nat>, b: seq<nat>)
    requires |a| == |b|
    ensures Sum(AddCounts(a, b)) == Sum(a) + Sum(b)
  {
    if a != [] {
      assert AddCounts(a, b)[1..] == AddCounts(a[1..], b[1..]);
      SumAddCounts(a[1..], b[1..]);
    }
  }

  /** A vector holding a single 1 and zeros elsewhere sums to 1. */
  lemma {:induction false} SumOneHot(s: seq<nat>, k: nat)
    requires k < |s| && s[k] == 1
    requires forall i :: 0 <= i < |s| && i != k ==> s[i] == 0
    ensures Sum(s) == 1
  {
    if k == 0 {
      SumZero(s[1..]);
    } else {
      SumOneHot(s[1..], k - 1);
    }
  }
}
