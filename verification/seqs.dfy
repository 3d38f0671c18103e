/** Sequence helpers shared by every stage of the scan: counting, filtering,
    first-maximum selection and range sums over score columns. */
module Seqs {

  /** Strictly increasing positions. */
  predicate Increasing(xs: seq<nat>) {
    forall i, j :: 0 <= i < j < |xs| ==> xs[i] < xs[j]
  }

  /** Nondecreasing values. */
  predicate Sorted(xs: seq<int>) {
    forall i, j :: 0 <= i < j < |xs| ==> xs[i] <= xs[j]
  }

  /** A table whose every row holds exactly `width` scores. */
  predicate Rectangular(t: seq<seq<real>>, width: nat) {
    forall l :: 0 <= l < |t| ==> |t[l]| == width
  }

  /** Number of occurrences of `x` in `s`, like a list's `count`. */
  function Count<T(==)>(s: seq<T>, x: T): (n: nat)
    ensures n <= |s|
    ensures n > 0 <==> x in s
  {
    if |s| == 0 then 0 else (if s[0] == x then 1 else 0) + Count(s[1..], x)
  }

  /** `Count` is the multiplicity of `x` in the multiset of `s`'s elements. */
  lemma {:induction false} CountIsMultiplicity<T>(s: seq<T>, x: T)
    ensures Count(s, x) == multiset(s)[x]
  {
    if |s| > 0 {
      CountIsMultiplicity(s[1..], x);
      assert s == [s[0]] + s[1..];
      assert multiset(s) == multiset([s[0]]) + multiset(s[1..]);
    }
  }

  /** Every element equals `x` exactly when `x` is counted once per element. */
  lemma {:induction false} CountAll<T>(s: seq<T>, x: T)
    ensures Count(s, x) == |s| <==> forall k :: 0 <= k < |s| ==> s[k] == x
  {
    if |s| > 0 {
      CountAll(s[1..], x);
      if Count(s, x) == |s| {
        assert s[0] == x;
      }
      if forall k :: 0 <= k < |s| ==> s[k] == x {
        assert forall k :: 0 <= k < |s[1..]| ==> s[1..][k] == x by {
          forall k | 0 <= k < |s[1..]| ensures s[1..][k] == x {
            assert s[1..][k] == s[k + 1];
          }
        }
      }
    }
  }

  /** Two strictly increasing position lists holding the same positions are the same list. */
  lemma {:induction false} IncreasingUnique(a: seq<nat>, b: seq<nat>)
    requires Increasing(a) && Increasing(b)
    requires forall x :: x in a <==> x in b
    ensures a == b
    decreases |a|
  {
    assert |a| > 0 ==> a[0] in b;
    assert |b| > 0 ==> b[0] in a;
    if |a| > 0 {
      assert a[0] in a && a[0] in b;
      assert b[0] in b;
      var i :| 0 <= i < |b| && b[i] == a[0];
      var k :| 0 <= k < |a| && a[k] == b[0];
      assert b[0] <= b[i] && a[0] <= a[k];
      forall x | x in a[1..] ensures x in b[1..] {
        var n :| 1 <= n < |a| && a[n] == x;
        assert a[n] in a;
        var m :| 0 <= m < |b| && b[m] == x;
        assert m != 0;
      }
      forall x | x in b[1..] ensures x in a[1..] {
        var m :| 1 <= m < |b| && b[m] == x;
        assert b[m] in b;
        var n :| 0 <= n < |a| && a[n] == x;
        assert n != 0;
      }
      IncreasingUnique(a[1..], b[1..]);
      assert a == [a[0]] + a[1..] && b == [b[0]] + b[1..];
    }
  }

  /** Positions below `count` that satisfy `p`, in increasing order, starting the scan at `k`. */
  function IndicesFrom(count: nat, p: nat -> bool, k: nat): (r: seq<nat>)
    requires k <= count
    ensures Increasing(r)
    ensures forall i :: 0 <= i < |r| ==> k <= r[i] < count && p(r[i])
    ensures forall n :: k <= n < count && p(n) ==> n in r
    decreases count - k
  {
    if k == count then []
    else if p(k) then [k] + IndicesFrom(count, p, k + 1)
    else IndicesFrom(count, p, k + 1)
  }

  /** Positions below `count` that satisfy `p`, in increasing order: the shape of
      every "keep the entries where ..." selection of the scan. */
  function IndicesWhere(count: nat, p: nat -> bool): (r: seq<nat>)
    ensures Increasing(r)
    ensures forall n: nat :: n in r <==> n < count && p(n)
  {
    IndicesFrom(count, p, 0)
  }

  /** The elements of `s` that satisfy `p`, in their original order. */
  function Filter<T(!new)>(s: seq<T>, p: T -> bool): (r: seq<T>)
    ensures |r| <= |s|
    ensures forall x :: x in r <==> x in s && p(x)
  {
    if |s| == 0 then []
    else if p(s[0]) then [s[0]] + Filter(s[1..], p)
    else Filter(s[1..], p)
  }

  /** Filtering distributes over concatenation, so the relative order of kept elements is preserved. */
  lemma {:induction false} FilterAppend<T(!new)>(a: seq<T>, b: seq<T>, p: T -> bool)
    ensures Filter(a + b, p) == Filter(a, p) + Filter(b, p)
  {
    if |a| > 0 {
      assert (a + b)[1..] == a[1..] + b;
      FilterAppend(a[1..], b, p);
    } else {
      assert a + b == b;
    }
  }

  /** A prefix that passes followed by a suffix that fails filters to the prefix. */
  lemma {:induction false} FilterPrefix<T(!new)>(s: seq<T>, n: nat, p: T -> bool)
    requires n <= |s|
    requires forall k :: 0 <= k < n ==> p(s[k])
    requires forall k :: n <= k < |s| ==> !p(s[k])
    ensures Filter(s, p) == s[..n]
  {
    if n > 0 {
      assert s[1..][..n - 1] == s[..n][1..];
      FilterPrefix(s[1..], n - 1, p);
    } else if |s| > 0 {
      FilterPrefix(s[1..], 0, p);
    }
  }

  /** Dropping one failing element between two passing runs. */
  lemma FilterDropsMiddle<T(!new)>(a: seq<T>, x: T, b: seq<T>, p: T -> bool)
    requires forall k :: 0 <= k < |a| ==> p(a[k])
    requires forall k :: 0 <= k < |b| ==> p(b[k])
    requires !p(x)
    ensures Filter(a + ([x] + b), p) == a + b
  {
    FilterPrefix(a, |a|, p);
    assert a[..|a|] == a;
    FilterPrefix(b, |b|, p);
    assert b[..|b|] == b;
    FilterAppend([x], b, p);
    FilterAppend(a, [x] + b, p);
  }

  /** When exactly the element at `i` fails, filtering removes just that element. */
  lemma FilterRemovesOne<T(!new)>(s: seq<T>, i: nat, p: T -> bool)
    requires i < |s| && !p(s[i])
    requires forall k :: 0 <= k < |s| && k != i ==> p(s[k])
    ensures Filter(s, p) == s[..i] + s[i + 1..]
  {
    var a, b := s[..i], s[i + 1..];
    assert forall k :: 0 <= k < |a| ==> a[k] == s[k];
    assert forall k :: 0 <= k < |b| ==> b[k] == s[i + 1 + k];
    SplitAt(s, i);
    FilterDropsMiddle(a, s[i], b, p);
  }

  /** A sequence is its prefix, the element at `i`, and its suffix. */
  lemma SplitAt<T>(s: seq<T>, i: nat)
    requires i < |s|
    ensures s == s[..i] + ([s[i]] + s[i + 1..])
  {
  }

  /** Index of the first maximal value: the element Python's `max(..., key=...)` returns,
      since it only replaces its running best on a strictly greater key. */
  function FirstArgMax(xs: seq<int>): (i: nat)
    requires |xs| > 0
    ensures i < |xs|
    ensures forall k :: 0 <= k < |xs| ==> xs[k] <= xs[i]
    ensures forall k :: 0 <= k < i ==> xs[k] < xs[i]
  {
    ArgMaxFrom(xs, 1, 0)
  }

  /** The running scan behind `FirstArgMax`: `b` is the first maximum of `xs[..k]`. */
  function ArgMaxFrom(xs: seq<int>, k: nat, b: nat): (i: nat)
    requires b < k <= |xs|
    requires forall m :: 0 <= m < k ==> xs[m] <= xs[b]
    requires forall m :: 0 <= m < b ==> xs[m] < xs[b]
    ensures i < |xs|
    ensures forall m :: 0 <= m < |xs| ==> xs[m] <= xs[i]
    ensures forall m :: 0 <= m < i ==> xs[m] < xs[i]
    decreases |xs| - k
  {
    if k == |xs| then b
    else if xs[k] > xs[b] then ArgMaxFrom(xs, k + 1, k)
    else ArgMaxFrom(xs, k + 1, b)
  }

  /** Largest value of a nonempty sequence of scores. */
  function MaxOf(xs: seq<real>): (m: real)
    requires |xs| > 0
    ensures exists k :: 0 <= k < |xs| && xs[k] == m
    ensures forall k :: 0 <= k < |xs| ==> xs[k] <= m
  {
    if |xs| == 1 then xs[0]
    else
      var rest := MaxOf(xs[1..]);
      assert forall k :: 1 <= k < |xs| ==> xs[k] == xs[1..][k - 1];
      if xs[0] >= rest then xs[0] else rest
  }

  /** Sum of `xs[lo..hi]`, empty when `hi <= lo`, like summing a Python slice. */
  function RangeSum(xs: seq<real>, lo: int, hi: int): real
    requires 0 <= lo && hi <= |xs|
    decreases hi - lo
  {
    if hi <= lo then 0.0 else RangeSum(xs, lo, hi - 1) + xs[hi - 1]
  }

  /** Scores in `[0, bound]` sum to at most `bound` per summed element. */
  lemma {:induction false} RangeSumBounds(xs: seq<real>, lo: int, hi: int, bound: real)
    requires 0 <= lo <= hi <= |xs|
    requires forall k :: lo <= k < hi ==> 0.0 <= xs[k] <= bound
    ensures 0.0 <= RangeSum(xs, lo, hi) <= bound * (hi - lo) as real
  {
    if lo < hi {
      RangeSumBounds(xs, lo, hi - 1, bound);
      assert bound * (hi - lo) as real == bound * (hi - 1 - lo) as real + bound;
    }
  }

  /** A range holding one value `v` throughout sums to `v` per element. */
  lemma {:induction false} RangeSumConstant(xs: seq<real>, lo: int, hi: int, v: real)
    requires 0 <= lo <= hi <= |xs|
    requires forall k :: lo <= k < hi ==> xs[k] == v
    ensures RangeSum(xs, lo, hi) == v * (hi - lo) as real
  {
    if lo < hi {
      RangeSumConstant(xs, lo, hi - 1, v);
      assert v * (hi - lo) as real == v * (hi - 1 - lo) as real + v;
    }
  }

  /** A factor of a non-negative product with a positive factor is non-negative. */
  lemma NonnegativeFactor(a: real, d: real)
    requires 0.0 < d && 0.0 <= a * d
    ensures 0.0 <= a
  {
  }

  /** A factor of a positive product with a positive factor is positive. */
  lemma PositiveFactor(a: real, d: real)
    requires 0.0 < d && 0.0 < a * d
    ensures 0.0 < a
  {
  }

  /** Dividing by `d > 0` a value in `[0, b * d]` gives a value in `[0, b]`,
      and a value below `b * d` gives a value below `b`. */
  lemma QuotientBounds(x: real, d: real, b: real)
    requires 0.0 < d && 0.0 <= x <= b * d
    ensures 0.0 <= x / d <= b
    ensures x < b * d ==> x / d < b
  {
    var q := x / d;
    assert q * d == x;
    NonnegativeFactor(q, d);
    assert (b - q) * d == b * d - x;
    NonnegativeFactor(b - q, d);
    if x < b * d {
      PositiveFactor(b - q, d);
    }
  }

  /** A positive sum comes from a nonempty range. */
  lemma PositiveSumNonempty(xs: seq<real>, lo: int, hi: int)
    requires 0 <= lo && hi <= |xs|
    requires RangeSum(xs, lo, hi) != 0.0
    ensures lo < hi
  {
  }
}
