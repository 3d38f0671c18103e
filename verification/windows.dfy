/** Sliding-window aggregation of the per-site WIC table: window `n` covers rows
    `[S*n, min(S*n + W, L))`, at most `L / S` windows are taken, and the scan
    stops right after the first window that reaches the last row. */
module Windows {
  import Seqs

  /** Half-open row range `[start, end)` of one window. */
  datatype Window = Window(start: nat, end: nat)

  /** The label row of a window: the midpoint `(start + end) / 2` rounded down. */
  function Center(w: Window): nat {
    (w.start + w.end) / 2
  }

  /** A multiple `S * n` with `n < L / S` leaves room for one more step below `L`. */
  lemma StepBelowLength(length: nat, step: nat, n: nat)
    requires step > 0 && n < length / step
    ensures step * n + step <= length
  {
    assert step * (length / step) <= length;
    assert step * n + step == step * (n + 1);
    MultiplyMonotone(step, n + 1, length / step);
  }

  lemma MultiplyMonotone(a: nat, x: nat, y: nat)
    requires x <= y
    ensures a * x <= a * y
  {
  }

  /** Window `i` of the scan: it starts at row `S * i` and is cut at the last row. */
  function WindowAt(length: nat, width: nat, step: nat, i: nat): Window {
    Window(step * i, if step * i + width < length then step * i + width else length)
  }

  /** The windows from index `n` on, for `length` rows, window size `width` and step `step`. */
  function WindowsFrom(length: nat, width: nat, step: nat, n: nat): (ws: seq<Window>)
    requires width > 0 && step > 0
    ensures n <= length / step ==> |ws| <= length / step - n
    ensures n >= length / step ==> ws == []
    ensures forall k :: 0 <= k < |ws| ==> ws[k] == WindowAt(length, width, step, n + k)
    ensures forall k :: 0 <= k < |ws| ==> ws[k].start < ws[k].end <= length
    ensures forall k :: 0 <= k < |ws| - 1 ==> ws[k].end < length
    ensures n <= length / step && |ws| < length / step - n ==> |ws| > 0 && ws[|ws| - 1].end == length
    decreases if n <= length / step then length / step - n else 0
  {
    if n >= length / step then []
    else
      var start := step * n;
      var end := if start + width < length then start + width else length;
      StepBelowLength(length, step, n);
      assert Window(start, end) == WindowAt(length, width, step, n);
      if end == length then [Window(start, end)]
      else
        var rest := WindowsFrom(length, width, step, n + 1);
        [Window(start, end)] + rest
  }

  /** All windows of the scan. */
  function Windows(length: nat, width: nat, step: nat): (ws: seq<Window>)
    requires width > 0 && step > 0
    ensures |ws| <= length / step
    ensures forall k :: 0 <= k < |ws| ==>
      ws[k].start == step * k && ws[k].end == if step * k + width < length then step * k + width else length
    ensures forall k :: 0 <= k < |ws| ==> ws[k].start < ws[k].end <= length && Center(ws[k]) < length
    ensures forall k :: 0 <= k < |ws| - 1 ==> ws[k].end < length
    ensures |ws| < length / step ==> |ws| > 0 && ws[|ws| - 1].end == length
  {
    WindowsFrom(length, width, step, 0)
  }

  /** Window label rows never decrease along the scan. */
  lemma CentersSorted(length: nat, width: nat, step: nat)
    requires width > 0 && step > 0
    ensures var ws := Windows(length, width, step);
      forall i, j :: 0 <= i < j < |ws| ==> Center(ws[i]) <= Center(ws[j])
  {
    var ws := Windows(length, width, step);
    forall i, j | 0 <= i < j < |ws| ensures Center(ws[i]) <= Center(ws[j]) {
      MultiplyMonotone(step, i, j);
    }
  }

  /** With 10 rows, width 3 and step 4, only `10 / 4 = 2` windows are taken and
      neither reaches the last row, so rows 7 to 9 belong to no window. */
  lemma ShortScanExample()
    ensures Windows(10, 3, 4) == [Window(0, 3), Window(4, 7)]
  {
    assert WindowsFrom(10, 3, 4, 2) == [];
    assert WindowsFrom(10, 3, 4, 1) == [Window(4, 7)];
  }

  /** Mean WIC of one lineage over the rows of a window. */
  function Mean(xs: seq<real>, w: Window): (mean: real)
    requires w.start < w.end <= |xs|
    ensures w.end == w.start + 1 ==> mean == xs[w.start]
    ensures mean * (w.end - w.start) as real == Seqs.RangeSum(xs, w.start, w.end)
  {
    assert w.end == w.start + 1 ==> Seqs.RangeSum(xs, w.start, w.end) == xs[w.start];
    Seqs.RangeSum(xs, w.start, w.end) / (w.end - w.start) as real
  }

  /** A window holding one score throughout has that score as its mean. */
  lemma MeanOfConstant(xs: seq<real>, w: Window)
    requires w.start < w.end <= |xs|
    requires forall k :: w.start <= k < w.end ==> xs[k] == xs[w.start]
    ensures Mean(xs, w) == xs[w.start]
  {
    Seqs.RangeSumConstant(xs, w.start, w.end, xs[w.start]);
  }

  /** Scores in `[0, bound]` average to a value in `[0, bound]`. */
  lemma MeanBounds(xs: seq<real>, w: Window, bound: real)
    requires w.start < w.end <= |xs|
    requires forall k :: w.start <= k < w.end ==> 0.0 <= xs[k] <= bound
    ensures 0.0 <= Mean(xs, w) <= bound
  {
    Seqs.RangeSumBounds(xs, w.start, w.end, bound);
    var n := (w.end - w.start) as real;
    var s := Seqs.RangeSum(xs, w.start, w.end);
    assert Mean(xs, w) == s / n;
    Seqs.QuotientBounds(s, n, bound);
  }

  /** The window table: for each lineage, the mean over every window, in window order. */
  function WindowMeans(wic: seq<seq<real>>, length: nat, width: nat, step: nat): (means: seq<seq<real>>)
    requires width > 0 && step > 0
    requires Seqs.Rectangular(wic, length)
    ensures |means| == |wic| && Seqs.Rectangular(means, |Windows(length, width, step)|)
    ensures var ws := Windows(length, width, step);
      forall l, n :: 0 <= l < |means| && 0 <= n < |ws| ==>
        means[l][n] == Seqs.RangeSum(wic[l], ws[n].start, ws[n].end) / (ws[n].end - ws[n].start) as real
  {
    var ws := Windows(length, width, step);
    seq(|wic|, l requires 0 <= l < |wic| =>
      seq(|ws|, n requires 0 <= n < |ws| => Mean(wic[l], ws[n])))
  }

  /** Every window mean of a table with scores in `[0, bound]` lies in `[0, bound]`. */
  lemma WindowMeansBounded(wic: seq<seq<real>>, length: nat, width: nat, step: nat, bound: real)
    requires width > 0 && step > 0
    requires Seqs.Rectangular(wic, length)
    requires forall l, j :: 0 <= l < |wic| && 0 <= j < length ==> 0.0 <= wic[l][j] <= bound
    ensures var means := WindowMeans(wic, length, width, step);
      forall l, n :: 0 <= l < |means| && 0 <= n < |means[l]| ==> 0.0 <= means[l][n] <= bound
  {
    var ws := Windows(length, width, step);
    var means := WindowMeans(wic, length, width, step);
    forall l, n | 0 <= l < |means| && 0 <= n < |means[l]| ensures 0.0 <= means[l][n] <= bound {
      MeanBounds(wic[l], ws[n], bound);
    }
  }

  /** The site label printed for each window: the label of its center row,
      which is one of the rows the window covers. */
  function CenterLabels(sites: seq<int>, width: nat, step: nat): (labels: seq<int>)
    requires width > 0 && step > 0
    ensures var ws := Windows(|sites|, width, step);
      && |labels| == |ws|
      && forall n :: 0 <= n < |labels| ==> labels[n] in sites[ws[n].start..ws[n].end]
  {
    var ws := Windows(|sites|, width, step);
    seq(|ws|, n requires 0 <= n < |ws| => sites[Center(ws[n])])
  }
}
