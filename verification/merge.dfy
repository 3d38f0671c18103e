/** Greedy region merge with cursor backtracking, one lineage at a time.

    From the cursor's candidate center, every later candidate gives a trial
    region; the valid trials are those where the lineage out-scores every other
    lineage and reaches `cp`. A step of the scan then stops, advances the cursor,
    or emits a region and jumps the cursor, as `StepAt` describes. Sums run over
    the half-open rows `[left, right)` while lengths count `right - left + 1`
    rows, exactly as the script does. */
module Merge {
  import Seqs

  /** A recombinant region in row coordinates. */
  datatype Region = Region(left: nat, right: nat)

  /** Everything one lineage's merge reads: the whole per-site WIC table, the
      lineage's position in it, the number of rows `L`, the step `S`, the length
      cap, the maximal information content and the threshold `cp`. */
  datatype Scan = Scan(wic: seq<seq<real>>, lineage: nat, length: nat, step: nat,
                       maxFragment: int, maxMic: real, cp: real)
  {
    predicate Valid() {
      && lineage < |wic|
      && Seqs.Rectangular(wic, length)
      && maxMic > 0.0
    }
  }

  /** `int(n / 2)`: halving with truncation toward zero, as a float-to-int cast does. */
  function TruncHalf(n: int): int {
    if n >= 0 then n / 2 else -((-n) / 2)
  }

  /** Left end of a trial: `max(0, int(center - S / 2))`. */
  function TrialLeft(step: nat, center: nat): (left: nat)
    ensures left <= center
    ensures left > 0 ==> 2 * center - step - 1 <= 2 * left <= 2 * center - step
  {
    var t := TruncHalf(2 * center - step);
    if t < 0 then 0 else t
  }

  /** Right end of a trial: `min(L, int(c + S / 2))`. */
  function TrialRight(length: nat, step: nat, c: nat): (right: nat)
    ensures right <= length
  {
    var t := TruncHalf(2 * c + step);
    if length < t then length else t
  }

  /** Truncation and flooring differ only on negative values, which the clamp
      to 0 absorbs, so the left end is the floor of `center - S / 2`, clamped. */
  lemma TrialLeftIsFloor(step: nat, center: nat)
    ensures TrialLeft(step, center) == if (2 * center - step) / 2 < 0 then 0 else (2 * center - step) / 2
  {
  }

  /** Rows counted by the script for a region: one more than it sums over. */
  function Span(left: nat, right: nat): int {
    right - left + 1
  }

  /** The lineage's WIC summed over rows `[left, right)`. */
  function OwnSum(s: Scan, left: nat, right: nat): real
    requires s.Valid() && right <= s.length
  {
    Seqs.RangeSum(s.wic[s.lineage], left, right)
  }

  /** Best competing sum among lineages `0 .. n-1` other than the scanned one,
      starting from 0 and taking every sum at least as large as the running best. */
  function BestOther(s: Scan, left: nat, right: nat, n: nat): (best: real)
    requires s.Valid() && right <= s.length && n <= |s.wic|
    ensures best >= 0.0
    ensures forall k :: 0 <= k < n && k != s.lineage ==> Seqs.RangeSum(s.wic[k], left, right) <= best
    ensures best == 0.0 || exists k :: 0 <= k < n && k != s.lineage && best == Seqs.RangeSum(s.wic[k], left, right)
  {
    if n == 0 then 0.0
    else
      var b := BestOther(s, left, right, n - 1);
      var x := Seqs.RangeSum(s.wic[n - 1], left, right);
      if n - 1 != s.lineage && x >= b then x else b
  }

  /** The share test `sum / (rows * maxMic) >= cp`, with the rows the script counts. */
  predicate ReachesShare(sum: real, left: nat, right: nat, maxMic: real, cp: real)
    requires left < right && maxMic > 0.0
  {
    sum / (Span(left, right) as real * maxMic) >= cp
  }

  /** The script's trial test: the lineage's sum beats the running best of the
      other lineages, then the share test holds. */
  predicate ValidTrial(s: Scan, left: nat, right: nat)
    requires s.Valid() && right <= s.length
    ensures ValidTrial(s, left, right) ==> left < right && OwnSum(s, left, right) > 0.0
  {
    var own := OwnSum(s, left, right);
    && own > BestOther(s, left, right, |s.wic|)
    && (Seqs.PositiveSumNonempty(s.wic[s.lineage], left, right);
        ReachesShare(own, left, right, s.maxMic, s.cp))
  }

  /** The property an emitted region has: a nonempty range inside the table
      where the lineage's sum is positive, strictly larger than every other
      lineage's sum over the same rows, and reaches `cp` per counted row. */
  predicate Dominates(s: Scan, left: nat, right: nat)
    requires s.Valid()
  {
    && left < right <= s.length
    && OwnSum(s, left, right) > 0.0
    && (forall k :: 0 <= k < |s.wic| && k != s.lineage ==> Seqs.RangeSum(s.wic[k], left, right) < OwnSum(s, left, right))
    && ReachesShare(OwnSum(s, left, right), left, right, s.maxMic, s.cp)
  }

  /** The running-best test of the script is the same as beating every other lineage and 0. */
  lemma ValidTrialIff(s: Scan, left: nat, right: nat)
    requires s.Valid() && right <= s.length
    ensures ValidTrial(s, left, right) <==> Dominates(s, left, right)
  {
    var own := OwnSum(s, left, right);
    var best := BestOther(s, left, right, |s.wic|);
    if Dominates(s, left, right) {
      if best != 0.0 {
        var k :| 0 <= k < |s.wic| && k != s.lineage && best == Seqs.RangeSum(s.wic[k], left, right);
      }
    }
  }

  /** One trial: the 1-based candidate number (as the script records it) and its bounds. */
  datatype Trial = Trial(index: nat, left: nat, right: nat)

  /** Right ends of the trials of every candidate. */
  function Ends(length: nat, step: nat, c: seq<nat>): (ends: seq<nat>)
    ensures |ends| == |c|
  {
    seq(|c|, n requires 0 <= n < |c| => TrialRight(length, step, c[n]))
  }

  /** The trials, in candidate order, for candidates `i ..` (0-based; trial
      `n` ends at `ends[n]`) reached from a fixed left end, keeping those that
      pass `ok`. */
  function TrialsFrom(ends: seq<nat>, left: nat, i: nat, ok: Trial -> bool): (ts: seq<Trial>)
    requires i <= |ends|
    ensures |ts| <= |ends| - i
    ensures forall k :: 0 <= k < |ts| ==>
      i < ts[k].index <= |ends| && ts[k].left == left && ts[k].right == ends[ts[k].index - 1] && ok(ts[k])
    ensures forall a, b :: 0 <= a < b < |ts| ==> ts[a].index < ts[b].index
    ensures forall n :: i <= n < |ends| && ok(Trial(n + 1, left, ends[n])) ==> Trial(n + 1, left, ends[n]) in ts
    decreases |ends| - i
  {
    if i == |ends| then []
    else
      var t := Trial(i + 1, left, ends[i]);
      var rest := TrialsFrom(ends, left, i + 1, ok);
      if ok(t) then [t] + rest else rest
  }

  /** The trials a cursor at candidate `j` (1-based) examines. */
  function CursorTrials(s: Scan, c: seq<nat>, j: nat): (ts: seq<Trial>)
    requires s.Valid() && 1 <= j <= |c|
    ensures |ts| <= |c| - j + 1
  {
    TrialsFrom(Ends(s.length, s.step, c), TrialLeft(s.step, c[j - 1]), j - 1,
               (t: Trial) => t.right <= s.length && ValidTrial(s, t.left, t.right))
  }

  /** The trials of a cursor are exactly the valid ones: each starts at the
      cursor's left end, ends at its candidate's right end inside the table and
      passes the trial test, and every candidate from the cursor on whose trial
      passes is among them. */
  lemma CursorTrialsValid(s: Scan, c: seq<nat>, j: nat)
    requires s.Valid() && 1 <= j <= |c|
    ensures var ts := CursorTrials(s, c, j);
      var left := TrialLeft(s.step, c[j - 1]);
      && (forall k :: 0 <= k < |ts| ==>
            && j <= ts[k].index <= |c|
            && ts[k].left == left && ts[k].right == TrialRight(s.length, s.step, c[ts[k].index - 1])
            && ValidTrial(s, ts[k].left, ts[k].right))
      && (forall n :: j - 1 <= n < |c| && ValidTrial(s, left, TrialRight(s.length, s.step, c[n])) ==>
            Trial(n + 1, left, TrialRight(s.length, s.step, c[n])) in ts)
  {
    var ends := Ends(s.length, s.step, c);
    assert forall n :: 0 <= n < |c| ==> ends[n] == TrialRight(s.length, s.step, c[n]);
  }

  function RegionOf(t: Trial): Region {
    Region(t.left, t.right)
  }

  function TrialSpan(t: Trial): int {
    Span(t.left, t.right)
  }

  /** Position of the first trial from `k` on whose span exceeds the cap. */
  function FirstOverCap(ts: seq<Trial>, cap: int, k: nat): (n: nat)
    requires k <= |ts|
    requires exists m :: k <= m < |ts| && TrialSpan(ts[m]) > cap
    ensures k <= n < |ts| && TrialSpan(ts[n]) > cap
    ensures forall m :: k <= m < n ==> TrialSpan(ts[m]) <= cap
    decreases |ts| - k
  {
    if TrialSpan(ts[k]) > cap then k else FirstOverCap(ts, cap, k + 1)
  }

  /** The outcome of one pass of the scan loop: the regions it emits, and
      whether the lineage's scan stops or continues from a new cursor. */
  datatype Step = Stop(emitted: seq<Region>) | Advance(emitted: seq<Region>, cursor: nat)

  /** An emitted region lies inside the table, dominates its rows and fits the cap. */
  predicate Accepted(s: Scan, r: Region)
    requires s.Valid()
  {
    Dominates(s, r.left, r.right) && Span(r.left, r.right) <= s.maxFragment
  }

  predicate FitsCap(cap: int, t: Trial) {
    TrialSpan(t) <= cap
  }

  /** The trials of a cursor at candidate `j`: candidate numbers from `j` up to
      `count`, strictly increasing. */
  predicate CursorShaped(ts: seq<Trial>, j: nat, count: nat) {
    && (forall k :: 0 <= k < |ts| ==> j <= ts[k].index <= count)
    && (forall a, b :: 0 <= a < b < |ts| ==> ts[a].index < ts[b].index)
  }

  /** The decision one pass makes from the valid trials `ts` of cursor `j`, when
      `j` is not the last candidate. With no valid trial, or with a first valid
      trial already over the cap, it advances by one; when the last valid trial
      fits it emits that and stops; otherwise it emits the valid trial just
      before the first one over the cap and moves the cursor to that trial's
      candidate, or one further when that is the cursor itself. */
  function Decide(ts: seq<Trial>, j: nat, count: nat, cap: int): (st: Step)
    requires j < count && CursorShaped(ts, j, count)
    ensures st.Advance? ==> j < st.cursor <= count
    ensures |st.emitted| <= 1
    ensures st.emitted != [] ==> exists t :: t in ts && FitsCap(cap, t) && st.emitted[0] == RegionOf(t)
  {
    if |ts| == 0 then Advance([], j + 1)
    else if TrialSpan(ts[0]) > cap then Advance([], j + 1)
    else if TrialSpan(ts[|ts| - 1]) <= cap then
      Stop([RegionOf(ts[|ts| - 1])])
    else
      var n := FirstOverCap(ts, cap, 0);
      var prev := ts[n - 1];
      Advance([RegionOf(prev)], if prev.index == j then j + 1 else prev.index)
  }

  /** Every valid trial of a cursor that fits the cap is an acceptable region. */
  lemma FittingTrialsAccepted(s: Scan, c: seq<nat>, j: nat)
    requires s.Valid() && 1 <= j <= |c|
    ensures forall t :: t in CursorTrials(s, c, j) && FitsCap(s.maxFragment, t) ==> Accepted(s, RegionOf(t))
  {
    forall t | t in CursorTrials(s, c, j) && FitsCap(s.maxFragment, t) {
      ValidTrialIff(s, t.left, t.right);
    }
  }

  /** The region a pass emits is acceptable. */
  lemma DecisionAccepted(s: Scan, c: seq<nat>, j: nat)
    requires s.Valid() && 1 <= j < |c|
    ensures var st := Decide(CursorTrials(s, c, j), j, |c|, s.maxFragment);
      st.emitted != [] ==> Accepted(s, st.emitted[0])
  {
    FittingTrialsAccepted(s, c, j);
  }

  /** One pass of the loop with the cursor at candidate `j` (1-based): at the
      last candidate it stops without emitting, otherwise it makes the decision
      `Decide` describes on the cursor's valid trials. */
  function StepAt(s: Scan, c: seq<nat>, j: nat): (st: Step)
    requires s.Valid() && 1 <= j <= |c|
    ensures j == |c| ==> st == Stop([])
    ensures st.Advance? ==> j < st.cursor <= |c|
    ensures |st.emitted| <= 1
    ensures st.emitted != [] ==> j < |c| && Accepted(s, st.emitted[0])
  {
    if j == |c| then Stop([])
    else
      DecisionAccepted(s, c, j);
      Decide(CursorTrials(s, c, j), j, |c|, s.maxFragment)
  }

  /** The loop from cursor `j` on: the regions it emits, in order. Every step
      that does not stop moves the cursor strictly forward, so at most
      `|c| - j` regions come out. */
  function MergeFrom(s: Scan, c: seq<nat>, j: nat): (regions: seq<Region>)
    requires s.Valid() && 1 <= j <= |c|
    ensures |regions| <= |c| - j
    decreases |c| - j
  {
    var st := StepAt(s, c, j);
    if st.Stop? then st.emitted else st.emitted + MergeFrom(s, c, st.cursor)
  }

  /** Every region the loop emits from cursor `j` on is acceptable. */
  lemma {:induction false} MergeFromAccepted(s: Scan, c: seq<nat>, j: nat)
    requires s.Valid() && 1 <= j <= |c|
    ensures forall k :: 0 <= k < |MergeFrom(s, c, j)| ==> Accepted(s, MergeFrom(s, c, j)[k])
    decreases |c| - j
  {
    var st := StepAt(s, c, j);
    if st.Advance? {
      MergeFromAccepted(s, c, st.cursor);
      AcceptedAppend(s, st.emitted, MergeFrom(s, c, st.cursor));
    }
  }

  /** Joining two lists of acceptable regions gives a list of acceptable regions. */
  lemma AcceptedAppend(s: Scan, a: seq<Region>, b: seq<Region>)
    requires s.Valid() && |a| <= 1
    requires a != [] ==> Accepted(s, a[0])
    requires forall k :: 0 <= k < |b| ==> Accepted(s, b[k])
    ensures forall k :: 0 <= k < |a + b| ==> Accepted(s, (a + b)[k])
  {
    forall k | 0 <= k < |a + b| ensures Accepted(s, (a + b)[k]) {
      if k < |a| {
        assert (a + b)[k] == a[0];
      } else {
        assert (a + b)[k] == b[k - |a|];
      }
    }
  }

  /** The number of passes the loop makes from cursor `j`. */
  function Passes(s: Scan, c: seq<nat>, j: nat): (n: nat)
    requires s.Valid() && 1 <= j <= |c|
    ensures 1 <= n <= |c| - j + 1
    decreases |c| - j
  {
    match StepAt(s, c, j)
    case Stop(_) => 1
    case Advance(_, next) => 1 + Passes(s, c, next)
  }

  /** The regions of one lineage with a nonempty candidate list, cursor starting at 1.
      A lineage with a single candidate gets no region. */
  function Merge(s: Scan, c: seq<nat>): (regions: seq<Region>)
    requires s.Valid() && |c| > 0
    ensures |c| == 1 ==> regions == []
    ensures |regions| < |c|
    ensures forall k :: 0 <= k < |regions| ==> Accepted(s, regions[k])
    ensures forall k :: 0 <= k < |regions| ==> regions[k].left < regions[k].right <= s.length
  {
    MergeFromAccepted(s, c, 1);
    MergeFrom(s, c, 1)
  }

  // ---------------------------------------------------------------------------
  // A reference re-expression of the per-pass decision for sorted candidates:
  // emit the valid trial reaching furthest while fitting the cap; stop when it
  // is the furthest valid trial of all, otherwise resume from its candidate.

  /** Trial bounds grow with the candidate they reach. */
  lemma TrialRightMonotone(length: nat, step: nat, a: nat, b: nat)
    requires a <= b
    ensures TrialRight(length, step, a) <= TrialRight(length, step, b)
  {
  }

  /** Spans never decrease along `ts`. */
  predicate SpansGrow(ts: seq<Trial>) {
    forall a, b :: 0 <= a < b < |ts| ==> TrialSpan(ts[a]) <= TrialSpan(ts[b])
  }

  /** With sorted candidates the valid trials of a cursor have nondecreasing spans. */
  lemma SpansSorted(s: Scan, c: seq<nat>, j: nat)
    requires s.Valid() && 1 <= j <= |c| && Seqs.Sorted(c)
    ensures SpansGrow(CursorTrials(s, c, j))
  {
    var ends := Ends(s.length, s.step, c);
    forall a, b | 0 <= a < b < |ends| ensures ends[a] <= ends[b] {
      TrialRightMonotone(s.length, s.step, c[a], c[b]);
    }
    TrialSpansGrow(ends, TrialLeft(s.step, c[j - 1]), j - 1,
                   (t: Trial) => t.right <= s.length && ValidTrial(s, t.left, t.right));
  }

  /** Trials sharing a left end over nondecreasing right ends have nondecreasing spans. */
  lemma TrialSpansGrow(ends: seq<nat>, left: nat, i: nat, ok: Trial -> bool)
    requires i <= |ends| && Seqs.Sorted(ends)
    ensures SpansGrow(TrialsFrom(ends, left, i, ok))
  {
    var ts := TrialsFrom(ends, left, i, ok);
    forall a, b | 0 <= a < b < |ts| ensures TrialSpan(ts[a]) <= TrialSpan(ts[b]) {
      var x, y := ts[a].index - 1, ts[b].index - 1;
      assert x < y < |ends|;
      assert ends[x] <= ends[y];
    }
  }

  /** The trials that fit the cap, in order. */
  function Fitting(ts: seq<Trial>, cap: int): seq<Trial> {
    Seqs.Filter(ts, t => FitsCap(cap, t))
  }

  /** The reference decision: emit the last trial that fits the cap, if any;
      stop if it is the last trial, otherwise resume from its candidate (at
      least one past the cursor). */
  function ReferenceDecide(ts: seq<Trial>, j: nat, count: nat, cap: int): (st: Step)
    requires j < count && CursorShaped(ts, j, count)
    ensures st.Advance? ==> j < st.cursor <= count
  {
    var fit := Fitting(ts, cap);
    if fit == [] then Advance([], j + 1)
    else
      var best := fit[|fit| - 1];
      assert best in fit;
      if best == ts[|ts| - 1] then Stop([RegionOf(best)])
      else Advance([RegionOf(best)], if best.index > j + 1 then best.index else j + 1)
  }

  function ReferenceStep(s: Scan, c: seq<nat>, j: nat): (st: Step)
    requires s.Valid() && 1 <= j <= |c|
    ensures st.Advance? ==> j < st.cursor <= |c|
  {
    if j == |c| then Stop([])
    else ReferenceDecide(CursorTrials(s, c, j), j, |c|, s.maxFragment)
  }

  function ReferenceMergeFrom(s: Scan, c: seq<nat>, j: nat): seq<Region>
    requires s.Valid() && 1 <= j <= |c|
    decreases |c| - j
  {
    match ReferenceStep(s, c, j)
    case Stop(e) => e
    case Advance(e, next) => e + ReferenceMergeFrom(s, c, next)
  }

  /** When spans never decrease, the trials before the first one over the cap
      are exactly the ones that fit. */
  lemma FittingIsPrefix(ts: seq<Trial>, cap: int, n: nat)
    requires SpansGrow(ts) && n <= |ts|
    requires forall m :: 0 <= m < n ==> TrialSpan(ts[m]) <= cap
    requires n < |ts| ==> TrialSpan(ts[n]) > cap
    ensures Fitting(ts, cap) == ts[..n]
  {
    Seqs.FilterPrefix(ts, n, (t: Trial) => FitsCap(cap, t));
  }

  /** When spans never decrease, the script's decision is the reference decision. */
  lemma DecideIsReference(ts: seq<Trial>, j: nat, count: nat, cap: int)
    requires j < count && CursorShaped(ts, j, count) && SpansGrow(ts)
    ensures Decide(ts, j, count, cap) == ReferenceDecide(ts, j, count, cap)
  {
    if |ts| > 0 {
      if TrialSpan(ts[0]) > cap {
        FirstOverCapIsReference(ts, j, count, cap);
      } else if TrialSpan(ts[|ts| - 1]) <= cap {
        LastFitsIsReference(ts, j, count, cap);
      } else {
        InnerFitIsReference(ts, j, count, cap);
      }
    }
  }

  /** When even the first trial exceeds the cap, both decisions move one candidate on. */
  lemma FirstOverCapIsReference(ts: seq<Trial>, j: nat, count: nat, cap: int)
    requires j < count && CursorShaped(ts, j, count) && SpansGrow(ts)
    requires |ts| > 0 && TrialSpan(ts[0]) > cap
    ensures Decide(ts, j, count, cap) == Advance([], j + 1)
    ensures ReferenceDecide(ts, j, count, cap) == Advance([], j + 1)
  {
    FittingIsPrefix(ts, cap, 0);
  }

  /** When the furthest trial fits the cap, both decisions emit it and stop. */
  lemma LastFitsIsReference(ts: seq<Trial>, j: nat, count: nat, cap: int)
    requires j < count && CursorShaped(ts, j, count) && SpansGrow(ts)
    requires |ts| > 0 && TrialSpan(ts[0]) <= cap && TrialSpan(ts[|ts| - 1]) <= cap
    ensures Decide(ts, j, count, cap) == Stop([RegionOf(ts[|ts| - 1])])
    ensures ReferenceDecide(ts, j, count, cap) == Stop([RegionOf(ts[|ts| - 1])])
  {
    FittingIsPrefix(ts, cap, |ts|);
    assert ts[..|ts|] == ts;
  }

  /** When the cap falls between the first and the furthest trial, both
      decisions emit the trial just before the first one over the cap. */
  lemma InnerFitIsReference(ts: seq<Trial>, j: nat, count: nat, cap: int)
    requires j < count && CursorShaped(ts, j, count) && SpansGrow(ts)
    requires |ts| > 0 && TrialSpan(ts[0]) <= cap && TrialSpan(ts[|ts| - 1]) > cap
    ensures var n := FirstOverCap(ts, cap, 0); var prev := ts[n - 1];
      && Decide(ts, j, count, cap) == Advance([RegionOf(prev)], if prev.index == j then j + 1 else prev.index)
      && ReferenceDecide(ts, j, count, cap) == Decide(ts, j, count, cap)
  {
    var n := FirstOverCap(ts, cap, 0);
    FittingIsPrefix(ts, cap, n);
    assert Fitting(ts, cap)[n - 1] == ts[n - 1];
    assert TrialSpan(ts[n - 1]) != TrialSpan(ts[|ts| - 1]);
  }

  /** With sorted candidates, each pass of the script's loop is the reference step. */
  lemma StepIsReference(s: Scan, c: seq<nat>, j: nat)
    requires s.Valid() && 1 <= j <= |c| && Seqs.Sorted(c)
    ensures StepAt(s, c, j) == ReferenceStep(s, c, j)
  {
    if j < |c| {
      SpansSorted(s, c, j);
      DecideIsReference(CursorTrials(s, c, j), j, |c|, s.maxFragment);
    }
  }

  /** With sorted candidates the script's loop emits exactly what the reference scan emits. */
  lemma {:induction false} MergeIsReference(s: Scan, c: seq<nat>, j: nat)
    requires s.Valid() && 1 <= j <= |c| && Seqs.Sorted(c)
    ensures MergeFrom(s, c, j) == ReferenceMergeFrom(s, c, j)
    decreases |c| - j
  {
    StepIsReference(s, c, j);
    match StepAt(s, c, j)
    case Stop(_) =>
    case Advance(_, next) => MergeIsReference(s, c, next);
  }

  /** With sorted candidates, once the furthest valid trial of a cursor fits the
      cap, it is the one region emitted and the lineage's scan ends there. */
  lemma FurthestFitEndsScan(s: Scan, c: seq<nat>, j: nat)
    requires s.Valid() && 1 <= j < |c| && Seqs.Sorted(c)
    requires |CursorTrials(s, c, j)| > 0
    requires TrialSpan(CursorTrials(s, c, j)[|CursorTrials(s, c, j)| - 1]) <= s.maxFragment
    ensures MergeFrom(s, c, j) == [RegionOf(CursorTrials(s, c, j)[|CursorTrials(s, c, j)| - 1])]
  {
    var ts := CursorTrials(s, c, j);
    var last := ts[|ts| - 1];
    assert StepAt(s, c, j) == Stop([RegionOf(last)]) by {
      SpansSorted(s, c, j);
      assert TrialSpan(ts[0]) <= TrialSpan(last);
      assert Decide(ts, j, |c|, s.maxFragment) == Stop([RegionOf(last)]);
    }
  }

  /** Because the share test counts one row more than it sums, a lineage whose
      WIC never exceeds `maxMic` cannot reach a threshold `cp >= 1`: no region
      is ever emitted, however well it matches. */
  lemma NoRegionAtFullThreshold(s: Scan, c: seq<nat>)
    requires s.Valid() && |c| > 0 && s.cp >= 1.0
    requires forall k :: 0 <= k < s.length ==> 0.0 <= s.wic[s.lineage][k] <= s.maxMic
    ensures Merge(s, c) == []
  {
    forall left: nat, right: nat ensures !Dominates(s, left, right) {
      NothingDominatesAtFullThreshold(s, left, right);
    }
    NoDominanceNoRegion(s, c, 1);
  }

  /** When no range of rows dominates, the loop emits nothing from any cursor. */
  lemma {:induction false} NoDominanceNoRegion(s: Scan, c: seq<nat>, j: nat)
    requires s.Valid() && 1 <= j <= |c|
    requires forall left: nat, right: nat :: !Dominates(s, left, right)
    ensures MergeFrom(s, c, j) == []
    decreases |c| - j
  {
    match StepAt(s, c, j)
    case Stop(_) =>
    case Advance(_, next) => NoDominanceNoRegion(s, c, next);
  }

  /** With WIC bounded by `maxMic` and `cp >= 1`, no range of rows dominates. */
  lemma NothingDominatesAtFullThreshold(s: Scan, left: nat, right: nat)
    requires s.Valid() && s.cp >= 1.0
    requires forall k :: 0 <= k < s.length ==> 0.0 <= s.wic[s.lineage][k] <= s.maxMic
    ensures !Dominates(s, left, right)
  {
    if left < right <= s.length {
      ShareBelowOne(s, left, right);
      var q := OwnSum(s, left, right) / (Span(left, right) as real * s.maxMic);
      assert q < 1.0 <= s.cp;
      assert ReachesShare(OwnSum(s, left, right), left, right, s.maxMic, s.cp) == (q >= s.cp);
    }
  }

  /** Over `n` rows a bounded lineage sums to at most `n * maxMic`, which is less
      than the `(n + 1) * maxMic` the share test divides by. */
  lemma ShareBelowOne(s: Scan, left: nat, right: nat)
    requires s.Valid() && left < right <= s.length
    requires forall k :: 0 <= k < s.length ==> 0.0 <= s.wic[s.lineage][k] <= s.maxMic
    ensures OwnSum(s, left, right) / (Span(left, right) as real * s.maxMic) < 1.0
  {
    Seqs.RangeSumBounds(s.wic[s.lineage], left, right, s.maxMic);
    var n := (right - left) as real;
    var d := Span(left, right) as real * s.maxMic;
    var sum := OwnSum(s, left, right);
    assert Span(left, right) as real == n + 1.0;
    assert d == s.maxMic * n + s.maxMic;
    assert sum <= s.maxMic * n;
    assert 0.0 <= sum < 1.0 * d;
    Seqs.QuotientBounds(sum, d, 1.0);
  }
}
