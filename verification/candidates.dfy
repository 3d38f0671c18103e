/** Candidate selection: the windows where one lineage's mean WIC is the largest
    of all lineages and reaches the share `cp` of the maximal information content.
    Candidates are recorded as window center ROWS, not as site labels. */
module Candidates {
  import Seqs
  import Windows

  /** The means of every lineage at window `n`. */
  function AtWindow(means: seq<seq<real>>, n: nat): (column: seq<real>)
    requires forall l :: 0 <= l < |means| ==> n < |means[l]|
    ensures |column| == |means|
  {
    seq(|means|, l requires 0 <= l < |means| => means[l][n])
  }

  /** Lineage `l` dominates window `n`: its mean equals the largest mean there
      and, as a share of `maxMic`, reaches `cp`. */
  predicate Dominant(means: seq<seq<real>>, l: nat, n: nat, maxMic: real, cp: real)
    requires l < |means| && maxMic > 0.0
    requires forall k :: 0 <= k < |means| ==> n < |means[k]|
    ensures Dominant(means, l, n, maxMic, cp) ==> forall k :: 0 <= k < |means| ==> means[k][n] <= means[l][n]
  {
    assert forall k :: 0 <= k < |means| ==> AtWindow(means, n)[k] == means[k][n];
    && means[l][n] == Seqs.MaxOf(AtWindow(means, n))
    && means[l][n] / maxMic >= cp
  }

  /** A lineage dominates a window exactly when no lineage has a larger mean
      there and its share reaches `cp`; ties let several lineages dominate. */
  lemma DominantIff(means: seq<seq<real>>, l: nat, n: nat, maxMic: real, cp: real)
    requires l < |means| && maxMic > 0.0
    requires forall k :: 0 <= k < |means| ==> n < |means[k]|
    ensures Dominant(means, l, n, maxMic, cp) <==>
      (forall k :: 0 <= k < |means| ==> means[k][n] <= means[l][n]) && means[l][n] / maxMic >= cp
  {
    var column := AtWindow(means, n);
    assert forall k :: 0 <= k < |means| ==> column[k] == means[k][n];
    if forall k :: 0 <= k < |means| ==> means[k][n] <= means[l][n] {
      var i :| 0 <= i < |column| && column[i] == Seqs.MaxOf(column);
      assert column[i] <= means[l][n];
    }
  }

  /** Windows, in scan order, that lineage `l` dominates. */
  function DominantWindows(means: seq<seq<real>>, l: nat, count: nat, maxMic: real, cp: real): (idx: seq<nat>)
    requires l < |means| && maxMic > 0.0
    requires Seqs.Rectangular(means, count)
    ensures Seqs.Increasing(idx)
    ensures forall n: nat :: n in idx <==> n < count && Dominant(means, l, n, maxMic, cp)
  {
    Seqs.IndicesWhere(count, (n: nat) => n < count && Dominant(means, l, n, maxMic, cp))
  }

  /** Candidate center rows of lineage `l`: the label row of every window it
      dominates, in scan order. They never decrease and are rows of the table. */
  function Candidates(means: seq<seq<real>>, l: nat, length: nat, width: nat, step: nat, maxMic: real, cp: real): (c: seq<nat>)
    requires width > 0 && step > 0
    requires l < |means| && maxMic > 0.0
    requires Seqs.Rectangular(means, |Windows.Windows(length, width, step)|)
    ensures var ws := Windows.Windows(length, width, step);
      var idx := DominantWindows(means, l, |ws|, maxMic, cp);
      && |c| == |idx|
      && forall k :: 0 <= k < |c| ==> idx[k] < |ws| && c[k] == Windows.Center(ws[idx[k]])
    ensures Seqs.Sorted(c)
    ensures forall k :: 0 <= k < |c| ==> c[k] < length
  {
    var ws := Windows.Windows(length, width, step);
    var idx := DominantWindows(means, l, |ws|, maxMic, cp);
    assert forall k :: 0 <= k < |idx| ==> idx[k] in idx;
    Windows.CentersSorted(length, width, step);
    seq(|idx|, k requires 0 <= k < |idx| => Windows.Center(ws[idx[k]]))
  }

  /** Every lineage's candidate list, in lineage order. */
  function AllCandidates(means: seq<seq<real>>, length: nat, width: nat, step: nat, maxMic: real, cp: real): (cs: seq<seq<nat>>)
    requires width > 0 && step > 0 && maxMic > 0.0
    requires Seqs.Rectangular(means, |Windows.Windows(length, width, step)|)
    ensures |cs| == |means|
    ensures forall l :: 0 <= l < |cs| ==> cs[l] == Candidates(means, l, length, width, step, maxMic, cp)
  {
    seq(|means|, l requires 0 <= l < |means| => Candidates(means, l, length, width, step, maxMic, cp))
  }
}
