/** The aligned sequence set and the two column filters applied before scoring:
    dropping gapped columns (gap symbols not analysed) and keeping only
    polymorphic columns (polymorphic-site mode). */
module Alignment {
  import opened Results
  import Seqs

  const Gap: char := '-'

  /** An aligned sequence set: one row of symbols per sequence identifier and
      one column per site label, rows and columns in file order. */
  datatype Matrix = Matrix(ids: seq<string>, sites: seq<int>, rows: seq<seq<char>>)
  {
    predicate WellFormed() {
      && |ids| == |rows|
      && forall r :: 0 <= r < |rows| ==> |rows[r]| == |sites|
    }
  }

  /** The symbols of every row at column `j`, top to bottom. */
  function Column(m: Matrix, j: nat): seq<char>
    requires m.WellFormed() && j < |m.sites|
  {
    seq(|m.rows|, r requires 0 <= r < |m.rows| => m.rows[r][j])
  }

  /** A column with no gap symbol in any row. */
  predicate GapFree(col: seq<char>) {
    Gap !in col
  }

  /** A column where some row differs from the first row. */
  predicate Varies(col: seq<char>) {
    exists r :: 0 <= r < |col| && col[r] != col[0]
  }

  /** Positions, in increasing order, of exactly the columns whose symbols satisfy `keep`. */
  function ColumnsWhere(m: Matrix, keep: seq<char> -> bool): (idx: seq<nat>)
    requires m.WellFormed()
    ensures Seqs.Increasing(idx)
    ensures forall j: nat :: j in idx <==> j < |m.sites| && keep(Column(m, j))
  {
    Seqs.IndicesWhere(|m.sites|, (j: nat) => j < |m.sites| && keep(Column(m, j)))
  }

  /** The sub-matrix made of the columns at positions `idx`, in that order,
      with their site labels; identifiers and rows stay as they were. */
  function Project(m: Matrix, idx: seq<nat>): (r: Matrix)
    requires m.WellFormed()
    requires forall k :: 0 <= k < |idx| ==> idx[k] < |m.sites|
    ensures r.WellFormed()
    ensures r.ids == m.ids && |r.sites| == |idx|
    ensures forall k :: 0 <= k < |idx| ==> r.sites[k] == m.sites[idx[k]] && Column(r, k) == Column(m, idx[k])
  {
    var r := Matrix(m.ids,
                    seq(|idx|, k requires 0 <= k < |idx| => m.sites[idx[k]]),
                    seq(|m.rows|, i requires 0 <= i < |m.rows| =>
                          seq(|idx|, k requires 0 <= k < |idx| => m.rows[i][idx[k]])));
    assert forall k :: 0 <= k < |idx| ==> Column(r, k) == Column(m, idx[k]);
    r
  }

  /** Gap symbols not analysed: every column holding a gap in some row is dropped.
      The survivors are exactly the gap-free columns, in their original order. */
  function DropGapColumns(m: Matrix): (r: Matrix)
    requires m.WellFormed()
    ensures r.WellFormed() && r.ids == m.ids
    ensures forall k :: 0 <= k < |r.sites| ==> GapFree(Column(r, k))
    ensures var keep := ColumnsWhere(m, GapFree);
      && |r.sites| == |keep|
      && forall k :: 0 <= k < |keep| ==> r.sites[k] == m.sites[keep[k]] && Column(r, k) == Column(m, keep[k])
  {
    Project(m, ColumnsWhere(m, GapFree))
  }

  /** Polymorphic-site mode: only the columns where some row differs from the
      first row survive, in their original order. Without a first row the
      comparison has nothing to compare against and fails. */
  function KeepPolymorphic(m: Matrix): (r: Result<Matrix>)
    requires m.WellFormed()
    ensures r.Err? <==> |m.rows| == 0
    ensures r.Err? ==> r.error == NoRows
    ensures r.Ok? ==> r.value.WellFormed() && r.value.ids == m.ids
    ensures r.Ok? ==> forall k :: 0 <= k < |r.value.sites| ==> Varies(Column(r.value, k))
    ensures r.Ok? ==> var keep := ColumnsWhere(m, Varies);
      && |r.value.sites| == |keep|
      && forall k :: 0 <= k < |keep| ==> r.value.sites[k] == m.sites[keep[k]] && Column(r.value, k) == Column(m, keep[k])
  {
    if |m.rows| == 0 then Err(NoRows) else Ok(Project(m, ColumnsWhere(m, Varies)))
  }

  /** The columns the cleaning stage keeps: gap-free ones when gaps are
      dropped, polymorphic ones in polymorphic-site mode, every one otherwise. */
  function Filters(dropGaps: bool, polymorphicOnly: bool): seq<char> -> bool {
    col => (!dropGaps || GapFree(col)) && (!polymorphicOnly || Varies(col))
  }

  /** Two column tests that agree on every column select the same positions. */
  lemma SameColumns(m: Matrix, p: seq<char> -> bool, q: seq<char> -> bool)
    requires m.WellFormed()
    requires forall col :: p(col) == q(col)
    ensures ColumnsWhere(m, p) == ColumnsWhere(m, q)
  {
    Seqs.IncreasingUnique(ColumnsWhere(m, p), ColumnsWhere(m, q));
  }

  /** A test every column passes selects every position. */
  lemma AllColumns(m: Matrix, p: seq<char> -> bool)
    requires m.WellFormed()
    requires forall col :: p(col)
    ensures var idx := ColumnsWhere(m, p);
      |idx| == |m.sites| && forall k :: 0 <= k < |idx| ==> idx[k] == k
  {
    var all: seq<nat> := seq(|m.sites|, k requires 0 <= k < |m.sites| => k);
    assert forall j: nat :: j in all <==> j < |m.sites| by {
      forall j: nat | j < |m.sites| ensures j in all {
        assert all[j] == j;
      }
    }
    Seqs.IncreasingUnique(ColumnsWhere(m, p), all);
  }

  /** A position of `x` in `xs`. */
  lemma PositionOf(xs: seq<nat>, x: nat) returns (i: nat)
    requires x in xs
    ensures i < |xs| && xs[i] == x
  {
    i :| 0 <= i < |xs| && xs[i] == x;
  }

  /** The positions kept by filtering by `p` and then by `q`, in terms of the first matrix. */
  function Composed(k1: seq<nat>, k2: seq<nat>): (idx: seq<nat>)
    requires forall k :: 0 <= k < |k2| ==> k2[k] < |k1|
    ensures |idx| == |k2|
    ensures Seqs.Increasing(k1) && Seqs.Increasing(k2) ==> Seqs.Increasing(idx)
  {
    seq(|k2|, k requires 0 <= k < |k2| => k1[k2[k]])
  }

  /** Every position kept by the two filters passes both tests. */
  lemma ComposedPasses(m: Matrix, p: seq<char> -> bool, q: seq<char> -> bool, j: nat)
    requires m.WellFormed()
    requires var k1 := ColumnsWhere(m, p);
      j in Composed(k1, ColumnsWhere(Project(m, k1), q))
    ensures j < |m.sites| && p(Column(m, j)) && q(Column(m, j))
  {
    var k1 := ColumnsWhere(m, p);
    var g := Project(m, k1);
    var k2 := ColumnsWhere(g, q);
    var k := PositionOf(Composed(k1, k2), j);
    var i := k2[k];
    assert i in k2;
    assert q(Column(g, i));
    assert Column(g, i) == Column(m, k1[i]);
    assert k1[i] in k1;
  }

  /** Every position passing both tests is kept by the two filters. */
  lemma PassesComposed(m: Matrix, p: seq<char> -> bool, q: seq<char> -> bool, j: nat)
    requires m.WellFormed()
    requires j < |m.sites| && p(Column(m, j)) && q(Column(m, j))
    ensures var k1 := ColumnsWhere(m, p);
      j in Composed(k1, ColumnsWhere(Project(m, k1), q))
  {
    var k1 := ColumnsWhere(m, p);
    var g := Project(m, k1);
    var k2 := ColumnsWhere(g, q);
    var i := PositionOf(k1, j);
    assert Column(g, i) == Column(m, j);
    var k := PositionOf(k2, i);
    assert Composed(k1, k2)[k] == j;
  }

  /** Filtering by `p` and then filtering the survivors by `q` keeps exactly the
      columns passing both, in their original order. */
  lemma ComposeColumns(m: Matrix, p: seq<char> -> bool, q: seq<char> -> bool, pq: seq<char> -> bool)
    requires m.WellFormed()
    requires forall col :: pq(col) == (p(col) && q(col))
    ensures var k1 := ColumnsWhere(m, p);
      var k2 := ColumnsWhere(Project(m, k1), q);
      var both := ColumnsWhere(m, pq);
      && |k2| == |both|
      && forall k :: 0 <= k < |k2| ==> k2[k] < |k1| && both[k] == k1[k2[k]]
  {
    var k1 := ColumnsWhere(m, p);
    var k2 := ColumnsWhere(Project(m, k1), q);
    var both := ColumnsWhere(m, pq);
    var idx := Composed(k1, k2);
    forall j: nat ensures j in idx <==> j in both {
      if j in idx { ComposedPasses(m, p, q, j); }
      if j in both { PassesComposed(m, p, q, j); }
    }
    Seqs.IncreasingUnique(idx, both);
  }

  /** The cleaning stage: first the gap filter (when gaps are not analysed),
      then the polymorphic filter (in polymorphic-site mode) on what is left. */
  function Prepare(m: Matrix, dropGaps: bool, polymorphicOnly: bool): (r: Result<Matrix>)
    requires m.WellFormed()
    ensures r.Err? <==> polymorphicOnly && |m.rows| == 0
    ensures r.Ok? ==> r.value.WellFormed() && r.value.ids == m.ids && |r.value.rows| == |m.rows|
    ensures r.Ok? && dropGaps ==> forall k :: 0 <= k < |r.value.sites| ==> GapFree(Column(r.value, k))
    ensures r.Ok? && polymorphicOnly ==> forall k :: 0 <= k < |r.value.sites| ==> Varies(Column(r.value, k))
    ensures r.Ok? ==> forall k :: 0 <= k < |r.value.sites| ==> r.value.sites[k] in m.sites
    ensures !dropGaps && !polymorphicOnly ==> r == Ok(m)
    ensures r.Ok? ==> var keep := ColumnsWhere(m, Filters(dropGaps, polymorphicOnly));
      && |r.value.sites| == |keep|
      && forall k :: 0 <= k < |keep| ==> r.value.sites[k] == m.sites[keep[k]] && Column(r.value, k) == Column(m, keep[k])
  {
    var f := Filters(dropGaps, polymorphicOnly);
    if dropGaps && polymorphicOnly then
      ComposeColumns(m, GapFree, Varies, f);
      KeepPolymorphic(DropGapColumns(m))
    else if dropGaps then
      SameColumns(m, GapFree, f);
      Ok(DropGapColumns(m))
    else if polymorphicOnly then
      SameColumns(m, Varies, f);
      KeepPolymorphic(m)
    else
      AllColumns(m, f);
      Ok(m)
  }
}
