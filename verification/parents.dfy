/** Parent assignment after the merge: lineages without regions are dropped,
    the major parent is the first lineage of largest coverage, and every other
    lineage with regions is reported region by region against it. */
module Parents {
  import opened Results
  import Seqs
  import Merge

  /** Rows covered by a lineage's regions: the sum of `right - left`. */
  function Coverage(regions: seq<Merge.Region>): (c: int)
    ensures |regions| == 1 ==> c == regions[0].right - regions[0].left
  {
    if regions == [] then 0
    else (regions[0].right - regions[0].left) + Coverage(regions[1..])
  }

  /** Coverage adds up over concatenated region lists. */
  lemma {:induction false} CoverageAppend(a: seq<Merge.Region>, b: seq<Merge.Region>)
    ensures Coverage(a + b) == Coverage(a) + Coverage(b)
  {
    if a != [] {
      assert (a + b)[1..] == a[1..] + b;
      CoverageAppend(a[1..], b);
    } else {
      assert a + b == b;
    }
  }

  /** Nonempty regions cover at least one row each. */
  lemma {:induction false} CoverageAtLeastCount(regions: seq<Merge.Region>)
    requires forall k :: 0 <= k < |regions| ==> regions[k].left < regions[k].right
    ensures Coverage(regions) >= |regions|
  {
    if regions != [] {
      CoverageAtLeastCount(regions[1..]);
    }
  }

  /** A lineage kept for parent assignment: its position in the lineage list and its regions. */
  datatype Entry = Entry(lineage: nat, regions: seq<Merge.Region>)

  /** Lineage positions strictly increase along the entries. */
  predicate InLineageOrder(es: seq<Entry>) {
    forall a, b :: 0 <= a < b < |es| ==> es[a].lineage < es[b].lineage
  }

  /** The lineages with at least one region, in lineage order, each with its regions. */
  function WithRegions(all: seq<seq<Merge.Region>>): (es: seq<Entry>)
    ensures InLineageOrder(es)
    ensures forall k :: 0 <= k < |es| ==>
      es[k].lineage < |all| && es[k].regions == all[es[k].lineage] && es[k].regions != []
    ensures forall l :: 0 <= l < |all| ==> (Entry(l, all[l]) in es <==> all[l] != [])
  {
    var idx := Seqs.IndicesWhere(|all|, (l: nat) => l < |all| && all[l] != []);
    assert forall k :: 0 <= k < |idx| ==> idx[k] in idx;
    var es := seq(|idx|, k requires 0 <= k < |idx| => Entry(idx[k], all[idx[k]]));
    assert forall l :: 0 <= l < |all| && all[l] != [] ==> Entry(l, all[l]) in es by {
      forall l | 0 <= l < |all| && all[l] != [] ensures Entry(l, all[l]) in es {
        assert l in idx;
        var k :| 0 <= k < |idx| && idx[k] == l;
        assert es[k] == Entry(l, all[l]);
      }
    }
    es
  }

  /** Entry `i` has the largest coverage, and every entry before it a strictly smaller one. */
  predicate FirstMaximal(es: seq<Entry>, i: nat)
    requires i < |es|
  {
    && (forall k :: 0 <= k < |es| ==> Coverage(es[k].regions) <= Coverage(es[i].regions))
    && (forall k :: 0 <= k < i ==> Coverage(es[k].regions) < Coverage(es[i].regions))
  }

  /** The major parent: the maximum over the kept lineages keyed by coverage,
      which is the first of the largest. With no kept lineage there is nothing
      to take the maximum of, and the scan fails. */
  function MajorParent(es: seq<Entry>): (r: Result<nat>)
    ensures r.Err? <==> es == []
    ensures r.Err? ==> r.error == NoRegions
    ensures r.Ok? ==> exists i :: 0 <= i < |es| && es[i].lineage == r.value && FirstMaximal(es, i)
  {
    if es == [] then Err(NoRegions)
    else
      var covs := seq(|es|, k requires 0 <= k < |es| => Coverage(es[k].regions));
      var i := Seqs.FirstArgMax(covs);
      assert forall k :: 0 <= k < |es| ==> covs[k] == Coverage(es[k].regions);
      assert FirstMaximal(es, i);
      Ok(es[i].lineage)
  }

  /** The other parents: every kept lineage except the major parent, in order. */
  function Others(es: seq<Entry>, major: nat): (os: seq<Entry>)
    ensures forall e :: e in os <==> e in es && e.lineage != major
  {
    Seqs.Filter(es, (e: Entry) => e.lineage != major)
  }

  /** With distinct lineages, removing the major parent removes exactly its own
      entry: the others are the entries before it followed by those after it. */
  lemma OthersRemoveOnlyMajor(es: seq<Entry>, i: nat)
    requires i < |es| && InLineageOrder(es)
    ensures Others(es, es[i].lineage) == es[..i] + es[i + 1..]
  {
    var m := es[i].lineage;
    Seqs.FilterRemovesOne(es, i, (e: Entry) => e.lineage != m);
  }

  /** The outcome of the rank-sum comparison of one region, a computation this
      model does not include: a p-value, or a failure of the test. */
  datatype Test = Tested(p: real) | Failed

  /** What the report says about one region: the site labels of its ends, its
      mean WIC (left out when the test failed) and the p-value shown, which is
      1 when the test failed. */
  datatype RegionReport = RegionReport(leftSite: int, rightSite: int, mwic: Option<real>, p: real)

  /** Region mean as reported: the sum over `[left, right)` divided by the
      `right - left + 1` rows the merge counts. */
  function RegionMean(xs: seq<real>, r: Merge.Region): (mean: real)
    requires r.left < r.right <= |xs|
    ensures r.right == r.left + 1 ==> mean * 2.0 == xs[r.left]
  {
    assert r.right == r.left + 1 ==> Seqs.RangeSum(xs, r.left, r.right) == xs[r.left];
    Seqs.RangeSum(xs, r.left, r.right) / Merge.Span(r.left, r.right) as real
  }

  /** A region of `n` rows holding one score `v` throughout reports the mean
      `v * n / (n + 1)`, not `v`: the extra counted row dilutes it. */
  lemma RegionMeanOfConstant(xs: seq<real>, r: Merge.Region)
    requires r.left < r.right <= |xs|
    requires forall k :: r.left <= k < r.right ==> xs[k] == xs[r.left]
    ensures RegionMean(xs, r) * Merge.Span(r.left, r.right) as real == xs[r.left] * (r.right - r.left) as real
  {
    Seqs.RangeSumConstant(xs, r.left, r.right, xs[r.left]);
    var d := Merge.Span(r.left, r.right) as real;
    var sum := Seqs.RangeSum(xs, r.left, r.right);
    assert RegionMean(xs, r) == sum / d;
    assert (sum / d) * d == sum;
  }

  /** Because one more row is counted than summed, a region's reported mean
      stays strictly below the largest per-site score. */
  lemma RegionMeanBelowBound(xs: seq<real>, r: Merge.Region, bound: real)
    requires r.left < r.right <= |xs| && bound > 0.0
    requires forall k :: 0 <= k < |xs| ==> 0.0 <= xs[k] <= bound
    ensures 0.0 <= RegionMean(xs, r) < bound
  {
    Seqs.RangeSumBounds(xs, r.left, r.right, bound);
    var n := (r.right - r.left) as real;
    var sum := Seqs.RangeSum(xs, r.left, r.right);
    var d := Merge.Span(r.left, r.right) as real;
    assert d == n + 1.0;
    assert bound * d == bound * n + bound;
    assert sum < bound * d;
    assert RegionMean(xs, r) == sum / d;
    Seqs.QuotientBounds(sum, d, bound);
  }

  /** One region of an other parent, compared against the major parent over the
      same rows. The right end's label is that of row `right`, or of the last
      row when the region reaches the end of the table. */
  function Report(sites: seq<int>, wic: seq<seq<real>>, lineage: nat, major: nat, r: Merge.Region,
                  test: (seq<real>, seq<real>) -> Test): (rep: RegionReport)
    requires Seqs.Rectangular(wic, |sites|) && lineage < |wic| && major < |wic|
    requires r.left < r.right <= |sites|
    ensures rep.leftSite == sites[r.left]
    ensures r.right < |sites| ==> rep.rightSite == sites[r.right]
    ensures r.right == |sites| ==> rep.rightSite == sites[|sites| - 1]
    ensures var t := test(wic[lineage][r.left..r.right], wic[major][r.left..r.right]);
      && (rep.mwic.Some? <==> t.Tested?)
      && (rep.mwic.Some? ==> rep.mwic.value == RegionMean(wic[lineage], r) && rep.p == t.p)
      && (t.Failed? ==> rep.p == 1.0)
  {
    var right := if r.right < |sites| - 1 then r.right else |sites| - 1;
    match test(wic[lineage][r.left..r.right], wic[major][r.left..r.right])
    case Tested(p) => RegionReport(sites[r.left], sites[right], Some(RegionMean(wic[lineage], r)), p)
    case Failed => RegionReport(sites[r.left], sites[right], None, 1.0)
  }

  /** Significance level of the report. */
  const Alpha: real := 0.05

  /** Some test of a region succeeded with a p-value below the significance level. */
  predicate AnySignificant(tests: seq<seq<Test>>) {
    exists l, k :: 0 <= l < |tests| && 0 <= k < |tests[l]| && tests[l][k].Tested? && tests[l][k].p < Alpha
  }

  /** Every region of every entry lies inside a table of `length` rows with `count` lineages. */
  predicate EntriesBounded(es: seq<Entry>, count: nat, length: nat) {
    forall k :: 0 <= k < |es| ==>
      && es[k].lineage < count
      && forall j :: 0 <= j < |es[k].regions| ==> es[k].regions[j].left < es[k].regions[j].right <= length
  }

  /** The rank-sum test outcome of every region of every other parent, in report order. */
  function Tests(wic: seq<seq<real>>, others: seq<Entry>, major: nat,
                 test: (seq<real>, seq<real>) -> Test): (ts: seq<seq<Test>>)
    requires |wic| > 0 && EntriesBounded(others, |wic|, |wic[0]|) && Seqs.Rectangular(wic, |wic[0]|) && major < |wic|
    ensures |ts| == |others|
    ensures forall k :: 0 <= k < |ts| ==> |ts[k]| == |others[k].regions|
  {
    seq(|others|, k requires 0 <= k < |others| =>
      seq(|others[k].regions|, j requires 0 <= j < |others[k].regions| =>
        var r := others[k].regions[j];
        test(wic[others[k].lineage][r.left..r.right], wic[major][r.left..r.right])))
  }

  /** The report lines of every other parent, one per region, in order. */
  function Reports(sites: seq<int>, wic: seq<seq<real>>, others: seq<Entry>, major: nat,
                   test: (seq<real>, seq<real>) -> Test): (reps: seq<seq<RegionReport>>)
    requires |wic| > 0 && Seqs.Rectangular(wic, |sites|) && major < |wic|
    requires EntriesBounded(others, |wic|, |sites|)
    ensures |reps| == |others|
    ensures forall k :: 0 <= k < |reps| ==> |reps[k]| == |others[k].regions|
    ensures forall k, j :: 0 <= k < |reps| && 0 <= j < |reps[k]| ==>
      reps[k][j] == Report(sites, wic, others[k].lineage, major, others[k].regions[j], test)
  {
    seq(|others|, k requires 0 <= k < |others| =>
      seq(|others[k].regions|, j requires 0 <= j < |others[k].regions| =>
        Report(sites, wic, others[k].lineage, major, others[k].regions[j], test)))
  }

  /** The report's significance flag is raised exactly when some region's shown
      p-value is below the significance level: a failed test shows 1, which never is. */
  lemma SignificantIffShownBelow(sites: seq<int>, wic: seq<seq<real>>, others: seq<Entry>, major: nat,
                                 test: (seq<real>, seq<real>) -> Test)
    requires |wic| > 0 && Seqs.Rectangular(wic, |sites|) && major < |wic|
    requires EntriesBounded(others, |wic|, |sites|)
    ensures var reps := Reports(sites, wic, others, major, test);
      AnySignificant(Tests(wic, others, major, test)) <==>
      exists k, j :: 0 <= k < |reps| && 0 <= j < |reps[k]| && reps[k][j].p < Alpha
  {
    var reps: seq<seq<RegionReport>> := Reports(sites, wic, others, major, test);
    var ts: seq<seq<Test>> := Tests(wic, others, major, test);
    assert forall k, j :: 0 <= k < |reps| && 0 <= j < |reps[k]| ==>
      (reps[k][j].p < Alpha <==> ts[k][j].Tested? && ts[k][j].p < Alpha);
  }

  /** Lineage `m` has the largest coverage, and every earlier lineage with
      regions a strictly smaller one. */
  predicate FirstLargest(all: seq<seq<Merge.Region>>, m: nat)
    requires m < |all|
  {
    && (forall l :: 0 <= l < |all| ==> Coverage(all[l]) <= Coverage(all[m]))
    && (forall l :: 0 <= l < m && all[l] != [] ==> Coverage(all[l]) < Coverage(all[m]))
  }

  /** Every region of every lineage is a nonempty range of rows. */
  predicate RegionsNonempty(all: seq<seq<Merge.Region>>) {
    forall l, k :: 0 <= l < |all| && 0 <= k < |all[l]| ==> all[l][k].left < all[l][k].right
  }

  /** The first maximal kept entry is the first lineage of largest coverage
      among all lineages: a dropped lineage covers nothing, a kept one something. */
  lemma MajorIsFirstLargest(all: seq<seq<Merge.Region>>, i: nat)
    requires RegionsNonempty(all)
    requires i < |WithRegions(all)| && FirstMaximal(WithRegions(all), i)
    ensures FirstLargest(all, WithRegions(all)[i].lineage)
  {
    var es := WithRegions(all);
    var m := es[i].lineage;
    CoverageAtLeastCount(all[m]);
    forall l | 0 <= l < |all| ensures Coverage(all[l]) <= Coverage(all[m]) {
      if all[l] != [] {
        assert Entry(l, all[l]) in es;
      }
    }
    forall l | 0 <= l < m && all[l] != [] ensures Coverage(all[l]) < Coverage(all[m]) {
      assert Entry(l, all[l]) in es;
      var k :| 0 <= k < |es| && es[k] == Entry(l, all[l]);
      assert k < i;
    }
  }

  /** The major parent among all lineages, or `NoRegions` when no lineage has a region. */
  function Major(all: seq<seq<Merge.Region>>): (r: Result<nat>)
    requires RegionsNonempty(all)
    ensures r.Err? <==> forall l :: 0 <= l < |all| ==> all[l] == []
    ensures r.Err? ==> r.error == NoRegions
    ensures r.Ok? ==> r.value < |all| && all[r.value] != [] && FirstLargest(all, r.value)
  {
    var es := WithRegions(all);
    var r := MajorParent(es);
    if r.Err? then
      assert forall l :: 0 <= l < |all| ==> Entry(l, all[l]) !in es;
      r
    else
      var i :| 0 <= i < |es| && es[i].lineage == r.value && FirstMaximal(es, i);
      MajorIsFirstLargest(all, i);
      r
  }

  /** The other parents drawn from all lineages: exactly the lineages with
      regions other than the major parent, each with its own regions. */
  lemma OthersOfAll(sites: seq<int>, wic: seq<seq<real>>, all: seq<seq<Merge.Region>>, major: nat)
    requires Seqs.Rectangular(wic, |sites|) && |all| == |wic|
    requires forall l, k :: 0 <= l < |all| && 0 <= k < |all[l]| ==> all[l][k].left < all[l][k].right <= |sites|
    ensures var others := Others(WithRegions(all), major);
      && EntriesBounded(others, |wic|, |sites|)
      && forall l :: 0 <= l < |all| ==> (Entry(l, all[l]) in others <==> all[l] != [] && l != major)
  {
    var es := WithRegions(all);
    var others := Others(es, major);
    forall k | 0 <= k < |others| ensures others[k].lineage < |wic| && others[k].regions == all[others[k].lineage] {
      assert others[k] in es;
    }
  }

  /** The result of parent assignment: the major parent, its mean WIC over the
      whole table and whether that is below half of `maxMic`, the other parents
      with their region reports, and whether any region was significant. */
  datatype Outcome = Outcome(major: nat, majorMean: real, weakMajor: bool, others: seq<Entry>,
                             reports: seq<seq<RegionReport>>, significant: bool)

  /** The outcome once the major parent `major` is known. */
  function AssignWith(sites: seq<int>, wic: seq<seq<real>>, maxMic: real, all: seq<seq<Merge.Region>>, major: nat,
                    test: (seq<real>, seq<real>) -> Test): (o: Outcome)
    requires Seqs.Rectangular(wic, |sites|) && |all| == |wic| && maxMic > 0.0
    requires forall l, k :: 0 <= l < |all| && 0 <= k < |all[l]| ==> all[l][k].left < all[l][k].right <= |sites|
    requires major < |all| && all[major] != []
    ensures |sites| > 0 && o.major == major
    ensures o.majorMean == Seqs.RangeSum(wic[major], 0, |sites|) / |sites| as real
    ensures o.weakMajor == (o.majorMean / maxMic < 0.5)
    ensures o.others == Others(WithRegions(all), major)
    ensures EntriesBounded(o.others, |wic|, |sites|)
    ensures forall l :: 0 <= l < |all| ==> (Entry(l, all[l]) in o.others <==> all[l] != [] && l != major)
    ensures o.reports == Reports(sites, wic, o.others, major, test)
    ensures |o.reports| == |o.others|
    ensures o.significant <==> exists k, j :: 0 <= k < |o.reports| && 0 <= j < |o.reports[k]| && o.reports[k][j].p < Alpha
  {
    assert all[major][0].left < all[major][0].right <= |sites|;
    var mean := Seqs.RangeSum(wic[major], 0, |sites|) / |sites| as real;
    var others := Others(WithRegions(all), major);
    OthersOfAll(sites, wic, all, major);
    SignificantIffShownBelow(sites, wic, others, major, test);
    Outcome(major, mean, mean / maxMic < 0.5, others,
            Reports(sites, wic, others, major, test),
            AnySignificant(Tests(wic, others, major, test)))
  }

  /** Parent assignment over the regions `all[l]` found for every lineage `l`. */
  function Assign(sites: seq<int>, wic: seq<seq<real>>, maxMic: real, all: seq<seq<Merge.Region>>,
                  test: (seq<real>, seq<real>) -> Test): (r: Result<Outcome>)
    requires Seqs.Rectangular(wic, |sites|) && |all| == |wic| && maxMic > 0.0
    requires forall l, k :: 0 <= l < |all| && 0 <= k < |all[l]| ==> all[l][k].left < all[l][k].right <= |sites|
    ensures r.Err? <==> forall l :: 0 <= l < |all| ==> all[l] == []
    ensures r.Err? ==> r.error == NoRegions
    ensures r.Ok? ==> r.value.major < |all| && all[r.value.major] != [] && FirstLargest(all, r.value.major)
    ensures r.Ok? ==> r.value == AssignWith(sites, wic, maxMic, all, r.value.major, test)
    ensures r.Ok? ==> forall l :: 0 <= l < |all| ==>
      (Entry(l, all[l]) in r.value.others <==> all[l] != [] && l != r.value.major)
    ensures r.Ok? ==> r.value.weakMajor == (r.value.majorMean / maxMic < 0.5)
    ensures r.Ok? ==> |r.value.reports| == |r.value.others|
    ensures r.Ok? ==> (r.value.significant <==>
      exists k, j :: 0 <= k < |r.value.reports| && 0 <= j < |r.value.reports[k]| && r.value.reports[k][j].p < Alpha)
  {
    match Major(all)
    case Err(e) => Err(e)
    case Ok(major) => Ok(AssignWith(sites, wic, maxMic, all, major, test))
  }
}
