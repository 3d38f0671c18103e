/** The whole scan: clean the alignment, score every site for every lineage,
    average the scores over sliding windows, pick candidate windows, merge them
    into regions lineage by lineage, and assign the parents. */
module Engine {
  import opened Results
  import Seqs
  import Alignment
  import Scoring
  import Windows
  import Candidates
  import Merge
  import Parents

  /** Run options: whether gap symbols are analysed, polymorphic-site mode, the
      window width and step, the region length cap and the threshold `cp`. */
  datatype Config = Config(analyseGaps: bool, polymorphicOnly: bool, width: nat, step: nat,
                           maxFragment: int, cp: real)
  {
    predicate Valid() {
      width > 0 && step > 0
    }
  }

  /** Maximal information content of a column: 2 bits for four bases when gap
      symbols are dropped, otherwise `gapMaxMic` (log2 of five symbols, given
      as a parameter because the model has no logarithm). */
  function MaxMic(cfg: Config, gapMaxMic: real): (m: real)
    requires gapMaxMic > 0.0
    ensures m > 0.0
    ensures !cfg.analyseGaps ==> m == 2.0
  {
    if cfg.analyseGaps then gapMaxMic else 2.0
  }

  /** The merge of lineage `l` over a WIC table of `length` rows. */
  function LineageScan(wic: seq<seq<real>>, l: nat, length: nat, cfg: Config, maxMic: real): (s: Merge.Scan)
    requires l < |wic| && Seqs.Rectangular(wic, length) && maxMic > 0.0
    ensures s.Valid()
  {
    Merge.Scan(wic, l, length, cfg.step, cfg.maxFragment, maxMic, cfg.cp)
  }

  /** Regions of lineage `l` from its candidates: none without a candidate. */
  function LineageRegions(wic: seq<seq<real>>, l: nat, length: nat, cfg: Config, maxMic: real, c: seq<nat>): (regions: seq<Merge.Region>)
    requires l < |wic| && Seqs.Rectangular(wic, length) && maxMic > 0.0
    ensures |regions| < |c| || regions == []
    ensures forall k :: 0 <= k < |regions| ==>
      Merge.Accepted(LineageScan(wic, l, length, cfg, maxMic), regions[k]) && regions[k].right <= length
  {
    if c == [] then [] else Merge.Merge(LineageScan(wic, l, length, cfg, maxMic), c)
  }

  /** Candidates and regions of every lineage of a scored table. */
  function AllRegions(table: Scoring.SiteTable, cfg: Config, maxMic: real): (all: seq<seq<Merge.Region>>)
    requires cfg.Valid() && maxMic > 0.0 && Seqs.Rectangular(table.wic, |table.sites|)
    ensures |all| == |table.wic|
    ensures forall l, k :: 0 <= l < |all| && 0 <= k < |all[l]| ==>
      && Merge.Accepted(LineageScan(table.wic, l, |table.sites|, cfg, maxMic), all[l][k])
      && all[l][k].left < all[l][k].right <= |table.sites|
  {
    var length := |table.sites|;
    var means := Windows.WindowMeans(table.wic, length, cfg.width, cfg.step);
    var cands := Candidates.AllCandidates(means, length, cfg.width, cfg.step, maxMic, cfg.cp);
    seq(|table.wic|, l requires 0 <= l < |table.wic| =>
      LineageRegions(table.wic, l, length, cfg, maxMic, cands[l]))
  }

  /** What a successful scan produced: the WIC table, `maxMic`, the regions of
      every lineage and the parent assignment. */
  datatype Run = Run(table: Scoring.SiteTable, maxMic: real, regions: seq<seq<Merge.Region>>, outcome: Parents.Outcome)

  /** Regions and parent assignment for a scored table. */
  function Analyse(table: Scoring.SiteTable, cfg: Config, maxMic: real,
                   test: (seq<real>, seq<real>) -> Parents.Test): (r: Result<Run>)
    requires cfg.Valid() && maxMic > 0.0 && Seqs.Rectangular(table.wic, |table.sites|)
    ensures r.Err? ==> r == Err(NoRegions)
    ensures r.Err? <==> forall l :: 0 <= l < |table.wic| ==> AllRegions(table, cfg, maxMic)[l] == []
    ensures |table.wic| == 0 ==> r == Err(NoRegions)
    ensures r.Ok? ==> var run := r.value;
      && run.table == table && run.maxMic == maxMic
      && run.regions == AllRegions(table, cfg, maxMic)
      && Parents.Assign(table.sites, table.wic, maxMic, run.regions, test) == Ok(run.outcome)
      && run.outcome.major < |table.wic| && run.regions[run.outcome.major] != []
      && Parents.FirstLargest(run.regions, run.outcome.major)
      && (forall l :: 0 <= l < |table.wic| ==>
            (Parents.Entry(l, run.regions[l]) in run.outcome.others <==> run.regions[l] != [] && l != run.outcome.major))
  {
    var all := AllRegions(table, cfg, maxMic);
    match Parents.Assign(table.sites, table.wic, maxMic, all, test)
    case Err(e) => Err(e)
    case Ok(outcome) => Ok(Run(table, maxMic, all, outcome))
  }

  /** The cleaned and scored alignment: the first two stages of the scan. */
  function Score(m: Alignment.Matrix, queryMarker: string, markers: seq<string>, cfg: Config,
                 ic: seq<char> -> real): (r: Result<Scoring.SiteTable>)
    requires m.WellFormed()
    ensures cfg.polymorphicOnly && |m.rows| == 0 ==> r == Err(NoRows)
    ensures |markers| == 0 && (|m.rows| > 0 || !cfg.polymorphicOnly) ==> r.Ok? && r.value.wic == []
    ensures r.Ok? ==> |r.value.wic| == |markers| && Seqs.Rectangular(r.value.wic, |r.value.sites|)
    ensures r.Ok? ==> var clean := Alignment.Prepare(m, !cfg.analyseGaps, cfg.polymorphicOnly);
      clean.Ok? && Scoring.ScoreSites(clean.value, queryMarker, markers, ic) == r
    ensures var clean := Alignment.Prepare(m, !cfg.analyseGaps, cfg.polymorphicOnly);
      r.Err? <==> clean.Err? || Scoring.ScoreSites(clean.value, queryMarker, markers, ic).Err?
  {
    match Alignment.Prepare(m, !cfg.analyseGaps, cfg.polymorphicOnly)
    case Err(e) => Err(e)
    case Ok(clean) => Scoring.ScoreSites(clean, queryMarker, markers, ic)
  }

  /** The scan of matrix `m` for the query rows whose identifier contains
      `queryMarker`, against the lineages `markers`. `ic` is the information
      content of a column and `test` the rank-sum comparison of two score lists. */
  function Detect(m: Alignment.Matrix, queryMarker: string, markers: seq<string>, cfg: Config,
                  ic: seq<char> -> real, gapMaxMic: real, test: (seq<real>, seq<real>) -> Parents.Test): (r: Result<Run>)
    requires m.WellFormed() && cfg.Valid() && gapMaxMic > 0.0
    ensures cfg.polymorphicOnly && |m.rows| == 0 ==> r == Err(NoRows)
    ensures |markers| == 0 && (|m.rows| > 0 || !cfg.polymorphicOnly) ==> r == Err(NoRegions)
    ensures r.Ok? ==> var run := r.value;
      && run.maxMic == MaxMic(cfg, gapMaxMic)
      && |run.regions| == |markers| == |run.table.wic|
      && Seqs.Rectangular(run.table.wic, |run.table.sites|)
      && (forall l, k :: 0 <= l < |run.regions| && 0 <= k < |run.regions[l]| ==>
            && Merge.Accepted(LineageScan(run.table.wic, l, |run.table.sites|, cfg, run.maxMic), run.regions[l][k])
            && run.regions[l][k].left < run.regions[l][k].right <= |run.table.sites|)
      && run.outcome.major < |markers| && run.regions[run.outcome.major] != []
      && Parents.FirstLargest(run.regions, run.outcome.major)
      && (forall l :: 0 <= l < |markers| ==>
            (Parents.Entry(l, run.regions[l]) in run.outcome.others <==> run.regions[l] != [] && l != run.outcome.major))
    ensures r.Ok? ==>
      && Score(m, queryMarker, markers, cfg, ic) == Ok(r.value.table)
      && r == Analyse(r.value.table, cfg, MaxMic(cfg, gapMaxMic), test)
    ensures var s := Score(m, queryMarker, markers, cfg, ic);
      && (s.Err? ==> r == Err(s.error))
      && (s.Ok? ==> r == Analyse(s.value, cfg, MaxMic(cfg, gapMaxMic), test))
  {
    var scored := Score(m, queryMarker, markers, cfg, ic);
    if scored.Err? then Err(scored.error) else Analyse(scored.value, cfg, MaxMic(cfg, gapMaxMic), test)
  }

  /** A scan succeeds exactly when scoring succeeds and some lineage of the
      scored table has a region. */
  lemma DetectSucceedsIff(m: Alignment.Matrix, queryMarker: string, markers: seq<string>, cfg: Config,
                          ic: seq<char> -> real, gapMaxMic: real, test: (seq<real>, seq<real>) -> Parents.Test)
    requires m.WellFormed() && cfg.Valid() && gapMaxMic > 0.0
    ensures var s := Score(m, queryMarker, markers, cfg, ic);
      Detect(m, queryMarker, markers, cfg, ic, gapMaxMic, test).Ok? <==>
        s.Ok? && exists l :: 0 <= l < |s.value.wic| && AllRegions(s.value, cfg, MaxMic(cfg, gapMaxMic))[l] != []
  {
  }

  /** A successful scan scored the cleaned alignment. */
  lemma DetectScores(m: Alignment.Matrix, queryMarker: string, markers: seq<string>, cfg: Config,
                     ic: seq<char> -> real, gapMaxMic: real, test: (seq<real>, seq<real>) -> Parents.Test)
    requires m.WellFormed() && cfg.Valid() && gapMaxMic > 0.0
    ensures var r := Detect(m, queryMarker, markers, cfg, ic, gapMaxMic, test);
      r.Ok? ==> var clean := Alignment.Prepare(m, !cfg.analyseGaps, cfg.polymorphicOnly);
        clean.Ok? && Scoring.ScoreSites(clean.value, queryMarker, markers, ic) == Ok(r.value.table)
  {
  }

  /** A successful scan merged the candidates of every lineage into its regions
      and assigned the parents from them. */
  lemma DetectRegions(m: Alignment.Matrix, queryMarker: string, markers: seq<string>, cfg: Config,
                      ic: seq<char> -> real, gapMaxMic: real, test: (seq<real>, seq<real>) -> Parents.Test)
    requires m.WellFormed() && cfg.Valid() && gapMaxMic > 0.0
    ensures var r := Detect(m, queryMarker, markers, cfg, ic, gapMaxMic, test);
      r.Ok? ==> var run := r.value;
        && run.regions == AllRegions(run.table, cfg, run.maxMic)
        && Parents.Assign(run.table.sites, run.table.wic, run.maxMic, run.regions, test) == Ok(run.outcome)
  {
  }

  /** Candidates come in window order, whose label rows never decrease, so every
      lineage's regions are what the reference merge emits. */
  lemma RegionsFollowReference(table: Scoring.SiteTable, cfg: Config, maxMic: real, l: nat)
    requires cfg.Valid() && maxMic > 0.0 && Seqs.Rectangular(table.wic, |table.sites|)
    requires l < |table.wic|
    ensures var length := |table.sites|;
      var means := Windows.WindowMeans(table.wic, length, cfg.width, cfg.step);
      var c := Candidates.Candidates(means, l, length, cfg.width, cfg.step, maxMic, cfg.cp);
      c != [] ==> AllRegions(table, cfg, maxMic)[l] == Merge.ReferenceMergeFrom(LineageScan(table.wic, l, length, cfg, maxMic), c, 1)
  {
    var length := |table.sites|;
    var means := Windows.WindowMeans(table.wic, length, cfg.width, cfg.step);
    var c := Candidates.Candidates(means, l, length, cfg.width, cfg.step, maxMic, cfg.cp);
    if c != [] {
      Merge.MergeIsReference(LineageScan(table.wic, l, length, cfg, maxMic), c, 1);
    }
  }

  /** With every score within `[0, maxMic]` and `cp >= 1`, no window of any
      lineage reaches the threshold that makes a region. */
  lemma BoundedTableHasNoRegions(table: Scoring.SiteTable, cfg: Config, maxMic: real)
    requires cfg.Valid() && maxMic > 0.0 && Seqs.Rectangular(table.wic, |table.sites|) && cfg.cp >= 1.0
    requires forall l, j :: 0 <= l < |table.wic| && 0 <= j < |table.wic[l]| ==> 0.0 <= table.wic[l][j] <= maxMic
    ensures forall l :: 0 <= l < |table.wic| ==> AllRegions(table, cfg, maxMic)[l] == []
  {
    var length := |table.sites|;
    var means := Windows.WindowMeans(table.wic, length, cfg.width, cfg.step);
    forall l | 0 <= l < |table.wic| ensures AllRegions(table, cfg, maxMic)[l] == [] {
      var c := Candidates.Candidates(means, l, length, cfg.width, cfg.step, maxMic, cfg.cp);
      if c != [] {
        Merge.NoRegionAtFullThreshold(LineageScan(table.wic, l, length, cfg, maxMic), c);
      }
    }
  }

  /** With the information content bounded by `maxMic` and `cp >= 1`, the scan
      finds no region for any lineage and so always ends without a major parent. */
  lemma FullThresholdFindsNothing(m: Alignment.Matrix, queryMarker: string, markers: seq<string>, cfg: Config,
                                  ic: seq<char> -> real, gapMaxMic: real, test: (seq<real>, seq<real>) -> Parents.Test)
    requires m.WellFormed() && cfg.Valid() && gapMaxMic > 0.0 && cfg.cp >= 1.0
    requires Scoring.IcBounded(ic, MaxMic(cfg, gapMaxMic))
    ensures Detect(m, queryMarker, markers, cfg, ic, gapMaxMic, test).Err?
  {
    var maxMic := MaxMic(cfg, gapMaxMic);
    var scored := Score(m, queryMarker, markers, cfg, ic);
    if scored.Ok? {
      var clean := Alignment.Prepare(m, !cfg.analyseGaps, cfg.polymorphicOnly).value;
      Scoring.ScoreSitesBounded(clean, queryMarker, markers, ic, maxMic);
      BoundedTableHasNoRegions(scored.value, cfg, maxMic);
    }
  }
}
