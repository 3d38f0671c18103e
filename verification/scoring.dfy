/** Weighted information content (WIC) per site and lineage: the lineage's
    information content at a column, weighted by how often the lineage carries
    the query's consensus symbol and by how strongly the query agrees on it. */
module Scoring {
  import opened Results
  import Seqs
  import Alignment

  /** Substring containment of a marker in a sequence identifier: the marker
      starts at some position of the identifier. */
  predicate Contains(id: string, marker: string)
    ensures Contains(id, marker) ==> |marker| <= |id|
    decreases |id|
  {
    marker <= id || (|id| > 0 && Contains(id[1..], marker))
  }

  /** The marker is contained exactly when it is a prefix of the identifier
      from some position on. */
  lemma {:induction false} ContainsAt(id: string, marker: string)
    ensures Contains(id, marker) <==> exists i :: 0 <= i <= |id| && marker <= id[i..]
    decreases |id|
  {
    assert id[0..] == id;
    if |id| > 0 {
      ContainsAt(id[1..], marker);
      if exists i :: 0 <= i <= |id[1..]| && marker <= id[1..][i..] {
        var i :| 0 <= i <= |id[1..]| && marker <= id[1..][i..];
        assert id[1..][i..] == id[i + 1..];
      }
      if exists i :: 0 <= i <= |id| && marker <= id[i..] {
        var i :| 0 <= i <= |id| && marker <= id[i..];
        if i > 0 {
          assert id[1..][i - 1..] == id[i..];
          assert marker <= id[1..][i - 1..];
        }
      }
    }
  }

  /** Rows, in file order, whose identifier contains `marker`: a lineage group or the query group. */
  function Group(m: Alignment.Matrix, marker: string): (rows: seq<nat>)
    requires m.WellFormed()
    ensures Seqs.Increasing(rows)
    ensures forall r: nat :: r in rows <==> r < |m.ids| && Contains(m.ids[r], marker)
    ensures forall k :: 0 <= k < |rows| ==> rows[k] < |m.rows|
  {
    Seqs.IndicesWhere(|m.ids|, (r: nat) => r < |m.ids| && Contains(m.ids[r], marker))
  }

  /** The symbols of the rows of `group` at column `j`. */
  function GroupColumn(m: Alignment.Matrix, group: seq<nat>, j: nat): seq<char>
    requires m.WellFormed() && j < |m.sites|
    requires forall k :: 0 <= k < |group| ==> group[k] < |m.rows|
  {
    seq(|group|, k requires 0 <= k < |group| => m.rows[group[k]][j])
  }

  /** The query's consensus symbol: the first symbol, in row order, whose count is maximal. */
  function Consensus(query: seq<char>): (c: char)
    requires |query| > 0
    ensures c in query
    ensures forall k :: 0 <= k < |query| ==> Seqs.Count(query, query[k]) <= Seqs.Count(query, c)
    ensures exists i :: 0 <= i < |query| && query[i] == c &&
                        forall k :: 0 <= k < i ==> Seqs.Count(query, query[k]) < Seqs.Count(query, c)
  {
    var counts := seq(|query|, k requires 0 <= k < |query| => Seqs.Count(query, query[k]));
    var i := Seqs.FirstArgMax(counts);
    assert forall k :: 0 <= k < |query| ==> counts[k] == Seqs.Count(query, query[k]);
    query[i]
  }

  /** A count out of a positive total is a share in `[0, 1]`; the share is 0 or 1
      exactly when the count is 0 or the total. */
  lemma ShareBounds(n: nat, d: nat)
    requires 0 < d && n <= d
    ensures 0.0 <= n as real / d as real <= 1.0
    ensures n as real / d as real == 0.0 <==> n == 0
    ensures n as real / d as real == 1.0 <==> n == d
  {
    var r := n as real / d as real;
    assert r * d as real == n as real;
  }

  /** Share of the query rows that carry the consensus symbol. */
  function QueryRatio(query: seq<char>): (r: real)
    requires |query| > 0
    ensures 0.0 < r <= 1.0
  {
    ShareBounds(Seqs.Count(query, Consensus(query)), |query|);
    Seqs.Count(query, Consensus(query)) as real / |query| as real
  }

  /** Share of the lineage rows that carry symbol `c`. */
  function MatchRatio(lineage: seq<char>, c: char): (r: real)
    requires |lineage| > 0
    ensures 0.0 <= r <= 1.0
    ensures r == 0.0 <==> c !in lineage
    ensures r == 1.0 <==> forall k :: 0 <= k < |lineage| ==> lineage[k] == c
  {
    Seqs.CountAll(lineage, c);
    ShareBounds(Seqs.Count(lineage, c), |lineage|);
    Seqs.Count(lineage, c) as real / |lineage| as real
  }

  /** The product `lineage_match_ratio * IC * query_nt_ratio` for consensus symbol `c`. */
  function Weigh(lineage: seq<char>, c: char, ic: real, queryRatio: real): (w: real)
    requires |lineage| > 0 && 0.0 <= queryRatio <= 1.0
    ensures 0.0 <= ic ==> 0.0 <= w <= ic
  {
    var matchRatio := MatchRatio(lineage, c);
    ProductBounds(matchRatio, queryRatio, ic);
    matchRatio * ic * queryRatio
  }

  /** WIC of one lineage at one column, given the query's symbols and the
      lineage's symbols there and the lineage's information content `ic`.
      A single query row is its own consensus with weight 1; several rows vote.
      An empty query group or lineage group makes the computation fail. */
  function Wic(query: seq<char>, lineage: seq<char>, ic: real): (r: Result<real>)
    ensures r.Err? <==> |query| == 0 || |lineage| == 0
    ensures |query| == 0 ==> r == Err(EmptyQueryGroup)
    ensures |query| > 0 && |lineage| == 0 ==> r == Err(EmptyLineageGroup)
    ensures r.Ok? && 0.0 <= ic ==> 0.0 <= r.value <= ic
  {
    if |query| == 1 then
      if |lineage| == 0 then Err(EmptyLineageGroup)
      else Ok(Weigh(lineage, query[0], ic, 1.0))
    else if |query| == 0 then Err(EmptyQueryGroup)
    else if |lineage| == 0 then Err(EmptyLineageGroup)
    else Ok(Weigh(lineage, Consensus(query), ic, QueryRatio(query)))
  }

  /** Two weights in `[0, 1]` scale a non-negative value down. */
  lemma ProductBounds(a: real, b: real, ic: real)
    requires 0.0 <= a <= 1.0 && 0.0 <= b <= 1.0
    ensures 0.0 <= ic ==> 0.0 <= a * ic * b <= ic
  {
    if 0.0 <= ic {
      assert a * ic <= ic;
      assert (a * ic) * b <= a * ic;
    }
  }

  /** The single-row branch agrees with the voting branch: one row is its own
      consensus and agrees with itself fully. */
  lemma {:induction false} SingleQueryIsConsensus(query: seq<char>, lineage: seq<char>, ic: real)
    requires |query| == 1 && |lineage| > 0
    ensures Consensus(query) == query[0] && QueryRatio(query) == 1.0
    ensures Wic(query, lineage, ic) == Ok(Weigh(lineage, Consensus(query), ic, QueryRatio(query)))
  {
    assert Seqs.Count(query, query[0]) == 1 by {
      assert query[1..] == [];
    }
    assert Consensus(query) == query[0];
    assert QueryRatio(query) == 1.0;
  }

  /** Every query row and every lineage row carries the first query row's symbol. */
  predicate Unanimous(query: seq<char>, lineage: seq<char>)
    requires |query| > 0
  {
    && (forall k :: 0 <= k < |query| ==> query[k] == query[0])
    && (forall k :: 0 <= k < |lineage| ==> lineage[k] == query[0])
  }

  /** With positive information content, a lineage scores the full `ic` exactly
      when every query row and every lineage row carries one and the same symbol. */
  lemma WicFullIff(query: seq<char>, lineage: seq<char>, ic: real)
    requires |query| > 0 && |lineage| > 0 && 0.0 < ic
    ensures Wic(query, lineage, ic) == Ok(ic) <==> Unanimous(query, lineage)
  {
    if Wic(query, lineage, ic) == Ok(ic) {
      FullWicIsUnanimous(query, lineage, ic);
    }
    if Unanimous(query, lineage) {
      UnanimousWicIsFull(query, lineage, ic);
    }
  }

  lemma FullWicIsUnanimous(query: seq<char>, lineage: seq<char>, ic: real)
    requires |query| > 0 && |lineage| > 0 && 0.0 < ic
    requires Wic(query, lineage, ic) == Ok(ic)
    ensures Unanimous(query, lineage)
  {
    var c := Consensus(query);
    var a := MatchRatio(lineage, c);
    var b := QueryRatio(query);
    assert a == 1.0 && b == 1.0 by {
      if |query| == 1 {
        SingleQueryIsConsensus(query, lineage, ic);
      }
      assert Wic(query, lineage, ic) == Ok(Weigh(lineage, c, ic, b));
      assert Weigh(lineage, c, ic, b) == a * ic * b;
      UnitProduct(a, b, ic);
    }
    assert forall k :: 0 <= k < |query| ==> query[k] == c by {
      Seqs.CountAll(query, c);
      ShareBounds(Seqs.Count(query, c), |query|);
    }
  }

  lemma UnanimousWicIsFull(query: seq<char>, lineage: seq<char>, ic: real)
    requires |query| > 0 && |lineage| > 0 && 0.0 < ic
    requires Unanimous(query, lineage)
    ensures Wic(query, lineage, ic) == Ok(ic)
  {
    var c := Consensus(query);
    if |query| == 1 {
      SingleQueryIsConsensus(query, lineage, ic);
    }
    Seqs.CountAll(query, query[0]);
    assert c == query[0];
    ShareBounds(Seqs.Count(query, c), |query|);
    assert MatchRatio(lineage, c) == 1.0 && QueryRatio(query) == 1.0;
  }

  /** Weights in `[0, 1]` leave a positive value unchanged only when both are 1. */
  lemma UnitProduct(a: real, b: real, ic: real)
    requires 0.0 <= a <= 1.0 && 0.0 <= b <= 1.0 && 0.0 < ic
    requires a * ic * b == ic
    ensures a == 1.0 && b == 1.0
  {
    assert a * ic <= ic by {
      assert (1.0 - a) * ic >= 0.0;
    }
    assert a * ic * b <= a * ic by {
      assert (a * ic) * (1.0 - b) >= 0.0;
    }
    assert (1.0 - a) * ic == 0.0;
    assert (a * ic) * (1.0 - b) == 0.0;
  }

  /** With positive information content, a lineage scores zero exactly when none
      of its rows carries the query's consensus symbol. */
  lemma WicZeroIff(query: seq<char>, lineage: seq<char>, ic: real)
    requires |query| > 0 && |lineage| > 0 && 0.0 < ic
    ensures Wic(query, lineage, ic) == Ok(0.0) <==> Consensus(query) !in lineage
  {
    var c := Consensus(query);
    var a := MatchRatio(lineage, c);
    var b := QueryRatio(query);
    if |query| == 1 {
      SingleQueryIsConsensus(query, lineage, ic);
    }
    assert Wic(query, lineage, ic) == Ok(Weigh(lineage, c, ic, b));
    if a != 0.0 {
      assert a * ic > 0.0;
      assert a * ic * b > 0.0;
    }
  }

  /** The per-site WIC table: site labels of the cleaned matrix and, for each
      lineage in list order, one score per site. */
  datatype SiteTable = SiteTable(sites: seq<int>, wic: seq<seq<real>>)

  /** The information content never leaves `[0, maxMic]`. */
  ghost predicate IcBounded(ic: seq<char> -> real, maxMic: real) {
    forall col :: 0.0 <= ic(col) <= maxMic
  }

  /** WIC of one lineage group at every column. An empty query or lineage group
      fails at the first column; a matrix without columns computes nothing and
      cannot fail. */
  function ScoreLineage(m: Alignment.Matrix, query: seq<nat>, group: seq<nat>, ic: seq<char> -> real): (r: Result<seq<real>>)
    requires m.WellFormed()
    requires forall k :: 0 <= k < |query| ==> query[k] < |m.rows|
    requires forall k :: 0 <= k < |group| ==> group[k] < |m.rows|
    ensures r.Err? <==> |m.sites| > 0 && (|query| == 0 || |group| == 0)
    ensures r.Err? ==> r.error == (if |query| == 0 then EmptyQueryGroup else EmptyLineageGroup)
    ensures r.Ok? ==> |r.value| == |m.sites|
    ensures r.Ok? ==> forall j :: 0 <= j < |m.sites| ==>
      Wic(GroupColumn(m, query, j), GroupColumn(m, group, j), ic(GroupColumn(m, group, j))) == Ok(r.value[j])
  {
    if |m.sites| == 0 then Ok([])
    else if |query| == 0 then Err(EmptyQueryGroup)
    else if |group| == 0 then Err(EmptyLineageGroup)
    else Ok(seq(|m.sites|, j requires 0 <= j < |m.sites| =>
                 Wic(GroupColumn(m, query, j), GroupColumn(m, group, j), ic(GroupColumn(m, group, j))).value))
  }

  /** Score the lineages `markers` in list order; the first failing lineage ends the run. */
  function ScoreAll(m: Alignment.Matrix, query: seq<nat>, markers: seq<string>, ic: seq<char> -> real): (r: Result<seq<seq<real>>>)
    requires m.WellFormed()
    requires forall k :: 0 <= k < |query| ==> query[k] < |m.rows|
    ensures r.Err? <==> |m.sites| > 0 && |markers| > 0 &&
                        (|query| == 0 || exists l :: 0 <= l < |markers| && |Group(m, markers[l])| == 0)
    ensures r.Ok? ==> |r.value| == |markers| && Seqs.Rectangular(r.value, |m.sites|)
    ensures r.Ok? ==> forall l :: 0 <= l < |markers| ==>
      ScoreLineage(m, query, Group(m, markers[l]), ic) == Ok(r.value[l])
  {
    if |markers| == 0 then Ok([])
    else
      match ScoreLineage(m, query, Group(m, markers[0]), ic)
      case Err(e) => Err(e)
      case Ok(row) =>
        match ScoreAll(m, query, markers[1..], ic)
        case Err(e) => Err(e)
        case Ok(rest) =>
          assert forall l :: 1 <= l < |markers| ==> markers[l] == markers[1..][l - 1];
          Ok([row] + rest)
  }

  /** The per-site WIC table of the cleaned matrix for a query marker and the
      lineage markers. It fails exactly when there is at least one column and one
      lineage and the query group or some lineage group is empty. */
  function ScoreSites(m: Alignment.Matrix, queryMarker: string, markers: seq<string>, ic: seq<char> -> real): (r: Result<SiteTable>)
    requires m.WellFormed()
    ensures r.Err? <==> |m.sites| > 0 && |markers| > 0 &&
                        (|Group(m, queryMarker)| == 0 || exists l :: 0 <= l < |markers| && |Group(m, markers[l])| == 0)
    ensures r.Ok? ==> r.value.sites == m.sites && |r.value.wic| == |markers|
    ensures r.Ok? ==> Seqs.Rectangular(r.value.wic, |m.sites|)
    ensures r.Ok? ==> forall l, j :: 0 <= l < |markers| && 0 <= j < |m.sites| ==>
      var query := GroupColumn(m, Group(m, queryMarker), j);
      var lineage := GroupColumn(m, Group(m, markers[l]), j);
      Wic(query, lineage, ic(lineage)) == Ok(r.value.wic[l][j])
  {
    match ScoreAll(m, Group(m, queryMarker), markers, ic)
    case Err(e) => Err(e)
    case Ok(rows) => Ok(SiteTable(m.sites, rows))
  }

  /** With the information content bounded by `maxMic`, every WIC in the table
      lies in `[0, maxMic]`. */
  lemma ScoreSitesBounded(m: Alignment.Matrix, queryMarker: string, markers: seq<string>, ic: seq<char> -> real, maxMic: real)
    requires m.WellFormed()
    requires IcBounded(ic, maxMic)
    requires ScoreSites(m, queryMarker, markers, ic).Ok?
    ensures var t := ScoreSites(m, queryMarker, markers, ic).value;
      forall l, j :: 0 <= l < |t.wic| && 0 <= j < |t.wic[l]| ==> 0.0 <= t.wic[l][j] <= maxMic
  {
    var q := Group(m, queryMarker);
    var t := ScoreSites(m, queryMarker, markers, ic).value;
    forall l, j | 0 <= l < |t.wic| && 0 <= j < |t.wic[l]| ensures 0.0 <= t.wic[l][j] <= maxMic {
      var g := Group(m, markers[l]);
      assert ScoreLineage(m, q, g, ic) == Ok(t.wic[l]);
      var x := ic(GroupColumn(m, g, j));
      assert Wic(GroupColumn(m, q, j), GroupColumn(m, g, j), x) == Ok(t.wic[l][j]);
    }
  }
}
