/** The per-region aggregation of `POST /metrics`: for each requested region
    name, the records of that region are selected and summarised, and the
    summary is stored in a map under the region name. */
module Aggregator {
  import opened Wrappers
  import opened Sorting
  import opened Statistics
  import opened Percentile

  /** One observation record of the dataset. Every field may be absent from
      the JSON object, hence the options. */
  datatype Record = Record(region: Option<string>, latencyMs: Option<real>, uptimePct: Option<real>)

  /** The record's latency, or 0 when the field is absent. */
  function Latency(r: Record): real {
    r.latencyMs.GetOr(0.0)
  }

  /** The record's uptime, or 0 when the field is absent. */
  function Uptime(r: Record): real {
    r.uptimePct.GetOr(0.0)
  }

  /** The summary of one region; the three means and the percentile are
      `None` (JSON null) when the region has no records. */
  datatype Stats = Stats(avgLatency: Option<real>, p95Latency: Option<real>, avgUptime: Option<real>, breaches: nat)

  /** The sentinel written for a region without records. */
  const NoData := Stats(None, None, None, 0)

  /** The records whose `region` field equals `region` exactly, in dataset
      order. A record without a region field never matches. */
  function Select(records: seq<Record>, region: string): (sel: seq<Record>)
    ensures |sel| <= |records|
    ensures forall r :: r in sel ==> r in records && r.region == Some(region)
    decreases |records|
  {
    if |records| == 0 then []
    else
      var last := records[|records| - 1];
      var init := Select(records[..|records| - 1], region);
      if last.region == Some(region) then init + [last] else init
  }

  /** The selection keeps every matching record with its multiplicity and
      drops every other record. */
  lemma {:induction false} SelectMultiset(records: seq<Record>, region: string, x: Record)
    ensures multiset(Select(records, region))[x] ==
            if x.region == Some(region) then multiset(records)[x] else 0
    decreases |records|
  {
    if |records| > 0 {
      var init := records[..|records| - 1];
      SelectMultiset(init, region, x);
      assert records == init + [records[|records| - 1]];
    }
  }

  /** Selecting from two arrangements of the same dataset gives two
      arrangements of the same records. */
  lemma SelectPermutation(a: seq<Record>, b: seq<Record>, region: string)
    requires multiset(a) == multiset(b)
    ensures multiset(Select(a, region)) == multiset(Select(b, region))
  {
    forall x | true
      ensures multiset(Select(a, region))[x] == multiset(Select(b, region))[x]
    {
      SelectMultiset(a, region, x);
      SelectMultiset(b, region, x);
    }
  }

  /** The summary of one region: the sentinel when no record matches,
      otherwise the mean latency, the 95th percentile of the latencies, the
      mean uptime and the number of latencies strictly above `threshold`.
      The statistics are present exactly when some record matches, and
      there are never more breaches than matching records. */
  function RegionStats(records: seq<Record>, region: string, threshold: real): (s: Stats)
    ensures |Select(records, region)| == 0 <==> s == NoData
    ensures s.avgLatency.Some? <==> |Select(records, region)| > 0
    ensures s.p95Latency.Some? <==> |Select(records, region)| > 0
    ensures s.avgUptime.Some? <==> |Select(records, region)| > 0
    ensures s.breaches <= |Select(records, region)|
  {
    var recs := Select(records, region);
    if |recs| == 0 then NoData
    else
      var latencies := Project(recs, Latency);
      var uptimes := Project(recs, Uptime);
      Stats(Some(Mean(latencies)), Some(Percentile95(latencies)), Some(Mean(uptimes)),
            CountAbove(latencies, threshold))
  }

  /** Some record of `sel` has field `f` at most `v`, and some record has
      it at least `v`: `v` lies between the least and the greatest field. */
  ghost predicate WithinField(sel: seq<Record>, f: Record -> real, v: real) {
    (exists r :: r in sel && f(r) <= v) && (exists r :: r in sel && v <= f(r))
  }

  /** Every present statistic lies between the least and the greatest value
      it summarises among the region's records. */
  lemma RegionStatsInRange(records: seq<Record>, region: string, threshold: real)
    ensures var s := RegionStats(records, region, threshold);
            s.avgLatency.Some? ==> WithinField(Select(records, region), Latency, s.avgLatency.value)
    ensures var s := RegionStats(records, region, threshold);
            s.p95Latency.Some? ==> WithinField(Select(records, region), Latency, s.p95Latency.value)
    ensures var s := RegionStats(records, region, threshold);
            s.avgUptime.Some? ==> WithinField(Select(records, region), Uptime, s.avgUptime.value)
  {
    var sel := Select(records, region);
    if |sel| > 0 {
      var lat := Project(sel, Latency);
      var up := Project(sel, Uptime);
      ProjectWitness(sel, Latency, Mean(lat));
      ProjectWitness(sel, Latency, Percentile95(lat));
      ProjectWitness(sel, Uptime, Mean(up));
    }
  }

  /** A value between two projected values lies between two record fields. */
  lemma ProjectWitness(sel: seq<Record>, f: Record -> real, v: real)
    requires InRange(Project(sel, f), v)
    ensures WithinField(sel, f, v)
  {
    var i :| 0 <= i < |sel| && Project(sel, f)[i] <= v;
    var j :| 0 <= j < |sel| && v <= Project(sel, f)[j];
    assert sel[i] in sel && sel[j] in sel;
  }

  /** The response map: one entry per distinct requested region name,
      written in request order so that a repeated name overwrites its
      earlier entry. Its keys are exactly the requested names and each
      entry is the summary of its own region. */
  function Metrics(records: seq<Record>, regions: seq<string>, threshold: real): (m: map<string, Stats>)
    ensures forall g :: g in m <==> g in regions
    ensures forall g :: g in m ==> m[g] == RegionStats(records, g, threshold)
    decreases |regions|
  {
    if |regions| == 0 then map[]
    else
      var g := regions[|regions| - 1];
      var init := regions[..|regions| - 1];
      var earlier := Metrics(records, init, threshold);
      assert forall x :: x in regions <==> x in init || x == g;
      earlier[g := RegionStats(records, g, threshold)]
  }

  /** Two maps with the same keys and the same entry under every key are
      equal. */
  lemma SameEntries(ma: map<string, Stats>, mb: map<string, Stats>)
    requires forall g :: g in ma <==> g in mb
    requires forall g :: g in ma ==> ma[g] == mb[g]
    ensures ma == mb
  {
    assert ma.Keys == mb.Keys;
  }

  /** No requested regions, empty response. */
  lemma MetricsEmptyQuery(records: seq<Record>, threshold: real)
    ensures Metrics(records, [], threshold) == map[]
  {
  }

  /** The response depends only on the set of requested names: neither
      their order nor repetitions change it. */
  lemma MetricsRegionSetOnly(records: seq<Record>, a: seq<string>, b: seq<string>, threshold: real)
    requires forall g :: g in a <==> g in b
    ensures Metrics(records, a, threshold) == Metrics(records, b, threshold)
  {
    var ma := Metrics(records, a, threshold);
    var mb := Metrics(records, b, threshold);
    SameEntries(ma, mb);
  }

  /** Requesting a name a second time leaves the response unchanged. */
  lemma MetricsDuplicate(records: seq<Record>, regions: seq<string>, g: string, threshold: real)
    requires g in regions
    ensures Metrics(records, regions + [g], threshold) == Metrics(records, regions, threshold)
  {
    MetricsRegionSetOnly(records, regions + [g], regions, threshold);
  }

  /** A requested region without any record in the dataset maps to the
      sentinel `None/None/None/0`. */
  lemma MetricsUnknownRegion(records: seq<Record>, regions: seq<string>, g: string, threshold: real)
    requires g in regions
    requires forall r :: r in records ==> r.region != Some(g)
    ensures g in Metrics(records, regions, threshold)
    ensures Metrics(records, regions, threshold)[g] == NoData
  {
    if |Select(records, g)| > 0 {
      assert Select(records, g)[0] in Select(records, g);
    }
  }

  /** `breaches` is the number of records of the region whose latency is
      strictly above the threshold, counted over the dataset positions. */
  lemma BreachesCountRecords(records: seq<Record>, region: string, threshold: real)
    ensures RegionStats(records, region, threshold).breaches ==
            |set i | 0 <= i < |records| && records[i].region == Some(region) && Latency(records[i]) > threshold|
  {
    SelectedBreaches(records, region, threshold);
  }

  /** The positions of the dataset holding a breach of `region`. */
  ghost function BreachPositions(records: seq<Record>, region: string, threshold: real): set<int> {
    set i | 0 <= i < |records| && records[i].region == Some(region) && Latency(records[i]) > threshold
  }

  /** Appending a record adds its position exactly when it is a breach. */
  lemma BreachPositionsStep(records: seq<Record>, region: string, threshold: real)
    requires |records| > 0
    ensures var last := records[|records| - 1];
            var T := BreachPositions(records[..|records| - 1], region, threshold);
            BreachPositions(records, region, threshold) ==
              if last.region == Some(region) && Latency(last) > threshold then T + {|records| - 1} else T
  {
  }

  /** The latencies of the selection of `records + [last]`. */
  lemma SelectedLatenciesStep(records: seq<Record>, region: string)
    requires |records| > 0
    ensures var init := records[..|records| - 1];
            var last := records[|records| - 1];
            var lat := Project(Select(init, region), Latency);
            Project(Select(records, region), Latency) ==
              if last.region == Some(region) then lat + [Latency(last)] else lat
  {
  }

  /** Strict count over the selected latencies, by induction on the dataset. */
  lemma {:induction false} SelectedBreaches(records: seq<Record>, region: string, threshold: real)
    ensures CountAbove(Project(Select(records, region), Latency), threshold) ==
            |BreachPositions(records, region, threshold)|
    decreases |records|
  {
    if |records| == 0 {
      assert BreachPositions(records, region, threshold) == {};
    } else {
      var init := records[..|records| - 1];
      var last := records[|records| - 1];
      var lat := Project(Select(init, region), Latency);
      SelectedBreaches(init, region, threshold);
      BreachPositionsStep(records, region, threshold);
      SelectedLatenciesStep(records, region);
      assert |init| !in BreachPositions(init, region, threshold);
      if last.region == Some(region) {
        CountAboveAppend(lat, [Latency(last)], threshold);
        assert CountAbove([Latency(last)], threshold) == if Latency(last) > threshold then 1 else 0;
      }
    }
  }

  /** A record whose latency equals the threshold is not a breach: adding
      one leaves the breach count unchanged. */
  lemma AtThresholdNotBreach(records: seq<Record>, region: string, threshold: real, uptime: Option<real>)
    ensures RegionStats(records + [Record(Some(region), Some(threshold), uptime)], region, threshold).breaches ==
            RegionStats(records, region, threshold).breaches
  {
    var last := Record(Some(region), Some(threshold), uptime);
    var all := records + [last];
    assert all[..|all| - 1] == records;
    var si := Select(records, region);
    assert Select(all, region) == si + [last];
    assert Project(si + [last], Latency) == Project(si, Latency) + [threshold];
  }

  /** Each region summary depends only on the multiset of records, not on
      the order of the dataset. */
  lemma RegionStatsOrderIndependent(a: seq<Record>, b: seq<Record>, region: string, threshold: real)
    requires multiset(a) == multiset(b)
    ensures RegionStats(a, region, threshold) == RegionStats(b, region, threshold)
  {
    var sa := Select(a, region);
    var sb := Select(b, region);
    SelectPermutation(a, b, region);
    assert |sa| == |multiset(sa)| == |multiset(sb)| == |sb|;
    if |sa| > 0 {
      ProjectPermutation(sa, sb, Latency);
      ProjectPermutation(sa, sb, Uptime);
      MeanPermutation(Project(sa, Latency), Project(sb, Latency));
      MeanPermutation(Project(sa, Uptime), Project(sb, Uptime));
      Percentile95OrderIndependent(Project(sa, Latency), Project(sb, Latency));
      CountAbovePermutation(Project(sa, Latency), Project(sb, Latency), threshold);
    }
  }

  /** The whole response does not depend on the order of the dataset. */
  lemma MetricsOrderIndependent(a: seq<Record>, b: seq<Record>, regions: seq<string>, threshold: real)
    requires multiset(a) == multiset(b)
    ensures Metrics(a, regions, threshold) == Metrics(b, regions, threshold)
  {
    var ma := Metrics(a, regions, threshold);
    var mb := Metrics(b, regions, threshold);
    forall g | g in ma
      ensures ma[g] == mb[g]
    {
      RegionStatsOrderIndependent(a, b, g, threshold);
    }
    SameEntries(ma, mb);
  }

  /** A region with exactly two records, latencies `x` and `y` and uptimes
      `u` and `v`: the means are the midpoints, the rank is 19/20 so the
      percentile lies 19/20 of the way from the smaller latency to the
      larger, and each latency above the threshold is one breach. */
  lemma TwoRecordRegion(g: string, x: real, y: real, u: real, v: real, threshold: real)
    ensures var m := Metrics([Record(Some(g), Some(x), Some(u)), Record(Some(g), Some(y), Some(v))], [g], threshold);
            m.Keys == {g} && TwoRecordStats(m[g], x, y, u, v, threshold)
  {
    var records := [Record(Some(g), Some(x), Some(u)), Record(Some(g), Some(y), Some(v))];
    SingleRegionQuery(records, g, threshold);
    TwoRegionStats(g, x, y, u, v, threshold);
    var m := map[g := RegionStats(records, g, threshold)];
    assert m.Keys == {g};
  }

  /** The expected summary of two latencies `x`, `y` and uptimes `u`, `v`. */
  ghost predicate TwoRecordStats(s: Stats, x: real, y: real, u: real, v: real, threshold: real) {
    var lo := if x <= y then x else y;
    var hi := if x <= y then y else x;
    && s.avgLatency.Some? && s.avgLatency.value == (x + y) / 2.0
    && s.p95Latency.Some? && s.p95Latency.value == lo + (hi - lo) * (19.0 / 20.0)
    && s.avgUptime.Some? && s.avgUptime.value == (u + v) / 2.0
    && s.breaches == (if x > threshold then 1 else 0) + (if y > threshold then 1 else 0)
  }

  /** The summary of a region holding exactly two records. */
  lemma TwoRegionStats(g: string, x: real, y: real, u: real, v: real, threshold: real)
    ensures TwoRecordStats(RegionStats([Record(Some(g), Some(x), Some(u)), Record(Some(g), Some(y), Some(v))], g, threshold),
                           x, y, u, v, threshold)
  {
    var r1 := Record(Some(g), Some(x), Some(u));
    var r2 := Record(Some(g), Some(y), Some(v));
    TwoSelect(r1, r2, g);
    TwoProject(r1, r2);
    var lat := Project(Select([r1, r2], g), Latency);
    var up := Project(Select([r1, r2], g), Uptime);
    assert Latency(r1) == x && Latency(r2) == y;
    assert Uptime(r1) == u && Uptime(r2) == v;
    assert lat == [x, y];
    assert up == [u, v];
    assert RegionStats([r1, r2], g, threshold) ==
           Stats(Some(Mean(lat)), Some(Percentile95(lat)), Some(Mean(up)), CountAbove(lat, threshold));
    TwoMean(x, y);
    TwoMean(u, v);
    TwoPercentile(x, y);
    TwoCount(x, y, threshold);
  }

  /** Querying one region gives a one-entry map. */
  lemma SingleRegionQuery(records: seq<Record>, g: string, threshold: real)
    ensures Metrics(records, [g], threshold) == map[g := RegionStats(records, g, threshold)]
  {
    assert [g][..0] == [];
  }

  /** The latencies and uptimes of two records. */
  lemma TwoProject(r1: Record, r2: Record)
    ensures Project([r1, r2], Latency) == [Latency(r1), Latency(r2)]
    ensures Project([r1, r2], Uptime) == [Uptime(r1), Uptime(r2)]
  {
  }

  /** Both records of the region are selected, in order. */
  lemma TwoSelect(r1: Record, r2: Record, g: string)
    requires r1.region == Some(g) && r2.region == Some(g)
    ensures Select([r1, r2], g) == [r1, r2]
  {
    assert [r1, r2][..1] == [r1];
    assert [r1][..0] == [];
    assert Select([r1], g) == [r1];
  }

  /** The mean of two values is their midpoint. */
  lemma TwoMean(x: real, y: real)
    ensures Mean([x, y]) == (x + y) / 2.0
  {
    assert [x, y][..1] == [x];
    assert [x][..0] == [];
    assert Sum([x]) == x;
    assert Sum([x, y]) == x + y;
  }

  /** For two values the rank is 19/20, between the smaller and the larger. */
  lemma TwoPercentile(x: real, y: real)
    ensures var lo := if x <= y then x else y;
            var hi := if x <= y then y else x;
            Percentile95([x, y]) == lo + (hi - lo) * (19.0 / 20.0)
  {
    assert [x, y][1..] == [y];
    assert [y][1..] == [];
    assert Sort([y]) == [y];
    var sorted := if x <= y then [x, y] else [y, x];
    if x <= y {
      assert Insert(x, [y]) == [x, y];
    } else {
      assert Insert(x, []) == [x];
      assert Insert(x, [y]) == [y, x];
    }
    assert Sort([x, y]) == sorted;
    TwoInterpolate(sorted);
  }

  /** Interpolation on a sorted pair: floor rank 0, ceiling rank 1, weight 19/20. */
  lemma TwoInterpolate(vals: seq<real>)
    requires |vals| == 2 && vals[0] <= vals[1]
    ensures Sorted(vals)
    ensures Interpolate(vals) == vals[0] + (vals[1] - vals[0]) * (19.0 / 20.0)
  {
    RankIndices(2);
    assert Rank(2) == 19.0 / 20.0;
    assert FloorRank(2) == 0 && CeilRank(2) == 1;
  }

  /** Each of two values above the threshold counts once. */
  lemma TwoCount(x: real, y: real, threshold: real)
    ensures CountAbove([x, y], threshold) == (if x > threshold then 1 else 0) + (if y > threshold then 1 else 0)
  {
    assert [x, y][..1] == [x];
    assert [x][..0] == [];
  }

  /** The worked example: two records of region "a" with latencies 100 and
      200 and uptimes 99 and 100, threshold 150, give mean latency 150,
      percentile 100 + 100 * 0.95 = 195, mean uptime 99.5 and one breach. */
  lemma TwoRecordExample()
    ensures var m := Metrics([Record(Some("a"), Some(100.0), Some(99.0)),
                              Record(Some("a"), Some(200.0), Some(100.0))], ["a"], 150.0);
            && m.Keys == {"a"}
            && m["a"].avgLatency == Some(150.0)
            && m["a"].p95Latency == Some(195.0)
            && m["a"].avgUptime == Some(99.5)
            && m["a"].breaches == 1
  {
    TwoRecordRegion("a", 100.0, 200.0, 99.0, 100.0, 150.0);
  }
}
