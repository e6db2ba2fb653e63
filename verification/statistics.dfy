/** The headline figures both pages show for a set of records: total
    distance, number of runs, average distance and active runners
    (`display_statistics_2x2` and the archive page's period tab). */
module Statistics {
  import opened Wrappers
  import opened Loading
  import opened Distinct
  import opened Aggregate

  /** Distances in hundredths of a kilometre; the mean is exact. */
  datatype Stats = Stats(totalDistance: int, runs: nat, meanDistance: real, activeRunners: nat)

  /** mean is the average of count values summing to total. */
  predicate IsMean(mean: real, total: int, count: nat) {
    count > 0 && mean * (count as real) == total as real
  }

  /** `None` is the "no data" warning shown for an empty table. */
  function Summarize(rs: seq<Record>): (r: Option<Stats>)
    ensures r.None? <==> |rs| == 0
    ensures r.Some? ==>
      && r.value.runs == |rs|
      && r.value.totalDistance == SumDistance(rs)
      && IsMean(r.value.meanDistance, SumDistance(rs), |rs|)
      && r.value.activeRunners == |DistinctRunners(rs)|
      && 1 <= r.value.activeRunners <= r.value.runs
  {
    if |rs| == 0 then None
    else
      var active := |Dedup(KeysOf(rs, RunnerKey))|;
      ActiveRunnersCount(rs);
      assert rs[0].runner in DistinctRunners(rs);
      Some(Stats(SumDistance(rs), |rs|, SumDistance(rs) as real / |rs| as real, active))
  }

  lemma ActiveRunnersCount(rs: seq<Record>)
    ensures |Dedup(KeysOf(rs, RunnerKey))| == |DistinctRunners(rs)|
  {
    var f := RunnerKey;
    CountDistinct(rs, f);
    var a := set i | 0 <= i < |rs| :: f(rs[i]);
    forall x | x in a
      ensures x in DistinctRunners(rs)
    {
      var i :| 0 <= i < |rs| && f(rs[i]) == x;
    }
    forall x | x in DistinctRunners(rs)
      ensures x in a
    {
      var i :| 0 <= i < |rs| && rs[i].runner == x;
      assert f(rs[i]) == x;
    }
    assert a == DistinctRunners(rs);
  }
}
