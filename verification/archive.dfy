/** The archive page: the periods found among the archived records, the
    team and individual results and statistics of one period, and the
    summary across all periods. */
module ArchiveResults {
  import opened Wrappers
  import opened Loading
  import opened Distinct
  import opened StringOrder
  import opened Aggregate
  import opened Ranking
  import opened Statistics

  /** Some record carries period label p. */
  predicate HasPeriod(rs: seq<Record>, p: string) {
    exists j :: 0 <= j < |rs| && rs[j].period == Some(p)
  }

  /** The period labels of the records, in order, repeats included. */
  function PeriodLabels(rs: seq<Record>): (ps: seq<string>)
    ensures |ps| <= |rs|
    ensures forall p :: p in ps <==> HasPeriod(rs, p)
  {
    if |rs| == 0 then []
    else
      var init := rs[..|rs| - 1];
      var last := rs[|rs| - 1];
      var done := PeriodLabels(init);
      assert forall j :: 0 <= j < |init| ==> init[j] == rs[j];
      assert forall p :: HasPeriod(init, p) ==> HasPeriod(rs, p);
      if last.period.Some? then done + [last.period.value] else done
  }

  /** A strictly descending list repeats no label. */
  lemma DescendingNoDup(s: seq<string>)
    requires StrictlyDescending(s)
    ensures NoDup(s)
  {
    forall i, j | 0 <= i < j < |s|
      ensures s[i] != s[j]
    {
      if s[i] == s[j] {
        BelowIrreflexive(s[i]);
      }
    }
  }

  /** `get_available_periods` (lines 37-41): the distinct period labels,
      most recent first; none when there are no records or no Period
      column. */
  function AvailablePeriods(hasPeriod: bool, rs: seq<Record>): (ps: seq<string>)
    ensures StrictlyDescending(ps)
    ensures NoDup(ps)
    ensures forall p :: p in ps <==> hasPeriod && HasPeriod(rs, p)
    ensures |ps| <= |rs|
  {
    if !hasPeriod || |rs| == 0 then []
    else
      var ps := SortDescending(Dedup(PeriodLabels(rs)));
      DescendingNoDup(ps);
      ps
  }

  /** The records of one period, in order (lines 195, 233): each record of
      the period as often as it occurs, and no other. */
  function PeriodSlice(rs: seq<Record>, p: string): (r: seq<Record>)
    ensures |r| <= |rs|
    ensures forall rec :: rec in r <==> rec in rs && rec.period == Some(p)
    ensures forall rec :: multiset(r)[rec] == if rec.period == Some(p) then multiset(rs)[rec] else 0
  {
    if |rs| == 0 then []
    else
      var init := rs[..|rs| - 1];
      var last := rs[|rs| - 1];
      assert forall x :: x in rs <==> x in init || x == last by {
        assert rs == init + [last];
      }
      assert multiset(rs) == multiset(init) + multiset{last} by {
        assert rs == init + [last];
      }
      var r := PeriodSlice(init, p);
      if last.period == Some(p) then r + [last] else r
  }

  /** A period's slice is empty exactly when no record carries it. */
  lemma SliceEmpty(rs: seq<Record>, p: string)
    ensures |PeriodSlice(rs, p)| == 0 <==> !HasPeriod(rs, p)
  {
    if HasPeriod(rs, p) {
      var j :| 0 <= j < |rs| && rs[j].period == Some(p);
      assert rs[j] in PeriodSlice(rs, p);
    }
  }

  /** `display_team_results` (lines 45-67): the warning for an empty
      period, otherwise the period's teams ranked by summed distance. */
  function TeamResults(slice: seq<Record>): (r: Option<seq<Placed<string>>>)
    ensures r.None? <==> |slice| == 0
    ensures r.Some? ==> RankedTable(r.value, slice, TeamKey) && PlacedTotal(r.value) == SumDistance(slice)
  {
    if |slice| == 0 then None else Some(Ranked(slice, TeamKey))
  }

  /** `display_individual_results` (lines 107-128): nothing for an empty
      period, otherwise its (runner, team) pairs ranked by summed
      distance. */
  function IndividualResults(slice: seq<Record>): (r: Option<seq<Placed<(string, string)>>>)
    ensures r.None? <==> |slice| == 0
    ensures r.Some? ==> RankedTable(r.value, slice, RunnerTeamKey) && PlacedTotal(r.value) == SumDistance(slice)
  {
    if |slice| == 0 then None else Some(Ranked(slice, RunnerTeamKey))
  }

  /** The top-performers chart (line 147): the first ten individual
      results. */
  /** r is a prefix of all of at most ten rows, and all ten when all has
      that many. */
  predicate TopOf<T(==)>(r: seq<T>, all: seq<T>) {
    |r| == (if |all| < 10 then |all| else 10) && r == all[..|r|]
  }

  function TopPerformers(slice: seq<Record>): (r: seq<Placed<(string, string)>>)
    ensures |r| <= 10
    ensures |slice| == 0 ==> r == []
    ensures |slice| > 0 ==> TopOf(r, IndividualResults(slice).value)
  {
    if |slice| == 0 then []
    else
      var all := IndividualResults(slice).value;
      Head(all, 10)
  }

  /** The chart shows a prefix of at most ten individual results, never
      empty for a period with records, and no pair left out of it ran
      further than a pair shown. */
  lemma TopPerformersPrefix(slice: seq<Record>)
    requires |slice| > 0
    ensures var all := IndividualResults(slice).value;
            && |TopPerformers(slice)| == (if |all| < 10 then |all| else 10)
            && TopPerformers(slice) == all[..|TopPerformers(slice)|]
            && 0 < |TopPerformers(slice)|
            && forall i, j :: 0 <= i < |TopPerformers(slice)| <= j < |all| ==>
                 TopPerformers(slice)[i].total >= all[j].total
  {
    var all := IndividualResults(slice).value;
    RankedTableEmpty(all, slice, RunnerTeamKey);
    HeadDominates(all, slice, RunnerTeamKey, 10);
  }

  /** What the page shows for the selected period. */
  datatype PeriodView = PeriodView(entries: nat, teams: Option<seq<Placed<string>>>,
                                   individuals: Option<seq<Placed<(string, string)>>>, stats: Option<Stats>)

  /** The selected period (lines 193-224): nothing when the label is empty,
      which Python reads as false; otherwise the period's team and
      individual tables and its statistics, present exactly when some
      record carries the label and computed from exactly its records. */
  function SelectPeriod(rs: seq<Record>, p: string): (v: Option<PeriodView>)
    ensures v.None? <==> p == ""
    ensures v.Some? ==> v.value.entries == |PeriodSlice(rs, p)|
    ensures v.Some? ==> (v.value.teams.Some? <==> HasPeriod(rs, p))
    ensures v.Some? ==> (v.value.individuals.Some? <==> HasPeriod(rs, p))
    ensures v.Some? && v.value.teams.Some? ==>
              RankedTable(v.value.teams.value, PeriodSlice(rs, p), TeamKey)
    ensures v.Some? && v.value.individuals.Some? ==>
              RankedTable(v.value.individuals.value, PeriodSlice(rs, p), RunnerTeamKey)
    ensures v.Some? ==> v.value.stats == Summarize(PeriodSlice(rs, p))
    ensures v.Some? && v.value.stats.Some? ==>
              v.value.stats.value.totalDistance == SumDistance(PeriodSlice(rs, p))
  {
    if p == "" then None
    else
      var slice := PeriodSlice(rs, p);
      SliceEmpty(rs, p);
      Some(PeriodView(|slice|, TeamResults(slice), IndividualResults(slice), Summarize(slice)))
  }

  /** One row of the summary across periods. Distances in hundredths of a
      kilometre; the mean is exact. */
  datatype PeriodSummary = PeriodSummary(period: string, teams: nat, participants: nat, runs: nat,
                                         totalDistance: int, meanDistance: real)

  /** At least one and at most one team per record. */
  lemma TeamCount(rs: seq<Record>)
    requires |rs| > 0
    ensures |Dedup(KeysOf(rs, TeamKey))| == |DistinctTeams(rs)|
    ensures 1 <= |DistinctTeams(rs)| <= |rs|
  {
    var f := TeamKey;
    CountDistinct(rs, f);
    var a := set i | 0 <= i < |rs| :: f(rs[i]);
    forall x | x in a
      ensures x in DistinctTeams(rs)
    {
      var i :| 0 <= i < |rs| && f(rs[i]) == x;
    }
    assert a == DistinctTeams(rs);
    assert rs[0].team in DistinctTeams(rs);
  }

  /** The summary row of a non-empty slice (lines 235-242). */
  function SummaryRow(p: string, slice: seq<Record>): (row: PeriodSummary)
    requires |slice| > 0
    ensures row.period == p && row.runs == |slice| && row.totalDistance == SumDistance(slice)
    ensures row.teams == |DistinctTeams(slice)| && row.participants == |DistinctRunners(slice)|
    ensures 1 <= row.teams <= row.runs && 1 <= row.participants <= row.runs
    ensures IsMean(row.meanDistance, row.totalDistance, row.runs)
  {
    var stats := Summarize(slice).value;
    TeamCount(slice);
    PeriodSummary(p, |Dedup(KeysOf(slice, TeamKey))|, stats.activeRunners, stats.runs,
                  stats.totalDistance, stats.meanDistance)
  }

  /** A summary row states the figures of its period's slice: as many runs
      as records, at least one, the slice's total and mean distance, and
      its distinct teams and runners, each no more than the runs. */
  predicate Summarizes(row: PeriodSummary, rs: seq<Record>) {
    var slice := PeriodSlice(rs, row.period);
    && row.runs == |slice| && row.runs > 0
    && row.totalDistance == SumDistance(slice)
    && IsMean(row.meanDistance, row.totalDistance, row.runs)
    && row.teams == |DistinctTeams(slice)| && row.participants == |DistinctRunners(slice)|
    && 1 <= row.teams <= row.runs && 1 <= row.participants <= row.runs
  }

  lemma RowSummarizes(p: string, rs: seq<Record>)
    requires |PeriodSlice(rs, p)| > 0
    ensures Summarizes(SummaryRow(p, PeriodSlice(rs, p)), rs)
  {
    var slice := PeriodSlice(rs, p);
    var row := SummaryRow(p, slice);
    assert row.period == p;
    assert PeriodSlice(rs, row.period) == slice;
  }

  /** The periods the summary rows are for, in order. */
  function SummaryPeriods(rows: seq<PeriodSummary>): (ps: seq<string>)
    ensures |ps| == |rows|
    ensures forall i :: 0 <= i < |rows| ==> ps[i] == rows[i].period
  {
    seq(|rows|, i requires 0 <= i < |rows| => rows[i].period)
  }

  /** The summary loop (lines 231-242): one row per listed period whose
      slice is not empty, in the order of the list; a period without
      records gets no row. */
  function Summary(rs: seq<Record>, periods: seq<string>): (rows: seq<PeriodSummary>)
    ensures |rows| <= |periods|
    ensures forall p :: p in SummaryPeriods(rows) <==> p in periods && HasPeriod(rs, p)
  {
    if |periods| == 0 then []
    else
      var init := periods[..|periods| - 1];
      var p := periods[|periods| - 1];
      assert periods == init + [p];
      var done := Summary(rs, init);
      var slice := PeriodSlice(rs, p);
      SliceEmpty(rs, p);
      if |slice| == 0 then done
      else
        var row := SummaryRow(p, slice);
        AppendRow(rs, init, p, done, row);
        done + [row]
  }

  /** Every summary row states the figures of its period's slice. */
  lemma {:induction false} SummaryRowsSummarize(rs: seq<Record>, periods: seq<string>)
    ensures forall i :: 0 <= i < |Summary(rs, periods)| ==> Summarizes(Summary(rs, periods)[i], rs)
  {
    if |periods| > 0 {
      var init := periods[..|periods| - 1];
      var p := periods[|periods| - 1];
      SummaryRowsSummarize(rs, init);
      if |PeriodSlice(rs, p)| > 0 {
        RowSummarizes(p, rs);
        AllSummarize(rs, Summary(rs, init), SummaryRow(p, PeriodSlice(rs, p)));
      }
    }
  }

  lemma AllSummarize(rs: seq<Record>, done: seq<PeriodSummary>, row: PeriodSummary)
    requires forall i :: 0 <= i < |done| ==> Summarizes(done[i], rs)
    requires Summarizes(row, rs)
    ensures forall i :: 0 <= i < |done + [row]| ==> Summarizes((done + [row])[i], rs)
  {
    var rows := done + [row];
    assert forall i :: 0 <= i < |done| ==> rows[i] == done[i];
  }

  lemma AppendRow(rs: seq<Record>, init: seq<string>, p: string, done: seq<PeriodSummary>, row: PeriodSummary)
    requires forall q :: q in SummaryPeriods(done) <==> q in init && HasPeriod(rs, q)
    requires row.period == p && HasPeriod(rs, p)
    ensures forall q :: q in SummaryPeriods(done + [row]) <==> q in init + [p] && HasPeriod(rs, q)
  {
    SummaryPeriodsAppend(done, row);
  }

  /** One more listed period adds its row exactly when it has records. */
  lemma SummarySnoc(rs: seq<Record>, init: seq<string>, p: string)
    ensures Summary(rs, init + [p]) ==
              if |PeriodSlice(rs, p)| > 0 then Summary(rs, init) + [SummaryRow(p, PeriodSlice(rs, p))]
              else Summary(rs, init)
  {
    var periods := init + [p];
    assert periods[..|periods| - 1] == init;
    assert periods[|periods| - 1] == p;
  }

  lemma SummaryPeriodsSnoc(rs: seq<Record>, init: seq<string>, p: string)
    ensures SummaryPeriods(Summary(rs, init + [p])) ==
              SummaryPeriods(Summary(rs, init)) + (if HasPeriod(rs, p) then [p] else [])
  {
    SummarySnoc(rs, init, p);
    SliceEmpty(rs, p);
    var done := Summary(rs, init);
    if HasPeriod(rs, p) {
      SummaryPeriodsAppend(done, SummaryRow(p, PeriodSlice(rs, p)));
    }
  }

  lemma SummaryPeriodsAppend(rows: seq<PeriodSummary>, row: PeriodSummary)
    ensures SummaryPeriods(rows + [row]) == SummaryPeriods(rows) + [row.period]
  {
  }

  /** Appending a label below all earlier ones keeps a list descending. */
  lemma DescendingSnoc(s: seq<string>, p: string)
    requires StrictlyDescending(s)
    requires forall i :: 0 <= i < |s| ==> Below(p, s[i])
    ensures StrictlyDescending(s + [p])
  {
  }

  /** In a descending list, the last label is below every other. */
  lemma LastBelow(init: seq<string>, p: string, x: string)
    requires StrictlyDescending(init + [p]) && x in init
    ensures Below(p, x)
  {
    var k :| 0 <= k < |init| && init[k] == x;
    assert (init + [p])[k] == x && (init + [p])[|init|] == p;
  }

  /** Listed in descending order, the periods keep that order in the
      summary. */
  lemma {:induction false} SummaryOrder(rs: seq<Record>, periods: seq<string>)
    requires StrictlyDescending(periods)
    ensures StrictlyDescending(SummaryPeriods(Summary(rs, periods)))
  {
    if |periods| > 0 {
      var init := periods[..|periods| - 1];
      var p := periods[|periods| - 1];
      assert periods == init + [p];
      SummaryOrder(rs, init);
      SummaryPeriodsSnoc(rs, init, p);
      var done := SummaryPeriods(Summary(rs, init));
      if HasPeriod(rs, p) {
        forall i | 0 <= i < |done|
          ensures Below(p, done[i])
        {
          assert done[i] in SummaryPeriods(Summary(rs, init));
          LastBelow(init, p, done[i]);
        }
        DescendingSnoc(done, p);
      }
    }
  }

  /** Every listed period that some record carries gets its row: the
      summary skips nothing else. */
  lemma {:induction false} SummaryKeepsAll(rs: seq<Record>, periods: seq<string>)
    requires forall i :: 0 <= i < |periods| ==> HasPeriod(rs, periods[i])
    ensures SummaryPeriods(Summary(rs, periods)) == periods
  {
    if |periods| > 0 {
      var init := periods[..|periods| - 1];
      var p := periods[|periods| - 1];
      assert periods == init + [p];
      SummaryKeepsAll(rs, init);
      SummaryPeriodsSnoc(rs, init, p);
    }
  }

  /** The summary over the available periods (lines 231-242) has one row
      per period, most recent first. */
  lemma SummaryOfAvailable(hasPeriod: bool, rs: seq<Record>)
    ensures SummaryPeriods(Summary(rs, AvailablePeriods(hasPeriod, rs))) == AvailablePeriods(hasPeriod, rs)
    ensures StrictlyDescending(SummaryPeriods(Summary(rs, AvailablePeriods(hasPeriod, rs))))
  {
    var ps := AvailablePeriods(hasPeriod, rs);
    assert forall i :: 0 <= i < |ps| ==> HasPeriod(rs, ps[i]) by {
      forall i | 0 <= i < |ps|
        ensures HasPeriod(rs, ps[i])
      {
        assert ps[i] in ps;
      }
    }
    SummaryKeepsAll(rs, ps);
  }

  /** The Total Runs column, added up. */
  function TotalRuns(rows: seq<PeriodSummary>): nat {
    if |rows| == 0 then 0 else TotalRuns(rows[..|rows| - 1]) + rows[|rows| - 1].runs
  }

  /** The Total Distance column, added up. */
  function TotalDistance(rows: seq<PeriodSummary>): int {
    if |rows| == 0 then 0 else TotalDistance(rows[..|rows| - 1]) + rows[|rows| - 1].totalDistance
  }

  /** The records and the distance of the slices of the listed periods. */
  function SlicesRuns(rs: seq<Record>, periods: seq<string>): nat {
    if |periods| == 0 then 0
    else SlicesRuns(rs, periods[..|periods| - 1]) + |PeriodSlice(rs, periods[|periods| - 1])|
  }

  function SlicesDistance(rs: seq<Record>, periods: seq<string>): int {
    if |periods| == 0 then 0
    else SlicesDistance(rs, periods[..|periods| - 1]) + SumDistance(PeriodSlice(rs, periods[|periods| - 1]))
  }

  /** How many of the listed periods record x belongs to. */
  function Hits(periods: seq<string>, x: Record): nat {
    if |periods| == 0 then 0
    else Hits(periods[..|periods| - 1], x) + (if x.period == Some(periods[|periods| - 1]) then 1 else 0)
  }

  /** The distance record x adds to the slices of the listed periods. */
  function HitDistance(periods: seq<string>, x: Record): int {
    if |periods| == 0 then 0
    else HitDistance(periods[..|periods| - 1], x) + (if x.period == Some(periods[|periods| - 1]) then x.distance else 0)
  }

  lemma TotalsSnoc(rows: seq<PeriodSummary>, row: PeriodSummary)
    ensures TotalRuns(rows + [row]) == TotalRuns(rows) + row.runs
    ensures TotalDistance(rows + [row]) == TotalDistance(rows) + row.totalDistance
  {
    assert (rows + [row])[..|rows|] == rows;
  }

  lemma {:induction false} SummaryTotals(rs: seq<Record>, periods: seq<string>)
    ensures TotalRuns(Summary(rs, periods)) == SlicesRuns(rs, periods)
    ensures TotalDistance(Summary(rs, periods)) == SlicesDistance(rs, periods)
  {
    if |periods| > 0 {
      SummaryTotals(rs, periods[..|periods| - 1]);
      SummaryTotalsNext(rs, periods);
    }
  }

  lemma SummaryTotalsNext(rs: seq<Record>, periods: seq<string>)
    requires |periods| > 0
    ensures var init, p := periods[..|periods| - 1], periods[|periods| - 1];
            && TotalRuns(Summary(rs, periods)) == TotalRuns(Summary(rs, init)) + |PeriodSlice(rs, p)|
            && TotalDistance(Summary(rs, periods)) == TotalDistance(Summary(rs, init)) + SumDistance(PeriodSlice(rs, p))
  {
    var init, p := periods[..|periods| - 1], periods[|periods| - 1];
    var slice := PeriodSlice(rs, p);
    if |slice| > 0 {
      TotalsSnoc(Summary(rs, init), SummaryRow(p, slice));
    }
  }

  lemma {:induction false} SlicesSnoc(rs: seq<Record>, x: Record, periods: seq<string>)
    ensures SlicesRuns(rs + [x], periods) == SlicesRuns(rs, periods) + Hits(periods, x)
    ensures SlicesDistance(rs + [x], periods) == SlicesDistance(rs, periods) + HitDistance(periods, x)
  {
    if |periods| > 0 {
      var init := periods[..|periods| - 1];
      var p := periods[|periods| - 1];
      SlicesSnoc(rs, x, init);
      assert (rs + [x])[..|rs|] == rs;
      var slice := PeriodSlice(rs, p);
      if x.period == Some(p) {
        assert PeriodSlice(rs + [x], p) == slice + [x];
        assert (slice + [x])[..|slice|] == slice;
      } else {
        assert PeriodSlice(rs + [x], p) == slice;
      }
    }
  }

  lemma {:induction false} HitsAbsent(periods: seq<string>, x: Record)
    requires forall i :: 0 <= i < |periods| ==> x.period != Some(periods[i])
    ensures Hits(periods, x) == 0 && HitDistance(periods, x) == 0
  {
    if |periods| > 0 {
      HitsAbsent(periods[..|periods| - 1], x);
    }
  }

  /** A record whose period is listed once belongs to exactly one of the
      listed periods. */
  lemma {:induction false} HitsOnce(periods: seq<string>, x: Record)
    requires NoDup(periods) && x.period.Some? && x.period.value in periods
    ensures Hits(periods, x) == 1 && HitDistance(periods, x) == x.distance
  {
    var init := periods[..|periods| - 1];
    var p := periods[|periods| - 1];
    assert periods == init + [p];
    if x.period == Some(p) {
      HitsAbsent(init, x);
    } else {
      HitsOnce(init, x);
    }
  }

  lemma {:induction false} SlicesCover(rs: seq<Record>, periods: seq<string>)
    requires NoDup(periods)
    requires forall j :: 0 <= j < |rs| ==> rs[j].period.Some? && rs[j].period.value in periods
    ensures SlicesRuns(rs, periods) == |rs|
    ensures SlicesDistance(rs, periods) == SumDistance(rs)
  {
    if |rs| == 0 {
      SlicesEmpty(periods);
    } else {
      var init := rs[..|rs| - 1];
      var x := rs[|rs| - 1];
      assert rs == init + [x];
      SlicesCover(init, periods);
      SlicesSnoc(init, x, periods);
      HitsOnce(periods, x);
    }
  }

  lemma {:induction false} SlicesEmpty(periods: seq<string>)
    ensures SlicesRuns([], periods) == 0 && SlicesDistance([], periods) == 0
  {
    if |periods| > 0 {
      SlicesEmpty(periods[..|periods| - 1]);
    }
  }

  /** Conservation across periods: when every archived record carries a
      period, the summary over the available periods accounts for every
      record and every kilometre exactly once. */
  lemma SummaryConservation(rs: seq<Record>)
    requires forall j :: 0 <= j < |rs| ==> rs[j].period.Some?
    ensures TotalRuns(Summary(rs, AvailablePeriods(true, rs))) == |rs|
    ensures TotalDistance(Summary(rs, AvailablePeriods(true, rs))) == SumDistance(rs)
  {
    var ps := AvailablePeriods(true, rs);
    forall j | 0 <= j < |rs|
      ensures rs[j].period.value in ps
    {
      assert HasPeriod(rs, rs[j].period.value);
    }
    SlicesCover(rs, ps);
    SummaryTotals(rs, ps);
  }

  /** What the page knows before a period is picked. */
  datatype Overview = Overview(entries: nat, periods: seq<string>)

  /** The page's entry (lines 168-183): nothing but a warning when no
      archived record survives loading or no period is found; otherwise
      the number of archived records and the periods to pick from, most
      recent first. Every period has records, and the summary over them
      has one row per period and accounts for every archived record and
      every kilometre. */
  function ArchiveOverview(sheet: Sheet): (v: Option<Overview>)
    ensures v.None? <==> |Load(ArchivePage, sheet)| == 0 || !sheet.hasPeriod
    ensures v.Some? ==>
              && v.value.entries == |Load(ArchivePage, sheet)|
              && 1 <= |v.value.periods| <= v.value.entries
              && StrictlyDescending(v.value.periods)
              && (forall i :: 0 <= i < |v.value.periods| ==> |PeriodSlice(Load(ArchivePage, sheet), v.value.periods[i])| > 0)
    ensures v.Some? ==>
              var rows := Summary(Load(ArchivePage, sheet), v.value.periods);
              && SummaryPeriods(rows) == v.value.periods
              && TotalRuns(rows) == v.value.entries
              && TotalDistance(rows) == SumDistance(Load(ArchivePage, sheet))
  {
    var rs := Load(ArchivePage, sheet);
    if |rs| == 0 || !sheet.hasPeriod then None
    else
      var ps := AvailablePeriods(true, rs);
      assert rs[0].period.Some?;
      assert HasPeriod(rs, rs[0].period.value);
      assert rs[0].period.value in ps;
      forall i | 0 <= i < |ps|
        ensures |PeriodSlice(rs, ps[i])| > 0
      {
        assert ps[i] in ps;
        SliceEmpty(rs, ps[i]);
      }
      SummaryOfAvailable(true, rs);
      SummaryConservation(rs);
      Some(Overview(|rs|, ps))
  }
}
