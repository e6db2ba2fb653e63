/** The current leaderboard page: the headline statistics, the team table
    with each team's runners underneath, the per-team contribution table and
    the individual table and chart, all computed from the current records. */
module CurrentLeaderboard {
  import opened Wrappers
  import opened Loading
  import opened Distinct
  import opened Aggregate
  import opened Ranking
  import opened Roster
  import opened Statistics

  /** A row of the team table: the ranked team and the runners listed
      under its name. */
  datatype TeamRow = TeamRow(place: Placed<string>, members: seq<string>)

  /** The ranked part of the team table. */
  function Places(board: seq<TeamRow>): (p: seq<Placed<string>>)
    ensures |p| == |board|
    ensures forall i :: 0 <= i < |board| ==> p[i] == board[i].place
  {
    seq(|board|, i requires 0 <= i < |board| => board[i].place)
  }

  /** Some record puts runner u on team t. */
  predicate Paired(rs: seq<Record>, t: string, u: string) {
    exists j :: 0 <= j < |rs| && rs[j].team == t && rs[j].runner == u
  }

  /** The runners the roster lists under a team of the records: each once,
      at least one, and exactly those some record pairs with the team. */
  lemma TeamMembers(rs: seq<Record>, t: string)
    requires t in KeysOf(rs, TeamKey)
    ensures NoDup(MembersOf(BuildRoster(rs), t))
    ensures |MembersOf(BuildRoster(rs), t)| > 0
    ensures forall u :: u in MembersOf(BuildRoster(rs), t) <==> Paired(rs, t, u)
  {
    var us := RunnersOn(rs, t);
    var ms := MembersOf(BuildRoster(rs), t);
    assert ms == Dedup(us);
    forall u
      ensures u in ms <==> Paired(rs, t, u)
    {
      assert u in ms <==> u in us;
    }
    var j :| 0 <= j < |rs| && KeysOf(rs, TeamKey)[j] == t;
    assert Paired(rs, t, rs[j].runner);
    assert rs[j].runner in ms;
  }

  /** Each ranked team with the runners the roster lists under it. */
  function TeamRows(p: seq<Placed<string>>, roster: seq<Members>): (board: seq<TeamRow>)
    ensures Places(board) == p
    ensures forall i :: 0 <= i < |board| ==> board[i].members == MembersOf(roster, p[i].key)
  {
    var board := seq(|p|, i requires 0 <= i < |p| => TeamRow(p[i], MembersOf(roster, p[i].key)));
    assert Places(board) == p;
    board
  }

  /** Every team of the records gets its runners listed under it. */
  lemma TeamRowsMembers(rs: seq<Record>, p: seq<Placed<string>>)
    requires forall i :: 0 <= i < |p| ==> p[i].key in KeysOf(rs, TeamKey)
    ensures forall i :: 0 <= i < |TeamRows(p, BuildRoster(rs))| ==>
              NoDup(TeamRows(p, BuildRoster(rs))[i].members) && |TeamRows(p, BuildRoster(rs))[i].members| > 0
    ensures forall i, u :: 0 <= i < |TeamRows(p, BuildRoster(rs))| ==>
              (u in TeamRows(p, BuildRoster(rs))[i].members <==> Paired(rs, TeamRows(p, BuildRoster(rs))[i].place.key, u))
  {
    var board := TeamRows(p, BuildRoster(rs));
    forall i | 0 <= i < |board|
      ensures NoDup(board[i].members) && |board[i].members| > 0
      ensures forall u :: u in board[i].members <==> Paired(rs, board[i].place.key, u)
    {
      assert board[i].place == p[i];
      TeamMembers(rs, p[i].key);
    }
  }

  /** The team table (lines 136-174): teams ranked by summed distance, each
      with the runners the scan recorded for it, in order of first
      occurrence. */
  function TeamBoard(rs: seq<Record>): (board: seq<TeamRow>)
    ensures RankedTable(Places(board), rs, TeamKey)
    ensures PlacedTotal(Places(board)) == SumDistance(rs)
    ensures forall i :: 0 <= i < |board| ==> board[i].members == Dedup(RunnersOn(rs, board[i].place.key))
    ensures forall i :: 0 <= i < |board| ==> NoDup(board[i].members) && |board[i].members| > 0
    ensures forall i, u :: 0 <= i < |board| ==>
              (u in board[i].members <==> Paired(rs, board[i].place.key, u))
  {
    var p := Ranked(rs, TeamKey);
    TeamRowsMembers(rs, p);
    TeamRows(p, BuildRoster(rs))
  }

  /** The individual standings (lines 296-307): one row per (runner, team)
      pair, ranked by summed distance. */
  function IndividualStandings(rs: seq<Record>): (p: seq<Placed<(string, string)>>)
    ensures RankedTable(p, rs, RunnerTeamKey)
    ensures PlacedTotal(p) == SumDistance(rs)
  {
    Ranked(rs, RunnerTeamKey)
  }

  /** The individual table shows the first 20 standings (line 313). */
  function IndividualTable(rs: seq<Record>): (t: seq<Placed<(string, string)>>)
    ensures |t| == if |IndividualStandings(rs)| < 20 then |IndividualStandings(rs)| else 20
    ensures t == IndividualStandings(rs)[..|t|]
  {
    Head(IndividualStandings(rs), 20)
  }

  /** The individual chart shows the first 10 standings (line 320). */
  function IndividualChart(rs: seq<Record>): (t: seq<Placed<(string, string)>>)
    ensures |t| == if |IndividualStandings(rs)| < 10 then |IndividualStandings(rs)| else 10
    ensures t == IndividualStandings(rs)[..|t|]
  {
    Head(IndividualStandings(rs), 10)
  }

  /** The table is the first min(20, n) standings and the chart the first
      min(10, n) of those. */
  lemma IndividualTruncation(rs: seq<Record>)
    ensures var n := |IndividualStandings(rs)|;
            |IndividualTable(rs)| == (if n < 20 then n else 20) &&
            |IndividualChart(rs)| == (if n < 10 then n else 10)
    ensures IndividualTable(rs) == IndividualStandings(rs)[..|IndividualTable(rs)|]
    ensures IndividualChart(rs) == IndividualTable(rs)[..|IndividualChart(rs)|]
  {
    HeadOfHead(IndividualStandings(rs), 10, 20);
  }

  /** Truncation comes after ranking: the rows shown keep the ranks and
      labels of the full standings, and no row cut off ran further than a
      row shown. */
  lemma IndividualTableTop(rs: seq<Record>)
    ensures forall i :: 0 <= i < |IndividualTable(rs)| ==>
              IndividualTable(rs)[i].rank == i + 1 && IndividualTable(rs)[i].pos == PositionLabel(i)
    ensures forall i, j :: 0 <= i < |IndividualTable(rs)| <= j < |IndividualStandings(rs)| ==>
              IndividualTable(rs)[i].total >= IndividualStandings(rs)[j].total
  {
    var all := IndividualStandings(rs);
    HeadDominates(all, rs, RunnerTeamKey, 20);
    assert IndividualTable(rs) == Head(all, 20);
  }

  /** The records of one team, in order (line 248): each record of the
      team as often as it occurs, and no other. */
  function OnTeam(rs: seq<Record>, team: string): (r: seq<Record>)
    ensures forall rec :: rec in r <==> rec in rs && rec.team == team
    ensures forall rec :: multiset(r)[rec] == if rec.team == team then multiset(rs)[rec] else 0
    ensures SumDistance(r) == KeySum(rs, TeamKey, team)
  {
    if |rs| == 0 then []
    else
      var init := rs[..|rs| - 1];
      var last := rs[|rs| - 1];
      assert forall x :: x in rs <==> x in init || x == last by {
        assert rs == init + [last];
      }
      assert multiset(rs) == multiset(init) + multiset{last} by {
        assert rs == init + [last];
      }
      var r := OnTeam(init, team);
      if last.team == team then
        assert (r + [last])[..|r|] == r;
        r + [last]
      else r
  }

  /** The contribution table of a team (lines 248-250, 270-271): the
      team's runners ranked by the distance they ran for it. It is empty
      exactly when no record is on the team, and its distances add up to
      the team's total on the team table. */
  function Contributions(rs: seq<Record>, team: string): (p: seq<Placed<string>>)
    ensures RankedTable(p, OnTeam(rs, team), RunnerKey)
    ensures PlacedTotal(p) == KeySum(rs, TeamKey, team)
    ensures |p| == 0 <==> team !in KeysOf(rs, TeamKey)
  {
    var on := OnTeam(rs, team);
    var p := Ranked(on, RunnerKey);
    RankedTableEmpty(p, on, RunnerKey);
    OnTeamEmpty(rs, team);
    p
  }

  lemma OnTeamEmpty(rs: seq<Record>, team: string)
    ensures |OnTeam(rs, team)| == 0 <==> team !in KeysOf(rs, TeamKey)
  {
    var on := OnTeam(rs, team);
    if team in KeysOf(rs, TeamKey) {
      var j :| 0 <= j < |rs| && KeysOf(rs, TeamKey)[j] == team;
      assert rs[j] in on;
    }
  }

  lemma OnTeamRunners(rs: seq<Record>, team: string, u: string)
    ensures u in KeysOf(OnTeam(rs, team), RunnerKey) <==> Paired(rs, team, u)
  {
    var on := OnTeam(rs, team);
    if u in KeysOf(on, RunnerKey) {
      var k :| 0 <= k < |on| && KeysOf(on, RunnerKey)[k] == u;
      assert on[k] in rs;
      var j :| 0 <= j < |rs| && rs[j] == on[k];
      assert rs[j].team == team && rs[j].runner == u;
    }
    if Paired(rs, team, u) {
      var j :| 0 <= j < |rs| && rs[j].team == team && rs[j].runner == u;
      assert rs[j] in on;
      var k :| 0 <= k < |on| && on[k] == rs[j];
      assert KeysOf(on, RunnerKey)[k] == u;
    }
  }

  lemma MembersPaired(rs: seq<Record>, team: string, u: string)
    ensures u in MembersOf(BuildRoster(rs), team) <==> Paired(rs, team, u)
  {
    var us := RunnersOn(rs, team);
    assert MembersOf(BuildRoster(rs), team) == Dedup(us);
    assert u in Dedup(us) <==> u in us;
  }

  /** The contribution table of a team lists exactly the runners the
      roster lists under that team. */
  lemma ContributorsAreMembers(rs: seq<Record>, team: string, u: string)
    ensures Listed(Contributions(rs, team), u) <==> u in MembersOf(BuildRoster(rs), team)
  {
    ListedKeys(Contributions(rs, team), OnTeam(rs, team), RunnerKey, u);
    OnTeamRunners(rs, team, u);
    MembersPaired(rs, team, u);
  }

  /** Everything the page shows once it has records. */
  datatype Leaderboard = Leaderboard(stats: Stats, teams: seq<TeamRow>, individuals: seq<Placed<(string, string)>>)

  /** The page (lines 123-132, 147-160, 296-307): nothing but a warning when
      no current record survives loading; otherwise the statistics of the
      current records, the team table and the individual standings ranked
      from them, which all account for the same total distance, and there
      are never more teams or runner-team pairs than runs. */
  function CurrentPageView(sheet: Sheet): (v: Option<Leaderboard>)
    ensures v.None? <==> |Load(CurrentPage, sheet)| == 0
    ensures v.Some? ==> Some(v.value.stats) == Summarize(Load(CurrentPage, sheet))
    ensures v.Some? ==> RankedTable(Places(v.value.teams), Load(CurrentPage, sheet), TeamKey)
    ensures v.Some? ==> RankedTable(v.value.individuals, Load(CurrentPage, sheet), RunnerTeamKey)
    ensures v.Some? ==>
              forall i :: 0 <= i < |v.value.teams| ==>
                v.value.teams[i].members == Dedup(RunnersOn(Load(CurrentPage, sheet), v.value.teams[i].place.key))
    ensures v.Some? ==>
              forall i, u :: 0 <= i < |v.value.teams| ==>
                (u in v.value.teams[i].members <==> Paired(Load(CurrentPage, sheet), v.value.teams[i].place.key, u))
    ensures v.Some? ==>
              && v.value.stats.runs == |Load(CurrentPage, sheet)|
              && v.value.stats.totalDistance == PlacedTotal(Places(v.value.teams))
              && v.value.stats.totalDistance == PlacedTotal(v.value.individuals)
              && 1 <= |v.value.teams| <= v.value.stats.runs
              && 1 <= |v.value.individuals| <= v.value.stats.runs
  {
    var rs := Load(CurrentPage, sheet);
    match Summarize(rs)
    case None => None
    case Some(stats) =>
      var teams := TeamBoard(rs);
      var individuals := IndividualStandings(rs);
      RankedTableEmpty(Places(teams), rs, TeamKey);
      RankedTableEmpty(individuals, rs, RunnerTeamKey);
      RankedTableSize(Places(teams), rs, TeamKey);
      RankedTableSize(individuals, rs, RunnerTeamKey);
      Some(Leaderboard(stats, teams, individuals))
  }
}
