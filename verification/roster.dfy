/** The team -> members dictionary the current leaderboard builds by scanning
    its records: each team gets the list of its runners, each runner listed
    once, in the order first seen. */
module Roster {
  import opened Loading
  import opened Distinct
  import opened Aggregate

  /** One entry of the dictionary. */
  datatype Members = Members(team: string, runners: seq<string>)

  /** The dictionary's keys, in insertion order. */
  function Teams(roster: seq<Members>): (ts: seq<string>)
    ensures |ts| == |roster|
    ensures forall i :: 0 <= i < |roster| ==> ts[i] == roster[i].team
  {
    seq(|roster|, i requires 0 <= i < |roster| => roster[i].team)
  }

  /** `team_member_map.get(team, [])`. */
  function MembersOf(roster: seq<Members>, team: string): seq<string> {
    if |roster| == 0 then []
    else if roster[0].team == team then roster[0].runners
    else MembersOf(roster[1..], team)
  }

  /** One iteration of the scan: open the team's list if the team is new,
      then append the runner unless already listed. */
  function AddRow(roster: seq<Members>, team: string, runner: string): (r: seq<Members>)
    ensures Teams(r) == if team in Teams(roster) then Teams(roster) else Teams(roster) + [team]
    ensures MembersOf(r, team) ==
              if runner in MembersOf(roster, team) then MembersOf(roster, team)
              else MembersOf(roster, team) + [runner]
    ensures forall t :: t != team ==> MembersOf(r, t) == MembersOf(roster, t)
  {
    if |roster| == 0 then [Members(team, [runner])]
    else if roster[0].team == team then
      var old_runners := roster[0].runners;
      var r := [Members(team, if runner in old_runners then old_runners else old_runners + [runner])] + roster[1..];
      TeamsCons(roster);
      TeamsCons(r);
      assert r[1..] == roster[1..];
      r
    else
      var rest := AddRow(roster[1..], team, runner);
      var r := [roster[0]] + rest;
      TeamsCons(roster);
      TeamsCons(r);
      assert r[1..] == rest;
      r
  }

  lemma TeamsCons(roster: seq<Members>)
    requires |roster| > 0
    ensures Teams(roster) == [roster[0].team] + Teams(roster[1..])
  {
  }

  /** The runners of the records on one team, in record order, repeats
      included. */
  function RunnersOn(rs: seq<Record>, team: string): (us: seq<string>)
    ensures forall u :: u in us <==> exists j :: 0 <= j < |rs| && rs[j].team == team && rs[j].runner == u
  {
    if |rs| == 0 then []
    else
      var init := rs[..|rs| - 1];
      var last := rs[|rs| - 1];
      var done := RunnersOn(init, team);
      assert forall j :: 0 <= j < |init| ==> init[j] == rs[j];
      if last.team == team then done + [last.runner] else done
  }

  /** The scan over the records (lines 136-143 of the current leaderboard).
      Its keys are the distinct teams in order of first occurrence, and each
      team's list is its distinct runners in order of first occurrence. */
  function BuildRoster(rs: seq<Record>): (roster: seq<Members>)
    ensures Teams(roster) == Dedup(KeysOf(rs, TeamKey))
    ensures forall t :: MembersOf(roster, t) == Dedup(RunnersOn(rs, t))
  {
    if |rs| == 0 then []
    else
      var done := BuildRoster(rs[..|rs| - 1]);
      var last := rs[|rs| - 1];
      RosterTeamsStep(rs, done);
      RosterMembersStep(rs, done);
      AddRow(done, last.team, last.runner)
  }

  /** Scanning one more record extends the keys as `Dedup` does, ... */
  lemma RosterTeamsStep(rs: seq<Record>, done: seq<Members>)
    requires |rs| > 0
    requires Teams(done) == Dedup(KeysOf(rs[..|rs| - 1], TeamKey))
    ensures Teams(AddRow(done, rs[|rs| - 1].team, rs[|rs| - 1].runner)) == Dedup(KeysOf(rs, TeamKey))
  {
    assert KeysOf(rs, TeamKey)[..|rs| - 1] == KeysOf(rs[..|rs| - 1], TeamKey);
  }

  /** ... and extends the record's team's list as `Dedup` does. */
  lemma RosterMembersStep(rs: seq<Record>, done: seq<Members>)
    requires |rs| > 0
    requires forall t :: MembersOf(done, t) == Dedup(RunnersOn(rs[..|rs| - 1], t))
    ensures forall t :: MembersOf(AddRow(done, rs[|rs| - 1].team, rs[|rs| - 1].runner), t) == Dedup(RunnersOn(rs, t))
  {
    forall t
      ensures MembersOf(AddRow(done, rs[|rs| - 1].team, rs[|rs| - 1].runner), t) == Dedup(RunnersOn(rs, t))
    {
      MembersStep(rs, done, t);
    }
  }

  lemma MembersStep(rs: seq<Record>, done: seq<Members>, t: string)
    requires |rs| > 0
    requires MembersOf(done, t) == Dedup(RunnersOn(rs[..|rs| - 1], t))
    ensures MembersOf(AddRow(done, rs[|rs| - 1].team, rs[|rs| - 1].runner), t) == Dedup(RunnersOn(rs, t))
  {
    var us, last := RunnersOn(rs[..|rs| - 1], t), rs[|rs| - 1];
    if t == last.team {
      assert RunnersOn(rs, t) == us + [last.runner];
      DedupSnoc(us, last.runner);
    } else {
      assert RunnersOn(rs, t) == us;
    }
  }

  /** `.get` falls back to the empty list for a team the dictionary lacks. */
  lemma {:induction false} MembersOfDefault(roster: seq<Members>, team: string)
    requires team !in Teams(roster)
    ensures MembersOf(roster, team) == []
  {
    if |roster| > 0 {
      assert Teams(roster)[0] == roster[0].team;
      assert Teams(roster[1..]) == Teams(roster)[1..];
      MembersOfDefault(roster[1..], team);
    }
  }

  lemma {:induction false} MembersOfEntry(roster: seq<Members>, i: nat)
    requires NoDup(Teams(roster)) && i < |roster|
    ensures MembersOf(roster, roster[i].team) == roster[i].runners
  {
    if i > 0 {
      assert Teams(roster)[0] != Teams(roster)[i];
      assert Teams(roster[1..]) == Teams(roster)[1..];
      MembersOfEntry(roster[1..], i - 1);
    }
  }

  /** The dictionary lists each team once, and exactly the teams of the
      records. */
  lemma RosterTeams(rs: seq<Record>, t: string)
    ensures NoDup(Teams(BuildRoster(rs)))
    ensures t in Teams(BuildRoster(rs)) <==> exists j :: 0 <= j < |rs| && rs[j].team == t
  {
    var roster := BuildRoster(rs);
    assert Teams(roster) == Dedup(KeysOf(rs, TeamKey));
    TeamKeys(rs, t);
  }

  lemma TeamKeys(rs: seq<Record>, t: string)
    ensures t in KeysOf(rs, TeamKey) <==> exists j :: 0 <= j < |rs| && rs[j].team == t
  {
    var ks := KeysOf(rs, TeamKey);
    if t in ks {
      var j :| 0 <= j < |ks| && ks[j] == t;
      assert rs[j].team == t;
    }
    if exists j :: 0 <= j < |rs| && rs[j].team == t {
      var j :| 0 <= j < |rs| && rs[j].team == t;
      assert ks[j] == t;
    }
  }

  /** Under each team the dictionary lists each runner once, and a runner is
      listed under a team exactly when some record pairs the two. */
  lemma RosterRunners(rs: seq<Record>, i: int, u: string)
    requires 0 <= i < |BuildRoster(rs)|
    ensures NoDup(BuildRoster(rs)[i].runners)
    ensures u in BuildRoster(rs)[i].runners <==>
              exists j :: 0 <= j < |rs| && rs[j].team == BuildRoster(rs)[i].team && rs[j].runner == u
  {
    var roster := BuildRoster(rs);
    MembersOfEntry(roster, i);
    assert roster[i].runners == Dedup(RunnersOn(rs, roster[i].team));
  }

  /** Teams appear in the order in which the scan first meets them, and so do
      the runners under each team. */
  lemma RosterOrder(rs: seq<Record>, i: int, j: int)
    requires 0 <= i < j < |BuildRoster(rs)|
    ensures FirstIndex(KeysOf(rs, TeamKey), BuildRoster(rs)[i].team)
            < FirstIndex(KeysOf(rs, TeamKey), BuildRoster(rs)[j].team)
  {
    var roster := BuildRoster(rs);
    assert Teams(roster)[i] == roster[i].team && Teams(roster)[j] == roster[j].team;
    DedupFirstOccurrenceOrder(KeysOf(rs, TeamKey), i, j);
  }

  lemma RunnerOrder(rs: seq<Record>, t: string, i: int, j: int)
    requires 0 <= i < j < |MembersOf(BuildRoster(rs), t)|
    ensures FirstIndex(RunnersOn(rs, t), MembersOf(BuildRoster(rs), t)[i])
            < FirstIndex(RunnersOn(rs, t), MembersOf(BuildRoster(rs), t)[j])
  {
    DedupFirstOccurrenceOrder(RunnersOn(rs, t), i, j);
  }
}
