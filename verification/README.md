# Running-club leaderboard engine, modelled in Dafny

The repository is a two-page Streamlit app for a running club. Both pages read
the same sheet of activity rows. Each row has a runner, a team, a distance, a
date, an optional period label and an optional Archive flag.

- The **current leaderboard** page keeps the rows that are not archived. It
  shows:
  - headline statistics;
  - a team table, with each team's runners listed under its name;
  - a per-team contribution table;
  - an individual table (top 20) and chart (top 10).
- The **archive** page keeps the archived rows. It lists their period labels,
  most recent first, and for a chosen period shows:
  - team and individual results;
  - a top-10 chart;
  - period statistics.

  It also shows a summary row for every period.

This project models the pipeline under both pages as pure functions over
`seq<Record>`, from the raw rows to every table, and proves the pipeline's
invariants:

- the two pages split the cleaned rows between them;
- distance is conserved through grouping, ranking and the period roll-up;
- every table has one row per distinct key;
- rows are ordered by non-increasing distance;
- ranks run 1..n and position labels follow the medal rule;
- the team roster has no duplicates and keeps first-occurrence order;
- truncation keeps a prefix.

Distances are integers in hundredths of a kilometre: loading rounds them to two
decimals, so sums are exact. Cell parsing is abstracted. A cell is `Some(value)`
when pandas could parse it and `None` when it is blank or unparseable. `dropna`
is the `Complete` predicate.

Modules, in dependency order:

- `Wrappers`: the `Option` type.
- `Text`: `str.upper` and `str.strip`.
- `ArchiveFlag`: flag normalisation and the archived token set.
- `Loading`: the data model, cleaning, and each page's Archive filter.
- `Distinct`: `unique` / `nunique` and the "append if not listed" shape.
- `Decimal`: `str(n)` for natural numbers.
- `StringOrder`: Python's `str` order and the descending sort of period labels.
- `Aggregate`: `groupby(...).sum()`.
- `Ranking`: the distance sort, position labels, ranks, `head(n)`, and the
  `RankedTable` specification every leaderboard table meets.
- `Statistics`: the headline figures.
- `Roster`: the team → runners map.
- `CurrentLeaderboard` and `ArchiveResults`: the two pages.

### Behaviour worth knowing

- **Missing Archive column.** When the sheet has no Archive column, neither
  page filters (pages/current_leaderboard.py:53, pages/archive.py:27), so both
  pages show every row. `Loading.NoArchiveColumn` states this.
  - A blank cell in an existing Archive column reads as `"nan"` after
    `astype(str)`, so the row is current.
- **Tie order.** The tables are grouped with `groupby`, which returns the
  groups in sorted-key order, and then sorted with `sort_values` on distance
  (pages/current_leaderboard.py:147-150, pages/archive.py:52-58). How equal
  distances come out therefore depends on the pandas/numpy sort. The model
  fixes its own tie order instead: it aggregates in first-occurrence order and
  sorts by insertion, which need not match the program's. The contracts
  promise only non-increasing distance, so tie order is left out.
- **Blank periods on the current page.** Both pages call `dropna()` on the
  whole frame (pages/current_leaderboard.py:67, pages/archive.py:31). So when
  the sheet has a Period column, a current row with a blank period is dropped
  from the current page too. `Loading.Complete` models exactly that, and the
  partition lemma is stated over the cleaned rows.
- **Negative distances.** The code never checks the sign of a distance
  (pages/current_leaderboard.py:48), so the model allows any integer.

## Model

| member | source | states |
|---|---|---|
| Text.UpperChar | pages/current_leaderboard.py:55 | upper-casing maps a–z to A–Z, dotless i to I and long s to S, leaves every other character as it is, leaves no lower-case ASCII letter, and keeps white space as white space |
| Text.Strip | pages/current_leaderboard.py:55 | the stripped text has no white space at either end and is never longer than the input |
| Text.StripKeepsCore | pages/current_leaderboard.py:55 | the stripped text is a contiguous piece of the input with only white space removed before and after it |
| Text.StripOfPadded | pages/current_leaderboard.py:55 | stripping white-space padding off a trimmed core gives back exactly that core |
| Text.StripUpperCommute | pages/current_leaderboard.py:55 | upper-casing then stripping equals stripping then upper-casing |
| ArchiveFlag.Normalize | pages/current_leaderboard.py:55 | the rewritten flag has no white space at either end, no lower-case ASCII letter, and is never longer than the cell |
| ArchiveFlag.IsArchived | pages/current_leaderboard.py:55-59 | a flag counts as archived exactly when it is white-space padding around a piece whose upper case is TRUE, T, 1, YES or Y |
| ArchiveFlag.ArchivedIff | pages/archive.py:28-30 | the upper-cased, stripped flag is in the token set exactly when some padded piece of the flag upper-cases to a token |
| ArchiveFlag.NormalizeIdempotent | pages/archive.py:28 | normalising a flag twice equals normalising it once, and the rewritten flag classifies as the raw one did |
| ArchiveFlag.ArchivedExamples | pages/archive.py:28-30 | "true", "TRUE" and "yes" are archived |
| ArchiveFlag.ArchivedShortExamples | pages/archive.py:28-30 | the short spellings " T ", "1" and " y" are archived, padding included |
| ArchiveFlag.CurrentExamples | pages/current_leaderboard.py:55-59 | "false", "0" and "" are not archived |
| ArchiveFlag.CurrentCellExamples | pages/current_leaderboard.py:55-59 | "nan" (a blank cell after `astype(str)`) and "1.0" are not archived |
| Loading.LoadRows | pages/current_leaderboard.py:47-67 | the k-th record is read from the k-th row that the page's Archive filter keeps and that is complete, so kept rows stay in sheet order; every record occurs exactly as often as such rows read as it, so repeated rows stay repeated. Every record passes the page's filter and has a period exactly when the sheet has a Period column. A complete row is kept exactly when the page's Archive filter keeps it |
| Loading.Load | pages/archive.py:16-32 | the page's records are the sheet's kept, complete rows in sheet order, each record exactly as often as such rows read as it, and all pass the page's filter |
| Loading.CleanRows | pages/archive.py:22-31 | `dropna` keeps every complete row in sheet order: the k-th record is read from the k-th complete row, and each record occurs exactly as often as complete rows read as it. It never adds rows, and a record carries a normalised flag exactly when the sheet has an Archive column |
| Loading.LoadRowsIsSelect | pages/archive.py:27-31 | filtering by the flag and then dropping incomplete rows equals dropping first and then filtering |
| Loading.PartitionCover | pages/archive.py:27-30 | with an Archive column, the current and archive pages share no record and together hold every cleaned record exactly once |
| Loading.NoArchiveColumn | pages/current_leaderboard.py:53 | without an Archive column, both pages keep every cleaned record |
| Distinct.Dedup | pages/archive.py:41 | `unique()` has no repeats and the same elements as its input |
| Distinct.DedupFirstOccurrenceOrder | pages/current_leaderboard.py:140-143 | de-duplicated elements keep the order of their first occurrence |
| Distinct.DedupCard | pages/current_leaderboard.py:87 | `nunique()`: the de-duplicated length equals the number of distinct values |
| Distinct.NoDupPermutation | pages/current_leaderboard.py:150 | reordering a repeat-free sequence keeps it repeat-free |
| Decimal.Show | pages/current_leaderboard.py:160 | `str(n)` is a non-empty run of digits with no leading zero unless n is 0 |
| Decimal.ParseShow | pages/current_leaderboard.py:160 | reading the decimal digits of `str(n)` gives back n |
| Decimal.ShowInjective | pages/current_leaderboard.py:160 | different numbers give different strings |
| StringOrder.BelowTransitive | pages/archive.py:41 | Python's string order is transitive |
| StringOrder.BelowTotal | pages/archive.py:41 | any two different strings are ordered one way or the other |
| StringOrder.BelowIrreflexive | pages/archive.py:41 | no string is below itself |
| StringOrder.BelowAsymmetric | pages/archive.py:41 | no two strings are each below the other |
| StringOrder.SortDescending | pages/archive.py:41 | `sorted(..., reverse=True)` of distinct labels is strictly descending, with the same labels and length |
| Aggregate.Accumulate | pages/current_leaderboard.py:148-149 | adding a distance to a group opens a group at the end only for a new key, leaves the other totals alone, and raises the overall total by that distance |
| Aggregate.GroupSum | pages/current_leaderboard.py:147-149 | the groups are the distinct keys in order of first occurrence. Each group's total is the summed distance of its key's records, and the totals add up to the overall distance |
| Aggregate.CountDistinct | pages/archive.py:237-238 | the number of groups is the number of distinct keys, never more than the number of records |
| Statistics.Summarize | pages/current_leaderboard.py:75-87 | gives no statistics exactly when there are no records. Otherwise: runs equal the record count; total is the summed distance; mean × runs equals the total; active runners are the distinct runners, between 1 and the runs |
| Ranking.Insert | pages/current_leaderboard.py:150 | inserting into a non-increasing table keeps it non-increasing and adds exactly that entry |
| Ranking.SortByTotal | pages/current_leaderboard.py:150 | sorting by distance descending gives a non-increasing permutation of its input with the same total |
| Ranking.Standings | pages/current_leaderboard.py:147-152 | the sorted group table has non-increasing distance and one row per distinct key, and no other rows. Each row carries its key's summed distance, and the rows add up to the overall distance |
| Ranking.PositionLabel | pages/current_leaderboard.py:157-160 | the label at index i is the i-th medal for i < 3, and otherwise a digit string with no leading zero whose value is i+1, that is `str(i+1)` |
| Ranking.LabelsDistinct | pages/current_leaderboard.py:157-160 | no two positions share a label |
| Ranking.Place | pages/archive.py:61-67 | numbering a table gives one row per entry with key and distance unchanged, ranks 1..n in table order, medals on the first three rows, `str(i+1)` after that, and no label twice |
| Ranking.PlacementConsistent | pages/archive.py:60-67 | ranks run 1..n in table order, and a better rank never has a smaller distance. Labels are distinct, and keys and distances are carried unchanged |
| Ranking.Head | pages/current_leaderboard.py:313 | `head(n)` is the prefix of length min(n, size) |
| Ranking.TopDominates | pages/current_leaderboard.py:320 | every entry kept by truncation has at least the distance of every entry cut off |
| Ranking.HeadKeepsPlaces | pages/current_leaderboard.py:305-313 | labelling before truncating equals truncating before labelling |
| Ranking.Ranked | pages/archive.py:52-67 | the leaderboard pipeline meets `RankedTable`, its distances add up to the records' distance, and it has one row per distinct key |
| Ranking.RankedTableSize | pages/archive.py:52-58 | any table meeting `RankedTable` has exactly as many rows as there are distinct keys, at most one per record |
| Ranking.RankedTableEmpty | pages/archive.py:45-47 | a table meeting `RankedTable` is empty exactly when there are no records |
| Ranking.ListedKeys | pages/current_leaderboard.py:147-149 | a table meeting `RankedTable` lists exactly the keys that occur in the records |
| Ranking.HeadDominates | pages/archive.py:147 | a truncated ranked table keeps the ranks and labels of its rows, and every row it keeps ran at least as far as every row cut off |
| Roster.AddRow | pages/current_leaderboard.py:138-143 | one scan step opens a team only when the team is new, appends the runner only when not yet listed, and changes no other team |
| Roster.RunnersOn | pages/current_leaderboard.py:137-139 | a runner occurs in a team's scan exactly when some record pairs them with that team |
| Roster.BuildRoster | pages/current_leaderboard.py:136-143 | the map's keys are the distinct teams in order of first occurrence, and each team's list is its distinct runners in order of first occurrence |
| Roster.MembersOfDefault | pages/current_leaderboard.py:165 | `.get(team, [])` gives the empty list for a team the map lacks |
| Roster.MembersOfEntry | pages/current_leaderboard.py:165 | looking up a team's entry gives back the list stored for that team |
| Roster.RosterTeams | pages/current_leaderboard.py:140-141 | each team is listed once, and a team is listed exactly when some record carries it |
| Roster.RosterRunners | pages/current_leaderboard.py:142-143 | each runner is listed at most once per team, and a runner is listed under a team exactly when some record pairs them |
| Roster.RosterOrder | pages/current_leaderboard.py:140-141 | teams appear in the order the scan first meets them |
| Roster.RunnerOrder | pages/current_leaderboard.py:142-143 | a team's runners appear in the order the scan first meets them on that team |
| CurrentLeaderboard.TeamMembers | pages/current_leaderboard.py:164-165 | the runners under a team of the records are repeat-free and non-empty, and are exactly the runners some record pairs with it |
| CurrentLeaderboard.TeamBoard | pages/current_leaderboard.py:147-174 | the team table meets `RankedTable` by team and its distances add up to the overall distance. Each row lists the team's distinct runners in order of first occurrence: once each, at least one, exactly those paired with it |
| CurrentLeaderboard.IndividualStandings | pages/current_leaderboard.py:296-307 | the individual standings meet `RankedTable` by (runner, team) and add up to the overall distance |
| CurrentLeaderboard.IndividualTable | pages/current_leaderboard.py:313 | the table shows the first min(20, n) standings |
| CurrentLeaderboard.IndividualChart | pages/current_leaderboard.py:320 | the chart shows the first min(10, n) standings |
| CurrentLeaderboard.IndividualTruncation | pages/current_leaderboard.py:313-320 | the table is the first min(20, n) standings, and the chart is the first min(10, n) of them |
| CurrentLeaderboard.IndividualTableTop | pages/current_leaderboard.py:305-313 | the rows shown keep their ranks and labels, and no row cut off ran further than a row shown |
| CurrentLeaderboard.OnTeam | pages/current_leaderboard.py:248 | the team filter keeps exactly the team's records, each as often as it occurs, and their distance is the team's summed distance |
| CurrentLeaderboard.Contributions | pages/current_leaderboard.py:248-271 | the contribution table meets `RankedTable` by runner over the team's records. It adds up to the team's total and is empty exactly when the team has no records. The source shows only the `Rank` column there, so the model's `pos` label is not displayed on this table |
| CurrentLeaderboard.ContributorsAreMembers | pages/current_leaderboard.py:246-249 | a runner appears in a team's contribution table exactly when the roster lists them under that team |
| CurrentLeaderboard.CurrentPageView | pages/current_leaderboard.py:123-132 | the page shows only a warning exactly when no current record loads. Otherwise the statistics are those of the current records, the team table meets `RankedTable` by team with each team's distinct runners under it in order of first occurrence, and the individual standings meet `RankedTable` by (runner, team). All three account for the same total distance, and the numbers of teams and of pairs are between 1 and the runs |
| ArchiveResults.PeriodLabels | pages/archive.py:41 | the period column holds a label exactly when some record carries it |
| ArchiveResults.AvailablePeriods | pages/archive.py:37-41 | the periods are strictly descending and repeat-free, and exactly the labels carried by some record. There are none without a Period column or records |
| ArchiveResults.PeriodSlice | pages/archive.py:195 | a period's slice holds exactly the records carrying that label, each as often as it occurs in the input |
| ArchiveResults.SliceEmpty | pages/archive.py:233-234 | a slice is empty exactly when no record carries the label |
| ArchiveResults.TeamResults | pages/archive.py:43-67 | an empty period gives the warning. Otherwise the team results meet `RankedTable` by team and add up to the period's distance |
| ArchiveResults.IndividualResults | pages/archive.py:105-128 | an empty period gives nothing. Otherwise the results meet `RankedTable` by (runner, team) and add up to the period's distance |
| ArchiveResults.TopPerformers | pages/archive.py:147 | the chart is empty for an empty period and otherwise the first min(10, n) individual results |
| ArchiveResults.TopPerformersPrefix | pages/archive.py:147-148 | the chart is a non-empty prefix of at most ten results, and nobody left out ran further than anybody shown |
| ArchiveResults.SelectPeriod | pages/archive.py:193-224 | an empty label shows nothing. Otherwise the entry count is the slice length; team and individual results exist exactly when some record carries the label and then meet `RankedTable` over the period's records; the statistics are those of the period's records |
| ArchiveResults.TeamCount | pages/archive.py:237 | a non-empty slice has between 1 and as many distinct teams as records |
| ArchiveResults.SummaryRow | pages/archive.py:235-242 | a summary row has the slice's runs, total and mean. Its team and participant counts are the distinct counts, each between 1 and the runs |
| ArchiveResults.Summary | pages/archive.py:231-242 | there is a row exactly for each listed period some record carries, and never more rows than periods |
| ArchiveResults.SummaryRowsSummarize | pages/archive.py:235-242 | every summary row holds its period slice's runs, total distance and mean, and distinct team and participant counts between 1 and the runs |
| ArchiveResults.SummaryOrder | pages/archive.py:232 | periods listed in descending order stay descending in the summary |
| ArchiveResults.SummaryKeepsAll | pages/archive.py:232-235 | when every listed period has records, the summary has one row per period, in list order |
| ArchiveResults.SummaryOfAvailable | pages/archive.py:231-242 | the summary over the available periods has one row per period, most recent first, with no zero-valued row |
| ArchiveResults.SummaryConservation | pages/archive.py:239-240 | across all periods the summary's runs add up to the archived records and its distances to their total distance |
| ArchiveResults.ArchiveOverview | pages/archive.py:168-183 | the page shows only a warning exactly when no archived record loads or there is no Period column. Otherwise: there is at least one period and no more than records; periods are descending and none is empty; the summary covers every period and every record |

## Left out

- Google Sheets reading, the five-minute cache and the refresh button: these are external I/O. A read that raises becomes an empty frame in the source. The model starts from a `Sheet` value, so that error path is not modelled.
- Rendering is presentation only and is not modelled. That covers the HTML table builder, the Bootstrap styling, plotly charts, the ascending re-sort that charts use for drawing, the "add to home screen" text, and the radio, select and button widgets. Where a widget picks a value (the team for the contribution view, the selected period), that value is a parameter.
- The days-left countdown: it depends on the current date.
- The navigation script `app.py`.
- How pandas parses text into numbers and dates. A cell is either a parsed value or absent. Columns beyond Runner, Team, Distance, Date, Period and Archive are not modelled; in the source they would also take part in `dropna`.
- Period labels are modelled as strings. A Period column that pandas reads as numbers would compare numerically, not as strings.
- Tie order among equal distances: the program's order comes from `groupby`'s sorted keys and the pandas/numpy sort, and the model's first-occurrence aggregation and insertion sort need not reproduce it. The contracts state only non-increasing distance.
- Statistics.Summarize: the mean is exact and never rounded. The source computes it in floating point and shows it with one decimal. Without a Runner column the source counts distinct teams instead; that fallback is not modelled, because without a Runner column the page stops with an error right after the statistics, in the team-member scan.
- ArchiveResults.SummaryRow: total and mean distance are exact. The source rounds both to one decimal.
- Ranking.Standings: the per-group `.round(2)` is not modelled. Sums of hundredths are already exact in the model; in the source it only removes floating-point noise.
- Text.UpperChar: upper-cases only ASCII letters plus dotless i and long s. These are the only characters whose upper case is an ASCII letter. Every other character is kept as it is. Full Unicode case mapping (for example ß → SS) is not modelled, because it cannot turn a flag into one of the ASCII tokens.
- ArchiveFlag.Normalize: "never longer than the cell" holds for the model's character-by-character upper-casing. Python's `str.upper()` can lengthen a string (ß → SS); that never affects whether a flag is archived.
- ArchiveResults.SelectPeriod: for a non-empty label that no record carries, the model gives no statistics where the source would still render zero runs and distance. The period selector only offers labels that occur, so the page never reaches that case.
- The "Found N archived entries across M periods" and "Loaded N entries" messages are not modelled as text. Their numbers are the counts `ArchiveResults.ArchiveOverview` and `ArchiveResults.SelectPeriod` state.
