/** Rows of the sheet, the records the pages keep, and the two loaders:
    `load_data` of the current leaderboard and `load_archived_data` of the
    archive page. Parsing text into numbers and dates is not modelled: a
    cell is either a parsed value or absent. */
module Loading {
  import opened Wrappers
  import opened ArchiveFlag

  datatype Date = Date(year: int, month: nat, day: nat)

  /** One sheet row after `to_numeric` and `to_datetime`: `None` is a blank
      cell or one that did not parse. Distances are in hundredths of a
      kilometre, the load having rounded them to two decimals. */
  datatype Row = Row(runner: Option<string>, team: Option<string>, distance: Option<int>,
                     date: Option<Date>, period: Option<string>, archive: Option<string>)

  /** A snapshot of the sheet: its rows, and whether the optional Period and
      Archive columns exist. */
  datatype Sheet = Sheet(hasPeriod: bool, hasArchive: bool, rows: seq<Row>)

  /** A row that survived `dropna`. `period` is present when the sheet has a
      Period column; `archive` holds the normalized flag when it has an
      Archive column. */
  datatype Record = Record(runner: string, team: string, distance: int, date: Date,
                           period: Option<string>, archive: Option<string>)

  datatype Page = CurrentPage | ArchivePage

  /** `astype(str)` of an Archive cell: a blank cell reads as "nan". */
  function FlagText(cell: Option<string>): string {
    match cell
    case Some(s) => s
    case None => "nan"
  }

  /** The page's Archive filter on a raw row: the current page keeps flags
      outside the token set, the archive page keeps those inside it, and
      without an Archive column neither page filters. */
  predicate KeptBy(page: Page, sheet: Sheet, row: Row) {
    !sheet.hasArchive || (Normalize(FlagText(row.archive)) in ArchiveTokens <==> page == ArchivePage)
  }

  /** `dropna()`: every column of the frame holds a value. The rewritten
      Archive column never holds a blank, so it never drops a row. */
  predicate Complete(sheet: Sheet, row: Row) {
    && row.runner.Some? && row.team.Some? && row.distance.Some? && row.date.Some?
    && (sheet.hasPeriod ==> row.period.Some?)
  }

  function ToRecord(sheet: Sheet, row: Row): Record
    requires Complete(sheet, row)
  {
    Record(row.runner.value, row.team.value, row.distance.value, row.date.value,
           if sheet.hasPeriod then row.period else None,
           if sheet.hasArchive then Some(Normalize(FlagText(row.archive))) else None)
  }

  /** The Archive filter read off a kept record's rewritten flag. */
  predicate OnPage(page: Page, rec: Record) {
    match rec.archive
    case None => true
    case Some(flag) => (flag in ArchiveTokens) <==> page == ArchivePage
  }

  /** The page keeps the row, `dropna` leaves it, and it reads as rec. */
  predicate LoadYields(page: Page, sheet: Sheet, row: Row, rec: Record) {
    KeptBy(page, sheet, row) && Complete(sheet, row) && ToRecord(sheet, row) == rec
  }

  /** `dropna` leaves the row and it reads as rec. */
  predicate CleanYields(sheet: Sheet, row: Row, rec: Record) {
    Complete(sheet, row) && ToRecord(sheet, row) == rec
  }

  /** The positions in s whose element satisfies p. */
  function Positions<T>(s: seq<T>, p: T -> bool): set<int> {
    set k | 0 <= k < |s| && p(s[k])
  }

  /** Extending a sequence by one element adds its position exactly when
      that element satisfies p. */
  lemma PositionsSnoc<T>(s: seq<T>, p: T -> bool)
    requires |s| > 0
    ensures |Positions(s, p)| == |Positions(s[..|s| - 1], p)| + (if p(s[|s| - 1]) then 1 else 0)
  {
    var n := |s| - 1;
    var a := Positions(s[..n], p);
    var b := Positions(s, p);
    var c := if p(s[n]) then {n} else {};
    forall k
      ensures k in b <==> k in a || k in c
    {
      if 0 <= k < n {
        assert s[..n][k] == s[k];
      }
    }
    assert b == a + c;
    assert n !in a;
  }

  /** The positions in s whose element satisfies p, in increasing order:
      every listed position satisfies p, and every position that does is
      listed. */
  function Indices<T>(s: seq<T>, p: T -> bool): (idx: seq<int>)
    ensures forall k :: 0 <= k < |idx| ==> 0 <= idx[k] < |s| && p(s[idx[k]])
    ensures forall k, l :: 0 <= k < l < |idx| ==> idx[k] < idx[l]
    ensures forall j :: 0 <= j < |s| && p(s[j]) ==> j in idx
  {
    if |s| == 0 then []
    else
      var done := Indices(s[..|s| - 1], p);
      if p(s[|s| - 1]) then done + [|s| - 1] else done
  }

  /** The rows the page keeps and `dropna` leaves. */
  function KeptRow(page: Page, sheet: Sheet): Row -> bool {
    row => KeptBy(page, sheet, row) && Complete(sheet, row)
  }

  /** The rows `dropna` leaves. */
  function CompleteRow(sheet: Sheet): Row -> bool {
    row => Complete(sheet, row)
  }

  function LoadYieldsOf(page: Page, sheet: Sheet, rec: Record): Row -> bool {
    row => LoadYields(page, sheet, row, rec)
  }

  function CleanYieldsOf(sheet: Sheet, rec: Record): Row -> bool {
    row => CleanYields(sheet, row, rec)
  }

  /** The positions of the rows that yield record rec on the page. */
  function LoadSources(page: Page, sheet: Sheet, rows: seq<Row>, rec: Record): set<int> {
    Positions(rows, LoadYieldsOf(page, sheet, rec))
  }

  /** The positions of the complete rows that read as record rec. */
  function CleanSources(sheet: Sheet, rows: seq<Row>, rec: Record): set<int> {
    Positions(rows, CleanYieldsOf(sheet, rec))
  }

  /** The page's Archive filter followed by `dropna`, over a run of rows:
      the k-th record is read from the k-th row that the page keeps and that
      is complete, so kept rows stay in sheet order; and every record occurs
      as often as such rows read as it, so repeated rows stay repeated. */
  function LoadRows(page: Page, sheet: Sheet, rows: seq<Row>): (r: seq<Record>)
    ensures var idx := Indices(rows, KeptRow(page, sheet));
            && |r| == |idx|
            && forall k :: 0 <= k < |r| ==> Complete(sheet, rows[idx[k]]) && r[k] == ToRecord(sheet, rows[idx[k]])
    ensures |r| <= |rows|
    ensures forall i :: 0 <= i < |r| ==> OnPage(page, r[i])
    ensures forall i :: 0 <= i < |r| ==> (r[i].period.Some? <==> sheet.hasPeriod)
    ensures forall rec :: multiset(r)[rec] == |LoadSources(page, sheet, rows, rec)|
    ensures forall rec :: rec in r ==>
              exists row :: row in rows && Complete(sheet, row) && ToRecord(sheet, row) == rec
    ensures forall row :: row in rows && Complete(sheet, row) ==>
              (ToRecord(sheet, row) in r <==> KeptBy(page, sheet, row))
  {
    if |rows| == 0 then []
    else
      var done := LoadRows(page, sheet, rows[..|rows| - 1]);
      LoadStepMembers(page, sheet, rows, done);
      LoadStepCounts(page, sheet, rows, done);
      LoadStepOrder(page, sheet, rows, done);
      LoadStep(page, sheet, done, rows[|rows| - 1])
  }

  /** One step of the loader: the row's record is appended when the page
      keeps the row and it is complete. */
  function LoadStep(page: Page, sheet: Sheet, done: seq<Record>, row: Row): seq<Record> {
    if KeptBy(page, sheet, row) && Complete(sheet, row) then done + [ToRecord(sheet, row)] else done
  }

  /** The loader's membership facts carry over one step. */
  lemma LoadStepMembers(page: Page, sheet: Sheet, rows: seq<Row>, done: seq<Record>)
    requires |rows| > 0
    requires forall rec :: rec in done ==>
               exists row :: row in rows[..|rows| - 1] && Complete(sheet, row) && ToRecord(sheet, row) == rec
    requires forall row :: row in rows[..|rows| - 1] && Complete(sheet, row) ==>
               (ToRecord(sheet, row) in done <==> KeptBy(page, sheet, row))
    ensures var r := LoadStep(page, sheet, done, rows[|rows| - 1]);
            forall rec :: rec in r ==>
              exists row :: row in rows && Complete(sheet, row) && ToRecord(sheet, row) == rec
    ensures var r := LoadStep(page, sheet, done, rows[|rows| - 1]);
            forall row :: row in rows && Complete(sheet, row) ==>
              (ToRecord(sheet, row) in r <==> KeptBy(page, sheet, row))
  {
    var init := rows[..|rows| - 1];
    var last := rows[|rows| - 1];
    assert forall x :: x in rows <==> x in init || x == last by {
      assert rows == init + [last];
    }
  }

  /** The loader's row order carries over one step. */
  lemma LoadStepOrder(page: Page, sheet: Sheet, rows: seq<Row>, done: seq<Record>)
    requires |rows| > 0
    requires var init := rows[..|rows| - 1];
             var idx := Indices(init, KeptRow(page, sheet));
             && |done| == |idx|
             && forall k :: 0 <= k < |done| ==> Complete(sheet, init[idx[k]]) && done[k] == ToRecord(sheet, init[idx[k]])
    ensures var idx := Indices(rows, KeptRow(page, sheet));
            var r := LoadStep(page, sheet, done, rows[|rows| - 1]);
            && |r| == |idx|
            && forall k :: 0 <= k < |r| ==> Complete(sheet, rows[idx[k]]) && r[k] == ToRecord(sheet, rows[idx[k]])
  {
    var init := rows[..|rows| - 1];
    assert forall k :: 0 <= k < |init| ==> init[k] == rows[k];
  }

  /** The loader's multiplicities carry over one step. */
  lemma LoadStepCounts(page: Page, sheet: Sheet, rows: seq<Row>, done: seq<Record>)
    requires |rows| > 0
    requires forall rec :: multiset(done)[rec] == |LoadSources(page, sheet, rows[..|rows| - 1], rec)|
    ensures forall rec :: multiset(LoadStep(page, sheet, done, rows[|rows| - 1]))[rec] ==
              |LoadSources(page, sheet, rows, rec)|
  {
    LoadSourcesSnoc(page, sheet, rows);
  }

  /** The sources of a record in a run of rows are its sources in all but
      the last row, plus the last row when it yields the record. */
  lemma LoadSourcesSnoc(page: Page, sheet: Sheet, rows: seq<Row>)
    requires |rows| > 0
    ensures forall rec :: |LoadSources(page, sheet, rows, rec)| ==
              |LoadSources(page, sheet, rows[..|rows| - 1], rec)| +
              (if LoadYields(page, sheet, rows[|rows| - 1], rec) then 1 else 0)
  {
    forall rec
      ensures |LoadSources(page, sheet, rows, rec)| ==
              |LoadSources(page, sheet, rows[..|rows| - 1], rec)| +
              (if LoadYields(page, sheet, rows[|rows| - 1], rec) then 1 else 0)
    {
      LoadSourcesStep(page, sheet, rows, rec);
    }
  }

  lemma LoadSourcesStep(page: Page, sheet: Sheet, rows: seq<Row>, rec: Record)
    requires |rows| > 0
    ensures |LoadSources(page, sheet, rows, rec)| ==
            |LoadSources(page, sheet, rows[..|rows| - 1], rec)| +
            (if LoadYields(page, sheet, rows[|rows| - 1], rec) then 1 else 0)
  {
    PositionsSnoc(rows, LoadYieldsOf(page, sheet, rec));
  }

  /** `load_data` (current page) and `load_archived_data` (archive page):
      the sheet's kept, complete rows in sheet order, each record as often
      as such rows read as it. */
  function Load(page: Page, sheet: Sheet): (r: seq<Record>)
    ensures var idx := Indices(sheet.rows, KeptRow(page, sheet));
            && |r| == |idx|
            && forall k :: 0 <= k < |r| ==>
                 Complete(sheet, sheet.rows[idx[k]]) && r[k] == ToRecord(sheet, sheet.rows[idx[k]])
    ensures forall rec :: multiset(r)[rec] == |LoadSources(page, sheet, sheet.rows, rec)|
    ensures forall i :: 0 <= i < |r| ==> OnPage(page, r[i])
  {
    LoadRows(page, sheet, sheet.rows)
  }

  /** `dropna` alone, with no Archive filter: the k-th record is read from
      the k-th complete row, and each record occurs as often as complete
      rows read as it. */
  function CleanRows(sheet: Sheet, rows: seq<Row>): (r: seq<Record>)
    ensures var idx := Indices(rows, CompleteRow(sheet));
            && |r| == |idx|
            && forall k :: 0 <= k < |r| ==> Complete(sheet, rows[idx[k]]) && r[k] == ToRecord(sheet, rows[idx[k]])
    ensures |r| <= |rows|
    ensures forall i :: 0 <= i < |r| ==> (r[i].archive.Some? <==> sheet.hasArchive)
    ensures forall rec :: multiset(r)[rec] == |CleanSources(sheet, rows, rec)|
  {
    if |rows| == 0 then []
    else
      var done := CleanRows(sheet, rows[..|rows| - 1]);
      var row := rows[|rows| - 1];
      CleanSourcesSnoc(sheet, rows);
      CleanStepOrder(sheet, rows, done);
      if Complete(sheet, row) then done + [ToRecord(sheet, row)] else done
  }

  /** The cleaned rows' order carries over one step. */
  lemma CleanStepOrder(sheet: Sheet, rows: seq<Row>, done: seq<Record>)
    requires |rows| > 0
    requires var init := rows[..|rows| - 1];
             var idx := Indices(init, CompleteRow(sheet));
             && |done| == |idx|
             && forall k :: 0 <= k < |done| ==> Complete(sheet, init[idx[k]]) && done[k] == ToRecord(sheet, init[idx[k]])
    ensures var idx := Indices(rows, CompleteRow(sheet));
            var row := rows[|rows| - 1];
            var r := if Complete(sheet, row) then done + [ToRecord(sheet, row)] else done;
            && |r| == |idx|
            && forall k :: 0 <= k < |r| ==> Complete(sheet, rows[idx[k]]) && r[k] == ToRecord(sheet, rows[idx[k]])
  {
    var init := rows[..|rows| - 1];
    assert forall k :: 0 <= k < |init| ==> init[k] == rows[k];
  }

  lemma CleanSourcesSnoc(sheet: Sheet, rows: seq<Row>)
    requires |rows| > 0
    ensures forall rec :: |CleanSources(sheet, rows, rec)| ==
              |CleanSources(sheet, rows[..|rows| - 1], rec)| +
              (if CleanYields(sheet, rows[|rows| - 1], rec) then 1 else 0)
  {
    forall rec
      ensures |CleanSources(sheet, rows, rec)| ==
              |CleanSources(sheet, rows[..|rows| - 1], rec)| +
              (if CleanYields(sheet, rows[|rows| - 1], rec) then 1 else 0)
    {
      CleanSourcesStep(sheet, rows, rec);
    }
  }

  lemma CleanSourcesStep(sheet: Sheet, rows: seq<Row>, rec: Record)
    requires |rows| > 0
    ensures |CleanSources(sheet, rows, rec)| ==
            |CleanSources(sheet, rows[..|rows| - 1], rec)| +
            (if CleanYields(sheet, rows[|rows| - 1], rec) then 1 else 0)
  {
    PositionsSnoc(rows, CleanYieldsOf(sheet, rec));
  }

  function Cleaned(sheet: Sheet): seq<Record> {
    CleanRows(sheet, sheet.rows)
  }

  /** The records of one page, in order. */
  function Select(page: Page, recs: seq<Record>): seq<Record> {
    if |recs| == 0 then []
    else
      var done := Select(page, recs[..|recs| - 1]);
      var rec := recs[|recs| - 1];
      if OnPage(page, rec) then done + [rec] else done
  }

  /** Filtering by the flag and dropping incomplete rows commute: a page is
      the page's share of the cleaned sheet. */
  lemma {:induction false} LoadRowsIsSelect(page: Page, sheet: Sheet, rows: seq<Row>)
    ensures LoadRows(page, sheet, rows) == Select(page, CleanRows(sheet, rows))
  {
    if |rows| > 0 {
      var init := rows[..|rows| - 1];
      var row := rows[|rows| - 1];
      LoadRowsIsSelect(page, sheet, init);
      var c := CleanRows(sheet, init);
      if Complete(sheet, row) {
        KeptIsOnPage(page, sheet, row);
        SelectSnoc(page, c, ToRecord(sheet, row));
      }
    }
  }

  /** A complete row is kept by the page exactly when its record is on it. */
  lemma KeptIsOnPage(page: Page, sheet: Sheet, row: Row)
    requires Complete(sheet, row)
    ensures KeptBy(page, sheet, row) <==> OnPage(page, ToRecord(sheet, row))
  {
  }

  lemma SelectSnoc(page: Page, recs: seq<Record>, rec: Record)
    ensures Select(page, recs + [rec]) == if OnPage(page, rec) then Select(page, recs) + [rec] else Select(page, recs)
  {
    assert (recs + [rec])[..|recs|] == recs;
  }

  /** Every record in the list is on exactly one of the two pages. */
  lemma {:induction false} SelectSplits(recs: seq<Record>)
    requires forall i :: 0 <= i < |recs| ==> recs[i].archive.Some?
    ensures multiset(Select(CurrentPage, recs)) + multiset(Select(ArchivePage, recs)) == multiset(recs)
  {
    if |recs| > 0 {
      var init := recs[..|recs| - 1];
      var rec := recs[|recs| - 1];
      SelectSplits(init);
      assert recs == init + [rec];
    }
  }

  /** With an Archive column, the current page and the archive page split the
      cleaned rows between them: together they hold every cleaned record
      exactly as often as the sheet does, and no record is on both. */
  lemma PartitionCover(sheet: Sheet)
    requires sheet.hasArchive
    ensures multiset(Load(CurrentPage, sheet)) + multiset(Load(ArchivePage, sheet))
            == multiset(Cleaned(sheet))
    ensures forall rec :: rec in Load(CurrentPage, sheet) ==> rec !in Load(ArchivePage, sheet)
  {
    LoadRowsIsSelect(CurrentPage, sheet, sheet.rows);
    LoadRowsIsSelect(ArchivePage, sheet, sheet.rows);
    SelectSplits(Cleaned(sheet));
  }

  lemma {:induction false} SelectAll(page: Page, recs: seq<Record>)
    requires forall i :: 0 <= i < |recs| ==> recs[i].archive.None?
    ensures Select(page, recs) == recs
  {
    if |recs| > 0 {
      SelectAll(page, recs[..|recs| - 1]);
      assert recs == recs[..|recs| - 1] + [recs[|recs| - 1]];
    }
  }

  /** Without an Archive column neither page filters: both show every cleaned
      record, so the two pages overlap completely. */
  lemma NoArchiveColumn(sheet: Sheet)
    requires !sheet.hasArchive
    ensures Load(CurrentPage, sheet) == Cleaned(sheet)
    ensures Load(ArchivePage, sheet) == Cleaned(sheet)
  {
    LoadRowsIsSelect(CurrentPage, sheet, sheet.rows);
    LoadRowsIsSelect(ArchivePage, sheet, sheet.rows);
    SelectAll(CurrentPage, Cleaned(sheet));
    SelectAll(ArchivePage, Cleaned(sheet));
  }
}
