/**
 * Which tables content.js augments and which column it reads
 * (content.js:258-300): header texts are normalized and lower-cased, then
 * searched for keywords; a table without a telling header is still taken
 * when one of its first eight `td` cells holds an ISO date.
 */
module Classify {
  import opened Wrappers
  import opened Text
  import opened Timestamp
  import opened Dom

  /** `Array.from(headerRow.children).map((c) => normalize(c.textContent).toLowerCase())`. */
  function HeaderTexts(r: Row): seq<string> {
    seq(|r|, i requires 0 <= i < |r| => Lower(Normalize(r[i].text)))
  }

  /** `hs.findIndex((h) => h.includes(needle))`, from position `i` on. */
  function FindIndexFrom(hs: seq<string>, needle: string, i: nat): (r: int)
    requires i <= |hs|
    decreases |hs| - i
    ensures r == -1 || i <= r < |hs|
    ensures r >= 0 ==> Contains(hs[r], needle) && forall j :: i <= j < r ==> !Contains(hs[j], needle)
    ensures r == -1 <==> forall j :: i <= j < |hs| ==> !Contains(hs[j], needle)
  {
    if i == |hs| then -1
    else if Contains(hs[i], needle) then i
    else FindIndexFrom(hs, needle, i + 1)
  }

  /** `hs.findIndex((h) => h.includes(needle))`: the first text containing
      `needle`, or -1. */
  function FindIndex(hs: seq<string>, needle: string): (r: int)
    ensures -1 <= r < |hs|
    ensures r >= 0 ==> Contains(hs[r], needle) && forall j :: 0 <= j < r ==> !Contains(hs[j], needle)
    ensures r == -1 <==> forall j :: 0 <= j < |hs| ==> !Contains(hs[j], needle)
  {
    FindIndexFrom(hs, needle, 0)
  }

  /** `identifyTimestampColumn(table)`: the first header containing
      "timestamp", else the last column, never below 0; 1 when the table
      has no row at all. */
  function IdentifyTimestampColumn(head: seq<Row>, body: seq<Row>): (idx: int)
    ensures idx >= 0
    ensures HeaderRow(head, body).None? ==> idx == 1
    ensures HeaderRow(head, body).Some? ==>
      var hs := HeaderTexts(HeaderRow(head, body).value);
      if exists j :: 0 <= j < |hs| && Contains(hs[j], "timestamp") then
        idx < |hs| && Contains(hs[idx], "timestamp") &&
        forall j :: 0 <= j < idx ==> !Contains(hs[j], "timestamp")
      else idx == if |hs| == 0 then 0 else |hs| - 1
  {
    match HeaderRow(head, body)
    case None => 1
    case Some(r) =>
      var hs := HeaderTexts(r);
      var i := FindIndex(hs, "timestamp");
      var idx := if i == -1 then |hs| - 1 else i;
      if idx < 0 then 0 else idx
  }

  /** `isMatchScheduleTable(table)`: some header contains "match time". */
  function IsMatchScheduleTable(head: seq<Row>, body: seq<Row>): (b: bool)
    ensures b <==> (HeaderRow(head, body).Some? &&
                    var hs := HeaderTexts(HeaderRow(head, body).value);
                    exists j :: 0 <= j < |hs| && Contains(hs[j], "match time"))
  {
    match HeaderRow(head, body)
    case None => false
    case Some(r) => FindIndex(HeaderTexts(r), "match time") >= 0
  }

  /** `identifyMatchTimeColumn(table)`: the first header containing
      "match time", else the last column (-1 for a row without cells).
      The source reads `headerRow.children` without a check, so it needs a
      row to read. */
  function IdentifyMatchTimeColumn(head: seq<Row>, body: seq<Row>): (idx: int)
    requires HeaderRow(head, body).Some?
    ensures var hs := HeaderTexts(HeaderRow(head, body).value);
      && -1 <= idx < |hs|
      && (if exists j :: 0 <= j < |hs| && Contains(hs[j], "match time") then
            idx >= 0 && Contains(hs[idx], "match time") &&
            forall j :: 0 <= j < idx ==> !Contains(hs[j], "match time")
          else idx == |hs| - 1)
  {
    var hs := HeaderTexts(HeaderRow(head, body).value);
    var i := FindIndex(hs, "match time");
    if i == -1 then |hs| - 1 else i
  }

  /** The column processTable reads and after which it inserts. It is never
      negative: a match table has a header containing "match time", and the
      other index is clamped. */
  function ColumnIndex(head: seq<Row>, body: seq<Row>): (idx: int)
    ensures idx >= 0
  {
    if IsMatchScheduleTable(head, body) then IdentifyMatchTimeColumn(head, body)
    else IdentifyTimestampColumn(head, body)
  }

  // ------------------------------------------------- findAllScheduleTables

  /** `normalize(headerRow.textContent).toLowerCase()`, or `""`. */
  function HeaderText(head: seq<Row>, body: seq<Row>): string {
    match HeaderRow(head, body)
    case None => ""
    case Some(r) => Lower(Normalize(RowText(r)))
  }

  /** The texts of the `td` cells of a row, in order. */
  function RowTdTexts(r: Row): seq<string> {
    if r == [] then []
    else RowTdTexts(r[..|r| - 1]) + (if r[|r| - 1].isHeader then [] else [r[|r| - 1].text])
  }

  /** `table.querySelectorAll("tbody td, td")`: every `td` of the table in
      document order, as texts. */
  function TdTexts(rows: seq<Row>): seq<string> {
    if rows == [] then [] else TdTexts(rows[..|rows| - 1]) + RowTdTexts(rows[|rows| - 1])
  }

  /** `.slice(0, 8)`. */
  function SampleTexts(head: seq<Row>, body: seq<Row>): (r: seq<string>)
    ensures |r| <= 8
  {
    var all := TdTexts(head + body);
    if |all| <= 8 then all else all[..8]
  }

  function HasIsoDateFrom(s: string, i: nat): (b: bool)
    decreases |s| - i
    ensures b <==> exists k: nat :: i <= k && IsoDateAt(s, k)
  {
    if i + 10 > |s| then false else IsoDateAt(s, i) || HasIsoDateFrom(s, i + 1)
  }

  /** `/(\d{4}-\d{2}-\d{2})(\s*\/\s*\d{4}-\d{2}-\d{2})?/.test(s)`: the
      optional group can always match empty, so the test asks for an ISO
      date anywhere. */
  function HasIsoDate(s: string): (b: bool)
    ensures b <==> exists k: nat :: IsoDateAt(s, k)
  {
    HasIsoDateFrom(s, 0)
  }

  /** Whether one iteration of findAllScheduleTables keeps the table. */
  predicate IsScheduleTable(head: seq<Row>, body: seq<Row>) {
    var ht := HeaderText(head, body);
    var sample := SampleTexts(head, body);
    Contains(ht, "timestamp") || Contains(ht, "event") || Contains(ht, "match time") ||
    exists k :: 0 <= k < |sample| && HasIsoDate(sample[k])
  }

  /** The heuristic looks no further than the first eight `td` cells: two
      tables with the same header text and the same first eight `td` texts
      are classified alike. */
  lemma OnlyEightCellsMatter(h1: seq<Row>, b1: seq<Row>, h2: seq<Row>, b2: seq<Row>)
    requires HeaderText(h1, b1) == HeaderText(h2, b2)
    requires var t1 := TdTexts(h1 + b1); var t2 := TdTexts(h2 + b2);
      (|t1| <= 8 || |t2| <= 8 ==> t1 == t2) && (|t1| > 8 && |t2| > 8 ==> t1[..8] == t2[..8])
    ensures IsScheduleTable(h1, b1) == IsScheduleTable(h2, b2)
  {
    assert SampleTexts(h1, b1) == SampleTexts(h2, b2);
  }

  /** The elements of `xs` whose flag in `keep` is set, in order. */
  function Select<T>(xs: seq<T>, keep: seq<bool>): (r: seq<T>)
    requires |keep| == |xs|
    ensures |r| <= |xs|
  {
    if xs == [] then []
    else
      var n := |xs| - 1;
      Select(xs[..n], keep[..n]) + (if keep[n] then [xs[n]] else [])
  }

  /** An element is selected exactly when it sits at a flagged position. */
  lemma {:induction false} SelectMembers<T>(xs: seq<T>, keep: seq<bool>, x: T)
    requires |keep| == |xs|
    ensures x in Select(xs, keep) <==> exists i :: 0 <= i < |xs| && xs[i] == x && keep[i]
    decreases |xs|
  {
    if xs != [] {
      var n := |xs| - 1;
      SelectMembers(xs[..n], keep[..n], x);
      if x in Select(xs, keep) && x !in Select(xs[..n], keep[..n]) {
        assert xs[n] == x && keep[n];
      }
      if exists i :: 0 <= i < |xs| && xs[i] == x && keep[i] {
        var i :| 0 <= i < |xs| && xs[i] == x && keep[i];
        if i < n {
          assert xs[..n][i] == x && keep[..n][i];
        }
      }
    }
  }

  /** A selection from distinct elements holds each of them at most once. */
  lemma {:induction false} SelectDistinct<T>(xs: seq<T>, keep: seq<bool>)
    requires |keep| == |xs|
    requires forall i, j :: 0 <= i < j < |xs| ==> xs[i] != xs[j]
    ensures var w := Select(xs, keep); forall i, j :: 0 <= i < j < |w| ==> w[i] != w[j]
    decreases |xs|
  {
    if xs != [] {
      var n := |xs| - 1;
      var pre := xs[..n];
      assert forall i, j :: 0 <= i < j < |pre| ==> pre[i] != pre[j] by {
        assert forall i :: 0 <= i < |pre| ==> pre[i] == xs[i];
      }
      SelectDistinct(pre, keep[..n]);
      var w := Select(pre, keep[..n]);
      forall k | 0 <= k < |w|
        ensures w[k] != xs[n]
      {
        SelectMembers(pre, keep[..n], w[k]);
        var m :| 0 <= m < |pre| && pre[m] == w[k] && keep[..n][m];
        assert xs[m] == w[k];
      }
    }
  }

  /** Whether each table passes the test of findAllScheduleTables. */
  function Verdicts(tables: seq<Table>): (v: seq<bool>)
    reads tables
    ensures |v| == |tables|
    ensures forall i :: 0 <= i < |tables| ==> v[i] == IsScheduleTable(tables[i].head, tables[i].body)
  {
    seq(|tables|, i reads tables requires 0 <= i < |tables| => IsScheduleTable(tables[i].head, tables[i].body))
  }

  /** The tables findAllScheduleTables returns, in document order. */
  function ScheduleTables(tables: seq<Table>): seq<Table>
    reads tables
  {
    Select(tables, Verdicts(tables))
  }

  /** A table is returned exactly when it is one of the input tables and
      passes the test. */
  lemma ScheduleTablesMembers(tables: seq<Table>, t: Table)
    ensures t in ScheduleTables(tables) <==> t in tables && IsScheduleTable(t.head, t.body)
  {
    SelectMembers(tables, Verdicts(tables), t);
  }

  /** A selection from distinct tables holds each of them at most once. */
  lemma ScheduleTablesDistinct(tables: seq<Table>)
    requires forall i, j :: 0 <= i < j < |tables| ==> tables[i] != tables[j]
    ensures var w := ScheduleTables(tables); forall i, j :: 0 <= i < j < |w| ==> w[i] != w[j]
  {
    var keep := Verdicts(tables);
    SelectDistinct(tables, keep);
    assert ScheduleTables(tables) == Select(tables, keep);
  }

  /** `findAllScheduleTables()`: the loop over the tables of the document,
      pushing each one that passes the test. */
  method FindAllScheduleTables(tables: seq<Table>) returns (wanted: seq<Table>)
    ensures wanted == ScheduleTables(tables)
  {
    ghost var keep := Verdicts(tables);
    wanted := [];
    for i := 0 to |tables|
      invariant wanted == Select(tables[..i], keep[..i])
    {
      var table := tables[i];
      assert tables[..i + 1][..i] == tables[..i] && keep[..i + 1][..i] == keep[..i];
      var headerText := HeaderText(table.head, table.body);
      var hasTimestamp := Contains(headerText, "timestamp") || Contains(headerText, "event");
      var hasMatchTime := Contains(headerText, "match time");
      if hasTimestamp || hasMatchTime {
        wanted := wanted + [table];
        continue;
      }
      var sampleCells := SampleTexts(table.head, table.body);
      var hasDates := exists k :: 0 <= k < |sampleCells| && HasIsoDate(sampleCells[k]);
      if hasDates {
        wanted := wanted + [table];
      }
    }
    assert tables[..|tables|] == tables && keep[..|tables|] == keep;
  }
}
