/**
 * `renderAll` and `rerender` (content.js:333-353), and what a teardown does
 * to a table that processTable patched.
 */
module Render {
  import opened Dom
  import opened Classify
  import opened Format
  import opened Augment
  import opened Teardown

  // -------------------------------------------- teardown of a patched table

  /** processTable on a table without a marker: the marker header after
      the chosen column, then the row loop with the environment of
      `TableEnv`. The lemmas below hold for every environment, and so for
      this one. */
  lemma ProcessedParts(head: seq<Row>, body: seq<Row>, context: seq<seq<string>>, fmt: Formatter, currentYear: nat)
    requires !Patched(head, body)
    ensures var env := TableEnv(head, body, context, fmt, currentYear);
      && env.idx == ColumnIndex(head, body)
      && Processed(head, body, context, fmt, currentYear) == (WithHeader(head, env.idx), AugmentRows(body, env))
  {
  }

  /** After the marker header is added after column `k` of a first
      `thead` row that has it, in rows without markers, that marker is the
      first and only one, right after column `k`. */
  lemma TheadMarker(head: seq<Row>, k: nat, b: seq<Row>)
    requires MarkerCount(head) == 0 && MarkerCount(b) == 0
    requires head != [] && k < |head[0]|
    ensures var rows := WithHeader(head, k) + b;
      && |rows| >= 1
      && MarkerCount(rows) == 1
      && MarkerRow(rows) == 0
      && MarkerIndex(rows[0]) == k + 1
  {
    var h := WithHeader(head, k);
    var rows := h + b;
    WithHeaderMarkers(head, k);
    MarkerCountAppend(h, b);
    assert rows[0] == h[0];
    assert MarkersInRow(head[0]) == 0 by {
      RowMarkersBound(head, 0);
    }
    InsertedMarker(head[0], k);
  }

  /** Taking the marker back out of the patched rows gives the rows as
      they were. */
  lemma TheadCut(head: seq<Row>, k: nat, b: seq<Row>)
    requires head != [] && k < |head[0]|
    ensures var rows := WithHeader(head, k) + b;
      rows[0 := RemoveAt(rows[0], k + 1)] == head + b
  {
    var rows := WithHeader(head, k) + b;
    assert rows[0] == InsertAfter(head[0], k, Marker);
    RemoveInserted(head[0], k, Marker);
    var cut := rows[0 := RemoveAt(rows[0], k + 1)];
    assert cut[0] == (head + b)[0];
    forall j | 1 <= j < |cut|
      ensures cut[j] == (head + b)[j]
    {
      if j < |head| {
        assert rows[j] == head[j];
      }
    }
  }

  /** Tearing down a table patched after column `k` of its first `thead`
      row, which has that column, drops column `k + 1` from the rows the
      table had: the marker, and the cell after column `k` in each row.
      This holds for any body rows, those after the row loop included. */
  lemma TheadTornDown(head: seq<Row>, k: nat, b: seq<Row>)
    requires MarkerCount(head) == 0 && MarkerCount(b) == 0
    requires head != [] && k < |head[0]|
    ensures TornDown(WithHeader(head, k) + b) == DropColumn(head + b, k + 1)
  {
    var rows := WithHeader(head, k) + b;
    TheadMarker(head, k, b);
    OneMarkerTornDown(rows, k + 1);
    TheadCut(head, k, b);
  }

  /** Without a `thead`, the marker header is a new row holding only the
      marker: the first and only marker, at position 0. */
  lemma HeadlessMarker(k: int, b: seq<Row>)
    requires MarkerCount(b) == 0
    ensures var rows := WithHeader([], k) + b;
      && |rows| >= 1
      && MarkerCount(rows) == 1
      && MarkerRow(rows) == 0
      && MarkerIndex(rows[0]) == 0
      && rows[0 := RemoveAt(rows[0], 0)] == [[]] + b
  {
    var h := WithHeader([], k);
    var rows := h + b;
    WithHeaderMarkers([], k);
    MarkerCountAppend(h, b);
    assert rows[0] == [Marker];
    MarkersOfOne(Marker);
  }

  /** Tearing down a table patched without a `thead` drops the first
      column from the body rows, below a header row left empty. */
  lemma HeadlessTornDown(k: int, b: seq<Row>)
    requires MarkerCount(b) == 0
    ensures TornDown(WithHeader([], k) + b) == DropColumn([[]] + b, 0)
  {
    HeadlessMarker(k, b);
    OneMarkerTornDown(WithHeader([], k) + b, 0);
  }

  /** Removing the cell after column `idx` from a data row after the row
      loop: the row comes back when it has column `idx`; a shorter row,
      whose new cell went to its end, has nothing at `idx + 1` and keeps
      that cell. */
  lemma AugmentedRowRestored(prev: seq<Row>, row: Row, env: Env, r: Row)
    requires !HasHeaderCell(row) && row != []
    requires r == AugmentRow(prev, row, env)
    ensures env.idx < |row| ==> RemoveAt(r, env.idx + 1) == row
    ensures env.idx >= |row| ==> RemoveAt(r, env.idx + 1) == r && |r| == |row| + 1
  {
    AugmentRowShape(prev, row, env);
  }

  /** Patching and then tearing down, with a `thead` whose first row has
      the chosen column, for any cell parser: the header row loses the
      cell after that column along with the marker. */
  lemma PatchRestoresHeader(head: seq<Row>, body: seq<Row>, env: Env)
    requires MarkerCount(head) == 0 && MarkerCount(body) == 0
    requires head != [] && env.idx < |head[0]|
    ensures var t := TornDown(WithHeader(head, env.idx) + AugmentRows(body, env));
      |t| == |head| + |body| && t[0] == RemoveAt(head[0], env.idx + 1)
  {
    var b := AugmentRows(body, env);
    AugmentRowsMarkers(body, env);
    TheadTornDown(head, env.idx, b);
    assert (head + b)[0] == head[0];
  }

  /** The same patch and teardown: every data row long enough to hold the
      chosen column gets back exactly what it had; a shorter data row
      keeps the cell the patch appended to it. */
  lemma PatchRestoresRow(head: seq<Row>, body: seq<Row>, env: Env, i: nat)
    requires MarkerCount(head) == 0 && MarkerCount(body) == 0
    requires head != [] && env.idx < |head[0]|
    requires i < |body| && !HasHeaderCell(body[i]) && body[i] != []
    ensures var t := TornDown(WithHeader(head, env.idx) + AugmentRows(body, env));
      && |t| == |head| + |body|
      && (env.idx < |body[i]| ==> t[|head| + i] == body[i])
      && (env.idx >= |body[i]| ==> t[|head| + i] == AugmentRows(body, env)[i] && |t[|head| + i]| == |body[i]| + 1)
  {
    var b := AugmentRows(body, env);
    AugmentRowsMarkers(body, env);
    TheadTornDown(head, env.idx, b);
    assert (head + b)[|head| + i] == b[i];
    AugmentRowsAt(body, i, env);
    AugmentedRowRestored(b[..i], body[i], env, b[i]);
  }

  /** Without a `thead`, processTable puts the marker alone into a new
      header row; the teardown leaves that header row empty and removes
      the first cell of every body row, whatever column the patch used. */
  lemma PatchWithoutThead(body: seq<Row>, env: Env, i: nat)
    requires MarkerCount(body) == 0 && i < |body|
    ensures var t := TornDown(WithHeader([], env.idx) + AugmentRows(body, env));
      && |t| == 1 + |body|
      && t[0] == []
      && t[1 + i] == RemoveAt(AugmentRows(body, env)[i], 0)
  {
    var b := AugmentRows(body, env);
    AugmentRowsMarkers(body, env);
    HeadlessTornDown(env.idx, b);
    var rows: seq<Row> := [[]] + b;
    AfterFirst(rows, b, i);
    var t := DropColumn(rows, 0);
    assert t[0] == RemoveAt([], 0) == [];
    assert t[1 + i] == RemoveAt(b[i], 0);
  }

  lemma AfterFirst(rows: seq<Row>, b: seq<Row>, i: nat)
    requires rows == [[]] + b && i < |b|
    ensures rows[0] == [] && rows[1 + i] == b[i]
  {
  }

  // ---------------------------------------------------------- renderAll

  /** A table's rows after the loop of renderAll: processed when
      findAllScheduleTables selects it, untouched otherwise. */
  function Rendered(head: seq<Row>, body: seq<Row>, context: seq<seq<string>>, fmt: Formatter, currentYear: nat): (seq<Row>, seq<Row>) {
    if IsScheduleTable(head, body) then Processed(head, body, context, fmt, currentYear) else (head, body)
  }

  /** A second renderAll, as the page's mutations trigger, changes nothing,
      even with another zone: only rerender's teardown lets a new zone
      show. */
  lemma RenderedIdempotent(head: seq<Row>, body: seq<Row>, context: seq<seq<string>>,
                           fmt: Formatter, currentYear: nat, fmt': Formatter, currentYear': nat)
    ensures var (h, b) := Rendered(head, body, context, fmt, currentYear);
      Rendered(h, b, context, fmt', currentYear') == (h, b)
  {
    if IsScheduleTable(head, body) {
      ProcessedIdempotent(head, body, context, fmt, currentYear, fmt', currentYear');
    }
  }

  /** A table without markers ends with exactly one when it is selected,
      and with none otherwise. */
  lemma RenderedMarkers(head: seq<Row>, body: seq<Row>, context: seq<seq<string>>, fmt: Formatter, currentYear: nat)
    requires MarkerCount(head) == 0 && MarkerCount(body) == 0
    ensures var (h, b) := Rendered(head, body, context, fmt, currentYear);
      MarkerCount(h) + MarkerCount(b) == if IsScheduleTable(head, body) then 1 else 0
  {
    if IsScheduleTable(head, body) {
      ProcessedMarkers(head, body, context, fmt, currentYear);
    }
  }

  /** `renderAll()` once the settings are read: the zone's formatters and
      the current year are given. The tables come from
      `document.querySelectorAll("table")` and so are distinct. */
  method RenderAll(tables: seq<Table>, fmt: Formatter, currentYear: nat)
    requires forall i, j :: 0 <= i < j < |tables| ==> tables[i] != tables[j]
    modifies set t | t in tables
    ensures forall t :: t in tables ==>
      (t.head, t.body) == Rendered(old(t.head), old(t.body), t.context, fmt, currentYear)
  {
    var wanted := FindAllScheduleTables(tables);
    ScheduleTablesDistinct(tables);
    forall t | t in tables
      ensures t in wanted <==> IsScheduleTable(t.head, t.body)
    {
      ScheduleTablesMembers(tables, t);
    }
    forall k | 0 <= k < |wanted|
      ensures wanted[k] in tables
    {
      ScheduleTablesMembers(tables, wanted[k]);
    }
    ProcessTables(wanted, fmt, currentYear);
  }

  /** The loop of renderAll: processTable on each selected table, once. */
  method ProcessTables(wanted: seq<Table>, fmt: Formatter, currentYear: nat)
    requires forall i, j :: 0 <= i < j < |wanted| ==> wanted[i] != wanted[j]
    modifies set t | t in wanted
    ensures forall t :: t in wanted ==>
      (t.head, t.body) == Processed(old(t.head), old(t.body), t.context, fmt, currentYear)
  {
    for i := 0 to |wanted|
      invariant forall t :: t in wanted[..i] ==>
        (t.head, t.body) == Processed(old(t.head), old(t.body), t.context, fmt, currentYear)
      invariant forall t :: t in wanted && t !in wanted[..i] ==>
        t.head == old(t.head) && t.body == old(t.body)
    {
      var table := wanted[i];
      assert table !in wanted[..i];
      Snoc(wanted, i);
      ProcessTable(table, fmt, currentYear);
    }
    assert wanted[..|wanted|] == wanted;
  }

  lemma Snoc(w: seq<Table>, i: nat)
    requires i < |w|
    ensures w[..i + 1] == w[..i] + [w[i]]
  {
  }

  /** The marker loop of `rerender()` over the tables of the document:
      every table is torn down, and no marker is left. */
  method RemoveAllLocalTimeColumns(tables: seq<Table>)
    requires forall i, j :: 0 <= i < j < |tables| ==> tables[i] != tables[j]
    modifies set t | t in tables
    ensures forall t :: t in tables ==> (t.head, t.body) == Torn(old(t.head), old(t.body))
    ensures forall t :: t in tables ==> MarkerCount(t.head) == 0 && MarkerCount(t.body) == 0
  {
    for i := 0 to |tables|
      invariant forall t :: t in tables[..i] ==> (t.head, t.body) == Torn(old(t.head), old(t.body))
      invariant forall t :: t in tables && t !in tables[..i] ==> t.head == old(t.head) && t.body == old(t.body)
    {
      assert tables[i] !in tables[..i];
      RemoveLocalTimeColumns(tables[i]);
      assert tables[..i + 1] == tables[..i] + [tables[i]];
    }
    assert tables[..|tables|] == tables;
    forall t | t in tables
      ensures MarkerCount(t.head) == 0 && MarkerCount(t.body) == 0
    {
      TornClean(old(t.head), old(t.body));
    }
  }

  /** `rerender()`: every marker and its column go, then renderAll runs
      afresh; a table ends with at most one marker. */
  method Rerender(tables: seq<Table>, fmt: Formatter, currentYear: nat)
    requires forall i, j :: 0 <= i < j < |tables| ==> tables[i] != tables[j]
    modifies set t | t in tables
    ensures forall t :: t in tables ==>
      var (h, b) := Torn(old(t.head), old(t.body));
      (t.head, t.body) == Rendered(h, b, t.context, fmt, currentYear)
    ensures forall t :: t in tables ==> MarkerCount(t.head) + MarkerCount(t.body) <= 1
  {
    RemoveAllLocalTimeColumns(tables);
    label torn:
    RenderAll(tables, fmt, currentYear);
    forall t | t in tables
      ensures MarkerCount(t.head) + MarkerCount(t.body) <= 1
    {
      RenderedMarkers(old@torn(t.head), old@torn(t.body), t.context, fmt, currentYear);
    }
  }
}
