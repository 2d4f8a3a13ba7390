/**
 * The first half of `rerender` (content.js:341-351): every marker header
 * cell is removed, and with it the cell at the marker's position in every
 * row of its table.
 */
module Teardown {
  import opened Dom

  /** The position of the first marker of `r` at or after `i`; `|r|` when
      there is none. */
  function MarkerIndexFrom(r: Row, i: nat): (c: nat)
    requires i <= |r|
    decreases |r| - i
    ensures i <= c <= |r|
    ensures forall j :: i <= j < c ==> !IsMarker(r[j])
    ensures c < |r| ==> IsMarker(r[c])
  {
    if i == |r| || IsMarker(r[i]) then i else MarkerIndexFrom(r, i + 1)
  }

  /** `Array.from(th.parentElement.children).indexOf(th)` for the first
      marker `th` of the row. */
  function MarkerIndex(r: Row): (c: nat)
    ensures c <= |r|
    ensures forall j :: 0 <= j < c ==> !IsMarker(r[j])
    ensures c < |r| ==> IsMarker(r[c])
  {
    MarkerIndexFrom(r, 0)
  }

  /** A row in which no cell is a marker counts none. */
  lemma {:induction false} NoMarkerCells(r: Row)
    requires forall j :: 0 <= j < |r| ==> !IsMarker(r[j])
    ensures MarkersInRow(r) == 0
    decreases |r|
  {
    if r != [] {
      NoMarkerCells(r[..|r| - 1]);
    }
  }

  /** Whether a row holds a marker is whether its first marker position
      lies inside it. */
  lemma MarkerIndexCount(r: Row)
    ensures MarkerIndex(r) < |r| <==> MarkersInRow(r) > 0
  {
    if MarkerIndex(r) < |r| {
      MarkersInRowPositive(r, MarkerIndex(r));
    } else {
      NoMarkerCells(r);
    }
  }

  /** A row's markers are some of the table's. */
  lemma RowMarkersBound(rows: seq<Row>, i: nat)
    requires i < |rows|
    ensures MarkersInRow(rows[i]) <= MarkerCount(rows)
  {
    MarkerCountUpdate(rows, i, []);
  }

  /** A row without markers has no marker cell. */
  lemma NoMarkerCell(r: Row, j: nat)
    requires MarkersInRow(r) == 0 && j < |r|
    ensures !IsMarker(r[j])
  {
    if IsMarker(r[j]) {
      MarkersInRowPositive(r, j);
    }
  }

  function MarkerRowFrom(rows: seq<Row>, i: nat): (k: nat)
    requires i <= |rows|
    decreases |rows| - i
    ensures i <= k <= |rows|
    ensures forall j :: i <= j < k ==> MarkersInRow(rows[j]) == 0
    ensures k < |rows| ==> MarkersInRow(rows[k]) > 0
  {
    if i == |rows| || MarkersInRow(rows[i]) > 0 then i else MarkerRowFrom(rows, i + 1)
  }

  /** The row of the first marker in document order; `|rows|` when there
      is none. */
  function MarkerRow(rows: seq<Row>): (k: nat)
    ensures k <= |rows|
    ensures forall j :: 0 <= j < k ==> MarkersInRow(rows[j]) == 0
    ensures k < |rows| ==> MarkersInRow(rows[k]) > 0
  {
    MarkerRowFrom(rows, 0)
  }

  /** Rows none of which holds a marker count none. */
  lemma {:induction false} NoMarkerRows(rows: seq<Row>)
    requires forall j :: 0 <= j < |rows| ==> MarkersInRow(rows[j]) == 0
    ensures MarkerCount(rows) == 0
    decreases |rows|
  {
    if rows != [] {
      NoMarkerRows(rows[..|rows| - 1]);
    }
  }

  /** Whether the rows hold a marker is whether the first marker row lies
      inside them. */
  lemma MarkerRowCount(rows: seq<Row>)
    ensures MarkerRow(rows) < |rows| <==> MarkerCount(rows) > 0
  {
    if MarkerRow(rows) < |rows| {
      RowMarkersBound(rows, MarkerRow(rows));
    } else {
      NoMarkerRows(rows);
    }
  }

  /** `rows.forEach((tr) => { if (tds[c]) tds[c].remove(); })`. */
  function DropColumn(rows: seq<Row>, c: nat): (r: seq<Row>)
    ensures |r| == |rows|
    ensures forall i :: 0 <= i < |rows| ==> r[i] == RemoveAt(rows[i], c)
  {
    seq(|rows|, i requires 0 <= i < |rows| => RemoveAt(rows[i], c))
  }

  lemma DropColumnAppend(a: seq<Row>, b: seq<Row>, c: nat)
    ensures DropColumn(a + b, c) == DropColumn(a, c) + DropColumn(b, c)
  {
  }

  /** Dropping a column never adds a marker. */
  lemma {:induction false} DropColumnMarkers(rows: seq<Row>, c: nat)
    ensures MarkerCount(DropColumn(rows, c)) <= MarkerCount(rows)
    decreases |rows|
  {
    if rows != [] {
      var n := |rows| - 1;
      DropColumnMarkers(rows[..n], c);
      assert DropColumn(rows, c)[..n] == DropColumn(rows[..n], c);
      MarkersRemoved(rows[n], c);
    }
  }

  /** The work one marker causes: the marker cell is removed, then the cell
      now at its position in every row of the table, the marker's own row
      included. */
  function TearStep(rows: seq<Row>): (r: seq<Row>)
    requires MarkerCount(rows) > 0
    ensures |r| == |rows|
    ensures MarkerCount(r) < MarkerCount(rows)
  {
    MarkerRowCount(rows);
    var ri := MarkerRow(rows);
    MarkerIndexCount(rows[ri]);
    var c := MarkerIndex(rows[ri]);
    var cut := RemoveAt(rows[ri], c);
    MarkersRemoved(rows[ri], c);
    MarkerCountUpdate(rows, ri, cut);
    DropColumnMarkers(rows[ri := cut], c);
    TearAt(rows, ri, c)
  }

  /** The marker at `c` in row `ri` removed, then column `c`. */
  function TearAt(rows: seq<Row>, ri: nat, c: nat): seq<Row>
    requires ri < |rows|
  {
    DropColumn(rows[ri := RemoveAt(rows[ri], c)], c)
  }

  /** The rows of a table once every marker is gone: the markers are
      handled in document order. */
  function TornDown(rows: seq<Row>): (r: seq<Row>)
    decreases MarkerCount(rows)
    ensures |r| == |rows|
    ensures MarkerCount(r) == 0
  {
    if MarkerCount(rows) == 0 then rows else TornDown(TearStep(rows))
  }

  /** A marker inserted into a row without markers is its only one, and
      the first marker position finds it. */
  lemma InsertedMarker(row: Row, k: int)
    requires MarkersInRow(row) == 0
    ensures var r := InsertAfter(row, k, Marker); var p := InsertPos(k, |row|);
      MarkersInRow(r) == 1 && MarkerIndex(r) == p && RemoveAt(r, p) == row
  {
    var r := InsertAfter(row, k, Marker);
    var p := InsertPos(k, |row|);
    MarkersInserted(row, k, Marker);
    forall j | 0 <= j < p
      ensures !IsMarker(r[j])
    {
      NoMarkerCell(row, j);
    }
    assert IsMarker(r[p]);
    RemoveInserted(row, k, Marker);
  }

  /** A step that removes the last marker ends the teardown. */
  lemma LastTearStep(rows: seq<Row>)
    requires MarkerCount(rows) > 0 && MarkerCount(TearStep(rows)) == 0
    ensures TornDown(rows) == TearStep(rows)
  {
    assert TornDown(TearStep(rows)) == TearStep(rows);
  }

  /** The step for a marker at `c` in the first row. */
  lemma FirstRowTearStep(rows: seq<Row>, c: nat)
    requires |rows| >= 1 && MarkerCount(rows) > 0
    requires MarkerRow(rows) == 0 && MarkerIndex(rows[0]) == c
    ensures TearStep(rows) == TearAt(rows, 0, c)
  {
  }

  /** A table with a single marker, in its first row at `c`, is torn down
      in one step: that marker goes, then the cell at `c` of every row. */
  lemma OneMarkerTornDown(rows: seq<Row>, c: nat)
    requires |rows| >= 1 && MarkerCount(rows) == 1
    requires MarkerRow(rows) == 0 && MarkerIndex(rows[0]) == c
    ensures TornDown(rows) == DropColumn(rows[0 := RemoveAt(rows[0], c)], c)
  {
    FirstRowTearStep(rows, c);
    LastTearStep(rows);
  }

  /** The header and body rows of a table once every marker is gone. */
  function Torn(head: seq<Row>, body: seq<Row>): (seq<Row>, seq<Row>) {
    var r := TornDown(head + body);
    (r[..|head|], r[|head|..])
  }

  /** No marker survives the teardown. */
  lemma TornClean(head: seq<Row>, body: seq<Row>)
    ensures var (h, b) := Torn(head, body);
      |h| == |head| && |b| == |body| && MarkerCount(h) == 0 && MarkerCount(b) == 0
  {
    var r := TornDown(head + body);
    assert r == r[..|head|] + r[|head|..];
    MarkerCountAppend(r[..|head|], r[|head|..]);
  }

  /** `th.remove()` on cell `c` of row `ri` (counted over the header rows,
      then the body rows). */
  method RemoveCell(table: Table, ri: nat, c: nat)
    requires ri < |table.head| + |table.body|
    modifies table
    ensures |table.head| == |old(table.head)|
    ensures table.head + table.body == old(table.head + table.body)[ri := RemoveAt(old(table.head + table.body)[ri], c)]
  {
    ghost var rows := table.head + table.body;
    if ri < |table.head| {
      table.head := table.head[ri := RemoveAt(table.head[ri], c)];
    } else {
      var k := ri - |table.head|;
      assert rows[ri] == table.body[k];
      table.body := table.body[k := RemoveAt(table.body[k], c)];
    }
  }

  /** The row loop of rerender: the cell at position `c`, where there is
      one, leaves every row of the table. */
  method RemoveColumn(table: Table, c: nat)
    modifies table
    ensures table.head == DropColumn(old(table.head), c)
    ensures table.body == DropColumn(old(table.body), c)
  {
    ghost var head0 := table.head;
    for j := 0 to |table.head|
      invariant |table.head| == |head0|
      invariant forall k :: 0 <= k < j ==> table.head[k] == RemoveAt(head0[k], c)
      invariant forall k :: j <= k < |head0| ==> table.head[k] == head0[k]
      invariant table.body == old(table.body)
    {
      table.head := table.head[j := RemoveAt(table.head[j], c)];
    }
    ghost var body0 := table.body;
    for j := 0 to |table.body|
      invariant |table.body| == |body0|
      invariant forall k :: 0 <= k < j ==> table.body[k] == RemoveAt(body0[k], c)
      invariant forall k :: j <= k < |body0| ==> table.body[k] == body0[k]
      invariant table.head == DropColumn(head0, c)
    {
      table.body := table.body[j := RemoveAt(table.body[j], c)];
    }
  }

  /** The marker loop of rerender on one table: while a marker is left,
      find the first one and its column, remove it, then the column. */
  method RemoveLocalTimeColumns(table: Table)
    modifies table
    ensures |table.head| == |old(table.head)|
    ensures table.head + table.body == TornDown(old(table.head + table.body))
    ensures (table.head, table.body) == Torn(old(table.head), old(table.body))
  {
    while MarkerCount(table.head + table.body) > 0
      invariant |table.head| == |old(table.head)|
      invariant TornDown(table.head + table.body) == TornDown(old(table.head + table.body))
      decreases MarkerCount(table.head + table.body)
    {
      ghost var rows := table.head + table.body;
      MarkerRowCount(rows);
      var ri := MarkerRow(table.head + table.body);
      var colIndex := MarkerIndex((table.head + table.body)[ri]);
      RemoveCell(table, ri, colIndex);
      ghost var head1, body1 := table.head, table.body;
      RemoveColumn(table, colIndex);
      DropColumnAppend(head1, body1, colIndex);
      assert table.head + table.body == TearStep(rows);
    }
    ghost var r := table.head + table.body;
    assert r[..|table.head|] == table.head && r[|table.head|..] == table.body;
  }
}
