/**
 * The part of the document the table logic of content.js sees: a table is
 * its header rows (the `thead`), its body rows (the `tbody`) and the texts
 * around it; a row is its cells in order; a cell is a `th` or a `td` with
 * its text and whether it carries the `__owc_local_time__` class.
 */
module Dom {
  import opened Wrappers

  /** A `th` (`isHeader`) or a `td`, possibly of class `__owc_local_time__`
      (`isMarker`), with its `textContent`. */
  datatype Cell = Cell(isHeader: bool, isMarker: bool, text: string)

  /** A `tr`: its element children, in order. */
  type Row = seq<Cell>

  /** `th.__owc_local_time__`, the cell `addLocalTimeHeader` creates. */
  const Marker: Cell := Cell(true, true, "Local time")

  /** What the selector `th.__owc_local_time__` matches. */
  predicate IsMarker(c: Cell) {
    c.isHeader && c.isMarker
  }

  /** `tr.querySelector("th")` finds something. */
  predicate HasHeaderCell(r: Row) {
    exists k :: 0 <= k < |r| && r[k].isHeader
  }

  /** `tr.textContent`: the texts of the cells, one after the other. */
  function RowText(r: Row): string {
    if r == [] then [] else RowText(r[..|r| - 1]) + r[|r| - 1].text
  }

  /** The `textContent` of a group of rows. */
  function RowsText(rows: seq<Row>): string {
    if rows == [] then [] else RowsText(rows[..|rows| - 1]) + RowText(rows[|rows| - 1])
  }

  /** The texts of some cells, nearest first: the preceding siblings of the
      cell that follows them. */
  function CellTextsBackward(cells: seq<Cell>): seq<string> {
    if cells == [] then [] else [cells[|cells| - 1].text] + CellTextsBackward(cells[..|cells| - 1])
  }

  /** The texts of some rows, nearest first. */
  function RowTextsBackward(rows: seq<Row>): seq<string> {
    if rows == [] then [] else [RowText(rows[|rows| - 1])] + RowTextsBackward(rows[..|rows| - 1])
  }

  function MarkersInRow(r: Row): nat {
    if r == [] then 0 else MarkersInRow(r[..|r| - 1]) + (if IsMarker(r[|r| - 1]) then 1 else 0)
  }

  /** The number of `th.__owc_local_time__` cells among `rows`. */
  function MarkerCount(rows: seq<Row>): nat {
    if rows == [] then 0 else MarkerCount(rows[..|rows| - 1]) + MarkersInRow(rows[|rows| - 1])
  }

  lemma {:induction false} MarkersInRowAppend(a: Row, b: Row)
    ensures MarkersInRow(a + b) == MarkersInRow(a) + MarkersInRow(b)
    decreases |b|
  {
    if b == [] {
      assert a + b == a;
    } else {
      assert (a + b)[..|a + b| - 1] == a + b[..|b| - 1];
      MarkersInRowAppend(a, b[..|b| - 1]);
    }
  }

  lemma {:induction false} MarkerCountAppend(a: seq<Row>, b: seq<Row>)
    ensures MarkerCount(a + b) == MarkerCount(a) + MarkerCount(b)
    decreases |b|
  {
    if b == [] {
      assert a + b == a;
    } else {
      assert (a + b)[..|a + b| - 1] == a + b[..|b| - 1];
      MarkerCountAppend(a, b[..|b| - 1]);
    }
  }

  /** A row without markers has none; a marker cell counts one. */
  lemma MarkersInRowPositive(r: Row, k: nat)
    requires k < |r| && IsMarker(r[k])
    ensures MarkersInRow(r) > 0
  {
    MarkersInRowAppend(r[..k], r[k..]);
    assert r == r[..k] + r[k..];
    assert r[k..] == [r[k]] + r[k + 1..];
    MarkersInRowAppend([r[k]], r[k + 1..]);
    assert [r[k]][..0] == [];
  }

  /** Replacing one row changes the count by the difference of the two
      rows' counts. */
  lemma MarkerCountUpdate(rows: seq<Row>, i: nat, r: Row)
    requires i < |rows|
    ensures MarkerCount(rows[i := r]) + MarkersInRow(rows[i]) == MarkerCount(rows) + MarkersInRow(r)
  {
    var pre := rows[..i];
    var post := rows[i + 1..];
    assert rows == pre + [rows[i]] + post;
    assert rows[i := r] == pre + [r] + post;
    MarkerCountAppend(pre + [rows[i]], post);
    MarkerCountAppend(pre + [r], post);
    MarkerCountAppend(pre, [rows[i]]);
    MarkerCountAppend(pre, [r]);
    assert [rows[i]][..0] == [] && [r][..0] == [];
  }

  // ------------------------------------------------------- editing a row

  /** Where a cell inserted "after the `k`-th cell" lands: right behind it
      when the row has a `k`-th cell, at the end otherwise. */
  function InsertPos(k: int, n: nat): (p: nat)
    ensures p <= n
    ensures 0 <= k < n ==> p == k + 1
    ensures !(0 <= k < n) ==> p == n
  {
    if 0 <= k < n then k + 1 else n
  }

  /** `ref && ref.nextSibling ? insertBefore(c, ref.nextSibling) :
      appendChild(c)` with `ref` the `k`-th cell of `row`. */
  function InsertAfter(row: Row, k: int, c: Cell): (r: Row)
    ensures |r| == |row| + 1
    ensures r[InsertPos(k, |row|)] == c
    ensures forall j :: 0 <= j < InsertPos(k, |row|) ==> r[j] == row[j]
    ensures forall j :: InsertPos(k, |row|) < j < |r| ==> r[j] == row[j - 1]
  {
    var p := InsertPos(k, |row|);
    row[..p] + [c] + row[p..]
  }

  /** `cell.remove()` on the cell at position `c`, when there is one. */
  function RemoveAt(row: Row, c: nat): (r: Row)
    ensures |r| == if c < |row| then |row| - 1 else |row|
    ensures forall j :: 0 <= j < |r| ==> r[j] == if j < c then row[j] else row[j + 1]
  {
    if c < |row| then row[..c] + row[c + 1..] else row
  }

  /** Removing the inserted cell gives the row back. */
  lemma RemoveInserted(row: Row, k: int, c: Cell)
    ensures RemoveAt(InsertAfter(row, k, c), InsertPos(k, |row|)) == row
  {
    var p := InsertPos(k, |row|);
    var r := InsertAfter(row, k, c);
    assert r == row[..p] + [c] + row[p..];
    assert r[..p] == row[..p] && r[p + 1..] == row[p..];
  }

  lemma MarkersOfOne(c: Cell)
    ensures MarkersInRow([c]) == if IsMarker(c) then 1 else 0
  {
    assert [c][..0] == [];
  }

  /** An inserted cell adds its own marker, if it is one, and nothing
      else. */
  lemma MarkersInserted(row: Row, k: int, c: Cell)
    ensures MarkersInRow(InsertAfter(row, k, c)) == MarkersInRow(row) + if IsMarker(c) then 1 else 0
  {
    var p := InsertPos(k, |row|);
    assert InsertAfter(row, k, c) == (row[..p] + [c]) + row[p..];
    assert row == row[..p] + row[p..];
    MarkersInRowAppend(row[..p] + [c], row[p..]);
    MarkersInRowAppend(row[..p], [c]);
    MarkersInRowAppend(row[..p], row[p..]);
    MarkersOfOne(c);
  }

  /** The markers of a row: those before position `c`, the cell at `c`,
      and those after it. */
  lemma MarkersAround(row: Row, c: nat)
    requires c < |row|
    ensures MarkersInRow(row) == MarkersInRow(row[..c]) + MarkersInRow([row[c]]) + MarkersInRow(row[c + 1..])
  {
    assert row == (row[..c] + [row[c]]) + row[c + 1..];
    MarkersInRowAppend(row[..c] + [row[c]], row[c + 1..]);
    MarkersInRowAppend(row[..c], [row[c]]);
  }

  /** A removed cell takes its own marker, if it is one, and nothing
      else. */
  lemma MarkersRemoved(row: Row, c: nat)
    ensures MarkersInRow(RemoveAt(row, c)) + (if c < |row| && IsMarker(row[c]) then 1 else 0) == MarkersInRow(row)
  {
    if c < |row| {
      MarkersAround(row, c);
      MarkersInRowAppend(row[..c], row[c + 1..]);
      MarkersOfOne(row[c]);
    }
  }

  /** `table.querySelector("th.__owc_local_time__")` finds something. */
  predicate Patched(head: seq<Row>, body: seq<Row>) {
    MarkerCount(head) + MarkerCount(body) > 0
  }

  /** `table.querySelector("thead tr") || table.querySelector("tr")`: the
      first header row, else the first row of the table. */
  function HeaderRow(head: seq<Row>, body: seq<Row>): (r: Option<Row>)
    ensures r.Some? <==> head != [] || body != []
  {
    if head != [] then Some(head[0]) else if body != [] then Some(body[0]) else None
  }

  /**
   * A `table` element. `head` holds the rows of its `thead` (empty when it
   * has none, or an empty one), `body` the rows of its `tbody`; `context`
   * holds, level by level, the texts of the elements that precede the
   * table, its parent, and so on up to the document body, nearest first.
   */
  class Table {
    var head: seq<Row>
    var body: seq<Row>
    const context: seq<seq<string>>

    constructor (head: seq<Row>, body: seq<Row>, context: seq<seq<string>>)
      ensures this.head == head && this.body == body && this.context == context
    {
      this.head := head;
      this.body := body;
      this.context := context;
    }
  }
}
