/**
 * `processTable` and its two DOM helpers (content.js:235-256, 302-330):
 * a marker header cell "Local time" is put after the chosen column of the
 * header row, and every data row of the `tbody` gets a `td` after the
 * timestamp cell, holding the parsed value formatted in the chosen zone or
 * an em dash.
 */
module Augment {
  import opened Wrappers
  import opened Timestamp
  import opened Dom
  import opened Classify
  import opened Format

  /** The header rows after `addLocalTimeHeader(table, k)`: the marker goes
      after the `k`-th cell of the first `thead` row, or alone into a new
      row when the `thead` is missing or empty. */
  function WithHeader(head: seq<Row>, k: int): seq<Row> {
    if head == [] then [[Marker]] else [InsertAfter(head[0], k, Marker)] + head[1..]
  }

  /** Adding the header cell adds exactly one marker, in the first header
      row, and leaves the other header rows alone. */
  lemma WithHeaderMarkers(head: seq<Row>, k: int)
    ensures |WithHeader(head, k)| == if head == [] then 1 else |head|
    ensures MarkerCount(WithHeader(head, k)) == MarkerCount(head) + 1
    ensures head != [] ==> WithHeader(head, k)[0] == InsertAfter(head[0], k, Marker)
    ensures head != [] ==> WithHeader(head, k)[1..] == head[1..]
  {
    var h := WithHeader(head, k);
    if head == [] {
      assert h[..0] == [];
      MarkersOfOne(Marker);
    } else {
      MarkersInserted(head[0], k, Marker);
      MarkerCountAppend([head[0]], head[1..]);
      MarkerCountAppend([h[0]], head[1..]);
      assert head == [head[0]] + head[1..];
      assert [head[0]][..0] == [] && [h[0]][..0] == [];
    }
  }

  /** The fixed arguments of the row loop in processTable: the column,
      the `thead` text the year search meets on its way up, the levels
      above the table, the cell parser and the formatters of the chosen
      zone. */
  datatype Env = Env(idx: nat, headText: string, context: seq<seq<string>>,
                     parse: (string, seq<seq<string>>) -> Option<Parsed>, fmt: Formatter)

  /** `isMatch ? parseMatchTimeCell(...) : parseAnyTimestamp(...)`, a match
      cell's year defaulting to `currentYear`. */
  function CellParser(isMatch: bool, currentYear: nat): (string, seq<seq<string>>) -> Option<Parsed> {
    (text: string, levels: seq<seq<string>>) =>
      if isMatch then ParseMatchTimeCell(text, levels, currentYear)
      else ParseAnyTimestamp(text, levels, currentYear)
  }

  /** `Math.min(idx, cells.length - 1)`. */
  function CellPos(row: Row, idx: nat): (p: int)
    ensures row != [] ==> 0 <= p < |row|
  {
    if idx < |row| then idx else |row| - 1
  }

  /** The levels `inferYearFromSection` climbs from the cell at position
      `p` of `row`, which follows the rows `prev` of the `tbody`: the
      cells before it, the rows before it (in their current state), the
      `thead`, and then the levels above the table. */
  function CellLevels(row: Row, p: nat, prev: seq<Row>, env: Env): seq<seq<string>>
    requires p <= |row|
  {
    [CellTextsBackward(row[..p]), RowTextsBackward(prev), [env.headText]] + env.context
  }

  /** The `td` insertLocalCell creates for `display`. */
  function LocalCell(display: string): Cell {
    Cell(false, false, CellText(display))
  }

  /** The new cell of a data row. */
  function RowCell(prev: seq<Row>, row: Row, env: Env): Cell
    requires row != []
  {
    var p := CellPos(row, env.idx);
    LocalCell(Display(env.parse(row[p].text, CellLevels(row, p, prev, env)), env.fmt))
  }

  /** One iteration of the row loop: rows holding a `th` and rows without
      cells are skipped; any other row gets its new cell after the
      timestamp cell. */
  function AugmentRow(prev: seq<Row>, row: Row, env: Env): Row {
    if HasHeaderCell(row) || row == [] then row
    else InsertAfter(row, CellPos(row, env.idx), RowCell(prev, row, env))
  }

  /** The shape of one row after the loop: a skipped row is unchanged; a
      data row has one more cell, a `td` right after its timestamp cell
      holding the parsed value, or an em dash when the cell did not parse,
      and removing that cell gives the row back. No row gains a marker. */
  lemma AugmentRowShape(prev: seq<Row>, row: Row, env: Env)
    ensures HasHeaderCell(row) || row == [] ==> AugmentRow(prev, row, env) == row
    ensures !(HasHeaderCell(row) || row == []) ==>
      var r := AugmentRow(prev, row, env);
      var p := CellPos(row, env.idx);
      var parsed := env.parse(row[p].text, CellLevels(row, p, prev, env));
      && |r| == |row| + 1
      && r[p + 1] == LocalCell(Display(parsed, env.fmt))
      && !r[p + 1].isHeader && r[p + 1].text != []
      && (parsed.None? ==> r[p + 1].text == EmDash)
      && RemoveAt(r, p + 1) == row
    ensures MarkersInRow(AugmentRow(prev, row, env)) == MarkersInRow(row)
  {
    if !(HasHeaderCell(row) || row == []) {
      var p := CellPos(row, env.idx);
      var c := RowCell(prev, row, env);
      assert InsertPos(p, |row|) == p + 1;
      RemoveInserted(row, p, c);
      MarkersInserted(row, p, c);
    }
  }

  /** The body rows after the loop of processTable: left to right, each
      row seeing the rows before it as already augmented. */
  function AugmentRows(body: seq<Row>, env: Env): (r: seq<Row>)
    ensures |r| == |body|
  {
    if body == [] then []
    else
      var prev := AugmentRows(body[..|body| - 1], env);
      prev + [AugmentRow(prev, body[|body| - 1], env)]
  }

  /** The loop result restricted to the first rows is the loop over those
      rows. */
  lemma {:induction false} AugmentRowsPrefix(body: seq<Row>, i: nat, env: Env)
    requires i <= |body|
    ensures AugmentRows(body, env)[..i] == AugmentRows(body[..i], env)
    decreases |body|
  {
    if i < |body| {
      AugmentRowsPrefix(body[..|body| - 1], i, env);
      assert body[..|body| - 1][..i] == body[..i];
    } else {
      assert body[..i] == body;
    }
  }

  /** Row `i` of the result is row `i` augmented with the rows before it
      in their augmented state, which is what `inferYearFromSection`
      reads through `previousElementSibling`. */
  lemma AugmentRowsAt(body: seq<Row>, i: nat, env: Env)
    requires i < |body|
    ensures var r := AugmentRows(body, env); r[i] == AugmentRow(r[..i], body[i], env)
  {
    AugmentRowsPrefix(body, i + 1, env);
    AugmentRowsPrefix(body, i, env);
    assert body[..i + 1][..i] == body[..i];
    assert AugmentRows(body, env)[..i + 1][..i] == AugmentRows(body, env)[..i];
  }

  /** The row loop adds no marker. */
  lemma {:induction false} AugmentRowsMarkers(body: seq<Row>, env: Env)
    ensures MarkerCount(AugmentRows(body, env)) == MarkerCount(body)
    decreases |body|
  {
    if body != [] {
      var prev := AugmentRows(body[..|body| - 1], env);
      AugmentRowsMarkers(body[..|body| - 1], env);
      AugmentRowShape(prev, body[|body| - 1], env);
      var r := AugmentRows(body, env);
      assert r[..|r| - 1] == prev;
    }
  }

  /** The environment processTable sets up for a table it patches. */
  function TableEnv(head: seq<Row>, body: seq<Row>, context: seq<seq<string>>, fmt: Formatter, currentYear: nat): Env {
    var idx := ColumnIndex(head, body);
    Env(idx, RowsText(WithHeader(head, idx)), context, CellParser(IsMatchScheduleTable(head, body), currentYear), fmt)
  }

  /** The header and body rows after `processTable(table, tz)`: nothing
      changes in a table that already has a marker. */
  function Processed(head: seq<Row>, body: seq<Row>, context: seq<seq<string>>, fmt: Formatter, currentYear: nat): (seq<Row>, seq<Row>) {
    if Patched(head, body) then (head, body)
    else
      var env := TableEnv(head, body, context, fmt, currentYear);
      (WithHeader(head, env.idx), AugmentRows(body, env))
  }

  /** A processed table carries exactly one more marker than before, so a
      table without one ends up with exactly one. */
  lemma ProcessedMarkers(head: seq<Row>, body: seq<Row>, context: seq<seq<string>>, fmt: Formatter, currentYear: nat)
    requires !Patched(head, body)
    ensures var (h, b) := Processed(head, body, context, fmt, currentYear);
      MarkerCount(h) == 1 && MarkerCount(b) == 0 && |b| == |body|
  {
    var env := TableEnv(head, body, context, fmt, currentYear);
    WithHeaderMarkers(head, env.idx);
    AugmentRowsMarkers(body, env);
  }

  /** processTable is idempotent, whatever zone and year the second call
      uses: the marker it leaves makes the next call return at once. */
  lemma ProcessedIdempotent(head: seq<Row>, body: seq<Row>, context: seq<seq<string>>,
                            fmt: Formatter, currentYear: nat, fmt': Formatter, currentYear': nat)
    ensures var (h, b) := Processed(head, body, context, fmt, currentYear);
      Processed(h, b, context, fmt', currentYear') == (h, b)
  {
    if !Patched(head, body) {
      ProcessedMarkers(head, body, context, fmt, currentYear);
    }
  }

  /** The marker lands after the chosen column of the first `thead` row
      when the table has one; without a `thead` it sits alone in a new
      row, so a header row kept in the `tbody` gets no marker. */
  lemma ProcessedHeader(head: seq<Row>, body: seq<Row>, context: seq<seq<string>>, fmt: Formatter, currentYear: nat)
    requires !Patched(head, body)
    ensures var (h, _) := Processed(head, body, context, fmt, currentYear);
      var idx := ColumnIndex(head, body);
      && (head == [] ==> h == [[Marker]])
      && (head != [] ==> |h| == |head| && h[0] == InsertAfter(head[0], idx, Marker) && h[1..] == head[1..])
  {
    WithHeaderMarkers(head, ColumnIndex(head, body));
  }

  /** `addLocalTimeHeader(table, afterIdx)`. */
  method AddLocalTimeHeader(table: Table, afterIdx: int)
    modifies table
    ensures table.head == WithHeader(old(table.head), afterIdx)
    ensures table.body == old(table.body)
  {
    if table.head == [] {
      table.head := [[Marker]];
    } else {
      var headerRow := InsertAfter(table.head[0], afterIdx, Marker);
      table.head := [headerRow] + table.head[1..];
    }
  }

  /** `insertLocalCell(row, afterIdx, text)` on body row `i`. */
  method InsertLocalCell(table: Table, i: nat, afterIdx: int, text: string)
    requires i < |table.body|
    modifies table
    ensures table.head == old(table.head)
    ensures var row := old(table.body[i]);
      table.body == old(table.body)[i := InsertAfter(row, Min(afterIdx, |row| - 1), LocalCell(text))]
  {
    var cells := table.body[i];
    var td := LocalCell(text);
    var ref := Min(afterIdx, |cells| - 1);
    table.body := table.body[i := InsertAfter(cells, ref, td)];
  }

  function Min(a: int, b: int): int {
    if a < b then a else b
  }

  /** One turn of the row loop, on the whole body: rows before `i` are
      done, the others untouched; augmenting row `i` moves on to `i + 1`. */
  lemma AugmentStep(body0: seq<Row>, i: nat, env: Env, cur: seq<Row>)
    requires i < |body0|
    requires cur == AugmentRows(body0[..i], env) + body0[i..]
    ensures |cur| == |body0| && cur[..i] == AugmentRows(body0[..i], env) && cur[i] == body0[i]
    ensures cur[i := AugmentRow(cur[..i], body0[i], env)] == AugmentRows(body0[..i + 1], env) + body0[i + 1..]
  {
    var prev := AugmentRows(body0[..i], env);
    assert body0[i..] == [body0[i]] + body0[i + 1..];
    SpliceStep(prev, body0[i], body0[i + 1..], AugmentRow(prev, body0[i], env), cur);
    AugmentRowsSnoc(body0, i, env);
  }

  /** Replacing the row that follows `prev`. */
  lemma SpliceStep(prev: seq<Row>, row: Row, rest: seq<Row>, x: Row, cur: seq<Row>)
    requires cur == prev + ([row] + rest)
    ensures |cur| == |prev| + 1 + |rest|
    ensures cur[..|prev|] == prev && cur[|prev|] == row
    ensures cur[|prev| := x] == prev + [x] + rest
  {
    assert cur[..|prev|] == prev;
  }

  /** The loop over one more row augments that row after the others. */
  lemma AugmentRowsSnoc(body: seq<Row>, i: nat, env: Env)
    requires i < |body|
    ensures var prev := AugmentRows(body[..i], env);
      AugmentRows(body[..i + 1], env) == prev + [AugmentRow(prev, body[i], env)]
  {
    var next := body[..i + 1];
    assert next[..|next| - 1] == body[..i] && next[|next| - 1] == body[i];
  }

  /** The row loop of processTable over the `tbody` rows. */
  method AugmentBody(table: Table, env: Env)
    modifies table
    ensures table.head == old(table.head)
    ensures table.body == AugmentRows(old(table.body), env)
  {
    ghost var body0 := table.body;
    var i := 0;
    while i < |table.body|
      invariant |table.body| == |body0|
      invariant 0 <= i <= |body0|
      invariant table.head == old(table.head)
      invariant table.body == AugmentRows(body0[..i], env) + body0[i..]
    {
      AugmentStep(body0, i, env, table.body);
      var tr := table.body[i];
      if !(HasHeaderCell(tr) || tr == []) {
        var tsIdx := CellPos(tr, env.idx);
        var parsed := env.parse(tr[tsIdx].text, CellLevels(tr, tsIdx, table.body[..i], env));
        var display := Display(parsed, env.fmt);
        InsertLocalCell(table, i, env.idx, display);
      }
      i := i + 1;
    }
    assert body0[..i] == body0;
  }

  /** `processTable(table, tz)`, with the formatters of `tz` and the
      current year given. */
  method ProcessTable(table: Table, fmt: Formatter, currentYear: nat)
    modifies table
    ensures (table.head, table.body) == Processed(old(table.head), old(table.body), table.context, fmt, currentYear)
  {
    if Patched(table.head, table.body) {
      return;
    }
    var isMatch := IsMatchScheduleTable(table.head, table.body);
    var idx := if isMatch then IdentifyMatchTimeColumn(table.head, table.body)
               else IdentifyTimestampColumn(table.head, table.body);
    AddLocalTimeHeader(table, idx);
    var env := Env(idx, RowsText(table.head), table.context, CellParser(isMatch, currentYear), fmt);
    AugmentBody(table, env);
  }
}
