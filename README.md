# owc-local-time: a verified model of the table engine

owc-local-time is a browser content script, `content.js`. It finds the
schedule tables of a tournament page and adds a "Local time" column after
each table's timestamp column. Each new cell shows the parsed UTC
timestamp, formatted in the reader's chosen time zone. When the zone
changes, `rerender` removes the added columns and runs the whole pass again.

This project models that engine in Dafny and proves what it does:

- **Text** (`text.dfy`): `normalize` collapses white-space runs and trims.
  The model also covers ASCII lower-casing and `includes`.
- **Scan** (`scan.dfy`): the pieces of backtracking regular-expression
  matching the parsers rely on:
  - the leftmost start position wins;
  - a lazy `.*?` takes the shortest length that works and stops at a line terminator;
  - a greedy `\s*` before a literal skips all white space.
- **Year inference** (`year.dfy`): `inferYearFromSection`, as a method with
  the source's two nested loops. A position in the document is its levels
  of preceding-sibling texts, nearest first. The current year is a parameter.
- **Timestamp** (`timestamp.dfy`): `toUTCDate`, `parseTimestampCell` with
  its three patterns in order, `parseMatchTimeCell` with its month table,
  and `parseAnyTimestamp`. Each pattern is a recogniser over the
  normalized text.
- **TimestampText** (`roundtrip.dfy`) and **MatchTimeText**
  (`matchtext.dfy`): the texts the tables hold, written out from their
  components, and proofs that each parses back to exactly those components.
  - The range with clocks wins over the single instant that also matches it.
  - A match-time text is never taken for an ISO form.
  - An unknown month gives no result.
- **Format** (`format.dfy`): the branch rule of `formatRange`, the cell's
  display text, and the em dash for an unparsed cell. `Intl` formatters
  are abstract functions.
- **Dom** (`dom.dfy`): cells, rows, marker counting, and inserting or
  removing a cell.
  - A `Table` is a class. Its mutable fields are `head` (the `thead` rows)
    and `body` (the `tbody` rows); `context` holds the levels above the table.
- **Classify** (`classify.dfy`): column identification, the match-table
  test, and the selection loop of `findAllScheduleTables`.
- **Augment** (`augment.dfy`): `addLocalTimeHeader`, `insertLocalCell` and
  `processTable`, as methods that update a `Table` in place. They are
  proved against the functions `WithHeader`, `AugmentRows` and `Processed`.
- **Teardown** (`teardown.dfy`): the marker loop of `rerender`. Each marker
  is removed, then the cell at its former index in every row of its table.
- **Render** (`render.dfy`): `renderAll` and `rerender` over all tables of
  the page, plus what a teardown does to a patched table.
  - A data row that reaches the timestamp column gets back its original
    cells.
  - A data row too short to reach that column keeps the cell added for
    it, so a cell rendered for the previous zone stays behind.
  - The header row loses the cell that followed the marker.
  - A table without a `thead` keeps an empty header row. Every other row
    loses its first original cell and keeps the cell added for the
    previous zone, and the next renderAll adds a second one.
  - A body row holding a `th` gets no cell from processTable, but the
    teardown still removes its cell at the marker's former index. A
    table with row-header cells therefore loses one original data cell
    per such row on every zone change.

The source's quirks are reproduced, not repaired:

- `addLocalTimeHeader` creates a header row holding only the marker when
  the table has no `thead` row.
- `rerender` removes the marker before it indexes the row's cells, so in
  the header row it removes the cell that followed the marker.

The lemmas in Render state the effect of both quirks exactly.

White space is the set that JavaScript's `\s` and `trim` actually use: the
ECMAScript WhiteSpace and LineTerminator characters, not only ASCII
spaces. Those are the characters the source's regular expressions treat
as white space.

## Model

| member | source | states |
|---|---|---|
| Text.Lower | content.js:261 | `toLowerCase` keeps the length and maps each character through the ASCII lower-case map |
| Text.Trim | content.js:7 | the result is the slice of the input between its leading and its trailing white space, and is empty or starts and ends with a non-space |
| Text.Collapse | content.js:7 | the result holds only plain spaces as white space and never two in a row; it is empty exactly when the input is, and starts with a space exactly when the input starts with white space |
| Text.CollapseRun | content.js:7 | a white-space run between a non-space end and a non-space start becomes exactly one space, neither vanishing nor merging with its neighbours |
| Text.Normalize | content.js:6-8 | the result holds only plain spaces as white space, never two in a row and none at either end |
| Text.NormalizeOfTrimmed | content.js:6-8 | text that starts and ends with a non-space is only collapsed, never trimmed |
| Text.NormalizeRun | content.js:6-8 | two words separated by any white-space run normalize to the two words joined by exactly one space |
| Text.NormalizeOfNormalized | content.js:6-8 | an already normalized text is its own normalization |
| Text.NormalizeIdempotent | content.js:6-8 | normalizing twice is normalizing once |
| Text.NormalizeKeepsNonSpace | content.js:6-8 | normalization keeps every non-space character, in order |
| Text.JoinNormalized | content.js:6-8 | two normalized non-empty texts joined by one space are normalized |
| Text.Contains | content.js:262 | `includes` holds exactly when the needle occurs at some position |
| Scan.FirstSomeNone | content.js:36-37 | a leftmost search fails exactly when no position in range matches |
| Scan.FirstSomeIs | content.js:36-37 | the leftmost search returns the match at the first matching position |
| Scan.SkipSpaceSkipsSpace | content.js:37 | a greedy `\s*` before a literal consumes exactly the white-space run |
| YearInference.YearIn | content.js:68 | the leftmost `20dd` of a text, when there is one, is a year from 2000 to 2099 |
| YearInference.TrimKeepsYear | content.js:67-68 | matching after `trim` finds the same year as matching the untrimmed text |
| YearInference.YearOf | content.js:67-69 | the method returns the year of one sibling text, trimmed then matched |
| YearInference.FirstYearIndex | content.js:65-71 | the first sibling, nearest first, whose text holds a year; no earlier sibling holds one |
| YearInference.InferredYearByLevel | content.js:62-75 | the result is the first year of the first level holding one, else the current year |
| YearInference.InferredYearSpec | content.js:62-75 | with no year anywhere, the result is the current year; otherwise it is a 2000-2099 year read from the first sibling holding one, and no sibling scanned earlier holds a year |
| YearInference.InferredYearStep | content.js:64-73 | one level of the outer loop either returns that level's year or moves up a level |
| YearInference.InferYearFromSection | content.js:62-75 | the nested loops return the inferred year, always the current year or a 2000-2099 value |
| Timestamp.ClockAt | content.js:37 | a `(HH:MM UTC)` match starts at a `(` and ends at least ten characters later, inside the text |
| Timestamp.InstantAt | content.js:45 | an instant is matched only where the text holds an ISO date |
| Timestamp.RangeTailAt | content.js:37 | the second half of a range follows a clock, then white space, then a `/` |
| Timestamp.RangeAt | content.js:36-38 | a range with clocks is matched only where the text holds an ISO date |
| Timestamp.DateRangeAt | content.js:52 | a bare date range is matched only where the text holds an ISO date |
| Timestamp.MatchTailAt | content.js:79 | the tail of the match-time pattern starts at a `)` and the text ends in `UTC`, in any case |
| Timestamp.MatchTimeFields | content.js:79 | the match is anchored: three ASCII letters open the text, the month capture is those letters, and the text ends in `UTC` |
| Timestamp.MonthTable | content.js:83-88 | the month table maps a key to `m` exactly when `m` is 1 to 12 and the key is that month's abbreviation |
| Timestamp.ParsedHasIsoDate | content.js:32-58 | `parseTimestampCell` yields null on every text without a `dddd-dd-dd` |
| Timestamp.NoSlashNoRange | content.js:35-56 | without a `/`, neither range pattern matches anywhere |
| Timestamp.NoParenNoClock | content.js:35-49 | without a `(`, neither clock pattern matches anywhere |
| Timestamp.RangeNeedsSlash | content.js:35-56 | a text without `/` parses to an instant or to nothing |
| Timestamp.ClockNeedsParen | content.js:51-56 | a text without `(` parses to nothing or to a range from midnight to midnight |
| Timestamp.MatchTimeShape | content.js:77-93 | a match-time result is an instant whose year is the inferred one, whose month is the one the text's first three letters name in any case, and whose seconds are zero |
| Timestamp.UnknownMonth | content.js:87-88 | a text whose first three letters name no month yields null |
| TimestampText.Digits2 | content.js:37 | the two-digit text of `n` reads back as `n` |
| TimestampText.ReadClock | content.js:37 | the written `(HH:MM UTC)` is matched with exactly its hour and minute |
| TimestampText.ReadInstant | content.js:45 | `D (HH:MM UTC)` written at a position is matched there with exactly its components |
| TimestampText.InstantRoundTrip | content.js:44-49 | `D (HH:MM UTC)` parses to the instant with exactly those components and seconds 0 |
| TimestampText.RangeRoundTrip | content.js:35-42 | `D1 (h1:m1 UTC) / D2 (h2:m2 UTC)` parses to the range with exactly those components |
| TimestampText.InstantMatchesRangeText | content.js:35-49 | the single-instant pattern also matches a range text, and the range still wins |
| TimestampText.DateRangeRoundTrip | content.js:51-56 | `D1 / D2` parses to the range whose two ends are those dates at 00:00 |
| TimestampText.RangeTextNormalized | content.js:33 | a range text is already normalized, so `normalize` leaves it alone |
| MatchTimeText.MatchTextOccurs | content.js:79 | the written match-time text has each of its components at the expected offsets |
| MatchTimeText.MatchTimeOfText | content.js:79-92 | the match-time pattern reads back the written month, day, hour and minute, with the inferred year |
| MatchTimeText.MatchTextNormalized | content.js:78 | a match-time text is already normalized |
| MatchTimeText.NoDashNoIsoForms | content.js:32-58 | a text without `-` matches none of the ISO-like patterns |
| MatchTimeText.MatchTimeRoundTrip | content.js:77-93 | `Mon DD (w) HH:MM UTC` with a known month parses to the instant with the inferred year and exactly those components |
| MatchTimeText.AnyMatchTimeRoundTrip | content.js:95-97 | `parseAnyTimestamp` gives the match-time instant for such a text, the ISO parser having yielded null |
| MatchTimeText.NovemberExample | content.js:62-93 | "Nov 01 (Sat) 08:00 UTC" under a heading "OWC 2025" is 2025-11-01 08:00, and with no year around it is in the current year |
| MatchTimeText.UnknownMonthOfText | content.js:87-88 | a well-formed match-time text with an unknown month yields null |
| MatchTimeText.UnknownMonthExample | content.js:87-88 | "Foo 01 (Sat) 08:00 UTC" yields null |
| Format.FormatRange | content.js:113-130 | the text starts with the start day, and ends with the end time on one day or with the end day across days |
| Format.FormatRangeBranch | content.js:126-129 | the same-day form is produced exactly when both ends fall on the same day, the two-day form exactly when they do not |
| Format.Display | content.js:323-327 | an unparsed cell shows the em dash, an instant its formatted text, a range its `formatRange` text |
| Format.CellText | content.js:251 | the cell text is never empty; a non-empty text is kept |
| Dom.InsertPos | content.js:245-247 | the new cell goes right after the `k`-th cell when there is one, and at the end of the row otherwise |
| Dom.InsertAfter | content.js:245-247 | the row grows by one; the new cell sits at the insert position, the cells before it are unchanged and those after it are shifted by one |
| Dom.RemoveAt | content.js:345-349 | removing position `c` shortens the row by one when `c` is inside it and shifts the later cells down; otherwise the row is unchanged |
| Dom.RemoveInserted | content.js:245-247 | removing the inserted cell gives the row back |
| Dom.MarkersInserted | content.js:242-247 | an inserted cell adds its own marker, if it is one, and nothing else |
| Dom.MarkersRemoved | content.js:345-349 | a removed cell takes its own marker, if it is one, and nothing else |
| Dom.HeaderRow | content.js:259 | a header row is found exactly when the table has some row |
| Classify.FindIndex | content.js:262 | the first header containing the needle; -1 exactly when none contains it |
| Classify.IdentifyTimestampColumn | content.js:258-265 | 1 without a header row; else the first header containing "timestamp"; else the last index, clamped at 0 |
| Classify.IsMatchScheduleTable | content.js:266-271 | true exactly when there is a header row and one of its headers contains "match time" |
| Classify.IdentifyMatchTimeColumn | content.js:272-278 | the first header containing "match time"; else the last index, which is -1 for an empty row, since there is no clamp |
| Classify.ColumnIndex | content.js:305-306 | the column processTable uses is never negative |
| Classify.SampleTexts | content.js:293 | at most eight `td` texts are sampled |
| Classify.HasIsoDate | content.js:295 | the test holds exactly when the text contains `dddd-dd-dd` somewhere |
| Classify.OnlyEightCellsMatter | content.js:284-297 | two tables with the same header text and the same first eight `td` texts are classified alike |
| Classify.Verdicts | content.js:283-298 | one verdict per table: whether it is a schedule table |
| Classify.ScheduleTablesMembers | content.js:280-300 | a table is selected exactly when it is on the page and passes the header or date test |
| Classify.ScheduleTablesDistinct | content.js:280-300 | no table is selected twice |
| Classify.FindAllScheduleTables | content.js:280-300 | the loop returns the page's tables filtered in document order |
| Augment.WithHeaderMarkers | content.js:238-248 | the header gains exactly one marker. It is placed in the first header row, or in a new row when there is none, and the other header rows are untouched |
| Augment.CellPos | content.js:318 | `min(idx, len - 1)` is a cell of every non-empty row |
| Augment.AugmentRowShape | content.js:313-328 | rows with a `th` or no cells are unchanged. Any other row gains one `td` right after `min(idx, len - 1)`, holding the display text or the em dash when parsing fails. Removing that cell gives the row back, and no row gains a marker |
| Augment.AugmentRowsAt | content.js:312-329 | each body row is augmented with the rows before it, in their updated state, as context |
| Augment.AugmentRowsMarkers | content.js:312-329 | the row loop adds no marker |
| Augment.ProcessedMarkers | content.js:302-330 | a table without a marker ends up with exactly one marker, in the header rows, and as many body rows as before |
| Augment.ProcessedIdempotent | content.js:303 | a second processTable, with any zone and year, changes nothing |
| Augment.ProcessedHeader | content.js:305-308 | without a header row, the new header is a single row holding only the marker; otherwise the marker follows the chosen column in the first header row |
| Augment.AddLocalTimeHeader | content.js:238-248 | the header rows become `WithHeader` of the old ones; the body is unchanged |
| Augment.InsertLocalCell | content.js:249-256 | only row `i` changes: it gets the new `td` after cell `min(afterIdx, len - 1)` |
| Augment.AugmentStep | content.js:313-329 | one loop turn moves the augmented prefix forward by one row |
| Augment.AugmentBody | content.js:311-329 | the row loop leaves the body equal to `AugmentRows` of the old body and the header untouched |
| Augment.ProcessTable | content.js:302-330 | the table's new rows are `Processed` of its old rows |
| Teardown.MarkerIndex | content.js:343 | the index of the first marker of the row; no earlier cell is a marker |
| Teardown.MarkerRow | content.js:342 | the first row, in document order, holding a marker |
| Teardown.MarkerIndexCount | content.js:342-343 | a row holds a marker exactly when its first marker index lies inside it |
| Teardown.MarkerRowCount | content.js:342 | the rows hold a marker exactly when the first marker row lies inside them |
| Teardown.DropColumn | content.js:346-350 | every row loses its cell at index `c`, if it has one |
| Teardown.DropColumnMarkers | content.js:346-350 | dropping a column never adds a marker |
| Teardown.TearStep | content.js:343-350 | one marker's work keeps the number of rows and strictly lowers the marker count |
| Teardown.TornDown | content.js:342-351 | after the loop no marker is left and every row is still there |
| Teardown.InsertedMarker | content.js:242-247 | a marker inserted into a row without markers is the row's only one, is found at its insert position, and removing it gives the row back |
| Teardown.OneMarkerTornDown | content.js:342-351 | a single marker in the first row at `c` is torn down in one step: the marker goes, then cell `c` of every row |
| Teardown.TornClean | content.js:342-351 | the header and body rows keep their number and hold no marker afterwards |
| Teardown.RemoveCell | content.js:345 | `th.remove()` removes exactly the cell at that position of that row |
| Teardown.RemoveColumn | content.js:346-350 | the row loop leaves both header and body equal to `DropColumn` of the old rows |
| Teardown.RemoveLocalTimeColumns | content.js:342-351 | the table's rows become `TornDown` of the old rows |
| Render.ProcessedParts | content.js:305-329 | processTable on an unpatched table is the marker header after its column, then the row loop |
| Render.TheadTornDown | content.js:342-350 | tearing down a `thead` marker after column `k` removes column `k + 1` of the original table, in the header as well |
| Render.HeadlessTornDown | content.js:342-350 | tearing down the marker of a table that had no `thead` row leaves an empty header row and removes column 0 of every other row |
| Render.AugmentedRowRestored | content.js:346-350 | removing index `idx + 1` from an augmented row takes out exactly the added cell when the row reaches `idx`; otherwise it removes nothing |
| Render.PatchRestoresHeader | content.js:345-349 | after process then teardown, the first header row has lost the cell that followed the marker |
| Render.PatchRestoresRow | content.js:346-350 | after process then teardown, a data row that reaches the column is back to its original cells; a shorter one keeps its added cell |
| Render.PatchWithoutThead | content.js:346-350 | after process then teardown of a table without a `thead` row, the new header row is empty and every body row has lost its first cell |
| Render.RenderedIdempotent | content.js:333-336 | a second renderAll, with any zone, leaves every table as it is |
| Render.RenderedMarkers | content.js:333-336 | after renderAll an unpatched table holds exactly one marker when it is a schedule table, none otherwise |
| Render.RenderAll | content.js:333-337 | every schedule table is processed and every other table is untouched; each table's year context is the text around it before the pass |
| Render.ProcessTables | content.js:336 | each selected table becomes `Processed` of its old rows, within the text around it before the pass |
| Render.RemoveAllLocalTimeColumns | content.js:342-351 | every table becomes `Torn` of its old rows and holds no marker |
| Render.Rerender | content.js:341-353 | every table ends up rendered from its torn-down rows, within the text around it before the pass, and holds at most one marker |

## Left out

- Settings storage (`getSettings`, `setTZ`, `setShowMenu`, content.js:16-29) is asynchronous browser I/O. The chosen zone reaches the model as a `Formatter` parameter.
- `ensureUI` (content.js:133-232) and the call to it in renderAll are user-interface plumbing: element creation, styling, `alert` and listeners.
- `makeFormatter` and the `Intl.DateTimeFormat` texts are locale formatting from a library. The instant, day and time formatters of a zone are abstract functions of a `Formatter`. Only the branch rule of `formatRange` is modelled.
- Calendar validity of `new Date(...)` is not modelled. `toUTCDate` and parseMatchTimeCell hand an ISO date-time string to `new Date`, which is an Invalid Date when a component is out of range ("2025-13-01 (08:00 UTC)", "Nov 01 (Sat) 25:00 UTC"). The model keeps the components as read.
- ProcessTable: completes the pass on every table. In the source, formatting an Invalid Date throws a RangeError (content.js:325, and the `format` calls of formatRange). That ends processTable inside its row loop, with the marker already in and only the earlier rows augmented.
- RenderAll: completes the pass over every schedule table. In the source, that RangeError also leaves renderAll's loop (content.js:333-339), so the later schedule tables are not processed.
- The clock (`new Date().getUTCFullYear()`, content.js:74) is the parameter `currentYear`.
- `boot`, `DOMContentLoaded` and the `MutationObserver` re-trigger (content.js:355-369) are event scheduling.
  - RenderedIdempotent states what a repeated renderAll does.
  - The source has no reentrancy guard to model.
- The `async`/`await` ordering of renderAll and rerender is not modelled. Each is one sequential pass.
- CSS selector semantics, text nodes and `nextSibling` are replaced by the table model (header rows, body rows and cells). Elements between the cells of a row are not modelled.
  - Dom.RowText is the concatenation of a row's cell texts, without the white-space text nodes written HTML has between cells. The difference runs both ways:
    - Header cells "Match" and "time" give "matchtime" in the model and "match time" in the source, so a "match time" split over two cells is found only by the source.
    - Cells "Time" and "stamp", "Ev" and "ent", or "20" and "25" give "timestamp", "event" or "2025" in the model and "Time stamp", "Ev ent" or "20 25" in the source. So a "timestamp", an "event" or a `20dd` year split over cells is found only by the model.
    - Concatenation can also change which `20dd` year is leftmost in a row's text. This holds for the header-row text, for the level texts of year inference and for the `thead` text a cell's year search sees.
- Tables are modelled as exactly one optional `thead` and one `tbody`.
  - A `tfoot`, a `caption`, several `tbody` elements and nested tables are not modelled.
  - The `table.querySelector("tbody") \|\| table` fallback for a table without a `tbody` is not modelled.
  - An empty `thead` behaves like a missing one, as it does in the source.
- `textContent` is never null in the model, and the `|| ""` fallbacks are dropped.
- Strings are sequences of Unicode scalar values. JavaScript strings are UTF-16 code units, so surrogate pairs are not modelled.
- Text.Lower: lower-cases the ASCII letters only. JavaScript's `toLowerCase` also maps other letters, which matters only for non-ASCII header text. The month names and keywords it is compared with are ASCII.
- RenderAll: each table's year context (`Table.context`) is the text around it before the pass. The source's year search reads the live page, so a later table can take its year from the local-time cells just added to an earlier table, which carry a year in the chosen zone. The model does not capture that dependence on earlier tables or on the zone.
- ProcessTables: processes each selected table within its context from before the pass, not within the page as the earlier tables of the loop left it.
- Rerender: renders again within the contexts from before the teardown, not within the torn-down and re-augmented earlier tables the source's year search reads.
- TornDown runs the teardown one table at a time, each time on the first marker left in document order. The source runs one loop over a snapshot of the page's markers.
  - The two agree on every table with at most one marker, and RenderedMarkers proves that processTable leaves at most one.
  - For a table with several markers, the source can remove a later marker as part of an earlier marker's column. It then fails with a TypeError on the detached cell. The model instead goes on with the next remaining marker.
- PatchRestoresRow: covers a `thead` whose first row reaches the chosen column. When the marker is appended at the end of a shorter header row, the teardown is described only by TornDown and TornClean.
