# Spreadsheet grid editor: a verified model of its state store

The editor is a browser grid of 1000 text cells (`cell-0` .. `cell-999`)
shown 100 per page. Each cell has formatting: alignment, font size and a
numeric-only flag. A search box highlights every cell whose text contains
the query. All state lives in one client-side store: the live cell map, a
linear undo/redo history of whole-map snapshots with a cursor, and the
active search query.

This project models that store and the handlers that drive it, in Dafny:

- `text.dfy` (module `Text`) has the string operations the editor uses:
  substring search (`Includes`), the digit test of a keystroke
  (`HasDigit`), and the decimal rendering of a cell index (`NatToString`,
  with its inverse `DecimalValue`).
- `cells.dfy` (module `Cells`) has the cell record and the highlight rule.
- `undo_history.dfy` (module `UndoHistory`) has the store.
  - `StoreState` and the `...Step` functions describe setCell,
    addToHistory, undo, redo and setSearchQuery as transitions on values.
  - The lemmas prove the store invariant, the undo/redo round trips and the
    snapshot count.
  - Class `Store` holds the store's fields; its methods reassign them and
    are proved to follow the transitions.
- `grid.dfy` (module `Grid`) has the cell ids, JavaScript's `slice`, the
  paging of the ids and the page-change guard.
- `spreadsheet.dfy` (module `Spreadsheet`) has the grid component.
  - The edit, format and search handlers are transitions on the store.
  - The keystroke filter of numeric cells is a predicate.
  - Class `View` owns the store, the current page and the search-box text.
- `value_store.dfy` (module `ValueStore`) has the secondary store of
  `src/store/spreadsheetStore.ts`: a table from id to text with one update.
  The grid component does not import it; it defines its own store
  (`src/components/Spreadsheet.tsx:26`).

Notes on the code's behaviour:

- The keystroke filter checks the numeric flag of the rendered cell, not
  the toolbar's numeric mode. A cell that was never written renders with a
  fixed default that is not numeric, so its keystrokes are never filtered.
- An edit or focus on a cell that was never written starts from the
  toolbar's alignment, font size and numeric flag. A fixed left/16/non-numeric
  default is used only for rendering.
- "n setCell calls give n snapshots" holds when there is no redo tail
  (`ApplyEditsGrowsHistory`), and in particular from the initial store
  (`FromInitial`). After an undo, the next write first drops the snapshots
  after the cursor.
- A search change writes every existing cell back through setCell, one
  snapshot per cell, so it adds undo steps too. With no cells it changes
  only the query and keeps the redo tail.
- Undo stops at the first snapshot, which already holds the first edit. So
  the very first edit can never be undone, and undo never brings back the
  empty initial map (`UndoNeverEmpties`).

## Model

| member | source | states |
|---|---|---|
| `Text.Includes` | src/components/Spreadsheet.tsx:93 | substring test: true iff the query occurs at some position of the value (the empty query occurs everywhere) |
| `Text.HasDigit` | src/components/Spreadsheet.tsx:140 | the digit regular expression matches iff some character of the key is an ASCII digit |
| `Text.NatToString` | src/components/Spreadsheet.tsx:151 | canonical decimal rendering of an index: non-empty, all digits, one digit exactly below ten, a leading zero only for 0 itself |
| `Text.DecimalRoundTrip` | src/components/Spreadsheet.tsx:151 | reading the decimal rendering back gives the index |
| `Text.NatToStringInjective` | src/components/Spreadsheet.tsx:151 | different indices render differently |
| `Cells.Highlighted` | src/components/Spreadsheet.tsx:93 | a cell is highlighted iff the query is non-empty and occurs in its value |
| `Cells.Rehighlighted` | src/components/Spreadsheet.tsx:110 | the rewritten cell keeps value, alignment, font size and numeric flag; its highlight is the rule above |
| `Cells.Rehighlight` | src/components/Spreadsheet.tsx:109-111 | the map of all cells rehighlighted: same keys, each cell rewritten as above |
| `UndoHistory.AddToHistoryStep` | src/components/Spreadsheet.tsx:53-59 | establishes the store invariant; history is the kept prefix up to the cursor plus a copy of the live map; cursor advances by one |
| `UndoHistory.SetCellStep` | src/components/Spreadsheet.tsx:28-32 | keeps the invariant; `cells[id]` is the new record, no other key changes, only `id` may be new; history is the old prefix up to the cursor plus the new map; cursor is one more and on the last snapshot |
| `UndoHistory.UndoStep` | src/components/Spreadsheet.tsx:35-43 | keeps the invariant and the history; moves the cursor back one when it is above 0, otherwise changes nothing |
| `UndoHistory.RedoStep` | src/components/Spreadsheet.tsx:44-52 | keeps the invariant and the history; moves the cursor forward one when a later snapshot exists, otherwise changes nothing |
| `UndoHistory.SetSearchQueryStep` | src/components/Spreadsheet.tsx:60-61 | only the query changes; cells, history and cursor are kept |
| `UndoHistory.UndoThenRedo` | src/components/Spreadsheet.tsx:35-52 | after a successful undo, redo restores the exact previous state, cells and cursor included |
| `UndoHistory.RedoThenUndo` | src/components/Spreadsheet.tsx:35-52 | after a successful redo, undo restores the exact previous state |
| `UndoHistory.RedoAfterSetCellIsNoop` | src/components/Spreadsheet.tsx:44-59 | a write discards the redo tail: redo right after it does nothing |
| `UndoHistory.UndoAfterSetCell` | src/components/Spreadsheet.tsx:28-43 | undo right after a write brings back the map and cursor from before the write, except after the very first write |
| `UndoHistory.SetCellKeepsPast` | src/components/Spreadsheet.tsx:53-59 | a write keeps every snapshot up to the cursor |
| `UndoHistory.SetCellKeepsSnapshotsNonEmpty` | src/components/Spreadsheet.tsx:28-32 | a write keeps every snapshot non-empty |
| `UndoHistory.UndoNeverEmpties` | src/components/Spreadsheet.tsx:35-43 | once a cell was written, undo never brings back the empty initial map |
| `UndoHistory.ApplyEdits` | src/components/Spreadsheet.tsx:28-32 | a sequence of writes keeps the store invariant |
| `UndoHistory.ApplyEditsGrowsHistory` | src/components/Spreadsheet.tsx:28-59 | with no redo tail, n writes add exactly n snapshots, keep the old ones and advance the cursor by n |
| `UndoHistory.FromInitial` | src/components/Spreadsheet.tsx:27-34 | from the initial store, n writes leave n snapshots and the cursor at n - 1 |
| `UndoHistory.Store.constructor` | src/components/Spreadsheet.tsx:26-60 | the store starts with no cells, no history, cursor -1 and an empty query |
| `UndoHistory.Store.AddToHistory` | src/components/Spreadsheet.tsx:53-59 | the fields follow `AddToHistoryStep` and satisfy the invariant |
| `UndoHistory.Store.SetCell` | src/components/Spreadsheet.tsx:28-32 | the fields follow `SetCellStep` and keep the invariant |
| `UndoHistory.Store.Undo` | src/components/Spreadsheet.tsx:35-43 | the fields follow `UndoStep` and keep the invariant |
| `UndoHistory.Store.Redo` | src/components/Spreadsheet.tsx:44-52 | the fields follow `RedoStep` and keep the invariant |
| `UndoHistory.Store.SetSearchQuery` | src/components/Spreadsheet.tsx:60-61 | only the query field changes |
| `Grid.CellId` | src/components/Spreadsheet.tsx:151 | the id is `cell-` followed by digits whose decimal value is the index, with no leading zero except in `cell-0` |
| `Grid.CellIdInjective` | src/components/Spreadsheet.tsx:151 | different indices give different cell ids |
| `Grid.GridIds` | src/components/Spreadsheet.tsx:151 | the grid has exactly 1000 ids, the i-th being the id of index i |
| `Grid.SliceBound` | src/components/Spreadsheet.tsx:152 | an in-range bound is kept, a bound past the end becomes the length, a negative bound counts from the end and is clamped at 0 |
| `Grid.JsSlice` | src/components/Spreadsheet.tsx:152 | a slice is never longer than the sequence and is the plain sub-sequence for in-range bounds |
| `Grid.PageIds` | src/components/Spreadsheet.tsx:149-152 | the slice a page renders holds at most 100 ids, all of them grid ids |
| `Grid.PageChange` | src/components/Spreadsheet.tsx:115-119 | the page changes iff the request is 0..9, so a valid page stays in 0..9 |
| `Grid.PreviousEnabled` | src/components/Spreadsheet.tsx:215 | on a valid page the previous control is enabled iff pressing it changes the page |
| `Grid.NextEnabled` | src/components/Spreadsheet.tsx:223 | on a valid page the next control is enabled iff pressing it changes the page |
| `Grid.ControlsMatchGuard` | src/components/Spreadsheet.tsx:213-227 | previous/next are disabled exactly at the first/last page and move the page exactly when enabled |
| `Grid.PageIdsExact` | src/components/Spreadsheet.tsx:148-157 | a valid page shows exactly 100 ids, the k-th being `cell-(100*page + k)` |
| `Grid.PageShows` | src/components/Spreadsheet.tsx:148-157 | a page shows the cell of index n iff n lies in [100*page, 100*page + 100) |
| `Grid.PagesPartitionGrid` | src/components/Spreadsheet.tsx:148-157 | each of the 1000 cells is shown on exactly one page, n / 100 |
| `Spreadsheet.CurrentCell` | src/components/Spreadsheet.tsx:82 | the stored cell, or an empty unhighlighted cell with the toolbar's alignment, font size and numeric flag |
| `Spreadsheet.InputRejected` | src/components/Spreadsheet.tsx:85 | an edit is rejected iff the value is not a number and the cell is numeric (the stored flag, or the toolbar's for a cell never written) |
| `Spreadsheet.InputChange` | src/components/Spreadsheet.tsx:80-95 | rejected (numeric cell, non-number) iff no snapshot is added, and then the whole state is unchanged; otherwise the value is written, formatting kept, highlight recomputed for the active query, other cells unchanged, one snapshot added |
| `Spreadsheet.FormatChange` | src/components/Spreadsheet.tsx:98-101 | the cell takes the toolbar's alignment and font size and keeps value, numeric flag and highlight; other cells unchanged; one snapshot added |
| `Spreadsheet.SearchFold` | src/components/Spreadsheet.tsx:109-111 | the loop keeps the invariant, the query and advances the cursor once per visited cell |
| `Spreadsheet.SearchFoldCells` | src/components/Spreadsheet.tsx:109-111 | after the loop, visited cells are rehighlighted, the others untouched, no other key appears |
| `Spreadsheet.SearchFoldKeepsPast` | src/components/Spreadsheet.tsx:109-111 | the loop keeps every snapshot up to the starting cursor |
| `Spreadsheet.SearchChange` | src/components/Spreadsheet.tsx:103-112 | a search change keeps the invariant and sets the query |
| `Spreadsheet.SearchChangeCells` | src/components/Spreadsheet.tsx:103-112 | after a search change every pre-existing cell is highlighted iff the query is non-empty and occurs in its value; values and formatting kept; no new keys |
| `Spreadsheet.SearchChangeHistory` | src/components/Spreadsheet.tsx:103-112 | the cursor advances by the number of cells and the past is kept, so the history ends one snapshot per cell after the old cursor; with no cells only the query changes |
| `Spreadsheet.SearchOrderIrrelevant` | src/components/Spreadsheet.tsx:109-111 | final cells, cursor and history length do not depend on the iteration order |
| `Spreadsheet.DisplayedCell` | src/components/Spreadsheet.tsx:122 | the stored cell, or a fixed empty, left-aligned, size 16, non-numeric, unhighlighted cell |
| `Spreadsheet.KeypressSuppressed` | src/components/Spreadsheet.tsx:139-143 | a keystroke is suppressed iff the cell is stored as numeric and the key has no digit |
| `Spreadsheet.NumericCellKeepsValue` | src/components/Spreadsheet.tsx:80-95 | a numeric cell set to "42" keeps "42" when edited to a non-number, and no snapshot is added |
| `Spreadsheet.View.constructor` | src/components/Spreadsheet.tsx:64-78 | a fresh store in its initial state, page 0, empty search box |
| `Spreadsheet.View.RenderGrid` | src/components/Spreadsheet.tsx:148-157 | the view renders 100 ids, the k-th being `cell-(100*page + k)` |
| `Spreadsheet.View.HandleInputChange` | src/components/Spreadsheet.tsx:80-95 | the store follows `InputChange`; the view invariant is kept |
| `Spreadsheet.View.HandleFormatChange` | src/components/Spreadsheet.tsx:98-101 | the store follows `FormatChange`; the view invariant is kept |
| `Spreadsheet.View.HandleSearchChange` | src/components/Spreadsheet.tsx:103-112 | search box and query set; the store follows `SearchChange` for the order the entries were visited in, which lists every old key once |
| `Spreadsheet.View.HighlightEntries` | src/components/Spreadsheet.tsx:109-111 | the loop visits every entry once and the store follows `SearchFold` |
| `Spreadsheet.View.HandlePageChange` | src/components/Spreadsheet.tsx:115-119 | the page follows `PageChange` and stays in 0..9 |
| `Spreadsheet.View.Undo` | src/components/Spreadsheet.tsx:164 | the store follows `UndoStep`; the view invariant is kept |
| `Spreadsheet.View.Redo` | src/components/Spreadsheet.tsx:165 | the store follows `RedoStep`; the view invariant is kept |
| `ValueStore.Updated` | src/store/spreadsheetStore.ts:10-13 | after an update the id maps to the new text, every other key keeps its text, and the key set is the old key set plus that id |
| `ValueStore.UpdateIdempotent` | src/store/spreadsheetStore.ts:10-13 | updating twice with the same text equals updating once |
| `ValueStore.UpdateLastWins` | src/store/spreadsheetStore.ts:10-13 | of two updates to one id, the last one wins |
| `ValueStore.SpreadsheetStore.constructor` | src/store/spreadsheetStore.ts:9 | the table starts empty |
| `ValueStore.SpreadsheetStore.UpdateCell` | src/store/spreadsheetStore.ts:10-13 | the table becomes `Updated(old table, id, value)` |

## Left out

- Rendering: JSX, styles, the text areas and buttons, the page label.
  These are presentation only. `src/app/layout.tsx` and `src/app/page.tsx`
  are not part of this model.
- The state library's create/get/set machinery and React's state hooks. The
  store is plain class fields; the toolbar selection is a `Toolbar`
  parameter; the page and the search-box text are fields of `View`.
- JavaScript's number conversion and NaN test of an edit. This is float
  parsing with its own quirks: the empty string and whitespace count as
  numbers, and exponents and "Infinity" are accepted. The handler takes its
  outcome as the boolean parameter `parsesAsNumber`.
- Integer parsing of the font-size input, which can give NaN. The toolbar
  font size is an `int`.
- Re-render timing and stale closures. Each handler is one atomic step over
  the current state.
- The DOM side of the keystroke filter (cancelling the event). Only the
  decision is modelled.
- Strings are sequences of Unicode scalar values, not UTF-16 code units.
  For well-formed strings, substring search gives the same answer either
  way.
- Object-prototype keys of a JavaScript record (such as `constructor`)
  are not modelled. The grid only ever uses `cell-N` ids.
- `UndoHistory.AddToHistoryStep` requires the cursor to be in range. The
  source's `slice` would clamp an out-of-range cursor, but the store
  invariant never lets that happen.
- `UndoHistory.SnapshotsNonEmpty` is part of the view invariant, not the
  store invariant. The store exposes addToHistory on its own, and calling
  it on the initial store would record an empty snapshot. The component
  never does that.
- `Spreadsheet.View.HighlightEntries` visits the entries in an order the model leaves open (any choice of a remaining key), not JavaScript's insertion order. The intermediate snapshots are stated exactly for the order actually taken, and the final cells are proved independent of it.
