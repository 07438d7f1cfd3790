/**
 * The grid component: its edit, format, search and page handlers, each one
 * atomic transition over the store, and the keystroke filter of numeric
 * cells. The toolbar selection (alignment, font size, numeric mode) is a
 * parameter of the handlers that read it.
 */
module Spreadsheet {
  import opened Text
  import opened Cells
  import opened UndoHistory
  import opened Grid

  /** What the toolbar currently selects. */
  datatype Toolbar = Toolbar(alignment: Alignment, fontSize: int, isNumeric: bool)

  /** The record an edit or a focus starts from: the stored cell, or, for a
      cell never written, an empty cell formatted as the toolbar selects. */
  function CurrentCell(cells: CellMap, id: string, tb: Toolbar): (c: Cell)
    ensures id in cells ==> c == cells[id]
    ensures id !in cells ==> c.value == "" && !c.isHighlighted
    ensures id !in cells ==> c.alignment == tb.alignment && c.fontSize == tb.fontSize && c.isNumeric == tb.isNumeric
  {
    if id in cells then cells[id] else Cell("", tb.alignment, tb.fontSize, tb.isNumeric, false)
  }

  /** The edit is dropped: the cell is numeric and the new value does not
      parse as a number. */
  predicate InputRejected(cells: CellMap, id: string, tb: Toolbar, parsesAsNumber: bool)
    ensures InputRejected(cells, id, tb, parsesAsNumber) <==>
      !parsesAsNumber && (if id in cells then cells[id].isNumeric else tb.isNumeric)
  {
    CurrentCell(cells, id, tb).isNumeric && !parsesAsNumber
  }

  /** A text change of cell `id` to `value`. `parsesAsNumber` says whether
      JavaScript's number conversion accepts `value`. A rejected edit leaves
      the whole store as it was; an accepted one writes the value, keeps the
      cell's formatting and recomputes its highlight for the active query. */
  function InputChange(st: StoreState, id: string, value: string, tb: Toolbar, parsesAsNumber: bool): (r: StoreState)
    requires Inv(st)
    ensures Inv(r)
    ensures InputRejected(st.cells, id, tb, parsesAsNumber) ==> r == st
    ensures InputRejected(st.cells, id, tb, parsesAsNumber) <==> r.historyIndex == st.historyIndex
    ensures r.searchQuery == st.searchQuery
    ensures !InputRejected(st.cells, id, tb, parsesAsNumber) ==>
      var old_ := CurrentCell(st.cells, id, tb);
      && r.historyIndex == st.historyIndex + 1 == |r.history| - 1
      && r.history[..st.historyIndex + 1] == st.history[..st.historyIndex + 1]
      && id in r.cells
      && r.cells[id].value == value
      && r.cells[id].alignment == old_.alignment
      && r.cells[id].fontSize == old_.fontSize
      && r.cells[id].isNumeric == old_.isNumeric
      && (r.cells[id].isHighlighted <==> st.searchQuery != "" && exists i :: OccursAt(value, st.searchQuery, i))
      && r.cells.Keys == st.cells.Keys + {id}
      && (forall k :: k in st.cells && k != id ==> r.cells[k] == st.cells[k])
  {
    var c := CurrentCell(st.cells, id, tb);
    if c.isNumeric && !parsesAsNumber then
      st
    else
      var r := SetCellStep(st, id, c.(value := value, isHighlighted := Highlighted(value, st.searchQuery)));
      assert r.history[..st.historyIndex + 1] == st.history[..st.historyIndex + 1];
      r
  }

  /** Focusing cell `id` applies the toolbar's alignment and font size to it
      and records one snapshot; the value, the numeric flag and the
      highlight are kept (taken from the toolbar default for a new cell). */
  function FormatChange(st: StoreState, id: string, tb: Toolbar): (r: StoreState)
    requires Inv(st)
    ensures Inv(r)
    ensures r.searchQuery == st.searchQuery
    ensures r.historyIndex == st.historyIndex + 1 == |r.history| - 1
    ensures r.history[..st.historyIndex + 1] == st.history[..st.historyIndex + 1]
    ensures id in r.cells
    ensures r.cells[id].alignment == tb.alignment && r.cells[id].fontSize == tb.fontSize
    ensures r.cells[id].value == CurrentCell(st.cells, id, tb).value
    ensures r.cells[id].isNumeric == CurrentCell(st.cells, id, tb).isNumeric
    ensures r.cells[id].isHighlighted == CurrentCell(st.cells, id, tb).isHighlighted
    ensures r.cells.Keys == st.cells.Keys + {id}
    ensures forall k :: k in st.cells && k != id ==> r.cells[k] == st.cells[k]
  {
    var c := CurrentCell(st.cells, id, tb);
    var r := SetCellStep(st, id, c.(alignment := tb.alignment, fontSize := tb.fontSize));
    assert r.history[..st.historyIndex + 1] == st.history[..st.historyIndex + 1];
    r
  }

  /** The ids of `order` are pairwise distinct. */
  predicate Distinct(order: seq<string>)
  {
    forall i, j :: 0 <= i < j < |order| ==> order[i] != order[j]
  }

  /** Appending a new id keeps a sequence free of repetitions. */
  lemma DistinctSnoc(order: seq<string>, id: string)
    requires Distinct(order) && id !in order
    ensures Distinct(order + [id])
  {
  }

  /** `order` lists every key of `cells` exactly once: one possible
      iteration order over the map's entries. */
  ghost predicate Enumerates(order: seq<string>, cells: CellMap)
  {
    Distinct(order) && forall id :: id in cells <==> id in order
  }

  /** A sequence without repetitions has as many distinct elements as it is
      long. */
  lemma {:induction false} DistinctCardinality(order: seq<string>)
    requires Distinct(order)
    ensures |set id | id in order| == |order|
    decreases |order|
  {
    if order != [] {
      var init := order[..|order| - 1];
      var last := order[|order| - 1];
      assert Distinct(init);
      DistinctCardinality(init);
      assert (set id | id in order) == (set id | id in init) + {last};
      assert last !in init;
    }
  }

  /** An enumeration of a map is as long as the map has keys. */
  lemma EnumerationLength(order: seq<string>, cells: CellMap)
    requires Enumerates(order, cells)
    ensures |order| == |cells|
  {
    DistinctCardinality(order);
    assert (set id | id in order) == cells.Keys;
  }

  /** The search loop after visiting the ids of `order`, in that order: each
      visited cell is written back, from the map `snap` the loop iterates
      over, with its highlight recomputed for `query`. */
  function SearchFold(st: StoreState, snap: CellMap, query: string, order: seq<string>): (r: StoreState)
    requires Inv(st)
    requires forall i :: 0 <= i < |order| ==> order[i] in snap
    ensures Inv(r)
    ensures r.historyIndex == st.historyIndex + |order|
    ensures r.searchQuery == st.searchQuery
    ensures order != [] ==> r.historyIndex == |r.history| - 1
    decreases |order|
  {
    if order == [] then
      st
    else
      var id := order[|order| - 1];
      SetCellStep(SearchFold(st, snap, query, order[..|order| - 1]), id, Rehighlighted(snap[id], query))
  }

  /** One more iteration of the search loop. */
  lemma SearchFoldSnoc(st: StoreState, snap: CellMap, query: string, order: seq<string>, id: string)
    requires Inv(st)
    requires forall i :: 0 <= i < |order| ==> order[i] in snap
    requires id in snap
    ensures forall i :: 0 <= i < |order + [id]| ==> (order + [id])[i] in snap
    ensures SearchFold(st, snap, query, order + [id])
         == SetCellStep(SearchFold(st, snap, query, order), id, Rehighlighted(snap[id], query))
  {
    assert (order + [id])[..|order|] == order;
  }

  /** After the loop, a visited id holds its rehighlighted record from
      `snap`, every other id is untouched, and no other key appears. */
  lemma {:induction false} SearchFoldCells(st: StoreState, snap: CellMap, query: string, order: seq<string>)
    requires Inv(st)
    requires forall i :: 0 <= i < |order| ==> order[i] in snap
    ensures var r := SearchFold(st, snap, query, order);
      && (forall id :: id in r.cells <==> id in st.cells || id in order)
      && (forall id :: id in order ==> r.cells[id] == Rehighlighted(snap[id], query))
      && (forall id :: id in st.cells && id !in order ==> r.cells[id] == st.cells[id])
    decreases |order|
  {
    if order != [] {
      var init := order[..|order| - 1];
      SearchFoldCells(st, snap, query, init);
      assert forall id :: id in order <==> id in init || id == order[|order| - 1];
    }
  }

  /** The loop keeps every snapshot up to the starting cursor. */
  lemma {:induction false} SearchFoldKeepsPast(st: StoreState, snap: CellMap, query: string, order: seq<string>)
    requires Inv(st)
    requires forall i :: 0 <= i < |order| ==> order[i] in snap
    ensures var r := SearchFold(st, snap, query, order);
      r.history[..st.historyIndex + 1] == st.history[..st.historyIndex + 1]
    decreases |order|
  {
    if order != [] {
      var init := order[..|order| - 1];
      SearchFoldKeepsPast(st, snap, query, init);
      var mid := SearchFold(st, snap, query, init);
      var id := order[|order| - 1];
      SetCellKeepsPast(mid, id, Rehighlighted(snap[id], query), st.historyIndex + 1);
    }
  }

  /** A search change: set the query, then write back every cell of the map
      as it was when the search began, visiting the ids in `order`. */
  function SearchChange(st: StoreState, query: string, order: seq<string>): (r: StoreState)
    requires Inv(st) && Enumerates(order, st.cells)
    ensures Inv(r)
    ensures r.searchQuery == query
  {
    SearchFold(SetSearchQueryStep(st, query), st.cells, query, order)
  }

  /** The cells a search change leaves behind, in whatever order the ids
      were visited: the keys are those present before, and every cell keeps
      its value and formatting and is highlighted iff the query is
      non-empty and occurs in its value. */
  lemma SearchChangeCells(st: StoreState, query: string, order: seq<string>)
    requires Inv(st) && Enumerates(order, st.cells)
    ensures SearchChange(st, query, order).cells == Rehighlight(st.cells, query)
  {
    var st1 := SetSearchQueryStep(st, query);
    SearchFoldCells(st1, st.cells, query, order);
    var r := SearchChange(st, query, order);
    assert r.cells.Keys == st.cells.Keys;
  }

  /** The history after a search change: the cursor advances once per
      pre-existing cell and the past up to the old cursor is kept, so the
      history ends one snapshot per cell after the old cursor; with no
      cells nothing but the query changes (not even the redo tail). */
  lemma SearchChangeHistory(st: StoreState, query: string, order: seq<string>)
    requires Inv(st) && Enumerates(order, st.cells)
    ensures var r := SearchChange(st, query, order);
      && r.historyIndex == st.historyIndex + |st.cells|
      && r.history[..st.historyIndex + 1] == st.history[..st.historyIndex + 1]
      && (|st.cells| > 0 ==> |r.history| == st.historyIndex + 1 + |st.cells|)
      && (|st.cells| == 0 ==> r == st.(searchQuery := query))
  {
    SearchFoldKeepsPast(SetSearchQueryStep(st, query), st.cells, query, order);
    EnumerationLength(order, st.cells);
  }

  /** The final cells, cursor and query of a search change do not depend on
      the order in which the entries are visited. */
  lemma SearchOrderIrrelevant(st: StoreState, query: string, o1: seq<string>, o2: seq<string>)
    requires Inv(st) && Enumerates(o1, st.cells) && Enumerates(o2, st.cells)
    ensures SearchChange(st, query, o1).cells == SearchChange(st, query, o2).cells
    ensures SearchChange(st, query, o1).historyIndex == SearchChange(st, query, o2).historyIndex
    ensures |SearchChange(st, query, o1).history| == |SearchChange(st, query, o2).history|
  {
    SearchChangeCells(st, query, o1);
    SearchChangeCells(st, query, o2);
    SearchChangeHistory(st, query, o1);
    SearchChangeHistory(st, query, o2);
  }

  /** The record the grid renders for `id`: the stored cell, or a fixed
      default (left-aligned, size 16, not numeric) that ignores the
      toolbar. */
  function DisplayedCell(cells: CellMap, id: string): (c: Cell)
    ensures id in cells ==> c == cells[id]
    ensures id !in cells ==> !c.isNumeric && c.value == "" && c.alignment == Left && c.fontSize == 16
    ensures id !in cells ==> !c.isHighlighted
  {
    if id in cells then cells[id] else Cell("", Left, 16, false, false)
  }

  /** A keystroke `key` into the rendered cell `id` is suppressed iff that
      cell is stored as numeric and the key contains no decimal digit. A
      cell never written is never filtered, whatever the toolbar says. */
  function KeypressSuppressed(cells: CellMap, id: string, key: string): (r: bool)
    ensures r <==> id in cells && cells[id].isNumeric && forall i :: 0 <= i < |key| ==> !IsDigit(key[i])
  {
    DisplayedCell(cells, id).isNumeric && !HasDigit(key)
  }

  /** Example: an empty store, a numeric cell set to
      "42", then an edit to "4x" (which is not a number) is dropped and the
      cell still reads "42". */
  lemma NumericCellKeepsValue(tb: Toolbar)
    requires tb.isNumeric
    ensures var s1 := InputChange(Initial, "cell-0", "42", tb, true);
      var s2 := InputChange(s1, "cell-0", "4x", tb, false);
      s2 == s1 && s2.cells["cell-0"].value == "42" && |s2.history| == 1
  {
  }

  /** The component: the store it edits, the page on view and the text of
      the search box. */
  class View {
    const store: Store
    var page: int
    var search: string

    ghost predicate Valid()
      reads this, store
    {
      && store.Valid()
      && SnapshotsNonEmpty(store.State())
      && 0 <= page <= 9
      && search == store.searchQuery
    }

    constructor ()
      ensures Valid() && fresh(store)
      ensures store.State() == Initial && page == 0 && search == ""
    {
      store := new Store();
      page := 0;
      search := "";
    }

    /** The ids this view renders. */
    function RenderGrid(): (ids: seq<string>)
      reads this
      requires 0 <= page <= 9
      ensures |ids| == RowsPerPage
      ensures forall k :: 0 <= k < RowsPerPage ==> ids[k] == CellId(RowsPerPage * page + k)
    {
      PageIdsExact(page);
      PageIds(page)
    }

    method HandleInputChange(id: string, value: string, tb: Toolbar, parsesAsNumber: bool)
      requires Valid()
      modifies store
      ensures Valid()
      ensures store.State() == InputChange(old(store.State()), id, value, tb, parsesAsNumber)
    {
      var cell := CurrentCell(store.cells, id, tb);
      if cell.isNumeric && !parsesAsNumber {
        return;
      }
      SetCellKeepsSnapshotsNonEmpty(store.State(), id, cell.(value := value, isHighlighted := Highlighted(value, store.searchQuery)));
      store.SetCell(id, cell.(value := value, isHighlighted := Highlighted(value, store.searchQuery)));
    }

    method HandleFormatChange(id: string, tb: Toolbar)
      requires Valid()
      modifies store
      ensures Valid()
      ensures store.State() == FormatChange(old(store.State()), id, tb)
    {
      var cell := CurrentCell(store.cells, id, tb);
      SetCellKeepsSnapshotsNonEmpty(store.State(), id, cell.(alignment := tb.alignment, fontSize := tb.fontSize));
      store.SetCell(id, cell.(alignment := tb.alignment, fontSize := tb.fontSize));
    }

    /** Returns, as a ghost value, the order in which the entries were
        visited; the map iteration order itself is not modelled. */
    method HandleSearchChange(query: string) returns (ghost order: seq<string>)
      requires Valid()
      modifies this, store
      ensures Valid()
      ensures search == query && page == old(page)
      ensures Enumerates(order, old(store.cells))
      ensures store.State() == SearchChange(old(store.State()), query, order)
    {
      search := query;
      store.SetSearchQuery(query);
      order := HighlightEntries(query);
    }

    /** The loop of a search change: every entry of the cell map, in some
        order, is written back with its highlight recomputed for `query`.
        Returns, as a ghost value, the order in which the entries were
        visited; the map iteration order itself is not modelled. */
    method HighlightEntries(query: string) returns (ghost order: seq<string>)
      requires store.Valid() && SnapshotsNonEmpty(store.State())
      modifies store
      ensures store.Valid() && SnapshotsNonEmpty(store.State())
      ensures Enumerates(order, old(store.cells))
      ensures store.State() == SearchFold(old(store.State()), old(store.cells), query, order)
    {
      var entries := store.cells;
      var remaining := entries.Keys;
      ghost var start := store.State();
      order := [];
      while remaining != {}
        invariant remaining <= entries.Keys
        invariant forall id :: id in entries ==> (id in remaining <==> id !in order)
        invariant Distinct(order)
        invariant forall i :: 0 <= i < |order| ==> order[i] in entries
        invariant store.Valid() && SnapshotsNonEmpty(store.State())
        invariant store.State() == SearchFold(start, entries, query, order)
        decreases remaining
      {
        var id :| id in remaining;
        SetCellKeepsSnapshotsNonEmpty(store.State(), id, Rehighlighted(entries[id], query));
        SearchFoldSnoc(start, entries, query, order, id);
        DistinctSnoc(order, id);
        store.SetCell(id, Rehighlighted(entries[id], query));
        order := order + [id];
        remaining := remaining - {id};
      }
    }

    method HandlePageChange(newPage: int)
      requires Valid()
      modifies this`page
      ensures Valid()
      ensures page == PageChange(old(page), newPage)
    {
      if newPage >= 0 && newPage * RowsPerPage < GridSize {
        page := newPage;
      }
    }

    method Undo()
      requires Valid()
      modifies store
      ensures Valid()
      ensures store.State() == UndoStep(old(store.State()))
    {
      if store.historyIndex >= 0 {
        UndoNeverEmpties(store.State());
      }
      store.Undo();
    }

    method Redo()
      requires Valid()
      modifies store
      ensures Valid()
      ensures store.State() == RedoStep(old(store.State()))
    {
      store.Redo();
    }
  }
}
