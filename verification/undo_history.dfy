/**
 * The grid editor's state store: the live cell map, a linear history of
 * whole-map snapshots with a cursor, and the active search query.
 *
 * `StoreState` and the `...Step` functions describe each store operation
 * as a value-to-value transition; class `Store` is the store itself, whose
 * methods reassign its fields and are proved to follow those transitions.
 */
module UndoHistory {
  import opened Cells

  datatype StoreState = StoreState(
    cells: CellMap,
    history: seq<CellMap>,
    historyIndex: int,
    searchQuery: string)

  /** The store as created: no cells, no history, the cursor before the
      first snapshot, an empty query. */
  const Initial := StoreState(map[], [], -1, "")

  /** The cursor points at a snapshot or just before the first one. */
  predicate CursorInRange(st: StoreState)
  {
    -1 <= st.historyIndex < |st.history|
  }

  /** The store invariant: the cursor is in range, it is -1 exactly when
      there is no history (and then no cell was ever written), and
      otherwise the live map is the snapshot under the cursor. */
  predicate Inv(st: StoreState)
  {
    && CursorInRange(st)
    && (st.historyIndex == -1 <==> st.history == [])
    && (st.historyIndex == -1 ==> st.cells == map[])
    && (st.historyIndex >= 0 ==> st.cells == st.history[st.historyIndex])
  }

  /** Every snapshot holds at least one cell: snapshots are only ever taken
      right after a cell was written. */
  predicate SnapshotsNonEmpty(st: StoreState)
  {
    forall k :: 0 <= k < |st.history| ==> st.history[k] != map[]
  }

  /** addToHistory: drop every snapshot after the cursor, append a copy of
      the live map, and move the cursor onto it. */
  function AddToHistoryStep(st: StoreState): (r: StoreState)
    requires CursorInRange(st)
    ensures Inv(r)
    ensures r.cells == st.cells && r.searchQuery == st.searchQuery
    ensures |r.history| == st.historyIndex + 2 && r.historyIndex == st.historyIndex + 1
    ensures r.history[..st.historyIndex + 1] == st.history[..st.historyIndex + 1]
    ensures r.history[r.historyIndex] == st.cells
  {
    var h := st.history[..st.historyIndex + 1] + [st.cells];
    assert h[..st.historyIndex + 1] == st.history[..st.historyIndex + 1];
    st.(history := h, historyIndex := st.historyIndex + 1)
  }

  /** setCell: replace the record under `id` (every other key keeps its
      record) and then take a snapshot, discarding any redo tail. */
  function SetCellStep(st: StoreState, id: string, c: Cell): (r: StoreState)
    requires Inv(st)
    ensures Inv(r)
    ensures id in r.cells && r.cells[id] == c
    ensures r.cells.Keys == st.cells.Keys + {id}
    ensures forall k :: k in st.cells && k != id ==> r.cells[k] == st.cells[k]
    ensures r.history == st.history[..st.historyIndex + 1] + [r.cells]
    ensures r.historyIndex == st.historyIndex + 1 == |r.history| - 1
    ensures r.searchQuery == st.searchQuery
  {
    var r := AddToHistoryStep(st.(cells := st.cells[id := c]));
    assert r.history == r.history[..st.historyIndex + 1] + [r.cells];
    r
  }

  /** undo: when a previous snapshot exists (cursor above 0), make it the
      live map; otherwise do nothing. The history itself never changes. */
  function UndoStep(st: StoreState): (r: StoreState)
    requires Inv(st)
    ensures Inv(r)
    ensures r.history == st.history && r.searchQuery == st.searchQuery
    ensures st.historyIndex > 0 ==> r.historyIndex == st.historyIndex - 1
    ensures st.historyIndex <= 0 ==> r == st
  {
    if st.historyIndex > 0 then
      st.(cells := st.history[st.historyIndex - 1], historyIndex := st.historyIndex - 1)
    else
      st
  }

  /** redo: when a later snapshot exists, make it the live map; otherwise
      do nothing. The history itself never changes. */
  function RedoStep(st: StoreState): (r: StoreState)
    requires Inv(st)
    ensures Inv(r)
    ensures r.history == st.history && r.searchQuery == st.searchQuery
    ensures st.historyIndex < |st.history| - 1 ==> r.historyIndex == st.historyIndex + 1
    ensures st.historyIndex == |st.history| - 1 ==> r == st
  {
    if st.historyIndex < |st.history| - 1 then
      st.(cells := st.history[st.historyIndex + 1], historyIndex := st.historyIndex + 1)
    else
      st
  }

  /** setSearchQuery: only the query changes; highlights are not touched. */
  function SetSearchQueryStep(st: StoreState, query: string): (r: StoreState)
    ensures r.searchQuery == query
    ensures r.cells == st.cells && r.history == st.history && r.historyIndex == st.historyIndex
    ensures Inv(st) ==> Inv(r)
  {
    st.(searchQuery := query)
  }

  /** An undo that moves the cursor is cancelled by the next redo: the whole
      state, the live map included, is back as it was. */
  lemma UndoThenRedo(st: StoreState)
    requires Inv(st) && st.historyIndex > 0
    ensures RedoStep(UndoStep(st)) == st
  {
  }

  /** A redo that moves the cursor is cancelled by the next undo. */
  lemma RedoThenUndo(st: StoreState)
    requires Inv(st) && 0 <= st.historyIndex < |st.history| - 1
    ensures UndoStep(RedoStep(st)) == st
  {
  }

  /** A new edit discards the redo tail: redo right after setCell does
      nothing. */
  lemma RedoAfterSetCellIsNoop(st: StoreState, id: string, c: Cell)
    requires Inv(st)
    ensures RedoStep(SetCellStep(st, id, c)) == SetCellStep(st, id, c)
  {
  }

  /** Undo right after setCell brings back the map the edit started from,
      unless that edit was the first one (there is nothing before it). */
  lemma UndoAfterSetCell(st: StoreState, id: string, c: Cell)
    requires Inv(st)
    ensures var r := UndoStep(SetCellStep(st, id, c));
      (st.historyIndex >= 0 ==> r.cells == st.cells && r.historyIndex == st.historyIndex)
      && (st.historyIndex == -1 ==> r.cells == map[id := c])
  {
    var s1 := SetCellStep(st, id, c);
    if st.historyIndex >= 0 {
      assert s1.history[st.historyIndex] == st.history[st.historyIndex];
    } else {
      assert s1.cells == map[id := c];
    }
  }

  /** setCell keeps every snapshot up to and including the one under the
      cursor. */
  lemma SetCellKeepsPast(st: StoreState, id: string, c: Cell, n: nat)
    requires Inv(st) && n <= st.historyIndex + 1
    ensures SetCellStep(st, id, c).history[..n] == st.history[..n]
  {
    var r := SetCellStep(st, id, c);
    assert r.history[..n] == r.history[..st.historyIndex + 1][..n];
  }

  /** Taking a snapshot after a write keeps every snapshot non-empty. */
  lemma SetCellKeepsSnapshotsNonEmpty(st: StoreState, id: string, c: Cell)
    requires Inv(st) && SnapshotsNonEmpty(st)
    ensures SnapshotsNonEmpty(SetCellStep(st, id, c))
  {
    var r := SetCellStep(st, id, c);
    var n := st.historyIndex + 1;
    forall k | 0 <= k < |r.history|
      ensures r.history[k] != map[]
    {
      if k < n {
        assert r.history[k] == st.history[..n][k];
      } else {
        assert r.history[k] == r.cells;
      }
    }
  }

  /** Undo never brings back the empty map the store started with, once a
      cell has been written: it stops at the first snapshot. */
  lemma UndoNeverEmpties(st: StoreState)
    requires Inv(st) && SnapshotsNonEmpty(st) && st.historyIndex >= 0
    ensures UndoStep(st).cells != map[]
    ensures SnapshotsNonEmpty(UndoStep(st))
  {
    assert st.history[st.historyIndex] != map[];
    if st.historyIndex > 0 {
      assert st.history[st.historyIndex - 1] != map[];
    }
  }

  /** One write of a sequence of setCell calls. */
  datatype Edit = Edit(id: string, cell: Cell)

  /** The store after the given setCell calls, in order. */
  function ApplyEdits(st: StoreState, edits: seq<Edit>): (r: StoreState)
    requires Inv(st)
    ensures Inv(r)
    decreases |edits|
  {
    if edits == [] then st
    else ApplyEdits(SetCellStep(st, edits[0].id, edits[0].cell), edits[1..])
  }

  /** No coalescing: without a redo tail, each setCell adds exactly one
      snapshot and moves the cursor by one. */
  lemma {:induction false} ApplyEditsGrowsHistory(st: StoreState, edits: seq<Edit>)
    requires Inv(st) && st.historyIndex == |st.history| - 1
    ensures var r := ApplyEdits(st, edits);
      |r.history| == |st.history| + |edits|
      && r.historyIndex == st.historyIndex + |edits|
      && r.history[..|st.history|] == st.history
    decreases |edits|
  {
    if edits != [] {
      var s1 := SetCellStep(st, edits[0].id, edits[0].cell);
      ApplyEditsGrowsHistory(s1, edits[1..]);
      assert s1.history[..|st.history|] == st.history;
      var r := ApplyEdits(s1, edits[1..]);
      assert r.history[..|st.history|] == r.history[..|s1.history|][..|st.history|];
    }
  }

  /** From the initial store, n setCell calls leave n snapshots and the
      cursor on the last one. */
  lemma FromInitial(edits: seq<Edit>)
    ensures |ApplyEdits(Initial, edits).history| == |edits|
    ensures ApplyEdits(Initial, edits).historyIndex == |edits| - 1
  {
    ApplyEditsGrowsHistory(Initial, edits);
  }

  /** The store object. Its fields are reassigned by its methods. */
  class Store {
    var cells: CellMap
    var history: seq<CellMap>
    var historyIndex: int
    var searchQuery: string

    /** The store's fields as a value. */
    function State(): StoreState
      reads this
    {
      StoreState(cells, history, historyIndex, searchQuery)
    }

    ghost predicate Valid()
      reads this
    {
      Inv(State())
    }

    constructor ()
      ensures Valid() && State() == Initial
    {
      cells := map[];
      history := [];
      historyIndex := -1;
      searchQuery := "";
    }

    method AddToHistory()
      requires CursorInRange(State())
      modifies this
      ensures Valid()
      ensures State() == AddToHistoryStep(old(State()))
    {
      history := history[..historyIndex + 1] + [cells];
      historyIndex := historyIndex + 1;
    }

    method SetCell(id: string, cell: Cell)
      requires Valid()
      modifies this
      ensures Valid()
      ensures State() == SetCellStep(old(State()), id, cell)
    {
      cells := cells[id := cell];
      AddToHistory();
    }

    method Undo()
      requires Valid()
      modifies this
      ensures Valid()
      ensures State() == UndoStep(old(State()))
    {
      if historyIndex > 0 {
        cells := history[historyIndex - 1];
        historyIndex := historyIndex - 1;
      }
    }

    method Redo()
      requires Valid()
      modifies this
      ensures Valid()
      ensures State() == RedoStep(old(State()))
    {
      if historyIndex < |history| - 1 {
        cells := history[historyIndex + 1];
        historyIndex := historyIndex + 1;
      }
    }

    method SetSearchQuery(query: string)
      modifies this`searchQuery
      ensures State() == SetSearchQueryStep(old(State()), query)
    {
      searchQuery := query;
    }
  }
}
