/**
 * The cell record of the grid editor and the search-highlight rule that
 * the edit and search handlers share.
 */
module Cells {
  import opened Text

  datatype Alignment = Left | Center | Right

  /** One cell of the grid. `fontSize` is the toolbar's integer font size. */
  datatype Cell = Cell(
    value: string,
    alignment: Alignment,
    fontSize: int,
    isNumeric: bool,
    isHighlighted: bool)

  /** The cell map of the store, keyed by cell id (`cell-0` .. `cell-999`);
      a missing key stands for a cell that was never edited. */
  type CellMap = map<string, Cell>

  /** The highlight rule: an empty query highlights nothing; otherwise a
      cell is highlighted iff its value contains the query (case-sensitive). */
  function Highlighted(value: string, query: string): (r: bool)
    ensures r <==> query != [] && exists i :: OccursAt(value, query, i)
  {
    query != [] && Includes(value, query)
  }

  /** The cell with only its highlight flag recomputed for `query`. */
  function Rehighlighted(c: Cell, query: string): (r: Cell)
    ensures r.value == c.value && r.alignment == c.alignment
    ensures r.fontSize == c.fontSize && r.isNumeric == c.isNumeric
    ensures r.isHighlighted <==> query != [] && exists i :: OccursAt(c.value, query, i)
  {
    c.(isHighlighted := Highlighted(c.value, query))
  }

  /** Every cell of `cells` with its highlight flag recomputed for `query`:
      the cell map that a search change leaves behind. */
  function Rehighlight(cells: CellMap, query: string): (r: CellMap)
    ensures r.Keys == cells.Keys
    ensures forall id :: id in r ==> r[id] == Rehighlighted(cells[id], query)
  {
    map id | id in cells :: Rehighlighted(cells[id], query)
  }
}
