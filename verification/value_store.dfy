/**
 * The secondary store: a plain table from cell id to cell text with a
 * single update operation, and no history.
 */
module ValueStore {

  /** The table after writing `value` under `id`: `id` now maps to `value`,
      every other key keeps its text, and the only key that may be new is
      `id`. */
  function Updated(cells: map<string, string>, id: string, value: string): (r: map<string, string>)
    ensures id in r && r[id] == value
    ensures r.Keys == cells.Keys + {id}
    ensures forall k :: k in cells && k != id ==> r[k] == cells[k]
    ensures |r| == if id in cells then |cells| else |cells| + 1
  {
    cells[id := value]
  }

  /** Writing the same text twice is the same as writing it once. */
  lemma UpdateIdempotent(cells: map<string, string>, id: string, value: string)
    ensures Updated(Updated(cells, id, value), id, value) == Updated(cells, id, value)
  {
  }

  /** Of two successive writes to one id, the last one wins. */
  lemma UpdateLastWins(cells: map<string, string>, id: string, first: string, second: string)
    ensures Updated(Updated(cells, id, first), id, second) == Updated(cells, id, second)
  {
  }

  class SpreadsheetStore {
    var cells: map<string, string>

    constructor ()
      ensures cells == map[]
    {
      cells := map[];
    }

    method UpdateCell(id: string, value: string)
      modifies this
      ensures cells == Updated(old(cells), id, value)
    {
      cells := cells[id := value];
    }
  }
}
