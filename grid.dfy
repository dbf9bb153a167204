/**
 * The occupancy grid of the sand simulation as values: a board maps every
 * cell (col, row) of a cols x rows lattice to an optional occupant. This
 * module holds what PixelArray's methods are specified by and the facts
 * proved about them.
 */
module Grid {

  datatype Option<T> = None | Some(value: T)

  /** The three ways PixelArray.move refuses a move, each with its own message. */
  datatype PixelError =
    | OutOfArray   // the end cell is outside the lattice
    | FromOutside  // the end cell is inside, the start cell is outside
    | EndTaken     // both cells are inside and the end cell is occupied

  /** A cell is addressed by its (col, row) pair. */
  type Cell = (int, int)

  /** The backing dictionary: cell to occupant, None for an empty cell. */
  type Board<T> = map<Cell, Option<T>>

  /** What a move does to a board: a new board, or a refusal with the board kept. */
  datatype Outcome<T> = Moved(board: Board<T>) | Refused(error: PixelError)

  predicate InBounds(cols: int, rows: int, c: Cell) {
    0 <= c.0 < cols && 0 <= c.1 < rows
  }

  /** Every cell of the lattice [0, cols) x [0, rows). */
  ghost function Cells(cols: int, rows: int): set<Cell> {
    set x, y | 0 <= x < cols && 0 <= y < rows :: (x, y)
  }

  /** The first n cells of column x. */
  ghost function Column(x: int, n: int): set<Cell> {
    set y | 0 <= y < n :: (x, y)
  }

  /** The number of cells of the lattice; a non-positive dimension gives none. */
  function Area(cols: int, rows: int): nat {
    if cols <= 0 || rows <= 0 then 0 else cols * rows
  }

  /** The board has exactly one entry per lattice cell and no other key. */
  ghost predicate Full<T>(cols: int, rows: int, b: Board<T>) {
    b.Keys == Cells(cols, rows)
  }

  /** The cells that hold an occupant. */
  ghost function Occupied<T>(b: Board<T>): set<Cell> {
    set c | c in b && b[c].Some?
  }

  /** The occupants on the board. */
  ghost function Occupants<T>(b: Board<T>): set<T> {
    set c | c in b && b[c].Some? :: b[c].value
  }

  /** No occupant is held by two cells at once. */
  ghost predicate Exclusive<T>(b: Board<T>) {
    forall c, d :: c in b && d in b && c != d && b[c].Some? ==> b[c] != b[d]
  }

  lemma CellsMembership(cols: int, rows: int, c: Cell)
    ensures c in Cells(cols, rows) <==> InBounds(cols, rows, c)
  {
  }

  /** Lattice membership of a board key under Full. */
  lemma FullKeys<T>(cols: int, rows: int, b: Board<T>, c: Cell)
    requires Full(cols, rows, b)
    ensures c in b <==> InBounds(cols, rows, c)
  {
  }

  lemma ColumnStep(x: int, n: int)
    requires 0 <= n
    ensures Column(x, n + 1) == Column(x, n) + {(x, n)}
  {
  }

  lemma {:induction false} ColumnCount(x: int, n: int)
    ensures |Column(x, n)| == if n <= 0 then 0 else n
  {
    if n <= 0 {
      assert Column(x, n) == {};
    } else {
      ColumnStep(x, n - 1);
      ColumnCount(x, n - 1);
      assert (x, n - 1) !in Column(x, n - 1);
    }
  }

  /** Adding column `cols` to the lattice of `cols` columns. */
  lemma CellsStep(cols: int, rows: int)
    requires 0 <= cols
    ensures Cells(cols + 1, rows) == Cells(cols, rows) + Column(cols, rows)
  {
  }

  lemma CellsEmpty(cols: int, rows: int)
    requires cols <= 0 || rows <= 0
    ensures Cells(cols, rows) == {}
  {
  }

  /** The lattice has cols * rows cells (none when a dimension is not positive). */
  lemma {:induction false} CellCount(cols: int, rows: int)
    ensures |Cells(cols, rows)| == Area(cols, rows)
  {
    if cols <= 0 || rows <= 0 {
      CellsEmpty(cols, rows);
    } else {
      CellsStep(cols - 1, rows);
      CellCount(cols - 1, rows);
      ColumnCount(cols - 1, rows);
      assert Cells(cols - 1, rows) !! Column(cols - 1, rows) by {
        forall c | c in Cells(cols - 1, rows) ensures c.0 < cols - 1 {
          CellsMembership(cols - 1, rows, c);
        }
      }
      assert Area(cols - 1, rows) + rows == Area(cols, rows) by {
        assert (cols - 1) * rows + rows == cols * rows;
      }
    }
  }

  /**
   * PixelArray.move on a board: the end is bounds-checked first, then the
   * start, then the end's occupancy; a move that passes all three hands the
   * start's occupant (possibly none) to the end and empties the start.
   */
  function Move<T>(cols: int, rows: int, b: Board<T>, start: Cell, end: Cell): (r: Outcome<T>)
    requires Full(cols, rows, b)
    ensures (r.Refused? && r.error == OutOfArray) <==> !InBounds(cols, rows, end)
    ensures (r.Refused? && r.error == FromOutside)
      <==> InBounds(cols, rows, end) && !InBounds(cols, rows, start)
    ensures (r.Refused? && r.error == EndTaken)
      <==> InBounds(cols, rows, end) && InBounds(cols, rows, start) && b[end].Some?
    ensures r.Moved? <==> InBounds(cols, rows, end) && InBounds(cols, rows, start) && b[end].None?
    ensures r.Moved? ==>
      && Full(cols, rows, r.board)
      && r.board.Keys == b.Keys
      && r.board[end] == b[start]
      && r.board[start].None?
      && forall c :: c in b && c != start && c != end ==> r.board[c] == b[c]
  {
    FullKeys(cols, rows, b, start);
    FullKeys(cols, rows, b, end);
    if end.0 >= cols || end.0 < 0 || end.1 >= rows || end.1 < 0 then
      Refused(OutOfArray)
    else if start.0 >= cols || start.0 < 0 || start.1 >= rows || start.1 < 0 then
      Refused(FromOutside)
    else if b[end].Some? then
      Refused(EndTaken)
    else
      Moved(b[end := b[start]][start := None])
  }

  /** Moving out of an empty cell into an empty cell changes nothing. */
  lemma MoveFromEmptyIsNoop<T>(cols: int, rows: int, b: Board<T>, start: Cell, end: Cell)
    requires Full(cols, rows, b)
    requires start in b && b[start].None?
    ensures Move(cols, rows, b, start, end).Moved? ==> Move(cols, rows, b, start, end).board == b
  {
  }

  /** move(s, s) is refused when the cell is occupied and leaves the board as it was otherwise. */
  lemma SelfMove<T>(cols: int, rows: int, b: Board<T>, s: Cell)
    requires Full(cols, rows, b)
    requires InBounds(cols, rows, s)
    ensures b[s].Some? ==> Move(cols, rows, b, s, s) == Refused(EndTaken)
    ensures b[s].None? ==> Move(cols, rows, b, s, s) == Moved(b)
  {
  }

  /** A successful move is undone by the reverse move. */
  lemma MoveUndo<T>(cols: int, rows: int, b: Board<T>, start: Cell, end: Cell)
    requires Full(cols, rows, b)
    requires Move(cols, rows, b, start, end).Moved?
    ensures Move(cols, rows, Move(cols, rows, b, start, end).board, end, start) == Moved(b)
  {
  }

  /** A successful move neither creates, loses nor duplicates an occupant. */
  lemma MoveConservesOccupants<T>(cols: int, rows: int, b: Board<T>, start: Cell, end: Cell)
    requires Full(cols, rows, b)
    requires Move(cols, rows, b, start, end).Moved?
    ensures Occupants(Move(cols, rows, b, start, end).board) == Occupants(b)
    ensures |Occupied(Move(cols, rows, b, start, end).board)| == |Occupied(b)|
    ensures Exclusive(b) ==> Exclusive(Move(cols, rows, b, start, end).board)
  {
    var b' := Move(cols, rows, b, start, end).board;
    if b[start].None? {
      MoveFromEmptyIsNoop(cols, rows, b, start, end);
    } else {
      assert start != end;
      assert Occupied(b') == Occupied(b) - {start} + {end};
      assert end !in Occupied(b) && start in Occupied(b);
      assert |Occupied(b) - {start}| == |Occupied(b)| - 1;
      forall v | v in Occupants(b) ensures v in Occupants(b') {
        var c :| c in b && b[c].Some? && b[c].value == v;
        if c == start { assert b'[end].value == v; } else { assert b'[c].value == v; }
      }
      forall v | v in Occupants(b') ensures v in Occupants(b) {
        var c :| c in b' && b'[c].Some? && b'[c].value == v;
        if c == end { assert b[start].value == v; } else { assert b[c].value == v; }
      }
      if Exclusive(b) {
        forall c, d | c in b' && d in b' && c != d && b'[c].Some? ensures b'[c] != b'[d] {
          var c0 := if c == end then start else c;
          var d0 := if d == end then start else d;
          assert b'[c] == b[c0];
          if d == start {
            assert b'[d].None?;
          } else {
            assert b'[d] == b[d0];
          }
        }
      }
    }
  }
}
