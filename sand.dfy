/**
 * PixelArray, the occupancy grid of the sand simulation: a cols x rows
 * lattice kept as a dictionary from (col, row) to an optional occupant,
 * updated in place by Move.
 */
module Sand {
  import opened Grid

  class PixelArray<T> {
    const cols: int
    const rows: int
    var board: Board<T>

    /** Every lattice cell has exactly one entry, and nothing else is a key. */
    ghost predicate Valid()
      reads this
    {
      Full(cols, rows, board)
    }

    /** A grid of the given size with every cell empty. */
    constructor (cols: int, rows: int)
      ensures Valid()
      ensures this.cols == cols && this.rows == rows
      ensures forall c :: c in board ==> board[c].None?
      ensures |board| == Area(cols, rows)
    {
      this.cols := cols;
      this.rows := rows;
      var b0 := SetArray(cols, rows);
      board := b0;
    }

    /**
     * Builds the dictionary column by column, row by row, with None in every
     * cell of [0, cols) x [0, rows).
     */
    static method SetArray(cols: int, rows: int) returns (board: Board<T>)
      ensures Full(cols, rows, board)
      ensures forall c :: c in board ==> board[c].None?
      ensures |board| == Area(cols, rows)
    {
      board := map[];
      var col := 0;
      while col < cols
        invariant 0 <= col && (col == 0 || col <= cols)
        invariant board.Keys == Cells(col, rows)
        invariant forall c :: c in board ==> board[c].None?
      {
        var row := 0;
        while row < rows
          invariant 0 <= row && (row == 0 || row <= rows)
          invariant board.Keys == Cells(col, rows) + Column(col, row)
          invariant forall c :: c in board ==> board[c].None?
        {
          ColumnStep(col, row);
          board := board[(col, row) := None];
          row := row + 1;
        }
        CellsStep(col, rows);
        if rows <= 0 {
          CellsEmpty(col + 1, rows);
          assert Column(col, row) == {};
        }
        col := col + 1;
      }
      if cols <= 0 {
        CellsEmpty(cols, rows);
      }
      CellCount(cols, rows);
    }

    /** The occupant of an in-grid cell, None when the cell is empty. */
    function GetPixel(x: int, y: int): (p: Option<T>)
      reads this
      requires Valid() && InBounds(cols, rows, (x, y))
      ensures (x, y) in board && p == board[(x, y)]
    {
      FullKeys(cols, rows, board, (x, y));
      board[(x, y)]
    }

    /**
     * Moves the occupant of (startX, startY) to (endX, endY). Returns the
     * error of the first failing check (end out of the grid, start out of the
     * grid, end taken) with the grid untouched, or None after the move.
     */
    method Move(startX: int, startY: int, endX: int, endY: int) returns (err: Option<PixelError>)
      requires Valid()
      modifies this
      ensures Valid()
      ensures match Grid.Move(cols, rows, old(board), (startX, startY), (endX, endY))
        case Moved(b) => err.None? && board == b
        case Refused(e) => err == Some(e) && board == old(board)
    {
      FullKeys(cols, rows, board, (startX, startY));
      FullKeys(cols, rows, board, (endX, endY));
      if endX >= cols || endX < 0 || endY >= rows || endY < 0 {
        err := Some(OutOfArray);
      } else if startX >= cols || startX < 0 || startY >= rows || startY < 0 {
        err := Some(FromOutside);
      } else if board[(endX, endY)].Some? {
        err := Some(EndTaken);
      } else {
        board := board[(endX, endY) := board[(startX, startY)]];
        board := board[(startX, startY) := None];
        err := None;
      }
    }
  }
}
