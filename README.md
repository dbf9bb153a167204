# Sand: the occupancy grid

This project models `PixelArray`, the occupancy grid of a falling-sand
simulation, and proves properties of it. The grid is a `cols x rows` lattice
kept as a dictionary from `(col, row)` to an optional occupant. It has three
operations. Construction fills every cell with nothing. A lookup reads one
cell. `move` checks the end cell's bounds, then the start cell's bounds, then
whether the end cell is free. It raises `PixelError` with its own message for
each failure. When all three checks pass, it hands the start cell's occupant
to the end cell and empties the start cell.

Layout:

- `grid.dfy`, module `Grid`: the grid as values. It holds the board type
  `Board<T> = map<Cell, Option<T>>`, the lattice `Cells(cols, rows)`, the
  invariant `Full` (the key set is exactly the lattice) and `Move`, which gives
  the outcome of a move on a board (`Moved(board)` or `Refused(error)`). It
  also holds the lemmas about these.
- `sand.dfy`, module `Sand`: the class `PixelArray<T>`. It has the fields
  `cols`, `rows` and `board`; that last one is the source's `array`, renamed
  because `array` is a Dafny keyword. It has the static `SetArray` (two nested
  loops), the constructor, `GetPixel` and the in-place `Move`. `Move` is
  specified by `Grid.Move` on the old board.
- `sand_tests.dfy`, module `SandTests`: client methods following the scenarios
  of `tests/test_sand.py` on a `10 x 20` grid of integer occupants. Each one is
  proved from `PixelArray`'s contracts and `Grid`'s lemmas. Like the tests,
  which write into the dictionary directly (`array[5, 5] = 1`), they place
  occupants by assigning the public field `board`. They have no contracts of
  their own, so they have no row below.

The occupant type is a type parameter `T`; the tests store integers.
`PixelError`'s three messages are the three variants `OutOfArray`,
`FromOutside` and `EndTaken`. Python's `move` returns nothing or raises.
`Move` returns `None` on success and `Some(error)` on failure.

Facts about `sand.py` that shape the model:

- Neither `__init__` nor `set_array` checks the dimensions, and `range` of a
  non-positive number is empty (sand.py:29-30). So a non-positive dimension
  gives an empty dictionary, and `Area` is `cols * rows` when both are
  positive and 0 otherwise. The constructor has no precondition.
- `PixelError` is one class, raised with three different messages
  (sand.py:17, 48-52). The model has one error datatype with three variants.
- `move` has no empty-source check (sand.py:51-55). Moving an empty cell into
  an empty cell succeeds and changes nothing (`MoveFromEmptyIsNoop`).

## Model

| member | source | states |
|---|---|---|
| `Sand.PixelArray.constructor` | sand.py:22-25 | the new grid keeps the given `cols` and `rows`; its key set is exactly the lattice; every cell is empty; it has `Area(cols, rows)` entries |
| `Sand.PixelArray.SetArray` | sand.py:27-32 | the dictionary built by the nested loops has exactly the lattice `[0,cols) x [0,rows)` as its key set, holds `None` everywhere and has `cols * rows` entries (0 if a dimension is not positive) |
| `Grid.CellCount` | sand.py:27-32 | the lattice of a `cols x rows` grid has `cols * rows` cells, or none when a dimension is not positive |
| `Sand.PixelArray.GetPixel` | sand.py:34-36 | for every in-grid cell of a valid grid an entry exists, and the result is the occupant stored there |
| `Sand.PixelArray.Move` | sand.py:38-55 | keeps the key set equal to the lattice; on refusal it returns the error `Grid.Move` gives and leaves the board unchanged; on success it returns `None` and the board becomes the one `Grid.Move` gives |
| `Grid.Move` | sand.py:47-55 | an out-of-grid end gives "out of array", even when the start is also outside; an in-grid end with an out-of-grid start gives "from outside"; two in-grid ends with an occupied end give "already taken"; the move succeeds exactly when both are in the grid and the end is empty; a successful move keeps the key set equal to the lattice, puts the old start occupant at the end, empties the start and leaves every other cell unchanged |
| `Grid.MoveFromEmptyIsNoop` | sand.py:51-55 | a successful move out of an empty cell leaves the whole board unchanged, because there is no empty-source check |
| `Grid.SelfMove` | sand.py:51-55 | `move(s, s)` on an in-grid cell is refused with "already taken" when the cell is occupied, and succeeds with the board unchanged when it is empty |
| `Grid.MoveUndo` | sand.py:47-55 | after a successful move from `start` to `end`, the move from `end` back to `start` succeeds and restores the original board |
| `Grid.MoveConservesOccupants` | sand.py:53-55 | a successful move keeps the set of occupants and the number of occupied cells; if no occupant was held by two cells before, none is after |

## Left out

- `Pixel`: its constructor only stores `x`, `y` and `size` and never touches the grid. `update` is abstract, `draw` and `color` render through the `arcade` library, and `type` reflects on the class name. None of these is grid logic.
- The commented-out `SandPixel`, `PixelList`, `MyGame` and `main`: they are not executable code. No falling-grain rule, adjacency predicate or update order exists outside them, so none is modelled.
- The screen and size constants, the window and the event loop: presentation and I/O.
- Sand.PixelArray.GetPixel: an off-grid lookup raises Python's `KeyError`; the model makes an in-grid cell a precondition instead of modelling that failure.
