/**
 * Clients of PixelArray written after the scenarios of tests/test_sand.py:
 * each one is proved from PixelArray's contracts and Grid's lemmas, on a
 * 10 x 20 grid whose occupants are integers. Like the tests, they place
 * occupants by writing into the public board field directly.
 */
module SandTests {
  import opened Grid
  import opened Sand

  method SetArrayCount() {
    var board := PixelArray<int>.SetArray(10, 20);
    assert |board| == 200;
  }

  method GetPixelReadsStoredOccupant() {
    var g := new PixelArray<int>(10, 20);
    FullKeys(10, 20, g.board, (5, 5));
    g.board := g.board[(5, 5) := Some(1)];
    assert g.GetPixel(5, 5) == Some(1);
  }

  method MovePixelToEmptyPosition() {
    var g := new PixelArray<int>(10, 20);
    FullKeys(10, 20, g.board, (0, 0));
    FullKeys(10, 20, g.board, (5, 5));
    g.board := g.board[(0, 0) := Some(1)];
    var err := g.Move(0, 0, 5, 5);
    assert err.None?;
    assert g.GetPixel(0, 0).None? && g.GetPixel(5, 5) == Some(1);
  }

  method MovePixelToTakenPosition() {
    var g := new PixelArray<int>(10, 20);
    FullKeys(10, 20, g.board, (0, 0));
    FullKeys(10, 20, g.board, (5, 5));
    g.board := g.board[(0, 0) := Some(1)][(5, 5) := Some(1)];
    var before := g.board;
    var err := g.Move(0, 0, 5, 5);
    assert err == Some(EndTaken) && g.board == before;
  }

  method MovePixelOutOfArray() {
    var g := new PixelArray<int>(10, 20);
    FullKeys(10, 20, g.board, (0, 0));
    g.board := g.board[(0, 0) := Some(1)];
    var before := g.board;
    var err := g.Move(0, 0, 10, 19);
    assert err == Some(OutOfArray) && g.board == before;
  }

  method MovePixelFromOutside() {
    var g := new PixelArray<int>(10, 20);
    var before := g.board;
    var err := g.Move(30, 30, 1, 2);
    assert err == Some(FromOutside) && g.board == before;
  }

  /** Both ends outside: the end is checked first. */
  method MoveBothEndsOutside() {
    var g := new PixelArray<int>(10, 20);
    var err := g.Move(30, 30, -1, 2);
    assert err == Some(OutOfArray);
  }
}
