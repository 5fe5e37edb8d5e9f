/**
 * The termbox back buffer the console draws into: a rectangle of cells,
 * each holding one rune. Flushing it to the real terminal, colours and
 * attributes are not part of this model.
 */
module Terminal {
  import Display

  class Surface {
    /** The cell in row y and column x is cells[y, x]. */
    const cells: array2<char>

    /** The cells as a value: row by row. */
    ghost function Grid(): (g: seq<seq<char>>)
      reads cells
      ensures |g| == cells.Length0
      ensures forall y :: 0 <= y < |g| ==> |g[y]| == cells.Length1
      ensures forall y, x :: 0 <= y < cells.Length0 && 0 <= x < cells.Length1 ==> g[y][x] == cells[y, x]
    {
      seq(cells.Length0, y requires 0 <= y < cells.Length0 reads cells =>
        seq(cells.Length1, x requires 0 <= x < cells.Length1 reads cells => cells[y, x]))
    }

    /** A terminal of `rows` by `cols` blank cells. */
    constructor (rows: nat, cols: nat)
      ensures fresh(cells)
      ensures Grid() == seq(rows, _ => seq(cols, _ => ' '))
    {
      cells := new char[rows, cols]((_, _) => ' ');
      new;
      assert forall y | 0 <= y < rows :: Grid()[y] == seq(cols, _ => ' ');
    }

    /** termbox Size: the terminal's width and height in cells. */
    function Size(): (r: (int, int))
      ensures r.0 == cells.Length1 && r.1 == cells.Length0
    {
      (cells.Length1, cells.Length0)
    }

    /** termbox SetCell: writes one cell; outside the terminal it does nothing. */
    method SetCell(x: int, y: int, ch: char)
      modifies cells
      ensures Grid() == Display.SetCell(old(Grid()), x, y, ch)
    {
      ghost var g := Grid();
      if 0 <= y < cells.Length0 && 0 <= x < cells.Length1 {
        cells[y, x] := ch;
      }
      ghost var want := Display.SetCell(g, x, y, ch);
      assert forall i | 0 <= i < cells.Length0 :: Grid()[i] == want[i];
    }

    /** The rune of CellBuffer()[i]: the buffer lists the rows one after
        another, so cell i is in row i / width, column i % width. */
    method Buffer(i: int) returns (ch: char)
      requires 0 <= i < cells.Length0 * cells.Length1
      ensures cells.Length1 > 0 && ch == Grid()[i / cells.Length1][i % cells.Length1]
    {
      var w := cells.Length1;
      if w == 0 {
        assert false;
      }
      var row := i / w;
      assert row * w <= i;
      Display.MulLess(row, cells.Length0, w);
      ch := cells[row, i % w];
    }
  }
}
