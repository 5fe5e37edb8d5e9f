/**
 * The drawing and cursor arithmetic of the console's line editor
 * (console/console_display.go), stated on values.
 *
 * A Screen is a snapshot of the terminal cells together with the console's
 * cursor and the row its prompt was last drawn on. Every operation of the
 * editor is a function from one snapshot to the next; the Console class
 * performs the same steps in place and is proved equal to these functions.
 * Only the rune of each cell is kept: colours and attributes are dropped.
 */
module Display {

  // ---------------------------------------------------------------------
  // Go integer division
  // ---------------------------------------------------------------------

  /** Go's `a / b` for b > 0: the quotient truncated toward zero. */
  function Quo(a: int, b: int): (q: int)
    requires b > 0
    ensures a >= 0 ==> q * b <= a < q * b + b
    ensures a < 0 ==> q * b - b < a <= q * b
  {
    if a >= 0 then a / b else -((-a) / b)
  }

  /** Go's `a % b` for b > 0: the remainder takes the sign of `a`. */
  function Rem(a: int, b: int): (r: int)
    requires b > 0
    ensures a == Quo(a, b) * b + r
    ensures a >= 0 ==> 0 <= r < b
    ensures a < 0 ==> -b < r <= 0
  {
    a - Quo(a, b) * b
  }

  lemma MulPos(d: int, k: int)
    requires d >= 1 && k >= 1
    ensures d * k >= k
    decreases d
  {
    if d > 1 {
      MulPos(d - 1, k);
      assert d * k == (d - 1) * k + k;
    }
  }

  lemma MulMono(a: int, b: int, k: int)
    requires k >= 1 && a <= b
    ensures a * k <= b * k
  {
    if a < b {
      MulPos(b - a, k);
      assert b * k == a * k + (b - a) * k;
    }
  }

  lemma MulLess(a: int, b: int, k: int)
    requires k >= 1 && a * k < b * k
    ensures a < b
  {
    if a >= b {
      MulMono(b, a, k);
      assert false;
    }
  }

  /** A non-negative number splits uniquely into whole rows and a column. */
  lemma DivModUnique(p: int, k: int, q: int, r: int)
    requires k >= 1 && p == q * k + r && 0 <= r < k
    ensures p / k == q && p % k == r
  {
    var q' := p / k;
    var r' := p % k;
    assert p == q' * k + r';
    if q' < q {
      MulMono(q' + 1, q, k);
      assert false;
    } else if q' > q {
      MulMono(q + 1, q', k);
      assert false;
    }
  }

  // ---------------------------------------------------------------------
  // Geometry
  // ---------------------------------------------------------------------

  /** The console's fixed geometry: its top row, left column, size and prompt. */
  datatype Widget = Widget(top: int, left: int, width: int, height: int, prompt: string)

  /** The terminal cells (grid[y][x]), the cursor cell and the prompt row. */
  datatype Screen = Screen(grid: seq<seq<char>>, x: int, y: int, promptY: int)

  /** The widget is non-empty and lies inside the terminal. */
  predicate Fits(w: Widget, g: seq<seq<char>>) {
    0 <= w.top && 0 <= w.left && 1 <= w.width && 1 <= w.height &&
    w.top + w.height <= |g| &&
    forall r :: 0 <= r < |g| ==> w.left + w.width <= |g[r]|
  }

  predicate SameShape(a: seq<seq<char>>, b: seq<seq<char>>) {
    |a| == |b| && forall r :: 0 <= r < |a| ==> |a[r]| == |b[r]|
  }

  predicate InWidget(w: Widget, x: int, y: int) {
    w.top <= y < w.top + w.height && w.left <= x < w.left + w.width
  }

  /** getCursorLoc: the index into the current line of the cursor cell. */
  function Offset(w: Widget, s: Screen): int {
    (s.y - s.promptY) * w.width + s.x - w.left - |w.prompt|
  }

  /** The cursor as a cell count from the top-left corner of the terminal. */
  function Pos(w: Widget, s: Screen): int {
    s.y * w.width + s.x
  }

  /** The cell holding character `loc` of the line when the widget starts at column 0. */
  function CellOf(w: Widget, promptY: int, loc: int): (int, int)
    requires w.width > 0
  {
    var p := loc + |w.prompt|;
    (p % w.width, promptY + p / w.width)
  }

  /** With the widget at column 0, the offset of a cursor cell and the cell of
      an offset are inverse to each other. */
  lemma CellOffsetRoundTrip(w: Widget, s: Screen, loc: int)
    requires w.width > 0 && w.left == 0
    ensures 0 <= s.x < w.width && Offset(w, s) + |w.prompt| >= 0 ==>
              CellOf(w, s.promptY, Offset(w, s)) == (s.x, s.y)
    ensures loc + |w.prompt| >= 0 ==>
              var c := CellOf(w, s.promptY, loc);
              0 <= c.0 < w.width && Offset(w, Screen(s.grid, c.0, c.1, s.promptY)) == loc
  {
    if 0 <= s.x < w.width && Offset(w, s) + |w.prompt| >= 0 {
      DivModUnique(Offset(w, s) + |w.prompt|, w.width, s.y - s.promptY, s.x);
    }
    if loc + |w.prompt| >= 0 {
      var p := loc + |w.prompt|;
      var c := CellOf(w, s.promptY, loc);
      assert p == (p / w.width) * w.width + p % w.width;
      assert c.1 - s.promptY == p / w.width;
    }
  }

  // ---------------------------------------------------------------------
  // Cells
  // ---------------------------------------------------------------------

  /** termbox SetCell: writes one cell, and does nothing outside the terminal. */
  function SetCell(g: seq<seq<char>>, x: int, y: int, ch: char): (r: seq<seq<char>>)
    ensures SameShape(r, g)
    ensures forall i, j :: 0 <= i < |g| && 0 <= j < |g[i]| ==>
              r[i][j] == if i == y && j == x then ch else g[i][j]
  {
    if 0 <= y < |g| && 0 <= x < |g[y]| then g[y := g[y][x := ch]] else g
  }

  function ScrolledCell(w: Widget, g: seq<seq<char>>, i: int, j: int): char
    requires 0 <= i < |g| && 0 <= j < |g[i]|
  {
    if !InWidget(w, j, i) then g[i][j]
    else if i + 1 < w.top + w.height && i + 1 < |g| && j < |g[i + 1]| then g[i + 1][j]
    else ' '
  }

  /** The cells after scrollDown: inside the widget every row takes the row
      below it and the bottom row is blanked; cells outside stay. */
  function ScrolledGrid(w: Widget, g: seq<seq<char>>): (r: seq<seq<char>>)
    ensures SameShape(r, g)
    ensures Fits(w, g) ==>
              forall i, j :: 0 <= i < |g| && 0 <= j < |g[i]| ==>
                r[i][j] == if !InWidget(w, j, i) then g[i][j]
                           else if i + 1 < w.top + w.height then g[i + 1][j]
                           else ' '
  {
    seq(|g|, i requires 0 <= i < |g| =>
      seq(|g[i]|, j requires 0 <= j < |g[i]| => ScrolledCell(w, g, i, j)))
  }

  // ---------------------------------------------------------------------
  // Cursor movement
  // ---------------------------------------------------------------------

  /** scrollDown: shift the widget's rows up; the cursor row drops by one,
      not below 0, and the prompt row drops by one. */
  function ScrollDown(w: Widget, s: Screen): Screen {
    Screen(ScrolledGrid(w, s.grid), s.x, if s.y - 1 < 0 then 0 else s.y - 1, s.promptY - 1)
  }

  /** incrementCursor: wraps the column with `% width`, ignoring `left`. */
  function Increment(w: Widget, s: Screen): Screen
    requires w.width > 0
  {
    var x1 := s.x + 1;
    var y1 := s.y + Quo(x1, w.width);
    var moved := Screen(s.grid, Rem(x1, w.width), y1, s.promptY);
    if y1 >= w.top + w.height then ScrollDown(w, moved) else moved
  }

  /** decrementCursor: wraps to column `left + width`, one past the widget. */
  function Decrement(w: Widget, s: Screen): Screen {
    if s.x - 1 < 0 then Screen(s.grid, w.left + w.width, s.y - 1, s.promptY)
    else s.(x := s.x - 1)
  }

  /** incrementCursor advances the offset by exactly one and leaves the
      column in [0, width), whatever `left` is; it scrolls at most once, and
      when the next cell is on the same row inside the widget nothing but the
      column changes. */
  lemma IncrementStep(w: Widget, s: Screen)
    requires w.width > 0 && 0 <= w.top && 1 <= w.height && s.x >= -1
    ensures var r := Increment(w, s);
      0 <= r.x < w.width && Offset(w, r) == Offset(w, s) + 1 &&
      (r.promptY == s.promptY || (r.promptY == s.promptY - 1 && r.grid == ScrolledGrid(w, s.grid))) &&
      (r.promptY == s.promptY ==> r.grid == s.grid && Pos(w, r) == Pos(w, s) + 1) &&
      (Pos(w, s) + 1 < (w.top + w.height) * w.width ==> r.promptY == s.promptY) &&
      (s.x + 1 < w.width && s.y < w.top + w.height ==> r == s.(x := s.x + 1))
  {
    var k := w.width;
    var x2 := Rem(s.x + 1, k);
    var y1 := s.y + Quo(s.x + 1, k);
    IncrementArith(k, s.x, s.y, s.promptY, w.top + w.height);
    var moved := Screen(s.grid, x2, y1, s.promptY);
    assert Increment(w, s) == if y1 >= w.top + w.height then ScrollDown(w, moved) else moved;
  }

  /** incrementCursor scrolls exactly when the row it moves to is at or
      below the widget's bottom. From a row inside the widget the cursor
      stays inside unless the column is two widths or more past the left
      edge, which the wrap of decrementCursor to `left + width` makes
      possible. */
  lemma IncrementScrolls(w: Widget, s: Screen)
    requires w.width > 0 && 0 <= w.top && 1 <= w.height && s.x >= -1
    ensures var r := Increment(w, s);
      (s.y + Quo(s.x + 1, w.width) >= w.top + w.height ==>
         r.promptY == s.promptY - 1 && r.grid == ScrolledGrid(w, s.grid)) &&
      (s.y + Quo(s.x + 1, w.width) < w.top + w.height ==> r.promptY == s.promptY && r.grid == s.grid) &&
      (s.y < w.top + w.height && s.x + 1 < 2 * w.width ==> r.y < w.top + w.height)
  {
    IncrementArith(w.width, s.x, s.y, s.promptY, w.top + w.height);
  }

  /** The arithmetic of incrementCursor: one cell further, in whole rows of
      `k` cells and a column in [0, k). */
  lemma IncrementArith(k: int, x: int, y: int, p: int, bottom: int)
    requires k >= 1 && x >= -1
    ensures var x2 := Rem(x + 1, k);
      var y1 := y + Quo(x + 1, k);
      0 <= x2 < k && (y1 - p) * k + x2 == (y - p) * k + x + 1 && y1 * k + x2 == y * k + x + 1 &&
      (y * k + x + 1 < bottom * k ==> y1 < bottom) &&
      (x + 1 < k ==> y1 == y && x2 == x + 1) &&
      (x + 1 < 2 * k ==> Quo(x + 1, k) <= 1)
  {
    var q := Quo(x + 1, k);
    var y1 := y + q;
    assert (y1 - p) * k == (y - p) * k + q * k;
    assert y1 * k == y * k + q * k;
    if y * k + x + 1 < bottom * k {
      MulLess(y1, bottom, k);
    }
    if x + 1 < k {
      assert q == 0 by {
        if q >= 1 { MulPos(q, k); }
      }
    }
    if x + 1 < 2 * k {
      MulLess(q, 2, k);
    }
  }

  /** Stepping back from column 0 and forward again does not return: with
      the widget at column 1 and two wide, decrementCursor wraps to column 3
      of the row above, and incrementCursor from there lands two rows down. */
  lemma WrapThenIncrementSkipsRow()
    ensures var w := Widget(0, 1, 2, 3, "> ");
      var d := Decrement(w, Screen([], 0, 1, 0));
      d == Screen([], 3, 0, 0) && Increment(w, d) == Screen([], 0, 2, 0)
  {
  }

  /** decrementCursor lowers the offset by one, except at column 0, where the
      wrap to `left + width` moves it by `left` instead. */
  lemma DecrementStep(w: Widget, s: Screen)
    ensures var r := Decrement(w, s);
      r.grid == s.grid && r.promptY == s.promptY &&
      Offset(w, r) == if s.x >= 1 then Offset(w, s) - 1 else Offset(w, s) - s.x + w.left
  {
    if s.x < 1 {
      assert (s.y - 1 - s.promptY) * w.width == (s.y - s.promptY) * w.width - w.width;
    }
  }

  /** Increment then Decrement is the identity inside a row; across the
      right edge it lands on column `left + width` of the old row, one offset
      further on than it started. */
  lemma IncrementThenDecrement(w: Widget, s: Screen)
    requires w.width > 0 && 0 <= w.top && 1 <= w.height
    requires 0 <= s.x < w.width && w.top <= s.y < w.top + w.height - 1
    ensures s.x + 1 < w.width ==> Decrement(w, Increment(w, s)) == s
    ensures s.x + 1 == w.width ==>
              Decrement(w, Increment(w, s)) == s.(x := w.left + w.width) &&
              Offset(w, Decrement(w, Increment(w, s))) == Offset(w, s) + 1 + w.left
  {
    IncrementStep(w, s);
    var r := Increment(w, s);
    DecrementStep(w, r);
    if s.x + 1 == w.width {
      assert Quo(s.x + 1, w.width) == 1;
    }
  }

  // ---------------------------------------------------------------------
  // Reading the line under the cursor
  // ---------------------------------------------------------------------

  /** getCursorChar: the character at the cursor's offset, or a blank. */
  function CursorChar(w: Widget, s: Screen, line: string): char {
    var loc := Offset(w, s);
    if loc < 0 || loc >= |line| then ' ' else line[loc]
  }

  /** moveCursorLeft: repaint the old cell, step back, repaint the new one;
      nothing happens at offset 0. */
  function MoveLeft(w: Widget, s: Screen, line: string): Screen {
    if Offset(w, s) == 0 then s
    else
      var d := Decrement(w, s.(grid := SetCell(s.grid, s.x, s.y, CursorChar(w, s, line))));
      d.(grid := SetCell(d.grid, d.x, d.y, CursorChar(w, d, line)))
  }

  /** moveCursorRight: the same, forward; nothing happens at or past the end. */
  function MoveRight(w: Widget, s: Screen, line: string): Screen
    requires w.width > 0
  {
    if Offset(w, s) >= |line| then s
    else
      var i := Increment(w, s.(grid := SetCell(s.grid, s.x, s.y, CursorChar(w, s, line))));
      i.(grid := SetCell(i.grid, i.x, i.y, CursorChar(w, i, line)))
  }

  /** moveCursorLeft is a no-op at offset 0 and otherwise steps back as
      decrementCursor does; with the widget at column 0 the offset stays in
      [0, |line|]. */
  lemma MoveLeftStep(w: Widget, s: Screen, line: string)
    ensures var r := MoveLeft(w, s, line);
      (Offset(w, s) == 0 ==> r == s) &&
      (Offset(w, s) != 0 ==>
        r.promptY == s.promptY &&
        Offset(w, r) == if s.x >= 1 then Offset(w, s) - 1 else Offset(w, s) - s.x + w.left) &&
      (w.left == 0 && s.x >= 0 && 0 <= Offset(w, s) <= |line| ==> 0 <= Offset(w, r) <= |line|) &&
      (Offset(w, s) != 0 && s.x >= 1 ==> r.x == s.x - 1 && r.y == s.y)
  {
    if Offset(w, s) != 0 {
      DecrementStep(w, s.(grid := SetCell(s.grid, s.x, s.y, CursorChar(w, s, line))));
    }
  }

  /** moveCursorRight is a no-op at or past the end of the line and otherwise
      advances the offset by one, so it keeps the offset in [0, |line|]. */
  lemma MoveRightStep(w: Widget, s: Screen, line: string)
    requires w.width > 0 && 0 <= w.top && 1 <= w.height && s.x >= -1
    ensures var r := MoveRight(w, s, line);
      (Offset(w, s) >= |line| ==> r == s) &&
      (Offset(w, s) < |line| ==> Offset(w, r) == Offset(w, s) + 1 && 0 <= r.x < w.width) &&
      (0 <= Offset(w, s) <= |line| ==> 0 <= Offset(w, r) <= |line|) &&
      (Pos(w, s) + 1 < (w.top + w.height) * w.width ==> r.promptY == s.promptY)
  {
    if Offset(w, s) < |line| {
      IncrementStep(w, s.(grid := SetCell(s.grid, s.x, s.y, CursorChar(w, s, line))));
    }
  }

  // ---------------------------------------------------------------------
  // Writing
  // ---------------------------------------------------------------------

  /** One step of a redraw loop: draw `ch` under the cursor and advance. */
  function Put(w: Widget, s: Screen, ch: char): Screen
    requires w.width > 0
  {
    Increment(w, s.(grid := SetCell(s.grid, s.x, s.y, ch)))
  }

  /** The redraw loops of insertChar and backspace: Put each character. */
  function Redraw(w: Widget, s: Screen, str: string): Screen
    requires w.width > 0
    decreases |str|
  {
    if str == [] then s else Put(w, Redraw(w, s, str[..|str| - 1]), str[|str| - 1])
  }

  /** writeChar: Put, then paint the cell now under the cursor blank. */
  function WriteChar(w: Widget, s: Screen, ch: char): Screen
    requires w.width > 0
  {
    var p := Put(w, s, ch);
    p.(grid := SetCell(p.grid, p.x, p.y, ' '))
  }

  /** Console.Print: writeChar for each rune. */
  function Print(w: Widget, s: Screen, str: string): Screen
    requires w.width > 0
    decreases |str|
  {
    if str == [] then s else WriteChar(w, Print(w, s, str[..|str| - 1]), str[|str| - 1])
  }

  /** Console.Println: Print, blank the cursor cell, go to column `left` of
      the next row (scrolling at the bottom) and mark the cursor cell. */
  function Println(w: Widget, s: Screen, str: string): Screen
    requires w.width > 0
  {
    var p := Print(w, s, str);
    var n := Screen(SetCell(p.grid, p.x, p.y, ' '), w.left, p.y + 1, p.promptY);
    var t := if n.y >= w.top + w.height then ScrollDown(w, n) else n;
    t.(grid := SetCell(t.grid, t.x, t.y, ' '))
  }

  /** Redraw advances the offset by one per character and leaves the column
      in [0, width); it never raises the prompt row, and when all the cells
      it passes lie above the widget's bottom edge it does not scroll. */
  lemma {:induction false} RedrawAdvances(w: Widget, s: Screen, str: string)
    requires w.width > 0 && 0 <= w.top && 1 <= w.height && s.x >= -1
    ensures var r := Redraw(w, s, str);
      Offset(w, r) == Offset(w, s) + |str| && r.promptY <= s.promptY &&
      (str != [] ==> 0 <= r.x < w.width) &&
      (Pos(w, s) + |str| < (w.top + w.height) * w.width ==>
         r.promptY == s.promptY && Pos(w, r) == Pos(w, s) + |str|)
    decreases |str|
  {
    if str != [] {
      var pre := str[..|str| - 1];
      RedrawAdvances(w, s, pre);
      var m := Redraw(w, s, pre);
      IncrementStep(w, m.(grid := SetCell(m.grid, m.x, m.y, str[|str| - 1])));
    }
  }

  /** Print moves the cursor exactly as Redraw does: one offset per rune. */
  lemma {:induction false} PrintAdvances(w: Widget, s: Screen, str: string)
    requires w.width > 0 && 0 <= w.top && 1 <= w.height && s.x >= -1
    ensures var r := Print(w, s, str);
      Offset(w, r) == Offset(w, s) + |str| && r.promptY <= s.promptY &&
      (str != [] ==> 0 <= r.x < w.width) &&
      (Pos(w, s) + |str| < (w.top + w.height) * w.width ==>
         r.promptY == s.promptY && Pos(w, r) == Pos(w, s) + |str|)
    decreases |str|
  {
    if str != [] {
      var pre := str[..|str| - 1];
      PrintAdvances(w, s, pre);
      var m := Print(w, s, pre);
      var i := Increment(w, m.(grid := SetCell(m.grid, m.x, m.y, str[|str| - 1])));
      IncrementStep(w, m.(grid := SetCell(m.grid, m.x, m.y, str[|str| - 1])));
      assert Print(w, s, str) == i.(grid := SetCell(i.grid, i.x, i.y, ' '));
    }
  }

  /** Println("") starts a fresh row at column `left`: the next row, or the
      bottom row of the widget after one scroll. */
  lemma PrintlnNewRow(w: Widget, s: Screen)
    requires w.width > 0 && 0 <= w.top && 1 <= w.height
    requires w.top <= s.y < w.top + w.height
    ensures var r := Println(w, s, "");
      r.x == w.left &&
      (s.y + 1 < w.top + w.height ==> r.y == s.y + 1 && r.promptY == s.promptY) &&
      (s.y + 1 == w.top + w.height ==> r.y == s.y && r.promptY == s.promptY - 1)
  {
  }

  // ---------------------------------------------------------------------
  // Editing
  // ---------------------------------------------------------------------

  /** insertChar panics (a slice bound out of range) unless the offset lies
      in [0, |line|]. */
  predicate InsertSafe(w: Widget, s: Screen, line: string) {
    0 <= Offset(w, s) <= |line|
  }

  /** insertChar: draw `ch` and the rest of the line, return the cursor to
      its old cell, splice `ch` in, then move right. The prompt row may have
      dropped while redrawing. */
  function Insert(w: Widget, s: Screen, line: string, ch: char): (Screen, string)
    requires w.width > 0 && InsertSafe(w, s, line)
  {
    var loc := Offset(w, s);
    var drawn := Redraw(w, Put(w, s, ch), line[loc..]);
    var line' := line[..loc] + [ch] + line[loc..];
    (MoveRight(w, Screen(drawn.grid, s.x, s.y, drawn.promptY), line'), line')
  }

  /** insertChar puts `ch` at the cursor's offset and, when the redraw fits
      above the widget's bottom edge, leaves the cursor just after it. */
  lemma InsertSplices(w: Widget, s: Screen, line: string, ch: char)
    requires w.width > 0 && 0 <= w.top && 1 <= w.height && s.x >= -1
    requires InsertSafe(w, s, line)
    ensures var r := Insert(w, s, line, ch); var loc := Offset(w, s);
      r.1 == line[..loc] + [ch] + line[loc..] && |r.1| == |line| + 1 && r.1[loc] == ch &&
      (Pos(w, s) + |line| - loc + 1 < (w.top + w.height) * w.width ==> Offset(w, r.0) == loc + 1)
  {
    var loc := Offset(w, s);
    var line' := line[..loc] + [ch] + line[loc..];
    assert Insert(w, s, line, ch).1 == line';
    assert |line'| == |line| + 1 && line'[loc] == ch;
    InsertSteps(w, s, line, ch);
  }

  /** The cursor part of InsertSplices. */
  lemma InsertSteps(w: Widget, s: Screen, line: string, ch: char)
    requires w.width > 0 && 0 <= w.top && 1 <= w.height && s.x >= -1
    requires InsertSafe(w, s, line)
    ensures var loc := Offset(w, s);
      Pos(w, s) + |line| - loc + 1 < (w.top + w.height) * w.width ==> Offset(w, Insert(w, s, line, ch).0) == loc + 1
  {
    var loc := Offset(w, s);
    if Pos(w, s) + |line| - loc + 1 < (w.top + w.height) * w.width {
      var put := Put(w, s, ch);
      IncrementStep(w, s.(grid := SetCell(s.grid, s.x, s.y, ch)));
      RedrawAdvances(w, put, line[loc..]);
      var drawn := Redraw(w, put, line[loc..]);
      var back := Screen(drawn.grid, s.x, s.y, drawn.promptY);
      var line' := line[..loc] + [ch] + line[loc..];
      assert Insert(w, s, line, ch).0 == MoveRight(w, back, line');
      MoveRightStep(w, back, line');
    }
  }

  /** What insertChar has done when it panics: `ch` is drawn at the cursor
      and the cursor steps on, scrolling if it must. With a negative offset
      the first pass of the redraw loop then reads outside the line; past
      the end of the line the loop has no pass, the cursor is put back, and
      the splice's slice bound fails. */
  function InsertFail(w: Widget, s: Screen, line: string, ch: char): Screen
    requires w.width > 0 && !InsertSafe(w, s, line)
  {
    var put := Put(w, s, ch);
    if Offset(w, s) < 0 then put else Screen(put.grid, s.x, s.y, put.promptY)
  }

  /** A panicking insertChar leaves `ch` in the cursor's cell, scrolled up
      with the rest of the widget when the step scrolled; the cursor is one
      step on for a negative offset and back in its cell otherwise. */
  lemma InsertFailDraws(w: Widget, s: Screen, line: string, ch: char)
    requires w.width > 0 && 0 <= w.top && 1 <= w.height && s.x >= -1
    requires !InsertSafe(w, s, line)
    ensures var r := InsertFail(w, s, line, ch); var g := SetCell(s.grid, s.x, s.y, ch);
      ((r.promptY == s.promptY && r.grid == g) ||
       (r.promptY == s.promptY - 1 && r.grid == ScrolledGrid(w, g))) &&
      (Offset(w, s) < 0 ==> Offset(w, r) == Offset(w, s) + 1) &&
      (Offset(w, s) > |line| ==> r.x == s.x && r.y == s.y)
  {
    IncrementStep(w, s.(grid := SetCell(s.grid, s.x, s.y, ch)));
  }

  /** backspace panics (a slice bound out of range) when the offset is
      positive and past the end of the line. */
  predicate BackspaceSafe(w: Widget, s: Screen, line: string) {
    Offset(w, s) <= 0 || Offset(w, s) <= |line|
  }

  /** The characters backspace redraws: those after the cursor's offset. */
  function After(line: string, loc: int): string
    requires 0 <= loc
  {
    if loc + 1 <= |line| then line[loc + 1..] else ""
  }

  /** The drawing part of backspace: redraw the characters after the
      offset one cell to the left, blank the cell after them, and return the
      cursor to its old cell. */
  function Erased(w: Widget, s: Screen, line: string, loc: int): Screen
    requires w.width > 0 && 0 <= loc
  {
    var drawn := Redraw(w, s, After(line, loc));
    Screen(SetCell(drawn.grid, drawn.x, drawn.y, ' '), s.x, s.y, drawn.promptY)
  }

  /** The slicing part of backspace, in its three branches. */
  function Cut(line: string, loc: int): string
    requires 0 < loc <= |line|
  {
    if loc == 1 then line[loc..]
    else if loc == |line| then line[..loc - 1]
    else line[..loc - 1] + line[loc..]
  }

  /** backspace: draw as Erased does, cut one character, then move left. */
  function Backspace(w: Widget, s: Screen, line: string): (Screen, string)
    requires w.width > 0 && BackspaceSafe(w, s, line)
  {
    var loc := Offset(w, s);
    if loc <= 0 then (s, line)
    else
      var line' := Cut(line, loc);
      (MoveLeft(w, Erased(w, s, line, loc), line'), line')
  }

  /** What backspace has done when it panics: the redraw loop and the
      blank cell after it, before the slice bound fails. */
  function BackspaceFail(w: Widget, s: Screen, line: string): Screen
    requires w.width > 0 && !BackspaceSafe(w, s, line)
  {
    var drawn := Redraw(w, s, After(line, Offset(w, s)));
    drawn.(grid := SetCell(drawn.grid, drawn.x, drawn.y, ' '))
  }

  /** Past the end of the line the redraw loop has no pass, so a panicking
      backspace has only blanked the cell under the cursor. */
  lemma BackspaceFailBlanks(w: Widget, s: Screen, line: string)
    requires w.width > 0 && !BackspaceSafe(w, s, line)
    ensures BackspaceFail(w, s, line) == s.(grid := SetCell(s.grid, s.x, s.y, ' '))
  {
    assert After(line, Offset(w, s)) == "";
  }

  /** backspace does nothing at offset 0 or before; otherwise all three of
      its cases remove exactly the character before the offset, and, when
      the redraw does not scroll, the cursor steps back as moveCursorLeft
      does. */
  lemma BackspaceDeletes(w: Widget, s: Screen, line: string)
    requires w.width > 0 && 0 <= w.top && 1 <= w.height && s.x >= -1
    requires BackspaceSafe(w, s, line)
    ensures var r := Backspace(w, s, line); var loc := Offset(w, s);
      (loc <= 0 ==> r == (s, line)) &&
      (loc > 0 ==>
        r.1 == line[..loc - 1] + line[loc..] && |r.1| == |line| - 1 &&
        (Pos(w, s) + |After(line, loc)| < (w.top + w.height) * w.width ==>
           Offset(w, r.0) == if s.x >= 1 then loc - 1 else loc - s.x + w.left))
  {
    if Offset(w, s) > 0 {
      BackspaceCuts(w, s, line);
      BackspaceSteps(w, s, line);
    }
  }

  /** The line part of backspace: one character cut before the offset. */
  lemma BackspaceCuts(w: Widget, s: Screen, line: string)
    requires w.width > 0 && BackspaceSafe(w, s, line) && Offset(w, s) > 0
    ensures var loc := Offset(w, s); var r := Backspace(w, s, line).1;
      r == line[..loc - 1] + line[loc..] && |r| == |line| - 1
  {
    var loc := Offset(w, s);
    if loc == 1 {
      assert line[..0] == [];
      assert line[..0] + line[1..] == line[1..];
    } else if loc == |line| {
      assert line[loc..] == [];
      assert line[..loc - 1] + line[loc..] == line[..loc - 1];
    }
  }

  /** The cursor part of backspace: without a scroll it steps back one
      offset, as moveCursorLeft does. */
  lemma BackspaceSteps(w: Widget, s: Screen, line: string)
    requires w.width > 0 && 0 <= w.top && 1 <= w.height && s.x >= -1
    requires BackspaceSafe(w, s, line) && Offset(w, s) > 0
    ensures var loc := Offset(w, s); var r := Backspace(w, s, line).0;
      Pos(w, s) + |After(line, loc)| < (w.top + w.height) * w.width ==>
        Offset(w, r) == if s.x >= 1 then loc - 1 else loc - s.x + w.left
  {
    var loc := Offset(w, s);
    RedrawAdvances(w, s, After(line, loc));
    var back := Erased(w, s, line, loc);
    var cut := Backspace(w, s, line).1;
    assert Backspace(w, s, line).0 == MoveLeft(w, back, cut);
    MoveLeftStep(w, back, cut);
  }

  /** The first `n` backspaces of clearLine; the flag is false once one of
      them has panicked, and the screen is then the one that backspace
      left. */
  function ClearSteps(w: Widget, s: Screen, line: string, n: nat): (r: (Screen, string, bool))
    requires w.width > 0
    decreases n
  {
    if n == 0 then (s, line, true)
    else
      var prev := ClearSteps(w, s, line, n - 1);
      if !prev.2 then prev
      else if !BackspaceSafe(w, prev.0, prev.1) then (BackspaceFail(w, prev.0, prev.1), prev.1, false)
      else
        var b := Backspace(w, prev.0, prev.1);
        (b.0, b.1, true)
  }

  /** clearLine: one backspace per rune of the line, then the line is "". */
  function ClearLine(w: Widget, s: Screen, line: string): (r: (Screen, bool))
    requires w.width > 0
  {
    var c := ClearSteps(w, s, line, |line|);
    (c.0, c.2)
  }

  /** The state clearLine keeps on a line that fits on the prompt's row of a
      widget at column 0. */
  predicate OnOneRow(w: Widget, s: Screen, line: string) {
    w.width > 0 && 0 <= w.top && 1 <= w.height && w.left == 0 && |w.prompt| >= 1 &&
    s.y == s.promptY && w.top <= s.y < w.top + w.height &&
    0 <= Offset(w, s) <= |line| && |w.prompt| + |line| < w.width
  }

  /** On such a line a backspace is safe, removes one character and steps
      the cursor back by one cell without scrolling. */
  lemma BackspaceOnOneRow(w: Widget, s: Screen, line: string)
    requires OnOneRow(w, s, line) && Offset(w, s) > 0
    ensures BackspaceSafe(w, s, line)
    ensures var r := Backspace(w, s, line);
      OnOneRow(w, r.0, r.1) && r.0.promptY == s.promptY &&
      Offset(w, r.0) == Offset(w, s) - 1 && |r.1| == |line| - 1
  {
    var loc := Offset(w, s);
    OneRowRoom(w, s, line);
    BackspaceDeletes(w, s, line);
    var drawn := Redraw(w, s, After(line, loc));
    RedrawAdvances(w, s, After(line, loc));
    var g := SetCell(drawn.grid, drawn.x, drawn.y, ' ');
    var line' := line[..loc - 1] + line[loc..];
    MoveLeftStep(w, Screen(g, s.x, s.y, drawn.promptY), line');
  }

  /** On such a line, the cells from the cursor to the end of the line stay
      inside the widget's last row. */
  lemma OneRowRoom(w: Widget, s: Screen, line: string)
    requires OnOneRow(w, s, line)
    ensures s.x == |w.prompt| + Offset(w, s)
    ensures Pos(w, s) + |line| - Offset(w, s) < (w.top + w.height) * w.width
  {
    MulMono(s.y + 1, w.top + w.height, w.width);
    assert (s.y + 1) * w.width == s.y * w.width + w.width;
  }

  /** On a line that fits on the prompt's row of a widget at column 0, with
      a non-empty prompt, the backspaces of clearLine never panic: each one
      removes a character until the cursor reaches offset 0. */
  lemma {:induction false} ClearStepsOnOneRow(w: Widget, s: Screen, line: string, n: nat)
    requires OnOneRow(w, s, line)
    ensures var r := ClearSteps(w, s, line, n);
      r.2 && OnOneRow(w, r.0, r.1) && r.0.promptY == s.promptY &&
      Offset(w, r.0) == (if n <= Offset(w, s) then Offset(w, s) - n else 0) &&
      |r.1| == |line| - (if n <= Offset(w, s) then n else Offset(w, s))
    decreases n
  {
    if n > 0 {
      ClearStepsOnOneRow(w, s, line, n - 1);
      var prev := ClearSteps(w, s, line, n - 1);
      if Offset(w, prev.0) > 0 {
        BackspaceOnOneRow(w, prev.0, prev.1);
      }
    }
  }

  /** clearLine on a single-row line never panics and ends at offset 0. */
  lemma ClearLineOnOneRow(w: Widget, s: Screen, line: string)
    requires OnOneRow(w, s, line)
    ensures ClearLine(w, s, line).1 && Offset(w, ClearLine(w, s, line).0) == 0
  {
    ClearStepsOnOneRow(w, s, line, |line|);
  }

  /** A failed clearLine stays failed: later backspaces are never reached,
      and the screen and line stay as the failing one left them. */
  lemma {:induction false} ClearStepsStop(w: Widget, s: Screen, line: string, n: nat, m: nat)
    requires w.width > 0 && n <= m && !ClearSteps(w, s, line, n).2
    ensures ClearSteps(w, s, line, m) == ClearSteps(w, s, line, n)
    decreases m
  {
    if m > n {
      ClearStepsStop(w, s, line, n, m - 1);
    }
  }

  /** With the widget at column 0, a backspace with the cursor at column 0
      and at the end of the line steps back to column `width` of the row
      above, which leaves the offset where it was while the line loses a
      character: the next backspace would panic. */
  lemma BackspaceAtColumnZero(w: Widget, s: Screen, line: string)
    requires w.width > 0 && 0 <= w.top && 1 <= w.height && w.left == 0
    requires s.x == 0 && 0 < Offset(w, s) == |line|
    requires Pos(w, s) < (w.top + w.height) * w.width
    ensures BackspaceSafe(w, s, line)
    ensures var r := Backspace(w, s, line);
      |r.1| == |line| - 1 && Offset(w, r.0) == |line| && !BackspaceSafe(w, r.0, r.1)
  {
    BackspaceDeletes(w, s, line);
  }

  /** So clearLine panics from that position whenever the line has at least
      two characters: for instance after typing eight characters behind the
      prompt "> " in a widget ten columns wide, which wraps the cursor to
      column 0 of the next row. */
  lemma ClearLineAtColumnZeroPanics(w: Widget, s: Screen, line: string)
    requires w.width > 0 && 0 <= w.top && 1 <= w.height && w.left == 0
    requires s.x == 0 && 2 <= Offset(w, s) == |line|
    requires Pos(w, s) < (w.top + w.height) * w.width
    ensures !ClearLine(w, s, line).1
  {
    BackspaceAtColumnZero(w, s, line);
    assert ClearSteps(w, s, line, 1).0 == Backspace(w, s, line).0;
    ClearStepsStop(w, s, line, 2, |line|);
  }

  /** The instance described above. */
  lemma EightCharactersThenClear()
    ensures var w := Widget(0, 0, 10, 2, "> ");
      var s := Screen(seq(2, _ => seq(10, _ => ' ')), 0, 1, 0);
      Offset(w, s) == |"abcdefgh"| && !ClearLine(w, s, "abcdefgh").1
  {
    var w := Widget(0, 0, 10, 2, "> ");
    var s := Screen(seq(2, _ => seq(10, _ => ' ')), 0, 1, 0);
    ClearLineAtColumnZeroPanics(w, s, "abcdefgh");
  }
}
