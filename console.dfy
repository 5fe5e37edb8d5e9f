/**
 * The console component (console/console.go, console_display.go,
 * console_events.go, executer.go): a line editor drawn into a rectangle of
 * the terminal, with a command history, tab completion and an executer.
 *
 * Every method performs the steps of the Go method in place and is proved
 * equal to the value-level functions of Display, History and Layout, where
 * the properties of the editor are proved.
 */
module Console {
  import opened Wrappers
  import Display
  import Terminal
  import History
  import Layout
  import Completer
  import Executer
  import Events

  /** defaultPrompt */
  const DefaultPrompt := "> "

  class Console {
    /** The widget: its top row, left column and size, in cells. */
    const top: int
    const left: int
    const width: int
    const height: int
    const prompt: string

    /** The terminal the console draws into (termbox's back buffer). */
    const screen: Terminal.Surface

    /** The cursor cell, counted from the terminal's top-left corner. */
    var cursorX: int
    var cursorY: int
    /** The row the prompt was last drawn on. */
    var promptY: int
    /** The line being edited. */
    var currline: string

    var executer: EchoExecuter?
    var completer: Option<Completer.ListCompleter>

    /** Command history: the ring of executed lines, the browse offset and
        the draft saved while browsing. */
    const lineBuffer: array<string>
    var bufferIdx: int
    var diff: int
    var oldLineCopy: string

    var running: bool

    /** Every non-empty line executed so far, oldest first. */
    ghost var recorded: seq<string>

    function W(): Display.Widget {
      Display.Widget(top, left, width, height, prompt)
    }

    /** The terminal cells with the cursor and the prompt row. */
    ghost function Snap(): Display.Screen
      reads this`cursorX, this`cursorY, this`promptY, screen.cells
    {
      Display.Screen(screen.Grid(), cursorX, cursorY, promptY)
    }

    /** The part of the console that events change. */
    ghost function Current(): Events.Editor
      reads this`cursorX, this`cursorY, this`promptY, screen.cells, this`currline, this`running,
            this`bufferIdx, this`diff, this`oldLineCopy, lineBuffer
    {
      Events.Editor(Snap(), currline, Ring(), running)
    }

    ghost function Ring(): History.Ring
      reads this`bufferIdx, this`diff, this`oldLineCopy, lineBuffer
    {
      History.Ring(lineBuffer[..], bufferIdx, diff, oldLineCopy)
    }

    /** The widget is not empty and lies inside the terminal, and the
        history has room for BufferSize lines. */
    predicate Fit() {
      0 <= top && 0 <= left && 1 <= width && 1 <= height &&
      top + height <= screen.cells.Length0 && left + width <= screen.cells.Length1 &&
      lineBuffer.Length == History.BufferSize
    }

    /** The console fits, the history ring is consistent with the lines
        executed, the executer is bound to this console and the completer
        was built by NewListCompleter. */
    ghost predicate Valid()
      reads this`executer, this`completer, this`bufferIdx, this`diff, this`oldLineCopy, this`recorded, lineBuffer
    {
      Fit() &&
      (executer != null ==> executer.con == this) &&
      (completer.Some? ==> Completer.Valid(completer.value)) &&
      History.Inv(Ring()) && History.Holds(Ring(), recorded)
    }

    lemma ValidFits()
      requires Fit()
      ensures Display.Fits(W(), screen.Grid())
    {
    }

    /** NewConsole: the cursor at the widget's top-left cell, which is also
        the prompt row; the default prompt; an empty line and history; no
        executer or completer; running. */
    constructor (top: int, left: int, width: int, height: int, screen: Terminal.Surface)
      requires 0 <= top && 0 <= left && 1 <= width && 1 <= height
      requires top + height <= screen.cells.Length0 && left + width <= screen.cells.Length1
      ensures Valid() && fresh(lineBuffer)
      ensures this.top == top && this.left == left && this.width == width && this.height == height
      ensures this.screen == screen && prompt == DefaultPrompt
      ensures cursorX == left && cursorY == top && promptY == top
      ensures currline == "" && diff == 0 && oldLineCopy == "" && bufferIdx == 0 && running
      ensures lineBuffer[..] == seq(History.BufferSize, _ => "") && recorded == []
      ensures executer == null && completer == None
    {
      this.top := top;
      this.left := left;
      this.width := width;
      this.height := height;
      this.screen := screen;
      cursorX := left;
      cursorY := top;
      promptY := top;
      prompt := DefaultPrompt;
      currline := "";
      diff := 0;
      oldLineCopy := "";
      lineBuffer := new string[History.BufferSize](_ => "");
      bufferIdx := 0;
      running := true;
      executer := null;
      completer := None;
      recorded := [];
    }

    /** SetExecuter: replaces the executer and nothing else. */
    method SetExecuter(e: EchoExecuter?)
      requires Valid() && (e != null ==> e.con == this)
      modifies this`executer
      ensures Valid() && executer == e
    {
      executer := e;
    }

    /** SetCompleter: replaces the completer and nothing else. */
    method SetCompleter(comp: Option<Completer.ListCompleter>)
      requires Valid() && (comp.Some? ==> Completer.Valid(comp.value))
      modifies this`completer
      ensures Valid() && completer == comp
    {
      completer := comp;
    }

    // -------------------------------------------------------------------
    // console_display.go
    // -------------------------------------------------------------------

    /** scrollDown: copy every widget row from the row below it, blank the
        bottom row, and move the cursor and the prompt row up. */
    method ScrollDown()
      requires Fit()
      modifies this`cursorY, this`promptY, screen.cells
      ensures Snap() == Display.ScrollDown(W(), old(Snap()))
    {
      ghost var g0 := screen.Grid();
      var y := top;
      ShiftedNone(g0);
      while y < top + height - 1
        invariant top <= y <= top + height - 1
        invariant screen.Grid() == ShiftedUpTo(g0, y, left)
        modifies screen.cells
      {
        ShiftRow(g0, y);
        ShiftedRow(g0, y);
        y := y + 1;
      }
      BlankBottomRow(ShiftedUpTo(g0, top + height - 1, left));
      ScrolledIsShifted(g0);
      cursorY := cursorY - 1;
      promptY := promptY - 1;
      if cursorY < 0 {
        cursorY := 0;
      }
    }

    /** One pass of scrollDown's outer loop: row y of the widget takes the
        cells of row y + 1, read through the flat cell buffer. */
    method ShiftRow(ghost g0: seq<seq<char>>, y: int)
      requires Display.Fits(W(), g0) && top <= y < top + height - 1
      requires top + height <= screen.cells.Length0 && left + width <= screen.cells.Length1
      requires screen.Grid() == ShiftedUpTo(g0, y, left)
      modifies screen.cells
      ensures screen.Grid() == ShiftedUpTo(g0, y, left + width)
    {
      var size := screen.Size();
      var tbWidth := size.0;
      var x := left;
      while x < left + width
        invariant left <= x <= left + width
        invariant screen.Grid() == ShiftedUpTo(g0, y, x)
      {
        x := ShiftCell(g0, y, x, tbWidth);
      }
    }

    /** One pass of scrollDown's inner loop: cell (x, y) takes the rune of
        CellBuffer()[(y + 1) * tbWidth + x], the cell below it. */
    method ShiftCell(ghost g0: seq<seq<char>>, y: int, x: int, tbWidth: int) returns (next: int)
      requires Display.Fits(W(), g0) && top <= y < top + height - 1 && left <= x < left + width
      requires top + height <= screen.cells.Length0 && left + width <= screen.cells.Length1
      requires tbWidth == screen.cells.Length1
      requires screen.Grid() == ShiftedUpTo(g0, y, x)
      modifies screen.cells
      ensures next == x + 1 && screen.Grid() == ShiftedUpTo(g0, y, next)
    {
      next := x + 1;
      var i := (y + 1) * tbWidth + x;
      FlatCell(y + 1, x, screen.cells.Length0, tbWidth);
      ghost var g := screen.Grid();
      var ch := screen.Buffer(i);
      assert i / tbWidth == y + 1 && i % tbWidth == x;
      screen.SetCell(x, y, ch);
      ShiftedStep(g0, y, x, g, ch);
    }

    /** The last loop of scrollDown: blank the widget's bottom row. */
    method BlankBottomRow(ghost g: seq<seq<char>>)
      requires Display.Fits(W(), g) && screen.Grid() == g
      modifies screen.cells
      ensures screen.Grid() == Blanked(g, left + width)
    {
      var x := left;
      BlankedNone(g);
      while x < left + width
        invariant left <= x <= left + width
        invariant screen.Grid() == Blanked(g, x)
      {
        screen.SetCell(x, top + height - 1, ' ');
        BlankedStep(g, x);
        x := x + 1;
      }
    }

    /** The cells while scrollDown runs: rows before y, and row y before
        column x, already hold the cell below them. */
    ghost function ShiftedUpTo(g0: seq<seq<char>>, y: int, x: int): (g: seq<seq<char>>)
      requires Display.Fits(W(), g0) && top <= y < top + height
      ensures |g| == |g0|
    {
      seq(|g0|, i requires 0 <= i < |g0| => ShiftedLine(g0, y, x, i))
    }

    /** Row i of ShiftedUpTo. */
    ghost function ShiftedLine(g0: seq<seq<char>>, y: int, x: int, i: int): (row: seq<char>)
      requires Display.Fits(W(), g0) && 0 <= i < |g0|
      ensures |row| == |g0[i]|
    {
      seq(|g0[i]|, j requires 0 <= j < |g0[i]| =>
        if left <= j < left + width && i + 1 < |g0| && (top <= i < y || (i == y && j < x)) then g0[i + 1][j] else g0[i][j])
    }

    /** The bottom row with columns left..x-1 blanked. */
    ghost function Blanked(g: seq<seq<char>>, x: int): (r: seq<seq<char>>)
      requires Display.Fits(W(), g)
      ensures |r| == |g|
    {
      seq(|g|, i requires 0 <= i < |g| => BlankedLine(g, x, i))
    }

    /** Row i of Blanked. */
    ghost function BlankedLine(g: seq<seq<char>>, x: int, i: int): (row: seq<char>)
      requires 0 <= i < |g|
      ensures |row| == |g[i]|
    {
      seq(|g[i]|, j requires 0 <= j < |g[i]| => if i == top + height - 1 && left <= j < x then ' ' else g[i][j])
    }

    lemma ShiftedNone(g0: seq<seq<char>>)
      requires Display.Fits(W(), g0)
      ensures ShiftedUpTo(g0, top, left) == g0
    {
      var a := ShiftedUpTo(g0, top, left);
      assert forall i | 0 <= i < |a| :: a[i] == g0[i];
    }

    lemma ShiftedStep(g0: seq<seq<char>>, y: int, x: int, g: seq<seq<char>>, ch: char)
      requires Display.Fits(W(), g0) && top <= y < top + height - 1 && left <= x < left + width
      requires g == ShiftedUpTo(g0, y, x) && ch == g[y + 1][x]
      ensures Display.SetCell(g, x, y, ch) == ShiftedUpTo(g0, y, x + 1)
    {
      var a := Display.SetCell(g, x, y, ch);
      var b := ShiftedUpTo(g0, y, x + 1);
      forall i | 0 <= i < |a|
        ensures a[i] == b[i]
      {
        assert forall j | 0 <= j < |a[i]| :: a[i][j] == b[i][j];
      }
    }

    lemma ShiftedRow(g0: seq<seq<char>>, y: int)
      requires Display.Fits(W(), g0) && top <= y < top + height - 1
      ensures ShiftedUpTo(g0, y, left + width) == ShiftedUpTo(g0, y + 1, left)
    {
      var a := ShiftedUpTo(g0, y, left + width);
      var b := ShiftedUpTo(g0, y + 1, left);
      assert forall i | 0 <= i < |a| :: a[i] == b[i];
    }

    lemma BlankedNone(g: seq<seq<char>>)
      requires Display.Fits(W(), g)
      ensures Blanked(g, left) == g
    {
      var a := Blanked(g, left);
      assert forall i | 0 <= i < |a| :: a[i] == g[i];
    }

    lemma BlankedStep(g: seq<seq<char>>, x: int)
      requires Display.Fits(W(), g) && left <= x < left + width
      ensures Display.SetCell(Blanked(g, x), x, top + height - 1, ' ') == Blanked(g, x + 1)
    {
      var a := Display.SetCell(Blanked(g, x), x, top + height - 1, ' ');
      var b := Blanked(g, x + 1);
      assert forall i | 0 <= i < |a| :: a[i] == b[i];
    }

    lemma ScrolledIsShifted(g0: seq<seq<char>>)
      requires Display.Fits(W(), g0)
      ensures Blanked(ShiftedUpTo(g0, top + height - 1, left), left + width) == Display.ScrolledGrid(W(), g0)
    {
      var s := ShiftedUpTo(g0, top + height - 1, left);
      var a := Blanked(s, left + width);
      var b := Display.ScrolledGrid(W(), g0);
      forall i | 0 <= i < |a|
        ensures a[i] == b[i]
      {
        forall j | 0 <= j < |a[i]|
          ensures a[i][j] == b[i][j]
        {
          ScrolledCellShifted(g0, s, i, j);
        }
      }
    }

    /** One cell of ScrolledIsShifted. */
    lemma ScrolledCellShifted(g0: seq<seq<char>>, s: seq<seq<char>>, i: int, j: int)
      requires Display.Fits(W(), g0) && s == ShiftedUpTo(g0, top + height - 1, left)
      requires 0 <= i < |g0| && 0 <= j < |g0[i]|
      ensures Blanked(s, left + width)[i][j] == Display.ScrolledCell(W(), g0, i, j)
    {
      var a := Blanked(s, left + width);
      assert a[i][j] == if i == top + height - 1 && left <= j < left + width then ' ' else s[i][j];
      ShiftedAt(g0, top + height - 1, left, i, j);
    }

    /** One cell of ShiftedUpTo. */
    lemma ShiftedAt(g0: seq<seq<char>>, y: int, x: int, i: int, j: int)
      requires Display.Fits(W(), g0) && top <= y < top + height
      requires 0 <= i < |g0| && 0 <= j < |g0[i]|
      ensures ShiftedUpTo(g0, y, x)[i][j] ==
        if left <= j < left + width && i + 1 < |g0| && (top <= i < y || (i == y && j < x)) then g0[i + 1][j] else g0[i][j]
    {
    }

    /** incrementCursor */
    method IncrementCursor()
      requires Fit()
      modifies this`cursorX, this`cursorY, this`promptY, screen.cells
      ensures Snap() == Display.Increment(W(), old(Snap()))
    {
      cursorX := cursorX + 1;
      cursorY := cursorY + Display.Quo(cursorX, width);
      cursorX := Display.Rem(cursorX, width);
      if cursorY >= top + height {
        ScrollDown();
      }
    }

    /** decrementCursor */
    method DecrementCursor()
      modifies this`cursorX, this`cursorY
      ensures Snap() == Display.Decrement(W(), old(Snap()))
    {
      cursorX := cursorX - 1;
      if cursorX < 0 {
        cursorY := cursorY - 1;
        cursorX := left + width;
      }
    }

    /** getCursorLoc */
    function GetCursorLoc(): (loc: int)
      reads this`cursorX, this`cursorY, this`promptY
      ensures loc == Display.Offset(W(), Display.Screen([], cursorX, cursorY, promptY))
    {
      (cursorY - promptY) * width + cursorX - left - |prompt|
    }

    /** getCursorChar: the character of the line at the cursor's offset, or
        a blank when the offset is outside the line. */
    method GetCursorChar() returns (ch: char)
      ensures var loc := Display.Offset(W(), Snap());
        ch == if 0 <= loc < |currline| then currline[loc] else ' '
    {
      var loc := GetCursorLoc();
      if loc < 0 || loc >= |currline| {
        ch := ' ';
      } else {
        ch := currline[loc];
      }
    }

    /** moveCursorLeft */
    method MoveCursorLeft()
      requires Fit()
      modifies this`cursorX, this`cursorY, screen.cells
      ensures Snap() == Display.MoveLeft(W(), old(Snap()), currline)
    {
      ghost var s0 := Snap();
      if GetCursorLoc() == 0 {
        return;
      }
      var ch := GetCursorChar();
      assert ch == Display.CursorChar(W(), s0, currline);
      screen.SetCell(cursorX, cursorY, ch);
      assert Snap() == s0.(grid := Display.SetCell(s0.grid, s0.x, s0.y, ch));
      DecrementCursor();
      ghost var d := Snap();
      ch := GetCursorChar();
      assert ch == Display.CursorChar(W(), d, currline);
      screen.SetCell(cursorX, cursorY, ch);
    }

    /** moveCursorRight */
    method MoveCursorRight()
      requires Fit()
      modifies this`cursorX, this`cursorY, this`promptY, screen.cells
      ensures Snap() == Display.MoveRight(W(), old(Snap()), currline)
    {
      ghost var s0 := Snap();
      if GetCursorLoc() >= |currline| {
        return;
      }
      var ch := GetCursorChar();
      assert ch == Display.CursorChar(W(), s0, currline);
      screen.SetCell(cursorX, cursorY, ch);
      assert Snap() == s0.(grid := Display.SetCell(s0.grid, s0.x, s0.y, ch));
      IncrementCursor();
      ghost var i := Snap();
      ch := GetCursorChar();
      assert ch == Display.CursorChar(W(), i, currline);
      screen.SetCell(cursorX, cursorY, ch);
    }

    /** writeChar */
    method WriteChar(ch: char)
      requires Fit()
      modifies this`cursorX, this`cursorY, this`promptY, screen.cells
      ensures Snap() == Display.WriteChar(W(), old(Snap()), ch)
    {
      screen.SetCell(cursorX, cursorY, ch);
      IncrementCursor();
      screen.SetCell(cursorX, cursorY, ' ');
    }

    /** Print: writeChar for each rune. */
    method Print(str: string)
      requires Fit()
      modifies this`cursorX, this`cursorY, this`promptY, screen.cells
      ensures Snap() == Display.Print(W(), old(Snap()), str)
    {
      ghost var s0 := Snap();
      for i := 0 to |str|
        invariant Snap() == Display.Print(W(), s0, str[..i])
      {
        WriteChar(str[i]);
        assert str[..i + 1][..i] == str[..i];
      }
      assert str[..|str|] == str;
    }

    /** Println */
    method Println(str: string)
      requires Fit()
      modifies this`cursorX, this`cursorY, this`promptY, screen.cells
      ensures Snap() == Display.Println(W(), old(Snap()), str)
    {
      ghost var s0 := Snap();
      Print(str);
      ghost var p := Snap();
      screen.SetCell(cursorX, cursorY, ' ');
      cursorX := left;
      cursorY := cursorY + 1;
      ghost var n := Snap();
      assert n == Display.Screen(Display.SetCell(p.grid, p.x, p.y, ' '), left, p.y + 1, p.promptY);
      if cursorY >= top + height {
        ScrollDown();
      }
      assert Snap() == if n.y >= top + height then Display.ScrollDown(W(), n) else n;
      screen.SetCell(cursorX, cursorY, ' ');
    }

    /** The redraw loop shared by insertChar and backspace: draw each
        character of `str` and advance. */
    method Redraw(str: string)
      requires Fit()
      modifies this`cursorX, this`cursorY, this`promptY, screen.cells
      ensures Snap() == Display.Redraw(W(), old(Snap()), str)
    {
      ghost var s0 := Snap();
      for i := 0 to |str|
        invariant Snap() == Display.Redraw(W(), s0, str[..i])
      {
        screen.SetCell(cursorX, cursorY, str[i]);
        IncrementCursor();
        assert str[..i + 1][..i] == str[..i];
      }
      assert str[..|str|] == str;
    }

    /** insertChar: `ok` is false when the Go code would panic, that is
        when the offset is outside [0, |currline|]: with a negative offset
        the redraw loop reads outside the line, past its end the splice's
        slice bound fails. `ch` has been drawn and the cursor stepped on by
        then, and the line is unchanged. */
    method InsertChar(ch: char) returns (ok: bool)
      requires Fit()
      modifies this`cursorX, this`cursorY, this`promptY, this`currline, screen.cells
      ensures ok <==> Display.InsertSafe(W(), old(Snap()), old(currline))
      ensures ok ==> (Snap(), currline) == Display.Insert(W(), old(Snap()), old(currline), ch)
      ensures !ok ==> Snap() == Display.InsertFail(W(), old(Snap()), old(currline), ch) &&
                      currline == old(currline)
    {
      var loc := GetCursorLoc();
      var cX, cY := cursorX, cursorY;
      screen.SetCell(cX, cY, ch);
      IncrementCursor();
      if loc < 0 {
        return false;
      }
      if loc > |currline| {
        cursorX, cursorY := cX, cY;
        return false;
      }
      Redraw(currline[loc..]);
      cursorX, cursorY := cX, cY;
      currline := currline[..loc] + [ch] + currline[loc..];
      MoveCursorRight();
      ok := true;
    }

    /** backspace: `ok` is false when the Go code would panic on a slice
        bound, that is when the offset is positive and past the end of the
        line; the cell under the cursor has been blanked by then, and the
        line is unchanged. */
    method Backspace() returns (ok: bool)
      requires Fit()
      modifies this`cursorX, this`cursorY, this`promptY, this`currline, screen.cells
      ensures ok <==> Display.BackspaceSafe(W(), old(Snap()), old(currline))
      ensures ok ==> (Snap(), currline) == Display.Backspace(W(), old(Snap()), old(currline))
      ensures !ok ==> Snap() == Display.BackspaceFail(W(), old(Snap()), old(currline)) &&
                      currline == old(currline)
    {
      ghost var s0, line0 := Snap(), currline;
      var loc := GetCursorLoc();
      if loc <= 0 {
        return true;
      }
      RedrawAfter(loc);
      if loc > |currline| {
        assert Display.After(currline, loc) == "";
        return false;
      }
      if loc == 1 {
        currline := currline[loc..];
      } else if loc == |currline| {
        currline := currline[..loc - 1];
      } else {
        currline := currline[..loc - 1] + currline[loc..];
      }
      assert currline == Display.Cut(line0, loc);
      MoveCursorLeft();
      ok := true;
    }

    /** The drawing part of backspace: redraw the characters after the
        offset one cell to the left, blank the cell after them, and put the
        cursor back where it was. */
    method RedrawAfter(loc: int)
      requires Fit() && 0 <= loc
      modifies this`cursorX, this`cursorY, this`promptY, screen.cells
      ensures Snap() == Display.Erased(W(), old(Snap()), currline, loc)
    {
      var cX, cY := cursorX, cursorY;
      Redraw(if loc + 1 <= |currline| then currline[loc + 1..] else "");
      screen.SetCell(cursorX, cursorY, ' ');
      cursorX, cursorY := cX, cY;
    }

    /** clearLine: one backspace per rune of the line as it was, then the
        line is emptied; `ok` is false when one of the backspaces would have
        panicked, and the console stops there, with the backspaces before it
        done and the failing one's blank drawn. */
    method ClearLine() returns (ok: bool)
      requires Fit()
      modifies this`cursorX, this`cursorY, this`promptY, this`currline, screen.cells
      ensures ok == Display.ClearLine(W(), old(Snap()), old(currline)).1
      ensures ok ==> Snap() == Display.ClearLine(W(), old(Snap()), old(currline)).0 && currline == ""
      ensures var c := Display.ClearSteps(W(), old(Snap()), old(currline), |old(currline)|);
        !ok ==> Snap() == c.0 && currline == c.1
    {
      ghost var s0 := Snap();
      ghost var line0 := currline;
      var n := |currline|;
      for k := 0 to n
        invariant Display.ClearSteps(W(), s0, line0, k) == (Snap(), currline, true)
      {
        ok := Backspace();
        if !ok {
          Display.ClearStepsStop(W(), s0, line0, k + 1, n);
          return;
        }
      }
      currline := "";
      ok := true;
    }

    // -------------------------------------------------------------------
    // console_events.go
    // -------------------------------------------------------------------

    /** executeLine: a new row, the executer (which may echo the line and
        decides whether the console keeps running), a fresh prompt, and the
        line recorded in the history when it is not empty. */
    method ExecuteLine()
      requires Fit() && (executer != null ==> executer.con == this)
      requires History.Inv(Ring()) && History.Holds(Ring(), recorded)
      modifies this`cursorX, this`cursorY, this`promptY, screen.cells, this`running, this`currline,
               this`diff, this`oldLineCopy, this`bufferIdx, lineBuffer, this`recorded
      ensures History.Inv(Ring()) && History.Holds(Ring(), recorded)
      ensures Current() == Events.Execute(W(), old(Current()), executer != null)
      ensures recorded == if |old(currline)| > 0 then old(recorded) + [old(currline)] else old(recorded)
    {
      ExecuteOnScreen();
      ghost var s1, running1 := Snap(), running;
      RecordLine();
      assert Snap() == s1 && running == running1;
    }

    /** The screen part of executeLine: a new row, the executer's run on the
        line, and a fresh prompt. */
    method ExecuteOnScreen()
      requires Fit() && (executer != null ==> executer.con == this)
      modifies this`cursorX, this`cursorY, this`promptY, screen.cells, this`running
      ensures Snap() == Events.ExecuteScreen(W(), old(Snap()), currline, executer != null)
      ensures running == if executer != null then Executer.Decide(currline).keepRunning else old(running)
    {
      Println("");
      if executer != null {
        var status, keep := executer.Execute(currline);
        running := keep;
      }
      Print(prompt);
    }

    /** The history part of executeLine. */
    method RecordLine()
      requires History.Inv(Ring()) && History.Holds(Ring(), recorded)
      modifies this`currline, this`diff, this`oldLineCopy, this`bufferIdx, lineBuffer, this`recorded
      ensures currline == "" && Ring() == History.Record(old(Ring()), old(currline))
      ensures recorded == if |old(currline)| > 0 then old(recorded) + [old(currline)] else old(recorded)
      ensures History.Inv(Ring()) && History.Holds(Ring(), recorded)
    {
      ghost var r0, e0, line := Ring(), recorded, currline;
      History.RecordHolds(r0, e0, line);
      if |currline| > 0 {
        lineBuffer[bufferIdx % History.BufferSize] := currline;
        assert lineBuffer[..] == r0.slots[r0.idx % History.BufferSize := line];
        bufferIdx := bufferIdx + 1;
        recorded := recorded + [currline];
      }
      currline := "";
      diff := 0;
      oldLineCopy := "";
      assert Ring() == History.Record(r0, line);
    }

    /** doArrowUp; `ok` is false when its clearLine panics. */
    method DoArrowUp() returns (ok: bool)
      requires Valid()
      modifies this`cursorX, this`cursorY, this`promptY, screen.cells, this`currline,
               this`diff, this`oldLineCopy
      ensures Valid()
      ensures ok == Events.PressUp(W(), old(Current())).1
      ensures ok ==> Current() == Events.PressUp(W(), old(Current())).0
      ensures !ok ==> Current() == Events.Crashed(W(), old(Current()), Events.KeyEvent(Events.ArrowUp))
    {
      ok := true;
      if History.BufferSize + diff > 0 && bufferIdx + diff > 0 {
        ghost var p := History.Up(Ring(), currline);
        BrowseBack();
        assert lineBuffer[(bufferIdx + diff) % History.BufferSize] == p.1;
        ok := ReplaceLine(lineBuffer[(bufferIdx + diff) % History.BufferSize]);
      }
    }

    /** The history part of doArrowUp: save the line on the first press and
        step one line back. */
    method BrowseBack()
      requires Valid() && History.CanGoUp(Ring())
      modifies this`diff, this`oldLineCopy
      ensures Valid() && Ring() == History.Up(old(Ring()), currline).0
    {
      if diff == 0 {
        oldLineCopy := currline;
      }
      diff := diff - 1;
    }

    /** doArrowDown; `ok` is false when its clearLine panics. */
    method DoArrowDown() returns (ok: bool)
      requires Valid()
      modifies this`cursorX, this`cursorY, this`promptY, screen.cells, this`currline, this`diff
      ensures Valid()
      ensures ok == Events.PressDown(W(), old(Current())).1
      ensures ok ==> Current() == Events.PressDown(W(), old(Current())).0
      ensures !ok ==> Current() == Events.Crashed(W(), old(Current()), Events.KeyEvent(Events.ArrowDown))
    {
      ok := true;
      if diff < -1 {
        ghost var p := History.Down(Ring(), currline);
        BrowseForward();
        assert lineBuffer[(bufferIdx + diff) % History.BufferSize] == p.1;
        ok := ReplaceLine(lineBuffer[(bufferIdx + diff) % History.BufferSize]);
      } else if diff == -1 {
        ghost var p := History.Down(Ring(), currline);
        BrowseForward();
        assert oldLineCopy == p.1;
        ok := ReplaceLine(oldLineCopy);
      }
    }

    /** The history part of doArrowDown: step one line forward. */
    method BrowseForward()
      requires Valid() && diff < 0
      modifies this`diff
      ensures Valid() && Ring() == History.Down(old(Ring()), currline).0
    {
      diff := diff + 1;
    }

    /** The tail shared by the arrow keys and a single completion: clear the
        line, make `line` the current line and print it; `ok` is false when
        clearLine panics. */
    method ReplaceLine(line: string) returns (ok: bool)
      requires Fit()
      modifies this`cursorX, this`cursorY, this`promptY, screen.cells, this`currline
      ensures var c := Display.ClearLine(W(), old(Snap()), old(currline));
        ok == c.1 && (ok ==> Snap() == Display.Print(W(), c.0, line) && currline == line)
      ensures var c := Display.ClearSteps(W(), old(Snap()), old(currline), |old(currline)|);
        !ok ==> Snap() == c.0 && currline == c.1
    {
      ok := ClearLine();
      if !ok {
        return;
      }
      currline := line;
      Print(currline);
    }

    /** The Tab case of Run's switch: completion leaves the history and the
        executer alone. */
    method TabKey() returns (ok: bool)
      requires Valid()
      modifies this`cursorX, this`cursorY, this`promptY, screen.cells, this`currline
      ensures Valid()
      ensures ok == Events.PressTab(W(), old(Current()), completer).1
      ensures ok ==> Current() == Events.PressTab(W(), old(Current()), completer).0
      ensures !ok ==> Current() == Events.Cleared(W(), old(Current()))
    {
      ghost var r0 := Ring();
      ok := DoTabCompletion();
      assert Ring() == r0;
    }

    /** doTabCompletion: ask the completer, when one is set, and apply its
        answer. */
    method DoTabCompletion() returns (ok: bool)
      requires Valid()
      modifies this`cursorX, this`cursorY, this`promptY, screen.cells, this`currline
      ensures ok == Events.PressTab(W(), old(Current()), completer).1
      ensures ok ==> Current() == Events.PressTab(W(), old(Current()), completer).0
      ensures !ok ==> Current() == Events.Cleared(W(), old(Current()))
    {
      ok := true;
      if completer.Some? {
        var prefix, options := AskCompleter(completer.value);
        ok := ApplyCompletion(prefix, options);
      }
    }

    /** The completer's answer for the line: the prefix and the matches, in
        whatever order they come; the listing does not depend on it. */
    method AskCompleter(lc: Completer.ListCompleter) returns (prefix: string, options: seq<string>)
      requires width >= 1 && Completer.Valid(lc)
      ensures var (p, m) := Completer.Completion(lc, currline);
        prefix == p && |options| == |m| && Layout.Output(options, width) == Layout.OutputOf(m, width)
    {
      ghost var m := Completer.Completion(lc, currline).1;
      prefix, options := Completer.Complete(lc, currline);
      assert |options| == |m|;
      Layout.OutputOrderFree(options, Layout.SeqOf(m), width);
    }

    /** The branches of doTabCompletion once the completer has answered. */
    method ApplyCompletion(prefix: string, options: seq<string>) returns (ok: bool)
      requires Fit()
      modifies this`cursorX, this`cursorY, this`promptY, screen.cells, this`currline
      ensures ok == Events.Answer(W(), old(Current()), prefix, |options|, Layout.Output(options, width)).1
      ensures ok ==> Current() == Events.Answer(W(), old(Current()), prefix, |options|, Layout.Output(options, width)).0
      ensures !ok ==> Current() == Events.Cleared(W(), old(Current()))
    {
      ok := true;
      if |options| > 1 {
        ok := ClearLine();
        if !ok {
          return;
        }
        ListMatches(prefix, options);
      } else if |options| == 1 {
        ok := ReplaceLine(prefix);
      }
    }

    /** The several-matches branch of doTabCompletion once the line is
        cleared. */
    method ListMatches(prefix: string, options: seq<string>)
      requires Fit()
      modifies this`cursorX, this`cursorY, this`promptY, screen.cells, this`currline
      ensures currline == prefix
      ensures Snap() == Events.Listing(W(), old(Snap()), prefix, Layout.Output(options, width))
    {
      currline := prefix;
      Print(currline);
      Println("");
      PrintOptions(options);
      promptY := cursorY;
      Print(prompt);
      Print(currline);
    }

    /** printOptions: the options in sorted order, each padded to the
        longest one plus column_pad, as many to a row as fit. */
    method PrintOptions(options: seq<string>)
      requires Fit()
      modifies this`cursorX, this`cursorY, this`promptY, screen.cells
      ensures Snap() == Layout.Emit(W(), old(Snap()), Layout.Output(options, width))
    {
      var sorted := Layout.Sort(options);
      var maxLen := LongestOption(sorted);
      var numColumns := ColumnCount(maxLen);
      PrintRows(sorted, numColumns, maxLen);
    }

    /** printOptions' second loop over the sorted options, and the Println
        that closes a last partial row. */
    method PrintRows(sorted: seq<string>, numColumns: int, maxLen: nat)
      requires Fit() && numColumns >= 1
      modifies this`cursorX, this`cursorY, this`promptY, screen.cells
      ensures Snap() == Layout.Emit(W(), old(Snap()), Layout.OutputFrom(sorted, 0, numColumns, maxLen))
    {
      ghost var goal := Layout.Emit(W(), Snap(), Layout.OutputFrom(sorted, 0, numColumns, maxLen));
      assert sorted[0..] == sorted && 0 % numColumns == 0;
      var printed := 0;
      while printed < |sorted|
        invariant 0 <= printed <= |sorted|
        invariant Layout.Emit(W(), Snap(), Layout.OutputFrom(sorted[printed..], printed % numColumns, numColumns, maxLen)) == goal
      {
        assert sorted[printed..][1..] == sorted[printed + 1..];
        PrintOne(sorted[printed..], printed, numColumns, maxLen);
        printed := printed + 1;
      }
      EndRows(printed % numColumns, numColumns, maxLen);
    }

    /** After the last option: a Println when the last row is partial. */
    method EndRows(col: nat, numColumns: int, maxLen: nat)
      requires Fit() && col < numColumns
      modifies this`cursorX, this`cursorY, this`promptY, screen.cells
      ensures Snap() == Layout.Emit(W(), old(Snap()), Layout.OutputFrom([], col, numColumns, maxLen))
    {
      if col != 0 {
        Println("");
      }
    }

    /** numColumns: as many padded options as fit, and at least one. */
    method ColumnCount(maxLen: nat) returns (numColumns: int)
      requires width >= 1
      ensures numColumns == Layout.Columns(width, maxLen)
    {
      numColumns := Display.Quo(width + Layout.ColumnPad, maxLen + Layout.ColumnPad);
      if numColumns == 0 {
        numColumns := numColumns + 1;
      }
    }

    /** The first loop of printOptions: the length of the longest option. */
    method LongestOption(opts: seq<string>) returns (maxLen: nat)
      ensures maxLen == Layout.MaxLen(opts)
    {
      maxLen := 0;
      for i := 0 to |opts|
        invariant maxLen == Layout.MaxLen(opts[..i])
      {
        assert opts[..i + 1][..i] == opts[..i];
        if maxLen < |opts[i]| {
          maxLen := |opts[i]|;
        }
      }
      assert opts[..|opts|] == opts;
    }

    /** One pass of printOptions' second loop: print the first option of
        `opts` with its padding, and end the row when it is full. */
    method PrintOne(opts: seq<string>, printed: nat, numColumns: int, maxLen: nat)
      requires Fit() && opts != [] && numColumns >= 1
      modifies this`cursorX, this`cursorY, this`promptY, screen.cells
      ensures Layout.Emit(W(), Snap(), Layout.OutputFrom(opts[1..], (printed + 1) % numColumns, numColumns, maxLen)) ==
              Layout.Emit(W(), old(Snap()), Layout.OutputFrom(opts, printed % numColumns, numColumns, maxLen))
    {
      ghost var col := printed % numColumns;
      ghost var rest := Layout.OutputFrom(opts[1..], (printed + 1) % numColumns, numColumns, maxLen);
      ModStep(printed, numColumns);
      ghost var tail := if col + 1 == numColumns then [Layout.Newline] + rest else rest;
      Layout.OutputFromCons(opts, col, numColumns, maxLen);
      Layout.EmitAppend(W(), Snap(), Layout.Cell(opts[0], maxLen), tail);
      PrintCell(opts[0], maxLen);
      if (printed + 1) % numColumns == 0 {
        Println("");
      }
    }

    /** One option of printOptions' loop: the option, then one Print(" ")
        per column up to maxLen + column_pad. */
    method PrintCell(option: string, maxLen: nat)
      requires Fit()
      modifies this`cursorX, this`cursorY, this`promptY, screen.cells
      ensures Snap() == Layout.Emit(W(), old(Snap()), Layout.Cell(option, maxLen))
    {
      ghost var goal := Layout.Emit(W(), Snap(), Layout.Cell(option, maxLen));
      Print(option);
      var i := |option|;
      while i < maxLen + Layout.ColumnPad
        invariant Layout.Emit(W(), Snap(), Layout.Spaces(maxLen + Layout.ColumnPad - i)) == goal
      {
        Layout.SpacesCons(maxLen + Layout.ColumnPad - i);
        Print(" ");
        i := i + 1;
      }
    }

    // -------------------------------------------------------------------
    // Run's loop
    // -------------------------------------------------------------------

    /** The Enter case of Run's loop: move to the end of the line, execute
        it, and make the cursor's row the prompt row. */
    method PressEnter()
      requires Fit() && (executer != null ==> executer.con == this)
      requires History.Inv(Ring()) && History.Holds(Ring(), recorded)
      modifies this`cursorX, this`cursorY, this`promptY, screen.cells, this`currline, this`running,
               this`diff, this`oldLineCopy, this`bufferIdx, lineBuffer, this`recorded
      ensures History.Inv(Ring()) && History.Holds(Ring(), recorded)
      ensures Current() == Events.PressEnter(W(), old(Current()), executer != null)
      ensures recorded == if |old(currline)| > 0 then old(recorded) + [old(currline)] else old(recorded)
    {
      MoveToEnd();
      ExecuteLine();
      promptY := cursorY;
    }

    /** The loop of the Enter case: one moveCursorRight per rune from the
        cursor's offset to the end of the line. */
    method MoveToEnd()
      requires Fit()
      modifies this`cursorX, this`cursorY, this`promptY, screen.cells
      ensures Snap() == Events.ToEnd(W(), old(Snap()), currline)
    {
      ghost var s0 := Snap();
      var i := GetCursorLoc();
      ghost var i0 := i;
      assert i0 == Display.Offset(W(), s0);
      while i < |currline|
        invariant i == i0 || i0 < i <= |currline|
        invariant Snap() == Events.MoveRightN(W(), s0, currline, i - i0)
      {
        MoveCursorRight();
        i := i + 1;
      }
      assert i - i0 == if i0 < |currline| then |currline| - i0 else 0;
    }

    /** The switch in Run's loop for one event; `ok` is false when the
        handler panics. */
    method HandleEvent(ev: Events.Event) returns (ok: bool)
      requires Valid()
      modifies this`cursorX, this`cursorY, this`promptY, screen.cells, this`currline, this`running,
               this`diff, this`oldLineCopy, this`bufferIdx, lineBuffer, this`recorded
      ensures Valid()
      ensures ok == Events.Step(W(), old(Current()), ev, executer != null, completer).1
      ensures ok ==> Current() == Events.Step(W(), old(Current()), ev, executer != null, completer).0
      ensures !ok ==> Current() == Events.Crashed(W(), old(Current()), ev)
      ensures recorded == if ev == Events.KeyEvent(Events.Enter) && |old(currline)| > 0
                          then old(recorded) + [old(currline)] else old(recorded)
    {
      ok := true;
      match ev
      case OtherEvent =>
      case KeyEvent(k) =>
        if Events.Editing(k) {
          ok := EditKey(k);
        } else {
          ok := CommandKey(k);
        }
    }

    /** The cases of Run's switch that edit the line or move the cursor. */
    method EditKey(k: Events.Key) returns (ok: bool)
      requires Fit() && Events.Editing(k)
      modifies this`cursorX, this`cursorY, this`promptY, screen.cells, this`currline
      ensures ok == Events.Edit(W(), old(Current()), k).1
      ensures Current() == Events.Edit(W(), old(Current()), k).0
      ensures !ok ==> currline == old(currline) && Events.EditFailed(W(), old(Current()), k, Snap())
    {
      ghost var s0, line0 := Snap(), currline;
      ok := true;
      match k {
        case Rune(ch) => ok := InsertChar(ch);
        case Space => ok := InsertChar(' ');
        case Backspace =>
          ok := Backspace();
          if !ok { Display.BackspaceFailBlanks(W(), s0, line0); }
        case Backspace2 =>
          ok := Backspace();
          if !ok { Display.BackspaceFailBlanks(W(), s0, line0); }
        case ArrowRight => MoveCursorRight();
        case ArrowLeft => MoveCursorLeft();
        case OtherKey =>
      }
    }

    /** The cases of Run's switch that execute, browse, complete or quit. */
    method CommandKey(k: Events.Key) returns (ok: bool)
      requires Valid() && !Events.Editing(k)
      modifies this`cursorX, this`cursorY, this`promptY, screen.cells, this`currline, this`running,
               this`diff, this`oldLineCopy, this`bufferIdx, lineBuffer, this`recorded
      ensures Valid()
      ensures ok == Events.Command(W(), old(Current()), k, executer != null, completer).1
      ensures ok ==> Current() == Events.Command(W(), old(Current()), k, executer != null, completer).0
      ensures !ok ==> Current() == Events.Crashed(W(), old(Current()), Events.KeyEvent(k))
      ensures recorded == if k == Events.Enter && |old(currline)| > 0 then old(recorded) + [old(currline)] else old(recorded)
    {
      ghost var e0 := Current();
      ok := true;
      match k {
        case Enter => PressEnter();
        case CtrlC => running := false;
        case ArrowUp => ok := BrowseKey(k);
        case ArrowDown => ok := BrowseKey(k);
        case Tab =>
          ok := TabKey();
          assert Events.Crashed(W(), e0, Events.KeyEvent(k)) == Events.Cleared(W(), e0);
      }
    }

    /** The arrow-key cases of Run's switch: they browse the history and
        leave the recorded lines and the executer alone. */
    method BrowseKey(k: Events.Key) returns (ok: bool)
      requires Valid() && (k.ArrowUp? || k.ArrowDown?)
      modifies this`cursorX, this`cursorY, this`promptY, screen.cells, this`currline,
               this`diff, this`oldLineCopy
      ensures Valid()
      ensures ok == Events.Command(W(), old(Current()), k, executer != null, completer).1
      ensures ok ==> Current() == Events.Command(W(), old(Current()), k, executer != null, completer).0
      ensures !ok ==> Current() == Events.Crashed(W(), old(Current()), Events.KeyEvent(k))
    {
      ghost var e0, h := Current(), executer != null;
      if k.ArrowUp? {
        ok := DoArrowUp();
        assert Events.Command(W(), e0, k, h, completer) == Events.PressUp(W(), e0);
      } else {
        ok := DoArrowDown();
        assert Events.Command(W(), e0, k, h, completer) == Events.PressDown(W(), e0);
      }
    }

    /** Run: draw the prompt on the cursor's row, attach the default
        executer when none is set, and handle events while the console runs.
        The event queue is a parameter; `consumed` counts the events taken
        and `crashed` says whether the last one made the program panic. */
    method Run(events: seq<Events.Event>) returns (consumed: nat, crashed: bool)
      requires Valid()
      modifies this`cursorX, this`cursorY, this`promptY, screen.cells, this`currline, this`running,
               this`diff, this`oldLineCopy, this`bufferIdx, lineBuffer, this`recorded, this`executer
      ensures Valid() && executer != null && completer == old(completer)
      ensures old(executer) != null ==> executer == old(executer)
      ensures var r := Events.Session(W(), Events.Begin(W(), old(Current())), events, true, completer);
        consumed == r.1 && crashed == r.2 && Current() == r.0
    {
      DrawPrompt();
      if executer == null {
        var e := DefaultExecuter(this);
        executer := e;
      }
      consumed, crashed := Loop(events);
    }

    /** The first line of Run: the prompt row becomes the cursor's row and
        the prompt is printed there. */
    method DrawPrompt()
      requires Valid()
      modifies this`cursorX, this`cursorY, this`promptY, screen.cells
      ensures Valid()
      ensures Current() == Events.Begin(W(), old(Current()))
    {
      promptY := cursorY;
      Print(prompt);
    }

    /** Run's `for c.running` loop over the queue of events. */
    method Loop(events: seq<Events.Event>) returns (consumed: nat, crashed: bool)
      requires Valid() && executer != null
      modifies this`cursorX, this`cursorY, this`promptY, screen.cells, this`currline, this`running,
               this`diff, this`oldLineCopy, this`bufferIdx, lineBuffer, this`recorded
      ensures Valid()
      ensures var r := Events.Session(W(), old(Current()), events, true, completer);
        consumed == r.1 && crashed == r.2 && Current() == r.0
    {
      ghost var goal := Events.Session(W(), Current(), events, true, completer);
      assert events[0..] == events;
      consumed := 0;
      crashed := false;
      while running && consumed < |events|
        invariant Valid() && 0 <= consumed <= |events| && !crashed
        invariant var r := Events.Session(W(), Current(), events[consumed..], true, completer);
                  goal.0 == r.0 && goal.1 == r.1 + consumed && goal.2 == r.2
        decreases |events| - consumed
      {
        var ok := Turn(events, consumed);
        consumed := consumed + 1;
        if !ok {
          crashed := true;
          return;
        }
      }
    }

    /** One pass of Run's loop, seen from the session: the events left
        after this one continue the same session. */
    method Turn(events: seq<Events.Event>, consumed: nat) returns (ok: bool)
      requires Valid() && executer != null && running && consumed < |events|
      modifies this`cursorX, this`cursorY, this`promptY, screen.cells, this`currline, this`running,
               this`diff, this`oldLineCopy, this`bufferIdx, lineBuffer, this`recorded
      ensures Valid()
      ensures var r0 := Events.Session(W(), old(Current()), events[consumed..], true, completer);
        var r := Events.Session(W(), Current(), events[consumed + 1..], true, completer);
        if ok then r0 == (r.0, r.1 + 1, r.2) else r0 == (Current(), 1, true)
    {
      ghost var before, rest := Current(), events[consumed..];
      assert rest[0] == events[consumed] && rest[1..] == events[consumed + 1..];
      ok := HandleEvent(events[consumed]);
      Events.SessionAfter(W(), before, rest, completer, Current(), ok);
    }
  }

  /** Cell (y, x) of a rows-by-cols terminal sits at index y * cols + x of
      its flat cell buffer. */
  lemma FlatCell(y: int, x: int, rows: int, cols: int)
    requires 0 <= y < rows && 0 <= x < cols
    ensures 0 <= y * cols + x < rows * cols
    ensures (y * cols + x) / cols == y && (y * cols + x) % cols == x
  {
    Display.MulMono(y + 1, rows, cols);
    Display.MulMono(0, y, cols);
    Display.DivModUnique(y * cols + x, cols, y, x);
  }

  /** The column counter of printOptions: one more option either fills the
      row or moves one column on. */
  lemma ModStep(p: int, n: int)
    requires p >= 0 && n >= 1
    ensures p % n + 1 < n ==> (p + 1) % n == p % n + 1
    ensures p % n + 1 == n ==> (p + 1) % n == 0
  {
    var q := p / n;
    if p % n + 1 < n {
      Display.DivModUnique(p + 1, n, q, p % n + 1);
    } else {
      Display.DivModUnique(p + 1, n, q + 1, 0);
    }
  }

  /** echoExecuter: the default executer, bound to one console. */
  class EchoExecuter {
    const con: Console

    constructor (c: Console)
      ensures con == c
    {
      con := c;
    }

    /** Execute: "exit" stops the console; any other command keeps it
        running and, when not empty, is echoed on the bound console with
        Println. */
    method Execute(command: string) returns (statusCode: int, keepRunning: bool)
      requires con.Fit()
      modifies con`cursorX, con`cursorY, con`promptY, con.screen.cells
      ensures statusCode == 0 && (keepRunning <==> command != "exit")
      ensures con.Snap() == if Executer.Decide(command).echo
                            then Display.Println(con.W(), old(con.Snap()), command)
                            else old(con.Snap())
    {
      var v := Executer.Decide(command);
      if v.echo {
        con.Println(command);
      }
      return v.status, v.keepRunning;
    }

    /** BoundConsole: the console this executer was created for. */
    function BoundConsole(): (c: Console)
      ensures c == con
    {
      con
    }
  }

  /** DefaultExecuter: a fresh echo executer bound to `c`. */
  method DefaultExecuter(c: Console) returns (e: EchoExecuter)
    ensures fresh(e) && e.con == c && e.BoundConsole() == c
  {
    e := new EchoExecuter(c);
  }
}
