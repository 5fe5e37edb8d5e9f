/**
 * What one key press does to a console (console/console_events.go), stated
 * on values: the screen, the line being edited, the history ring and the
 * running flag. The Console class performs these steps in place and is
 * proved equal to them; the properties of the editor are proved here.
 */
module Events {
  import opened Wrappers
  import Display
  import History
  import Layout
  import Completer
  import Executer

  /** A key the dispatch loop tells apart: Rune is a printable character
      (termbox reports it with key code 0); any other key is ignored. */
  datatype Key =
    | Rune(ch: char) | Space | Enter | CtrlC | Backspace | Backspace2
    | ArrowUp | ArrowDown | Tab | ArrowRight | ArrowLeft | OtherKey

  /** A terminal event: a key press, or anything else (resize, mouse, ...). */
  datatype Event = KeyEvent(key: Key) | OtherEvent

  /** The part of a console that events change. */
  datatype Editor = Editor(screen: Display.Screen, line: string, ring: History.Ring, running: bool)

  /** n calls of moveCursorRight. */
  function MoveRightN(w: Display.Widget, s: Display.Screen, line: string, n: nat): Display.Screen
    requires w.width > 0
    decreases n
  {
    if n == 0 then s else Display.MoveRight(w, MoveRightN(w, s, line, n - 1), line)
  }

  /** The screen side of executeLine: a new row, the echo of the line when
      an executer is attached and echoes it, and a fresh prompt. */
  function ExecuteScreen(w: Display.Widget, s: Display.Screen, line: string, hasExecuter: bool): Display.Screen
    requires w.width > 0
  {
    var s1 := Display.Println(w, s, "");
    var s2 := if hasExecuter && Executer.Decide(line).echo then Display.Println(w, s1, line) else s1;
    Display.Print(w, s2, w.prompt)
  }

  /** The loop of the Enter case: moveCursorRight from the cursor's offset
      to the end of the line. */
  function ToEnd(w: Display.Widget, s: Display.Screen, line: string): Display.Screen
    requires w.width > 0
  {
    var loc := Display.Offset(w, s);
    MoveRightN(w, s, line, if loc < |line| then |line| - loc else 0)
  }

  /** executeLine: the screen as ExecuteScreen leaves it, an empty line, the
      line recorded in the history, and the executer's decision to keep
      running when one is attached. */
  function Execute(w: Display.Widget, e: Editor, hasExecuter: bool): Editor
    requires w.width > 0 && History.Inv(e.ring)
  {
    Editor(ExecuteScreen(w, e.screen, e.line, hasExecuter), "", History.Record(e.ring, e.line),
           if hasExecuter then Executer.Decide(e.line).keepRunning else e.running)
  }

  /** The Enter key: move to the end of the line, execute it, and start a
      new prompt on the cursor's row. */
  function PressEnter(w: Display.Widget, e: Editor, hasExecuter: bool): Editor
    requires w.width > 0 && History.Inv(e.ring)
  {
    var x := Execute(w, e.(screen := ToEnd(w, e.screen, e.line)), hasExecuter);
    x.(screen := x.screen.(promptY := x.screen.y))
  }

  /** A printable key or the space bar: insertChar. The flag is false when
      insertChar panics, and the screen is then what it drew before. */
  function TypeChar(w: Display.Widget, e: Editor, ch: char): (Editor, bool)
    requires w.width > 0
  {
    if Display.InsertSafe(w, e.screen, e.line) then
      var (s, l) := Display.Insert(w, e.screen, e.line, ch);
      (e.(screen := s, line := l), true)
    else (e.(screen := Display.InsertFail(w, e.screen, e.line, ch)), false)
  }

  /** Backspace: the flag is false when backspace panics, and the screen is
      then what it drew before. */
  function Erase(w: Display.Widget, e: Editor): (Editor, bool)
    requires w.width > 0
  {
    if Display.BackspaceSafe(w, e.screen, e.line) then
      var (s, l) := Display.Backspace(w, e.screen, e.line);
      (e.(screen := s, line := l), true)
    else (e.(screen := Display.BackspaceFail(w, e.screen, e.line)), false)
  }

  /** doArrowUp: when an older line is kept, clear the line and print that
      older line in its place. The flag is false when clearLine panics. */
  function PressUp(w: Display.Widget, e: Editor): (Editor, bool)
    requires w.width > 0 && History.Inv(e.ring)
  {
    if !History.CanGoUp(e.ring) then (e, true)
    else
      var (r, l) := History.Up(e.ring, e.line);
      var c := Display.ClearLine(w, e.screen, e.line);
      (Editor(Display.Print(w, c.0, l), l, r, e.running), c.1)
  }

  /** doArrowDown: while browsing, clear the line and print the newer line
      (or the saved draft). The flag is false when clearLine panics. */
  function PressDown(w: Display.Widget, e: Editor): (Editor, bool)
    requires w.width > 0 && History.Inv(e.ring)
  {
    if e.ring.diff >= 0 then (e, true)
    else
      var (r, l) := History.Down(e.ring, e.line);
      var c := Display.ClearLine(w, e.screen, e.line);
      (Editor(Display.Print(w, c.0, l), l, r, e.running), c.1)
  }

  /** The screen after the several-matches branch of doTabCompletion, from
      the cleared line: the prefix, a new row, the listing `out`, and a new
      prompt with the prefix on the row where the listing ends. */
  function Listing(w: Display.Widget, s: Display.Screen, prefix: string, out: seq<Layout.Out>): Display.Screen
    requires w.width > 0
  {
    var listed := Layout.Emit(w, Display.Println(w, Display.Print(w, s, prefix), ""), out);
    Display.Print(w, Display.Print(w, listed.(promptY := listed.y), w.prompt), prefix)
  }

  /** doTabCompletion: with several matches, replace the line by their
      common prefix, list the matches below it and draw a new prompt with
      the prefix; with one match, replace the line by it; with none, do
      nothing. The flag is false when clearLine panics. */
  ghost function PressTab(w: Display.Widget, e: Editor, comp: Option<Completer.ListCompleter>): (Editor, bool)
    requires w.width > 0
  {
    if comp.None? then (e, true)
    else
      var (prefix, m) := Completer.Completion(comp.value, e.line);
      Answer(w, e, prefix, |m|, Layout.OutputOf(m, w.width))
  }

  /** The branches of doTabCompletion once the completer has answered with
      `n` matches, laid out as `out`. */
  function Answer(w: Display.Widget, e: Editor, prefix: string, n: nat, out: seq<Layout.Out>): (Editor, bool)
    requires w.width > 0
  {
    if n > 1 then
      var c := Display.ClearLine(w, e.screen, e.line);
      (e.(screen := Listing(w, c.0, prefix, out), line := prefix), c.1)
    else if n == 1 then
      var c := Display.ClearLine(w, e.screen, e.line);
      (e.(screen := Display.Print(w, c.0, prefix), line := prefix), c.1)
    else (e, true)
  }

  /** The editor a panicking clearLine leaves: the backspaces before the
      one that panicked have shortened the line and redrawn the screen, and
      the failing one has blanked the cell under the cursor. */
  function Cleared(w: Display.Widget, e: Editor): (r: Editor)
    requires w.width > 0
    ensures r.ring == e.ring && r.running == e.running
    ensures r.screen == Display.ClearLine(w, e.screen, e.line).0
  {
    var c := Display.ClearSteps(w, e.screen, e.line, |e.line|);
    e.(screen := c.0, line := c.1)
  }

  /** The console as an event that panics leaves it. insertChar and
      backspace panic after drawing, with the line unchanged; clearLine
      panics part way, after the arrow keys have already stepped through the
      history. */
  function Crashed(w: Display.Widget, e: Editor, ev: Event): (r: Editor)
    requires w.width > 0 && History.Inv(e.ring)
    ensures r.running == e.running
    ensures ev != KeyEvent(ArrowUp) && ev != KeyEvent(ArrowDown) ==> r.ring == e.ring
    ensures ev != KeyEvent(ArrowUp) && ev != KeyEvent(ArrowDown) && ev != KeyEvent(Tab) ==> r.line == e.line
  {
    if ev == KeyEvent(ArrowUp) then Cleared(w, e.(ring := History.Up(e.ring, e.line).0))
    else if ev == KeyEvent(ArrowDown) then Cleared(w, e.(ring := History.Down(e.ring, e.line).0))
    else if ev == KeyEvent(Tab) then Cleared(w, e)
    else if ev.KeyEvent? && Editing(ev.key) then e.(screen := Edit(w, e, ev.key).0.screen)
    else e
  }

  /** One pass of Run's loop: the console after the event, and false when
      the event made the Go program panic. For the arrow keys and Tab the
      first component is then the console as the event would have left it
      had clearLine finished; Crashed is, for every event, the console as
      the panic leaves it. */
  ghost function Step(w: Display.Widget, e: Editor, ev: Event, hasExecuter: bool,
                      comp: Option<Completer.ListCompleter>): (r: (Editor, bool))
    requires w.width > 0 && History.Inv(e.ring)
    ensures History.Inv(r.0.ring)
  {
    match ev
    case OtherEvent => (e, true)
    case KeyEvent(k) =>
      if Editing(k) then Edit(w, e, k) else Command(w, e, k, hasExecuter, comp)
  }

  /** The keys that edit the line or move along it. */
  predicate Editing(k: Key) {
    k.Rune? || k.Space? || k.Backspace? || k.Backspace2? || k.ArrowRight? || k.ArrowLeft? || k.OtherKey?
  }

  /** The cases of Run's switch that edit the line or move the cursor; the
      history and the running flag stay as they are. */
  function Edit(w: Display.Widget, e: Editor, k: Key): (r: (Editor, bool))
    requires w.width > 0 && Editing(k)
    ensures r.0.ring == e.ring && r.0.running == e.running
  {
    match k
    case Rune(ch) => TypeChar(w, e, ch)
    case Space => TypeChar(w, e, ' ')
    case Backspace => Erase(w, e)
    case Backspace2 => Erase(w, e)
    case ArrowRight => (e.(screen := Display.MoveRight(w, e.screen, e.line)), true)
    case ArrowLeft => (e.(screen := Display.MoveLeft(w, e.screen, e.line)), true)
    case OtherKey => (e, true)
    case _ => (e, true)
  }

  /** The cases of Run's switch that execute, browse, complete or quit. */
  ghost function Command(w: Display.Widget, e: Editor, k: Key, hasExecuter: bool,
                         comp: Option<Completer.ListCompleter>): (r: (Editor, bool))
    requires w.width > 0 && History.Inv(e.ring) && !Editing(k)
    ensures History.Inv(r.0.ring)
  {
    match k
    case Enter => (PressEnter(w, e, hasExecuter), true)
    case CtrlC => (e.(running := false), true)
    case ArrowUp => PressUp(w, e)
    case ArrowDown => PressDown(w, e)
    case Tab => PressTab(w, e, comp)
    case _ => (e, true)
  }

  /** The start of Run: the prompt row is the cursor's row, and the prompt is
      printed there. */
  function Begin(w: Display.Widget, e: Editor): Editor
    requires w.width > 0
  {
    e.(screen := Display.Print(w, e.screen.(promptY := e.screen.y), w.prompt))
  }

  /** Run's loop over a queue of events: it takes events while the console
      is running; the result is the console afterwards, the number of events
      taken, and whether the last of them made the program panic. */
  ghost function Session(w: Display.Widget, e: Editor, events: seq<Event>, hasExecuter: bool,
                         comp: Option<Completer.ListCompleter>): (r: (Editor, nat, bool))
    requires w.width > 0 && History.Inv(e.ring)
    ensures r.1 <= |events| && History.Inv(r.0.ring)
    ensures !r.2 && r.1 < |events| ==> !r.0.running
    ensures r.2 ==> r.1 >= 1
    decreases |events|, 1
  {
    if !e.running || events == [] then (e, 0, false)
    else Take(w, e, events, hasExecuter, comp)
  }

  /** A running console takes the first event of the queue and, unless it
      panicked, goes on with the rest. */
  ghost function Take(w: Display.Widget, e: Editor, events: seq<Event>, hasExecuter: bool,
                      comp: Option<Completer.ListCompleter>): (r: (Editor, nat, bool))
    requires w.width > 0 && History.Inv(e.ring) && events != []
    ensures 1 <= r.1 <= |events| && History.Inv(r.0.ring)
    ensures !r.2 && r.1 < |events| ==> !r.0.running
    decreases |events|, 0
  {
    var (e1, ok) := Step(w, e, events[0], hasExecuter, comp);
    if !ok then (Crashed(w, e, events[0]), 1, true)
    else
      var r := Session(w, e1, events[1..], hasExecuter, comp);
      (r.0, r.1 + 1, r.2)
  }

  /** One event of a session. */
  lemma SessionStep(w: Display.Widget, e: Editor, events: seq<Event>, hasExecuter: bool,
                    comp: Option<Completer.ListCompleter>)
    requires w.width > 0 && History.Inv(e.ring) && e.running && events != []
    ensures var (e1, ok) := Step(w, e, events[0], hasExecuter, comp);
      var r := Session(w, e1, events[1..], hasExecuter, comp);
      Session(w, e, events, hasExecuter, comp) ==
        if ok then (r.0, r.1 + 1, r.2) else (Crashed(w, e, events[0]), 1, true)
  {
    assert Session(w, e, events, hasExecuter, comp) == Take(w, e, events, hasExecuter, comp);
  }

  /** A console `after` that is what the first event of the queue leaves,
      finished or crashed, continues the same session. */
  lemma SessionAfter(w: Display.Widget, e: Editor, events: seq<Event>, comp: Option<Completer.ListCompleter>,
                     after: Editor, ok: bool)
    requires w.width > 0 && History.Inv(e.ring) && e.running && events != []
    requires ok == Step(w, e, events[0], true, comp).1
    requires after == if ok then Step(w, e, events[0], true, comp).0 else Crashed(w, e, events[0])
    ensures var r0 := Session(w, e, events, true, comp);
      var r := Session(w, after, events[1..], true, comp);
      if ok then r0 == (r.0, r.1 + 1, r.2) else r0 == (after, 1, true)
  {
    SessionStep(w, e, events, true, comp);
  }

  // ---------------------------------------------------------------------
  // Properties
  // ---------------------------------------------------------------------

  /** A running console stops on Ctrl-C, and on Enter when an executer is
      attached and the line is "exit"; no other event stops it. */
  lemma StepStops(w: Display.Widget, e: Editor, ev: Event, hasExecuter: bool,
                  comp: Option<Completer.ListCompleter>)
    requires w.width > 0 && History.Inv(e.ring) && e.running
    ensures !Step(w, e, ev, hasExecuter, comp).0.running <==>
              ev == KeyEvent(CtrlC) || (ev == KeyEvent(Enter) && hasExecuter && e.line == "exit")
  {
  }

  /** Only insertChar, backspace and clearLine panic. The first two leave
      the line as it was and the screen as they drew it before the panic;
      clearLine is reached only from the arrow keys and Tab, and then its
      backspaces stopped part way. Either way the history and the running
      flag are those of the event's own result. */
  lemma CrashedState(w: Display.Widget, e: Editor, ev: Event, hasExecuter: bool,
                     comp: Option<Completer.ListCompleter>)
    requires w.width > 0 && History.Inv(e.ring) && !Step(w, e, ev, hasExecuter, comp).1
    ensures var c := Crashed(w, e, ev);
      c.ring == Step(w, e, ev, hasExecuter, comp).0.ring && c.running == e.running &&
      ev.KeyEvent? &&
      (Editing(ev.key) ==> c.line == e.line && EditFailed(w, e, ev.key, c.screen)) &&
      (!Editing(ev.key) ==>
         (ev.key.ArrowUp? || ev.key.ArrowDown? || ev.key.Tab?) &&
         !Display.ClearLine(w, e.screen, e.line).1 &&
         c.screen == Display.ClearLine(w, e.screen, e.line).0)
  {
    match ev
    case KeyEvent(k) =>
      if Editing(k) {
        assert Step(w, e, ev, hasExecuter, comp) == Edit(w, e, k);
        EditCrash(w, e, k);
      } else {
        assert Step(w, e, ev, hasExecuter, comp) == Command(w, e, k, hasExecuter, comp);
        CommandCrash(w, e, k, hasExecuter, comp);
      }
  }

  /** The screen an editing key that panicked leaves: the key types a
      character whose insertChar failed, and the screen is what insertChar
      drew, or the key is a backspace that failed after blanking the cell
      under the cursor. */
  predicate EditFailed(w: Display.Widget, e: Editor, k: Key, s: Display.Screen)
    requires w.width > 0
  {
    ((k.Rune? || k.Space?) && !Display.InsertSafe(w, e.screen, e.line) &&
     s == Display.InsertFail(w, e.screen, e.line, if k.Rune? then k.ch else ' ')) ||
    ((k.Backspace? || k.Backspace2?) && !Display.BackspaceSafe(w, e.screen, e.line) &&
     s == e.screen.(grid := Display.SetCell(e.screen.grid, e.screen.x, e.screen.y, ' ')))
  }

  /** An editing key panics only in insertChar or backspace, which leave
      the line, the history and the running flag as they were and the screen
      as they drew it before the panic. */
  lemma EditCrash(w: Display.Widget, e: Editor, k: Key)
    requires w.width > 0 && History.Inv(e.ring) && Editing(k) && !Edit(w, e, k).1
    ensures var c := Crashed(w, e, KeyEvent(k));
      c == Edit(w, e, k).0 && c.line == e.line && c.ring == e.ring && c.running == e.running &&
      EditFailed(w, e, k, c.screen)
  {
    if k.Backspace? || k.Backspace2? {
      Display.BackspaceFailBlanks(w, e.screen, e.line);
    }
  }

  /** A command key panics only in the clearLine of the arrow keys or Tab. */
  lemma CommandCrash(w: Display.Widget, e: Editor, k: Key, hasExecuter: bool,
                     comp: Option<Completer.ListCompleter>)
    requires w.width > 0 && History.Inv(e.ring) && !Editing(k) && !Command(w, e, k, hasExecuter, comp).1
    ensures var c := Crashed(w, e, KeyEvent(k));
      (k.ArrowUp? || k.ArrowDown? || k.Tab?) &&
      !Display.ClearLine(w, e.screen, e.line).1 &&
      c.screen == Display.ClearLine(w, e.screen, e.line).0 &&
      c.ring == Command(w, e, k, hasExecuter, comp).0.ring && c.running == e.running
  {
    match k {
      case ArrowUp =>
        assert Command(w, e, k, hasExecuter, comp) == PressUp(w, e);
        UpCrash(w, e);
      case ArrowDown =>
        assert Command(w, e, k, hasExecuter, comp) == PressDown(w, e);
        DownCrash(w, e);
      case Tab =>
        assert Command(w, e, k, hasExecuter, comp) == PressTab(w, e, comp);
        TabCrash(w, e, comp);
      case _ =>
    }
  }

  lemma UpCrash(w: Display.Widget, e: Editor)
    requires w.width > 0 && History.Inv(e.ring) && !PressUp(w, e).1
    ensures var c := Crashed(w, e, KeyEvent(ArrowUp));
      !Display.ClearLine(w, e.screen, e.line).1 && c.screen == Display.ClearLine(w, e.screen, e.line).0 &&
      c.ring == PressUp(w, e).0.ring && c.running == e.running
  {
  }

  lemma DownCrash(w: Display.Widget, e: Editor)
    requires w.width > 0 && History.Inv(e.ring) && !PressDown(w, e).1
    ensures var c := Crashed(w, e, KeyEvent(ArrowDown));
      !Display.ClearLine(w, e.screen, e.line).1 && c.screen == Display.ClearLine(w, e.screen, e.line).0 &&
      c.ring == PressDown(w, e).0.ring && c.running == e.running
  {
  }

  lemma TabCrash(w: Display.Widget, e: Editor, comp: Option<Completer.ListCompleter>)
    requires w.width > 0 && History.Inv(e.ring) && !PressTab(w, e, comp).1
    ensures var c := Crashed(w, e, KeyEvent(Tab));
      !Display.ClearLine(w, e.screen, e.line).1 && c.screen == Display.ClearLine(w, e.screen, e.line).0 &&
      c.ring == PressTab(w, e, comp).0.ring == e.ring && c.running == e.running
  {
    assert comp.Some?;
    var r := Completer.Completion(comp.value, e.line);
    var out := Layout.OutputOf(r.1, w.width);
    assert PressTab(w, e, comp) == Answer(w, e, r.0, |r.1|, out);
    AnswerCrash(w, e, r.0, |r.1|, out);
    assert Crashed(w, e, KeyEvent(Tab)) == Cleared(w, e);
  }

  lemma AnswerCrash(w: Display.Widget, e: Editor, prefix: string, n: nat, out: seq<Layout.Out>)
    requires w.width > 0 && !Answer(w, e, prefix, n, out).1
    ensures !Display.ClearLine(w, e.screen, e.line).1 && Answer(w, e, prefix, n, out).0.ring == e.ring
  {
  }

  /** Across any event the history ring keeps the executed lines: Enter
      records the line when it is not empty, and nothing else records or
      loses a line. */
  lemma StepRecords(w: Display.Widget, e: Editor, ev: Event, hasExecuter: bool,
                    comp: Option<Completer.ListCompleter>, entries: seq<string>)
    requires w.width > 0 && History.Inv(e.ring) && History.Holds(e.ring, entries)
    ensures History.Holds(Step(w, e, ev, hasExecuter, comp).0.ring,
                          if ev == KeyEvent(Enter) && |e.line| > 0 then entries + [e.line] else entries)
  {
    match ev
    case OtherEvent =>
    case KeyEvent(k) =>
      if !Editing(k) {
        assert Step(w, e, ev, hasExecuter, comp) == Command(w, e, k, hasExecuter, comp);
        match k {
          case Enter => History.RecordHolds(e.ring, entries, e.line);
          case ArrowUp => History.UpLoadsRecorded(e.ring, entries, e.line);
          case ArrowDown => History.DownLoadsRecorded(e.ring, entries, e.line);
          case Tab => assert PressTab(w, e, comp).0.ring == e.ring;
          case _ =>
        }
      }
  }

  /** A multiple of the width plus a column, all within one row, is that
      column on that row. */
  lemma SameRow(d: int, width: int, x: int, n: int)
    requires 0 <= x < width && 0 <= n < width && d * width + x == n
    ensures d == 0 && x == n
  {
    Display.DivModUnique(n, width, d, x);
    Display.DivModUnique(n, width, 0, n);
  }

  lemma RowsApart(a: int, b: int, k: int, x: int, n: int)
    requires a * k + x == b * k + n
    ensures (a - b) * k + x == n
  {
  }

  /** Println, whatever it prints, leaves the cursor in column `left`. */
  lemma PrintlnAtLeft(w: Display.Widget, s: Display.Screen, str: string)
    requires w.width > 0
    ensures Display.Println(w, s, str).x == w.left
  {
  }

  /** The screen Enter leaves, before the prompt row is moved. */
  lemma ExecuteScreenPrompt(w: Display.Widget, s: Display.Screen, line: string, hasExecuter: bool)
    requires w.width > 0 && 0 <= w.top && 1 <= w.height
    requires 0 <= w.left && w.left + |w.prompt| < w.width
    ensures var r := ExecuteScreen(w, s, line, hasExecuter);
      r.x == w.left + |w.prompt|
  {
    var s1 := Display.Println(w, s, "");
    PrintlnAtLeft(w, s, "");
    var s2 := if hasExecuter && Executer.Decide(line).echo then Display.Println(w, s1, line) else s1;
    PrintlnAtLeft(w, s1, line);
    PromptFromLeft(w, s2);
  }

  /** The prompt printed from column `left` ends on the same row. */
  lemma PromptFromLeft(w: Display.Widget, s: Display.Screen)
    requires w.width > 0 && 0 <= w.top && 1 <= w.height
    requires 0 <= w.left && w.left + |w.prompt| < w.width && s.x == w.left
    ensures Display.Print(w, s, w.prompt).x == w.left + |w.prompt|
  {
    var r := Display.Print(w, s, w.prompt);
    Display.PrintAdvances(w, s, w.prompt);
    if w.prompt != [] {
      var a, b := r.y - r.promptY, s.y - s.promptY;
      assert a * w.width + r.x == b * w.width + w.left + |w.prompt|;
      RowsApart(a, b, w.width, r.x, w.left + |w.prompt|);
      SameRow(a - b, w.width, r.x, w.left + |w.prompt|);
    }
  }

  /** After Enter the line is empty and the cursor sits at its start, right
      after a prompt drawn on the cursor's row, whenever the prompt fits
      beside `left` on one row. */
  lemma EnterStartsFreshLine(w: Display.Widget, e: Editor, hasExecuter: bool)
    requires w.width > 0 && 0 <= w.top && 1 <= w.height && History.Inv(e.ring)
    requires 0 <= w.left && w.left + |w.prompt| < w.width
    ensures var r := PressEnter(w, e, hasExecuter);
      r.line == "" && r.screen.y == r.screen.promptY && Display.Offset(w, r.screen) == 0 &&
      r.screen.x == w.left + |w.prompt| && r.ring.diff == 0
  {
    ExecuteScreenPrompt(w, ToEnd(w, e.screen, e.line), e.line, hasExecuter);
  }

  /** When the line fits on the prompt's row, the arrow keys never panic
      (clearLine's backspaces all stay inside the line): a key that browses
      leaves the cursor right after the line it loads, and a key that does
      not browse changes nothing. */
  lemma BrowseOnOneRow(w: Display.Widget, e: Editor, up: bool)
    requires History.Inv(e.ring) && Display.OnOneRow(w, e.screen, e.line)
    ensures var browses := if up then History.CanGoUp(e.ring) else e.ring.diff < 0;
      var r := if up then PressUp(w, e) else PressDown(w, e);
      r.1 && (browses ==> Display.Offset(w, r.0.screen) == |r.0.line|) && (!browses ==> r.0 == e)
  {
    if up && History.CanGoUp(e.ring) {
      ReprintOnOneRow(w, e.screen, e.line, History.Up(e.ring, e.line).1);
    } else if !up && e.ring.diff < 0 {
      ReprintOnOneRow(w, e.screen, e.line, History.Down(e.ring, e.line).1);
    }
  }

  /** Clearing a line that fits on the prompt's row and printing another
      leaves the cursor right after the new line. */
  lemma ReprintOnOneRow(w: Display.Widget, s: Display.Screen, line: string, l: string)
    requires Display.OnOneRow(w, s, line)
    ensures var c := Display.ClearLine(w, s, line);
      c.1 && Display.Offset(w, Display.Print(w, c.0, l)) == |l|
  {
    var r := Display.ClearSteps(w, s, line, |line|);
    Display.ClearStepsOnOneRow(w, s, line, |line|);
    assert Display.ClearLine(w, s, line) == (r.0, r.2);
    Display.OneRowRoom(w, r.0, r.1);
    Display.PrintAdvances(w, r.0, l);
  }

  /** `word` is the only list word that starts with `line`. */
  predicate OnlyCandidate(lc: Completer.ListCompleter, line: string, word: string) {
    word in lc.list && line <= word && forall v :: v in lc.list && line <= v ==> v == word
  }

  /** The line Tab leaves: the completion prefix when there are matches,
      the old line otherwise. */
  lemma TabLine(w: Display.Widget, e: Editor, lc: Completer.ListCompleter)
    requires w.width > 0
    ensures PressTab(w, e, Some(lc)).0.line ==
              if Completer.Completion(lc, e.line).1 != multiset{} then Completer.Completion(lc, e.line).0 else e.line
  {
    var (prefix, m) := Completer.Completion(lc, e.line);
    AnswerLine(w, e, prefix, |m|, Layout.OutputOf(m, w.width));
    assert PressTab(w, e, Some(lc)) == Answer(w, e, prefix, |m|, Layout.OutputOf(m, w.width));
    assert |m| >= 1 <==> m != multiset{};
  }

  /** Whatever the completer answered, the line becomes the prefix as soon
      as there is a match, and stays as it was otherwise. */
  lemma AnswerLine(w: Display.Widget, e: Editor, prefix: string, n: nat, out: seq<Layout.Out>)
    requires w.width > 0
    ensures Answer(w, e, prefix, n, out).0.line == if n >= 1 then prefix else e.line
  {
  }

  /** Tab completion never removes what was typed and never goes beyond what
      every candidate shares: the new line starts with the old one and
      begins every list word that starts with the old line. When exactly one
      list word starts with the line, Tab completes the line to that word. */
  lemma TabExtendsLine(w: Display.Widget, e: Editor, lc: Completer.ListCompleter)
    requires w.width > 0 && Completer.Valid(lc)
    ensures var l := PressTab(w, e, Some(lc)).0.line;
      e.line <= l &&
      (forall word :: word in lc.list && e.line <= word ==> l <= word) &&
      (forall word :: OnlyCandidate(lc, e.line, word) ==> l == word)
  {
    TabLine(w, e, lc);
    CompletionExtends(lc, e.line);
  }

  /** The same, about the completion itself. */
  lemma CompletionExtends(lc: Completer.ListCompleter, line: string)
    requires Completer.Valid(lc)
    ensures var (p, m) := Completer.Completion(lc, line);
      var l := if m != multiset{} then p else line;
      line <= l &&
      (forall word :: word in lc.list && line <= word ==> l <= word) &&
      (forall word :: OnlyCandidate(lc, line, word) ==> l == word)
  {
    Completer.CompletionMeetsSpec(lc, line);
    var (p, m) := Completer.Completion(lc, line);
    forall word | word in lc.list && line <= word
      ensures word in m
    {
      assert m[word] == 1;
    }
    forall word | OnlyCandidate(lc, line, word)
      ensures m == multiset{word}
    {
      forall v ensures m[v] == multiset{word}[v] {
        assert m[v] == if line <= v && v in lc.list then 1 else 0;
      }
    }
  }

  /** A session ends without a panic before the queue is exhausted only
      because of a Ctrl-C, or of an Enter that an attached executer answers
      with exit. */
  lemma {:induction false} SessionEndsOnQuit(w: Display.Widget, e: Editor, events: seq<Event>,
                                             hasExecuter: bool, comp: Option<Completer.ListCompleter>)
    requires w.width > 0 && History.Inv(e.ring) && e.running
    ensures var r := Session(w, e, events, hasExecuter, comp);
      !r.2 && !r.0.running ==>
        r.1 >= 1 && (events[r.1 - 1] == KeyEvent(CtrlC) || (events[r.1 - 1] == KeyEvent(Enter) && hasExecuter))
    decreases |events|
  {
    if events != [] {
      var (e1, ok) := Step(w, e, events[0], hasExecuter, comp);
      StepStops(w, e, events[0], hasExecuter, comp);
      SessionStep(w, e, events, hasExecuter, comp);
      var r := Session(w, e1, events[1..], hasExecuter, comp);
      if ok && !e1.running {
        assert r == (e1, 0, false);
      } else if ok {
        SessionEndsOnQuit(w, e1, events[1..], hasExecuter, comp);
        if !r.2 && !r.0.running {
          assert events[1..][r.1 - 1] == events[r.1];
        }
      }
    }
  }
}
