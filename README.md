# ugcli console, modelled in Dafny

This project models the line editor of the `console` package of ugcli, a
small library for terminal command-line applications built on termbox.

A `Console` is a rectangle of terminal cells: `top`, `left`, `width` and
`height`. It shows a prompt (`"> "`) followed by the line being edited,
`currline`. It keeps an absolute cursor cell (`cursorX`, `cursorY`) and the
row the prompt was last drawn on (`promptY`). From these it computes the
cursor's offset into the line:
`(cursorY - promptY) * width + cursorX - left - len(prompt)`.

Keys edit the line:
- printable keys and Space insert a character;
- Backspace deletes one;
- the left and right arrows move along the line;
- Enter executes the line and records it in a 100-slot history ring;
- the up and down arrows browse that ring, keeping the unfinished draft;
- Tab asks a completer for the words that extend the line, and lists them in columns;
- Ctrl-C stops the console.

The built-in completer is a prefix tree of a word list. The built-in
executer echoes each command and stops on `exit`.

## Structure

- `wrappers.dfy` (`Wrappers`): the `Option` type.
- `completer.dfy` (`Completer`):
  - the prefix tree is an immutable datatype `LcNode`;
  - `NewListCompleter` builds it with a loop over the words;
  - `Dfs` and `Children` are the depth-first search;
  - `Complete` walks the input and runs the search.
- `display.dfy` (`Display`): the cursor arithmetic and drawing of
  `console/console_display.go`, as functions from one screen snapshot
  (cells, cursor, prompt row) to the next, with lemmas stating what each
  one does.
- `terminal.dfy` (`Terminal`): the termbox back buffer, a class over a
  two-dimensional array of runes (`SetCell`, `Size`, `CellBuffer`).
- `history.dfy` (`History`): the history ring as a value. A ghost list of
  every executed line is the reference it is proved against.
- `layout.dfy` (`Layout`): the calls `printOptions` makes, from the sorted
  options. These are proved to be the padded options cut into rows of
  `numColumns`.
- `executer.dfy` (`Executer`): the default executer's decision on a
  command.
- `events.dfy` (`Events`): what each key does to the whole editor, and a
  session of `Run` over a queue of events.
- `console.dfy` (`Console`): the `Console` class and the `EchoExecuter`
  class, with the Go fields updated in place. Every method is proved equal
  to the value-level function that specifies it. That function's
  properties are proved in the modules above.

## Quirks the model keeps

- `incrementCursor` wraps the column with `% width`, which ignores `left`.
- `decrementCursor` wraps to column `left + width`, one past the widget's
  right edge.
- As a consequence, with the widget at column 0, a backspace with the
  cursor at column 0 at the end of the line leaves the offset at the old
  length, one past the new end of the line. The next backspace then slices
  out of range.
  - `Display.BackspaceAtColumnZero` and `Display.ClearLineAtColumnZeroPanics`
    prove this.
  - `Display.EightCharactersThenClear` gives an instance: eight characters
    typed behind `"> "` in a widget ten columns wide, then a `clearLine`
    (as the arrow keys and Tab do).
- The same pair of wraps does not undo itself. With the widget at column 1
  and two columns wide, `decrementCursor` from column 0 goes to column 3 of
  the row above, and `incrementCursor` from there goes two rows down, so
  the cursor skips a row. `Display.WrapThenIncrementSkipsRow` shows this.
- `printOptions` may pad past the right edge. `numColumns` counts cells in
  `width + 2`, so the last cell's two padding spaces can run past the
  edge. For example, options four wide in a terminal ten wide give two
  columns, which take twelve cells. The overflow wraps to the next row,
  and the `Println` after the row then leaves that row almost blank.
  `Layout.ColumnsMayOverflow` states the instance.
- The Go code panics where a slice bound is out of range: in `insertChar`,
  `backspace` and therefore `clearLine`.
  - Each of these is modelled with a flag: `ok` is false, or `crashed` is
    true, exactly when the Go code would panic.
  - The state a panic leaves is stated too.
    - `insertChar` has drawn the character at the cursor and stepped the
      cursor on, scrolling if the step left the widget. With a negative
      offset the cursor stays one step on; past the end of the line it is
      put back in its cell (`Display.InsertFail`).
    - `backspace` has blanked the cell under the cursor: with the offset
      past the end of the line its redraw loop has no pass
      (`Display.BackspaceFail`).
    - Neither changes the line.
    - `clearLine` panics part way: the backspaces before the failing one
      have run, and the failing one has drawn its blank. The arrow keys
      have already stepped through the history by then.
    - `Events.Crashed` is that state, and `Events.Session` stops at such an
      event and returns it.
- `console/console_events.go` names the ring size `buffer_size`, while
  `console/console.go:18` declares `bufferSize = 100`. Both are taken as the
  one constant `History.BufferSize`, 100.

## Model

The root package holds older copies of the completer (`completer.go`, lines 16-78) and of the default executer (`executer.go`, lines 12-33). They differ from the `console` copies only in names, so the rows citing `console/completer.go` and `console/executer.go` cover them too: `CreateListCompleter` is `Completer.NewListCompleter`, `ListCompleter.Complete` is `Completer.Complete`, and the root `echoExecuter` is `Console.EchoExecuter`.

| member | source | states |
|---|---|---|
| Completer.NewListCompleter | console/completer.go:17-46 | the completer keeps the list, and its tree accepts a word exactly when the word is in the list |
| Completer.InsertAccepts | console/completer.go:25-39 | adding one word makes the tree accept that word and keeps every word it accepted before, and no other |
| Completer.InsertExisting | console/completer.go:28-39 | adding a word already present only sets `end` again, so the tree is unchanged |
| Completer.InsertPruned | console/completer.go:31-39 | the builder creates no branch that leads to no word |
| Completer.BuildAccepts | console/completer.go:23-40 | after the build, every list word has a path from the head that ends on a terminal node, and no other word does |
| Completer.BuildPruned | console/completer.go:23-40 | every node of a built tree lies on the path of some word |
| Completer.SameWordsSameTree | console/completer.go:23-40 | two trees without dead branches that accept the same words are equal |
| Completer.BuildIgnoresOrderAndDuplicates | console/completer.go:23-40 | two lists with the same words, in any order and with any repetition, build the same tree |
| Completer.BuildDuplicate | console/completer.go:28-39 | listing a word twice builds the same tree as listing it once |
| Completer.WalkAccepts | console/completer.go:49-56 | a word starting with the input is accepted exactly when the walk along the input succeeds and the node reached accepts the rest of the word |
| Completer.WalkNoneExtends | console/completer.go:52-55 | once a rune has no child edge, every longer input fails too |
| Completer.WalkPruned | console/completer.go:49-56 | the node a non-empty walk reaches in a built tree leads to at least one word |
| Completer.Dfs | console/completer.go:61-78 | the matches are the previous ones plus every word below the node, each once; the prefix starts with the running string and starts every new match; at a terminal or branching node the prefix is the running string, and at a node with one child and no word it goes through that child's rune |
| Completer.Children | console/completer.go:69-71 | the loop over the children adds the words below each child; with no children the prefix is unchanged; with one child it extends the running string by that child's rune |
| Completer.DfsGrows | console/completer.go:61-78 | a node with a word below it adds at least one match |
| Completer.ChildrenGrows | console/completer.go:69-71 | each child of a built tree adds at least one match |
| Completer.DfsSingleChild | console/completer.go:61-78 | at a node with one child that ends no word, the search gives what the search from that child with the running string extended by its rune gives |
| Completer.DfsLongest | console/completer.go:61-78 | in a tree without dead branches, every string that starts with the running string and starts every new match also starts the prefix: the prefix is the longest such string |
| Completer.StopsAtFork | console/completer.go:73-77 | at a terminal or branching node, the only string that starts with the running string and starts every new match is the running string itself |
| Completer.SingleMatch | console/completer.go:61-77 | when the search finds exactly one word, the prefix it returns is that word |
| Completer.Enumerate | console/completer.go:66 | the matches are returned as a list holding each of them once, in an arbitrary order, as Go's map order gives |
| Completer.CompletionMeetsSpec | console/completer.go:48-78 | the matches are exactly the list words that start with the input, each once; a rune without an edge gives ("", no matches); the prefix starts with the input and starts every match; it is the match itself when there is one; it is the input when the landing node is terminal or branches; when there are matches it is the longest common prefix: every string that starts with the input and starts every match starts the prefix |
| Completer.CompleteJaneJack | console/completer.go:48-78 | an instance: over "jane" and "jack", completing "j" gives the prefix "ja" and both words |
| Completer.CompleteEmptyInput | console/completer.go:52-58 | with an empty input every distinct list word is returned once, and an empty list gives ("", no matches) |
| Completer.Complete | console/completer.go:48-59 | the method returns the prefix and the matches of the search: no matches when a rune has no edge; a prefix of every match that starts with the input; the word itself when it is the only match; the longest string that starts with the input and starts every match |
| Display.Quo | console/console_display.go:12 | Go's integer division: the quotient truncated toward zero |
| Display.Rem | console/console_display.go:13 | Go's remainder: it takes the sign of the dividend, and the dividend is quotient times divisor plus remainder |
| Display.SetCell | console/console_display.go:58 | a termbox cell write changes that one cell and nothing else, and does nothing outside the terminal |
| Display.ScrolledGrid | console/console_display.go:138-151 | inside the widget each row takes the row below it and the bottom row is blanked; cells outside the widget stay |
| Display.CellOffsetRoundTrip | console/console_display.go:37-39 | with the widget at column 0, the offset of a cursor cell and the cell of an offset are inverse to each other |
| Display.IncrementStep | console/console_display.go:10-17 | the column ends in [0, width) and the offset grows by exactly one; it scrolls at most once, and only when the next cell is past the widget's bottom edge; inside a row only the column changes |
| Display.IncrementScrolls | console/console_display.go:10-17 | it scrolls, moving the prompt row up and the cells with it, exactly when the row it moves to is at or below the widget's bottom edge, and otherwise leaves the prompt row and the cells alone; from a row inside the widget the cursor stays inside when its column is less than two widths |
| Display.IncrementArith | console/console_display.go:11-13 | the carry of the column into the row keeps the cell count from the terminal's corner, with a column in [0, width) |
| Display.WrapThenIncrementSkipsRow | console/console_display.go:10-17 | an instance: after decrementCursor wraps from column 0, incrementCursor lands two rows below the starting row |
| Display.DecrementStep | console/console_display.go:49-55 | the offset drops by one, except at column 0, where the wrap to `left + width` moves it by `left` instead; the cells and the prompt row stay |
| Display.IncrementThenDecrement | console/console_display.go:49-55 | incrementing and then decrementing returns to the same cell inside a row; across the right edge it lands on column `left + width` of the old row |
| Display.MoveLeftStep | console/console_display.go:19-26 | nothing happens at offset 0; otherwise the offset steps back as decrementCursor does; with the widget at column 0 the offset stays in [0, len(currline)] |
| Display.MoveRightStep | console/console_display.go:28-35 | nothing happens at or past the end of the line; otherwise the offset grows by one; so the offset stays in [0, len(currline)] |
| Display.RedrawAdvances | console/console_display.go:70-73 | the redraw loop advances the offset by one per character; the prompt row never rises, and it stays put while the cells drawn lie above the widget's bottom edge |
| Display.PrintAdvances | console/console_display.go:81-85 | Print advances the offset by one per rune, with the same bounds |
| Display.PrintlnNewRow | console/console_display.go:88-97 | Println("") moves the cursor to column `left` of the next row, or scrolls once at the bottom row |
| Display.InsertFailDraws | console/console_display.go:63-77 | when insertChar panics, `ch` is in the cursor's cell, scrolled up with the widget if the step scrolled; with a negative offset the cursor is one step on, past the end of the line it is back in its cell |
| Display.InsertSplices | console/console_display.go:63-78 | the new line is `line[:loc] + ch + line[loc:]`; when the redraw does not scroll, the offset becomes loc + 1 |
| Display.InsertSteps | console/console_display.go:74-77 | the cursor part: back at the saved cell and one step right, the offset is loc + 1 when nothing scrolled |
| Display.BackspaceFailBlanks | console/console_display.go:101-121 | when backspace panics, the redraw loop has had no pass and only the cell under the cursor has been blanked |
| Display.BackspaceDeletes | console/console_display.go:101-127 | nothing changes at an offset of 0 or below; otherwise all three branches give `line[:loc-1] + line[loc:]`, one character shorter, and without a scroll the cursor steps back as moveCursorLeft does |
| Display.BackspaceCuts | console/console_display.go:116-122 | each of the three slicing branches removes exactly the character before the offset |
| Display.BackspaceSteps | console/console_display.go:124-126 | without a scroll, the restored cursor steps back one offset, except at column 0 |
| Display.BackspaceOnOneRow | console/console_display.go:101-127 | on a line that fits on the prompt's row of a widget at column 0, backspace is safe, removes one character and moves the offset back by one |
| Display.OneRowRoom | console/console_display.go:110-113 | on such a line, the cells the redraw passes stay inside the widget |
| Display.ClearStepsOnOneRow | console/console_display.go:130-133 | on such a line, the backspaces of clearLine never panic; each removes one character until the offset reaches 0 |
| Display.ClearLineOnOneRow | console/console_display.go:130-135 | on such a line, clearLine never panics and ends at offset 0 |
| Display.ClearStepsStop | console/console_display.go:131-133 | once a backspace of clearLine panics, the later ones are never reached: the screen, the line and the failure stay as that backspace left them |
| Display.BackspaceAtColumnZero | console/console_display.go:101-127 | with the widget at column 0 and the cursor at column 0 at the end of the line, backspace keeps the offset at the old length, so the next backspace is out of range |
| Display.ClearLineAtColumnZeroPanics | console/console_display.go:130-135 | from that position clearLine panics whenever the line has two characters or more |
| Display.EightCharactersThenClear | console/console_display.go:130-135 | an instance: eight characters behind "> " in a widget ten columns wide, then clearLine, panics |
| Terminal.Surface.Size | console/console_display.go:140 | tb.Size: the terminal's width and height are the array's dimensions |
| Terminal.Surface.SetCell | console/console_display.go:145 | tb.SetCell updates the one array cell, as Display.SetCell states |
| Terminal.Surface.Buffer | console/console_display.go:144 | entry i of tb.CellBuffer is the cell in row i / width, column i % width |
| History.Initial | console/console.go:100-105 | the starting ring holds 100 empty slots, nothing recorded, diff 0 and an empty draft |
| History.RecordHolds | console/console_events.go:69-75 | a non-empty line goes into slot bufferIdx % 100 and bufferIdx grows by one; an empty line leaves the slots and bufferIdx as they were; browsing ends; the last 100 executed lines stay readable |
| History.Up | console/console_events.go:92-101 | doArrowUp keeps -min(100, bufferIdx) <= diff <= 0 and never changes the slots |
| History.Down | console/console_events.go:78-90 | doArrowDown keeps the same bound and never changes the slots |
| History.UpLoadsRecorded | console/console_events.go:92-101 | doArrowUp acts only while an older kept line exists; it loads that line, never an unwritten slot; it saves the draft only on the first press |
| History.DownLoadsRecorded | console/console_events.go:78-90 | doArrowDown does nothing at diff 0, restores the draft at diff -1, and below that loads the newer recorded line |
| History.UpNBrowses | console/console_events.go:92-101 | up to min(100, bufferIdx) presses each take effect, and the k-th shows the k-th most recent executed line |
| History.DownNBrowses | console/console_events.go:78-90 | down-presses keep showing the recorded line the offset points at, and each brings the offset one step back toward 0 |
| History.UpThenDownRestoresDraft | console/console_events.go:78-101 | k effective up-presses followed by k down-presses restore the original line and end browsing |
| Layout.InsertSorted | console/console_events.go:126 | inserting into a sorted list gives a sorted permutation with one more element |
| Layout.Sort | console/console_events.go:126 | sort.Strings: the result is sorted and is a permutation of the input |
| Layout.SortedUnique | console/console_events.go:126 | there is only one sorted permutation of a list, so the sorted order does not depend on the input order |
| Layout.OutputOrderFree | console/console_events.go:125-151 | the listing depends only on the multiset of options, not on the order the completer returned them in |
| Layout.MaxLenIsLongest | console/console_events.go:127-132 | maxLen is at least the length of every option and equals the length of one of them, or is 0 for no options |
| Layout.Columns | console/console_events.go:133-136 | numColumns = (width + 2) / (maxLen + 2), at least 1: as many padded cells as fit in width + 2, so the last cell's two padding spaces may run past the right edge |
| Layout.Spaces | console/console_events.go:140-142 | the padding loop prints max(0, k) single spaces |
| Layout.PadsWide | console/console_events.go:140-142 | every option is padded to maxLen + 2 cells |
| Layout.OutputFromCons | console/console_events.go:138-147 | one step of the loop: the padded option, then a new row when it completes a row |
| Layout.OutputFromRows | console/console_events.go:137-147 | the text of the calls is the padded options cut into rows, starting in any column |
| Layout.ColumnsMayOverflow | console/console_events.go:133-142 | an instance: four-wide options in a ten-wide terminal get two columns, whose padded cells take twelve |
| Layout.RowsOfOutput | console/console_events.go:137-150 | from the first column, the rows are the padded options in chunks of numColumns |
| Layout.OutputIsChunked | console/console_events.go:125-151 | the listing is the sorted options, each padded to maxLen + 2, in rows of numColumns |
| Layout.OutputEndsRow | console/console_events.go:144-150 | a newline follows every full row, and one more follows a last partial row |
| Layout.OutputEndsLine | console/console_events.go:143-150 | no options print nothing; otherwise the listing ends with a newline |
| Layout.EmitAppend | console/console_events.go:137-150 | drawing two runs of calls one after the other is drawing their concatenation |
| Executer.Decide | console/executer.go:35-42 | the status is always 0; the console stops exactly on "exit"; the command is echoed exactly when it is non-empty and not "exit" |
| Events.Step | console/console_events.go:32-58 | one pass of the switch keeps the history ring's invariant |
| Events.Edit | console/console_events.go:33-58 | the keys that edit or move along the line leave the history and the running flag as they were |
| Events.Command | console/console_events.go:38-53 | Enter, Ctrl-C, the arrows and Tab keep the ring's invariant |
| Events.Cleared | console/console_display.go:130-135 | the editor a panicking clearLine leaves keeps its history and running flag, and its screen is clearLine's screen after the failing backspace's blank |
| Events.Crashed | console/console_events.go:32-58 | the console a panic leaves keeps its running flag; only the arrow keys have moved the history, and only they and Tab have changed the line |
| Events.CrashedState | console/console_events.go:32-58 | only insertChar, backspace and the clearLine of the arrow keys and Tab panic; an editing key that panics leaves the line as it was and the screen as insertChar or backspace drew it before the panic; a command key that panics is an arrow key or Tab whose clearLine failed, and leaves clearLine's screen with the history of the step |
| Events.EditCrash | console/console_events.go:34-47 | an editing key that panics is a typed character whose insertChar failed or a failed backspace; the line, history and running flag stay, and the screen is Display.InsertFail's, or the old one with the cursor's cell blanked |
| Events.CommandCrash | console/console_events.go:48-53 | a command key that panics is an arrow key or Tab whose clearLine failed, and leaves clearLine's screen, the step's history and the running flag |
| Events.Session | console/console_events.go:25-60 | the loop takes at most all the events; when it stops early without a panic the console is no longer running; a panic ends it on the event that caused it |
| Events.Take | console/console_events.go:25-60 | a running console takes at least the first event |
| Events.SessionStep | console/console_events.go:25-60 | a session is one step followed by the session of the rest, unless that step panicked, when it ends there with the state Events.Crashed gives |
| Events.SessionAfter | console/console_events.go:25-60 | the console that the first event leaves, finished or crashed, continues the same session |
| Events.SessionEndsOnQuit | console/console_events.go:25-60 | a session that ends with the console stopped ended on Ctrl-C or on Enter with an executer |
| Events.StepStops | console/console_events.go:38-45 | a running console stops exactly on Ctrl-C or on Enter with the line "exit" and an executer attached |
| Events.StepRecords | console/console_events.go:38-43 | the ring holds every executed line: Enter adds a non-empty line, and no other key changes what is recorded |
| Events.PromptFromLeft | console/console_events.go:18-19 | printing the prompt from column `left` leaves the cursor just after it |
| Events.PrintlnAtLeft | console/console_display.go:88-97 | Println always leaves the cursor at column `left` |
| Events.ExecuteScreenPrompt | console/console_events.go:63-68 | after executeLine the cursor stands just after the new prompt |
| Events.EnterStartsFreshLine | console/console_events.go:38-43 | after Enter the line is empty, the prompt row is the cursor row, the offset is 0 and browsing has ended |
| Events.BrowseOnOneRow | console/console_events.go:78-101 | on a single-row line the arrow keys never panic; when they browse, the cursor ends at the end of the loaded line; otherwise nothing changes |
| Events.ReprintOnOneRow | console/console_events.go:98-100 | clearing a single-row line never panics, and printing the new line leaves the offset at its end |
| Events.TabLine | console/console_events.go:104-123 | Tab sets the line to the completer's prefix when there is at least one match, and otherwise leaves it |
| Events.AnswerLine | console/console_events.go:108-121 | with one or more options the line becomes the prefix; with none it stays |
| Events.CompletionExtends | console/console_events.go:106-120 | the completed line starts with the old line and starts every matching word, and is that word when it is the only candidate |
| Events.TabExtendsLine | console/console_events.go:104-121 | the same about the line Tab leaves |
| Console.Console.constructor | console/console.go:89-107 | the cursor is at (left, top), promptY = top, the prompt is "> ", 100 empty slots, empty line and draft, diff and bufferIdx 0, running; no executer or completer |
| Console.Console.SetExecuter | console/console.go:110-112 | only the executer changes |
| Console.Console.SetCompleter | console/console.go:115-117 | only the completer changes |
| Console.Console.ScrollDown | console/console_display.go:138-158 | the cells, cursor and prompt row become Display.ScrollDown of the old ones: rows shifted up, bottom row blanked, cursorY dropped and clamped at 0, promptY dropped |
| Console.Console.ShiftRow | console/console_display.go:143-146 | the inner loop copies one row of the widget from the row below |
| Console.Console.ShiftCell | console/console_display.go:144-145 | one cell is copied from the row below, through the flat cell buffer |
| Console.Console.BlankBottomRow | console/console_display.go:149-151 | the widget's bottom row is blanked |
| Console.Console.ShiftedStep | console/console_display.go:144-145 | copying one more cell extends the shifted region by that cell |
| Console.Console.ScrolledIsShifted | console/console_display.go:142-151 | the two loops together produce Display.ScrolledGrid |
| Console.Console.IncrementCursor | console/console_display.go:10-17 | the state becomes Display.Increment of the old one, whose effect IncrementStep states |
| Console.Console.DecrementCursor | console/console_display.go:49-55 | the state becomes Display.Decrement of the old one, whose effect DecrementStep states |
| Console.Console.GetCursorLoc | console/console_display.go:37-39 | the offset is (cursorY - promptY) * width + cursorX - left - len(prompt) |
| Console.Console.GetCursorChar | console/console_display.go:41-47 | a blank outside [0, len(currline)), else the character at the offset |
| Console.Console.MoveCursorLeft | console/console_display.go:19-26 | the state becomes Display.MoveLeft of the old one, whose effect MoveLeftStep states |
| Console.Console.MoveCursorRight | console/console_display.go:28-35 | the state becomes Display.MoveRight of the old one, whose effect MoveRightStep states |
| Console.Console.WriteChar | console/console_display.go:57-61 | the state becomes Display.WriteChar of the old one |
| Console.Console.Print | console/console_display.go:81-85 | the state becomes Display.Print of the old one, whose effect PrintAdvances states |
| Console.Console.Println | console/console_display.go:88-97 | the state becomes Display.Println of the old one, whose effect PrintlnNewRow states |
| Console.Console.Redraw | console/console_display.go:70-73 | the state becomes Display.Redraw of the old one, whose effect RedrawAdvances states |
| Console.Console.InsertChar | console/console_display.go:63-78 | it succeeds exactly when the offset lies in [0, len(currline)]; the screen and line then become Display.Insert of the old ones; on failure the line stays and the screen is Display.InsertFail's |
| Console.Console.Backspace | console/console_display.go:101-127 | it succeeds exactly when the offset is not past the end of the line; the screen and line then become Display.Backspace of the old ones; on failure the line stays and the screen is Display.BackspaceFail's |
| Console.Console.RedrawAfter | console/console_display.go:107-114 | the characters after the offset are drawn one cell to the left, the cell after them is blanked, and the cursor returns to its cell |
| Console.Console.ClearLine | console/console_display.go:130-135 | it succeeds exactly as Display.ClearLine does, and then leaves the line empty; when a backspace panics, the screen and line are those the backspaces before it left |
| Console.Console.ExecuteLine | console/console_events.go:63-76 | the editor becomes Events.Execute of the old one: line, diff and draft reset, the line recorded when non-empty, running as the executer decides |
| Console.Console.ExecuteOnScreen | console/console_events.go:64-68 | a new row, the executer's echo, a new prompt; running becomes the executer's keepRunning |
| Console.Console.RecordLine | console/console_events.go:69-75 | the ring becomes History.Record of the old one, and the ring still holds every executed line |
| Console.Console.DoArrowUp | console/console_events.go:92-102 | the editor becomes Events.PressUp of the old one; it fails exactly when clearLine panics, leaving the stepped history and the partly cleared line of Events.Crashed |
| Console.Console.BrowseBack | console/console_events.go:93-99 | the ring becomes History.Up of the old one |
| Console.Console.DoArrowDown | console/console_events.go:78-90 | the editor becomes Events.PressDown of the old one; it fails exactly when clearLine panics, leaving the stepped history and the partly cleared line of Events.Crashed |
| Console.Console.BrowseForward | console/console_events.go:79-87 | the ring becomes History.Down of the old one |
| Console.Console.ReplaceLine | console/console_events.go:98-100 | the line is cleared and the new line printed in its place; when clearLine panics, the partly cleared line and its screen stay |
| Console.Console.TabKey | console/console_events.go:52-53 | the editor becomes Events.PressTab of the old one, or Events.Cleared when clearLine panics |
| Console.Console.DoTabCompletion | console/console_events.go:104-123 | the editor becomes Events.PressTab of the old one: nothing without a completer or without matches, otherwise the prefix as the line and, with several matches, their listing; Events.Cleared when clearLine panics |
| Console.Console.AskCompleter | console/console_events.go:106 | the completer's prefix and as many options as matches, laid out as the matches are |
| Console.Console.ApplyCompletion | console/console_events.go:108-121 | the editor becomes Events.Answer for the completer's answer, or Events.Cleared when clearLine panics |
| Console.Console.ListMatches | console/console_events.go:109-116 | the line becomes the prefix, the options are listed below it and a new prompt follows |
| Console.Console.PrintOptions | console/console_events.go:125-151 | the screen shows the calls of Layout.Output, whose text OutputIsChunked states |
| Console.Console.PrintRows | console/console_events.go:137-147 | the loop draws the padded options, with a newline after every numColumns of them |
| Console.Console.EndRows | console/console_events.go:148-150 | a last partial row is closed by one newline |
| Console.Console.ColumnCount | console/console_events.go:133-136 | numColumns is Layout.Columns of the width and maxLen |
| Console.Console.LongestOption | console/console_events.go:127-132 | maxLen is Layout.MaxLen of the options |
| Console.Console.PrintOne | console/console_events.go:138-147 | one pass of the loop draws the next option and keeps the rest of the listing to be drawn |
| Console.Console.PrintCell | console/console_events.go:139-142 | an option followed by its padding spaces |
| Console.Console.PressEnter | console/console_events.go:38-43 | the editor becomes Events.PressEnter of the old one, and the executed line is recorded when non-empty |
| Console.Console.MoveToEnd | console/console_events.go:39-41 | the cursor moves right once for each character after the offset |
| Console.Console.HandleEvent | console/console_events.go:32-58 | the editor becomes Events.Step of the old one, or Events.Crashed when the event panics; only Enter with a non-empty line adds to the recorded lines |
| Console.Console.EditKey | console/console_events.go:33-58 | the editing keys act as Events.Edit states; when they panic the line stays and the screen is as Events.EditFailed describes |
| Console.Console.CommandKey | console/console_events.go:38-53 | the other keys act as Events.Command states, or leave Events.Crashed when they panic |
| Console.Console.BrowseKey | console/console_events.go:48-51 | the arrow keys act as Events.Command states, or leave Events.Crashed when they panic |
| Console.Console.Run | console/console_events.go:16-61 | the prompt is drawn, the default executer attached when none is set, then the events are handled as Events.Session states, including the state a panic leaves |
| Console.Console.DrawPrompt | console/console_events.go:18-19 | the prompt row becomes the cursor's row and the prompt is printed there |
| Console.Console.Loop | console/console_events.go:25-60 | the loop consumes events while running, as Events.Session states, and reports a panic, leaving the state Events.Crashed gives |
| Console.Console.Turn | console/console_events.go:27-59 | one pass of the loop: the session of the remaining events is this event followed by the session of the rest, or ends on this event with the console as it panicked |
| Console.EchoExecuter.constructor | console/executer.go:21-23 | the executer is bound to the given console |
| Console.EchoExecuter.Execute | console/executer.go:35-42 | status 0; keepRunning exactly when the command is not "exit"; a non-empty command other than "exit" is echoed once with Println; otherwise the screen is unchanged |
| Console.EchoExecuter.BoundConsole | console/executer.go:45-47 | the console the executer was created with |
| Console.DefaultExecuter | console/executer.go:20-24 | a new echo executer bound to the given console |

## Left out

- Concurrency in `ugcli.go`: the goroutines, channels and `select` that run components. `events.go`, the channel wrapper, is left out as well.
- The root package's `console.go`, `console_display.go` and `console_events.go`. They are an older snapshot and use fields their `Console` does not declare. The root `echoExecuter` prints through that `Console`. Its decision is the same `Executer.Decide`, and its echo is modelled on the console of this model.
- The root `CreateListCompleter` and `ListCompleter` differ from the `console` copies only in their exported names, so the same members model them.
- `_demo/simple.go`: termbox start-up.
- termbox I/O:
  - `tb.Flush` and its panic on error are not modelled.
  - `PollEvent` is left out: `Run` takes a finite sequence of events instead of a blocking queue.
  - The colour and attribute arguments of `SetCell` are dropped, so the cursor's reverse-video cell is just a blank.
- `lcNode.String` in `completer.go`: a debug printer whose output depends on map order.
- User-defined executers and completers. Only the built-in echo executer and list completer are modelled.
- Multi-byte runes: `len(currline)` counts bytes in Go but characters here. The two agree for ASCII lines.
- `sort.Strings` compares bytes. `Layout.Sort` orders strings character by character and is specified only as a sorted permutation.
- Go's random map order. The search visits children in rune order, and the matches are a multiset. `Completer.Enumerate` returns them in an unspecified order. `Layout.OutputOrderFree` shows the listing does not depend on that order.
- The trie is built as an immutable value, not by updating nodes in place. Sharing between nodes is not modelled.
- State after a panic. The model stops at the panic and states the console as the panic leaves it (`Events.Crashed`). A Go program that panics ends, and nothing after the panic is modelled. The cells drawn before the panic are part of that state: the character and cursor step of `insertChar` (console/console_display.go:67-68) and the blank of `backspace` (console/console_display.go:114). They are written to termbox's back buffer, which is what the model's screen is; they never reach the terminal, since the panic comes before the next `tb.Flush`.
- Console.Console.constructor: requires the widget to be non-empty and inside the terminal. `NewConsole` accepts any numbers, and termbox silently ignores writes outside the terminal. The drawing methods require the same fit.
- Display.InsertSplices: states the new offset only when the redraw does not reach past the widget's bottom edge. A scroll moves the prompt row while the saved cursor cell stays, which shifts the offset.
- Display.BackspaceDeletes: states the cursor's new offset only when the redraw does not scroll, for the same reason.
- Console.Console.SetExecuter: requires an echo executer to belong to this console, and `Valid`, `ExecuteLine` and `ExecuteOnScreen` keep that requirement. `SetExecuter` in Go accepts an echo executer made for another console. Its echo would then print through that console's cursor and possibly onto the same terminal cells. Modelling that aliasing would need two consoles sharing one screen, so the model does not cover it.
- Display.IncrementScrolls: the cursor is kept inside the widget only while its column is less than two widths past the left edge. After the wrap of `decrementCursor` to `left + width`, with `left` of at least `width - 1`, one step moves it down two rows, as `Display.WrapThenIncrementSkipsRow` shows.
- Display.CellOffsetRoundTrip: stated only with the widget at column 0, because `incrementCursor` ignores `left`.
