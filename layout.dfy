/**
 * printOptions (console/console_events.go): the completion matches, sorted,
 * laid out in columns. The layout is stated as the sequence of Print and
 * Println calls it makes; the Console class makes the same calls.
 */
module Layout {
  import Display

  /** column_pad: blanks between two columns. */
  const ColumnPad := 2

  // ---------------------------------------------------------------------
  // Go string order and sort.Strings
  // ---------------------------------------------------------------------

  /** Go's `a <= b` on strings: lexicographic on the characters. */
  predicate LessEq(a: string, b: string)
    decreases |a|
  {
    a == [] || (b != [] && (a[0] < b[0] || (a[0] == b[0] && LessEq(a[1..], b[1..]))))
  }

  lemma {:induction false} LessEqTotal(a: string, b: string)
    ensures LessEq(a, b) || LessEq(b, a)
    decreases |a|
  {
    if a != [] && b != [] && a[0] == b[0] {
      LessEqTotal(a[1..], b[1..]);
    }
  }

  lemma {:induction false} LessEqTrans(a: string, b: string, c: string)
    requires LessEq(a, b) && LessEq(b, c)
    ensures LessEq(a, c)
    decreases |a|
  {
    if a != [] && a[0] == b[0] && b[0] == c[0] {
      LessEqTrans(a[1..], b[1..], c[1..]);
    }
  }

  lemma {:induction false} LessEqAntisym(a: string, b: string)
    requires LessEq(a, b) && LessEq(b, a)
    ensures a == b
    decreases |a|
  {
    if a != [] {
      LessEqAntisym(a[1..], b[1..]);
      assert a == [a[0]] + a[1..];
      assert b == [b[0]] + b[1..];
    }
  }

  lemma {:induction false} LessEqRefl(a: string)
    ensures LessEq(a, a)
    decreases |a|
  {
    if a != [] {
      LessEqRefl(a[1..]);
    }
  }

  predicate Sorted(s: seq<string>) {
    forall i, j :: 0 <= i < j < |s| ==> LessEq(s[i], s[j])
  }

  predicate LowerBound(b: string, s: seq<string>) {
    forall i :: 0 <= i < |s| ==> LessEq(b, s[i])
  }

  lemma SortedCons(h: string, t: seq<string>)
    requires Sorted(t) && LowerBound(h, t)
    ensures Sorted([h] + t)
  {
    var s := [h] + t;
    forall i, j | 0 <= i < j < |s| ensures LessEq(s[i], s[j]) {
      if i > 0 {
        assert s[i] == t[i - 1] && s[j] == t[j - 1];
      } else {
        assert s[j] == t[j - 1];
      }
    }
  }

  /** Insert `x` into a sorted sequence before the first greater element. */
  function InsertSorted(x: string, s: seq<string>): (r: seq<string>)
    requires Sorted(s)
    ensures Sorted(r) && multiset(r) == multiset(s) + multiset{x} && |r| == |s| + 1
    ensures forall b :: LessEq(b, x) && LowerBound(b, s) ==> LowerBound(b, r)
    decreases |s|
  {
    if s == [] then [x]
    else if LessEq(x, s[0]) then
      assert LowerBound(x, s) by {
        forall j | 0 <= j < |s| ensures LessEq(x, s[j]) {
          if j > 0 {
            LessEqTrans(x, s[0], s[j]);
          }
        }
      }
      SortedCons(x, s);
      [x] + s
    else
      var rest := InsertSorted(x, s[1..]);
      InsertAfterHead(x, s, rest);
      [s[0]] + rest
  }

  /** The step of InsertSorted that keeps the head of `s` in front. */
  lemma InsertAfterHead(x: string, s: seq<string>, rest: seq<string>)
    requires Sorted(s) && s != [] && !LessEq(x, s[0])
    requires Sorted(rest) && multiset(rest) == multiset(s[1..]) + multiset{x}
    requires forall b :: LessEq(b, x) && LowerBound(b, s[1..]) ==> LowerBound(b, rest)
    ensures Sorted([s[0]] + rest) && multiset([s[0]] + rest) == multiset(s) + multiset{x}
    ensures forall b :: LessEq(b, x) && LowerBound(b, s) ==> LowerBound(b, [s[0]] + rest)
  {
    HeadBelowRest(x, s, rest);
    SortedCons(s[0], rest);
    assert s == [s[0]] + s[1..];
    forall b | LessEq(b, x) && LowerBound(b, s) ensures LowerBound(b, [s[0]] + rest) {
      assert LowerBound(b, s[1..]);
    }
  }

  lemma HeadBelowRest(x: string, s: seq<string>, rest: seq<string>)
    requires Sorted(s) && s != [] && !LessEq(x, s[0])
    requires multiset(rest) == multiset(s[1..]) + multiset{x}
    ensures LowerBound(s[0], rest)
  {
    LessEqTotal(x, s[0]);
    forall i | 0 <= i < |rest| ensures LessEq(s[0], rest[i]) {
      assert rest[i] in multiset(rest);
      if rest[i] != x {
        assert rest[i] in multiset(s[1..]);
        var j :| 0 <= j < |s[1..]| && s[1..][j] == rest[i];
        assert s[1..][j] == s[j + 1];
      }
    }
  }

  /** sort.Strings, stated by its result: the same strings in order. */
  function Sort(s: seq<string>): (r: seq<string>)
    ensures Sorted(r) && multiset(r) == multiset(s) && |r| == |s|
    decreases |s|
  {
    if s == [] then []
    else
      assert s == s[..|s| - 1] + [s[|s| - 1]];
      InsertSorted(s[|s| - 1], Sort(s[..|s| - 1]))
  }

  /** A sorted order is unique: the layout does not depend on the order the
      completer produced the matches in. */
  lemma {:induction false} SortedUnique(a: seq<string>, b: seq<string>)
    requires Sorted(a) && Sorted(b) && multiset(a) == multiset(b)
    ensures a == b
    decreases |a|
  {
    if a != [] {
      SameHead(a, b);
      SortedTail(a);
      SortedTail(b);
      assert a == [a[0]] + a[1..];
      assert b == [b[0]] + b[1..];
      assert multiset(a[1..]) == multiset(a) - multiset{a[0]};
      assert multiset(b[1..]) == multiset(b) - multiset{b[0]};
      SortedUnique(a[1..], b[1..]);
    }
  }

  /** Two sorted orders of the same strings start with the same string. */
  lemma SameHead(a: seq<string>, b: seq<string>)
    requires Sorted(a) && Sorted(b) && multiset(a) == multiset(b) && a != []
    ensures b != [] && a[0] == b[0]
  {
    assert a[0] in multiset(b);
    assert b[0] in multiset(a);
    var i :| 0 <= i < |b| && b[i] == a[0];
    var j :| 0 <= j < |a| && a[j] == b[0];
    if i > 0 && j > 0 {
      assert LessEq(b[0], b[i]);
      assert LessEq(a[0], a[j]);
      LessEqAntisym(a[0], b[0]);
    }
  }

  lemma SortedTail(s: seq<string>)
    requires Sorted(s) && s != []
    ensures Sorted(s[1..])
  {
    forall x, y | 0 <= x < y < |s| - 1 ensures LessEq(s[1..][x], s[1..][y]) {
      assert s[1..][x] == s[x + 1] && s[1..][y] == s[y + 1];
    }
  }

  // ---------------------------------------------------------------------
  // Columns
  // ---------------------------------------------------------------------

  /** The length of the longest option, 0 for none. */
  function MaxLen(opts: seq<string>): nat
    decreases |opts|
  {
    if opts == [] then 0
    else
      var m := MaxLen(opts[..|opts| - 1]);
      var l := |opts[|opts| - 1]|;
      if m < l then l else m
  }

  /** MaxLen bounds every option and is the length of one of them. */
  lemma {:induction false} MaxLenIsLongest(opts: seq<string>)
    ensures forall i :: 0 <= i < |opts| ==> |opts[i]| <= MaxLen(opts)
    ensures opts == [] ==> MaxLen(opts) == 0
    ensures opts != [] ==> exists i :: 0 <= i < |opts| && |opts[i]| == MaxLen(opts)
    decreases |opts|
  {
    if opts != [] {
      var init := opts[..|opts| - 1];
      MaxLenIsLongest(init);
      assert forall i :: 0 <= i < |opts| - 1 ==> opts[i] == init[i];
      if init != [] && |opts[|opts| - 1]| <= MaxLen(init) {
        var j :| 0 <= j < |init| && |init[j]| == MaxLen(init);
        assert |opts[j]| == MaxLen(opts);
      }
    }
  }

  /** numColumns: as many padded options as fit in width + column_pad
      cells, and at least one. */
  function Columns(width: int, maxLen: nat): (c: int)
    requires width >= 1
    ensures c >= 1
    ensures c == 1 || c * (maxLen + ColumnPad) <= width + ColumnPad
    ensures (c + 1) * (maxLen + ColumnPad) > width + ColumnPad
  {
    var n := Display.Quo(width + ColumnPad, maxLen + ColumnPad);
    if n == 0 then n + 1 else n
  }

  /** The count lets the last cell's two padding spaces run past the right
      edge: options four wide in a terminal ten wide get two columns, whose
      padded cells take twelve. */
  lemma ColumnsMayOverflow()
    ensures Columns(10, 4) == 2 && 2 * (4 + ColumnPad) > 10
  {
  }

  // ---------------------------------------------------------------------
  // The calls printOptions makes
  // ---------------------------------------------------------------------

  /** One call: Print(s) or Println(""). */
  datatype Out = Text(s: string) | Newline

  /** k calls of Print(" "). */
  function Spaces(k: int): (r: seq<Out>)
    ensures |r| == if k <= 0 then 0 else k
    ensures forall i :: 0 <= i < |r| ==> r[i] == Text(" ")
  {
    if k <= 0 then [] else seq(k, _ => Text(" "))
  }

  /** An option and the blanks that pad it to maxLen + column_pad. */
  function Cell(option: string, maxLen: nat): seq<Out> {
    [Text(option)] + Spaces(maxLen + ColumnPad - |option|)
  }

  /** The calls for `opts` when `col` options already stand on the current
      row: a Println("") closes every full row, and one more closes a last
      partial row. */
  function OutputFrom(opts: seq<string>, col: nat, cols: int, maxLen: nat): seq<Out>
    requires col < cols
    decreases |opts|
  {
    if opts == [] then (if col != 0 then [Newline] else [])
    else if col + 1 == cols then Cell(opts[0], maxLen) + [Newline] + OutputFrom(opts[1..], 0, cols, maxLen)
    else Cell(opts[0], maxLen) + OutputFrom(opts[1..], col + 1, cols, maxLen)
  }

  /** The calls for a non-empty run of options: the first option's cell,
      the end of the row when it fills the row, then the rest. */
  lemma OutputFromCons(opts: seq<string>, col: nat, cols: int, maxLen: nat)
    requires opts != [] && col < cols
    ensures OutputFrom(opts, col, cols, maxLen) ==
              Cell(opts[0], maxLen) +
              (if col + 1 == cols then [Newline] + OutputFrom(opts[1..], 0, cols, maxLen)
               else OutputFrom(opts[1..], col + 1, cols, maxLen))
  {
    if col + 1 == cols {
      var c := Cell(opts[0], maxLen);
      var r := OutputFrom(opts[1..], 0, cols, maxLen);
      assert c + [Newline] + r == c + ([Newline] + r);
    }
  }

  /** The calls printOptions makes for `options`, on a console `width` wide. */
  function Output(options: seq<string>, width: int): seq<Out>
    requires width >= 1
  {
    var sorted := Sort(options);
    OutputFrom(sorted, 0, Columns(width, MaxLen(sorted)), MaxLen(sorted))
  }

  // ---------------------------------------------------------------------
  // The rows that appear
  // ---------------------------------------------------------------------

  function Concat(ss: seq<string>): string
    decreases |ss|
  {
    if ss == [] then "" else ss[0] + Concat(ss[1..])
  }

  /** An option padded with blanks to `size` cells. */
  function Pad(s: string, size: int): string {
    s + seq(if size - |s| <= 0 then 0 else size - |s|, _ => ' ')
  }

  function Pads(opts: seq<string>, size: int): (r: seq<string>)
    ensures |r| == |opts| && forall i :: 0 <= i < |r| ==> r[i] == Pad(opts[i], size)
  {
    seq(|opts|, i requires 0 <= i < |opts| => Pad(opts[i], size))
  }

  /** The reference layout: rows of `cols` padded options, the last one
      possibly shorter. */
  function Chunks(cells: seq<string>, cols: int): seq<string>
    requires cols >= 1
    decreases |cells|
  {
    if cells == [] then []
    else if |cells| <= cols then [Concat(cells)]
    else [Concat(cells[..cols])] + Chunks(cells[cols..], cols)
  }

  /** The text rows a sequence of calls leaves behind when each Println
      ends a row; `cur` is the row written so far. */
  function Lines(out: seq<Out>, cur: string): seq<string>
    decreases |out|
  {
    if out == [] then []
    else match out[0]
      case Text(s) => Lines(out[1..], cur + s)
      case Newline => [cur] + Lines(out[1..], "")
  }

  function Blanks(k: int): string {
    seq(if k <= 0 then 0 else k, _ => ' ')
  }

  lemma {:induction false} LinesSpaces(k: int, rest: seq<Out>, cur: string)
    ensures Lines(Spaces(k) + rest, cur) == Lines(rest, cur + Blanks(k))
    decreases if k <= 0 then 0 else k
  {
    if k > 0 {
      var sp := Spaces(k);
      assert (sp + rest)[0] == Text(" ");
      assert (sp + rest)[1..] == Spaces(k - 1) + rest;
      LinesSpaces(k - 1, rest, cur + " ");
      assert " " + Blanks(k - 1) == Blanks(k);
      assert cur + " " + Blanks(k - 1) == cur + (" " + Blanks(k - 1));
    } else {
      assert Spaces(k) + rest == rest;
      assert cur + Blanks(k) == cur;
    }
  }

  lemma LinesCell(option: string, maxLen: nat, rest: seq<Out>, cur: string)
    ensures Lines(Cell(option, maxLen) + rest, cur) == Lines(rest, cur + Pad(option, maxLen + ColumnPad))
  {
    var c := Cell(option, maxLen);
    assert (c + rest)[0] == Text(option);
    assert (c + rest)[1..] == Spaces(maxLen + ColumnPad - |option|) + rest;
    LinesSpaces(maxLen + ColumnPad - |option|, rest, cur + option);
    assert Pad(option, maxLen + ColumnPad) == option + Blanks(maxLen + ColumnPad - |option|);
    assert cur + option + Blanks(maxLen + ColumnPad - |option|) == cur + (option + Blanks(maxLen + ColumnPad - |option|));
  }

  lemma {:induction false} ConcatSplit(ss: seq<string>, k: nat)
    requires 1 <= k <= |ss|
    ensures Concat(ss[..k]) == ss[0] + Concat(ss[1..k])
  {
    assert ss[..k][1..] == ss[1..k];
  }

  /** The rows left behind when `cells` follow `col` cells already on the
      current row `cur`: the current row is finished first. */
  function RowsFrom(cells: seq<string>, col: nat, cols: int, cur: string): seq<string>
    requires col < cols
  {
    var room := cols - col;
    if cells == [] then (if col != 0 then [cur] else [])
    else if |cells| < room then [cur + Concat(cells)]
    else [cur + Concat(cells[..room])] + Chunks(cells[room..], cols)
  }

  /** From the start of a row, RowsFrom is the reference layout. */
  lemma RowsFromStart(cells: seq<string>, cols: int)
    requires cols >= 1
    ensures RowsFrom(cells, 0, cols, "") == Chunks(cells, cols)
  {
    if cells == [] {
    } else if |cells| < cols {
      assert "" + Concat(cells) == Concat(cells);
      assert RowsFrom(cells, 0, cols, "") == [Concat(cells)];
    } else {
      var row := Concat(cells[..cols]);
      assert "" + row == row;
      assert RowsFrom(cells, 0, cols, "") == [row] + Chunks(cells[cols..], cols);
      if |cells| == cols {
        assert cells[..cols] == cells && cells[cols..] == [];
        assert Chunks(cells, cols) == [row];
      } else {
        assert Chunks(cells, cols) == [row] + Chunks(cells[cols..], cols);
      }
    }
  }

  /** Placing one more cell on the row. */
  lemma RowsFromStep(p: string, tail: seq<string>, col: nat, cols: int, cur: string)
    requires col < cols
    ensures col + 1 == cols ==> RowsFrom([p] + tail, col, cols, cur) == [cur + p] + Chunks(tail, cols)
    ensures col + 1 < cols ==> RowsFrom([p] + tail, col, cols, cur) == RowsFrom(tail, col + 1, cols, cur + p)
  {
    if col + 1 == cols {
      RowsFromLast(p, tail, col, cols, cur);
    } else if |tail| + 1 < cols - col {
      RowsFromShort(p, tail, col, cols, cur);
    } else {
      RowsFromLong(p, tail, col, cols, cur);
    }
  }

  /** The cell that fills the row ends it. */
  lemma RowsFromLast(p: string, tail: seq<string>, col: nat, cols: int, cur: string)
    requires col + 1 == cols
    ensures RowsFrom([p] + tail, col, cols, cur) == [cur + p] + Chunks(tail, cols)
  {
    var cells := [p] + tail;
    assert cells[..1] == [p];
    assert Concat([p]) == p + Concat([]);
    assert p + "" == p;
    assert cells[1..] == tail;
  }

  /** All the cells fit on the current row. */
  lemma RowsFromShort(p: string, tail: seq<string>, col: nat, cols: int, cur: string)
    requires col + 1 < cols && |tail| + 1 < cols - col
    ensures RowsFrom([p] + tail, col, cols, cur) == RowsFrom(tail, col + 1, cols, cur + p)
  {
    var cells := [p] + tail;
    if tail == [] {
      assert Concat(cells) == p + Concat([]);
      assert p + "" == p;
    } else {
      ConcatSplit(cells, |cells|);
      assert cells[..|cells|] == cells;
      assert cells[1..|cells|] == tail;
      assert cur + p + Concat(tail) == cur + (p + Concat(tail));
    }
  }

  /** The cells fill the current row and go on below it. */
  lemma RowsFromLong(p: string, tail: seq<string>, col: nat, cols: int, cur: string)
    requires col + 1 < cols && |tail| + 1 >= cols - col
    ensures RowsFrom([p] + tail, col, cols, cur) == RowsFrom(tail, col + 1, cols, cur + p)
  {
    var cells := [p] + tail;
    var room := cols - col;
    ConcatSplit(cells, room);
    assert cells[1..room] == tail[..room - 1];
    assert cells[room..] == tail[room - 1..];
    assert cur + p + Concat(cells[1..room]) == cur + (p + Concat(cells[1..room]));
  }

  /** Mid-row, the calls finish the current row with the next options and
      then lay out the rest from the start of a row. */
  lemma {:induction false} OutputFromRows(opts: seq<string>, col: nat, cols: int, maxLen: nat, cur: string)
    requires col < cols
    ensures Lines(OutputFrom(opts, col, cols, maxLen), cur) == RowsFrom(Pads(opts, maxLen + ColumnPad), col, cols, cur)
    decreases |opts|
  {
    if opts == [] {
      if col != 0 {
        assert Lines([Newline], cur) == [cur] + Lines([], "");
      }
    } else {
      var p := Pad(opts[0], maxLen + ColumnPad);
      var cells := Pads(opts, maxLen + ColumnPad);
      var tail := Pads(opts[1..], maxLen + ColumnPad);
      assert cells == [p] + tail;
      RowsFromStep(p, tail, col, cols, cur);
      if col + 1 == cols {
        var rest := OutputFrom(opts[1..], 0, cols, maxLen);
        assert Cell(opts[0], maxLen) + [Newline] + rest == Cell(opts[0], maxLen) + ([Newline] + rest);
        LinesCell(opts[0], maxLen, [Newline] + rest, cur);
        OutputFromRows(opts[1..], 0, cols, maxLen, "");
        RowsFromStart(tail, cols);
      } else {
        LinesCell(opts[0], maxLen, OutputFrom(opts[1..], col + 1, cols, maxLen), cur);
        OutputFromRows(opts[1..], col + 1, cols, maxLen, cur + p);
      }
    }
  }

  /** The rows printOptions leaves are the padded options in rows of
      numColumns, the last possibly shorter. */
  lemma OutputIsChunked(options: seq<string>, width: int)
    requires width >= 1
    ensures var sorted := Sort(options);
      var maxLen := MaxLen(sorted);
      Lines(Output(options, width), "") == Chunks(Pads(sorted, maxLen + ColumnPad), Columns(width, maxLen))
  {
    var sorted := Sort(options);
    var maxLen := MaxLen(sorted);
    RowsOfOutput(sorted, Columns(width, maxLen), maxLen);
  }

  /** printOptions makes no call for no options, and otherwise its last
      call is the Println that closes the last row. */
  lemma OutputEndsLine(options: seq<string>, width: int)
    requires width >= 1
    ensures var out := Output(options, width);
      (options == [] <==> out == []) && (out != [] ==> out[|out| - 1] == Newline)
  {
    var sorted := Sort(options);
    var maxLen := MaxLen(sorted);
    OutputEndsRow(sorted, 0, Columns(width, maxLen), maxLen);
  }

  /** Every option padded to the longest length plus column_pad has exactly
      that width. */
  lemma PadsWide(opts: seq<string>)
    ensures forall i :: 0 <= i < |opts| ==> |Pad(opts[i], MaxLen(opts) + ColumnPad)| == MaxLen(opts) + ColumnPad
  {
    MaxLenIsLongest(opts);
  }

  /** From the start of a row, the calls leave the reference rows. */
  lemma RowsOfOutput(opts: seq<string>, cols: int, maxLen: nat)
    requires cols >= 1
    ensures Lines(OutputFrom(opts, 0, cols, maxLen), "") == Chunks(Pads(opts, maxLen + ColumnPad), cols)
  {
    OutputFromRows(opts, 0, cols, maxLen, "");
    RowsFromStart(Pads(opts, maxLen + ColumnPad), cols);
  }

  lemma {:induction false} OutputEndsRow(opts: seq<string>, col: nat, cols: int, maxLen: nat)
    requires col < cols
    ensures var out := OutputFrom(opts, col, cols, maxLen);
      (out == [] <==> opts == [] && col == 0) && (out != [] ==> out[|out| - 1] == Newline)
    decreases |opts|
  {
    if opts != [] {
      if col + 1 == cols {
        OutputEndsRow(opts[1..], 0, cols, maxLen);
      } else {
        OutputEndsRow(opts[1..], col + 1, cols, maxLen);
      }
    }
  }

  // ---------------------------------------------------------------------
  // Drawing the calls
  // ---------------------------------------------------------------------

  /** The screen after making the calls `out` in order. */
  function Emit(w: Display.Widget, s: Display.Screen, out: seq<Out>): Display.Screen
    requires w.width > 0
    decreases |out|
  {
    if out == [] then s
    else match out[0]
      case Text(str) => Emit(w, Display.Print(w, s, str), out[1..])
      case Newline => Emit(w, Display.Println(w, s, ""), out[1..])
  }

  /** Emitting two runs of calls is emitting one after the other. */
  lemma {:induction false} EmitAppend(w: Display.Widget, s: Display.Screen, a: seq<Out>, b: seq<Out>)
    requires w.width > 0
    ensures Emit(w, s, a + b) == Emit(w, Emit(w, s, a), b)
    decreases |a|
  {
    if a == [] {
      assert a + b == b;
    } else {
      assert (a + b)[0] == a[0] && (a + b)[1..] == a[1..] + b;
      match a[0]
      case Text(str) => EmitAppend(w, Display.Print(w, s, str), a[1..], b);
      case Newline => EmitAppend(w, Display.Println(w, s, ""), a[1..], b);
    }
  }

  /** k > 0 blanks are one blank and k - 1 more. */
  lemma SpacesCons(k: int)
    requires k > 0
    ensures Spaces(k) == [Text(" ")] + Spaces(k - 1)
  {
  }

  /** The order the options arrive in does not matter: the same options in
      any order produce the same calls. */
  lemma OutputOrderFree(a: seq<string>, b: seq<string>, width: int)
    requires width >= 1 && multiset(a) == multiset(b)
    ensures Output(a, width) == Output(b, width)
  {
    SortedUnique(Sort(a), Sort(b));
  }

  /** Some sequence holding exactly the strings of `m`. */
  ghost function SeqOf(m: multiset<string>): (s: seq<string>)
    ensures multiset(s) == m
    decreases |m|
  {
    if m == multiset{} then []
    else
      var x :| x in m;
      SeqOf(m - multiset{x}) + [x]
  }

  /** The calls printOptions makes for a collection of matches. */
  ghost function OutputOf(m: multiset<string>, width: int): seq<Out>
    requires width >= 1
  {
    Output(SeqOf(m), width)
  }
}
