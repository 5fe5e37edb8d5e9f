/**
 * The command history of a console (console/console_events.go): a ring of
 * 100 slots written by executeLine and browsed by the arrow keys, stated on
 * values. The Console class keeps the same state in its fields and is
 * proved equal to these functions.
 */
module History {

  /** bufferSize: how many executed lines the ring keeps. */
  const BufferSize := 100

  /** lineBuffer, bufferIdx, diff and oldLineCopy of a console. */
  datatype Ring = Ring(slots: seq<string>, idx: int, diff: int, draft: string)

  function Min(a: int, b: int): int {
    if a <= b then a else b
  }

  /** The browse offset never points before the oldest line kept, nor past
      the line being edited. */
  predicate Inv(r: Ring) {
    |r.slots| == BufferSize && r.idx >= 0 && -Min(BufferSize, r.idx) <= r.diff <= 0
  }

  /** `entries` is every non-empty line executed so far, oldest first: the
      ring holds the last BufferSize of them, entry j in slot j % BufferSize. */
  predicate Holds(r: Ring, entries: seq<string>) {
    |r.slots| == BufferSize && r.idx == |entries| &&
    forall j :: 0 <= j < |entries| && |entries| - BufferSize <= j ==> r.slots[j % BufferSize] == entries[j]
  }

  /** NewConsole: 100 empty slots, nothing executed, not browsing. */
  function Initial(): (r: Ring)
    ensures Inv(r) && Holds(r, []) && r.diff == 0 && r.draft == ""
  {
    Ring(seq(BufferSize, _ => ""), 0, 0, "")
  }

  /** The history part of executeLine: a non-empty line goes into the next
      slot; browsing ends. */
  function Record(r: Ring, line: string): Ring
    requires |r.slots| == BufferSize && r.idx >= 0
  {
    var stored := if |line| > 0 then r.(slots := r.slots[r.idx % BufferSize := line], idx := r.idx + 1) else r;
    stored.(diff := 0, draft := "")
  }

  /** executeLine records exactly the non-empty lines, keeps the last 100 of
      them readable, and leaves the ring untouched for an empty line. */
  lemma RecordHolds(r: Ring, entries: seq<string>, line: string)
    requires Inv(r) && Holds(r, entries)
    ensures var r' := Record(r, line);
      Inv(r') && r'.diff == 0 && r'.draft == "" &&
      Holds(r', if |line| > 0 then entries + [line] else entries) &&
      (|line| == 0 ==> r'.slots == r.slots && r'.idx == r.idx) &&
      (|line| > 0 ==> r'.slots[r.idx % BufferSize] == line && r'.idx == r.idx + 1)
  {
    if |line| > 0 {
      var e := entries + [line];
      var r' := Record(r, line);
      forall j | 0 <= j < |e| && |e| - BufferSize <= j
        ensures r'.slots[j % BufferSize] == e[j]
      {
        if j < |entries| {
          assert j % BufferSize != r.idx % BufferSize by {
            assert r.idx - BufferSize < j < r.idx;
          }
        }
      }
    }
  }

  /** doArrowUp acts only while an older kept line exists. */
  predicate CanGoUp(r: Ring) {
    BufferSize + r.diff > 0 && r.idx + r.diff > 0
  }

  /** The history part of doArrowUp: save the draft on the first press,
      step back, and load that slot. The result is the new ring and line. */
  function Up(r: Ring, line: string): (p: (Ring, string))
    requires Inv(r)
    ensures Inv(p.0) && p.0.slots == r.slots && p.0.idx == r.idx
  {
    if CanGoUp(r) then
      var r' := r.(diff := r.diff - 1, draft := if r.diff == 0 then line else r.draft);
      (r', r.slots[(r.idx + r'.diff) % BufferSize])
    else (r, line)
  }

  /** The history part of doArrowDown: step forward and load that slot, or
      the saved draft when the step reaches the line being edited. */
  function Down(r: Ring, line: string): (p: (Ring, string))
    requires Inv(r)
    ensures Inv(p.0) && p.0.slots == r.slots && p.0.idx == r.idx
  {
    if r.diff < -1 then
      var r' := r.(diff := r.diff + 1);
      (r', r.slots[(r.idx + r'.diff) % BufferSize])
    else if r.diff == -1 then (r.(diff := 0), r.draft)
    else (r, line)
  }

  /** The arrow keys keep the browse offset in range and never change the
      slots; an up-press loads the line it steps onto, which was recorded
      (never an unwritten slot), and saves the draft only on the first press. */
  lemma UpLoadsRecorded(r: Ring, entries: seq<string>, line: string)
    requires Inv(r) && Holds(r, entries)
    ensures var (r', l') := Up(r, line);
      Inv(r') && Holds(r', entries) &&
      (CanGoUp(r) ==>
         r'.diff == r.diff - 1 && l' == entries[r.idx + r'.diff] &&
         r'.draft == (if r.diff == 0 then line else r.draft)) &&
      (!CanGoUp(r) ==> r' == r && l' == line)
  {
  }

  /** A down-press loads the newer recorded line, or the saved draft when it
      steps back onto the line being edited; at offset 0 it does nothing. */
  lemma DownLoadsRecorded(r: Ring, entries: seq<string>, line: string)
    requires Inv(r) && Holds(r, entries)
    ensures var (r', l') := Down(r, line);
      Inv(r') && Holds(r', entries) && r'.draft == r.draft &&
      (r.diff < -1 ==> r'.diff == r.diff + 1 && l' == entries[r.idx + r'.diff]) &&
      (r.diff == -1 ==> r'.diff == 0 && l' == r.draft) &&
      (r.diff == 0 ==> r' == r && l' == line)
  {
  }

  /** While browsing, the line shown is the recorded line the offset points
      at and the draft is kept; at offset 0 the line is the draft. */
  predicate Browsing(r: Ring, entries: seq<string>, draft0: string, line: string) {
    (r.diff == 0 && line == draft0) ||
    (r.diff < 0 && r.draft == draft0 && 0 <= r.idx + r.diff < |entries| && line == entries[r.idx + r.diff])
  }

  /** k presses of the up arrow. */
  function UpN(r: Ring, line: string, k: nat): (p: (Ring, string))
    requires Inv(r)
    ensures Inv(p.0) && p.0.slots == r.slots && p.0.idx == r.idx
  {
    if k == 0 then (r, line)
    else
      var p := UpN(r, line, k - 1);
      Up(p.0, p.1)
  }

  /** k presses of the down arrow. */
  function DownN(r: Ring, line: string, k: nat): (p: (Ring, string))
    requires Inv(r)
    ensures Inv(p.0) && p.0.slots == r.slots && p.0.idx == r.idx
  {
    if k == 0 then (r, line)
    else
      var p := DownN(r, line, k - 1);
      Down(p.0, p.1)
  }

  /** From the line being edited, up to min(100, bufferIdx) up-presses each
      take effect: the k-th shows the k-th most recent executed line. */
  lemma {:induction false} UpNBrowses(r: Ring, entries: seq<string>, line: string, k: nat)
    requires Inv(r) && Holds(r, entries) && r.diff == 0
    requires k <= Min(BufferSize, r.idx)
    ensures var p := UpN(r, line, k);
      p.0.diff == 0 - k && Holds(p.0, entries) && Browsing(p.0, entries, line, p.1) &&
      (k > 0 ==> p.1 == entries[|entries| - k])
    decreases k
  {
    if k > 0 {
      UpNBrowses(r, entries, line, k - 1);
      var p := UpN(r, line, k - 1);
      UpLoadsRecorded(p.0, entries, p.1);
    }
  }

  /** Down-presses keep the browsing invariant and each brings the offset
      one step back towards the line being edited. */
  lemma {:induction false} DownNBrowses(r: Ring, entries: seq<string>, draft0: string, line: string, k: nat)
    requires Inv(r) && Holds(r, entries) && Browsing(r, entries, draft0, line)
    ensures var p := DownN(r, line, k);
      Holds(p.0, entries) && Browsing(p.0, entries, draft0, p.1) &&
      p.0.diff == (if r.diff + k <= 0 then r.diff + k else 0)
    decreases k
  {
    if k > 0 {
      DownNBrowses(r, entries, draft0, line, k - 1);
      var p := DownN(r, line, k - 1);
      DownLoadsRecorded(p.0, entries, p.1);
    }
  }

  /** k effective up-presses followed by k down-presses bring back the line
      that was being edited, and the console is no longer browsing. */
  lemma UpThenDownRestoresDraft(r: Ring, entries: seq<string>, line: string, k: nat)
    requires Inv(r) && Holds(r, entries) && r.diff == 0
    requires k <= Min(BufferSize, r.idx)
    ensures var u := UpN(r, line, k);
      var d := DownN(u.0, u.1, k);
      d.1 == line && d.0.diff == 0 && d.0.slots == r.slots && d.0.idx == r.idx
  {
    UpNBrowses(r, entries, line, k);
    var u := UpN(r, line, k);
    DownNBrowses(u.0, entries, line, u.1, k);
  }
}
