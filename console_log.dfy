/** The console log: the text lines shown in the window, written through a cursor. */
module ConsoleLog {

  /** Number of empty slots the log starts with. */
  const InitialSlots: nat := 30

  /** The cursor never counts past this; from then on every line pops the oldest entry. */
  const CursorCap: nat := 2000

  /** The log (`console_log`) and its write cursor (`console_log_iter`).
      A line is kept as its bytes, which were checked to be valid text. */
  datatype Log = Log(lines: seq<seq<bv8>>, cursor: nat)

  function Max(a: int, b: int): int { if a < b then b else a }

  /** The cursor stays at or below the cap and the log never holds more entries
      than the larger of its initial slot count and the cursor. */
  predicate Inv(c: Log)
  {
    c.cursor <= CursorCap && |c.lines| <= Max(InitialSlots, c.cursor)
  }

  /** The log the session starts with: 30 empty slots, cursor at 0. */
  function Initial(): (c: Log)
    ensures Inv(c) && |c.lines| == InitialSlots && c.cursor == 0
  {
    Log(seq(InitialSlots, _ => []), 0)
  }

  /** `pop_front` of a `VecDeque`: no effect on an empty log. */
  function PopFront(lines: seq<seq<bv8>>): (r: seq<seq<bv8>>)
    ensures lines == [] ==> r == []
    ensures lines != [] ==> [lines[0]] + r == lines
  {
    if lines == [] then [] else lines[1..]
  }

  /** One text segment of at least two bytes reaches the log. A valid line is written
      at the cursor while the cursor is inside the log and pushed at the back otherwise;
      an invalid one is dropped. Either way the cursor then moves on, or, at the cap,
      the oldest entry is popped. */
  function LogLine(c: Log, line: seq<bv8>, isText: bool): Log
  {
    var lines :=
      if !isText then c.lines
      else if c.cursor < |c.lines| then c.lines[c.cursor := line]
      else c.lines + [line];
    if c.cursor < CursorCap then Log(lines, c.cursor + 1) else Log(PopFront(lines), c.cursor)
  }

  /** Logging a line keeps the bound: the log never holds more than 2000 entries. */
  lemma LogLineKeepsInv(c: Log, line: seq<bv8>, isText: bool)
    requires Inv(c)
    ensures Inv(LogLine(c, line, isText))
    ensures |LogLine(c, line, isText).lines| <= CursorCap
  {
  }

  /** How the length of the log moves: unchanged while the cursor is inside the log,
      one more on a push below the cap, unchanged at the cap for a valid line (push, then pop)
      and one fewer, if not already empty, for an invalid one (pop only). */
  lemma LogLineLength(c: Log, line: seq<bv8>, isText: bool)
    requires Inv(c)
    ensures var r := LogLine(c, line, isText);
      r.cursor == (if c.cursor < CursorCap then c.cursor + 1 else c.cursor) &&
      (c.cursor < CursorCap && (!isText || c.cursor < |c.lines|) ==> |r.lines| == |c.lines|) &&
      (c.cursor < CursorCap && isText && c.cursor >= |c.lines| ==> |r.lines| == |c.lines| + 1) &&
      (c.cursor >= CursorCap && isText ==> |r.lines| == |c.lines|) &&
      (c.cursor >= CursorCap && !isText ==> |r.lines| == Max(0, |c.lines| - 1))
  {
  }

  /** Where a valid line lands: in the slot under the cursor while the cursor is inside
      the log, otherwise at the back; every other entry keeps its place, except that at
      the cap all entries move one place to the front. */
  lemma LogLineContents(c: Log, line: seq<bv8>)
    requires Inv(c)
    ensures var r := LogLine(c, line, true);
      (c.cursor < |c.lines| ==>
        |r.lines| == |c.lines| && r.lines[c.cursor] == line &&
        forall i :: 0 <= i < |c.lines| && i != c.cursor ==> r.lines[i] == c.lines[i]) &&
      (|c.lines| <= c.cursor < CursorCap ==> r.lines == c.lines + [line]) &&
      (c.cursor == CursorCap ==> r.lines == (c.lines + [line])[1..])
  {
  }

  /** A dropped line leaves every entry where it was below the cap. */
  lemma InvalidLineKeepsEntries(c: Log, line: seq<bv8>)
    requires c.cursor < CursorCap
    ensures LogLine(c, line, false) == Log(c.lines, c.cursor + 1)
  {
  }
}
