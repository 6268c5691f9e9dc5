/** The byte-stream framer as a function of its state: what scanning one read chunk
    from left to right does to the pending tail, the raw-frame bookkeeping, the console
    log and the telemetry. Text segments end at 0x0A, 0x0D or 0xFE; a 0xFE outside a
    frame starts a binary frame, whose length byte sits 4 bytes past the marker and
    which closes 8 + length bytes past the marker. */
module StreamFramer {
  import opened Checksum
  import opened FrameDecoder
  import ConsoleLog

  /** Size of the read buffer: no chunk is longer. */
  const ReadBufferSize: nat := 1000

  /** The byte that starts a binary frame. */
  const FrameMarker: bv8 := 0xFE

  /** Offset of the length byte from the marker. */
  const LengthOffset: nat := 4

  /** A frame closes once the offset from its marker reaches its length plus this. */
  const CloseOverhead: nat := 8

  predicate IsDelimiter(b: bv8)
  {
    b == 0x0A || b == 0x0D || b == FrameMarker
  }

  /** The state carried from one chunk to the next: the pending tail (`last_incomplete_msg`,
      empty for `None`: it is only ever set to a non-empty slice), whether a frame is being
      read, the marker's position relative to the current chunk (an `i32`, possibly negative)
      and the captured length byte (0 until captured). */
  datatype Framer = Framer(pending: seq<bv8>, readingRaw: bool, rawStartIdx: int, rawSize: int)

  /** Everything a chunk can change. */
  datatype State = State(framer: Framer, log: ConsoleLog.Log, tel: Telemetry)

  /** Where the scan stands after some bytes of a chunk: the state and the start of the
      current segment (`buf_lower_iter`), or a panic inside the decoder. */
  datatype Cursor = Scanning(st: State, lower: nat) | Panicked

  /** The result of one whole chunk. */
  datatype Outcome = Fed(st: State) | Panic

  /** The captured length is a byte and is 0 outside a frame; the marker position stays
      strictly between -1000 and 1000, so the `i32` arithmetic on it never overflows. */
  predicate FramerInv(f: Framer)
  {
    0 <= f.rawSize < 256 && (!f.readingRaw ==> f.rawSize == 0) &&
    -(ReadBufferSize as int) < f.rawStartIdx < ReadBufferSize
  }

  predicate Inv(s: State)
  {
    FramerInv(s.framer) && ConsoleLog.Inv(s.log)
  }

  /** The session's state before the first chunk. */
  function Initial(): (s: State)
    ensures Inv(s) && s.framer.pending == [] && !s.framer.readingRaw
  {
    State(Framer([], false, 0, 0), ConsoleLog.Initial(), FrameDecoder.Initial())
  }

  /** The bytes of the chunk a segment ending at `i` contributes: the byte just before
      the delimiter is left out, and a gap of at most one byte contributes nothing. */
  function Segment(chunk: seq<bv8>, lower: nat, i: nat): (r: seq<bv8>)
    requires lower <= i <= |chunk|
    ensures i - lower > 1 ==> |r| == i - lower - 1 && r == chunk[lower..i - 1]
    ensures i - lower <= 1 ==> r == []
  {
    if i - lower > 1 then chunk[lower..i - 1] else []
  }

  /** A frame has been assembled at position `i`: the pending tail is cleared, the frame
      state reset, and the frame decoded only if its checksum passes. */
  function CloseFrame(s: State, frame: seq<bv8>, i: nat): (c: Cursor)
    ensures c.Panicked? <==> XorAll(frame) == 0 && |frame| < NeededLength(frame)
    ensures c.Scanning? ==>
      c.lower == i && c.st.log == s.log &&
      c.st.framer == s.framer.(pending := [], readingRaw := false, rawSize := 0) &&
      c.st.tel == (if XorAll(frame) == 0 then Decode(s.tel, frame) else s.tel)
  {
    var fr := s.framer.(pending := [], readingRaw := false, rawSize := 0);
    if XorAll(frame) != 0 then Scanning(s.(framer := fr), i)
    else if |frame| < NeededLength(frame) then Panicked
    else Scanning(State(fr, s.log, Decode(s.tel, frame)), i)
  }

  /** One iteration of the scan loop, at position `i` of `chunk`. */
  function Step(s: State, lower: nat, chunk: seq<bv8>, i: nat, isText: seq<bv8> -> bool): (c: Cursor)
    requires lower <= i < |chunk|
    ensures c.Scanning? ==> c.lower <= i + 1
  {
    var fr := s.framer;
    if fr.readingRaw then
      var size := if fr.rawSize == 0 && i - fr.rawStartIdx == LengthOffset then chunk[i] as int else fr.rawSize;
      var s' := s.(framer := fr.(rawSize := size));
      if i - fr.rawStartIdx >= size + CloseOverhead then CloseFrame(s', fr.pending + Segment(chunk, lower, i), i)
      else Scanning(s', lower)
    else if IsDelimiter(chunk[i]) then
      var s' :=
        if i - lower > 1 then
          var line := fr.pending + Segment(chunk, lower, i);
          State(fr.(pending := []), ConsoleLog.LogLine(s.log, line, isText(line)), s.tel)
        else s;
      if chunk[i] == FrameMarker then Scanning(s'.(framer := s'.framer.(readingRaw := true, rawStartIdx := i)), i)
      else Scanning(s', i + 1)
    else Scanning(s, lower)
  }

  /** The scan after the first `n` bytes of `chunk`. The segment start never passes the
      position, so every slice the loop takes is well formed and no subtraction underflows. */
  function ScanTo(s: State, chunk: seq<bv8>, n: nat, isText: seq<bv8> -> bool): (c: Cursor)
    requires n <= |chunk|
    ensures c.Scanning? ==> c.lower <= n
  {
    if n == 0 then Scanning(s, 0)
    else
      match ScanTo(s, chunk, n - 1, isText)
      case Panicked => Panicked
      case Scanning(s', lower) => Step(s', lower, chunk, n - 1, isText)
  }

  /** After the scan: a non-empty leftover replaces the pending tail, and only then is the
      marker position moved back by the chunk length, and only if it is positive. */
  function Finish(s: State, lower: nat, chunk: seq<bv8>): State
    requires lower <= |chunk|
  {
    if lower < |chunk| then
      var fr := s.framer;
      s.(framer := fr.(pending := chunk[lower..],
                       rawStartIdx := if fr.rawStartIdx > 0 then fr.rawStartIdx - |chunk| else fr.rawStartIdx))
    else s
  }

  /** Handing one read chunk to the session. */
  function FeedChunk(s: State, chunk: seq<bv8>, isText: seq<bv8> -> bool): Outcome
  {
    match ScanTo(s, chunk, |chunk|, isText)
    case Panicked => Panic
    case Scanning(s', lower) => Fed(Finish(s', lower, chunk))
  }

  // ---------------------------------------------------------------------------
  // One iteration at a time

  /** A 0xFE outside a frame starts one: the flag is set, the marker position and the
      segment start become its position, the length is not yet captured, and the text
      before it is logged (and the pending tail cleared) exactly when the gap exceeds one. */
  lemma MarkerStartsFrame(s: State, lower: nat, chunk: seq<bv8>, i: nat, isText: seq<bv8> -> bool)
    requires Inv(s) && lower <= i < |chunk|
    requires !s.framer.readingRaw && chunk[i] == FrameMarker
    ensures var c := Step(s, lower, chunk, i, isText);
      c.Scanning? && c.lower == i && c.st.tel == s.tel &&
      c.st.framer.readingRaw && c.st.framer.rawStartIdx == i && c.st.framer.rawSize == 0 &&
      (i - lower <= 1 ==> c.st.framer.pending == s.framer.pending && c.st.log == s.log) &&
      (i - lower > 1 ==>
        var line := s.framer.pending + chunk[lower..i - 1];
        c.st.framer.pending == [] && c.st.log == ConsoleLog.LogLine(s.log, line, isText(line)))
  {
  }

  /** Inside a frame the length byte is captured once, at offset 4 and only while none has
      been captured; before the closing offset nothing else changes. */
  lemma InsideFrame(s: State, lower: nat, chunk: seq<bv8>, i: nat, isText: seq<bv8> -> bool)
    requires lower <= i < |chunk| && s.framer.readingRaw
    ensures var c := Step(s, lower, chunk, i, isText);
      var captured := s.framer.rawSize == 0 && i - s.framer.rawStartIdx == 4;
      var size := if captured then chunk[i] as int else s.framer.rawSize;
      (i - s.framer.rawStartIdx < size + 8 ==>
        c == Scanning(s.(framer := s.framer.(rawSize := size)), lower)) &&
      (captured ==> i - s.framer.rawStartIdx < size + 8)
  {
  }

  /** At offset `size + 8` or more the frame is emitted as the pending tail followed by
      `chunk[lower..i-1]`; the pending tail is cleared, the flag and the size reset, the
      segment restarts at `i`, and the frame is decoded only if its checksum passes. */
  lemma FrameCloses(s: State, lower: nat, chunk: seq<bv8>, i: nat, isText: seq<bv8> -> bool)
    requires lower <= i < |chunk| && s.framer.readingRaw
    requires s.framer.rawSize != 0 || i - s.framer.rawStartIdx != 4
    requires i - s.framer.rawStartIdx >= s.framer.rawSize + 8
    ensures var c := Step(s, lower, chunk, i, isText);
      var frame := s.framer.pending + Segment(chunk, lower, i);
      (c.Panicked? <==> XorAll(frame) == 0 && |frame| < NeededLength(frame)) &&
      (c.Scanning? ==>
        c.lower == i && c.st.log == s.log &&
        c.st.framer == s.framer.(pending := [], readingRaw := false, rawSize := 0) &&
        c.st.tel == (if XorAll(frame) == 0 then Decode(s.tel, frame) else s.tel))
  {
  }

  /** A line feed or carriage return outside a frame: with a gap of at most one byte nothing
      is emitted and the pending tail is kept; otherwise the pending tail followed by
      `chunk[lower..i-1]` goes to the log (kept or dropped by the text check, the cursor moving
      on either way) and the pending tail is cleared. The segment restarts after it. */
  lemma LineEnds(s: State, lower: nat, chunk: seq<bv8>, i: nat, isText: seq<bv8> -> bool)
    requires lower <= i < |chunk| && !s.framer.readingRaw
    requires chunk[i] == 0x0A || chunk[i] == 0x0D
    ensures var c := Step(s, lower, chunk, i, isText);
      c.Scanning? && c.lower == i + 1 && c.st.tel == s.tel &&
      (i - lower <= 1 ==> c.st == s) &&
      (i - lower > 1 ==>
        var line := s.framer.pending + chunk[lower..i - 1];
        c.st == State(s.framer.(pending := []), ConsoleLog.LogLine(s.log, line, isText(line)), s.tel))
  {
  }

  /** Any other byte outside a frame changes nothing. */
  lemma OrdinaryByte(s: State, lower: nat, chunk: seq<bv8>, i: nat, isText: seq<bv8> -> bool)
    requires lower <= i < |chunk| && !s.framer.readingRaw && !IsDelimiter(chunk[i])
    ensures Step(s, lower, chunk, i, isText) == Scanning(s, lower)
  {
  }

  /** The end of the scan: a leftover replaces (does not extend) the pending tail and only
      then is a positive marker position moved back by the chunk length; without a leftover
      nothing changes. */
  lemma FinishEffect(s: State, lower: nat, chunk: seq<bv8>)
    requires lower <= |chunk|
    ensures var r := Finish(s, lower, chunk);
      r.log == s.log && r.tel == s.tel &&
      r.framer.readingRaw == s.framer.readingRaw && r.framer.rawSize == s.framer.rawSize &&
      (lower == |chunk| ==> r == s) &&
      (lower < |chunk| ==>
        r.framer.pending == chunk[lower..] && |r.framer.pending| > 0 &&
        r.framer.rawStartIdx == (if s.framer.rawStartIdx > 0 then s.framer.rawStartIdx - |chunk|
                                 else s.framer.rawStartIdx))
  {
  }

  // ---------------------------------------------------------------------------
  // The invariant

  lemma StepKeepsInv(s: State, lower: nat, chunk: seq<bv8>, i: nat, isText: seq<bv8> -> bool)
    requires Inv(s) && lower <= i < |chunk| <= ReadBufferSize
    ensures Step(s, lower, chunk, i, isText).Scanning? ==> Inv(Step(s, lower, chunk, i, isText).st)
  {
    var fr := s.framer;
    if !fr.readingRaw && IsDelimiter(chunk[i]) && i - lower > 1 {
      var line := fr.pending + Segment(chunk, lower, i);
      ConsoleLog.LogLineKeepsInv(s.log, line, isText(line));
    }
  }

  lemma {:induction false} ScanKeepsInv(s: State, chunk: seq<bv8>, n: nat, isText: seq<bv8> -> bool)
    requires Inv(s) && n <= |chunk| <= ReadBufferSize
    ensures ScanTo(s, chunk, n, isText).Scanning? ==> Inv(ScanTo(s, chunk, n, isText).st)
  {
    if n > 0 {
      ScanKeepsInv(s, chunk, n - 1, isText);
      match ScanTo(s, chunk, n - 1, isText)
      case Panicked =>
      case Scanning(s', lower) => StepKeepsInv(s', lower, chunk, n - 1, isText);
    }
  }

  /** Every chunk the read buffer can hold keeps the invariant: the `i32` marker arithmetic
      never overflows, the captured length is a byte, and the log holds at most 2000 lines. */
  lemma FeedKeepsInv(s: State, chunk: seq<bv8>, isText: seq<bv8> -> bool)
    requires Inv(s) && |chunk| <= ReadBufferSize
    ensures FeedChunk(s, chunk, isText).Fed? ==>
      Inv(FeedChunk(s, chunk, isText).st) && |FeedChunk(s, chunk, isText).st.log.lines| <= ConsoleLog.CursorCap
  {
    ScanKeepsInv(s, chunk, |chunk|, isText);
  }

  /** One iteration keeps every telemetry field within the width the source stores it in:
      the only change to the telemetry is the decode of a checksum-valid frame. */
  lemma StepKeepsRange(s: State, lower: nat, chunk: seq<bv8>, i: nat, isText: seq<bv8> -> bool)
    requires InRange(s.tel) && lower <= i < |chunk|
    ensures Step(s, lower, chunk, i, isText).Scanning? ==> InRange(Step(s, lower, chunk, i, isText).st.tel)
  {
    if s.framer.readingRaw {
      var frame := s.framer.pending + Segment(chunk, lower, i);
      if XorAll(frame) == 0 && NeededLength(frame) <= |frame| {
        DecodeKeepsRange(s.tel, frame);
      }
    }
  }

  lemma {:induction false} ScanKeepsRange(s: State, chunk: seq<bv8>, n: nat, isText: seq<bv8> -> bool)
    requires InRange(s.tel) && n <= |chunk|
    ensures ScanTo(s, chunk, n, isText).Scanning? ==> InRange(ScanTo(s, chunk, n, isText).st.tel)
  {
    if n > 0 {
      ScanKeepsRange(s, chunk, n - 1, isText);
      match ScanTo(s, chunk, n - 1, isText)
      case Panicked =>
      case Scanning(s', lower) => StepKeepsRange(s', lower, chunk, n - 1, isText);
    }
  }

  /** Every chunk keeps the `u32`, `u8` and `f32` telemetry fields within their widths,
      so modelling them as unbounded numbers loses nothing. */
  lemma FeedKeepsRange(s: State, chunk: seq<bv8>, isText: seq<bv8> -> bool)
    requires InRange(s.tel)
    ensures FeedChunk(s, chunk, isText).Fed? ==> InRange(FeedChunk(s, chunk, isText).st.tel)
  {
    ScanKeepsRange(s, chunk, |chunk|, isText);
  }

  /** Once the decoder has panicked the rest of the chunk is not scanned. */
  lemma {:induction false} PanicIsFinal(s: State, chunk: seq<bv8>, n: nat, m: nat, isText: seq<bv8> -> bool)
    requires n <= m <= |chunk| && ScanTo(s, chunk, n, isText).Panicked?
    ensures ScanTo(s, chunk, m, isText).Panicked?
  {
    if m > n {
      PanicIsFinal(s, chunk, n, m - 1, isText);
    }
  }

  // ---------------------------------------------------------------------------
  // A frame inside one chunk

  /** From the byte after the marker up to the closing offset, or to the end of the chunk
      when that comes first, the scan only captures the length byte (if the chunk holds it);
      the segment start stays at the marker. */
  lemma {:induction false} FrameInProgress(s0: State, chunk: seq<bv8>, p: nat, k: nat, isText: seq<bv8> -> bool)
    requires p < |chunk|
    requires ScanTo(s0, chunk, p + 1, isText).Scanning?
    requires var c1 := ScanTo(s0, chunk, p + 1, isText);
      c1.lower == p && c1.st.framer.readingRaw && c1.st.framer.rawStartIdx == p && c1.st.framer.rawSize == 0
    requires p + 1 <= k <= |chunk|
    requires p + LengthOffset < |chunk| ==> k <= p + chunk[p + LengthOffset] as int + CloseOverhead
    ensures var c1 := ScanTo(s0, chunk, p + 1, isText);
      ScanTo(s0, chunk, k, isText) ==
        Scanning(c1.st.(framer := c1.st.framer.(rawSize := if k > p + LengthOffset then chunk[p + LengthOffset] as int else 0)), p)
  {
    if k > p + 1 {
      FrameInProgress(s0, chunk, p, k - 1, isText);
    }
  }

  /** A frame whose marker, length byte and closing offset all fall in one chunk: the chunk
      contributes exactly `size + 7` bytes, marker through checksum, appended to the pending
      tail held at the marker, and the frame closes `size + 8` bytes past the marker. */
  lemma FrameWithinChunk(s0: State, chunk: seq<bv8>, p: nat, isText: seq<bv8> -> bool)
    requires Inv(s0) && |chunk| <= ReadBufferSize
    requires p + LengthOffset < |chunk| && chunk[p] == FrameMarker
    requires ScanTo(s0, chunk, p, isText).Scanning? && !ScanTo(s0, chunk, p, isText).st.framer.readingRaw
    requires p + chunk[p + LengthOffset] as int + CloseOverhead < |chunk|
    ensures var size := chunk[p + LengthOffset] as int;
      var close := p + size + CloseOverhead;
      var c1 := ScanTo(s0, chunk, p + 1, isText);
      var frame := chunk[p..close - 1];
      c1.Scanning? && |frame| == size + 7 && frame[LengthOffset] as int == size &&
      ScanTo(s0, chunk, close + 1, isText) ==
        CloseFrame(c1.st.(framer := c1.st.framer.(rawSize := size)), c1.st.framer.pending + frame, close)
  {
    var size := chunk[p + LengthOffset] as int;
    var close := p + size + CloseOverhead;
    ScanKeepsInv(s0, chunk, p, isText);
    var c := ScanTo(s0, chunk, p, isText);
    MarkerStartsFrame(c.st, c.lower, chunk, p, isText);
    var c1 := ScanTo(s0, chunk, p + 1, isText);
    assert c1 == Step(c.st, c.lower, chunk, p, isText);
    FrameInProgress(s0, chunk, p, close, isText);
    var st := c1.st.(framer := c1.st.framer.(rawSize := size));
    assert ScanTo(s0, chunk, close, isText) == Scanning(st, p);
    StepCloses(st, p, chunk, close, isText);
    assert Segment(chunk, p, close) == chunk[p..close - 1];
    assert ScanTo(s0, chunk, close + 1, isText) == Step(st, p, chunk, close, isText);
  }

  /** The closing step of a frame, as one call. */
  lemma StepCloses(s: State, lower: nat, chunk: seq<bv8>, i: nat, isText: seq<bv8> -> bool)
    requires lower <= i < |chunk| && s.framer.readingRaw
    requires i - s.framer.rawStartIdx == s.framer.rawSize + CloseOverhead
    ensures Step(s, lower, chunk, i, isText) == CloseFrame(s, s.framer.pending + Segment(chunk, lower, i), i)
  {
  }

  /** When nothing is pending at the marker, a frame inside one chunk is exactly its
      `size + 7` bytes: the decoder cannot panic on it, and the telemetry is decoded from
      it when its checksum passes and is left alone otherwise. */
  lemma FrameWithinChunkDecoded(s0: State, chunk: seq<bv8>, p: nat, isText: seq<bv8> -> bool)
    requires Inv(s0) && |chunk| <= ReadBufferSize
    requires p + LengthOffset < |chunk| && chunk[p] == FrameMarker
    requires ScanTo(s0, chunk, p, isText).Scanning? && !ScanTo(s0, chunk, p, isText).st.framer.readingRaw
    requires p + chunk[p + LengthOffset] as int + CloseOverhead < |chunk|
    requires ScanTo(s0, chunk, p + 1, isText).Scanning? && ScanTo(s0, chunk, p + 1, isText).st.framer.pending == []
    ensures var close := p + chunk[p + LengthOffset] as int + CloseOverhead;
      var c1 := ScanTo(s0, chunk, p + 1, isText);
      var c := ScanTo(s0, chunk, close + 1, isText);
      var frame := chunk[p..close - 1];
      NeededLength(frame) <= |frame| &&
      c.Scanning? && c.lower == close && c.st.log == c1.st.log && !c.st.framer.readingRaw &&
      c.st.tel == (if XorAll(frame) == 0 then Decode(c1.st.tel, frame) else c1.st.tel)
  {
    FrameWithinChunk(s0, chunk, p, isText);
    var size := chunk[p + LengthOffset] as int;
    var c1 := ScanTo(s0, chunk, p + 1, isText);
    CleanClose(c1.st.(framer := c1.st.framer.(rawSize := size)), chunk[p..p + size + CloseOverhead - 1], p + size + CloseOverhead);
  }

  /** A frame of exactly its declared length, closed with nothing pending before it. */
  lemma CleanClose(st: State, frame: seq<bv8>, close: nat)
    requires st.framer.pending == [] && LengthOffset < |frame| && |frame| == frame[LengthOffset] as int + 7
    ensures var c := CloseFrame(st, st.framer.pending + frame, close);
      NeededLength(frame) <= |frame| &&
      c.Scanning? && c.lower == close && c.st.log == st.log && !c.st.framer.readingRaw &&
      c.st.tel == (if XorAll(frame) == 0 then Decode(st.tel, frame) else st.tel)
  {
    assert st.framer.pending + frame == frame;
  }

  // ---------------------------------------------------------------------------
  // A frame split across two chunks

  /** At the start of the chunk after a split frame (marker position `r` negative), the scan
      keeps reading the frame: the length byte is captured at position `r + 4` if it has not
      been yet, and up to the closing position the segment start stays at 0. */
  lemma {:induction false} FrameContinues(st: State, b: seq<bv8>, size: int, k: nat, isText: seq<bv8> -> bool)
    requires st.framer.readingRaw && st.framer.rawStartIdx < 0
    requires var r := st.framer.rawStartIdx;
      (st.framer.rawSize == 0 && r + LengthOffset >= 0 ==> r + LengthOffset < |b| && size == b[r + LengthOffset] as int) &&
      (st.framer.rawSize != 0 || r + LengthOffset < 0 ==> size == st.framer.rawSize)
    requires 0 <= size && k <= |b| && k <= st.framer.rawStartIdx + size + CloseOverhead
    ensures var r := st.framer.rawStartIdx;
      ScanTo(st, b, k, isText) ==
        Scanning(st.(framer := st.framer.(rawSize := if k > r + LengthOffset then size else st.framer.rawSize)), 0)
  {
    if k > 0 {
      FrameContinues(st, b, size, k - 1, isText);
    }
  }

  /** The chunk that holds the marker, at position `p >= 1`, of a frame that does not close
      in it: the leftover `a[p..]` becomes the pending tail and the marker position is moved
      back to `p - |a|`; the captured length is the length byte if the chunk holds it. */
  lemma MarkerNearEnd(s0: State, a: seq<bv8>, p: nat, isText: seq<bv8> -> bool)
    requires Inv(s0) && |a| <= ReadBufferSize
    requires 1 <= p < |a| && a[p] == FrameMarker
    requires ScanTo(s0, a, p, isText).Scanning? && !ScanTo(s0, a, p, isText).st.framer.readingRaw
    requires p + LengthOffset < |a| ==> |a| < p + a[p + LengthOffset] as int + CloseOverhead
    ensures var first := FeedChunk(s0, a, isText);
      first.Fed? && first.st.tel == ScanTo(s0, a, p, isText).st.tel &&
      first.st.framer ==
        Framer(a[p..], true, p - |a|, if p + LengthOffset < |a| then a[p + LengthOffset] as int else 0)
  {
    ScanKeepsInv(s0, a, p, isText);
    var c0 := ScanTo(s0, a, p, isText);
    MarkerStartsFrame(c0.st, c0.lower, a, p, isText);
    var c1 := ScanTo(s0, a, p + 1, isText);
    assert c1 == Step(c0.st, c0.lower, a, p, isText);
    FrameInProgress(s0, a, p, |a|, isText);
    var sizeA := if p + LengthOffset < |a| then a[p + LengthOffset] as int else 0;
    var sa := c1.st.(framer := c1.st.framer.(rawSize := sizeA));
    assert ScanTo(s0, a, |a|, isText) == Scanning(sa, p);
  }

  /** The chunk in which a split frame closes, at position `c`: the frame is the pending tail
      followed by the segment before the closing byte. */
  lemma FrameClosesLater(st: State, b: seq<bv8>, size: int, c: nat, isText: seq<bv8> -> bool)
    requires st.framer.readingRaw && st.framer.rawStartIdx < 0
    requires var r := st.framer.rawStartIdx;
      (st.framer.rawSize == 0 && r + LengthOffset >= 0 ==> r + LengthOffset < |b| && size == b[r + LengthOffset] as int) &&
      (st.framer.rawSize != 0 || r + LengthOffset < 0 ==> size == st.framer.rawSize)
    requires 0 <= size && c < |b| && c == st.framer.rawStartIdx + size + CloseOverhead
    ensures ScanTo(st, b, c + 1, isText) == CloseFrame(st, st.framer.pending + Segment(b, 0, c), c)
  {
    FrameContinues(st, b, size, c, isText);
    var stc := st.(framer := st.framer.(rawSize := size));
    assert ScanTo(st, b, c, isText) == Scanning(stc, 0);
    StepCloses(stc, 0, b, c, isText);
  }

  /** A frame whose marker sits at position `p >= 1` of chunk `a`, outside a frame, and which
      closes at position `c >= 1` of the next chunk `b`: after `a` the pending tail is exactly
      `a[p..]` and the marker position is `p - |a|`, whether or not the length byte was in `a`;
      in `b` the frame closes as the `size + 7` bytes of `a + b` from the marker through the
      checksum. Whatever was pending before the marker is not part of it. */
  lemma SplitFrame(s0: State, a: seq<bv8>, b: seq<bv8>, p: nat, isText: seq<bv8> -> bool)
    requires Inv(s0) && |a| <= ReadBufferSize
    requires 1 <= p < |a| && a[p] == FrameMarker
    requires ScanTo(s0, a, p, isText).Scanning? && !ScanTo(s0, a, p, isText).st.framer.readingRaw
    requires p + LengthOffset < |a| + |b|
    requires |a| < p + (a + b)[p + LengthOffset] as int + CloseOverhead < |a| + |b|
    ensures var size := (a + b)[p + LengthOffset] as int;
      var c := p + size + CloseOverhead - |a|;
      var first := FeedChunk(s0, a, isText);
      first.Fed? && first.st.tel == ScanTo(s0, a, p, isText).st.tel &&
      first.st.framer == Framer(a[p..], true, p - |a|, if p + LengthOffset < |a| then size else 0) &&
      ScanTo(first.st, b, c + 1, isText) == CloseFrame(first.st, (a + b)[p..p + size + 7], c)
  {
    var size := (a + b)[p + LengthOffset] as int;
    if p + LengthOffset < |a| {
      assert (a + b)[p + LengthOffset] == a[p + LengthOffset];
    }
    MarkerNearEnd(s0, a, p, isText);
    LeftoverCloses(FeedChunk(s0, a, isText).st, a, b, p, isText);
  }

  /** The chunk after `a`, from the state `a` left behind: the frame closes as the `size + 7`
      bytes of `a + b` from the marker through the checksum. */
  lemma LeftoverCloses(st: State, a: seq<bv8>, b: seq<bv8>, p: nat, isText: seq<bv8> -> bool)
    requires 1 <= p < |a| && p + LengthOffset < |a| + |b|
    requires |a| < p + (a + b)[p + LengthOffset] as int + CloseOverhead < |a| + |b|
    requires st.framer ==
      Framer(a[p..], true, p - |a|, if p + LengthOffset < |a| then (a + b)[p + LengthOffset] as int else 0)
    ensures var size := (a + b)[p + LengthOffset] as int;
      var c := p + size + CloseOverhead - |a|;
      ScanTo(st, b, c + 1, isText) == CloseFrame(st, (a + b)[p..p + size + 7], c)
  {
    var size := (a + b)[p + LengthOffset] as int;
    var r := p - |a|;
    var c := r + size + CloseOverhead;
    if p + LengthOffset >= |a| {
      assert st.framer.rawSize == 0 && 0 <= r + LengthOffset < |b|;
      assert size == b[r + LengthOffset] as int;
    } else {
      assert st.framer.rawSize == size && r + LengthOffset < 0;
    }
    FrameClosesLater(st, b, size, c, isText);
    JoinedFrame(a, b, p, c);
    assert st.framer.pending + Segment(b, 0, c) == (a + b)[p..p + size + 7];
  }

  /** The leftover of one chunk followed by the segment of the next before position `c`. */
  lemma JoinedFrame(a: seq<bv8>, b: seq<bv8>, p: nat, c: nat)
    requires p < |a| && 1 <= c <= |b|
    ensures a[p..] + Segment(b, 0, c) == (a + b)[p..|a| + c - 1]
  {
    if c > 1 {
      assert b[..c - 1] == (a + b)[|a|..|a| + c - 1];
    }
  }

  // ---------------------------------------------------------------------------
  // A frame split after its marker

  /** As written, a marker at position 0 of a chunk is never moved back (only a positive
      marker position is), so in the next chunk the offsets count from that chunk's start.
      Here the marker arrives alone; the next 9 bytes put the captured length (0) at the
      frame's offset 5, close it after `[0xFE, 0xFD, 0, 0, 3, 0, 0, 0]`, whose XOR is 0, and
      that 8-byte frame claims type 0 with length 3, so the timestamp read at index 8 panics. */
  lemma SplitMarkerPanics(isText: seq<bv8> -> bool)
    ensures var first := FeedChunk(Initial(), [FrameMarker], isText);
      first.Fed? && first.st.framer == Framer([FrameMarker], true, 0, 0) &&
      FeedChunk(first.st, [0xFD, 0, 0, 3, 0, 0, 0, 0, 0], isText) == Panic
  {
    var s0 := Initial();
    assert ScanTo(s0, [FrameMarker], 1, isText) == Scanning(s0.(framer := Framer([], true, 0, 0)), 0);
    var s1 := s0.(framer := Framer([FrameMarker], true, 0, 0));
    var chunk: seq<bv8> := [0xFD, 0, 0, 3, 0, 0, 0, 0, 0];
    assert ScanTo(s1, chunk, 1, isText) == Scanning(s1, 0);
    assert ScanTo(s1, chunk, 2, isText) == Scanning(s1, 0);
    assert ScanTo(s1, chunk, 3, isText) == Scanning(s1, 0);
    assert ScanTo(s1, chunk, 4, isText) == Scanning(s1, 0);
    assert ScanTo(s1, chunk, 5, isText) == Scanning(s1, 0);
    assert ScanTo(s1, chunk, 6, isText) == Scanning(s1, 0);
    assert ScanTo(s1, chunk, 7, isText) == Scanning(s1, 0);
    assert ScanTo(s1, chunk, 8, isText) == Scanning(s1, 0);
    var frame: seq<bv8> := [0xFE, 0xFD, 0, 0, 3, 0, 0, 0];
    assert s1.framer.pending + Segment(chunk, 0, 8) == frame;
    assert XorAll(frame[..1]) == 0xFE by { assert frame[..1][..0] == []; }
    assert XorAll(frame[..2]) == 0x03 by { assert frame[..2][..1] == frame[..1]; }
    assert XorAll(frame[..4]) == 0x03 by { assert frame[..4][..3] == frame[..3] && frame[..3][..2] == frame[..2]; }
    assert XorAll(frame[..5]) == 0 by { assert frame[..5][..4] == frame[..4]; }
    assert XorAll(frame) == 0 by {
      assert frame[..8][..7] == frame[..7] && frame[..7][..6] == frame[..6] && frame[..6][..5] == frame[..5];
      assert frame == frame[..8];
    }
    assert NeededLength(frame) == 9;
    assert ScanTo(s1, chunk, 9, isText) == Panicked;
  }

  /** A checksum-valid type-0 frame: marker, three header bytes, length 3, type 0, the
      timestamp bytes `01 02 03` and the checksum 0xFD. */
  const TimestampFrame: seq<bv8> := [FrameMarker, 0, 0, 0, 3, 0, 1, 2, 3, 0xFD]

  /** The frame passes its checksum, is long enough for the decoder and carries the
      timestamp 0x030201. */
  lemma TimestampFrameChecks()
    ensures XorAll(TimestampFrame) == 0 && NeededLength(TimestampFrame) == 9 &&
      Timestamp(TimestampFrame) == 0x03_0201
  {
    var frame := TimestampFrame;
    assert XorAll(frame[..1]) == 0xFE by { assert frame[..1][..0] == []; }
    assert XorAll(frame[..2]) == 0xFE by { assert frame[..2][..1] == frame[..1]; }
    assert XorAll(frame[..3]) == 0xFE by { assert frame[..3][..2] == frame[..2]; }
    assert XorAll(frame[..4]) == 0xFE by { assert frame[..4][..3] == frame[..3]; }
    assert XorAll(frame[..5]) == 0xFD by { assert frame[..5][..4] == frame[..4]; }
    assert XorAll(frame[..6]) == 0xFD by { assert frame[..6][..5] == frame[..5]; }
    assert XorAll(frame[..7]) == 0xFC by { assert frame[..7][..6] == frame[..6]; }
    assert XorAll(frame[..8]) == 0xFE by { assert frame[..8][..7] == frame[..7]; }
    assert XorAll(frame[..9]) == 0xFD by { assert frame[..9][..8] == frame[..8]; }
    assert XorAll(frame[..10]) == 0x00 by { assert frame[..10][..9] == frame[..9]; }
    assert frame == frame[..10];
  }

  /** A marker past the start of its chunk is moved back correctly. Here the marker and two
      header bytes end the first chunk; the next chunk carries the length byte (3), type 0,
      the payload `01 02 03`, the checksum 0xFD and the one byte the framer skips before the
      closing offset. The frame is reassembled from the pending tail and decoded: the
      timestamp becomes 0x030201 and the closing byte starts the new pending tail. */
  lemma SplitFrameDecoded(isText: seq<bv8> -> bool)
    ensures var first := FeedChunk(Initial(), [0x0A, FrameMarker, 0, 0], isText);
      first.Fed? && first.st.framer == Framer([FrameMarker, 0, 0], true, -3, 0) &&
      var second := FeedChunk(first.st, [0, 3, 0, 1, 2, 3, 0xFD, 0, 0x0A], isText);
      second.Fed? && second.st.tel.imuTimestamp == 0x03_0201 &&
      second.st.framer == Framer([0x0A], false, -3, 0) && second.st.log == Initial().log
  {
    var s0 := Initial();
    var chunk1: seq<bv8> := [0x0A, FrameMarker, 0, 0];
    assert ScanTo(s0, chunk1, 1, isText) == Scanning(s0, 1);
    var r := s0.(framer := Framer([], true, 1, 0));
    assert ScanTo(s0, chunk1, 2, isText) == Scanning(r, 1);
    assert ScanTo(s0, chunk1, 3, isText) == Scanning(r, 1);
    assert ScanTo(s0, chunk1, 4, isText) == Scanning(r, 1);
    var s1 := s0.(framer := Framer([FrameMarker, 0, 0], true, -3, 0));
    assert FeedChunk(s0, chunk1, isText) == Fed(s1);
    var chunk2: seq<bv8> := [0, 3, 0, 1, 2, 3, 0xFD, 0, 0x0A];
    assert ScanTo(s1, chunk2, 1, isText) == Scanning(s1, 0);
    var s1' := s1.(framer := s1.framer.(rawSize := 3));
    assert ScanTo(s1, chunk2, 2, isText) == Scanning(s1', 0);
    assert ScanTo(s1, chunk2, 3, isText) == Scanning(s1', 0);
    assert ScanTo(s1, chunk2, 4, isText) == Scanning(s1', 0);
    assert ScanTo(s1, chunk2, 5, isText) == Scanning(s1', 0);
    assert ScanTo(s1, chunk2, 6, isText) == Scanning(s1', 0);
    assert ScanTo(s1, chunk2, 7, isText) == Scanning(s1', 0);
    assert ScanTo(s1, chunk2, 8, isText) == Scanning(s1', 0);
    assert s1'.framer.pending + Segment(chunk2, 0, 8) == TimestampFrame;
    TimestampFrameChecks();
    var s2 := State(Framer([], false, -3, 0), s0.log, s0.tel.(imuTimestamp := 0x03_0201));
    assert ScanTo(s1, chunk2, 9, isText) == Scanning(s2, 8);
    assert FeedChunk(s1, chunk2, isText) == Fed(s2.(framer := Framer([0x0A], false, -3, 0)));
  }

  /** The frame of `SplitFrameDecoded`, cut into three chunks instead of two. The middle
      chunk's leftover replaces the head of the frame held from the first chunk, and the
      negative marker position is never moved back again, so the closing offset keeps
      counting from the start of whichever chunk comes next. After the third chunk the frame
      has not closed, its head is gone and the telemetry is untouched. */
  lemma ThreeChunkFrameLost(isText: seq<bv8> -> bool)
    ensures var first := FeedChunk(Initial(), [0x0A, FrameMarker, 0, 0], isText);
      first.Fed? &&
      var second := FeedChunk(first.st, [0, 3], isText);
      second.Fed? && second.st.framer == Framer([0, 3], true, -3, 3) &&
      var third := FeedChunk(second.st, [0, 1, 2, 3, 0xFD, 0, 0x0A], isText);
      third.Fed? && third.st.framer == Framer([0, 1, 2, 3, 0xFD, 0, 0x0A], true, -3, 3) &&
      third.st.tel == Initial().tel && third.st.log == Initial().log
  {
    var s0 := Initial();
    var chunk1: seq<bv8> := [0x0A, FrameMarker, 0, 0];
    assert ScanTo(s0, chunk1, 1, isText) == Scanning(s0, 1);
    var r := s0.(framer := Framer([], true, 1, 0));
    assert ScanTo(s0, chunk1, 2, isText) == Scanning(r, 1);
    assert ScanTo(s0, chunk1, 3, isText) == Scanning(r, 1);
    assert ScanTo(s0, chunk1, 4, isText) == Scanning(r, 1);
    var s1 := s0.(framer := Framer([FrameMarker, 0, 0], true, -3, 0));
    assert FeedChunk(s0, chunk1, isText) == Fed(s1);
    var chunk2: seq<bv8> := [0, 3];
    assert ScanTo(s1, chunk2, 1, isText) == Scanning(s1, 0);
    var s1' := s1.(framer := s1.framer.(rawSize := 3));
    assert ScanTo(s1, chunk2, 2, isText) == Scanning(s1', 0);
    var s2 := s0.(framer := Framer([0, 3], true, -3, 3));
    assert FeedChunk(s1, chunk2, isText) == Fed(s2);
    var chunk3: seq<bv8> := [0, 1, 2, 3, 0xFD, 0, 0x0A];
    assert ScanTo(s2, chunk3, 1, isText) == Scanning(s2, 0);
    assert ScanTo(s2, chunk3, 2, isText) == Scanning(s2, 0);
    assert ScanTo(s2, chunk3, 3, isText) == Scanning(s2, 0);
    assert ScanTo(s2, chunk3, 4, isText) == Scanning(s2, 0);
    assert ScanTo(s2, chunk3, 5, isText) == Scanning(s2, 0);
    assert ScanTo(s2, chunk3, 6, isText) == Scanning(s2, 0);
    assert ScanTo(s2, chunk3, 7, isText) == Scanning(s2, 0);
    assert FeedChunk(s2, chunk3, isText) == Fed(s0.(framer := Framer(chunk3, true, -3, 3)));
  }

  /** A text line spread over three chunks loses its first chunk: the second leftover
      replaces the first, so "ab", "cd", "ef\n" logs "cde" (the byte before the line feed
      is skipped as usual) and "ab" is gone. */
  lemma ThreeChunkLineLost(isText: seq<bv8> -> bool)
    ensures var first := FeedChunk(Initial(), [0x61, 0x62], isText);
      first.Fed? && first.st.framer.pending == [0x61, 0x62] &&
      var second := FeedChunk(first.st, [0x63, 0x64], isText);
      second.Fed? && second.st.framer.pending == [0x63, 0x64] &&
      var third := FeedChunk(second.st, [0x65, 0x66, 0x0A], isText);
      var line: seq<bv8> := [0x63, 0x64, 0x65];
      third == Fed(Initial().(log := ConsoleLog.LogLine(Initial().log, line, isText(line))))
  {
    var s0 := Initial();
    var chunk1: seq<bv8> := [0x61, 0x62];
    assert ScanTo(s0, chunk1, 1, isText) == Scanning(s0, 0);
    assert ScanTo(s0, chunk1, 2, isText) == Scanning(s0, 0);
    var s1 := s0.(framer := s0.framer.(pending := chunk1));
    assert FeedChunk(s0, chunk1, isText) == Fed(s1);
    var chunk2: seq<bv8> := [0x63, 0x64];
    assert ScanTo(s1, chunk2, 1, isText) == Scanning(s1, 0);
    assert ScanTo(s1, chunk2, 2, isText) == Scanning(s1, 0);
    var s2 := s0.(framer := s0.framer.(pending := chunk2));
    assert FeedChunk(s1, chunk2, isText) == Fed(s2);
    var chunk3: seq<bv8> := [0x65, 0x66, 0x0A];
    assert ScanTo(s2, chunk3, 1, isText) == Scanning(s2, 0);
    assert ScanTo(s2, chunk3, 2, isText) == Scanning(s2, 0);
    var line: seq<bv8> := [0x63, 0x64, 0x65];
    assert chunk2 + Segment(chunk3, 0, 2) == line;
    var s3 := s0.(log := ConsoleLog.LogLine(s0.log, line, isText(line)));
    assert ScanTo(s2, chunk3, 3, isText) == Scanning(s3, 3);
  }

  /** The same 13 bytes, cut two ways. Fed as one chunk, the frame closes inside it, its
      byte before the closing offset is skipped, and the timestamp becomes 0x030201. Cut
      after 12 bytes, the frame closes at position 0 of the second chunk: the whole pending
      tail becomes the frame, including the 0x0A after the checksum, so its XOR is 0x0A and
      the telemetry is left alone. */
  lemma SameBytesTwoCuts(isText: seq<bv8> -> bool)
    ensures var bytes: seq<bv8> := [0x0A, FrameMarker, 0, 0, 0, 3, 0, 1, 2, 3, 0xFD, 0x0A, 0x0A];
      var whole := FeedChunk(Initial(), bytes, isText);
      var first := FeedChunk(Initial(), bytes[..12], isText);
      whole.Fed? && whole.st.tel == Initial().tel.(imuTimestamp := 0x03_0201) &&
      first.Fed? && first.st.framer == Framer(TimestampFrame + [0x0A], true, -11, 3) &&
      FeedChunk(first.st, bytes[12..], isText) == Fed(Initial().(framer := Framer([0x0A], false, -11, 0)))
  {
    var bytes: seq<bv8> := [0x0A, FrameMarker, 0, 0, 0, 3, 0, 1, 2, 3, 0xFD, 0x0A, 0x0A];
    var s0 := Initial();
    var r := s0.(framer := Framer([], true, 1, 0));
    var r' := r.(framer := r.framer.(rawSize := 3));
    // Both cuts scan their first 12 bytes alike.
    forall chunk: seq<bv8> | chunk == bytes || chunk == bytes[..12]
      ensures ScanTo(s0, chunk, 12, isText) == Scanning(r', 1)
    {
      assert ScanTo(s0, chunk, 1, isText) == Scanning(s0, 1);
      assert ScanTo(s0, chunk, 2, isText) == Scanning(r, 1);
      assert ScanTo(s0, chunk, 3, isText) == Scanning(r, 1);
      assert ScanTo(s0, chunk, 4, isText) == Scanning(r, 1);
      assert ScanTo(s0, chunk, 5, isText) == Scanning(r, 1);
      assert ScanTo(s0, chunk, 6, isText) == Scanning(r', 1);
      assert ScanTo(s0, chunk, 7, isText) == Scanning(r', 1);
      assert ScanTo(s0, chunk, 8, isText) == Scanning(r', 1);
      assert ScanTo(s0, chunk, 9, isText) == Scanning(r', 1);
      assert ScanTo(s0, chunk, 10, isText) == Scanning(r', 1);
      assert ScanTo(s0, chunk, 11, isText) == Scanning(r', 1);
    }
    TimestampFrameChecks();
    // One chunk: the frame closes at position 12.
    assert r'.framer.pending + Segment(bytes, 1, 12) == TimestampFrame;
    var t := s0.tel.(imuTimestamp := 0x03_0201);
    assert ScanTo(s0, bytes, 13, isText) == Scanning(State(Framer([], false, 1, 0), s0.log, t), 12);
    assert FeedChunk(s0, bytes, isText) == Fed(State(Framer([0x0A], false, -12, 0), s0.log, t));
    // Two chunks: the frame closes at position 0 of the second.
    var s1 := s0.(framer := Framer(TimestampFrame + [0x0A], true, -11, 3));
    assert bytes[..12][1..] == TimestampFrame + [0x0A];
    assert FeedChunk(s0, bytes[..12], isText) == Fed(s1);
    var frame := s1.framer.pending + Segment(bytes[12..], 0, 0);
    assert frame == TimestampFrame + [0x0A];
    assert XorAll(frame) == 0x0A by { assert frame[..|frame| - 1] == TimestampFrame; }
    assert ScanTo(s1, bytes[12..], 1, isText) == Scanning(s0.(framer := Framer([], false, -11, 0)), 0);
  }
}
