/** The session object: the fields of the visualizer's main frame that the byte scan,
    the frame decoder and the console log update in place. */
module Visualizer {
  import opened Checksum
  import opened FrameDecoder
  import ConsoleLog
  import opened StreamFramer

  class Session {
    // The console log (`console_log`) and its write cursor (`console_log_iter`).
    var consoleLog: seq<seq<bv8>>
    var consoleLogIter: nat
    // Framer state carried across chunks.
    var pending: seq<bv8>
    var readingRaw: bool
    var rawStartIdx: int
    var rawSize: int
    // Displayed data; the fixed-size vectors are arrays.
    const tofMatrix: array<int>
    const tofConfidence: array<bv8>
    var imuTimestamp: int
    const accel: array<real>
    const gyro: array<real>
    var tofMaxDist: int

    function Framing(): Framer
      reads this
    {
      Framer(pending, readingRaw, rawStartIdx, rawSize)
    }

    function Log(): ConsoleLog.Log
      reads this
    {
      ConsoleLog.Log(consoleLog, consoleLogIter)
    }

    function Snapshot(): Telemetry
      reads this, tofMatrix, tofConfidence, accel, gyro
    {
      Telemetry(imuTimestamp, accel[..], gyro[..], tofMatrix[..], tofConfidence[..], tofMaxDist)
    }

    function State(): StreamFramer.State
      reads this, tofMatrix, tofConfidence, accel, gyro
    {
      StreamFramer.State(Framing(), Log(), Snapshot())
    }

    ghost predicate Valid()
      reads this
    {
      tofMatrix.Length == TofCells && tofConfidence.Length == TofCells &&
      accel.Length == 3 && gyro.Length == 3 && accel != gyro && tofMatrix as object != tofConfidence &&
      FramerInv(Framing()) && ConsoleLog.Inv(Log())
    }

    /** The defaults: 30 empty log slots, nothing pending, no frame in progress,
        zeroed telemetry and a ToF maximum of 1. */
    constructor ()
      ensures Valid() && State() == StreamFramer.Initial()
    {
      consoleLog := seq(ConsoleLog.InitialSlots, _ => []);
      consoleLogIter := 0;
      pending := [];
      readingRaw := false;
      rawStartIdx := 0;
      rawSize := 0;
      tofMatrix := new int[TofCells](_ => 0);
      tofConfidence := new bv8[TofCells](_ => 0);
      imuTimestamp := 0;
      accel := new real[3](_ => 0.0);
      gyro := new real[3](_ => 0.0);
      tofMaxDist := 1;
    }

    /** `handleRawData`: decode one checksum-valid frame into the telemetry fields. Each
        index past the end of the frame is Rust's out-of-range panic, reported as `panicked`
        at the read that would fail; the type byte at offset 5 is read first. */
    method HandleRawData(f: seq<bv8>) returns (panicked: bool)
      requires Valid()
      modifies this`imuTimestamp, this`tofMaxDist, tofMatrix, tofConfidence, accel, gyro
      ensures Valid()
      ensures panicked <==> |f| < NeededLength(f)
      ensures !panicked ==> Snapshot() == Decode(old(Snapshot()), f)
    {
      if |f| <= 5 {
        return true;
      }
      panicked := false;
      match f[5]
      case 0 =>
        if f[4] == 3 {
          if |f| <= RawDataHeader + 2 {
            return true;
          }
          imuTimestamp := f[RawDataHeader] as int + f[RawDataHeader + 1] as int * 0x100 + f[RawDataHeader + 2] as int * 0x1_0000;
        }
      case 1 =>
        if f[4] == 9 {
          panicked := ReadAccel(f);
        }
      case 2 =>
        if f[4] == 9 {
          panicked := ReadGyro(f);
        }
      case 3 =>
        if f[4] == 15 {
          panicked := ReadImu(f);
        }
      case 4 =>
        tofMaxDist := 1;
        if f[4] == 192 {
          panicked := ReadTof(f);
        }
      case _ =>
    }

    /** Frame type 1: axis `i` is the unsigned little-endian pair at `9 + 2i`, scaled by 4/256. */
    method ReadAccel(f: seq<bv8>) returns (panicked: bool)
      requires accel.Length == 3
      modifies accel
      ensures panicked <==> |f| <= RawDataHeader + 8
      ensures !panicked ==> accel[..] == AccelFrom(f, RawDataHeader + 3)
    {
      for i := 0 to 3
        invariant forall j :: 0 <= j < i ==>
          RawDataHeader + 4 + 2 * j < |f| && accel[j] == AccelScale(Raw16(f, RawDataHeader + 3 + 2 * j))
        invariant 0 < i ==> RawDataHeader + 2 + 2 * i < |f|
      {
        if |f| <= RawDataHeader + 4 + 2 * i {
          return true;
        }
        var accelDat := f[RawDataHeader + 3 + 2 * i] as int + f[RawDataHeader + 4 + 2 * i] as int * 0x100;
        accel[i] := 4.0 * accelDat as real / 256.0;
      }
      assert accel[..] == AccelFrom(f, RawDataHeader + 3);
      return false;
    }

    /** Frame type 2: axis `i` is the unsigned little-endian pair at `9 + 2i`, scaled by 2000/256. */
    method ReadGyro(f: seq<bv8>) returns (panicked: bool)
      requires gyro.Length == 3
      modifies gyro
      ensures panicked <==> |f| <= RawDataHeader + 8
      ensures !panicked ==> gyro[..] == GyroFrom(f, RawDataHeader + 3)
    {
      for i := 0 to 3
        invariant forall j :: 0 <= j < i ==>
          RawDataHeader + 4 + 2 * j < |f| && gyro[j] == GyroScale(Raw16(f, RawDataHeader + 3 + 2 * j))
        invariant 0 < i ==> RawDataHeader + 2 + 2 * i < |f|
      {
        if |f| <= RawDataHeader + 4 + 2 * i {
          return true;
        }
        var gyroDat := f[RawDataHeader + 3 + 2 * i] as int + f[RawDataHeader + 4 + 2 * i] as int * 0x100;
        gyro[i] := 2000.0 * gyroDat as real / 256.0;
      }
      assert gyro[..] == GyroFrom(f, RawDataHeader + 3);
      return false;
    }

    /** Frame type 3: per axis, the accelerometer pair at `9 + 2i` and then the gyroscope
        pair at `15 + 2i`. */
    method ReadImu(f: seq<bv8>) returns (panicked: bool)
      requires accel.Length == 3 && gyro.Length == 3 && accel != gyro
      modifies accel, gyro
      ensures panicked <==> |f| <= RawDataHeader + 14
      ensures !panicked ==>
        accel[..] == AccelFrom(f, RawDataHeader + 3) && gyro[..] == GyroFrom(f, RawDataHeader + 9)
    {
      for i := 0 to 3
        invariant 0 < i ==> RawDataHeader + 8 + 2 * i < |f|
        invariant forall j :: 0 <= j < i ==> accel[j] == AccelScale(Raw16(f, RawDataHeader + 3 + 2 * j))
        invariant forall j :: 0 <= j < i ==> gyro[j] == GyroScale(Raw16(f, RawDataHeader + 9 + 2 * j))
      {
        if |f| <= RawDataHeader + 4 + 2 * i {
          return true;
        }
        var accelDat := f[RawDataHeader + 3 + 2 * i] as int + f[RawDataHeader + 4 + 2 * i] as int * 0x100;
        assert accelDat == Raw16(f, RawDataHeader + 3 + 2 * i);
        accel[i] := 4.0 * accelDat as real / 256.0;
        if |f| <= RawDataHeader + 10 + 2 * i {
          return true;
        }
        var gyroDat := f[RawDataHeader + 9 + 2 * i] as int + f[RawDataHeader + 10 + 2 * i] as int * 0x100;
        assert gyroDat == Raw16(f, RawDataHeader + 9 + 2 * i);
        gyro[i] := 2000.0 * gyroDat as real / 256.0;
      }
      assert accel[..] == AccelFrom(f, RawDataHeader + 3);
      assert gyro[..] == GyroFrom(f, RawDataHeader + 9);
      return false;
    }

    /** Frame type 4 with the 8x8 length byte: cell `i` takes the distance pair at `6 + 3i`
        and the confidence byte at `8 + 3i`, and the running maximum follows the distances. */
    method ReadTof(f: seq<bv8>) returns (panicked: bool)
      requires tofMatrix.Length == TofCells && tofConfidence.Length == TofCells && tofMaxDist == 1
      requires tofMatrix as object != tofConfidence
      modifies this`tofMaxDist, tofMatrix, tofConfidence
      ensures panicked <==> |f| < RawDataHeader + 192
      ensures !panicked ==>
        tofMatrix[..] == TofDistances(f) && tofConfidence[..] == TofConfidences(f) &&
        tofMaxDist == CellMax(TofDistances(f))
    {
      ghost var seen: seq<int> := [];
      for i := 0 to TofCells
        invariant i == 0 || RawDataHeader + 3 * i <= |f|
        invariant seen == tofMatrix[..i]
        invariant forall j :: 0 <= j < i ==> seen[j] == Raw16(f, RawDataHeader + 3 * j)
        invariant forall j :: 0 <= j < i ==> tofConfidence[j] == f[RawDataHeader + 2 + 3 * j]
        invariant tofMaxDist == CellMax(seen)
      {
        if |f| <= RawDataHeader + 1 + 3 * i {
          return true;
        }
        var dist := f[RawDataHeader + 3 * i] as int + f[RawDataHeader + 1 + 3 * i] as int * 0x100;
        tofMatrix[i] := dist;
        if |f| <= RawDataHeader + 2 + 3 * i {
          return true;
        }
        tofConfidence[i] := f[RawDataHeader + 2 + 3 * i];
        CellMaxSnoc(seen, dist);
        if dist > tofMaxDist {
          tofMaxDist := dist;
        }
        seen := seen + [dist];
      }
      assert seen == tofMatrix[..];
      TofGrids(f, seen, tofConfidence[..]);
      return false;
    }

    /** One text segment reaches the console log: a valid line goes into the slot under the
        cursor while the cursor is inside the log and is pushed at the back otherwise; the
        cursor then moves on, or at 2000 the oldest entry is popped. */
    method AppendToLog(line: seq<bv8>, isText: bool)
      requires Valid()
      modifies this`consoleLog, this`consoleLogIter
      ensures Valid()
      ensures Log() == ConsoleLog.LogLine(old(Log()), line, isText)
    {
      if isText {
        if consoleLogIter < |consoleLog| {
          consoleLog := consoleLog[consoleLogIter := line];
        } else {
          consoleLog := consoleLog + [line];
        }
      }
      if consoleLogIter < ConsoleLog.CursorCap {
        consoleLogIter := consoleLogIter + 1;
      } else if |consoleLog| > 0 {
        consoleLog := consoleLog[1..];
      }
      ConsoleLog.LogLineKeepsInv(old(Log()), line, isText);
    }

    /** One byte inside a binary frame: capture the length byte at offset 4 if none is
        captured yet, and at offset `size + 8` or more close the frame: assemble it from the
        pending tail and `chunk[lower..i-1]`, decode it if its checksum passes, and reset. */
    method RawByte(chunk: seq<bv8>, i: nat, lower: nat, ghost isText: seq<bv8> -> bool)
      returns (lower': nat, panicked: bool)
      requires Valid() && readingRaw && lower <= i < |chunk| <= ReadBufferSize
      modifies this, tofMatrix, tofConfidence, accel, gyro
      ensures Valid()
      ensures Step(old(State()), lower, chunk, i, isText) == if panicked then Panicked else Scanning(State(), lower')
    {
      ghost var st := State();
      StepKeepsInv(st, lower, chunk, i, isText);
      lower', panicked := lower, false;
      if rawSize == 0 && i - rawStartIdx == LengthOffset {
        rawSize := chunk[i] as int;
      }
      if i - rawStartIdx >= rawSize + CloseOverhead {
        var frame: seq<bv8> := [];
        if |pending| > 0 {
          frame := pending;
          pending := [];
        }
        if i - lower > 1 {
          frame := frame + chunk[lower..i - 1];
        }
        assert frame == st.framer.pending + Segment(chunk, lower, i);
        var ok := TestChecksum(frame);
        if ok {
          panicked := HandleRawData(frame);
          if panicked {
            return;
          }
        }
        readingRaw := false;
        rawSize := 0;
        lower' := i;
      }
    }

    /** A line feed, carriage return or frame marker outside a frame: a segment of more than
        one byte, after the pending tail, goes to the console log; a marker then starts a frame. */
    method DelimiterByte(chunk: seq<bv8>, i: nat, lower: nat, isText: seq<bv8> -> bool) returns (lower': nat)
      requires Valid() && !readingRaw && lower <= i < |chunk| <= ReadBufferSize && IsDelimiter(chunk[i])
      modifies this`pending, this`readingRaw, this`rawStartIdx, this`consoleLog, this`consoleLogIter
      ensures Valid()
      ensures Step(old(State()), lower, chunk, i, isText) == Scanning(State(), lower')
    {
      ghost var st := State();
      StepKeepsInv(st, lower, chunk, i, isText);
      if i - lower > 1 {
        var line: seq<bv8> := [];
        if |pending| > 0 {
          line := pending;
          pending := [];
        }
        line := line + chunk[lower..i - 1];
        assert line == st.framer.pending + Segment(chunk, lower, i);
        AppendToLog(line, isText(line));
      }
      lower' := i + 1;
      if chunk[i] == FrameMarker {
        lower' := i;
        readingRaw := true;
        rawStartIdx := i;
      }
    }

    /** The scan of one read chunk: split it into text segments and binary frames, decode
        every frame whose checksum passes, log every text segment, and keep what is left
        for the next chunk. `isText` is the text-validity check of the line decoder. */
    method Feed(chunk: seq<bv8>, isText: seq<bv8> -> bool) returns (panicked: bool)
      requires Valid() && |chunk| <= ReadBufferSize
      modifies this, tofMatrix, tofConfidence, accel, gyro
      ensures Valid()
      ensures panicked <==> FeedChunk(old(State()), chunk, isText).Panic?
      ensures !panicked ==> FeedChunk(old(State()), chunk, isText) == Fed(State())
    {
      ghost var s0 := State();
      var lower: nat := 0;
      for i := 0 to |chunk|
        invariant Valid()
        invariant ScanTo(s0, chunk, i, isText) == Scanning(State(), lower)
      {
        if readingRaw {
          lower, panicked := RawByte(chunk, i, lower, isText);
          if panicked {
            PanicIsFinal(s0, chunk, i + 1, |chunk|, isText);
            return;
          }
        } else if chunk[i] == 0x0A || chunk[i] == 0x0D || chunk[i] == FrameMarker {
          lower := DelimiterByte(chunk, i, lower, isText);
        }
      }
      if lower < |chunk| {
        pending := chunk[lower..];
        if rawStartIdx > 0 {
          rawStartIdx := rawStartIdx - |chunk|;
        }
      }
      FeedKeepsInv(s0, chunk, isText);
      panicked := false;
    }
  }
}
