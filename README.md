# Serial Visualizer stream framer, checksum and telemetry decoder in Dafny

The Serial Visualizer reads a serial byte stream that mixes console text with binary
telemetry frames. Each frame starts with a 0xFE marker. Every GUI update reads one chunk of
at most 1000 bytes and scans it left to right. Text segments end at 0x0A, 0x0D or 0xFE and
go to a bounded console log. A 0xFE outside a frame starts a binary frame. The frame's length
byte sits 4 bytes past the marker, and the frame closes `length + 8` bytes past the marker.
A closed frame whose bytes XOR to zero is decoded into the displayed telemetry: the IMU
timestamp, accelerometer and gyroscope axes, and the 8x8 time-of-flight distance and
confidence grids with their running maximum.

The model has five modules, one per part of the program:

- `Checksum` (`checksum.dfy`): `testChecksum` as a loop proved against `XorAll`, plus the
  checksum's detection and sealing properties.
- `FrameDecoder` (`frame_decoder.dfy`): the telemetry snapshot as a value and `Decode`, which
  states what `handleRawData` does to it. `NeededLength` is one more than the largest index
  the decoder reads.
- `ConsoleLog` (`console_log.dfy`): the log and its write cursor, and `LogLine`, the update
  made for one text segment.
- `StreamFramer` (`stream_framer.dfy`): one scan iteration (`Step`), the scan after `n` bytes
  (`ScanTo`), the work after the loop (`Finish`) and one whole chunk (`FeedChunk`). Each is a
  function of the state carried between chunks.
- `Visualizer` (`session.dfy`): the class `Session`. It holds the fields of the main frame
  that the scan updates in place. The fixed-size vectors are arrays and the log is a `seq`
  field. `Feed`, `RawByte`, `DelimiterByte`, `HandleRawData`, its per-type loops and
  `AppendToLog` update them, and each is proved against the functions above.

The model follows the code as written, including its quirks:

- The byte just before each delimiter, or just before the closing offset, is left out of the
  segment.
- That byte is kept in one case: when a frame closes at position 0 of a chunk. The frame is
  then the whole pending tail, whose last byte is the one after the checksum. Such a frame has
  `length + 8` bytes and fails its checksum unless that byte is 0. `SameBytesTwoCuts` shows
  this.
- At a delimiter, a gap of one byte or less emits nothing and keeps the pending tail. That
  stale tail is prefixed to the next segment or frame only when that segment or frame ends
  in the same chunk. A frame close always emits the pending tail with the segment, whatever
  the gap, and clears it.
- A leftover replaces the pending tail; it is not appended to it (`FinishEffect`). A stale
  tail is therefore dropped when the chunk ends inside the next segment or frame. For a
  frame whose marker is at position 1 or later of one chunk and which closes at position 1
  or later of the next chunk, `SplitFrame` shows that the frame is exactly its own bytes.
- A segment or frame spanning three or more chunks loses its beginning: each middle
  chunk's leftover replaces the part held so far. A negative marker position is never moved
  back again, so the closing offset is counted from the start of every later chunk
  (`ThreeChunkFrameLost`, `ThreeChunkLineLost`).
- The marker position is moved back by the chunk length only when it is positive. A marker at
  position 0 of a chunk therefore keeps counting from the next chunk's start.
  `SplitMarkerPanics` shows that this lets a checksum-valid frame shorter than its length
  byte reach the decoder, whose index then panics.
- The byte at the closing offset is not checked as a delimiter. It starts the next segment.
- A text segment ended by 0xFE is logged just like one ended by a line feed or a carriage
  return.
- The marker position is moved back whenever a leftover exists, whether or not a frame is
  in progress.
- Accelerometer and gyroscope pairs are read from offsets `9 + 2i` (and `15 + 2i` for the
  gyroscope in type 3), three bytes past the payload start at offset 6.
- The result of the scan depends on how the stream is cut into chunks. `SameBytesTwoCuts`
  feeds the same 13 bytes as one chunk and as 12 bytes followed by 1. The first way decodes
  the timestamp 0x030201. The second way leaves the telemetry unchanged.

## Model

| member | source | states |
|---|---|---|
| `Checksum.TestChecksum` | Serial_Visualizer/src/main.rs:79-87 | returns true exactly when the XOR of all bytes is 0; the empty frame passes |
| `Checksum.XorAll` | Serial_Visualizer/src/main.rs:81-85 | the checksum: the XOR of all bytes of the frame, folded from 0 left to right |
| `Checksum.XorAppend` | Serial_Visualizer/src/main.rs:81-85 | the XOR of a concatenation is the XOR of the two parts' XORs |
| `Checksum.XorUpdate` | Serial_Visualizer/src/main.rs:81-85 | replacing one byte changes the XOR by exactly the old byte XOR the new byte |
| `Checksum.SingleByteChangeFails` | Serial_Visualizer/src/main.rs:79-87 | changing any single byte of a passing frame makes it fail |
| `Checksum.SealedFramePasses` | Serial_Visualizer/src/main.rs:79-87 | a body followed by its own XOR passes |
| `FrameDecoder.Initial` | Serial_Visualizer/src/main.rs:69-74 | the default telemetry is in range and its ToF maximum is 1 |
| `FrameDecoder.Raw16` | Serial_Visualizer/src/main.rs:135 | an unsigned little-endian pair: low byte is the value mod 256, high byte the value div 256, below 65536 |
| `FrameDecoder.Timestamp` | Serial_Visualizer/src/main.rs:124 | bytes 6, 7, 8 are the three little-endian bytes of the timestamp, which is below 2^24 |
| `FrameDecoder.AccelScale` | Serial_Visualizer/src/main.rs:136 | `4 * raw / 256` is exactly raw/64, in [0, 1024) |
| `FrameDecoder.GyroScale` | Serial_Visualizer/src/main.rs:149 | `2000 * raw / 256` is exactly raw*125/16, in [0, 65535*125/16] |
| `FrameDecoder.NeededLength` | Serial_Visualizer/src/main.rs:117-183 | every index the decoder reads is below the length byte plus 7 |
| `FrameDecoder.AccelFrom` | Serial_Visualizer/src/main.rs:132-137 | axis i is the pair at base + 2i divided by 64 |
| `FrameDecoder.GyroFrom` | Serial_Visualizer/src/main.rs:145-150 | axis i is the pair at base + 2i times 125/16 |
| `FrameDecoder.TofDistances` | Serial_Visualizer/src/main.rs:174-176 | 64 cell distances, each a 16-bit value |
| `FrameDecoder.TofConfidences` | Serial_Visualizer/src/main.rs:177 | 64 cell confidences |
| `FrameDecoder.CellMax` | Serial_Visualizer/src/main.rs:171-182 | the running ToF maximum: starts at 1 and, cell by cell, becomes the cell's distance whenever that distance is larger |
| `FrameDecoder.CellMaxBounds` | Serial_Visualizer/src/main.rs:171-182 | the running maximum is at least 1, at least every cell, and is 1 or one of the cells |
| `FrameDecoder.CellMaxSnoc` | Serial_Visualizer/src/main.rs:178-181 | one more cell raises the running maximum to that cell exactly when the cell is larger |
| `FrameDecoder.Decode` | Serial_Visualizer/src/main.rs:114-195 | dispatches on byte 5; types 0-3 write their fields only with length byte 3, 9, 9, 15; type 4 resets the maximum to 1 and with length 192 rewrites both grids; other types change nothing |
| `FrameDecoder.DecodeIgnoresMismatch` | Serial_Visualizer/src/main.rs:117-167 | types 0-3 with a length byte other than 3, 9, 9, 15, and any type of 5 or more, leave the telemetry unchanged |
| `FrameDecoder.DecodeImu` | Serial_Visualizer/src/main.rs:119-167 | with the expected length byte, type 0 sets only the timestamp, types 1 and 2 only accel or gyro, and type 3 only both, from the pairs at 9+2i and 15+2i |
| `FrameDecoder.DecodeTof` | Serial_Visualizer/src/main.rs:168-188 | type 4 always resets the maximum to 1; with length 192 cell i gets distance from bytes 6+3i, 7+3i and confidence from 8+3i, and the maximum becomes max(1, largest distance); the IMU fields are untouched |
| `FrameDecoder.DecodeKeepsRange` | Serial_Visualizer/src/main.rs:38-43 | decoding keeps every telemetry field within its u32, u8 or f32 range |
| `ConsoleLog.Initial` | Serial_Visualizer/src/main.rs:61-63 | the log starts as 30 empty slots with the cursor at 0 |
| `ConsoleLog.PopFront` | Serial_Visualizer/src/main.rs:355 | removes the oldest entry; no effect on an empty log |
| `ConsoleLog.LogLine` | Serial_Visualizer/src/main.rs:334-356 | a valid line overwrites the slot under the cursor or is pushed at the back, an invalid one is dropped; then the cursor advances below 2000, or at 2000 the front entry is popped |
| `ConsoleLog.LogLineKeepsInv` | Serial_Visualizer/src/main.rs:334-356 | the cursor stays at or below 2000 and the log never exceeds 2000 entries |
| `ConsoleLog.LogLineLength` | Serial_Visualizer/src/main.rs:334-356 | the cursor moves up to 2000; the log length is unchanged while the cursor is inside it, grows by one on a push, stays the same at the cap for a valid line and shrinks by one for an invalid one |
| `ConsoleLog.LogLineContents` | Serial_Visualizer/src/main.rs:334-356 | a valid line overwrites the slot under the cursor and nothing else, or is pushed at the back, or at the cap is pushed and the front is popped |
| `ConsoleLog.InvalidLineKeepsEntries` | Serial_Visualizer/src/main.rs:344-352 | an invalid line only advances the cursor below the cap |
| `StreamFramer.Initial` | Serial_Visualizer/src/main.rs:62-67 | the framer starts with nothing pending and no frame in progress |
| `StreamFramer.Segment` | Serial_Visualizer/src/main.rs:299-301 | a gap above one contributes the chunk bytes from the segment start up to, but excluding, the byte before the delimiter; otherwise nothing |
| `StreamFramer.CloseFrame` | Serial_Visualizer/src/main.rs:293-310 | closing a frame clears the pending tail and resets the flag and size; the frame is decoded iff its checksum passes, and the decoder panics iff it also is shorter than needed |
| `StreamFramer.Step` | Serial_Visualizer/src/main.rs:283-366 | one scan iteration never moves the segment start past the next position |
| `StreamFramer.ScanTo` | Serial_Visualizer/src/main.rs:281-282 | at the top of every iteration the segment start is at most the position, so slices are well formed and no usize subtraction underflows |
| `StreamFramer.Finish` | Serial_Visualizer/src/main.rs:367-374 | after the scan a non-empty leftover replaces the pending tail and a positive marker position is moved back by the chunk length; an empty leftover changes nothing |
| `StreamFramer.FeedChunk` | Serial_Visualizer/src/main.rs:281-374 | one chunk: the scan over all its bytes followed by `Finish`, or a panic when some close panics the decoder |
| `StreamFramer.MarkerStartsFrame` | Serial_Visualizer/src/main.rs:318-364 | a 0xFE outside a frame sets the flag, puts the marker position and segment start at it with no length captured, and logs the text before it exactly when the gap exceeds one |
| `StreamFramer.InsideFrame` | Serial_Visualizer/src/main.rs:285-291 | inside a frame the length byte is captured once, at offset 4 while none is captured; before the closing offset nothing else changes |
| `StreamFramer.FrameCloses` | Serial_Visualizer/src/main.rs:291-311 | at offset size + 8 the frame is the pending tail followed by the segment; the pending tail is cleared, the flag and size reset, and the frame is decoded iff its checksum passes |
| `StreamFramer.LineEnds` | Serial_Visualizer/src/main.rs:318-358 | a line feed or carriage return with a gap of at most one changes nothing; otherwise the pending tail plus the segment goes to the log and the pending tail is cleared |
| `StreamFramer.OrdinaryByte` | Serial_Visualizer/src/main.rs:318 | any other byte outside a frame changes nothing |
| `StreamFramer.FinishEffect` | Serial_Visualizer/src/main.rs:367-374 | a non-empty leftover replaces the pending tail, and only then is a positive marker position moved back by the chunk length; with no leftover nothing changes |
| `StreamFramer.StepKeepsInv` | Serial_Visualizer/src/main.rs:283-366 | one iteration keeps the captured size a byte, 0 outside a frame, and the marker position within (-1000, 1000) |
| `StreamFramer.StepKeepsRange` | Serial_Visualizer/src/main.rs:291-311 | one iteration keeps every telemetry field within its u32, u8 or f32 width |
| `StreamFramer.ScanKeepsRange` | Serial_Visualizer/src/main.rs:281-366 | the whole scan keeps the telemetry within those widths |
| `StreamFramer.FeedKeepsRange` | Serial_Visualizer/src/main.rs:281-374 | every chunk keeps the telemetry within those widths |
| `StreamFramer.ScanKeepsInv` | Serial_Visualizer/src/main.rs:281-366 | the whole scan keeps that invariant |
| `StreamFramer.FeedKeepsInv` | Serial_Visualizer/src/main.rs:281-374 | every chunk of at most 1000 bytes keeps the invariant, so the i32 arithmetic never overflows and the log holds at most 2000 lines |
| `StreamFramer.PanicIsFinal` | Serial_Visualizer/src/main.rs:304-306 | once the decoder panics, the rest of the chunk is not scanned |
| `StreamFramer.FrameInProgress` | Serial_Visualizer/src/main.rs:285-315 | between the marker and the closing offset, or the end of the chunk if that comes first, only the length byte is captured (if the chunk holds it) and the segment start stays at the marker |
| `StreamFramer.FrameWithinChunk` | Serial_Visualizer/src/main.rs:285-311 | a frame inside one chunk takes exactly size + 7 chunk bytes, from the marker through the checksum, after the pending tail held at the marker |
| `StreamFramer.FrameWithinChunkDecoded` | Serial_Visualizer/src/main.rs:285-311 | with nothing pending at the marker, such a frame never panics the decoder and is decoded iff its checksum passes |
| `StreamFramer.CleanClose` | Serial_Visualizer/src/main.rs:291-311 | a frame of exactly its declared length closed with nothing pending never panics the decoder, resets the framer and is decoded iff its checksum passes |
| `StreamFramer.FrameContinues` | Serial_Visualizer/src/main.rs:285-315 | in the chunk after a split marker the length byte is captured at offset 4 if not yet captured, and up to the closing position nothing else changes and the segment start stays at 0 |
| `StreamFramer.MarkerNearEnd` | Serial_Visualizer/src/main.rs:281-374 | a chunk holding a marker at position p >= 1 of a frame that does not close in it leaves the pending tail `a[p..]`, the marker position p - t and the length byte if it was in the chunk, with the telemetry as it was at the marker |
| `StreamFramer.FrameClosesLater` | Serial_Visualizer/src/main.rs:285-311 | a split frame closes in the next chunk as the pending tail followed by the segment before the closing byte |
| `StreamFramer.LeftoverCloses` | Serial_Visualizer/src/main.rs:285-311 | from the pending tail `a[p..]`, the frame closes in the next chunk as the size + 7 bytes of the two chunks from the marker |
| `StreamFramer.JoinedFrame` | Serial_Visualizer/src/main.rs:293-302 | the leftover of one chunk followed by the next chunk's segment is the contiguous run of both chunks' bytes |
| `StreamFramer.SplitFrame` | Serial_Visualizer/src/main.rs:281-374 | for every frame whose marker is at position p >= 1 of one chunk and whose closing offset is at position c >= 1 of the next, with the length byte in either chunk: the pending tail after the first chunk is exactly `a[p..]`, the marker position is p - t, and the frame closes as exactly the size + 7 bytes from the marker through the checksum |
| `StreamFramer.SplitMarkerPanics` | Serial_Visualizer/src/main.rs:367-374 | a marker at position 0 of a chunk is never moved back, and the following chunk then yields a checksum-valid frame whose decoding panics |
| `StreamFramer.TimestampFrameChecks` | Serial_Visualizer/src/main.rs:79-87 | the sample type-0 frame passes its checksum, needs 9 bytes and carries the timestamp 0x030201 |
| `StreamFramer.SameBytesTwoCuts` | Serial_Visualizer/src/main.rs:281-374 | the same 13 bytes decode the timestamp as one chunk, but cut after 12 bytes the frame closes at position 0 and keeps the byte after its checksum, so its checksum fails |
| `StreamFramer.SplitFrameDecoded` | Serial_Visualizer/src/main.rs:281-374 | a marker at position 1 whose length byte arrives in the next chunk is reassembled from the pending tail and decoded (timestamp 0x030201) |
| `StreamFramer.ThreeChunkFrameLost` | Serial_Visualizer/src/main.rs:367-374 | the frame that `SplitFrameDecoded` decodes from two chunks, cut into three, has not closed after the third chunk: its head is replaced by the later leftovers, the marker position stays -3 and the telemetry is untouched |
| `StreamFramer.ThreeChunkLineLost` | Serial_Visualizer/src/main.rs:367-374 | a line cut into three chunks loses the first chunk's bytes: "ab", "cd", "ef" plus a line feed logs "cde" |
| `Visualizer.Session.constructor` | Serial_Visualizer/src/main.rs:51-77 | the defaults: 30 empty log slots, nothing pending, no frame, zeroed telemetry, ToF maximum 1 |
| `Visualizer.Session.HandleRawData` | Serial_Visualizer/src/main.rs:114-195 | panics exactly when the frame is shorter than the decoder's reads need; otherwise the telemetry becomes `Decode` of the old telemetry and the frame |
| `Visualizer.Session.ReadAccel` | Serial_Visualizer/src/main.rs:130-138 | the type-1 loop fills the accelerometer axes from the pairs at 9 + 2i, or panics when the frame ends before byte 14 |
| `Visualizer.Session.ReadGyro` | Serial_Visualizer/src/main.rs:143-151 | the type-2 loop fills the gyroscope axes from the pairs at 9 + 2i, or panics when the frame ends before byte 14 |
| `Visualizer.Session.ReadImu` | Serial_Visualizer/src/main.rs:156-166 | the type-3 loop fills the accelerometer from 9 + 2i and the gyroscope from 15 + 2i, or panics when the frame ends before byte 20 |
| `Visualizer.Session.ReadTof` | Serial_Visualizer/src/main.rs:172-183 | the 64-cell loop fills both grids and leaves the running maximum at `CellMax` of the distances, or panics when the frame ends before byte 197 |
| `Visualizer.Session.AppendToLog` | Serial_Visualizer/src/main.rs:330-356 | the log and cursor become `LogLine` of their old values |
| `Visualizer.Session.RawByte` | Serial_Visualizer/src/main.rs:285-315 | one byte inside a frame updates the session as `Step` does, or panics where it does |
| `Visualizer.Session.DelimiterByte` | Serial_Visualizer/src/main.rs:318-365 | a delimiter outside a frame updates the session as `Step` does |
| `Visualizer.Session.Feed` | Serial_Visualizer/src/main.rs:281-374 | one read chunk moves the session from its old state to `FeedChunk` of it, keeping the invariant, or panics exactly when `FeedChunk` does |

## Left out

- The GUI is not modelled: layout, buttons, combo box, painter, the ToF colour mapping and
  log rendering (main.rs:202-268, 383-468).
- Serial I/O and port enumeration are not modelled: opening and closing the port,
  `bytes_to_read`, `read`, `write`, the outbound command strings and `returnUartList`. The
  chunk handed to the scan is a parameter of `Feed`, at most the 1000-byte read buffer.
- `String::from_utf8` is the function parameter `isText` of `Feed`, left uninterpreted. A
  logged line is kept as its bytes, which is what a Rust `String` holds.
- `println!`/`eprintln!` diagnostics, `main` and `env_logger` are side effects only. That
  includes the notice for the unsupported 4x4 ToF length 48, which otherwise behaves like any
  other non-192 length.
- The f32 values are reals. Every value the source computes is exact in f32: raw counts stay
  below 2^24, and `125 * raw` fits the significand. So no rounding is modelled.
- The u32, u8, i32 and usize fields are unbounded integers. `FeedKeepsRange` shows that
  every telemetry value stays within its width, and `FeedKeepsInv` shows the same for the
  framer fields and the log cursor. So no wrap-around can happen.
- Visualizer.Session.HandleRawData: after a panic, the contract does not say which telemetry
  fields the loops had already written. A panic unwinds out of the GUI update and ends the
  program, so those values are never displayed.
- Visualizer.Session.Feed: after a panic, the contract does not describe the session's
  state, for the same reason.
- Visualizer.Session.ReadAccel: the axes already written before a panic are not described,
  for the same reason.
- Visualizer.Session.ReadGyro: the axes already written before a panic are not described,
  for the same reason.
- Visualizer.Session.ReadImu: the axes already written before a panic are not described,
  for the same reason.
- Visualizer.Session.ReadTof: the cells already written before a panic are not described,
  for the same reason.
- Disconnecting is not modelled. It belongs to the GUI and does not touch the framer fields.
