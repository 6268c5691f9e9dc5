/** The telemetry snapshot and what decoding one checksum-valid frame does to it.
    A frame is: 0xFE marker, three header bytes, the length byte at offset 4,
    the type byte at offset 5, the payload from offset 6 on, and a trailing
    XOR checksum byte. */
module FrameDecoder {

  /** Offset of the first payload byte (`raw_data_header`). */
  const RawDataHeader: nat := 6

  /** Number of cells of the 8x8 time-of-flight grid. */
  const TofCells: nat := 64

  /** The displayed data of the session. Accelerometer and gyroscope readings are
      kept as exact reals (every value the source computes is exact in `f32`). */
  datatype Telemetry = Telemetry(
    imuTimestamp: int,
    accel: seq<real>,
    gyro: seq<real>,
    tofDist: seq<int>,
    tofConf: seq<bv8>,
    tofMax: int)

  /** The shape the session's fixed-size vectors always have. */
  predicate WellShaped(t: Telemetry)
  {
    |t.accel| == 3 && |t.gyro| == 3 && |t.tofDist| == TofCells && |t.tofConf| == TofCells
  }

  /** Every field fits the unsigned width the source stores it in. */
  predicate InRange(t: Telemetry)
  {
    WellShaped(t) &&
    0 <= t.imuTimestamp < 0x100_0000 &&
    (forall i :: 0 <= i < 3 ==> 0.0 <= t.accel[i] < 1024.0) &&
    (forall i :: 0 <= i < 3 ==> 0.0 <= t.gyro[i] <= 65535.0 * 125.0 / 16.0) &&
    (forall i :: 0 <= i < TofCells ==> 0 <= t.tofDist[i] < 0x1_0000) &&
    1 <= t.tofMax < 0x1_0000
  }

  /** The snapshot the session starts with. */
  function Initial(): (t: Telemetry)
    ensures InRange(t) && t.tofMax == 1
  {
    Telemetry(0, [0.0, 0.0, 0.0], [0.0, 0.0, 0.0], seq(TofCells, _ => 0), seq(TofCells, _ => 0), 1)
  }

  /** The unsigned little-endian pair at offsets `k` and `k + 1`. */
  function Raw16(f: seq<bv8>, k: nat): (r: int)
    requires k + 1 < |f|
    ensures 0 <= r < 0x1_0000
    ensures r % 256 == f[k] as int && r / 256 == f[k + 1] as int
  {
    f[k] as int + f[k + 1] as int * 0x100
  }

  /** The 24-bit little-endian IMU timestamp at offsets 6, 7 and 8. */
  function Timestamp(f: seq<bv8>): (r: int)
    requires RawDataHeader + 2 < |f|
    ensures 0 <= r < 0x100_0000
    ensures r % 256 == f[6] as int && r / 256 % 256 == f[7] as int && r / 0x1_0000 == f[8] as int
  {
    f[RawDataHeader] as int + 256 * f[RawDataHeader + 1] as int + 0x1_0000 * f[RawDataHeader + 2] as int
  }

  /** `4.0 * raw / 256.0`: every intermediate is exact in `f32`. */
  function AccelScale(raw: int): (r: real)
    requires 0 <= raw < 0x1_0000
    ensures r * 64.0 == raw as real
    ensures 0.0 <= r < 1024.0
  {
    4.0 * raw as real / 256.0
  }

  /** `2000.0 * raw / 256.0`: `125 * raw` fits the 24-bit significand, so the value is exact. */
  function GyroScale(raw: int): (r: real)
    requires 0 <= raw < 0x1_0000
    ensures r * 16.0 == raw as real * 125.0
    ensures 0.0 <= r <= 65535.0 * 125.0 / 16.0
  {
    2000.0 * raw as real / 256.0
  }

  /** The length byte a recognised frame type must carry to be decoded. */
  function ExpectedLength(kind: bv8): (n: int)
    requires kind <= 4
  {
    match kind
    case 0 => 3
    case 1 => 9
    case 2 => 9
    case 3 => 15
    case 4 => 192
  }

  /** One more than the largest index the decoder reads from `f`:
      a frame shorter than this makes the source's indexing panic. Every index read
      is below `f[4] + 7` (header, declared payload, checksum byte), so a frame of
      exactly its declared length never panics. */
  function NeededLength(f: seq<bv8>): (n: nat)
    ensures n >= RawDataHeader
    ensures |f| >= RawDataHeader ==> n <= f[4] as int + 7
  {
    if |f| < RawDataHeader then RawDataHeader
    else if f[5] == 0 && f[4] == 3 then RawDataHeader + 3
    else if (f[5] == 1 || f[5] == 2) && f[4] == 9 then RawDataHeader + 9
    else if f[5] == 3 && f[4] == 15 then RawDataHeader + 15
    else if f[5] == 4 && f[4] == 192 then RawDataHeader + 192
    else RawDataHeader
  }

  /** Accelerometer axes from the pairs at `base`, `base + 2`, `base + 4`. */
  function AccelFrom(f: seq<bv8>, base: nat): (r: seq<real>)
    requires base + 5 < |f|
    ensures |r| == 3
    ensures forall i :: 0 <= i < 3 ==> r[i] * 64.0 == Raw16(f, base + 2 * i) as real
  {
    seq(3, i requires 0 <= i < 3 => AccelScale(Raw16(f, base + 2 * i)))
  }

  /** Gyroscope axes from the pairs at `base`, `base + 2`, `base + 4`. */
  function GyroFrom(f: seq<bv8>, base: nat): (r: seq<real>)
    requires base + 5 < |f|
    ensures |r| == 3
    ensures forall i :: 0 <= i < 3 ==> r[i] * 16.0 == Raw16(f, base + 2 * i) as real * 125.0
  {
    seq(3, i requires 0 <= i < 3 => GyroScale(Raw16(f, base + 2 * i)))
  }

  /** Distances of the 64 ToF cells: the pair at `6 + 3i`. */
  function TofDistances(f: seq<bv8>): (r: seq<int>)
    requires RawDataHeader + 192 <= |f|
    ensures |r| == TofCells
    ensures forall i :: 0 <= i < TofCells ==> 0 <= r[i] < 0x1_0000
  {
    seq(TofCells, i requires 0 <= i < TofCells => Raw16(f, RawDataHeader + 3 * i))
  }

  /** Confidences of the 64 ToF cells: the byte at `8 + 3i`. */
  function TofConfidences(f: seq<bv8>): (r: seq<bv8>)
    requires RawDataHeader + 192 <= |f|
    ensures |r| == TofCells
  {
    seq(TofCells, i requires 0 <= i < TofCells => f[RawDataHeader + 2 + 3 * i])
  }

  /** The running maximum the decoder keeps over the distances, starting from 1. */
  function CellMax(s: seq<int>): int
  {
    if s == [] then 1
    else
      var m := CellMax(s[..|s| - 1]);
      if s[|s| - 1] > m then s[|s| - 1] else m
  }

  /** The running maximum is at least 1, at least every cell, and either 1 or one of the cells. */
  lemma {:induction false} CellMaxBounds(s: seq<int>)
    ensures CellMax(s) >= 1
    ensures forall i :: 0 <= i < |s| ==> s[i] <= CellMax(s)
    ensures CellMax(s) == 1 || CellMax(s) in s
  {
    if s != [] {
      var init := s[..|s| - 1];
      CellMaxBounds(init);
      assert forall i :: 0 <= i < |s| - 1 ==> init[i] == s[i];
    }
  }

  /** Cell-by-cell agreement with the frame makes the two grids those of the frame. */
  lemma TofGrids(f: seq<bv8>, dist: seq<int>, conf: seq<bv8>)
    requires RawDataHeader + 192 <= |f| && |dist| == TofCells && |conf| == TofCells
    requires forall j :: 0 <= j < TofCells ==> dist[j] == Raw16(f, RawDataHeader + 3 * j)
    requires forall j :: 0 <= j < TofCells ==> conf[j] == f[RawDataHeader + 2 + 3 * j]
    ensures dist == TofDistances(f) && conf == TofConfidences(f)
  {
  }

  /** The running maximum after one more cell. */
  lemma CellMaxSnoc(s: seq<int>, x: int)
    ensures CellMax(s + [x]) == if x > CellMax(s) then x else CellMax(s)
  {
    assert (s + [x])[..|s|] == s;
  }

  /** `handleRawData` on a frame long enough for every read it makes:
      the type byte at offset 5 selects the fields, the length byte at offset 4 must match. */
  function Decode(t: Telemetry, f: seq<bv8>): Telemetry
    requires NeededLength(f) <= |f|
  {
    match f[5]
    case 0 => if f[4] == 3 then t.(imuTimestamp := Timestamp(f)) else t
    case 1 => if f[4] == 9 then t.(accel := AccelFrom(f, RawDataHeader + 3)) else t
    case 2 => if f[4] == 9 then t.(gyro := GyroFrom(f, RawDataHeader + 3)) else t
    case 3 =>
      if f[4] == 15 then t.(accel := AccelFrom(f, RawDataHeader + 3), gyro := GyroFrom(f, RawDataHeader + 9))
      else t
    case 4 =>
      if f[4] == 192 then
        var d := TofDistances(f);
        t.(tofDist := d, tofConf := TofConfidences(f), tofMax := CellMax(d))
      else t.(tofMax := 1)
    case _ => t
  }

  /** Types 0 to 3 change the snapshot only with their expected length byte;
      any type byte of 5 or more leaves it unchanged. */
  lemma DecodeIgnoresMismatch(t: Telemetry, f: seq<bv8>)
    requires NeededLength(f) <= |f|
    requires f[5] >= 5 || (f[5] <= 3 && f[4] as int != ExpectedLength(f[5]))
    ensures Decode(t, f) == t
  {
  }

  /** What a recognised type with its expected length byte writes, and only that. */
  lemma DecodeImu(t: Telemetry, f: seq<bv8>)
    requires NeededLength(f) <= |f|
    requires f[5] <= 3 && f[4] as int == ExpectedLength(f[5])
    ensures f[5] == 0 ==> Decode(t, f) == t.(imuTimestamp := Timestamp(f))
    ensures f[5] == 0 ==>
      Decode(t, f).imuTimestamp == f[6] as int + 256 * f[7] as int + 0x1_0000 * f[8] as int
    ensures f[5] == 1 ==> Decode(t, f) == t.(accel := Decode(t, f).accel)
    ensures f[5] == 2 ==> Decode(t, f) == t.(gyro := Decode(t, f).gyro)
    ensures f[5] == 3 ==> Decode(t, f) == t.(accel := Decode(t, f).accel, gyro := Decode(t, f).gyro)
    ensures f[5] == 1 || f[5] == 3 ==>
      forall i :: 0 <= i < 3 ==> Decode(t, f).accel[i] * 64.0 == (f[9 + 2 * i] as int + 256 * f[10 + 2 * i] as int) as real
    ensures f[5] == 2 ==>
      forall i :: 0 <= i < 3 ==> Decode(t, f).gyro[i] * 16.0 == (f[9 + 2 * i] as int + 256 * f[10 + 2 * i] as int) as real * 125.0
    ensures f[5] == 3 ==>
      forall i :: 0 <= i < 3 ==> Decode(t, f).gyro[i] * 16.0 == (f[15 + 2 * i] as int + 256 * f[16 + 2 * i] as int) as real * 125.0
  {
  }

  /** A ToF frame always resets the maximum; with the 8x8 length byte it rewrites both
      grids from the 3-byte cells and the maximum becomes max(1, largest distance). */
  lemma DecodeTof(t: Telemetry, f: seq<bv8>)
    requires NeededLength(f) <= |f| && f[5] == 4
    ensures f[4] != 192 ==> Decode(t, f) == t.(tofMax := 1)
    ensures f[4] == 192 ==>
      var r := Decode(t, f);
      r.imuTimestamp == t.imuTimestamp && r.accel == t.accel && r.gyro == t.gyro &&
      |r.tofDist| == TofCells && |r.tofConf| == TofCells &&
      (forall i :: 0 <= i < TofCells ==>
        r.tofDist[i] == f[6 + 3 * i] as int + 256 * f[7 + 3 * i] as int && r.tofConf[i] == f[8 + 3 * i]) &&
      r.tofMax >= 1 && (forall i :: 0 <= i < TofCells ==> r.tofDist[i] <= r.tofMax) &&
      (r.tofMax == 1 || exists i :: 0 <= i < TofCells && r.tofDist[i] == r.tofMax)
  {
    if f[4] == 192 {
      CellMaxBounds(TofDistances(f));
    }
  }

  /** Decoding keeps every field within the width the source stores it in. */
  lemma DecodeKeepsRange(t: Telemetry, f: seq<bv8>)
    requires NeededLength(f) <= |f| && InRange(t)
    ensures InRange(Decode(t, f))
  {
    if f[5] == 4 && f[4] == 192 {
      CellMaxBounds(TofDistances(f));
    }
  }
}
