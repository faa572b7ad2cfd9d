/** CAN frames of the chassis link: field layout, encoders, decoders and the heartbeat monitor. */
module ChassisCanCodecs {
  import opened Options
  import opened Crc16s

  // ---------------------------------------------------------------- frames and fields

  const MAX_DATA_LENGTH := 64

  type FrameData = d: seq<u8> | |d| == MAX_DATA_LENGTH witness seq(MAX_DATA_LENGTH, _ => 0)

  datatype CanFrame = CanFrame(
    id: nat,
    data: FrameData,
    dataLength: nat,
    extended: bool,
    remote: bool,
    fd: bool,
    brs: bool,
    esi: bool)

  const SCHEMA_VERSION: u8 := 1
  const VELOCITY_COMMAND_ID: u16 := 0x101
  const HEARTBEAT_ID: u16 := 0x200
  const FAULT_STATUS_ID: u16 := 0x240

  type u32 = n: int | 0 <= n < 0x1_0000_0000

  const TWO_16 := 0x1_0000
  const TWO_31 := 0x8000_0000
  const TWO_32 := 0x1_0000_0000

  function GetU16(d: seq<u8>, at: nat): u16
    requires at + 2 <= |d|
  {
    var low, high: int := d[at], d[at + 1];
    low + 0x100 * high
  }

  function GetI16(d: seq<u8>, at: nat): (n: int)
    requires at + 2 <= |d|
    ensures -0x8000 <= n < 0x8000
  {
    var u := GetU16(d, at);
    if u >= 0x8000 then u - TWO_16 else u
  }

  function GetU32(d: seq<u8>, at: nat): u32
    requires at + 4 <= |d|
  {
    var low, high: int := GetU16(d, at), GetU16(d, at + 2);
    low + TWO_16 * high
  }

  method PutU16(data: array<u8>, at: nat, value: u16)
    requires at + 2 <= data.Length
    modifies data
    ensures forall k | 0 <= k < data.Length && k != at && k != at + 1 :: data[k] == old(data[k])
    ensures GetU16(data[..], at) == value
  {
    data[at] := value % 0x100;
    data[at + 1] := value / 0x100;
  }

  /** Two's complement. */
  method PutI16(data: array<u8>, at: nat, value: int)
    requires at + 2 <= data.Length && -0x8000 <= value < 0x8000
    modifies data
    ensures forall k | 0 <= k < data.Length && k != at && k != at + 1 :: data[k] == old(data[k])
    ensures GetI16(data[..], at) == value
  {
    PutU16(data, at, if value < 0 then value + TWO_16 else value);
  }

  method PutU32(data: array<u8>, at: nat, value: u32)
    requires at + 4 <= data.Length
    modifies data
    ensures forall k | 0 <= k < data.Length && !(at <= k < at + 4) :: data[k] == old(data[k])
    ensures GetU32(data[..], at) == value
  {
    PutU16(data, at, value % TWO_16);
    ghost var low := data[..];
    PutU16(data, at + 2, value / TWO_16);
    assert GetU16(data[..], at) == GetU16(low, at);
  }

  /** The CRC over the first `length` bytes, stored behind them. */
  method PutCrc(data: array<u8>, identifier: u16, length: nat)
    requires length + 2 <= data.Length
    modifies data
    ensures data[..length] == old(data[..length])
    ensures forall k | length + 2 <= k < data.Length :: data[k] == old(data[k])
    ensures GetU16(data[..], length) == Crc(identifier, data[..length])
  {
    var crc := Crc16(identifier, data[..length]);
    PutU16(data, length, crc);
    assert data[..length] == old(data[..length]);
  }

  predicate IsFrame(frame: CanFrame, id: u16, length: nat) {
    && frame.id == id
    && !frame.extended && !frame.remote && frame.fd && frame.brs
    && frame.dataLength == length
    && frame.data[0] == SCHEMA_VERSION
  }

  // ---------------------------------------------------------------- frames as values

  function Bytes16(value: u16): (b: seq<u8>)
    ensures |b| == 2 && GetU16(b, 0) == value
  {
    [value % 0x100, value / 0x100]
  }

  function Bytes32(value: u32): (b: seq<u8>)
    ensures |b| == 4 && GetU32(b, 0) == value
  {
    var low: seq<u8>, high: seq<u8> := Bytes16(value % TWO_16), Bytes16(value / TWO_16);
    [low[0], low[1], high[0], high[1]]
  }

  /** There is a frame with these bytes in front. */
  lemma {:induction false} FrameOf(id: u16, bytes: seq<u8>) returns (frame: CanFrame)
    requires 0 < |bytes| <= MAX_DATA_LENGTH && bytes[0] == SCHEMA_VERSION
    ensures IsFrame(frame, id, |bytes|) && forall k | 0 <= k < |bytes| :: frame.data[k] == bytes[k]
  {
    var data: seq<u8> := bytes + seq(MAX_DATA_LENGTH - |bytes|, _ => 0);
    frame := CanFrame(id, data, |bytes|, false, false, true, true, false);
  }

  /** ... and with their checksum behind them. */
  lemma {:induction false} SealedFrame(id: u16, bytes: seq<u8>) returns (frame: CanFrame)
    requires 0 < |bytes| && |bytes| + 2 <= MAX_DATA_LENGTH && bytes[0] == SCHEMA_VERSION
    ensures IsFrame(frame, id, |bytes| + 2) && forall k | 0 <= k < |bytes| :: frame.data[k] == bytes[k]
    ensures GetU16(frame.data, |bytes|) == Crc(id, frame.data[..|bytes|])
  {
    var crc := Bytes16(Crc(id, bytes));
    frame := FrameOf(id, bytes + crc);
    assert frame.data[..|bytes|] == bytes;
  }

  lemma {:induction false} SameWord(b: seq<u8>, d: seq<u8>, at: nat)
    requires |b| == 4 && at + 4 <= |d|
    requires d[at] == b[0] && d[at + 1] == b[1] && d[at + 2] == b[2] && d[at + 3] == b[3]
    ensures GetU32(d, at) == GetU32(b, 0)
  {
  }

  // ---------------------------------------------------------------- heartbeat

  datatype Heartbeat = Heartbeat(nodeState: u8, sequence: u8, flags: u8, uptimeMs: u32, faultSummary: u16)

  /** Only bit 0 of the flags is defined. */
  function DecodeHeartbeat(frame: CanFrame): Option<Heartbeat> {
    var d := frame.data;
    if !IsFrame(frame, HEARTBEAT_ID, 12) || d[1] > 5 || d[3] / 2 != 0
       || GetU16(d, 10) != Crc(HEARTBEAT_ID, d[..10])
    then None
    else Some(Heartbeat(d[1], d[2], d[3], GetU32(d, 4), GetU16(d, 8)))
  }

  /** Accepts a heartbeat whose state and flags are defined; the frame decodes to that heartbeat. */
  method EncodeHeartbeat(h: Heartbeat) returns (frame: Option<CanFrame>)
    ensures frame.Some? <==> h.nodeState <= 5 && h.flags <= 1
    ensures frame.Some? ==> DecodeHeartbeat(frame.value) == Some(h)
  {
    if h.nodeState > 5 || h.flags / 2 != 0 {
      return None;
    }
    var data := new u8[MAX_DATA_LENGTH](_ => 0);
    data[0] := SCHEMA_VERSION;
    data[1] := h.nodeState;
    data[2] := h.sequence;
    data[3] := h.flags;
    PutU32(data, 4, h.uptimeMs);
    ghost var before := data[..];
    PutU16(data, 8, h.faultSummary);
    ghost var covered := data[..];
    assert GetU32(covered, 4) == GetU32(before, 4);
    PutCrc(data, HEARTBEAT_ID, 10);
    SameFields(data[..], covered);
    return Some(CanFrame(HEARTBEAT_ID, data[..], 12, false, false, true, true, false));
  }

  /** The bytes of such a heartbeat. */
  lemma {:induction false} HeartbeatFrame(h: Heartbeat) returns (frame: CanFrame)
    requires h.nodeState <= 5 && h.flags <= 1
    ensures frame.id == HEARTBEAT_ID && DecodeHeartbeat(frame) == Some(h)
  {
    var u, s := Bytes32(h.uptimeMs), Bytes16(h.faultSummary);
    var bytes: seq<u8> := [SCHEMA_VERSION, h.nodeState, h.sequence, h.flags, u[0], u[1], u[2], u[3], s[0], s[1]];
    frame := SealedFrame(HEARTBEAT_ID, bytes);
    SameWord(u, frame.data, 4);
    assert GetU16(frame.data, 8) == h.faultSummary;
  }

  lemma {:induction false} SameFields(d: seq<u8>, e: seq<u8>)
    requires |d| == |e| == MAX_DATA_LENGTH && d[..10] == e[..10]
    ensures forall i | 0 <= i < 4 :: d[i] == e[i]
    ensures GetU32(d, 4) == GetU32(e, 4) && GetU16(d, 8) == GetU16(e, 8)
    ensures GetI16(d, 4) == GetI16(e, 4) && GetI16(d, 6) == GetI16(e, 6)
  {
    assert forall i | 0 <= i < 10 :: d[i] == d[..10][i] && e[i] == e[..10][i];
  }

  /** A burst of at most 16 bits in the covered bytes of a good heartbeat is never accepted. */
  lemma {:induction false} HeartbeatBurstRejected(good: CanFrame, bad: CanFrame, start: nat)
    requires DecodeHeartbeat(good).Some?
    requires bad.data[..10] != good.data[..10] && bad.data[10..12] == good.data[10..12]
    requires DifferWithin(Bits(good.data[..10]), Bits(bad.data[..10]), start, 16)
    ensures DecodeHeartbeat(bad) == None
  {
    PayloadBurstDetected(HEARTBEAT_ID, good.data[..10], bad.data[..10], start);
    assert good.data[10..12][0] == bad.data[10..12][0] && good.data[10..12][1] == bad.data[10..12][1];
  }

  // ---------------------------------------------------------------- fault status

  datatype FaultStatus = FaultStatus(
    severity: u8, sequence: u8, flags: u8, activeFaults: u32, latchedFaults: u32, faultSequence: u16)

  function DecodeFault(frame: CanFrame): Option<FaultStatus> {
    var d := frame.data;
    if !IsFrame(frame, FAULT_STATUS_ID, 16) || d[1] > 2 || d[3] / 4 != 0
       || GetU16(d, 14) != Crc(FAULT_STATUS_ID, d[..14])
    then None
    else Some(FaultStatus(d[1], d[2], d[3], GetU32(d, 4), GetU32(d, 8), GetU16(d, 12)))
  }

  lemma {:induction false} FaultFrame(f: FaultStatus) returns (frame: CanFrame)
    requires f.severity <= 2 && f.flags <= 3
    ensures frame.id == FAULT_STATUS_ID && DecodeFault(frame) == Some(f)
  {
    var a, l, s := Bytes32(f.activeFaults), Bytes32(f.latchedFaults), Bytes16(f.faultSequence);
    var bytes: seq<u8> := [SCHEMA_VERSION, f.severity, f.sequence, f.flags,
                           a[0], a[1], a[2], a[3], l[0], l[1], l[2], l[3], s[0], s[1]];
    frame := SealedFrame(FAULT_STATUS_ID, bytes);
    SameWord(a, frame.data, 4);
    SameWord(l, frame.data, 8);
    assert GetU16(frame.data, 12) == f.faultSequence;
  }

  lemma {:induction false} FaultBurstRejected(good: CanFrame, bad: CanFrame, start: nat)
    requires DecodeFault(good).Some?
    requires bad.data[..14] != good.data[..14] && bad.data[14..16] == good.data[14..16]
    requires DifferWithin(Bits(good.data[..14]), Bits(bad.data[..14]), start, 16)
    ensures DecodeFault(bad) == None
  {
    PayloadBurstDetected(FAULT_STATUS_ID, good.data[..14], bad.data[..14], start);
    assert good.data[14..16][0] == bad.data[14..16][0] && good.data[14..16][1] == bad.data[14..16][1];
  }

  /** The identifier is part of what the checksum protects: a frame whose checksum was made for another
      identifier decodes neither as a heartbeat nor as a fault status, whatever its payload. */
  lemma {:induction false} IdentifierIsCovered(frame: CanFrame, made: u16)
    ensures made != HEARTBEAT_ID && GetU16(frame.data, 10) == Crc(made, frame.data[..10]) ==> DecodeHeartbeat(frame) == None
    ensures made != FAULT_STATUS_ID && GetU16(frame.data, 14) == Crc(made, frame.data[..14]) ==> DecodeFault(frame) == None
  {
    if made != HEARTBEAT_ID {
      IdentifierDetected(HEARTBEAT_ID, made, frame.data[..10]);
    }
    if made != FAULT_STATUS_ID {
      IdentifierDetected(FAULT_STATUS_ID, made, frame.data[..14]);
    }
  }

  // ---------------------------------------------------------------- velocity command

  type i16 = n: int | -0x8000 <= n < 0x8000

  datatype VelocityCommand = VelocityCommand(enabled: bool, sequence: u8, linearMmS: i16, angularMradS: i16)

  /** Within the range of the protocol, and zero when disabled. */
  predicate VelocityEncodable(c: VelocityCommand) {
    && -2000 <= c.linearMmS <= 2000
    && -10000 <= c.angularMradS <= 10000
    && (!c.enabled ==> c.linearMmS == 0 && c.angularMradS == 0)
  }

  /** What the receiver of a velocity frame reads from it. */
  ghost predicate CarriesVelocity(frame: CanFrame, c: VelocityCommand) {
    && IsFrame(frame, VELOCITY_COMMAND_ID, 12)
    && frame.data[1] == (if c.enabled then 1 else 0)
    && frame.data[2] == c.sequence
    && GetI16(frame.data, 4) == c.linearMmS
    && GetI16(frame.data, 6) == c.angularMradS
    && GetU16(frame.data, 10) == Crc(VELOCITY_COMMAND_ID, frame.data[..10])
  }

  /** The covered bytes. */
  method PutVelocity(data: array<u8>, c: VelocityCommand)
    requires data.Length == MAX_DATA_LENGTH && forall k | 0 <= k < data.Length :: data[k] == 0
    modifies data
    ensures data[0] == SCHEMA_VERSION && data[1] == (if c.enabled then 1 else 0) && data[2] == c.sequence
    ensures GetI16(data[..], 4) == c.linearMmS && GetI16(data[..], 6) == c.angularMradS
    ensures forall k | 0 <= k < data.Length && (k == 3 || k >= 8) :: data[k] == 0
  {
    data[0] := SCHEMA_VERSION;
    data[1] := if c.enabled then 1 else 0;
    data[2] := c.sequence;
    PutI16(data, 4, c.linearMmS);
    ghost var linear := data[..];
    PutI16(data, 6, c.angularMradS);
    assert data[4] == linear[4] && data[5] == linear[5];
  }

  method EncodeVelocity(c: VelocityCommand) returns (frame: Option<CanFrame>)
    ensures frame.Some? <==> VelocityEncodable(c)
    ensures frame.Some? ==> CarriesVelocity(frame.value, c)
    ensures frame.Some? ==> forall k | 0 <= k < MAX_DATA_LENGTH && (k in {3, 8, 9} || k >= 12) :: frame.value.data[k] == 0
  {
    if c.linearMmS < -2000 || c.linearMmS > 2000 || c.angularMradS < -10000 || c.angularMradS > 10000
       || (!c.enabled && (c.linearMmS != 0 || c.angularMradS != 0)) {
      return None;
    }
    var data := new u8[MAX_DATA_LENGTH](_ => 0);
    PutVelocity(data, c);
    ghost var covered := data[..];
    PutCrc(data, VELOCITY_COMMAND_ID, 10);
    SameFields(data[..], covered);
    return Some(CanFrame(VELOCITY_COMMAND_ID, data[..], 12, false, false, true, true, false));
  }

  // ---------------------------------------------------------------- the wire, byte by byte

  /** A number in two bytes, the low one first. */
  function Two(d: FrameData, at: nat): int
    requires at + 2 <= MAX_DATA_LENGTH
  {
    var low: int, high: int := d[at], d[at + 1];
    low + 0x100 * high
  }

  /** ... and in four. */
  function Four(d: FrameData, at: nat): int
    requires at + 4 <= MAX_DATA_LENGTH
  {
    Two(d, at) + 0x1_0000 * Two(d, at + 2)
  }

  /** A CAN FD data frame with bit rate switch, of schema version 1. */
  predicate IsWire(frame: CanFrame, id: int, length: nat) {
    && frame.id == id && frame.dataLength == length && frame.data[0] == 1
    && frame.fd && frame.brs && !frame.extended && !frame.remote
  }

  /** A heartbeat frame is read exactly so. */
  lemma {:induction false} HeartbeatOnWire(frame: CanFrame, h: Heartbeat)
    ensures DecodeHeartbeat(frame) == Some(h) <==>
              && IsWire(frame, 0x200, 12)
              && frame.data[1] == h.nodeState <= 5
              && frame.data[2] == h.sequence
              && frame.data[3] == h.flags <= 1
              && Four(frame.data, 4) == h.uptimeMs
              && Two(frame.data, 8) == h.faultSummary
              && Two(frame.data, 10) == Crc(0x200, frame.data[..10])
  {
    var d := frame.data;
    WireIs(frame, HEARTBEAT_ID, 12);
    FourIs(d, 4);
    TwoIs(d, 8);
    TwoIs(d, 10);
    assert d[3] / 2 != 0 <==> d[3] > 1;
  }

  lemma {:induction false} WireIs(frame: CanFrame, id: u16, length: nat)
    ensures IsFrame(frame, id, length) == IsWire(frame, id, length)
  {
  }

  lemma {:induction false} TwoIs(d: FrameData, at: nat)
    requires at + 2 <= MAX_DATA_LENGTH
    ensures GetU16(d, at) == Two(d, at)
  {
  }

  /** A fault frame is read exactly so. */
  lemma {:induction false} FaultOnWire(frame: CanFrame, f: FaultStatus)
    ensures DecodeFault(frame) == Some(f) <==>
              && IsWire(frame, 0x240, 16)
              && frame.data[1] == f.severity <= 2
              && frame.data[2] == f.sequence
              && frame.data[3] == f.flags <= 3
              && Four(frame.data, 4) == f.activeFaults
              && Four(frame.data, 8) == f.latchedFaults
              && Two(frame.data, 12) == f.faultSequence
              && Two(frame.data, 14) == Crc(0x240, frame.data[..14])
  {
    var d := frame.data;
    WireIs(frame, FAULT_STATUS_ID, 16);
    FourIs(d, 4);
    FourIs(d, 8);
    TwoIs(d, 12);
    TwoIs(d, 14);
    assert d[3] / 4 != 0 <==> d[3] > 3;
  }

  lemma {:induction false} FourIs(d: FrameData, at: nat)
    requires at + 4 <= MAX_DATA_LENGTH
    ensures GetU32(d, at) == Four(d, at)
  {
  }

  /** A velocity frame is written so, negative velocities modulo 2^16. */
  lemma {:induction false} VelocityOnWire(frame: CanFrame, c: VelocityCommand)
    requires CarriesVelocity(frame, c)
    ensures IsWire(frame, 0x101, 12)
    ensures frame.data[1] == (if c.enabled then 1 else 0) && frame.data[2] == c.sequence
    ensures Two(frame.data, 4) == (if c.linearMmS < 0 then c.linearMmS + 0x1_0000 else c.linearMmS)
    ensures Two(frame.data, 6) == (if c.angularMradS < 0 then c.angularMradS + 0x1_0000 else c.angularMradS)
    ensures Two(frame.data, 10) == Crc(0x101, frame.data[..10])
  {
  }

  /** The limits of the protocol. */
  lemma {:induction false} VelocityLimits(c: VelocityCommand)
    ensures VelocityEncodable(c) <==>
              if c.enabled then -2000 <= c.linearMmS <= 2000 && -10000 <= c.angularMradS <= 10000
              else c.linearMmS == 0 == c.angularMradS
  {
  }
}
