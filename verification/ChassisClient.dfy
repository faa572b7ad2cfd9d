/** `ChassisClient`: what the host knows about the chassis, updated by each frame and tick. */
module ChassisClients {
  import opened Options
  import opened Crc16s
  import opened ChassisCanCodecs
  import opened ChassisHeartbeats

  // ---------------------------------------------------------------- inputs

  const MOTION_STATUS_ID: u16 := 0x180
  const ODOMETRY_REPORT_ID: u16 := 0x181

  /** A frame, sorted by identifier and decoded. */
  datatype Input =
    | MotionInput(valid: bool)
    | OdometryInput(valid: bool)
    | HeartbeatInput(heartbeat: Option<Heartbeat>)
    | FaultInput(fault: Option<FaultStatus>)
    | OtherInput

  predicate MotionIsValid(frame: CanFrame) {
    var d := frame.data;
    && IsFrame(frame, MOTION_STATUS_ID, 16)
    && d[1] / 4 == 0 && d[3] <= 5
    && -1000 <= GetI16(d, 12) <= 1000 && -1000 <= GetI16(d, 14) <= 1000
  }

  predicate OdometryIsValid(frame: CanFrame) {
    var d := frame.data;
    IsFrame(frame, ODOMETRY_REPORT_ID, 24) && d[1] / 2 == 0 && d[3] == 0
  }

  function Classify(frame: CanFrame): Input {
    if frame.id == MOTION_STATUS_ID then MotionInput(MotionIsValid(frame))
    else if frame.id == ODOMETRY_REPORT_ID then OdometryInput(OdometryIsValid(frame))
    else if frame.id == HEARTBEAT_ID then HeartbeatInput(DecodeHeartbeat(frame))
    else if frame.id == FAULT_STATUS_ID then FaultInput(DecodeFault(frame))
    else OtherInput
  }

  lemma {:induction false} MotionFrame() returns (frame: CanFrame)
    ensures frame.id == MOTION_STATUS_ID && MotionIsValid(frame)
  {
    frame := FrameOf(MOTION_STATUS_ID, [SCHEMA_VERSION] + seq(15, _ => 0));
  }

  // ---------------------------------------------------------------- the state as a value

  /** The heartbeat and fault part of `ChassisState`. */
  datatype ChassisState = ChassisState(
    heartbeatStatus: HeartbeatStatus,
    heartbeatAgeMs: int,
    nodeState: u8,
    uptimeMs: u32,
    peerRebootCount: nat,
    faultSummary: u16,
    faultSeverity: u8,
    activeFaults: u32,
    latchedFaults: u32,
    faultSequence: u16)

  const INITIAL_CHASSIS := ChassisState(Unknown, 0, 0, 0, 0, 0, 0, 0, 0, 0)

  datatype Client = Client(
    monitor: Monitor,
    state: ChassisState,
    reported: HeartbeatStatus,
    faultSequenceValid: bool,
    lastFaultSequence: u8)

  const INITIAL_CLIENT := Client(INITIAL_MONITOR, INITIAL_CHASSIS, Unknown, false, 0)

  datatype DecodeStatus = Accepted | Ignored | Invalid

  function Refreshed(c: Client, now: int): Client {
    var s := SnapshotAt(c.monitor, now);
    c.(state := c.state.(heartbeatStatus := s.status, heartbeatAgeMs := s.ageMs,
                         nodeState := s.heartbeat.nodeState, uptimeMs := s.heartbeat.uptimeMs,
                         peerRebootCount := s.peerRebootCount, faultSummary := s.heartbeat.faultSummary))
  }

  function WithoutBaseline(c: Client): Client {
    c.(faultSequenceValid := false, lastFaultSequence := 0)
  }

  /** A new timeout forgets the fault sequence. */
  function TimedOutAt(c: Client, now: int): Client {
    var d := Refreshed(c.(monitor := Updated(c.monitor, now)), now);
    if c.state.heartbeatStatus != TimedOut && d.state.heartbeatStatus == TimedOut then WithoutBaseline(d) else d
  }

  predicate IsNextFault(c: Client, f: FaultStatus) {
    var delta := SequenceDelta(f.sequence, c.lastFaultSequence);
    c.faultSequenceValid ==> 0 < delta < 128
  }

  function AfterFault(c: Client, f: FaultStatus): Client {
    c.(faultSequenceValid := true, lastFaultSequence := f.sequence,
       state := c.state.(faultSeverity := f.severity, activeFaults := f.activeFaults,
                         latchedFaults := f.latchedFaults, faultSequence := f.faultSequence))
  }

  /** A heartbeat the monitor accepted; a reboot forgets the fault sequence. */
  function AfterHeartbeat(c: Client, h: Heartbeat, now: int): Client {
    var d := Refreshed(c.(monitor := ChassisHeartbeats.Accepted(c.monitor, h, now)), now);
    if d.state.peerRebootCount != c.state.peerRebootCount then WithoutBaseline(d) else d
  }

  function Reported(c: Client): Client {
    c.(reported := c.state.heartbeatStatus)
  }

  function OnInput(c: Client, input: Input, now: int): (Client, DecodeStatus) {
    if now < 0 then (c, Invalid)
    else
      var d := TimedOutAt(c, now);
      match input
      case MotionInput(valid) => if valid then (Reported(d), Accepted) else (d, Invalid)
      case OdometryInput(valid) => if valid then (Reported(d), Accepted) else (d, Invalid)
      case HeartbeatInput(h) =>
        if Accepts(d.monitor, h, now) then (Reported(AfterHeartbeat(d, h.value, now)), Accepted)
        else (d, if h.Some? then Ignored else Invalid)
      case FaultInput(f) =>
        if f == None then (d, Invalid)
        else if !IsNextFault(d, f.value) then (d, Ignored)
        else (Reported(AfterFault(d, f.value)), Accepted)
      case OtherInput => (d, Ignored)
  }

  /** Whether the status changed since it was last reported, and the state after the tick. */
  function OnTick(c: Client, now: int): (Client, bool) {
    if now < 0 then (c, false)
    else
      var d := TimedOutAt(c, now);
      if d.state.heartbeatStatus == d.reported then (d, false) else (Reported(d), true)
  }

  // ---------------------------------------------------------------- the object

  class ChassisClient {
    const heartbeatMonitor: ChassisHeartbeatMonitor
    var state: ChassisState
    var reported: HeartbeatStatus
    var faultSequenceValid: bool
    var lastFaultSequence: u8

    function View(): Client
      reads this, heartbeatMonitor
    {
      Client(heartbeatMonitor.View(), state, reported, faultSequenceValid, lastFaultSequence)
    }

    constructor ()
      ensures fresh(heartbeatMonitor) && View() == INITIAL_CLIENT
    {
      heartbeatMonitor := new ChassisHeartbeatMonitor();
      state := INITIAL_CHASSIS;
      reported := Unknown;
      faultSequenceValid, lastFaultSequence := false, 0;
    }

    method RefreshHeartbeat(now: int)
      modifies this`state
      ensures View() == Refreshed(old(View()), now)
    {
      var s := heartbeatMonitor.GetSnapshot(now);
      state := state.(heartbeatStatus := s.status, heartbeatAgeMs := s.ageMs,
                      nodeState := s.heartbeat.nodeState, uptimeMs := s.heartbeat.uptimeMs,
                      peerRebootCount := s.peerRebootCount, faultSummary := s.heartbeat.faultSummary);
    }

    method ResetFaultSequenceBaseline()
      modifies this
      ensures View() == WithoutBaseline(old(View()))
    {
      faultSequenceValid := false;
      lastFaultSequence := 0;
    }

    method UpdateHeartbeatTimeout(now: int)
      modifies this, heartbeatMonitor
      ensures View() == TimedOutAt(old(View()), now)
    {
      var previous := state.heartbeatStatus;
      heartbeatMonitor.Update(now);
      RefreshHeartbeat(now);
      if previous != TimedOut && state.heartbeatStatus == TimedOut {
        ResetFaultSequenceBaseline();
      }
    }

    method ProcessFrame(frame: CanFrame, now: int) returns (status: DecodeStatus, out: Option<ChassisState>)
      modifies this, heartbeatMonitor
      ensures (View(), status) == OnInput(old(View()), Classify(frame), now)
      ensures out == if status == Accepted then Some(View().state) else None
    {
      status, out := ProcessInput(Classify(frame), now);
    }

    /** The body of `ProcessFrame` once the frame is decoded. */
    method ProcessInput(input: Input, now: int) returns (status: DecodeStatus, out: Option<ChassisState>)
      modifies this, heartbeatMonitor
      ensures (View(), status) == OnInput(old(View()), input, now)
      ensures out == if status == Accepted then Some(View().state) else None
    {
      if now < 0 {
        return Invalid, None;
      }
      UpdateHeartbeatTimeout(now);
      match input {
        case MotionInput(valid) =>
          if !valid {
            return Invalid, None;
          }
        case OdometryInput(valid) =>
          if !valid {
            return Invalid, None;
          }
        case HeartbeatInput(heartbeat) =>
          var previousRebootCount := state.peerRebootCount;
          var accepted := heartbeatMonitor.ProcessDecoded(heartbeat, now);
          if !accepted {
            return if heartbeat.Some? then Ignored else Invalid, None;
          }
          RefreshHeartbeat(now);
          if state.peerRebootCount != previousRebootCount {
            ResetFaultSequenceBaseline();
          }
        case FaultInput(fault) =>
          if fault == None {
            return Invalid, None;
          }
          var f := fault.value;
          var delta := SequenceDelta(f.sequence, lastFaultSequence);
          if faultSequenceValid && (delta == 0 || delta >= 128) {
            return Ignored, None;
          }
          faultSequenceValid := true;
          lastFaultSequence := f.sequence;
          state := state.(faultSeverity := f.severity, activeFaults := f.activeFaults,
                          latchedFaults := f.latchedFaults, faultSequence := f.faultSequence);
        case OtherInput =>
          return Ignored, None;
      }
      reported := state.heartbeatStatus;
      return Accepted, Some(state);
    }

    method Update(now: int) returns (out: Option<ChassisState>)
      modifies this, heartbeatMonitor
      ensures (View(), out.Some?) == OnTick(old(View()), now)
      ensures out.Some? ==> out.value == View().state
    {
      if now < 0 {
        return None;
      }
      UpdateHeartbeatTimeout(now);
      if state.heartbeatStatus == reported {
        return None;
      }
      reported := state.heartbeatStatus;
      return Some(state);
    }
  }

  // ---------------------------------------------------------------- the fault sequence

  predicate TimesOutNow(c: Client, now: int) {
    c.state.heartbeatStatus != TimedOut && TimedOutAt(c, now).state.heartbeatStatus == TimedOut
  }

  predicate SameFaults(s: ChassisState, t: ChassisState) {
    && t.faultSeverity == s.faultSeverity && t.activeFaults == s.activeFaults
    && t.latchedFaults == s.latchedFaults && t.faultSequence == s.faultSequence
  }

  /** Repeated and old fault frames change nothing: while the baseline stands, the reported faults
      change only with an accepted frame that is 1 to 127 ahead of it modulo 256. */
  lemma {:induction false} FaultsOnlyAdvance(c: Client, input: Input, now: int)
    requires now >= 0 && !SameFaults(c.state, OnInput(c, input, now).0.state)
    ensures OnInput(c, input, now).1 == DecodeStatus.Accepted && input.FaultInput? && input.fault.Some?
    ensures c.faultSequenceValid && !TimesOutNow(c, now) ==>
              1 <= SequenceDelta(input.fault.value.sequence, c.lastFaultSequence) <= 127
  {
  }

  /** The baseline is given up exactly by a peer that times out or has rebooted. */
  lemma {:induction false} BaselineGivenUp(c: Client, input: Input, now: int)
    requires now >= 0 && c.faultSequenceValid
    ensures var n := OnInput(c, input, now).0;
      !n.faultSequenceValid
      <==> (TimesOutNow(c, now) && !(input.FaultInput? && input.fault.Some?))
           || n.state.peerRebootCount != TimedOutAt(c, now).state.peerRebootCount
  {
  }

  // ---------------------------------------------------------------- in numbers

  /** The last accepted heartbeat is 300 ms old, or has been found so before. */
  predicate IsLost(m: Monitor, now: int) {
    m.snapshot.status == TimedOut || (m.snapshot.status == Alive && now - m.snapshot.receivedMs >= 300)
  }

  /** Which frames are accepted. A heartbeat has to be 1 to 127 ahead of the last one modulo 256, and after a
      timeout only different from it; a fault frame has to be 1 to 127 ahead of the last one, unless the
      timeout is new. */
  lemma {:induction false} AcceptedExactly(c: Client, input: Input, now: int)
    ensures OnInput(c, input, now).1 == DecodeStatus.Accepted <==>
              now >= 0
              && match input
                 case MotionInput(valid) => valid
                 case OdometryInput(valid) => valid
                 case HeartbeatInput(h) =>
                   h.Some?
                   && (c.monitor.sequenceValid ==>
                         var ahead := (h.value.sequence - c.monitor.lastSequence) % 256;
                         ahead >= 1 && (ahead <= 127 || IsLost(c.monitor, now)))
                 case FaultInput(f) =>
                   f.Some?
                   && (c.faultSequenceValid && !(c.state.heartbeatStatus != TimedOut && IsLost(c.monitor, now)) ==>
                         1 <= (f.value.sequence - c.lastFaultSequence) % 256 <= 127)
                 case OtherInput => false
  {
  }

  /** A frame that is not accepted is invalid if it cannot be decoded, and ignored otherwise. */
  lemma {:induction false} InvalidExactly(c: Client, input: Input, now: int)
    ensures OnInput(c, input, now).1 == Invalid <==>
              now < 0
              || match input
                 case MotionInput(valid) => !valid
                 case OdometryInput(valid) => !valid
                 case HeartbeatInput(h) => h == None
                 case FaultInput(f) => f == None
                 case OtherInput => false
  {
  }

  /** What the host sees after an accepted frame. */
  lemma {:induction false} StateAfterFrame(c: Client, input: Input, now: int)
    requires OnInput(c, input, now).1 == DecodeStatus.Accepted
    ensures var n := OnInput(c, input, now).0;
      && n.reported == n.state.heartbeatStatus == n.monitor.snapshot.status
      && n.state.peerRebootCount == n.monitor.snapshot.peerRebootCount
      && (input.HeartbeatInput? ==>
            var h := input.heartbeat.value;
            && n.state.heartbeatStatus == Alive && n.state.heartbeatAgeMs == 0
            && n.state.nodeState == h.nodeState && n.state.uptimeMs == h.uptimeMs && n.state.faultSummary == h.faultSummary
            && n.monitor.sequenceValid && n.monitor.lastSequence == h.sequence && n.monitor.snapshot.receivedMs == now)
      && (input.FaultInput? ==>
            var f := input.fault.value;
            && n.state.faultSeverity == f.severity && n.state.activeFaults == f.activeFaults
            && n.state.latchedFaults == f.latchedFaults && n.state.faultSequence == f.faultSequence
            && n.faultSequenceValid && n.lastFaultSequence == f.sequence)
  {
  }

  /** What the host sees after a tick: the last accepted heartbeat, its age, and whether it is lost. */
  lemma {:induction false} StateAfterTick(c: Client, now: int)
    requires now >= 0 && c.monitor.sequenceValid && c.monitor.snapshot.status != Unknown
    ensures var (n, changed) := OnTick(c, now);
      var last := c.monitor.snapshot;
      && n.state.heartbeatStatus == (if IsLost(c.monitor, now) then TimedOut else Alive)
      && (now >= last.receivedMs ==> n.state.heartbeatAgeMs == now - last.receivedMs)
      && n.state.nodeState == last.heartbeat.nodeState && n.state.uptimeMs == last.heartbeat.uptimeMs
      && n.state.faultSummary == last.heartbeat.faultSummary && n.state.peerRebootCount == last.peerRebootCount
      && SameFaults(c.state, n.state)
      && (changed <==> n.state.heartbeatStatus != c.reported) && n.reported == n.state.heartbeatStatus
  {
  }

  lemma {:induction false} MotionOnWire(frame: CanFrame)
    ensures MotionIsValid(frame) <==>
              && IsWire(frame, 0x180, 16)
              && frame.data[1] <= 3 && frame.data[3] <= 5
              && IsPermille(Two(frame.data, 12)) && IsPermille(Two(frame.data, 14))
  {
    WireIs(frame, MOTION_STATUS_ID, 16);
    TwoIs(frame.data, 12);
    TwoIs(frame.data, 14);
  }

  /** Two bytes that hold a number from -1000 to 1000, negative ones modulo 2^16. */
  predicate IsPermille(n: int) {
    0 <= n <= 1000 || 0x1_0000 - 1000 <= n < 0x1_0000
  }

  lemma {:induction false} OdometryOnWire(frame: CanFrame)
    ensures OdometryIsValid(frame) <==> IsWire(frame, 0x181, 24) && frame.data[1] <= 1 && frame.data[3] == 0
  {
    WireIs(frame, ODOMETRY_REPORT_ID, 24);
  }
}
