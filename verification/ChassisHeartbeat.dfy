/** `ChassisHeartbeatMonitor`: serial-number arithmetic on heartbeat sequence and peer uptime. */
module ChassisHeartbeats {
  import opened Options
  import opened Crc16s
  import opened ChassisCanCodecs

  const TIMEOUT_MS := 300

  datatype HeartbeatStatus = Unknown | Alive | TimedOut

  datatype Snapshot = Snapshot(status: HeartbeatStatus, heartbeat: Heartbeat, receivedMs: int, ageMs: int,
                               peerRebootCount: nat)

  /** The fields of the monitor. */
  datatype Monitor = Monitor(snapshot: Snapshot, sequenceValid: bool, lastSequence: u8)

  const NO_HEARTBEAT := Heartbeat(0, 0, 0, 0, 0)
  const INITIAL_MONITOR := Monitor(Snapshot(Unknown, NO_HEARTBEAT, 0, 0, 0), false, 0)

  /** `static_cast<std::uint8_t>(a - b)`. */
  function SequenceDelta(a: u8, b: u8): u8 {
    (a - b) % 0x100
  }

  /** `static_cast<std::uint32_t>(a - b)`. */
  function UptimeDelta(a: u32, b: u32): u32 {
    (a - b) % TWO_32
  }

  predicate IsAhead(m: Monitor, h: Heartbeat) {
    var delta := SequenceDelta(h.sequence, m.lastSequence);
    m.sequenceValid ==> delta != 0 && (m.snapshot.status == TimedOut || delta < 128)
  }

  /** `decoded` is what the codec makes of the frame. */
  predicate Accepts(m: Monitor, decoded: Option<Heartbeat>, now: int) {
    now >= 0 && decoded.Some? && IsAhead(m, decoded.value)
  }

  predicate LooksRebooted(m: Monitor, h: Heartbeat) {
    && m.sequenceValid
    && h.uptimeMs < m.snapshot.heartbeat.uptimeMs
    && UptimeDelta(h.uptimeMs, m.snapshot.heartbeat.uptimeMs) >= TWO_31
  }

  function Accepted(m: Monitor, h: Heartbeat, now: int): Monitor {
    var reboots := m.snapshot.peerRebootCount + if LooksRebooted(m, h) then 1 else 0;
    Monitor(Snapshot(Alive, h, now, 0, reboots), true, h.sequence)
  }

  function Processed(m: Monitor, decoded: Option<Heartbeat>, now: int): Monitor {
    if Accepts(m, decoded, now) then Accepted(m, decoded.value, now) else m
  }

  function Updated(m: Monitor, now: int): Monitor {
    if m.snapshot.status == Alive && now - m.snapshot.receivedMs >= TIMEOUT_MS
    then m.(snapshot := m.snapshot.(status := TimedOut)) else m
  }

  function SnapshotAt(m: Monitor, now: int): Snapshot {
    if m.sequenceValid && now >= m.snapshot.receivedMs
    then m.snapshot.(ageMs := now - m.snapshot.receivedMs) else m.snapshot
  }

  class ChassisHeartbeatMonitor {
    var snapshot: Snapshot
    var sequenceValid: bool
    var lastSequence: u8

    function View(): Monitor
      reads this
    {
      Monitor(snapshot, sequenceValid, lastSequence)
    }

    constructor ()
      ensures View() == INITIAL_MONITOR
    {
      snapshot := Snapshot(Unknown, NO_HEARTBEAT, 0, 0, 0);
      sequenceValid := false;
      lastSequence := 0;
    }

    method Process(frame: CanFrame, now: int) returns (accepted: bool)
      modifies this
      ensures accepted == Accepts(old(View()), DecodeHeartbeat(frame), now)
      ensures View() == Processed(old(View()), DecodeHeartbeat(frame), now)
    {
      var decoded := DecodeHeartbeat(frame);
      accepted := ProcessDecoded(decoded, now);
    }

    method ProcessDecoded(decoded: Option<Heartbeat>, now: int) returns (accepted: bool)
      modifies this
      ensures accepted == Accepts(old(View()), decoded, now)
      ensures View() == Processed(old(View()), decoded, now)
    {
      if now < 0 || decoded == None {
        return false;
      }
      var heartbeat := decoded.value;
      var delta := SequenceDelta(heartbeat.sequence, lastSequence);
      if sequenceValid && (delta == 0 || (snapshot.status != TimedOut && delta >= 128)) {
        return false;
      }
      if sequenceValid && heartbeat.uptimeMs < snapshot.heartbeat.uptimeMs {
        if UptimeDelta(heartbeat.uptimeMs, snapshot.heartbeat.uptimeMs) >= TWO_31 {
          snapshot := snapshot.(peerRebootCount := snapshot.peerRebootCount + 1);
        }
      }
      sequenceValid := true;
      lastSequence := heartbeat.sequence;
      snapshot := snapshot.(status := Alive, heartbeat := heartbeat, receivedMs := now, ageMs := 0);
      return true;
    }

    method Update(now: int)
      modifies this
      ensures View() == Updated(old(View()), now)
    {
      if snapshot.status == Alive && now - snapshot.receivedMs >= TIMEOUT_MS {
        snapshot := snapshot.(status := TimedOut);
      }
    }

    method GetSnapshot(now: int) returns (result: Snapshot)
      ensures result == SnapshotAt(View(), now)
    {
      result := snapshot;
      if sequenceValid && now >= result.receivedMs {
        result := result.(ageMs := now - result.receivedMs);
      }
    }
  }

  // ---------------------------------------------------------------- what the arithmetic means

  /** A wire uptime that fell by 1 to 2^31 counts as a reboot, and nothing else does. */
  lemma {:induction false} RebootIffUptimeFell(m: Monitor, h: Heartbeat)
    requires m.sequenceValid
    ensures LooksRebooted(m, h) <==> 1 <= m.snapshot.heartbeat.uptimeMs - h.uptimeMs <= TWO_31
  {
  }

  /** Against the true, unbounded uptime: progress below 2^31 ms is never taken for a reboot, also
      where the 32-bit counter wraps. */
  lemma {:induction false} ProgressIsNoReboot(m: Monitor, h: Heartbeat, before: nat, after: nat)
    requires m.snapshot.heartbeat.uptimeMs == before % TWO_32 && h.uptimeMs == after % TWO_32
    requires before <= after < before + TWO_31
    ensures !LooksRebooted(m, h)
  {
  }

  /** While not timed out, an accepted heartbeat is 1 to 127 steps ahead, counting the sender's
      true sequence numbers modulo 256; after a timeout anything but a repeat is accepted. */
  lemma {:induction false} AcceptedSequence(m: Monitor, h: Heartbeat, last: nat, next: nat)
    requires m.sequenceValid && m.lastSequence == last % 0x100 && h.sequence == next % 0x100
    ensures m.snapshot.status != TimedOut ==> (IsAhead(m, h) <==> 1 <= (next - last) % 0x100 <= 127)
    ensures m.snapshot.status == TimedOut ==> (IsAhead(m, h) <==> (next - last) % 0x100 != 0)
  {
  }

  // ---------------------------------------------------------------- whole histories

  datatype MonitorEvent = Frame(decoded: Option<Heartbeat>, now: int) | Tick(now: int)

  function Step(m: Monitor, e: MonitorEvent): Monitor {
    match e
    case Frame(decoded, now) => Processed(m, decoded, now)
    case Tick(now) => Updated(m, now)
  }

  function Run(events: seq<MonitorEvent>): Monitor {
    if events == [] then INITIAL_MONITOR else Step(Run(events[..|events| - 1]), events[|events| - 1])
  }

  /** The wire uptimes of the accepted heartbeats, in order. */
  function AcceptedUptimes(events: seq<MonitorEvent>): seq<nat> {
    if events == [] then []
    else
      var init, e := events[..|events| - 1], events[|events| - 1];
      AcceptedUptimes(init)
      + if e.Frame? && Accepts(Run(init), e.decoded, e.now) then [e.decoded.value.uptimeMs] else []
  }

  /** How often a sequence of wire uptimes falls by 1 to 2^31. */
  function Falls(uptimes: seq<nat>): nat {
    if |uptimes| < 2 then 0
    else Falls(uptimes[..|uptimes| - 1]) + if 1 <= uptimes[|uptimes| - 2] - uptimes[|uptimes| - 1] <= TWO_31 then 1 else 0
  }

  ghost predicate CountsFalls(m: Monitor, uptimes: seq<nat>) {
    && m.snapshot.peerRebootCount == Falls(uptimes)
    && (m.sequenceValid <==> uptimes != [])
    && (uptimes != [] ==> m.snapshot.heartbeat.uptimeMs == uptimes[|uptimes| - 1])
  }

  lemma {:induction false} AcceptedCountsFalls(m: Monitor, h: Heartbeat, now: int, uptimes: seq<nat>)
    requires CountsFalls(m, uptimes)
    ensures CountsFalls(Accepted(m, h, now), uptimes + [h.uptimeMs])
  {
    var v := uptimes + [h.uptimeMs];
    assert v[..|v| - 1] == uptimes;
    if uptimes != [] {
      RebootIffUptimeFell(m, h);
    }
  }

  /** Every fall is counted exactly once, over any history of frames, good or bad, and ticks. */
  lemma {:induction false} CountIsFalls(events: seq<MonitorEvent>)
    ensures CountsFalls(Run(events), AcceptedUptimes(events))
  {
    if events != [] {
      var init, e := events[..|events| - 1], events[|events| - 1];
      CountIsFalls(init);
      if e.Frame? && Accepts(Run(init), e.decoded, e.now) {
        AcceptedCountsFalls(Run(init), e.decoded.value, e.now, AcceptedUptimes(init));
      } else {
        assert AcceptedUptimes(events) == AcceptedUptimes(init);
      }
    }
  }

  /** What the peer really did: between two heard heartbeats it either kept counting for less than 2^31
      ms, or it restarted, and then its wire uptime may be anything. */
  ghost predicate TrueHistory(uptimes: seq<nat>, restarted: seq<bool>, wire: seq<nat>) {
    && |uptimes| == |restarted| == |wire|
    && (forall i | 0 <= i < |wire| :: wire[i] == uptimes[i] % TWO_32)
    && (forall i | 1 <= i < |wire| && !restarted[i] :: uptimes[i - 1] <= uptimes[i] < uptimes[i - 1] + TWO_31)
  }

  /** The restart before heartbeat `i` can be told from the wire. */
  predicate IsVisible(restarted: seq<bool>, wire: seq<nat>, i: nat)
    requires |restarted| == |wire| && 1 <= i < |wire|
  {
    restarted[i] && 1 <= wire[i - 1] - wire[i] <= TWO_31
  }

  function Restarts(restarted: seq<bool>): nat {
    if |restarted| < 2 then 0
    else Restarts(restarted[..|restarted| - 1]) + if restarted[|restarted| - 1] then 1 else 0
  }

  /** No restart is counted that did not happen, and all of them are if and only if all are visible. */
  ghost predicate CountsVisible(count: nat, restarted: seq<bool>, wire: seq<nat>)
    requires |restarted| == |wire|
  {
    && count <= Restarts(restarted)
    && (count == Restarts(restarted) <==>
          forall i | 1 <= i < |wire| && restarted[i] :: IsVisible(restarted, wire, i))
  }

  lemma {:induction false} FallsAreVisibleRestarts(uptimes: seq<nat>, restarted: seq<bool>, wire: seq<nat>)
    requires TrueHistory(uptimes, restarted, wire)
    ensures CountsVisible(Falls(wire), restarted, wire)
    decreases |wire|
  {
    if |wire| >= 2 {
      var n := |wire| - 1;
      var r, w := restarted[..n], wire[..n];
      FallsAreVisibleRestarts(uptimes[..n], r, w);
      forall i | 1 <= i < n ensures r[i] == restarted[i] && IsVisible(r, w, i) == IsVisible(restarted, wire, i) {
      }
      if !restarted[n] {
        NoFallWithoutRestart(uptimes[n - 1], uptimes[n]);
      }
      assert Falls(wire) == Falls(w) + if IsVisible(restarted, wire, n) then 1 else 0;
    }
  }

  lemma {:induction false} NoFallWithoutRestart(before: nat, after: nat)
    requires before <= after < before + TWO_31
    ensures !(1 <= before % TWO_32 - after % TWO_32 <= TWO_31)
  {
  }

  /** Over any history, the reported reboot count never exceeds the number of restarts, and it is that
      number if and only if every restart showed on the wire as a fall of 1 to 2^31. */
  lemma {:induction false} CountIsRestarts(events: seq<MonitorEvent>, uptimes: seq<nat>, restarted: seq<bool>)
    requires TrueHistory(uptimes, restarted, AcceptedUptimes(events))
    ensures CountsVisible(Run(events).snapshot.peerRebootCount, restarted, AcceptedUptimes(events))
  {
    CountIsFalls(events);
    FallsAreVisibleRestarts(uptimes, restarted, AcceptedUptimes(events));
  }
}
