/** `ChassisCanSafetyStateSource`: gates the fault state on freshness and on the peer not having
    rebooted since the last fault frame. */
module ChassisSafetyStateSources {
  import opened ChassisCanCodecs
  import opened ChassisHeartbeats
  import opened ChassisClients
  import opened ChassisSafetyAdapters

  datatype Source = Source(
    client: Client, chassis: ChassisState, tracker: Tracker, faultSeen: bool, observedRebootCount: nat)

  const INITIAL_SOURCE := Source(INITIAL_CLIENT, INITIAL_CHASSIS, TrackerAt(DEFAULT_FRESHNESS), false, 0)

  predicate IsFaulty(state: ChassisState) {
    state.faultSeverity != 0 || state.activeFaults != 0
  }

  /** An accepted heartbeat: if the peer rebooted, the fault frames seen so far no longer count. */
  function NoteHeartbeat(s: Source, now: int): Source {
    s.(faultSeen := s.faultSeen && s.chassis.peerRebootCount == s.observedRebootCount,
       observedRebootCount := s.chassis.peerRebootCount,
       tracker := WithHeartbeat(s.tracker, now))
  }

  function NoteFault(s: Source, now: int): Source {
    s.(faultSeen := true, tracker := WithFault(s.tracker, IsFaulty(s.chassis), now))
  }

  function Received(s: Source, input: Input, now: int): (Source, DecodeStatus) {
    var (client, status) := OnInput(s.client, input, now);
    if status != DecodeStatus.Accepted then (s.(client := client), status)
    else
      var t := s.(client := client, chassis := client.state);
      (if input.HeartbeatInput? then NoteHeartbeat(t, now) else if input.FaultInput? then NoteFault(t, now) else t,
       status)
  }

  /** The tick inside `Evaluate`. */
  function Ticked(s: Source, now: int): Source {
    var (client, changed) := OnTick(s.client, now);
    if changed then
      s.(client := client, chassis := client.state,
         faultSeen := s.faultSeen && client.state.heartbeatStatus != TimedOut)
    else s.(client := client)
  }

  function Assessed(s: Source, controls: SafetyState, now: int): SafetyState {
    var result := Assess(s.tracker, controls, now);
    if result.peerAlive && !s.faultSeen then result.(chassisFault := true) else result
  }

  class ChassisCanSafetyStateSource {
    const client: ChassisClient
    const tracker: ChassisSafetyStateTracker
    var chassis: ChassisState
    var faultSeen: bool
    var observedRebootCount: nat

    ghost predicate Valid()
      reads this
    {
      tracker.policy == DEFAULT_FRESHNESS
    }

    function View(): Source
      reads this, client, client.heartbeatMonitor, tracker
    {
      Source(client.View(), chassis, tracker.View(), faultSeen, observedRebootCount)
    }

    constructor ()
      ensures Valid() && View() == INITIAL_SOURCE
      ensures fresh(client) && fresh(client.heartbeatMonitor) && fresh(tracker)
    {
      client := new ChassisClient();
      tracker := new ChassisSafetyStateTracker(DEFAULT_FRESHNESS);
      chassis, faultSeen, observedRebootCount := INITIAL_CHASSIS, false, 0;
    }

    method ProcessFrame(frame: CanFrame, now: int) returns (status: DecodeStatus)
      requires Valid()
      modifies this, client, client.heartbeatMonitor, tracker
      ensures Valid() && (View(), status) == Received(old(View()), Classify(frame), now)
    {
      status := ProcessInput(Classify(frame), now);
    }

    method ProcessInput(input: Input, now: int) returns (status: DecodeStatus)
      requires Valid()
      modifies this, client, client.heartbeatMonitor, tracker
      ensures Valid() && (View(), status) == Received(old(View()), input, now)
    {
      var out;
      status, out := client.ProcessInput(input, now);
      if status == DecodeStatus.Accepted {
        chassis := out.value;
      }
      if status == DecodeStatus.Accepted && input.HeartbeatInput? {
        if chassis.peerRebootCount != observedRebootCount {
          observedRebootCount := chassis.peerRebootCount;
          faultSeen := false;
        }
        var _ := tracker.UpdatePeerHeartbeat(now);
      }
      if status == DecodeStatus.Accepted && input.FaultInput? {
        faultSeen := true;
        var _ := tracker.UpdateChassisFault(chassis.faultSeverity != 0 || chassis.activeFaults != 0, now);
      }
    }

    method Evaluate(controls: SafetyState, now: int) returns (result: SafetyState)
      requires Valid()
      modifies this, client, client.heartbeatMonitor
      ensures Valid() && View() == Ticked(old(View()), now)
      ensures result == Assessed(View(), controls, now)
    {
      var updated := client.Update(now);
      if updated.Some? {
        chassis := updated.value;
        if chassis.heartbeatStatus == TimedOut {
          faultSeen := false;
        }
      }
      result := Assess(tracker.View(), controls, now);
      if result.peerAlive && !faultSeen {
        result := result.(chassisFault := true);
      }
    }
  }
}
