/** The whole command path: frames into the safety state source, its assessment into the adapter,
    and the adapter's command to the codec. */
module ChassisSafetyLoops {
  import opened Options
  import opened ChassisCanCodecs
  import opened ChassisHeartbeats
  import opened ChassisClients
  import opened ChassisSafetyAdapters
  import opened ChassisSafetyStateSources

  datatype Loop = Loop(source: Source, adapter: Adapter)

  function LoopWith(policy: Policy): Loop {
    Loop(INITIAL_SOURCE, AdapterWith(policy))
  }

  /** What happens to the loop, each at its own time. `StopRequest` is the loop's `Stop`, which
      resets the adapter and evaluates it with the interlock open. */
  datatype Event =
    | FrameArrived(input: Input, now: int)
    | RequestArrived(request: Request, controls: SafetyState, now: int)
    | RequestRefused(now: int)
    | OutputDue(controls: SafetyState, now: int)
    | StopRequest(now: int)

  const STOPPED_STATE := SafetyState(false, true, false, true, false)

  function Next(l: Loop, e: Event): Loop {
    match e
    case FrameArrived(input, now) => l.(source := Received(l.source, input, now).0)
    case RequestArrived(request, controls, now) =>
      var source := Ticked(l.source, now);
      Loop(source, Submitted(l.adapter, request, Assessed(source, controls, now), now).0)
    case RequestRefused(now) => l.(adapter := Rejected(l.adapter, now))
    case OutputDue(controls, now) =>
      var source := Ticked(l.source, now);
      Loop(source, Evaluated(l.adapter, Assessed(source, controls, now), now).0)
    case StopRequest(now) => l.(adapter := Evaluated(ResetAt(l.adapter, now), STOPPED_STATE, now).0)
  }

  function CommandOf(l: Loop, e: Event): Option<Command> {
    match e
    case OutputDue(controls, now) => Some(Evaluated(l.adapter, Assessed(Ticked(l.source, now), controls, now), now).1)
    case StopRequest(now) => Some(Evaluated(ResetAt(l.adapter, now), STOPPED_STATE, now).1)
    case _ => None
  }

  function Run(policy: Policy, events: seq<Event>): Loop {
    if events == [] then LoopWith(policy) else Next(Run(policy, events[..|events| - 1]), events[|events| - 1])
  }

  /** The loop before event `i`. */
  function Before(policy: Policy, events: seq<Event>, i: nat): Loop
    requires i <= |events|
  {
    Run(policy, events[..i])
  }

  /** The loop after more events. */
  function RunFrom(l: Loop, events: seq<Event>): Loop {
    if events == [] then l else Next(RunFrom(l, events[..|events| - 1]), events[|events| - 1])
  }

  lemma {:induction false} RunStep(policy: Policy, events: seq<Event>, e: Event)
    ensures Run(policy, events + [e]) == Next(Run(policy, events), e)
  {
    assert (events + [e])[..|events|] == events;
  }

  lemma {:induction false} RunFromStep(l: Loop, events: seq<Event>, e: Event)
    ensures RunFrom(l, events + [e]) == Next(RunFrom(l, events), e)
  {
    assert (events + [e])[..|events|] == events;
  }

  /** A history can be cut anywhere. */
  lemma {:induction false} RunSplit(policy: Policy, before: seq<Event>, events: seq<Event>)
    ensures Run(policy, before + events) == RunFrom(Run(policy, before), events)
    decreases |events|
  {
    if events == [] {
      assert before + events == before;
    } else {
      var init, last := events[..|events| - 1], events[|events| - 1];
      assert before + events == (before + init) + [last] && events == init + [last];
      RunSplit(policy, before, init);
      RunStep(policy, before + init, last);
      RunFromStep(Run(policy, before), init, last);
    }
  }

  lemma {:induction false} RunFromConcat(l: Loop, a: seq<Event>, b: seq<Event>)
    ensures RunFrom(l, a + b) == RunFrom(RunFrom(l, a), b)
    decreases |b|
  {
    if b == [] {
      assert a + b == a;
    } else {
      var init, last := b[..|b| - 1], b[|b| - 1];
      assert a + b == (a + init) + [last] && b == init + [last];
      RunFromConcat(l, a, init);
      RunFromStep(l, a + init, last);
      RunFromStep(RunFrom(l, a), init, last);
    }
  }

  // ---------------------------------------------------------------- the receive queue

  const NS_PER_MS := 1_000_000

  /** When the kernel received a frame and when it was read, on the same steady clock. */
  datatype KernelStamp = KernelStamp(valid: bool, receivedNs: int, dequeuedNs: int)

  /** The reception on the logical clock of the step, the age rounded up. */
  function LogicalMs(stamp: KernelStamp, now: int): Option<int> {
    if !stamp.valid || now < 0 || stamp.receivedNs <= 0 || stamp.dequeuedNs < stamp.receivedNs then None
    else
      var age := stamp.dequeuedNs - stamp.receivedNs;
      var ageMs := age / NS_PER_MS + if age % NS_PER_MS != 0 then 1 else 0;
      if ageMs > now then None else Some(now - ageMs)
  }

  /** A mapped stamp is never in the future nor negative, and never makes a frame younger than it is. */
  lemma {:induction false} LogicalMsMeans(stamp: KernelStamp, now: int)
    ensures var ms := LogicalMs(stamp, now); ms.Some? ==>
      && 0 <= ms.value <= now
      && NS_PER_MS * (now - ms.value - 1) < stamp.dequeuedNs - stamp.receivedNs <= NS_PER_MS * (now - ms.value)
  {
  }

  /** What one read of the socket gives; `frame` is `None` if it is no frame of this bus. */
  datatype Reception = Nothing | ReadError | Arrived(stamp: KernelStamp, frame: Option<CanFrame>)

  const RECEIVE_BUDGET := 64

  /** The loop's own commands, and heartbeats and fault frames that have grown too old in the queue. */
  predicate IsSkipped(frame: CanFrame, receivedMs: int, now: int) {
    || frame.id == VELOCITY_COMMAND_ID
    || ((frame.id == HEARTBEAT_ID || frame.id == FAULT_STATUS_ID) && now - receivedMs >= TIMEOUT_MS)
  }

  predicate IsGood(r: Reception, now: int) {
    r.Arrived? && LogicalMs(r.stamp, now).Some? && r.frame.Some?
  }

  /** The frame events of the reads of one step, and whether all of them went well. */
  function ReadEvents(queue: seq<Reception>, now: int): (seq<Event>, bool) {
    if queue == [] || queue[0].Nothing? then ([], true)
    else if !IsGood(queue[0], now) then ([], false)
    else
      var ms, frame := LogicalMs(queue[0].stamp, now).value, queue[0].frame.value;
      var (rest, ok) := ReadEvents(queue[1..], now);
      (FrameEvents(frame, ms, now) + rest, ok)
  }

  function FrameEvents(frame: CanFrame, receivedMs: int, now: int): seq<Event> {
    if IsSkipped(frame, receivedMs, now) then [] else [FrameArrived(Classify(frame), receivedMs)]
  }

  /** One step through the queue. */
  lemma {:induction false} ReadOne(queue: seq<Reception>, i: nat, now: int, done: seq<Event>)
    requires i < |queue| && IsGood(queue[i], now)
    ensures var more := FrameEvents(queue[i].frame.value, LogicalMs(queue[i].stamp, now).value, now);
      && done + ReadEvents(queue[i..], now).0 == (done + more) + ReadEvents(queue[i + 1..], now).0
      && ReadEvents(queue[i..], now).1 == ReadEvents(queue[i + 1..], now).1
  {
    assert queue[i..][1..] == queue[i + 1..];
    var more := FrameEvents(queue[i].frame.value, LogicalMs(queue[i].stamp, now).value, now);
    assert done + (more + ReadEvents(queue[i + 1..], now).0) == (done + more) + ReadEvents(queue[i + 1..], now).0;
  }

  lemma {:induction false} ReadStops(queue: seq<Reception>, i: nat, now: int, done: seq<Event>)
    requires i <= |queue| && (i < |queue| ==> !IsGood(queue[i], now))
    ensures done + ReadEvents(queue[i..], now).0 == done
    ensures ReadEvents(queue[i..], now).1 == (i == |queue| || queue[i].Nothing?)
  {
    if i < |queue| {
      assert queue[i..][0] == queue[i];
    }
    assert done + [] == done;
  }

  function WithinBudget(receptions: seq<Reception>): seq<Reception> {
    if |receptions| <= RECEIVE_BUDGET then receptions else receptions[..RECEIVE_BUDGET]
  }

  /** Every good frame is an event at its stamp, but for the loop's own commands, and for heartbeats and fault frames
      that have grown 300 ms old. */
  lemma {:induction false} FrameEventsExactly(frame: CanFrame, receivedMs: int, now: int)
    ensures FrameEvents(frame, receivedMs, now)
         == if frame.id == 0x101 || ((frame.id == 0x200 || frame.id == 0x240) && now >= receivedMs + 300) then []
            else [FrameArrived(Classify(frame), receivedMs)]
  {
  }

  /** A step reads up to 64 frames. */
  lemma {:induction false} BudgetIsSixtyFour(receptions: seq<Reception>)
    ensures |WithinBudget(receptions)| == if |receptions| < 64 then |receptions| else 64
    ensures WithinBudget(receptions) <= receptions
  {
  }

  /** A frame that the kernel stamped on its clock at most as long ago as the step's own time is accepted, and its
      stamp is its age, in whole milliseconds and rounded up, before the step. */
  lemma {:induction false} LogicalMsExactly(stamp: KernelStamp, now: int)
    ensures LogicalMs(stamp, now).Some? <==>
              && stamp.valid && now >= 0 && 0 < stamp.receivedNs <= stamp.dequeuedNs
              && stamp.dequeuedNs - stamp.receivedNs <= now * 1_000_000
  {
  }

  /** Every event of a step: the frames it reads, and the output unless a read went wrong. */
  function StepEvents(receptions: seq<Reception>, controls: SafetyState, now: int): seq<Event> {
    var (frames, ok) := ReadEvents(WithinBudget(receptions), now);
    frames + if ok then [OutputDue(controls, now)] else []
  }

  /** All frame events of a step carry stamps between 0 and the step's own time, and no heartbeat or
      fault frame that is 300 ms old gets through. */
  lemma {:induction false} ReadEventsFresh(queue: seq<Reception>, now: int)
    ensures forall e | e in ReadEvents(queue, now).0 ::
              e.FrameArrived? && 0 <= e.now <= now
              && (e.input.HeartbeatInput? || e.input.FaultInput? ==> now - e.now < TIMEOUT_MS)
    decreases |queue|
  {
    if queue != [] && IsGood(queue[0], now) {
      LogicalMsMeans(queue[0].stamp, now);
      ReadEventsFresh(queue[1..], now);
    }
  }

  lemma {:induction false} EnvelopeStep(a: Adapter, s: SafetyState, now: int)
    requires WithinEnvelope(a)
    ensures WithinEnvelope(Evaluated(a, s, now).0)
    ensures var c := Evaluated(a, s, now).1;
      && -0x8000 <= c.linear < 0x8000 && -0x8000 <= c.angular < 0x8000
      && VelocityEncodable(VelocityCommand(c.enabled, c.sequence, c.linear, c.angular))
  {
  }

  // ---------------------------------------------------------------- the loop as an object

  class VcanChassisSafetyLoop {
    const stateSource: ChassisCanSafetyStateSource
    const safetyAdapter: ChassisSafetyAdapter

    ghost predicate Valid()
      reads this, stateSource, safetyAdapter
    {
      stateSource.Valid() && WithinEnvelope(safetyAdapter.View())
    }

    function View(): Loop
      reads this, stateSource, stateSource.client, stateSource.client.heartbeatMonitor, stateSource.tracker,
            safetyAdapter
    {
      Loop(stateSource.View(), safetyAdapter.View())
    }

    constructor (policy: Policy)
      ensures Valid() && View() == LoopWith(policy)
      ensures fresh(stateSource) && fresh(stateSource.client) && fresh(stateSource.client.heartbeatMonitor)
      ensures fresh(stateSource.tracker) && fresh(safetyAdapter)
    {
      stateSource := new ChassisCanSafetyStateSource();
      safetyAdapter := new ChassisSafetyAdapter(policy);
    }

    method Submit(request: Request, controls: SafetyState, now: int) returns (ok: bool)
      requires Valid()
      modifies stateSource, stateSource.client, stateSource.client.heartbeatMonitor, safetyAdapter
      ensures Valid() && View() == Next(old(View()), RequestArrived(request, controls, now))
    {
      var state := stateSource.Evaluate(controls, now);
      ok := safetyAdapter.Submit(request, state, now);
    }

    method TakeFrame(frame: CanFrame, receivedMs: int, now: int)
      requires Valid()
      modifies stateSource, stateSource.client, stateSource.client.heartbeatMonitor, stateSource.tracker
      ensures Valid() && safetyAdapter.View() == old(safetyAdapter.View())
      ensures View() == RunFrom(old(View()), FrameEvents(frame, receivedMs, now))
    {
      if frame.id == VELOCITY_COMMAND_ID {
        return;
      }
      if (frame.id == HEARTBEAT_ID || frame.id == FAULT_STATUS_ID) && now - receivedMs >= TIMEOUT_MS {
        return;
      }
      var _ := stateSource.ProcessFrame(frame, receivedMs);
      RunFromStep(old(View()), [], FrameArrived(Classify(frame), receivedMs));
      assert [] + [FrameArrived(Classify(frame), receivedMs)] == FrameEvents(frame, receivedMs, now);
    }

    /** The receive loop of `Step`. */
    method ReadFrames(receptions: seq<Reception>, now: int) returns (ok: bool)
      requires Valid()
      modifies stateSource, stateSource.client, stateSource.client.heartbeatMonitor, stateSource.tracker
      ensures Valid() && safetyAdapter.View() == old(safetyAdapter.View())
      ensures View() == RunFrom(old(View()), ReadEvents(WithinBudget(receptions), now).0)
      ensures ok == ReadEvents(WithinBudget(receptions), now).1
    {
      var queue := WithinBudget(receptions);
      ghost var done: seq<Event> := [];
      assert queue[0..] == queue && [] + ReadEvents(queue, now).0 == ReadEvents(queue, now).0;
      for index := 0 to |queue|
        invariant Valid() && safetyAdapter.View() == old(safetyAdapter.View())
        invariant View() == RunFrom(old(View()), done)
        invariant ReadEvents(queue, now).0 == done + ReadEvents(queue[index..], now).0
        invariant ReadEvents(queue, now).1 == ReadEvents(queue[index..], now).1
      {
        var r := queue[index];
        if r.Nothing? || r.ReadError? || LogicalMs(r.stamp, now) == None || r.frame == None {
          ReadStops(queue, index, now, done);
          return r.Nothing?;
        }
        ReadOne(queue, index, now, done);
        ghost var more := FrameEvents(r.frame.value, LogicalMs(r.stamp, now).value, now);
        RunFromConcat(old(View()), done, more);
        TakeFrame(r.frame.value, LogicalMs(r.stamp, now).value, now);
        done := done + more;
      }
      ReadStops(queue, |queue|, now, done);
      return true;
    }

    /** One assessment, one command, one frame. The codec never refuses the command of an adapter
        within its envelope. */
    method Output(controls: SafetyState, now: int) returns (command: Command, frame: Option<CanFrame>)
      requires Valid()
      modifies stateSource, stateSource.client, stateSource.client.heartbeatMonitor, safetyAdapter
      ensures Valid() && View() == Next(old(View()), OutputDue(controls, now))
      ensures Some(command) == CommandOf(old(View()), OutputDue(controls, now))
      ensures frame.Some?
      ensures -0x8000 <= command.linear < 0x8000 && -0x8000 <= command.angular < 0x8000
      ensures CarriesVelocity(frame.value,
                              VelocityCommand(command.enabled, command.sequence, command.linear, command.angular))
    {
      var state := stateSource.Evaluate(controls, now);
      command := safetyAdapter.Evaluate(state, now);
      EnvelopeStep(old(safetyAdapter.View()), state, now);
      frame := EncodeVelocity(VelocityCommand(command.enabled, command.sequence, command.linear, command.angular));
    }

    /** Reads what has arrived, and then makes one output, unless a read goes wrong. */
    method Step(receptions: seq<Reception>, controls: SafetyState, now: int)
      returns (command: Option<Command>, frame: Option<CanFrame>)
      requires Valid()
      modifies stateSource, stateSource.client, stateSource.client.heartbeatMonitor, stateSource.tracker, safetyAdapter
      ensures Valid()
      ensures now < 0 ==> View() == old(View())
      ensures now >= 0 ==> View() == RunFrom(old(View()), StepEvents(receptions, controls, now))
      ensures command.Some? <==> now >= 0 && ReadEvents(WithinBudget(receptions), now).1
      ensures command.Some? <==> frame.Some?
      ensures command.Some? ==>
                command == CommandOf(RunFrom(old(View()), ReadEvents(WithinBudget(receptions), now).0), OutputDue(controls, now))
    {
      command, frame := None, None;
      if now < 0 {
        return;
      }
      ghost var events := ReadEvents(WithinBudget(receptions), now).0;
      var ok := ReadFrames(receptions, now);
      if !ok {
        assert events + [] == events;
        return;
      }
      var c;
      c, frame := Output(controls, now);
      command := Some(c);
      assert (events + [OutputDue(controls, now)])[..|events|] == events;
    }

    /** A disabled command, and the adapter as after a reset; refused for a negative time. */
    method Stop(now: int) returns (command: Option<Command>, frame: Option<CanFrame>)
      requires Valid()
      modifies safetyAdapter
      ensures Valid()
      ensures command.Some? <==> now >= 0
      ensures now < 0 ==> View() == old(View())
      ensures command.Some? ==>
                && View() == Next(old(View()), StopRequest(now))
                && command == CommandOf(old(View()), StopRequest(now)) && !command.value.enabled
                && command.value.reason == if old(View()).adapter.policy.IsValid() then Disabled else InvalidCommand
      ensures command.Some? <==> frame.Some?
      ensures frame.Some? ==> CarriesVelocity(frame.value, VelocityCommand(false, command.value.sequence, 0, 0))
    {
      if now < 0 {
        return None, None;
      }
      safetyAdapter.Reset(now);
      var c := safetyAdapter.Evaluate(STOPPED_STATE, now);
      frame := EncodeVelocity(VelocityCommand(c.enabled, c.sequence, c.linear, c.angular));
      command := Some(c);
    }
  }
}
