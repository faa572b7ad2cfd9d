/** What an enabled command proves about the history of the safety loop, and the other way round. */
module ChassisSafetyHistories {
  import opened Options
  import opened Crc16s
  import opened ChassisCanCodecs
  import ChassisHeartbeats
  import opened ChassisClients
  import opened ChassisSafetyAdapters
  import opened ChassisSafetyStateSources
  import opened ChassisSafetyLoops

  // ---------------------------------------------------------------- what happened, and when last

  /** What an event can show. An accepted heartbeat or fault frame is recorded unless an earlier one
      carries a later stamp; a timeout is noticed when the tick of an assessment reports it; a request
      is dropped by a refusal and by every disabled output. */
  datatype Fact =
    | FrameAccepted | HeartbeatAccepted | FaultAccepted | HeartbeatRecorded | FaultRecorded
    | RebootDetected | TimeoutNoticed | RequestAccepted | RequestDropped | OutputMade

  /** The events that begin with a tick of the source. */
  predicate IsTick(e: Event) {
    e.now >= 0 && (e.RequestArrived? || e.OutputDue?)
  }

  predicate IsAccepted(l: Loop, e: Event) {
    e.FrameArrived? && Received(l.source, e.input, e.now).1 == DecodeStatus.Accepted
  }

  predicate Shows(l: Loop, e: Event, fact: Fact) {
    match fact
    case FrameAccepted => IsAccepted(l, e)
    case HeartbeatAccepted => IsAccepted(l, e) && e.input.HeartbeatInput?
    case FaultAccepted => IsAccepted(l, e) && e.input.FaultInput?
    case HeartbeatRecorded =>
      IsAccepted(l, e) && e.input.HeartbeatInput?
      && TakesTime(l.source.tracker, l.source.tracker.lastPeerHeartbeatMs, e.now)
    case FaultRecorded =>
      IsAccepted(l, e) && e.input.FaultInput?
      && TakesTime(l.source.tracker, l.source.tracker.lastFaultStateMs, e.now)
    case RebootDetected =>
      IsAccepted(l, e) && e.input.HeartbeatInput?
      && Next(l, e).source.client.monitor.snapshot.peerRebootCount != l.source.client.monitor.snapshot.peerRebootCount
    case TimeoutNoticed =>
      IsTick(e) && OnTick(l.source.client, e.now).1
      && OnTick(l.source.client, e.now).0.state.heartbeatStatus == ChassisHeartbeats.TimedOut
    case RequestAccepted => e.RequestArrived? && IsTaken(l, e)
    case RequestDropped =>
      || (e.RequestArrived? && !IsTaken(l, e))
      || e.RequestRefused?
      || (CommandOf(l, e).Some? && !CommandOf(l, e).value.enabled)
    case OutputMade => CommandOf(l, e).Some?
  }

  predicate IsTaken(l: Loop, e: Event)
    requires e.RequestArrived?
  {
    Submitted(l.adapter, e.request, Assessed(Ticked(l.source, e.now), e.controls, e.now), e.now).1
  }

  function Showing(fact: Fact): (Loop, Event) -> bool {
    (l, e) => Shows(l, e, fact)
  }

  predicate HappensAt(policy: Policy, events: seq<Event>, i: nat, shows: (Loop, Event) -> bool)
    requires i < |events|
  {
    shows(Before(policy, events, i), events[i])
  }

  /** Which events show it. */
  function History(policy: Policy, events: seq<Event>, shows: (Loop, Event) -> bool): (h: seq<bool>)
    ensures |h| == |events|
  {
    if events == [] then []
    else History(policy, events[..|events| - 1], shows) + [HappensAt(policy, events, |events| - 1, shows)]
  }

  lemma {:induction false} HistoryAt(policy: Policy, events: seq<Event>, j: nat, shows: (Loop, Event) -> bool)
    requires j < |events|
    ensures History(policy, events, shows)[j] == HappensAt(policy, events, j, shows)
    decreases events
  {
    var init := events[..|events| - 1];
    if j < |init| {
      HistoryAt(policy, init, j, shows);
      assert init[..j] == events[..j];
    }
  }

  function LastTrue(h: seq<bool>): (i: int)
    ensures -1 <= i < |h|
    ensures i >= 0 ==> h[i]
    ensures forall j | i < j < |h| :: !h[j]
  {
    if h == [] then -1 else if h[|h| - 1] then |h| - 1 else LastTrue(h[..|h| - 1])
  }

  /** The index of the latest event that shows the fact, or -1. */
  function Last(policy: Policy, events: seq<Event>, fact: Fact): (i: int)
    ensures -1 <= i < |events|
  {
    LastTrue(History(policy, events, Showing(fact)))
  }

  lemma {:induction false} LastIsLatest(policy: Policy, events: seq<Event>, fact: Fact)
    ensures var i := Last(policy, events, fact);
      && (i >= 0 ==> HappensAt(policy, events, i, Showing(fact)))
      && forall j | i < j < |events| :: !HappensAt(policy, events, j, Showing(fact))
  {
    var shows := Showing(fact);
    forall j | 0 <= j < |events|
      ensures History(policy, events, shows)[j] == HappensAt(policy, events, j, shows)
    {
      HistoryAt(policy, events, j, shows);
    }
  }

  lemma {:induction false} LastAfter(policy: Policy, events: seq<Event>, e: Event, fact: Fact)
    ensures Last(policy, events + [e], fact)
         == if Shows(Run(policy, events), e, fact) then |events| else Last(policy, events, fact)
  {
    var all, shows := events + [e], Showing(fact);
    assert all[..|all| - 1] == events && all[|all| - 1] == e;
    assert History(policy, all, shows)[..|events|] == History(policy, events, shows);
    assert HappensAt(policy, all, |events|, shows) == Shows(Run(policy, events), e, fact);
  }

  /** The time of event `i`, and -1 for "never". */
  function TimeOf(events: seq<Event>, i: int): int
    requires -1 <= i < |events|
  {
    if i < 0 then -1 else events[i].now
  }

  // ---------------------------------------------------------------- what the source remembers

  predicate FaultFree(e: Event) {
    e.FrameArrived? && e.input.FaultInput? && e.input.fault.Some?
    && e.input.fault.value.severity == 0 && e.input.fault.value.activeFaults == 0
  }

  /** The time is the stamp of the frame recorded last, and no accepted one carries a later stamp. */
  ghost predicate IsNewest(policy: Policy, events: seq<Event>, accepted: Fact, recorded: Fact, time: int) {
    && time == TimeOf(events, Last(policy, events, recorded))
    && forall j | 0 <= j < |events| && HappensAt(policy, events, j, Showing(accepted)) :: 0 <= events[j].now <= time
  }

  /** The source's memory of the frames, in terms of the events that put it there. */
  ghost predicate SourceRemembers(policy: Policy, events: seq<Event>, s: Source) {
    var fault := Last(policy, events, FaultRecorded);
    && IsReady(s)
    && IsNewest(policy, events, HeartbeatAccepted, HeartbeatRecorded, s.tracker.lastPeerHeartbeatMs)
    && IsNewest(policy, events, FaultAccepted, FaultRecorded, s.tracker.lastFaultStateMs)
    && (fault >= 0 ==> s.tracker.chassisFault == !FaultFree(events[fault]))
    && (s.faultSeen <==>
          && Last(policy, events, FaultAccepted) > Last(policy, events, RebootDetected)
          && Last(policy, events, FaultAccepted) > Last(policy, events, TimeoutNoticed))
  }

  predicate IsReady(s: Source) {
    && s.tracker.policy == DEFAULT_FRESHNESS
    && s.client.state.peerRebootCount == s.client.monitor.snapshot.peerRebootCount
    && s.observedRebootCount == s.client.monitor.snapshot.peerRebootCount
  }

  lemma {:induction false} ReceivedRecords(s: Source, input: Input, now: int)
    requires IsReady(s)
    ensures var (t, status) := Received(s, input, now);
      var heartbeat := status == DecodeStatus.Accepted && input.HeartbeatInput?;
      var fault := status == DecodeStatus.Accepted && input.FaultInput?;
      var rebooted := t.client.monitor.snapshot.peerRebootCount != s.client.monitor.snapshot.peerRebootCount;
      var tracker, next := s.tracker, t.tracker;
      && IsReady(t)
      && (status == DecodeStatus.Accepted ==> now >= 0)
      && next.lastPeerHeartbeatMs ==
           (if heartbeat && TakesTime(tracker, tracker.lastPeerHeartbeatMs, now) then now else tracker.lastPeerHeartbeatMs)
      && next.lastFaultStateMs ==
           (if fault && TakesTime(tracker, tracker.lastFaultStateMs, now) then now else tracker.lastFaultStateMs)
      && (fault ==> input.fault.Some?)
      && next.chassisFault ==
           (if fault && TakesTime(tracker, tracker.lastFaultStateMs, now)
            then !(input.fault.value.severity == 0 && input.fault.value.activeFaults == 0) else tracker.chassisFault)
      && (t.faultSeen <==> fault || (s.faultSeen && !(heartbeat && rebooted)))
  {
  }

  /** A tick clears the fault state exactly when it notices a timeout. */
  lemma {:induction false} TickRecords(s: Source, now: int)
    requires IsReady(s)
    ensures var t := Ticked(s, now);
      && IsReady(t) && t.tracker == s.tracker
      && (t.faultSeen <==>
            s.faultSeen && !(now >= 0 && OnTick(s.client, now).1 && OnTick(s.client, now).0.state.heartbeatStatus == ChassisHeartbeats.TimedOut))
  {
  }

  lemma {:induction false} NewestAfter(policy: Policy, events: seq<Event>, e: Event, accepted: Fact, recorded: Fact,
                                       time: int, next: int)
    requires IsNewest(policy, events, accepted, recorded, time)
    requires var l := Run(policy, events);
      && (Shows(l, e, recorded) ==> Shows(l, e, accepted))
      && (Shows(l, e, accepted) ==> e.now >= 0 && (Shows(l, e, recorded) <==> (time >= 0 ==> e.now >= time)))
      && next == if Shows(l, e, recorded) then e.now else time
    ensures IsNewest(policy, events + [e], accepted, recorded, next)
  {
    var all := events + [e];
    LastAfter(policy, events, e, recorded);
    assert all[|events|] == e && all[..|events|] == events;
    forall j | 0 <= j < |all| && HappensAt(policy, all, j, Showing(accepted)) ensures 0 <= all[j].now <= next {
      if j < |events| {
        HappensInPrefix(policy, events, e, j, accepted);
        assert all[j] == events[j];
      } else {
        assert Shows(Run(policy, events), e, accepted);
      }
    }
  }

  lemma {:induction false} HappensInPrefix(policy: Policy, events: seq<Event>, e: Event, j: nat, fact: Fact)
    requires j < |events|
    ensures HappensAt(policy, events + [e], j, Showing(fact)) == HappensAt(policy, events, j, Showing(fact))
  {
    assert (events + [e])[..j] == events[..j];
  }

  /** What one event does to the source, in terms of the facts it shows. */
  predicate SourceFollows(e: Event, s: Source, t: Source, heartbeat: bool, fault: bool, seen: bool, cleared: bool) {
    && IsReady(t)
    && t.tracker.lastPeerHeartbeatMs == (if heartbeat then e.now else s.tracker.lastPeerHeartbeatMs)
    && t.tracker.lastFaultStateMs == (if fault then e.now else s.tracker.lastFaultStateMs)
    && t.tracker.chassisFault == (if fault then !FaultFree(e) else s.tracker.chassisFault)
    && !(seen && cleared)
    && (t.faultSeen <==> seen || (s.faultSeen && !cleared))
  }

  lemma {:induction false} FrameFollows(l: Loop, input: Input, now: int)
    requires IsReady(l.source)
    ensures var e := FrameArrived(input, now);
      SourceFollows(e, l.source, Next(l, e).source, Shows(l, e, HeartbeatRecorded), Shows(l, e, FaultRecorded),
                    Shows(l, e, FaultAccepted), Shows(l, e, RebootDetected) || Shows(l, e, TimeoutNoticed))
  {
    ReceivedRecords(l.source, input, now);
  }

  lemma {:induction false} SourceShown(l: Loop, e: Event)
    requires IsReady(l.source)
    ensures SourceFollows(e, l.source, Next(l, e).source, Shows(l, e, HeartbeatRecorded), Shows(l, e, FaultRecorded),
                          Shows(l, e, FaultAccepted), Shows(l, e, RebootDetected) || Shows(l, e, TimeoutNoticed))
  {
    if e.FrameArrived? {
      FrameFollows(l, e.input, e.now);
    } else {
      TickRecords(l.source, e.now);
    }
  }

  /** When an accepted frame is recorded. */
  lemma {:induction false} RecordedWhenNewest(l: Loop, e: Event)
    requires IsReady(l.source)
    ensures Shows(l, e, HeartbeatRecorded) <==>
              Shows(l, e, HeartbeatAccepted)
              && (l.source.tracker.lastPeerHeartbeatMs >= 0 ==> e.now >= l.source.tracker.lastPeerHeartbeatMs)
    ensures Shows(l, e, FaultRecorded) <==>
              Shows(l, e, FaultAccepted)
              && (l.source.tracker.lastFaultStateMs >= 0 ==> e.now >= l.source.tracker.lastFaultStateMs)
    ensures Shows(l, e, HeartbeatAccepted) || Shows(l, e, FaultAccepted) ==> e.now >= 0
  {
    if e.FrameArrived? {
      ReceivedRecords(l.source, e.input, e.now);
    }
  }

  /** The invariant after an event, from the facts it shows. */
  lemma {:induction false} SourceAfter(policy: Policy, events: seq<Event>, e: Event, s: Source, t: Source, heartbeat: bool,
                                       fault: bool, seen: bool, rebooted: bool, noticed: bool)
    requires SourceRemembers(policy, events, s) && SourceFollows(e, s, t, heartbeat, fault, seen, rebooted || noticed)
    requires IsNewest(policy, events + [e], HeartbeatAccepted, HeartbeatRecorded, t.tracker.lastPeerHeartbeatMs)
    requires IsNewest(policy, events + [e], FaultAccepted, FaultRecorded, t.tracker.lastFaultStateMs)
    requires Last(policy, events + [e], FaultRecorded) == if fault then |events| else Last(policy, events, FaultRecorded)
    requires Last(policy, events + [e], FaultAccepted) == if seen then |events| else Last(policy, events, FaultAccepted)
    requires Last(policy, events + [e], RebootDetected) == if rebooted then |events| else Last(policy, events, RebootDetected)
    requires Last(policy, events + [e], TimeoutNoticed) == if noticed then |events| else Last(policy, events, TimeoutNoticed)
    ensures SourceRemembers(policy, events + [e], t)
  {
    assert (events + [e])[|events|] == e;
  }

  lemma {:induction false} NewestStep(policy: Policy, events: seq<Event>, e: Event)
    requires SourceRemembers(policy, events, Run(policy, events).source)
    ensures var t := Next(Run(policy, events), e).source;
      && IsNewest(policy, events + [e], HeartbeatAccepted, HeartbeatRecorded, t.tracker.lastPeerHeartbeatMs)
      && IsNewest(policy, events + [e], FaultAccepted, FaultRecorded, t.tracker.lastFaultStateMs)
  {
    var l := Run(policy, events);
    var s, t := l.source, Next(l, e).source;
    SourceShown(l, e);
    RecordedWhenNewest(l, e);
    NewestAfter(policy, events, e, HeartbeatAccepted, HeartbeatRecorded, s.tracker.lastPeerHeartbeatMs,
                t.tracker.lastPeerHeartbeatMs);
    NewestAfter(policy, events, e, FaultAccepted, FaultRecorded, s.tracker.lastFaultStateMs, t.tracker.lastFaultStateMs);
  }

  lemma {:induction false} SourceStep(policy: Policy, events: seq<Event>, e: Event)
    requires SourceRemembers(policy, events, Run(policy, events).source)
    ensures SourceRemembers(policy, events + [e], Next(Run(policy, events), e).source)
  {
    var l := Run(policy, events);
    NewestStep(policy, events, e);
    LastAfter(policy, events, e, FaultRecorded);
    LastAfter(policy, events, e, FaultAccepted);
    LastAfter(policy, events, e, RebootDetected);
    LastAfter(policy, events, e, TimeoutNoticed);
    SourceShown(l, e);
    SourceAfter(policy, events, e, l.source, Next(l, e).source, Shows(l, e, HeartbeatRecorded), Shows(l, e, FaultRecorded),
                Shows(l, e, FaultAccepted), Shows(l, e, RebootDetected), Shows(l, e, TimeoutNoticed));
  }

  // ---------------------------------------------------------------- what the adapter remembers

  /** The adapter's memory of the requests and outputs. */
  ghost predicate AdapterRemembers(policy: Policy, events: seq<Event>, a: Adapter) {
    var request, output := Last(policy, events, RequestAccepted), Last(policy, events, OutputMade);
    && a.policy == policy
    && (a.request.Some? <==> request > Last(policy, events, RequestDropped))
    && (a.request.Some? ==>
          && !a.invalidCommandPending
          && request >= 0 && events[request].RequestArrived?
          && a.lastRequestMs == events[request].now
          && a.request.value == events[request].request && a.request.value.Scaled?)
    && a.lastOutputMs == (if output >= 0 && events[output].now > 0 then events[output].now else 0)
  }

  lemma {:induction false} SubmitRecords(a: Adapter, r: Request, s: SafetyState, now: int)
    ensures var (b, ok) := Submitted(a, r, s, now);
      b.policy == a.policy && b.lastOutputMs == a.lastOutputMs
      && (if ok then b.request == Some(r) && r.Scaled? && b.lastRequestMs == now && !b.invalidCommandPending
          else b.request == None)
  {
  }

  lemma {:induction false} EvaluateRecords(a: Adapter, s: SafetyState, now: int)
    requires a.lastOutputMs >= 0
    ensures var (b, c) := Evaluated(a, s, now);
      b.policy == a.policy && b.lastOutputMs == (if now > 0 then now else 0)
      && (if c.enabled then b.request == a.request && b.lastRequestMs == a.lastRequestMs
                            && b.invalidCommandPending == a.invalidCommandPending
          else b.request == None)
  {
  }

  lemma {:induction false} StopRecords(a: Adapter, now: int)
    ensures var (b, c) := Evaluated(ResetAt(a, now), STOPPED_STATE, now);
      !c.enabled && b.policy == a.policy && b.request == None && b.lastOutputMs == (if now > 0 then now else 0)
  {
  }

  /** What one event does to the adapter, in terms of the facts it shows. */
  predicate AdapterFollows(e: Event, a: Adapter, b: Adapter, accepted: bool, dropped: bool, output: bool) {
    && b.policy == a.policy
    && (accepted ==> !dropped && e.RequestArrived? && e.request.Scaled?
                     && b.request == Some(e.request) && b.lastRequestMs == e.now && !b.invalidCommandPending)
    && (dropped ==> b.request == None)
    && (!accepted && !dropped ==> b.request == a.request && b.lastRequestMs == a.lastRequestMs
                                  && b.invalidCommandPending == a.invalidCommandPending)
    && b.lastOutputMs == (if output then (if e.now > 0 then e.now else 0) else a.lastOutputMs)
  }

  lemma {:induction false} AdapterAfter(policy: Policy, events: seq<Event>, e: Event, a: Adapter, b: Adapter,
                                        accepted: bool, dropped: bool, output: bool)
    requires AdapterRemembers(policy, events, a) && AdapterFollows(e, a, b, accepted, dropped, output)
    requires Last(policy, events + [e], RequestAccepted) == if accepted then |events| else Last(policy, events, RequestAccepted)
    requires Last(policy, events + [e], RequestDropped) == if dropped then |events| else Last(policy, events, RequestDropped)
    requires Last(policy, events + [e], OutputMade) == if output then |events| else Last(policy, events, OutputMade)
    ensures AdapterRemembers(policy, events + [e], b)
  {
    assert (events + [e])[|events|] == e;
  }

  lemma {:induction false} ShownFollows(l: Loop, e: Event)
    requires l.adapter.lastOutputMs >= 0
    ensures AdapterFollows(e, l.adapter, Next(l, e).adapter, Shows(l, e, RequestAccepted), Shows(l, e, RequestDropped),
                           Shows(l, e, OutputMade))
  {
    match e
    case RequestArrived(request, controls, now) =>
      SubmitRecords(l.adapter, request, Assessed(Ticked(l.source, now), controls, now), now);
    case OutputDue(controls, now) =>
      EvaluateRecords(l.adapter, Assessed(Ticked(l.source, now), controls, now), now);
    case StopRequest(now) =>
      StopRecords(l.adapter, now);
    case _ =>
  }

  lemma {:induction false} AdapterStep(policy: Policy, events: seq<Event>, e: Event)
    requires AdapterRemembers(policy, events, Run(policy, events).adapter)
    ensures AdapterRemembers(policy, events + [e], Next(Run(policy, events), e).adapter)
  {
    var l := Run(policy, events);
    LastAfter(policy, events, e, RequestAccepted);
    LastAfter(policy, events, e, RequestDropped);
    LastAfter(policy, events, e, OutputMade);
    ShownFollows(l, e);
    AdapterAfter(policy, events, e, l.adapter, Next(l, e).adapter, Shows(l, e, RequestAccepted),
                 Shows(l, e, RequestDropped), Shows(l, e, OutputMade));
  }

  /** Over any history, with any stamps in any order. */
  lemma {:induction false} LoopRemembers(policy: Policy, events: seq<Event>)
    ensures SourceRemembers(policy, events, Run(policy, events).source)
    ensures AdapterRemembers(policy, events, Run(policy, events).adapter)
  {
    if events != [] {
      var init, e := events[..|events| - 1], events[|events| - 1];
      assert init + [e] == events;
      LoopRemembers(policy, init);
      SourceStep(policy, init, e);
      AdapterStep(policy, init, e);
    }
  }

  // ---------------------------------------------------------------- when a timeout is noticed

  /** The events that look at the age of the last heartbeat. */
  predicate Checks(e: Event) {
    e.now >= 0 && (e.FrameArrived? || IsTick(e))
  }

  predicate FindsOld(events: seq<Event>, h: nat, k: nat)
    requires h < |events| && k < |events|
  {
    Checks(events[k]) && events[k].now - events[h].now >= ChassisHeartbeats.TIMEOUT_MS
  }

  /** Behind heartbeat `h` and up to event `r`, some event found it too old. */
  predicate Expired(events: seq<Event>, h: nat, r: nat)
    requires h < |events| && r < |events|
  {
    exists k | h < k <= r :: FindsOld(events, h, k)
  }

  /** An event after which the state has been handed on: a tick, or an accepted frame of any kind. */
  predicate Reports(policy: Policy, events: seq<Event>, r: nat)
    requires r < |events|
  {
    IsTick(events[r]) || HappensAt(policy, events, r, Showing(FrameAccepted))
  }

  predicate ReportsOld(policy: Policy, events: seq<Event>, h: nat, r: nat)
    requires h < |events| && r < |events|
  {
    Reports(policy, events, r) && Expired(events, h, r)
  }

  /** The timeout behind heartbeat `h` has been handed on before event `n`. */
  predicate Told(policy: Policy, events: seq<Event>, h: nat, n: nat)
    requires h < |events| && n <= |events|
  {
    exists r | h < r < n :: ReportsOld(policy, events, h, r)
  }

  lemma {:induction false} ExpiredAfter(events: seq<Event>, e: Event, h: nat)
    requires h < |events|
    ensures var all, n := events + [e], |events|;
      && Expired(all, h, n) == (Expired(events, h, n - 1) || FindsOld(all, h, n))
      && (forall r: nat | r < n :: Expired(all, h, r) == Expired(events, h, r))
  {
    var all, n := events + [e], |events|;
    assert forall k | 0 <= k < n :: all[k] == events[k];
    assert forall k: nat | k < n :: FindsOld(all, h, k) == FindsOld(events, h, k);
    if Expired(events, h, n - 1) {
      var k :| h < k <= n - 1 && FindsOld(events, h, k);
      assert FindsOld(all, h, k);
    }
    if Expired(all, h, n) {
      var k :| h < k <= n && FindsOld(all, h, k);
      assert k < n ==> FindsOld(events, h, k);
    }
    forall r: nat | r < n ensures Expired(all, h, r) == Expired(events, h, r) {
      if Expired(events, h, r) {
        var k :| h < k <= r && FindsOld(events, h, k);
        assert FindsOld(all, h, k);
      }
      if Expired(all, h, r) {
        var k :| h < k <= r && FindsOld(all, h, k);
        assert FindsOld(events, h, k);
      }
    }
  }

  lemma {:induction false} ToldAfter(policy: Policy, events: seq<Event>, e: Event, h: nat)
    requires h < |events|
    ensures var all, n := events + [e], |events|;
      && Told(policy, all, h, n) == Told(policy, events, h, n)
      && Told(policy, all, h, n + 1) == (Told(policy, events, h, n) || ReportsOld(policy, all, h, n))
  {
    var all, n := events + [e], |events|;
    ExpiredAfter(events, e, h);
    forall r: nat | r < n ensures ReportsOld(policy, all, h, r) == ReportsOld(policy, events, h, r) {
      HappensInPrefix(policy, events, e, r, FrameAccepted);
      assert all[r] == events[r];
    }
    if Told(policy, events, h, n) {
      var r :| h < r < n && ReportsOld(policy, events, h, r);
      assert ReportsOld(policy, all, h, r);
    }
    if Told(policy, all, h, n + 1) {
      var r :| h < r < n + 1 && ReportsOld(policy, all, h, r);
      assert r < n ==> ReportsOld(policy, events, h, r);
    }
    if Told(policy, all, h, n) {
      var r :| h < r < n && ReportsOld(policy, all, h, r);
      assert ReportsOld(policy, events, h, r);
    }
  }

  /** The client's view of the link: never heard, or the heartbeat accepted last, whether it has been
      found too old, and whether that has been handed on. */
  datatype Link = Silent | Heard(at: int, isOld: bool, told: bool)

  predicate ClientShows(c: Client, link: Link) {
    match link
    case Silent =>
      !c.monitor.sequenceValid && c.monitor.snapshot.status == ChassisHeartbeats.Unknown
      && c.state.heartbeatStatus == ChassisHeartbeats.Unknown && c.reported == ChassisHeartbeats.Unknown
    case Heard(at, isOld, told) =>
      && (told ==> isOld)
      && c.monitor.sequenceValid && c.monitor.snapshot.receivedMs == at
      && c.monitor.snapshot.status == (if isOld then ChassisHeartbeats.TimedOut else ChassisHeartbeats.Alive)
      && c.state.heartbeatStatus == c.monitor.snapshot.status
      && c.reported == (if told then ChassisHeartbeats.TimedOut else ChassisHeartbeats.Alive)
  }

  function LinkOf(policy: Policy, events: seq<Event>): Link {
    var h := Last(policy, events, HeartbeatAccepted);
    if h < 0 then Silent else Heard(events[h].now, Expired(events, h, |events| - 1), Told(policy, events, h, |events|))
  }

  function LinkAfter(link: Link, e: Event, heartbeat: bool, accepted: bool): Link {
    if heartbeat then Heard(e.now, false, false)
    else if link.Silent? || !Checks(e) then link
    else
      var isOld := link.isOld || e.now - link.at >= ChassisHeartbeats.TIMEOUT_MS;
      Heard(link.at, isOld, link.told || ((IsTick(e) || accepted) && isOld))
  }

  lemma {:induction false} FrameLink(c: Client, input: Input, now: int, link: Link)
    requires ClientShows(c, link)
    ensures var (d, status) := OnInput(c, input, now);
      var accepted := status == DecodeStatus.Accepted;
      ClientShows(d, LinkAfter(link, FrameArrived(input, now), accepted && input.HeartbeatInput?, accepted))
  {
  }

  lemma {:induction false} TickLink(c: Client, e: Event, link: Link)
    requires ClientShows(c, link) && IsTick(e)
    ensures ClientShows(OnTick(c, e.now).0, LinkAfter(link, e, false, false))
    ensures OnTick(c, e.now).1 && OnTick(c, e.now).0.state.heartbeatStatus == ChassisHeartbeats.TimedOut
       <==> link.Heard? && !link.told && LinkAfter(link, e, false, false).isOld
  {
  }

  lemma {:induction false} LinkOfAfter(policy: Policy, events: seq<Event>, e: Event)
    ensures LinkOf(policy, events + [e])
         == LinkAfter(LinkOf(policy, events), e, Shows(Run(policy, events), e, HeartbeatAccepted),
                      Shows(Run(policy, events), e, FrameAccepted))
  {
    var all, n, h := events + [e], |events|, Last(policy, events, HeartbeatAccepted);
    LastAfter(policy, events, e, HeartbeatAccepted);
    assert all[n] == e && all[..n] == events;
    if Shows(Run(policy, events), e, HeartbeatAccepted) {
      assert !Expired(all, n, n) && !Told(policy, all, n, n + 1);
    } else if h >= 0 {
      ExpiredAfter(events, e, h);
      ToldAfter(policy, events, e, h);
      assert all[h] == events[h];
      assert HappensAt(policy, all, n, Showing(FrameAccepted)) == Shows(Run(policy, events), e, FrameAccepted);
      if Told(policy, events, h, n) {
        var r :| h < r < n && ReportsOld(policy, events, h, r);
        var k :| h < k <= r && FindsOld(events, h, k);
        assert Expired(events, h, n - 1);
      }
    }
  }

  /** Over any history the client knows exactly this about the link. */
  lemma {:induction false} LinkRemembered(policy: Policy, events: seq<Event>)
    ensures ClientShows(Run(policy, events).source.client, LinkOf(policy, events))
  {
    if events != [] {
      var init, e := events[..|events| - 1], events[|events| - 1];
      assert init + [e] == events;
      LinkRemembered(policy, init);
      LinkOfAfter(policy, init, e);
      var c, link := Run(policy, init).source.client, LinkOf(policy, init);
      if e.FrameArrived? {
        FrameLink(c, e.input, e.now, link);
      } else if IsTick(e) {
        TickLink(c, e, link);
      }
    }
  }

  /** Exactly when a tick notices the timeout of heartbeat `h`: some event from `h` on, or the tick,
      found it too old, and neither a tick nor an accepted frame of any kind has come in between. */
  lemma {:induction false} NoticedIff(policy: Policy, events: seq<Event>, e: Event)
    ensures var h := Last(policy, events, HeartbeatAccepted);
      Shows(Run(policy, events), e, TimeoutNoticed)
      <==> IsTick(e) && h >= 0 && Expired(events + [e], h, |events|) && !Told(policy, events, h, |events|)
  {
    LinkRemembered(policy, events);
    var h := Last(policy, events, HeartbeatAccepted);
    if IsTick(e) {
      TickLink(Run(policy, events).source.client, e, LinkOf(policy, events));
      if h >= 0 {
        ExpiredAfter(events, e, h);
        assert (events + [e])[|events|] == e && (events + [e])[h] == events[h];
      }
    }
  }

  // ---------------------------------------------------------------- enabled, exactly

  /** What the interlocks ask of the controls and of the frames before an output at time `now`. */
  ghost predicate IsClear(policy: Policy, events: seq<Event>, controls: SafetyState, now: int) {
    var heartbeat, fault := Last(policy, events, HeartbeatRecorded), Last(policy, events, FaultRecorded);
    && !controls.emergencyStop && controls.authorityGranted && controls.enabled
    && heartbeat >= 0 && now - 300 <= events[heartbeat].now <= now
    && fault >= 0 && now - 300 <= events[fault].now <= now && FaultFree(events[fault])
    && Last(policy, events, FaultAccepted) > Last(policy, events, RebootDetected)
    && Last(policy, events, FaultAccepted) > Last(policy, events + [OutputDue(controls, now)], TimeoutNoticed)
  }

  /** What the adapter asks of the requests and outputs before it. */
  ghost predicate IsRequested(policy: Policy, events: seq<Event>, now: int) {
    var request, output := Last(policy, events, RequestAccepted), Last(policy, events, OutputMade);
    && policy.IsValid()
    && request > Last(policy, events, RequestDropped)
    && now - policy.commandTimeoutMs <= events[request].now <= now
    && (output >= 0 ==> events[output].now <= now)
  }

  ghost predicate Justified(policy: Policy, events: seq<Event>, controls: SafetyState, now: int) {
    IsClear(policy, events, controls, now) && IsRequested(policy, events, now)
  }

  /** The interlocks, read off the source's memory. */
  lemma {:induction false} ClearIff(s: Source, controls: SafetyState, now: int)
    requires s.tracker.policy == DEFAULT_FRESHNESS
    ensures !Interlocked(Assessed(s, controls, now))
       <==> && !controls.emergencyStop && controls.authorityGranted && controls.enabled
            && s.tracker.lastPeerHeartbeatMs >= 0 && now - 300 <= s.tracker.lastPeerHeartbeatMs <= now
            && s.tracker.lastFaultStateMs >= 0 && now - 300 <= s.tracker.lastFaultStateMs <= now
            && !s.tracker.chassisFault && s.faultSeen
  {
  }

  lemma {:induction false} EnabledIff(a: Adapter, s: SafetyState, now: int)
    ensures Evaluated(a, s, now).1.enabled
       <==> && a.policy.IsValid() && !Interlocked(s) && !a.invalidCommandPending
            && a.request.Some? && a.request.value.Scaled?
            && a.lastOutputMs <= now && now - a.policy.commandTimeoutMs <= a.lastRequestMs <= now
  {
  }

  /** The fault frames seen so far count exactly until the next detected reboot or noticed timeout. */
  lemma {:induction false} FaultSeenExactly(policy: Policy, events: seq<Event>)
    ensures IsReady(Run(policy, events).source)
    ensures Run(policy, events).source.faultSeen
       <==> && Last(policy, events, FaultAccepted) > Last(policy, events, RebootDetected)
            && Last(policy, events, FaultAccepted) > Last(policy, events, TimeoutNoticed)
  {
    LoopRemembers(policy, events);
  }

  lemma {:induction false} RecordedIsAccepted(policy: Policy, events: seq<Event>, i: nat)
    requires i < |events|
    ensures HappensAt(policy, events, i, Showing(HeartbeatRecorded)) ==> HappensAt(policy, events, i, Showing(HeartbeatAccepted))
    ensures HappensAt(policy, events, i, Showing(FaultRecorded)) ==> HappensAt(policy, events, i, Showing(FaultAccepted))
  {
  }

  lemma {:induction false} RecordedStamps(policy: Policy, events: seq<Event>)
    ensures var h := Last(policy, events, HeartbeatRecorded); h >= 0 ==> events[h].now >= 0
    ensures var f := Last(policy, events, FaultRecorded); f >= 0 ==> events[f].now >= 0
  {
    var h, f := Last(policy, events, HeartbeatRecorded), Last(policy, events, FaultRecorded);
    LoopRemembers(policy, events);
    LastIsLatest(policy, events, HeartbeatRecorded);
    LastIsLatest(policy, events, FaultRecorded);
    if h >= 0 {
      RecordedIsAccepted(policy, events, h);
    }
    if f >= 0 {
      RecordedIsAccepted(policy, events, f);
    }
  }

  /** The tracker holds the stamps of the frames recorded last. */
  lemma {:induction false} TrackerExactly(policy: Policy, events: seq<Event>)
    ensures var t, fault := Run(policy, events).source.tracker, Last(policy, events, FaultRecorded);
      && t.policy == DEFAULT_FRESHNESS
      && t.lastPeerHeartbeatMs == TimeOf(events, Last(policy, events, HeartbeatRecorded))
      && t.lastFaultStateMs == TimeOf(events, fault)
      && (fault >= 0 ==> t.chassisFault == !FaultFree(events[fault]))
  {
    LoopRemembers(policy, events);
  }

  lemma {:induction false} TickClears(l: Loop, controls: SafetyState, now: int)
    requires IsReady(l.source)
    ensures Ticked(l.source, now).tracker == l.source.tracker
    ensures Ticked(l.source, now).faultSeen <==> l.source.faultSeen && !Shows(l, OutputDue(controls, now), TimeoutNoticed)
  {
    TickRecords(l.source, now);
  }

  /** What the tick of an output makes of them. */
  lemma {:induction false} TickSeen(policy: Policy, events: seq<Event>, controls: SafetyState, now: int)
    ensures Ticked(Run(policy, events).source, now).faultSeen
       <==> && Last(policy, events, FaultAccepted) > Last(policy, events, RebootDetected)
            && Last(policy, events, FaultAccepted) > Last(policy, events + [OutputDue(controls, now)], TimeoutNoticed)
  {
    FaultSeenExactly(policy, events);
    TickClears(Run(policy, events), controls, now);
    LastAfter(policy, events, OutputDue(controls, now), TimeoutNoticed);
  }

  lemma {:induction false} ClearExactly(policy: Policy, events: seq<Event>, controls: SafetyState, now: int)
    ensures !Interlocked(Assessed(Ticked(Run(policy, events).source, now), controls, now))
       <==> IsClear(policy, events, controls, now)
  {
    var t := Ticked(Run(policy, events).source, now);
    FaultSeenExactly(policy, events);
    TickClears(Run(policy, events), controls, now);
    TrackerExactly(policy, events);
    RecordedStamps(policy, events);
    TickSeen(policy, events, controls, now);
    ClearIff(t, controls, now);
  }

  lemma {:induction false} RequestedExactly(policy: Policy, events: seq<Event>, s: SafetyState, now: int)
    requires now >= 0 && !Interlocked(s)
    ensures Evaluated(Run(policy, events).adapter, s, now).1.enabled <==> IsRequested(policy, events, now)
  {
    LoopRemembers(policy, events);
    EnabledIff(Run(policy, events).adapter, s, now);
  }

  /** End to end, over any history with any stamps in any order: a command is enabled if and only if
      the controls allow it; the newest heartbeat accepted is at most 300 ms old; the newest fault frame
      accepted reports no fault and is at most 300 ms old; a fault frame has been accepted since the last
      detected reboot and the last noticed timeout; a request has been accepted since the last refusal,
      stop or disabled output and is at most `commandTimeoutMs` old; and time has not run backwards since
      the last output. */
  lemma {:induction false} EnabledExactly(policy: Policy, events: seq<Event>, controls: SafetyState, now: int)
    ensures CommandOf(Run(policy, events), OutputDue(controls, now)).value.enabled
       <==> Justified(policy, events, controls, now)
  {
    var l := Run(policy, events);
    var state := Assessed(Ticked(l.source, now), controls, now);
    ClearExactly(policy, events, controls, now);
    EnabledIff(l.adapter, state, now);
    if IsClear(policy, events, controls, now) {
      RecordedStamps(policy, events);
      RequestedExactly(policy, events, state, now);
    }
  }

  /** The same for a step of the loop: the frames it reads join the history before its output. */
  lemma {:induction false} StepEnabledExactly(policy: Policy, before: seq<Event>, receptions: seq<Reception>,
                                              controls: SafetyState, now: int)
    ensures var frames := ReadEvents(WithinBudget(receptions), now).0;
      CommandOf(RunFrom(Run(policy, before), frames), OutputDue(controls, now)).value.enabled
      <==> Justified(policy, before + frames, controls, now)
  {
    var frames := ReadEvents(WithinBudget(receptions), now).0;
    RunSplit(policy, before, frames);
    EnabledExactly(policy, before + frames, controls, now);
  }

  // ---------------------------------------------------------------- stamps in and out of order

  /** The frame accepted last is the one recorded last if and only if no other accepted one carries a
      later stamp. */
  lemma {:induction false} LastIsRecordedIff(policy: Policy, events: seq<Event>, accepted: Fact, recorded: Fact)
    requires (accepted == HeartbeatAccepted && recorded == HeartbeatRecorded) || (accepted == FaultAccepted && recorded == FaultRecorded)
    requires Last(policy, events, accepted) >= 0
    ensures var a := Last(policy, events, accepted);
      Last(policy, events, recorded) == a
      <==> forall j | 0 <= j < |events| && HappensAt(policy, events, j, Showing(accepted)) :: events[j].now <= events[a].now
  {
    var a, r := Last(policy, events, accepted), Last(policy, events, recorded);
    LoopRemembers(policy, events);
    LastIsLatest(policy, events, accepted);
    LastIsLatest(policy, events, recorded);
    if r >= 0 {
      RecordedIsAccepted(policy, events, r);
    }
    if forall j | 0 <= j < |events| && HappensAt(policy, events, j, Showing(accepted)) :: events[j].now <= events[a].now {
      NewestIsRecorded(policy, events, accepted, recorded, a);
    }
  }

  lemma {:induction false} NewestIsRecorded(policy: Policy, events: seq<Event>, accepted: Fact, recorded: Fact, a: nat)
    requires (accepted == HeartbeatAccepted && recorded == HeartbeatRecorded) || (accepted == FaultAccepted && recorded == FaultRecorded)
    requires a < |events| && HappensAt(policy, events, a, Showing(accepted))
    requires forall j | 0 <= j < a && HappensAt(policy, events, j, Showing(accepted)) :: events[j].now <= events[a].now
    ensures HappensAt(policy, events, a, Showing(recorded))
  {
    var init := events[..a];
    LoopRemembers(policy, init);
    var r := Last(policy, init, recorded);
    LastIsLatest(policy, init, recorded);
    if r >= 0 {
      RecordedIsAccepted(policy, init, r);
      assert init[..r] == events[..r];
      assert HappensAt(policy, events, r, Showing(accepted));
    }
    RecordedWhenNewest(Run(policy, init), events[a]);
  }

  /** Frames are stamped in the order in which they are read; everything else may happen in between. */
  predicate FramesInOrder(events: seq<Event>) {
    forall i, j | 0 <= i < j < |events| && events[i].FrameArrived? && events[j].FrameArrived? :: events[i].now <= events[j].now
  }

  lemma {:induction false} InOrderRecords(policy: Policy, events: seq<Event>, accepted: Fact, recorded: Fact)
    requires (accepted == HeartbeatAccepted && recorded == HeartbeatRecorded) || (accepted == FaultAccepted && recorded == FaultRecorded)
    requires FramesInOrder(events)
    ensures Last(policy, events, recorded) == Last(policy, events, accepted)
  {
    var a, r := Last(policy, events, accepted), Last(policy, events, recorded);
    LastIsLatest(policy, events, accepted);
    LastIsLatest(policy, events, recorded);
    if r >= 0 {
      RecordedIsAccepted(policy, events, r);
    }
    if a >= 0 {
      forall j | 0 <= j < a && HappensAt(policy, events, j, Showing(accepted)) ensures events[j].now <= events[a].now {
        AcceptedIsFrame(policy, events, j);
        AcceptedIsFrame(policy, events, a);
      }
      NewestIsRecorded(policy, events, accepted, recorded, a);
    }
  }

  lemma {:induction false} AcceptedIsFrame(policy: Policy, events: seq<Event>, j: nat)
    requires j < |events|
    ensures HappensAt(policy, events, j, Showing(HeartbeatAccepted)) || HappensAt(policy, events, j, Showing(FaultAccepted)) ==>
              events[j].FrameArrived?
  {
  }

  /** Fail-closed, when frames are stamped in order: an enabled command implies that the heartbeat and
      the fault frame accepted last are at most 300 ms old, that this fault frame reports no fault and
      came after the last detected reboot and the last noticed timeout, and that the request accepted
      last is within its timeout and has not been dropped since. */
  lemma {:induction false} FailClosed(policy: Policy, events: seq<Event>, controls: SafetyState, now: int)
    requires FramesInOrder(events)
    requires CommandOf(Run(policy, events), OutputDue(controls, now)).value.enabled
    ensures var heartbeat, fault := Last(policy, events, HeartbeatAccepted), Last(policy, events, FaultAccepted);
      var request := Last(policy, events, RequestAccepted);
      && !controls.emergencyStop && controls.authorityGranted && controls.enabled
      && heartbeat >= 0 && now - 300 <= events[heartbeat].now <= now
      && fault >= 0 && now - 300 <= events[fault].now <= now && FaultFree(events[fault])
      && fault > Last(policy, events, RebootDetected) && fault > Last(policy, events, TimeoutNoticed)
      && request >= 0 && now - policy.commandTimeoutMs <= events[request].now <= now
      && request > Last(policy, events, RequestDropped)
  {
    EnabledExactly(policy, events, controls, now);
    InOrderRecords(policy, events, HeartbeatAccepted, HeartbeatRecorded);
    InOrderRecords(policy, events, FaultAccepted, FaultRecorded);
    LastAfter(policy, events, OutputDue(controls, now), TimeoutNoticed);
  }

  // ---------------------------------------------------------------- two runs

  const CONTROLS := SafetyState(true, true, false, false, false)

  function Beat(sequence: u8, uptimeMs: u32): Input {
    HeartbeatInput(Some(Heartbeat(1, sequence, 0, uptimeMs, 0)))
  }

  function Fault(severity: u8, sequence: u8): Input {
    FaultInput(Some(FaultStatus(severity, sequence, 0, 0, 0, 0)))
  }

  /** A frame of this kind that the kernel received at `ms` and the loop reads at `now`. */
  ghost predicate Brings(r: Reception, input: Input, ms: int, now: int) {
    && IsGood(r, now)
    && LogicalMs(r.stamp, now) == Some(ms)
    && r.frame.value.id != VELOCITY_COMMAND_ID
    && Classify(r.frame.value) == input
  }

  lemma {:induction false} Reads(frame: CanFrame, ms: int, now: int) returns (r: Reception)
    requires 0 <= ms <= now && frame.id != VELOCITY_COMMAND_ID
    ensures Brings(r, Classify(frame), ms, now)
  {
    var stamp := KernelStamp(true, (1 + ms) * NS_PER_MS, (1 + now) * NS_PER_MS);
    assert stamp.dequeuedNs - stamp.receivedNs == (now - ms) * NS_PER_MS;
    r := Arrived(stamp, Some(frame));
  }

  lemma {:induction false} ReadsBeat(sequence: u8, uptimeMs: u32, ms: int, now: int) returns (r: Reception)
    requires 0 <= ms <= now
    ensures Brings(r, Beat(sequence, uptimeMs), ms, now)
  {
    var frame := HeartbeatFrame(Heartbeat(1, sequence, 0, uptimeMs, 0));
    r := Reads(frame, ms, now);
  }

  lemma {:induction false} ReadsFault(severity: u8, sequence: u8, ms: int, now: int) returns (r: Reception)
    requires 0 <= ms <= now && severity <= 2
    ensures Brings(r, Fault(severity, sequence), ms, now)
  {
    var frame := FaultFrame(FaultStatus(severity, sequence, 0, 0, 0, 0));
    r := Reads(frame, ms, now);
  }

  lemma {:induction false} ReadsMotion(ms: int, now: int) returns (r: Reception)
    requires 0 <= ms <= now
    ensures Brings(r, MotionInput(true), ms, now)
  {
    var frame := MotionFrame();
    r := Reads(frame, ms, now);
  }

  lemma {:induction false} ReadNext(r: Reception, queue: seq<Reception>, e: Event, now: int)
    requires e.FrameArrived? && Brings(r, e.input, e.now, now) && (now - e.now < 300 || e.input.MotionInput?)
    ensures var (rest, ok) := ReadEvents(queue, now);
      ReadEvents([r] + queue, now) == ([e] + rest, ok)
  {
    assert ([r] + queue)[1..] == queue;
    assert FrameEvents(r.frame.value, e.now, now) == [e];
  }

  /** A step that reads one frame in time. */
  lemma {:induction false} OneRead(r: Reception, input: Input, ms: int, now: int)
    requires Brings(r, input, ms, now) && (now - ms < 300 || input.MotionInput?)
    ensures StepEvents([r], CONTROLS, now) == [FrameArrived(input, ms), OutputDue(CONTROLS, now)]
  {
    ReadNext(r, [], FrameArrived(input, ms), now);
    assert [r] + [] == [r] && ReadEvents([], now) == ([], true);
  }

  /** A step that reads three. */
  lemma {:induction false} ThreeReads(r: Reception, q: Reception, p: Reception, a: Event, b: Event, c: Event, now: int)
    requires a.FrameArrived? && b.FrameArrived? && c.FrameArrived?
    requires Brings(r, a.input, a.now, now) && Brings(q, b.input, b.now, now) && Brings(p, c.input, c.now, now)
    requires now < 300 && a.now >= 0 && b.now >= 0 && c.now >= 0
    ensures StepEvents([r, q, p], CONTROLS, now) == [a, b, c, OutputDue(CONTROLS, now)]
  {
    ReadNext(p, [], c, now);
    ReadNext(q, [p], b, now);
    ReadNext(r, [q, p], a, now);
    assert [p] + [] == [p] && [q] + [p] == [q, p] && [r] + [q, p] == [r, q, p];
    assert ReadEvents([], now) == ([], true);
    assert [a] + ([b] + ([c] + [])) == [a, b, c];
    assert WithinBudget([r, q, p]) == [r, q, p];
  }

  lemma {:induction false} NoRead(now: int)
    ensures StepEvents([], CONTROLS, now) == [OutputDue(CONTROLS, now)]
  {
  }

  lemma {:induction false} RunTwo(policy: Policy, events: seq<Event>, a: Event, b: Event)
    ensures Run(policy, events + [a, b]) == Next(Next(Run(policy, events), a), b)
  {
    RunStep(policy, events, a);
    RunStep(policy, events + [a], b);
    assert events + [a] + [b] == events + [a, b];
  }

  /** An adapter with no request, whose last output was not after `at`. */
  predicate IsIdle(a: Adapter, policy: Policy, at: int) {
    a.policy == policy && a.request == None && !a.invalidCommandPending && 0 <= a.lastOutputMs <= at
  }

  lemma {:induction false} IdleOutput(policy: Policy, l: Loop, at: int, now: int)
    requires IsIdle(l.adapter, policy, at) && at <= now
    ensures var n := Next(l, OutputDue(CONTROLS, now));
      n.source == Ticked(l.source, now) && IsIdle(n.adapter, policy, now)
  {
  }

  /** The source behind a frame and a tick. */
  function Stepped(s: Source, input: Input, ms: int, now: int): Source {
    Ticked(Received(s, input, ms).0, now)
  }

  /** The monitor behind the first heartbeat, stamped 0. */
  const FIRST_BEAT := ChassisHeartbeats.Monitor(
    ChassisHeartbeats.Snapshot(ChassisHeartbeats.Alive, Heartbeat(1, 1, 0, 1000, 0), 0, 0, 0), true, 1)

  /** What one source shows of its link: the monitor, and the status as known and as reported. */
  predicate Links(s: Source, m: ChassisHeartbeats.Monitor) {
    && s.client.monitor == m && s.client.state.heartbeatStatus == s.client.reported == m.snapshot.status
    && s.chassis.peerRebootCount == s.client.state.peerRebootCount == s.observedRebootCount
       == m.snapshot.peerRebootCount == 0
    && s.tracker.policy == DEFAULT_FRESHNESS
  }

  lemma {:induction false} FirstBeatReceived()
    ensures var s := Received(INITIAL_SOURCE, Beat(1, 1000), 0).0;
      && Links(s, FIRST_BEAT) && s.tracker == TrackerAt(DEFAULT_FRESHNESS).(lastPeerHeartbeatMs := 0)
      && !s.client.faultSequenceValid
  {
  }

  /** A tick in time changes nothing that matters here. */
  lemma {:induction false} TickInTime(s: Source, m: ChassisHeartbeats.Monitor, now: int)
    requires Links(s, m) && now >= 0
    requires m.snapshot.status == ChassisHeartbeats.Alive ==> now - m.snapshot.receivedMs < 300
    ensures var t := Ticked(s, now);
      && Links(t, m) && t.tracker == s.tracker && t.faultSeen == s.faultSeen
      && t.client.faultSequenceValid == s.client.faultSequenceValid && t.client.lastFaultSequence == s.client.lastFaultSequence
  {
  }

  /** A clean fault frame in time. */
  lemma {:induction false} CleanFaultReceived(s: Source, now: int)
    requires Links(s, FIRST_BEAT) && !s.client.faultSequenceValid && s.tracker.lastFaultStateMs < 0
    requires 0 <= now < 300
    ensures var (t, status) := Received(s, Fault(0, 1), now);
      && status == DecodeStatus.Accepted && Links(t, FIRST_BEAT) && t.faultSeen
      && t.tracker == s.tracker.(lastFaultStateMs := now, chassisFault := false)
      && t.client.faultSequenceValid && t.client.lastFaultSequence == 1
  {
  }

  /** The monitor once it has found that heartbeat too old. */
  const FIRST_BEAT_LOST := FIRST_BEAT.(snapshot := FIRST_BEAT.snapshot.(status := ChassisHeartbeats.TimedOut))

  /** A motion frame 300 ms or more behind the first heartbeat. */
  lemma {:induction false} LateMotionReceived(s: Source, now: int)
    requires Links(s, FIRST_BEAT) && now >= 300
    ensures var t := Received(s, MotionInput(true), now).0;
      Links(t, FIRST_BEAT_LOST) && t.faultSeen == s.faultSeen && t.tracker == s.tracker
  {
  }

  /** The next heartbeat, without a reboot. */
  lemma {:induction false} SecondBeatReceived(s: Source, now: int)
    requires Links(s, FIRST_BEAT_LOST) && 0 <= s.tracker.lastPeerHeartbeatMs <= now
    ensures var t := Received(s, Beat(2, 1310), now).0;
      && t.faultSeen == s.faultSeen && t.tracker == s.tracker.(lastPeerHeartbeatMs := now)
      && t.client.monitor.snapshot.status == ChassisHeartbeats.Alive && t.client.monitor.snapshot.receivedMs == now
      && Links(t, t.client.monitor)
  {
  }

  /** With an alive link and a clean fault frame, a request and then an output are accepted. */
  lemma {:induction false} RequestThenOutput(policy: Policy, l: Loop, at: int)
    requires policy.IsValid() && IsIdle(l.adapter, policy, at)
    requires l.source.faultSeen && !l.source.tracker.chassisFault && Links(l.source, l.source.client.monitor)
    requires 0 <= l.source.tracker.lastPeerHeartbeatMs <= at && at + 1 - l.source.tracker.lastPeerHeartbeatMs <= 300
    requires 0 <= l.source.tracker.lastFaultStateMs <= at && at + 1 - l.source.tracker.lastFaultStateMs <= 300
    requires l.source.client.monitor.snapshot.status == ChassisHeartbeats.Alive
    requires at + 1 - l.source.client.monitor.snapshot.receivedMs < 300
    ensures CommandOf(Next(l, RequestArrived(Scaled(0, 0), CONTROLS, at)), OutputDue(CONTROLS, at + 1)).value.enabled
  {
    var t := Ticked(l.source, at);
    TickInTime(l.source, l.source.client.monitor, at);
    TickInTime(t, t.client.monitor, at + 1);
    ClearIff(t, CONTROLS, at);
    ClearIff(Ticked(t, at + 1), CONTROLS, at + 1);
    var a := Submitted(l.adapter, Scaled(0, 0), Assessed(t, CONTROLS, at), at).0;
    EnabledIff(a, Assessed(Ticked(t, at + 1), CONTROLS, at + 1), at + 1);
  }

  // ---------------------------------------------------------------- a timeout that is not noticed

  /** The events of four steps with one frame each, and of a request. */
  function HiddenTimeoutEvents(): seq<Event> {
    [FrameArrived(Beat(1, 1000), 0), OutputDue(CONTROLS, 1),
     FrameArrived(Fault(0, 1), 250), OutputDue(CONTROLS, 251),
     FrameArrived(MotionInput(true), 301), OutputDue(CONTROLS, 302),
     FrameArrived(Beat(2, 1310), 310), OutputDue(CONTROLS, 311),
     RequestArrived(Scaled(0, 0), CONTROLS, 311)]
  }

  /** The loop steps at 1, 251, 302 and 311 ms, takes a request at 311 ms and steps again at 312 ms. It
      reads a heartbeat, a clean fault frame, a motion frame 301 ms behind the heartbeat, and the next
      heartbeat. The motion frame finds the first heartbeat too old, and that is handed on with it
      instead of being noticed; the second heartbeat makes the link good again, and a command is enabled
      on the fault frame from before the timeout. */
  lemma {:induction false} HiddenTimeout(policy: Policy) returns (r: seq<Reception>)
    requires policy.IsValid()
    ensures |r| == 4
    ensures var events := StepEvents([r[0]], CONTROLS, 1) + StepEvents([r[1]], CONTROLS, 251)
                          + StepEvents([r[2]], CONTROLS, 302) + StepEvents([r[3]], CONTROLS, 311)
                          + [RequestArrived(Scaled(0, 0), CONTROLS, 311)];
      && FramesInOrder(events) && |events| > 4 && Expired(events, 0, 4) && Last(policy, events, FaultAccepted) < 4
      && StepEvents([], CONTROLS, 312) == [OutputDue(CONTROLS, 312)]
      && CommandOf(Run(policy, events), OutputDue(CONTROLS, 312)).value.enabled
  {
    r := HiddenTimeoutReads();
    NoRead(312);
    HiddenTimeoutEnabled(policy);
    HiddenTimeoutShape(policy, HiddenTimeoutEvents());
  }

  lemma {:induction false} HiddenTimeoutShape(policy: Policy, events: seq<Event>)
    requires events == HiddenTimeoutEvents()
    ensures FramesInOrder(events) && |events| > 4 && Expired(events, 0, 4) && Last(policy, events, FaultAccepted) < 4
  {
    assert FindsOld(events, 0, 4);
    LastIsLatest(policy, events, FaultAccepted);
    forall j | 4 <= j < |events| ensures !HappensAt(policy, events, j, Showing(FaultAccepted)) {
      assert !(events[j].FrameArrived? && events[j].input.FaultInput?);
    }
  }

  lemma {:induction false} HiddenTimeoutReads() returns (r: seq<Reception>)
    ensures |r| == 4
    ensures StepEvents([r[0]], CONTROLS, 1) + StepEvents([r[1]], CONTROLS, 251)
            + StepEvents([r[2]], CONTROLS, 302) + StepEvents([r[3]], CONTROLS, 311)
            + [RequestArrived(Scaled(0, 0), CONTROLS, 311)] == HiddenTimeoutEvents()
  {
    var a := ReadsBeat(1, 1000, 0, 1);
    var b := ReadsFault(0, 1, 250, 251);
    var c := ReadsMotion(301, 302);
    var d := ReadsBeat(2, 1310, 310, 311);
    OneRead(a, Beat(1, 1000), 0, 1);
    OneRead(b, Fault(0, 1), 250, 251);
    OneRead(c, MotionInput(true), 301, 302);
    OneRead(d, Beat(2, 1310), 310, 311);
    r := [a, b, c, d];
    var e := HiddenTimeoutEvents();
    NineEvents(e[0], e[1], e[2], e[3], e[4], e[5], e[6], e[7], e[8]);
  }

  lemma {:induction false} NineEvents<T>(a: T, b: T, c: T, d: T, e: T, f: T, g: T, h: T, i: T)
    ensures [a, b] + [c, d] + [e, f] + [g, h] + [i] == [a, b, c, d, e, f, g, h, i]
  {
  }

  /** Any loop, one step further. */
  lemma {:induction false} OneStep(policy: Policy, events: seq<Event>, input: Input, ms: int, now: int, at: int)
    requires IsIdle(Run(policy, events).adapter, policy, at) && 0 <= at <= now
    ensures var l := Run(policy, events + [FrameArrived(input, ms), OutputDue(CONTROLS, now)]);
      l.source == Stepped(Run(policy, events).source, input, ms, now) && IsIdle(l.adapter, policy, now)
  {
    RunTwo(policy, events, FrameArrived(input, ms), OutputDue(CONTROLS, now));
    IdleOutput(policy, Next(Run(policy, events), FrameArrived(input, ms)), at, now);
  }

  lemma {:induction false} HiddenTimeoutEnabled(policy: Policy)
    requires policy.IsValid()
    ensures CommandOf(Run(policy, HiddenTimeoutEvents()), OutputDue(CONTROLS, 312)).value.enabled
  {
    var e1 := [] + [FrameArrived(Beat(1, 1000), 0), OutputDue(CONTROLS, 1)];
    var e2 := e1 + [FrameArrived(Fault(0, 1), 250), OutputDue(CONTROLS, 251)];
    var e3 := e2 + [FrameArrived(MotionInput(true), 301), OutputDue(CONTROLS, 302)];
    var e4 := e3 + [FrameArrived(Beat(2, 1310), 310), OutputDue(CONTROLS, 311)];
    assert HiddenTimeoutEvents() == e4 + [RequestArrived(Scaled(0, 0), CONTROLS, 311)];
    OneStep(policy, [], Beat(1, 1000), 0, 1, 0);
    OneStep(policy, e1, Fault(0, 1), 250, 251, 1);
    OneStep(policy, e2, MotionInput(true), 301, 302, 251);
    OneStep(policy, e3, Beat(2, 1310), 310, 311, 302);
    HiddenTimeoutSource();
    RequestThenOutput(policy, Run(policy, e4), 311);
    RunStep(policy, e4, RequestArrived(Scaled(0, 0), CONTROLS, 311));
  }

  lemma {:induction false} HiddenTimeoutSource()
    ensures var s1 := Stepped(INITIAL_SOURCE, Beat(1, 1000), 0, 1);
      var s2 := Stepped(s1, Fault(0, 1), 250, 251);
      var s3 := Stepped(s2, MotionInput(true), 301, 302);
      var s := Stepped(s3, Beat(2, 1310), 310, 311);
      && s.faultSeen && !s.tracker.chassisFault && Links(s, s.client.monitor)
      && s.tracker.lastPeerHeartbeatMs == 310 && s.tracker.lastFaultStateMs == 250
      && s.client.monitor.snapshot.status == ChassisHeartbeats.Alive && s.client.monitor.snapshot.receivedMs == 310
  {
    var r1 := Received(INITIAL_SOURCE, Beat(1, 1000), 0).0;
    var s1 := Ticked(r1, 1);
    FirstBeatReceived();
    TickInTime(r1, FIRST_BEAT, 1);
    var r2 := Received(s1, Fault(0, 1), 250).0;
    var s2 := Ticked(r2, 251);
    CleanFaultReceived(s1, 250);
    TickInTime(r2, FIRST_BEAT, 251);
    var r3 := Received(s2, MotionInput(true), 301).0;
    var s3 := Ticked(r3, 302);
    LateMotionReceived(s2, 301);
    TickInTime(r3, FIRST_BEAT_LOST, 302);
    var r4 := Received(s3, Beat(2, 1310), 310).0;
    SecondBeatReceived(s3, 310);
    TickInTime(r4, r4.client.monitor, 311);
  }

  // ---------------------------------------------------------------- stamps out of order

  /** A faulty frame with an older stamp than the recorded one changes nothing in the tracker. */
  lemma {:induction false} OldFaultReceived(s: Source, now: int)
    requires Links(s, FIRST_BEAT) && s.client.faultSequenceValid && s.client.lastFaultSequence == 1
    requires 0 <= now < s.tracker.lastFaultStateMs < 300
    ensures var (t, status) := Received(s, Fault(2, 2), now);
      status == DecodeStatus.Accepted && t.faultSeen && t.tracker == s.tracker && Links(t, FIRST_BEAT)
  {
  }

  /** One step at 20 ms reads a heartbeat, a clean fault frame stamped 10 and behind it a faulty one
      stamped 5. The faulty one is accepted, but the tracker keeps the other, and after a request the
      step at 21 ms enables a command although the fault frame accepted last reports a fault. */
  lemma {:induction false} StampsOutOfOrder(policy: Policy) returns (r: seq<Reception>)
    requires policy.IsValid()
    ensures var events := StepEvents(r, CONTROLS, 20) + [RequestArrived(Scaled(0, 0), CONTROLS, 20)];
      && Last(policy, events, FaultAccepted) == 2 && |events| > 2 && !FaultFree(events[2])
      && StepEvents([], CONTROLS, 21) == [OutputDue(CONTROLS, 21)]
      && CommandOf(Run(policy, events), OutputDue(CONTROLS, 21)).value.enabled
  {
    var a, b, c := FrameArrived(Beat(1, 1000), 0), FrameArrived(Fault(0, 1), 10), FrameArrived(Fault(2, 2), 5);
    var r0 := ReadsBeat(1, 1000, 0, 20);
    var r1 := ReadsFault(0, 1, 10, 20);
    var r2 := ReadsFault(2, 2, 5, 20);
    r := [r0, r1, r2];
    ThreeReads(r0, r1, r2, a, b, c, 20);
    NoRead(21);
    var d, e := OutputDue(CONTROLS, 20), RequestArrived(Scaled(0, 0), CONTROLS, 20);
    assert [a, b, c, d] + [e] == [a, b, c, d, e];
    OldFaultShows(policy, a, b, c);
    FaultAtTwo(policy, a, b, c, d, e);
    OutOfOrderEnabled(policy, a, b, c, d, e);
  }

  lemma {:induction false} OutOfOrderEnabled(policy: Policy, a: Event, b: Event, c: Event, d: Event, e: Event)
    requires policy.IsValid()
    requires a == FrameArrived(Beat(1, 1000), 0) && b == FrameArrived(Fault(0, 1), 10)
    requires c == FrameArrived(Fault(2, 2), 5) && d == OutputDue(CONTROLS, 20)
    requires e == RequestArrived(Scaled(0, 0), CONTROLS, 20)
    ensures CommandOf(Run(policy, [a, b, c, d, e]), OutputDue(CONTROLS, 21)).value.enabled
  {
    RunFive(policy, a, b, c, d, e);
    var s1 := Received(INITIAL_SOURCE, a.input, 0).0;
    var s2 := Received(s1, b.input, 10).0;
    var s3 := Received(s2, c.input, 5).0;
    FirstBeatReceived();
    CleanFaultReceived(s1, 10);
    OldFaultReceived(s2, 5);
    var l3 := Next(Next(Next(LoopWith(policy), a), b), c);
    assert l3 == Loop(s3, AdapterWith(policy));
    IdleOutput(policy, l3, 0, 20);
    TickInTime(s3, FIRST_BEAT, 20);
    RequestThenOutput(policy, Next(l3, d), 20);
  }

  /** Five events one after the other. */
  lemma {:induction false} RunFive(policy: Policy, a: Event, b: Event, c: Event, d: Event, e: Event)
    ensures Run(policy, [a, b, c, d, e]) == Next(Next(Next(Next(Next(LoopWith(policy), a), b), c), d), e)
  {
    RunTwo(policy, [], a, b);
    RunTwo(policy, [a, b], c, d);
    RunStep(policy, [a, b, c, d], e);
    assert [] + [a, b] == [a, b] && [a, b] + [c, d] == [a, b, c, d] && [a, b, c, d] + [e] == [a, b, c, d, e];
  }

  lemma {:induction false} FaultAtTwo(policy: Policy, a: Event, b: Event, c: Event, d: Event, e: Event)
    requires Shows(Run(policy, [a, b]), c, FaultAccepted) && !d.FrameArrived? && !e.FrameArrived?
    ensures Last(policy, [a, b, c, d, e], FaultAccepted) == 2
  {
    var events := [a, b, c, d, e];
    LastIsLatest(policy, events, FaultAccepted);
    assert events[..2] == [a, b];
    assert HappensAt(policy, events, 2, Showing(FaultAccepted));
  }

  lemma {:induction false} OldFaultShows(policy: Policy, a: Event, b: Event, c: Event)
    requires a == FrameArrived(Beat(1, 1000), 0) && b == FrameArrived(Fault(0, 1), 10)
    requires c == FrameArrived(Fault(2, 2), 5)
    ensures Shows(Run(policy, [a, b]), c, FaultAccepted)
  {
    RunTwo(policy, [], a, b);
    assert [] + [a, b] == [a, b];
    var s := Received(INITIAL_SOURCE, a.input, 0).0;
    FirstBeatReceived();
    CleanFaultReceived(s, 10);
    OldFaultReceived(Received(s, b.input, 10).0, 5);
  }
}
