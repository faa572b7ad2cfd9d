/** `ChassisSafetyStateTracker` and `ChassisSafetyAdapter`: freshness, interlocks, clamping and slew
    limiting of velocity commands. */
module ChassisSafetyAdapters {
  import opened Options
  import opened Crc16s
  import opened ChassisCanCodecs

  datatype SafetyState = SafetyState(
    enabled: bool, authorityGranted: bool, emergencyStop: bool, peerAlive: bool, chassisFault: bool)

  // ---------------------------------------------------------------- tracker

  datatype FreshnessPolicy = FreshnessPolicy(peerTimeoutMs: int, faultStateTimeoutMs: int) {
    predicate IsValid() {
      peerTimeoutMs > 0 && faultStateTimeoutMs > 0
    }
  }

  const DEFAULT_FRESHNESS := FreshnessPolicy(300, 300)

  /** -1 stands for "never". */
  datatype Tracker = Tracker(policy: FreshnessPolicy, lastPeerHeartbeatMs: int, lastFaultStateMs: int, chassisFault: bool)

  function TrackerAt(policy: FreshnessPolicy): Tracker {
    Tracker(policy, -1, -1, true)
  }

  predicate TakesTime(t: Tracker, last: int, now: int) {
    t.policy.IsValid() && now >= 0 && (last >= 0 ==> now >= last)
  }

  function WithHeartbeat(t: Tracker, now: int): Tracker {
    if TakesTime(t, t.lastPeerHeartbeatMs, now) then t.(lastPeerHeartbeatMs := now) else t
  }

  function WithFault(t: Tracker, faulted: bool, now: int): Tracker {
    if TakesTime(t, t.lastFaultStateMs, now) then t.(chassisFault := faulted, lastFaultStateMs := now) else t
  }

  function Assess(t: Tracker, controls: SafetyState, now: int): SafetyState {
    var peerTimeValid := t.lastPeerHeartbeatMs >= 0 && now >= t.lastPeerHeartbeatMs
                         && now - t.lastPeerHeartbeatMs <= t.policy.peerTimeoutMs;
    var peerAlive := t.policy.IsValid() && peerTimeValid;
    var faultTimeValid := t.lastFaultStateMs >= 0 && now >= t.lastFaultStateMs
                          && now - t.lastFaultStateMs <= t.policy.faultStateTimeoutMs;
    controls.(peerAlive := peerAlive, chassisFault := peerAlive && (!faultTimeValid || t.chassisFault))
  }

  class ChassisSafetyStateTracker {
    const policy: FreshnessPolicy
    var lastPeerHeartbeatMs: int
    var lastFaultStateMs: int
    var chassisFault: bool

    function View(): Tracker
      reads this
    {
      Tracker(policy, lastPeerHeartbeatMs, lastFaultStateMs, chassisFault)
    }

    constructor (policy: FreshnessPolicy)
      ensures View() == TrackerAt(policy)
    {
      this.policy := policy;
      lastPeerHeartbeatMs, lastFaultStateMs, chassisFault := -1, -1, true;
    }

    method UpdatePeerHeartbeat(now: int) returns (ok: bool)
      modifies this
      ensures View() == WithHeartbeat(old(View()), now)
      ensures ok == TakesTime(old(View()), old(lastPeerHeartbeatMs), now)
    {
      if !policy.IsValid() || now < 0 || (lastPeerHeartbeatMs >= 0 && now < lastPeerHeartbeatMs) {
        return false;
      }
      lastPeerHeartbeatMs := now;
      return true;
    }

    method UpdateChassisFault(faulted: bool, now: int) returns (ok: bool)
      modifies this
      ensures View() == WithFault(old(View()), faulted, now)
      ensures ok == TakesTime(old(View()), old(lastFaultStateMs), now)
    {
      if !policy.IsValid() || now < 0 || (lastFaultStateMs >= 0 && now < lastFaultStateMs) {
        return false;
      }
      chassisFault := faulted;
      lastFaultStateMs := now;
      return true;
    }

    method Reset()
      modifies this
      ensures View() == TrackerAt(policy)
    {
      lastPeerHeartbeatMs, lastFaultStateMs, chassisFault := -1, -1, true;
    }
  }

  // ---------------------------------------------------------------- adapter


  /** A velocity request after scaling to mm/s and mrad/s; `Unrepresentable` when it is not finite
      or does not fit 32 bits. */
  datatype Request = Scaled(linear: int, angular: int) | Unrepresentable

  datatype Policy = Policy(
    maxLinear: int, maxAngular: int, maxLinearAcceleration: int, maxAngularAcceleration: int,
    commandTimeoutMs: int, outputPeriodMs: int)
  {
    predicate IsValid() {
      && 0 < maxLinear <= 2000
      && 0 < maxAngular <= 10000
      && maxLinearAcceleration > 0 && maxAngularAcceleration > 0
      && commandTimeoutMs > 0 && 0 < outputPeriodMs <= commandTimeoutMs
    }
  }

  datatype StopReason =
    | NoReason | Disabled | AuthorityLost | EmergencyStop | PeerUnavailable | ChassisFault
    | NoCommand | InvalidCommand | CommandStale | ClockRegression

  datatype Command = Command(
    enabled: bool, sequence: u8, linear: int, angular: int, generatedAtMs: int, reason: StopReason)

  datatype Adapter = Adapter(
    policy: Policy, request: Option<Request>, lastRequestMs: int, lastOutputMs: int,
    lastLinear: int, lastAngular: int, nextSequence: u8, invalidCommandPending: bool)

  function AdapterWith(policy: Policy): Adapter {
    Adapter(policy, None, 0, 0, 0, 0, 0, false)
  }

  function Clamp(x: int, low: int, high: int): int {
    if x < low then low else if x > high then high else x
  }

  function Approach(current: int, target: int, maximumDelta: int): int {
    current + Clamp(target - current, -maximumDelta, maximumDelta)
  }

  predicate Interlocked(s: SafetyState) {
    !s.enabled || !s.authorityGranted || s.emergencyStop || !s.peerAlive || s.chassisFault
  }

  function Submitted(a: Adapter, request: Request, s: SafetyState, now: int): (Adapter, bool) {
    if !a.policy.IsValid() then (a.(invalidCommandPending := true, request := None), false)
    else if Interlocked(s) then (a.(request := None, lastRequestMs := 0), false)
    else if now < 0 || request.Unrepresentable? then
      (a.(invalidCommandPending := true, request := None, lastRequestMs := now), false)
    else (a.(request := Some(request), lastRequestMs := now, invalidCommandPending := false), true)
  }

  function Rejected(a: Adapter, now: int): Adapter {
    a.(request := None, lastRequestMs := now, invalidCommandPending := true)
  }

  function Stopped(a: Adapter, reason: StopReason, now: int): (Adapter, Command) {
    (a.(request := None, lastRequestMs := 0, lastLinear := 0, lastAngular := 0,
        lastOutputMs := if now > 0 then now else 0, nextSequence := (a.nextSequence + 1) % 0x100),
     Command(false, a.nextSequence, 0, 0, now, reason))
  }

  /** Why the next evaluation stops, in the order in which the reasons are tried. */
  function StopReasonAt(a: Adapter, s: SafetyState, now: int): StopReason {
    if !a.policy.IsValid() then InvalidCommand
    else if s.emergencyStop then EmergencyStop
    else if s.chassisFault then ChassisFault
    else if !s.peerAlive then PeerUnavailable
    else if !s.authorityGranted then AuthorityLost
    else if !s.enabled then Disabled
    else if a.invalidCommandPending then InvalidCommand
    else if a.request == None then NoCommand
    else if now < a.lastRequestMs || now < a.lastOutputMs then ClockRegression
    else if now - a.lastRequestMs > a.policy.commandTimeoutMs then CommandStale
    else if a.request.value.Unrepresentable? then InvalidCommand
    else NoReason
  }

  function Elapsed(a: Adapter, now: int): int {
    if a.lastOutputMs == 0 then a.policy.outputPeriodMs
    else Clamp(now - a.lastOutputMs, 0, a.policy.commandTimeoutMs)
  }

  /** How far a velocity may move in one output. */
  function Reach(acceleration: int, elapsed: int): int {
    var delta := acceleration * elapsed / 1000;
    if delta > 1 then delta else 1
  }

  function TargetLinear(a: Adapter, r: Request): int
    requires r.Scaled?
  {
    Clamp(r.linear, -a.policy.maxLinear, a.policy.maxLinear)
  }

  function TargetAngular(a: Adapter, r: Request): int
    requires r.Scaled?
  {
    Clamp(r.angular, -a.policy.maxAngular, a.policy.maxAngular)
  }

  function Driven(a: Adapter, now: int): (Adapter, Command)
    requires a.request.Some? && a.request.value.Scaled?
  {
    var r := a.request.value;
    var elapsed := Elapsed(a, now);
    var linear := Approach(a.lastLinear, TargetLinear(a, r), Reach(a.policy.maxLinearAcceleration, elapsed));
    var angular := Approach(a.lastAngular, TargetAngular(a, r), Reach(a.policy.maxAngularAcceleration, elapsed));
    (a.(lastLinear := linear, lastAngular := angular, lastOutputMs := now,
        nextSequence := (a.nextSequence + 1) % 0x100),
     Command(true, a.nextSequence, linear, angular, now, NoReason))
  }

  function Evaluated(a: Adapter, s: SafetyState, now: int): (Adapter, Command) {
    var reason := StopReasonAt(a, s, now);
    if reason == NoReason then Driven(a, now) else Stopped(a, reason, now)
  }

  function ResetAt(a: Adapter, now: int): Adapter {
    a.(request := None, invalidCommandPending := false, lastRequestMs := 0, lastOutputMs := now,
       lastLinear := 0, lastAngular := 0)
  }

  class ChassisSafetyAdapter {
    const policy: Policy
    var request: Option<Request>
    var lastRequestMs: int
    var lastOutputMs: int
    var lastLinear: int
    var lastAngular: int
    var nextSequence: u8
    var invalidCommandPending: bool

    function View(): Adapter
      reads this
    {
      Adapter(policy, request, lastRequestMs, lastOutputMs, lastLinear, lastAngular, nextSequence, invalidCommandPending)
    }

    constructor (policy: Policy)
      ensures View() == AdapterWith(policy)
    {
      this.policy := policy;
      request, lastRequestMs, lastOutputMs := None, 0, 0;
      lastLinear, lastAngular, nextSequence, invalidCommandPending := 0, 0, 0, false;
    }

    method Submit(r: Request, s: SafetyState, now: int) returns (ok: bool)
      modifies this
      ensures (View(), ok) == Submitted(old(View()), r, s, now)
    {
      if !policy.IsValid() {
        invalidCommandPending := true;
        request := None;
        return false;
      }
      if !s.enabled || !s.authorityGranted || s.emergencyStop || !s.peerAlive || s.chassisFault {
        request := None;
        lastRequestMs := 0;
        return false;
      }
      if now < 0 || r.Unrepresentable? {
        invalidCommandPending := true;
        request := None;
        lastRequestMs := now;
        return false;
      }
      request := Some(r);
      lastRequestMs := now;
      invalidCommandPending := false;
      return true;
    }

    method RejectInvalidCommand(now: int)
      modifies this
      ensures View() == Rejected(old(View()), now)
    {
      request := None;
      lastRequestMs := now;
      invalidCommandPending := true;
    }

    method Stop(reason: StopReason, now: int) returns (command: Command)
      modifies this
      ensures (View(), command) == Stopped(old(View()), reason, now)
    {
      request := None;
      lastRequestMs := 0;
      lastLinear := 0;
      lastAngular := 0;
      lastOutputMs := if now > 0 then now else 0;
      command := Command(false, nextSequence, 0, 0, now, reason);
      nextSequence := (nextSequence + 1) % 0x100;
    }

    method Evaluate(s: SafetyState, now: int) returns (command: Command)
      modifies this
      ensures (View(), command) == Evaluated(old(View()), s, now)
    {
      if !policy.IsValid() {
        command := Stop(InvalidCommand, now);
        return;
      }
      if s.emergencyStop {
        command := Stop(EmergencyStop, now);
        return;
      }
      if s.chassisFault {
        command := Stop(ChassisFault, now);
        return;
      }
      if !s.peerAlive {
        command := Stop(PeerUnavailable, now);
        return;
      }
      if !s.authorityGranted {
        command := Stop(AuthorityLost, now);
        return;
      }
      if !s.enabled {
        command := Stop(Disabled, now);
        return;
      }
      if invalidCommandPending {
        command := Stop(InvalidCommand, now);
        return;
      }
      if request == None {
        command := Stop(NoCommand, now);
        return;
      }
      if now < lastRequestMs || now < lastOutputMs {
        command := Stop(ClockRegression, now);
        return;
      }
      if now - lastRequestMs > policy.commandTimeoutMs {
        command := Stop(CommandStale, now);
        return;
      }
      if request.value.Unrepresentable? {
        command := Stop(InvalidCommand, now);
        return;
      }
      var targetLinear := Clamp(request.value.linear, -policy.maxLinear, policy.maxLinear);
      var targetAngular := Clamp(request.value.angular, -policy.maxAngular, policy.maxAngular);
      var elapsed := if lastOutputMs == 0 then policy.outputPeriodMs
                     else Clamp(now - lastOutputMs, 0, policy.commandTimeoutMs);
      var linearDelta := Reach(policy.maxLinearAcceleration, elapsed);
      var angularDelta := Reach(policy.maxAngularAcceleration, elapsed);
      lastLinear := Approach(lastLinear, targetLinear, linearDelta);
      lastAngular := Approach(lastAngular, targetAngular, angularDelta);
      lastOutputMs := now;
      command := Command(true, nextSequence, lastLinear, lastAngular, now, NoReason);
      nextSequence := (nextSequence + 1) % 0x100;
    }

    method Reset(now: int)
      modifies this
      ensures View() == ResetAt(old(View()), now)
    {
      request := None;
      invalidCommandPending := false;
      lastRequestMs := 0;
      lastOutputMs := now;
      lastLinear := 0;
      lastAngular := 0;
    }
  }

  // ---------------------------------------------------------------- the velocity envelope

  /** What a caller can do to an adapter. */
  datatype Call =
    | Submit(request: Request, state: SafetyState, now: int)
    | Reject(now: int)
    | Evaluate(state: SafetyState, now: int)
    | Reset(now: int)

  function Apply(a: Adapter, call: Call): Adapter {
    match call
    case Submit(request, state, now) => Submitted(a, request, state, now).0
    case Reject(now) => Rejected(a, now)
    case Evaluate(state, now) => Evaluated(a, state, now).0
    case Reset(now) => ResetAt(a, now)
  }

  function ApplyAll(a: Adapter, calls: seq<Call>): Adapter {
    if calls == [] then a else Apply(ApplyAll(a, calls[..|calls| - 1]), calls[|calls| - 1])
  }

  /** The memory the slew limiter works from is always inside the envelope. */
  predicate WithinEnvelope(a: Adapter) {
    a.policy.IsValid() ==>
      && -a.policy.maxLinear <= a.lastLinear <= a.policy.maxLinear
      && -a.policy.maxAngular <= a.lastAngular <= a.policy.maxAngular
  }

  predicate CommandWithin(policy: Policy, c: Command) {
    && (!c.enabled ==> c.linear == 0 && c.angular == 0)
    && (c.enabled ==> policy.IsValid() && -policy.maxLinear <= c.linear <= policy.maxLinear
                      && -policy.maxAngular <= c.angular <= policy.maxAngular)
  }

  /** One axis of one output: it moves towards the target by the reach, and stops at the target. */
  lemma {:induction false} ApproachMeaning(current: int, target: int, reach: int)
    requires reach >= 1
    ensures var next := Approach(current, target, reach);
      && -reach <= next - current <= reach
      && (current <= target ==> current <= next <= target)
      && (current >= target ==> target <= next <= current)
      && (next != target ==> next == if current < target then current + reach else current - reach)
  {
  }

  lemma {:induction false} EnvelopeHolds(policy: Policy, calls: seq<Call>)
    ensures ApplyAll(AdapterWith(policy), calls).policy == policy
    ensures WithinEnvelope(ApplyAll(AdapterWith(policy), calls))
  {
    if calls != [] {
      EnvelopeHolds(policy, calls[..|calls| - 1]);
    }
  }

  /** After any history of calls, every output is inside the policy limits, is zero when disabled,
      and is a velocity the codec can encode. */
  lemma {:induction false} OutputsAreEncodable(policy: Policy, calls: seq<Call>, state: SafetyState, now: int)
    ensures var c := Evaluated(ApplyAll(AdapterWith(policy), calls), state, now).1;
      CommandWithin(policy, c)
      && -0x8000 <= c.linear < 0x8000 && -0x8000 <= c.angular < 0x8000
      && VelocityEncodable(VelocityCommand(c.enabled, c.sequence, c.linear, c.angular))
  {
    EnvelopeHolds(policy, calls);
  }

  // ---------------------------------------------------------------- slew over a stretch of outputs

  /** A stretch of calls from `a` on in which every evaluation is enabled and nothing is reset. */
  predicate AllEnabled(a: Adapter, calls: seq<Call>) {
    calls == []
    || (var init, last := calls[..|calls| - 1], calls[|calls| - 1];
        && AllEnabled(a, init)
        && !last.Reset?
        && (last.Evaluate? ==> Evaluated(ApplyAll(a, init), last.state, last.now).1.enabled))
  }

  function Evaluations(calls: seq<Call>): nat {
    if calls == [] then 0
    else Evaluations(calls[..|calls| - 1]) + if calls[|calls| - 1].Evaluate? then 1 else 0
  }

  function Abs(x: int): nat {
    if x < 0 then -x else x
  }

  lemma {:induction false} ReachBound(acceleration: int, elapsed: int)
    requires acceleration > 0 && elapsed >= 0
    ensures 1 <= Reach(acceleration, elapsed)
    ensures 1000 * Reach(acceleration, elapsed) <= 1000 + acceleration * elapsed
  {
    var p := acceleration * elapsed;
    assert p >= 0;
  }

  lemma {:induction false} ScaleMonotone(acceleration: int, a: int, b: int)
    requires acceleration > 0 && a <= b
    ensures acceleration * a <= acceleration * b
  {
  }

  /** From `a` to `b` in `n` outputs: at most 1 unit per output plus acceleration times the time
      that passed. */
  predicate SlewWithin(a: Adapter, b: Adapter, n: nat) {
    && b.policy == a.policy && b.lastOutputMs >= a.lastOutputMs
    && 1000 * Abs(b.lastLinear - a.lastLinear)
         <= 1000 * n + a.policy.maxLinearAcceleration * (b.lastOutputMs - a.lastOutputMs)
    && 1000 * Abs(b.lastAngular - a.lastAngular)
         <= 1000 * n + a.policy.maxAngularAcceleration * (b.lastOutputMs - a.lastOutputMs)
  }

  lemma {:induction false} OneOutputSlew(a: Adapter, state: SafetyState, now: int)
    requires a.policy.IsValid() && a.lastOutputMs > 0
    requires Evaluated(a, state, now).1.enabled
    ensures SlewWithin(a, Evaluated(a, state, now).0, 1)
  {
    var elapsed := Elapsed(a, now);
    var r := a.request.value;
    ReachBound(a.policy.maxLinearAcceleration, elapsed);
    ReachBound(a.policy.maxAngularAcceleration, elapsed);
    ScaleMonotone(a.policy.maxLinearAcceleration, elapsed, now - a.lastOutputMs);
    ScaleMonotone(a.policy.maxAngularAcceleration, elapsed, now - a.lastOutputMs);
    ApproachMeaning(a.lastLinear, TargetLinear(a, r), Reach(a.policy.maxLinearAcceleration, elapsed));
    ApproachMeaning(a.lastAngular, TargetAngular(a, r), Reach(a.policy.maxAngularAcceleration, elapsed));
  }

  lemma {:induction false} Distribute(k: int, x: int, y: int, z: int)
    ensures k * (y - x) + k * (z - y) == k * (z - x)
  {
  }

  lemma {:induction false} SlewChain(a: Adapter, m: Adapter, b: Adapter, n: nat, k: nat)
    requires SlewWithin(a, m, n) && SlewWithin(m, b, k)
    ensures SlewWithin(a, b, n + k)
  {
    Distribute(a.policy.maxLinearAcceleration, a.lastOutputMs, m.lastOutputMs, b.lastOutputMs);
    Distribute(a.policy.maxAngularAcceleration, a.lastOutputMs, m.lastOutputMs, b.lastOutputMs);
  }

  lemma {:induction false} QuietCallSlew(a: Adapter, call: Call)
    requires !call.Evaluate? && !call.Reset?
    ensures SlewWithin(a, Apply(a, call), 0)
  {
  }

  /** Over any stretch of enabled outputs, with requests changing at will in between, each velocity
      moves by at most 1 unit per output plus acceleration times the time that passed. */
  lemma {:induction false} SlewBound(a: Adapter, calls: seq<Call>)
    requires a.policy.IsValid() && a.lastOutputMs > 0 && AllEnabled(a, calls)
    ensures SlewWithin(a, ApplyAll(a, calls), Evaluations(calls))
  {
    if calls != [] {
      var init, call := calls[..|calls| - 1], calls[|calls| - 1];
      SlewBound(a, init);
      var m := ApplyAll(a, init);
      if call.Evaluate? {
        OneOutputSlew(m, call.state, call.now);
        SlewChain(a, m, Apply(m, call), Evaluations(init), 1);
      } else {
        QuietCallSlew(m, call);
        SlewChain(a, m, Apply(m, call), Evaluations(init), 0);
      }
    }
  }

  // ---------------------------------------------------------------- convergence

  /** `after` is on the same side of the target as `before`, and nearer by `n` or at the target. */
  predicate NearerBy(before: int, after: int, target: int, n: nat) {
    && (before <= target ==> after <= target && after >= (if before + n < target then before + n else target))
    && (before >= target ==> after >= target && after <= (if before - n > target then before - n else target))
  }

  predicate ConvergesBy(a: Adapter, b: Adapter, n: nat) {
    && a.request.Some? && a.request.value.Scaled?
    && b.request == a.request && b.policy == a.policy
    && NearerBy(a.lastLinear, b.lastLinear, TargetLinear(a, a.request.value), n)
    && NearerBy(a.lastAngular, b.lastAngular, TargetAngular(a, a.request.value), n)
  }

  lemma {:induction false} OneOutputConverges(a: Adapter, state: SafetyState, now: int)
    requires a.policy.IsValid() && Evaluated(a, state, now).1.enabled
    ensures ConvergesBy(a, Evaluated(a, state, now).0, 1)
  {
    var elapsed := Elapsed(a, now);
    var r := a.request.value;
    ReachBound(a.policy.maxLinearAcceleration, elapsed);
    ReachBound(a.policy.maxAngularAcceleration, elapsed);
    ApproachMeaning(a.lastLinear, TargetLinear(a, r), Reach(a.policy.maxLinearAcceleration, elapsed));
    ApproachMeaning(a.lastAngular, TargetAngular(a, r), Reach(a.policy.maxAngularAcceleration, elapsed));
  }

  lemma {:induction false} NearerByChain(x: int, y: int, z: int, target: int, n: nat, k: nat)
    requires NearerBy(x, y, target, n) && NearerBy(y, z, target, k)
    ensures NearerBy(x, z, target, n + k)
  {
  }

  /** With a fixed fresh request the distance to the clamped target shrinks by at least 1 with every
      output until it is 0, and the target is never crossed. */
  lemma {:induction false} Converges(a: Adapter, calls: seq<Call>)
    requires a.policy.IsValid() && a.request.Some? && a.request.value.Scaled?
    requires AllEnabled(a, calls) && forall i | 0 <= i < |calls| :: calls[i].Evaluate?
    ensures ConvergesBy(a, ApplyAll(a, calls), |calls|)
  {
    if calls != [] {
      var init, call := calls[..|calls| - 1], calls[|calls| - 1];
      Converges(a, init);
      var m := ApplyAll(a, init);
      var b := Evaluated(m, call.state, call.now).0;
      OneOutputConverges(m, call.state, call.now);
      var r := a.request.value;
      NearerByChain(a.lastLinear, m.lastLinear, b.lastLinear, TargetLinear(a, r), |init|, 1);
      NearerByChain(a.lastAngular, m.lastAngular, b.lastAngular, TargetAngular(a, r), |init|, 1);
    }
  }

  /** So after as many outputs as the distance has units, the target is reached. */
  lemma {:induction false} ReachesTarget(a: Adapter, calls: seq<Call>)
    requires a.policy.IsValid() && a.request.Some? && a.request.value.Scaled?
    requires AllEnabled(a, calls) && forall i | 0 <= i < |calls| :: calls[i].Evaluate?
    ensures |calls| >= Abs(TargetLinear(a, a.request.value) - a.lastLinear) ==>
              ApplyAll(a, calls).lastLinear == TargetLinear(a, a.request.value)
    ensures |calls| >= Abs(TargetAngular(a, a.request.value) - a.lastAngular) ==>
              ApplyAll(a, calls).lastAngular == TargetAngular(a, a.request.value)
  {
    Converges(a, calls);
  }

  // ---------------------------------------------------------------- in the numbers of the request

  /** The velocity asked for, or the limit of the same sign. */
  function Wanted(velocity: int, limit: int): (w: int)
    requires limit > 0
    ensures -limit <= velocity <= limit ==> w == velocity
    ensures velocity > limit ==> w == limit
    ensures velocity < -limit ==> w == -limit
  {
    if velocity > limit then limit else if velocity < -limit then -limit else velocity
  }

  /** The time one output accounts for: an output period if it is the first, and otherwise the time since
      the last one, but no more than the command timeout. */
  function Accounted(policy: Policy, last: int, now: int): int {
    if last == 0 then policy.outputPeriodMs
    else if now - last > policy.commandTimeoutMs then policy.commandTimeoutMs
    else now - last
  }

  /** One axis of one output: straight towards `goal` and not past it, and if it does not get there, by as
      many whole units as `acceleration` times `elapsed` milliseconds come to, but at least by 1. */
  predicate MovesTowards(before: int, after: int, goal: int, acceleration: int, elapsed: int) {
    var moved := Abs(after - before);
    && (before <= after <= goal || goal <= after <= before)
    && (moved <= 1 || 1000 * moved <= acceleration * elapsed)
    && (after != goal ==> moved >= 1 && acceleration * elapsed < 1000 * (moved + 1))
  }

  lemma {:induction false} AxisMoves(before: int, goal: int, acceleration: int, elapsed: int)
    requires acceleration > 0 && elapsed >= 0
    ensures MovesTowards(before, Approach(before, goal, Reach(acceleration, elapsed)), goal, acceleration, elapsed)
  {
    var p := acceleration * elapsed;
    assert p >= 0;
    var reach := Reach(acceleration, elapsed);
    assert reach == if p / 1000 > 1 then p / 1000 else 1;
    ApproachMeaning(before, goal, reach);
  }

  /** Each axis of an enabled command, in the numbers of the request. */
  lemma {:induction false} EnabledMoves(a: Adapter, state: SafetyState, now: int)
    requires Evaluated(a, state, now).1.enabled
    ensures var (b, c) := Evaluated(a, state, now);
      && a.policy.IsValid() && a.request.Some? && a.request.value.Scaled?
      && MovesTowards(a.lastLinear, c.linear, Wanted(a.request.value.linear, a.policy.maxLinear),
                      a.policy.maxLinearAcceleration, Accounted(a.policy, a.lastOutputMs, now))
      && MovesTowards(a.lastAngular, c.angular, Wanted(a.request.value.angular, a.policy.maxAngular),
                      a.policy.maxAngularAcceleration, Accounted(a.policy, a.lastOutputMs, now))
      && b.lastLinear == c.linear && b.lastAngular == c.angular && b.request == a.request
  {
    var r, elapsed := a.request.value, Elapsed(a, now);
    assert elapsed == Accounted(a.policy, a.lastOutputMs, now);
    assert TargetLinear(a, r) == Wanted(r.linear, a.policy.maxLinear);
    assert TargetAngular(a, r) == Wanted(r.angular, a.policy.maxAngular);
    AxisMoves(a.lastLinear, TargetLinear(a, r), a.policy.maxLinearAcceleration, elapsed);
    AxisMoves(a.lastAngular, TargetAngular(a, r), a.policy.maxAngularAcceleration, elapsed);
  }

  /** With a fixed request, after as many enabled outputs as the distance has units, the command carries
      the velocity asked for, or the limit of the same sign, on each axis. */
  lemma {:induction false} CommandReachesRequest(a: Adapter, calls: seq<Call>, state: SafetyState, now: int, linear: int, angular: int)
    requires a.policy.IsValid() && a.request == Some(Scaled(linear, angular))
    requires AllEnabled(a, calls) && forall i | 0 <= i < |calls| :: calls[i].Evaluate?
    requires Evaluated(ApplyAll(a, calls), state, now).1.enabled
    ensures var c := Evaluated(ApplyAll(a, calls), state, now).1;
      var goal, turn := Wanted(linear, a.policy.maxLinear), Wanted(angular, a.policy.maxAngular);
      && (|calls| + 1 >= Abs(goal - a.lastLinear) ==> c.linear == goal)
      && (|calls| + 1 >= Abs(turn - a.lastAngular) ==> c.angular == turn)
  {
    var last := Evaluate(state, now);
    var all := calls + [last];
    assert all[..|all| - 1] == calls && all[|all| - 1] == last;
    ReachesTarget(a, all);
    Converges(a, calls);
    EnabledMoves(ApplyAll(a, calls), state, now);
  }

  /** Which reason is given: the first that applies. */
  lemma {:induction false} ReasonIsFirst(a: Adapter, s: SafetyState, now: int)
    ensures var c := Evaluated(a, s, now).1;
      var clear := a.policy.IsValid() && !s.emergencyStop && !s.chassisFault && s.peerAlive && s.authorityGranted && s.enabled;
      && (c.reason == EmergencyStop <==> a.policy.IsValid() && s.emergencyStop)
      && (c.reason == ChassisFault <==> a.policy.IsValid() && !s.emergencyStop && s.chassisFault)
      && (c.reason == PeerUnavailable <==> a.policy.IsValid() && !s.emergencyStop && !s.chassisFault && !s.peerAlive)
      && (c.reason == NoCommand <==> clear && !a.invalidCommandPending && a.request == None)
      && (c.reason == AuthorityLost ==> !s.authorityGranted)
      && (c.reason == Disabled ==> !s.enabled && s.authorityGranted)
      && (c.reason == ClockRegression ==> clear && (now < a.lastRequestMs || now < a.lastOutputMs))
      && (c.reason == CommandStale ==> clear && now > a.lastRequestMs + a.policy.commandTimeoutMs)
      && (c.reason == InvalidCommand ==>
            !a.policy.IsValid() || a.invalidCommandPending || (a.request.Some? && a.request.value.Unrepresentable?))
      && (c.enabled <==> c.reason == NoReason)
  {
  }

  lemma {:induction false} CallCounts(a: Adapter, call: Call)
    ensures Apply(a, call).nextSequence == (a.nextSequence + if call.Evaluate? then 1 else 0) % 0x100
  {
  }

  lemma {:induction false} SequenceCounts(policy: Policy, calls: seq<Call>)
    ensures ApplyAll(AdapterWith(policy), calls).nextSequence == Evaluations(calls) % 0x100
  {
    if calls != [] {
      var init, last := calls[..|calls| - 1], calls[|calls| - 1];
      SequenceCounts(policy, init);
      CallCounts(ApplyAll(AdapterWith(policy), init), last);
      ModuloStep(Evaluations(init), if last.Evaluate? then 1 else 0);
    }
  }

  lemma {:induction false} ModuloStep(n: nat, more: nat)
    ensures (n % 0x100 + more) % 0x100 == (n + more) % 0x100
  {
  }

  lemma {:induction false} CommandOfOutput(a: Adapter, state: SafetyState, now: int)
    ensures Evaluated(a, state, now).1.sequence == a.nextSequence && Evaluated(a, state, now).1.generatedAtMs == now
  {
  }

  /** Commands are numbered one after the other, modulo 256, and carry the time of their output. */
  lemma {:induction false} CommandsAreNumbered(policy: Policy, calls: seq<Call>, state: SafetyState, now: int)
    ensures var c := Evaluated(ApplyAll(AdapterWith(policy), calls), state, now).1;
      c.sequence == Evaluations(calls) % 0x100 && c.generatedAtMs == now
  {
    SequenceCounts(policy, calls);
    CommandOfOutput(ApplyAll(AdapterWith(policy), calls), state, now);
  }

  /** After a disabled output or a reset nothing is left of the movement before it: the next enabled
      output needs a new request and starts from 0. */
  lemma {:induction false} StartsFromZero(a: Adapter, call: Call, state: SafetyState, now: int)
    requires call.Reset? || (call.Evaluate? && !Evaluated(a, call.state, call.now).1.enabled)
    ensures var b := Apply(a, call);
      && b.request == None && !Evaluated(b, state, now).1.enabled
      && b.lastLinear == 0 && b.lastAngular == 0
      && b.lastOutputMs == (if call.now < 0 && call.Evaluate? then 0 else call.now)
      && (call.Reset? && a.policy.IsValid() && !Interlocked(state) ==> Evaluated(b, state, now).1.reason == NoCommand)
  {
  }

  /** A request that cannot be represented, or is rejected, stops the movement with that reason, until a request
      is taken or the adapter is reset. One that an interlock refuses only leaves none. */
  lemma {:induction false} InvalidUntilTaken(a: Adapter, s: SafetyState, at: int, state: SafetyState, now: int)
    requires a.policy.IsValid() && !Interlocked(state)
    ensures !Interlocked(s) ==> Evaluated(Submitted(a, Unrepresentable, s, at).0, state, now).1.reason == InvalidCommand
    ensures Evaluated(Rejected(a, at), state, now).1.reason == InvalidCommand
    ensures Evaluated(Evaluated(Rejected(a, at), state, now).0, state, now).1.reason == InvalidCommand
    ensures Interlocked(s) && !a.invalidCommandPending ==>
              forall r :: Evaluated(Submitted(a, r, s, at).0, state, now).1.reason == NoCommand
    ensures forall r | Submitted(a, r, s, at).1 :: !Submitted(a, r, s, at).0.invalidCommandPending
  {
  }

  /** A request is taken exactly when nothing speaks against it, and then it is the one held. */
  lemma {:induction false} TakenExactly(a: Adapter, r: Request, s: SafetyState, now: int)
    ensures Submitted(a, r, s, now).1 <==>
              && a.policy.IsValid() && s.enabled && s.authorityGranted && !s.emergencyStop && s.peerAlive && !s.chassisFault
              && now >= 0 && r.Scaled?
    ensures Submitted(a, r, s, now).1 ==>
              Submitted(a, r, s, now).0.request == Some(r) && Submitted(a, r, s, now).0.lastRequestMs == now
  {
  }

  /** Which policies can be worked with. */
  lemma {:induction false} PolicyLimits(p: Policy)
    ensures p.IsValid() <==>
              && 1 <= p.maxLinear <= 2000 && 1 <= p.maxAngular <= 10000
              && p.maxLinearAcceleration >= 1 && p.maxAngularAcceleration >= 1
              && 1 <= p.outputPeriodMs <= p.commandTimeoutMs
  {
  }
}
