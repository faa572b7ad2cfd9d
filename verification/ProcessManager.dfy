/** `ProcessManager`: module processes, mode switches with rollback, and restarts. */
module ProcessManagers {
  import opened Options
  import opened RestartLimiters

  type ModuleId = nat

  type Pid = x: int | x > 0 witness 1

  datatype ModuleConfig = ModuleConfig(id: ModuleId, restartLimit: nat, restartDelayMs: nat, critical: bool)

  datatype RunConfig = RunConfig(modules: seq<ModuleConfig>, modes: map<string, seq<ModuleId>>, restartWindowMs: nat) {
    predicate Configures(id: ModuleId) {
      exists i | 0 <= i < |modules| :: modules[i].id == id
    }

    /** What `RunConfig::Validate` demands. */
    predicate IsValid() {
      && (forall i, j | 0 <= i < j < |modules| :: modules[i].id != modules[j].id)
      && (forall mode | mode in modes :: forall id | id in modes[mode] :: Configures(id))
    }
  }

  datatype ProcessState = Stopped | Restarting | Running | Failed

  datatype ProcessRecord = ProcessRecord(
    config: ModuleConfig, state: ProcessState, pid: nat, lastExitCode: int, desired: bool,
    restartTimes: seq<int>, startCount: nat, startedAt: int, restartPending: bool, restartAt: int, failedPid: nat)

  function NewRecord(config: ModuleConfig): ProcessRecord {
    ProcessRecord(config, Stopped, 0, 0, false, [], 0, 0, false, 0, 0)
  }

  /** A process identifier exactly while running; a restart is due exactly while restarting, and only
      for a module that is wanted. */
  predicate RecordOk(r: ProcessRecord) {
    && (r.pid != 0 <==> r.state == Running)
    && (r.restartPending <==> r.state == Restarting)
    && (r.restartPending ==> r.desired)
  }

  // ---------------------------------------------------------------- what the system answers

  /** One non-blocking `waitpid`; `Vanished` is "no such child, no such process". */
  datatype Poll = NotYet | Interrupted | Reaped(code: int) | Vanished | PollError

  /** Everything the system answers while one module is being stopped; `polls` ends at the deadline. */
  datatype StopScript = StopScript(injected: bool, terminated: bool, polls: seq<Poll>, killed: bool, finalWait: Poll)

  datatype Spawn = NoPipe | NotSpawned | NotReady(code: int) | Ready(pid: Pid, at: int)

  /** The answers to every stop and every spawn, whatever they are. */
  datatype Os = Os(stop: nat -> StopScript, spawn: nat -> Spawn)

  // ---------------------------------------------------------------- one record

  /** What the polls before the deadline decide, or `NotYet`. */
  function Decision(polls: seq<Poll>): Poll {
    if polls == [] then NotYet
    else if polls[0].NotYet? || polls[0].Interrupted? then Decision(polls[1..])
    else polls[0]
  }

  function ExitCodeOf(wait: Poll): Option<int> {
    match wait
    case Reaped(code) => Some(code)
    case Vanished => Some(0)
    case _ => None
  }

  /** The exit code, if the process is known to be gone in the end. */
  function StopResult(script: StopScript): Option<int> {
    if !script.terminated then None
    else
      var decision := Decision(script.polls);
      if decision != NotYet then ExitCodeOf(decision)
      else if script.killed then ExitCodeOf(script.finalWait)
      else None
  }

  function StopEffect(r: ProcessRecord, script: StopScript): (ProcessRecord, bool) {
    if script.injected then (r, false)
    else
      var q := r.(desired := false, restartPending := false, restartTimes := []);
      if r.pid == 0 then (q.(state := Stopped), true)
      else if StopResult(script) == None then (q, false)
      else (q.(pid := 0, state := Stopped, lastExitCode := StopResult(script).value), true)
  }

  function SpawnEffect(r: ProcessRecord, spawn: Spawn): (ProcessRecord, bool) {
    match spawn
    case NoPipe => (r.(state := Failed), false)
    case NotSpawned => (r.(state := Failed), false)
    case NotReady(code) => (r.(pid := 0, state := Failed, lastExitCode := code), false)
    case Ready(pid, at) =>
      (r.(pid := pid, state := Running, lastExitCode := 0, startedAt := at, startCount := r.startCount + 1), true)
  }

  function StartEffect(r: ProcessRecord, spawn: Spawn): (ProcessRecord, bool) {
    if r.state == Running then (r.(desired := true), true)
    else SpawnEffect(r.(desired := true, restartPending := false, restartTimes := []), spawn)
  }

  function ExitEffect(r: ProcessRecord, code: int, now: int, window: nat): ProcessRecord {
    var q := r.(pid := 0, lastExitCode := code);
    if !r.desired then q.(state := Stopped)
    else
      var (times, ok) := OnExit(r.restartTimes, now, window, r.config.restartLimit);
      if ok then
        q.(restartTimes := times, state := Restarting, restartPending := true,
           restartAt := now + r.config.restartDelayMs, failedPid := r.pid)
      else q.(restartTimes := times, state := Failed, restartPending := false)
  }

  predicate IsDue(r: ProcessRecord, now: int) {
    r.restartPending && now >= r.restartAt
  }

  /** How many of the first `n` records have a restart that is due. */
  function DueBefore(ps: seq<ProcessRecord>, now: int, n: nat): nat
    requires n <= |ps|
  {
    if n == 0 then 0 else DueBefore(ps, now, n - 1) + if IsDue(ps[n - 1], now) then 1 else 0
  }

  function RestartEffect(r: ProcessRecord, spawn: Spawn): (ProcessRecord, bool) {
    SpawnEffect(r.(restartPending := false, failedPid := 0), spawn)
  }

  /** How one attempt to restart a record ends; the number is that of the spawn. */
  type Attempt = (ProcessRecord, nat) -> ProcessRecord

  function AttemptOf(spawn: nat -> Spawn): Attempt {
    (r: ProcessRecord, k: nat) => RestartEffect(r, spawn(k)).0
  }

  /** The first `n` records have been tried if they are due, in order, by spawns from `first` on. */
  function AfterRestarts(ps: seq<ProcessRecord>, now: int, attempt: Attempt, first: nat, n: nat): (after: seq<ProcessRecord>)
    requires n <= |ps|
    ensures |after| == |ps|
  {
    if n == 0 then ps
    else
      var before := AfterRestarts(ps, now, attempt, first, n - 1);
      if IsDue(ps[n - 1], now) then before[n - 1 := attempt(ps[n - 1], first + DueBefore(ps, now, n - 1))] else before
  }

  /** One of the first `n` records was due, could not be restarted, and is critical. */
  predicate SomeCritical(ps: seq<ProcessRecord>, now: int, attempt: Attempt, first: nat, n: nat)
    requires n <= |ps|
  {
    n > 0
    && (|| SomeCritical(ps, now, attempt, first, n - 1)
        || (IsDue(ps[n - 1], now) && IsCriticalFailure(attempt(ps[n - 1], first + DueBefore(ps, now, n - 1)))))
  }

  predicate IsCriticalFailure(r: ProcessRecord) {
    r.state == Failed && r.config.critical
  }

  /** Record by record: those that are due are tried, each by a spawn of its own; the others stay. */
  lemma {:induction false} RestartedAt(ps: seq<ProcessRecord>, now: int, attempt: Attempt, first: nat, n: nat, j: nat)
    requires n <= |ps| && j < |ps|
    ensures AfterRestarts(ps, now, attempt, first, n)[j]
         == if j < n && IsDue(ps[j], now) then attempt(ps[j], first + DueBefore(ps, now, j)) else ps[j]
  {
    if n > 0 {
      RestartedAt(ps, now, attempt, first, n - 1, j);
    }
  }

  /** Restarts change neither what is wanted nor a record that is not due. */
  lemma {:induction false} RestartsKeep(ps: seq<ProcessRecord>, now: int, spawn: nat -> Spawn, first: nat)
    ensures var after := AfterRestarts(ps, now, AttemptOf(spawn), first, |ps|);
      forall j | 0 <= j < |ps| :: after[j].desired == ps[j].desired && (!ps[j].restartPending ==> after[j] == ps[j])
  {
    var after := AfterRestarts(ps, now, AttemptOf(spawn), first, |ps|);
    forall j | 0 <= j < |ps| ensures after[j].desired == ps[j].desired && (!ps[j].restartPending ==> after[j] == ps[j]) {
      RestartedAt(ps, now, AttemptOf(spawn), first, |ps|, j);
      RetryKeepsMemory(ps[j], spawn(first + DueBefore(ps, now, j)));
    }
  }

  lemma {:induction false} SomeCriticalMeans(ps: seq<ProcessRecord>, now: int, attempt: Attempt, first: nat, n: nat)
    requires n <= |ps|
    ensures SomeCritical(ps, now, attempt, first, n) <==>
              exists j | 0 <= j < n :: IsDue(ps[j], now) && IsCriticalFailure(AfterRestarts(ps, now, attempt, first, n)[j])
  {
    forall j: nat | j < n
      ensures AfterRestarts(ps, now, attempt, first, n)[j]
           == if IsDue(ps[j], now) then attempt(ps[j], first + DueBefore(ps, now, j)) else ps[j]
    {
      RestartedAt(ps, now, attempt, first, n, j);
    }
    if n > 0 {
      SomeCriticalMeans(ps, now, attempt, first, n - 1);
      forall j: nat | j < n - 1
        ensures AfterRestarts(ps, now, attempt, first, n - 1)[j] == AfterRestarts(ps, now, attempt, first, n)[j]
      {
        RestartedAt(ps, now, attempt, first, n - 1, j);
      }
    }
  }

  // ---------------------------------------------------------------- what a change is made of

  datatype SwitchResult = Switched | UnknownMode | Reverted | RollbackFailed

  /** One stop of a module, or one attempt to start its process. */
  datatype Step = Stop(id: ModuleId) | Launch(id: ModuleId)

  datatype Done = Done(step: Step, ok: bool)

  predicate AllOk(done: seq<Done>) {
    forall k | 0 <= k < |done| :: done[k].ok
  }

  /** The steps of the plan, in its order, as far as they went. */
  predicate Carried(done: seq<Done>, plan: seq<Step>) {
    |done| <= |plan| && forall k | 0 <= k < |done| :: done[k].step == plan[k]
  }

  /** All of the plan, or up to and with the first failure. */
  predicate CarriedOut(done: seq<Done>, plan: seq<Step>, ok: bool) {
    && Carried(done, plan)
    && if ok then |done| == |plan| && AllOk(done)
       else done != [] && AllOk(done[..|done| - 1]) && !done[|done| - 1].ok
  }

  /** From the back, the wanted modules outside the list among the records behind `i`. */
  function StopPlan(ps: seq<ProcessRecord>, ids: seq<ModuleId>, i: nat): seq<Step>
    requires i <= |ps|
    decreases |ps| - i
  {
    if i == |ps| then []
    else StopPlan(ps, ids, i + 1) + if ps[i].desired && ps[i].config.id !in ids then [Stop(ps[i].config.id)] else []
  }

  /** No process runs for the module. */
  predicate IsDown(ps: seq<ProcessRecord>, id: ModuleId) {
    exists j | 0 <= j < |ps| :: ps[j].config.id == id && ps[j].state != Running
  }

  /** In the order of the list, the first `k` modules that do not run, each once. */
  function LaunchPlan(ps: seq<ProcessRecord>, ids: seq<ModuleId>, k: nat): seq<Step>
    requires k <= |ids|
  {
    if k == 0 then []
    else LaunchPlan(ps, ids, k - 1)
         + if IsDown(ps, ids[k - 1]) && ids[k - 1] !in ids[..k - 1] then [Launch(ids[k - 1])] else []
  }

  /** A switch: first the stops, from the back, and then the starts, in order. */
  function SwitchPlan(ps: seq<ProcessRecord>, ids: seq<ModuleId>): seq<Step> {
    StopPlan(ps, ids, 0) + LaunchPlan(ps, ids, |ids|)
  }

  /** The first steps carry out the plan. If they succeed nothing follows; otherwise the rest is the way back,
      and it counts as reverted if and only if every step of it succeeds. */
  predicate Ran(done: seq<Done>, plan: seq<Step>, result: SwitchResult) {
    exists n | 0 <= n <= |done| ::
      && CarriedOut(done[..n], plan, result == Switched)
      && (result == Switched ==> n == |done|)
      && (result == Reverted ==> AllOk(done[n..]))
      && (result == RollbackFailed ==> !AllOk(done[n..]))
  }

  lemma {:induction false} LogGrows(before: seq<Done>, halfway: seq<Done>, after: seq<Done>)
    requires before <= halfway <= after
    ensures after[|before|..] == halfway[|before|..] + after[|halfway|..]
    ensures |before| + |halfway[|before|..]| == |halfway|
  {
  }

  lemma {:induction false} RanThrough(done: seq<Done>, plan: seq<Step>)
    requires CarriedOut(done, plan, true)
    ensures Ran(done, plan, Switched)
  {
    assert done[..|done|] == done;
  }

  lemma {:induction false} RanBack(before: seq<Done>, halfway: seq<Done>, after: seq<Done>, plan: seq<Step>, restored: bool)
    requires before <= halfway <= after && CarriedOut(halfway[|before|..], plan, false)
    requires restored <==> AllOk(after[|halfway|..])
    ensures Ran(after[|before|..], plan, if restored then Reverted else RollbackFailed)
  {
    LogGrows(before, halfway, after);
    var n := |halfway[|before|..]|;
    assert after[|before|..][..n] == halfway[|before|..] && after[|before|..][n..] == after[|halfway|..];
  }

  lemma {:induction false} AllOkOne(done: Done)
    ensures AllOk([done]) <==> done.ok
  {
    assert [done][0] == done;
  }

  lemma {:induction false} AllOkMore(done: seq<Done>, more: seq<Done>)
    ensures AllOk(done + more) <==> AllOk(done) && AllOk(more)
  {
    var all := done + more;
    if AllOk(all) {
      forall k | 0 <= k < |done| ensures done[k].ok {
        assert all[k].ok;
      }
      forall k | 0 <= k < |more| ensures more[k].ok {
        assert all[|done| + k].ok;
      }
    }
  }

  lemma {:induction false} CarriedMore(done: seq<Done>, plan: seq<Step>, more: seq<Done>, rest: seq<Step>, ok: bool)
    requires CarriedOut(done, plan, true) && CarriedOut(more, rest, ok)
    ensures CarriedOut(done + more, plan + rest, ok)
  {
    var all := done + more;
    if !ok {
      assert all[|all| - 1] == more[|more| - 1];
      assert all[..|all| - 1] == done + more[..|more| - 1];
    }
  }

  /** A plan that was cut short begins every longer one. */
  lemma {:induction false} StopPlanPrefix(ps: seq<ProcessRecord>, ids: seq<ModuleId>, i: nat, done: seq<Done>)
    requires i <= |ps| && CarriedOut(done, StopPlan(ps, ids, i), false)
    ensures CarriedOut(done, StopPlan(ps, ids, 0), false)
    decreases i
  {
    if i > 0 {
      CarriedFirst(done, StopPlan(ps, ids, i), if ps[i - 1].desired && ps[i - 1].config.id !in ids then [Stop(ps[i - 1].config.id)] else []);
      StopPlanPrefix(ps, ids, i - 1, done);
    }
  }

  lemma {:induction false} StopPlanStep(ps: seq<ProcessRecord>, ids: seq<ModuleId>, i: nat, done: seq<Done>, last: Done)
    requires i < |ps| && ps[i].desired && ps[i].config.id !in ids && last.step == Stop(ps[i].config.id)
    requires CarriedOut(done, StopPlan(ps, ids, i + 1), true)
    ensures last.ok ==> CarriedOut(done + [last], StopPlan(ps, ids, i), true)
    ensures !last.ok ==> CarriedOut(done + [last], StopPlan(ps, ids, 0), false)
  {
    CarriedMore(done, StopPlan(ps, ids, i + 1), [last], [last.step], last.ok);
    if !last.ok {
      StopPlanPrefix(ps, ids, i, done + [last]);
    }
  }

  lemma {:induction false} LaunchPlanPrefix(ps: seq<ProcessRecord>, ids: seq<ModuleId>, k: nat, done: seq<Done>)
    requires k <= |ids| && CarriedOut(done, LaunchPlan(ps, ids, k), false)
    ensures CarriedOut(done, LaunchPlan(ps, ids, |ids|), false)
    decreases |ids| - k
  {
    if k < |ids| {
      CarriedFirst(done, LaunchPlan(ps, ids, k), if IsDown(ps, ids[k]) && ids[k] !in ids[..k] then [Launch(ids[k])] else []);
      LaunchPlanPrefix(ps, ids, k + 1, done);
    }
  }

  lemma {:induction false} CarriedFirst(done: seq<Done>, plan: seq<Step>, rest: seq<Step>)
    requires CarriedOut(done, plan, false)
    ensures CarriedOut(done, plan + rest, false)
  {
  }

  /** Only wanted modules outside the list were stopped, and only among the records behind `i`. */
  predicate StoppedFrom(before: seq<ProcessRecord>, after: seq<ProcessRecord>, ids: seq<ModuleId>, i: nat) {
    && |after| == |before|
    && forall j | 0 <= j < |before| && after[j] != before[j] ::
         i <= j && before[j].desired && before[j].config.id !in ids && !after[j].desired && after[j].config == before[j].config
  }

  /** No module outside the list is wanted behind `i`. */
  predicate ClearedFrom(ps: seq<ProcessRecord>, ids: seq<ModuleId>, i: nat) {
    forall j | i <= j < |ps| :: ps[j].desired ==> ps[j].config.id in ids
  }

  lemma {:induction false} StoppedStep(start: seq<ProcessRecord>, before: seq<ProcessRecord>, ids: seq<ModuleId>, i: nat,
                                       script: StopScript)
    requires StoppedFrom(start, before, ids, i + 1) && i < |before| && before[i].desired && before[i].config.id !in ids
    ensures var after := before[i := StopEffect(before[i], script).0];
      && StoppedFrom(start, after, ids, i)
      && (StopEffect(before[i], script).1 && ClearedFrom(before, ids, i + 1) ==> ClearedFrom(after, ids, i))
  {
    assert before[i] == start[i];
  }

  lemma {:induction false} StoppedLeaves(before: seq<ProcessRecord>, after: seq<ProcessRecord>, ids: seq<ModuleId>)
    requires StoppedFrom(before, after, ids, 0)
    ensures Untouched(before, after, ids)
  {
  }

  /** The plan of the starts is the same before and after the stops. */
  lemma {:induction false} SamePlan(before: seq<ProcessRecord>, after: seq<ProcessRecord>, ids: seq<ModuleId>, k: nat)
    requires StoppedFrom(before, after, ids, 0) && k <= |ids|
    ensures LaunchPlan(after, ids, k) == LaunchPlan(before, ids, k)
    decreases k
  {
    if k > 0 {
      SamePlan(before, after, ids, k - 1);
      var id := ids[k - 1];
      if IsDown(before, id) {
        var j :| 0 <= j < |before| && before[j].config.id == id && before[j].state != Running;
        assert after[j] == before[j];
      }
      if IsDown(after, id) {
        var j :| 0 <= j < |after| && after[j].config.id == id && after[j].state != Running;
        assert after[j] == before[j];
      }
    }
  }

  lemma {:induction false} PlanJoined(ps: seq<ProcessRecord>, middle: seq<ProcessRecord>, ids: seq<ModuleId>,
                                      before: seq<Done>, halfway: seq<Done>, after: seq<Done>, ok: bool)
    requires StoppedFrom(ps, middle, ids, 0) && before <= halfway <= after
    requires CarriedOut(halfway[|before|..], StopPlan(ps, ids, 0), true)
    requires CarriedOut(after[|halfway|..], LaunchPlan(middle, ids, |ids|), ok)
    ensures CarriedOut(after[|before|..], SwitchPlan(ps, ids), ok)
  {
    LogGrows(before, halfway, after);
    SamePlan(ps, middle, ids, |ids|);
    CarriedMore(halfway[|before|..], StopPlan(ps, ids, 0), after[|halfway|..], LaunchPlan(ps, ids, |ids|), ok);
  }

  lemma {:induction false} ChangeLeaves(before: seq<ProcessRecord>, middle: seq<ProcessRecord>, after: seq<ProcessRecord>, ids: seq<ModuleId>)
    requires StoppedFrom(before, middle, ids, 0) && (after == middle || StartedOnly(middle, after, ids))
    ensures Untouched(before, after, ids)
    ensures forall j | 0 <= j < |before| :: after[j].config == before[j].config
    ensures forall j | 0 <= j < |before| && before[j].config.id !in ids && after[j].desired :: after[j] == before[j]
  {
    forall j | 0 <= j < |before| && LeftAlone(before[j], ids) ensures after[j] == before[j] {
      assert middle[j] == before[j];
    }
  }

  lemma {:induction false} ClearedAndUp(middle: seq<ProcessRecord>, after: seq<ProcessRecord>, ids: seq<ModuleId>)
    requires ClearedFrom(middle, ids, 0) && StartedOnly(middle, after, ids) && AreUp(after, ids)
    ensures RunsExactly(after, ids)
  {
  }

  /** The way back leaves alone what the switch has to. */
  lemma {:induction false} BackLeaves(before: seq<ProcessRecord>, changed: seq<ProcessRecord>, after: seq<ProcessRecord>,
                                      ids: seq<ModuleId>, previous: seq<ModuleId>)
    requires Untouched(before, changed, ids) && Untouched(changed, after, previous)
    requires forall j | 0 <= j < |before| :: before[j].desired <==> before[j].config.id in previous
    ensures Untouched(before, after, ids)
  {
    forall j | 0 <= j < |before| && LeftAlone(before[j], ids) ensures after[j] == before[j] {
      assert changed[j] == before[j];
    }
  }

  /** Only listed modules that were not up were changed. */
  predicate StartedOnly(before: seq<ProcessRecord>, after: seq<ProcessRecord>, ids: seq<ModuleId>) {
    && |after| == |before|
    && forall j | 0 <= j < |before| && after[j] != before[j] ::
         before[j].config.id in ids && !IsUp(before[j]) && after[j].config == before[j].config
  }

  predicate AreUp(ps: seq<ProcessRecord>, ids: seq<ModuleId>) {
    forall j | 0 <= j < |ps| && ps[j].config.id in ids :: IsUp(ps[j])
  }

  lemma {:induction false} StartedStep(start: seq<ProcessRecord>, before: seq<ProcessRecord>, after: seq<ProcessRecord>,
                                       ids: seq<ModuleId>, k: nat)
    requires k < |ids| && StartedOnly(start, before, ids[..k]) && StartedOnly(before, after, [ids[k]])
    ensures StartedOnly(start, after, ids[..k + 1]) && StartedOnly(start, after, ids)
    ensures AreUp(before, ids[..k]) && AreUp(after, [ids[k]]) ==> AreUp(after, ids[..k + 1])
  {
    assert ids[..k + 1] == ids[..k] + [ids[k]];
    forall j | 0 <= j < |start| && after[j] != start[j]
      ensures start[j].config.id in ids[..k + 1] && !IsUp(start[j]) && after[j].config == start[j].config
    {
      assert before[j] != start[j] || after[j] != before[j];
    }
  }

  lemma {:induction false} LaunchPlanStep(start: seq<ProcessRecord>, before: seq<ProcessRecord>, ids: seq<ModuleId>, k: nat,
                                          done: seq<Done>, more: seq<Done>, ok: bool)
    requires k < |ids| && StartedOnly(start, before, ids[..k]) && AreUp(before, ids[..k])
    requires CarriedOut(done, LaunchPlan(start, ids, k), true)
    requires more == if IsDown(before, ids[k]) then [Done(Launch(ids[k]), ok)] else []
    requires !ok ==> IsDown(before, ids[k])
    ensures ok ==> CarriedOut(done + more, LaunchPlan(start, ids, k + 1), true)
    ensures !ok ==> CarriedOut(done + more, LaunchPlan(start, ids, |ids|), false)
  {
    var rest := if IsDown(start, ids[k]) && ids[k] !in ids[..k] then [Launch(ids[k])] else [];
    StillDown(start, before, ids, k);
    assert CarriedOut(more, rest, ok);
    CarriedMore(done, LaunchPlan(start, ids, k), more, rest, ok);
    if !ok {
      LaunchPlanPrefix(start, ids, k + 1, done + more);
    }
  }

  lemma {:induction false} StillDown(start: seq<ProcessRecord>, before: seq<ProcessRecord>, ids: seq<ModuleId>, k: nat)
    requires k < |ids| && StartedOnly(start, before, ids[..k]) && AreUp(before, ids[..k])
    ensures IsDown(before, ids[k]) <==> IsDown(start, ids[k]) && ids[k] !in ids[..k]
  {
    if IsDown(before, ids[k]) {
      var j :| 0 <= j < |before| && before[j].config.id == ids[k] && before[j].state != Running;
      assert !IsUp(before[j]);
      assert before[j] == start[j];
    }
    if IsDown(start, ids[k]) && ids[k] !in ids[..k] {
      var j :| 0 <= j < |start| && start[j].config.id == ids[k] && start[j].state != Running;
      assert before[j] == start[j];
    }
  }

  /** The stop ends the process, if there is one. */
  predicate Ends(script: StopScript) {
    !script.injected && StopResult(script).Some?
  }

  // ---------------------------------------------------------------- the object

  predicate IsUp(r: ProcessRecord) {
    r.desired && r.state == Running
  }

  /** The wanted modules are exactly those listed, and every one of them runs. */
  predicate RunsExactly(ps: seq<ProcessRecord>, ids: seq<ModuleId>) {
    forall j | 0 <= j < |ps| :: (ps[j].desired <==> ps[j].config.id in ids) && (ps[j].desired ==> IsUp(ps[j]))
  }

  /** The records that a change to the listed modules leaves alone: those it neither has nor lists,
      and those it lists that run already. */
  predicate LeftAlone(r: ProcessRecord, ids: seq<ModuleId>) {
    if r.config.id in ids then IsUp(r) else !r.desired
  }

  predicate Untouched(before: seq<ProcessRecord>, after: seq<ProcessRecord>, ids: seq<ModuleId>) {
    && |after| == |before|
    && forall j | 0 <= j < |before| && LeftAlone(before[j], ids) :: after[j] == before[j]
  }

  class ProcessManager {
    const config: RunConfig
    const os: Os
    var processes: seq<ProcessRecord>
    var stops: nat
    var spawns: nat
    var mode: string
    var criticalFailure: bool
    /** Every stop and every attempt to start a process. */
    ghost var log: seq<Done>

    ghost predicate Valid()
      reads this
    {
      && config.IsValid()
      && |processes| == |config.modules|
      && forall j | 0 <= j < |processes| :: processes[j].config == config.modules[j] && RecordOk(processes[j])
    }

    constructor (config: RunConfig, os: Os)
      requires config.IsValid()
      ensures Valid() && this.config == config && mode == ""
      ensures forall j | 0 <= j < |processes| :: processes[j] == NewRecord(config.modules[j])
    {
      this.config, this.os := config, os;
      processes := seq(|config.modules|, j requires 0 <= j < |config.modules| => NewRecord(config.modules[j]));
      stops, spawns, mode, criticalFailure, log := 0, 0, "", false, [];
    }

    method Find(id: ModuleId) returns (index: Option<nat>)
      requires Valid()
      ensures index.Some? ==> index.value < |processes| && processes[index.value].config.id == id
      ensures index == None ==> !config.Configures(id)
    {
      for i := 0 to |processes|
        invariant forall j | 0 <= j < i :: config.modules[j].id != id
      {
        if processes[i].config.id == id {
          return Some(i);
        }
      }
      return None;
    }

    /** The wait loop of `StopModule`, up to its deadline. */
    static method PollUntilDeadline(polls: seq<Poll>) returns (decision: Poll)
      ensures decision == Decision(polls)
    {
      var i := 0;
      assert polls[0..] == polls;
      while i < |polls|
        invariant i <= |polls| && Decision(polls[i..]) == Decision(polls)
      {
        if !polls[i].NotYet? && !polls[i].Interrupted? {
          return polls[i];
        }
        assert polls[i..][1..] == polls[i + 1..];
        i := i + 1;
      }
      return NotYet;
    }

    method StopModule(id: ModuleId) returns (ok: bool)
      requires Valid()
      modifies this`processes, this`stops, this`log
      ensures Valid() && |processes| == |old(processes)| && stops == old(stops) + 1
      ensures !config.Configures(id) ==> !ok
      ensures log == old(log) + [Done(Stop(id), ok)]
      ensures config.Configures(id) && Ends(os.stop(old(stops))) ==> ok
      ensures forall j | 0 <= j < |processes| ::
                if processes[j].config.id == id then (processes[j], ok) == StopEffect(old(processes)[j], os.stop(old(stops)))
                else processes[j] == old(processes)[j]
    {
      ok := StopProcess(id);
      log := log + [Done(Stop(id), ok)];
    }

    method StopProcess(id: ModuleId) returns (ok: bool)
      requires Valid()
      modifies this`processes, this`stops
      ensures Valid() && |processes| == |old(processes)| && stops == old(stops) + 1
      ensures !config.Configures(id) ==> !ok
      ensures config.Configures(id) && Ends(os.stop(old(stops))) ==> ok
      ensures forall j | 0 <= j < |processes| ::
                if processes[j].config.id == id then (processes[j], ok) == StopEffect(old(processes)[j], os.stop(old(stops)))
                else processes[j] == old(processes)[j]
    {
      var index := Find(id);
      var script := os.stop(stops);
      stops := stops + 1;
      if index == None {
        return false;
      }
      if script.injected {
        return false;
      }
      var i := index.value;
      var r := processes[i].(desired := false, restartPending := false, restartTimes := []);
      if r.pid == 0 {
        processes := processes[i := r.(state := Stopped)];
        return true;
      }
      processes := processes[i := r];
      if !script.terminated {
        return false;
      }
      var decision := PollUntilDeadline(script.polls);
      if decision == NotYet {
        if !script.killed {
          return false;
        }
        decision := script.finalWait;
      }
      var code := ExitCodeOf(decision);
      if code == None {
        return false;
      }
      processes := processes[i := r.(pid := 0, state := Stopped, lastExitCode := code.value)];
      return true;
    }

    method Start(i: nat) returns (ok: bool)
      requires i < |processes|
      modifies this`processes, this`spawns, this`log
      ensures spawns == old(spawns) + 1
      ensures log == old(log) + [Done(Launch(old(processes)[i].config.id), ok)]
      ensures ok == os.spawn(old(spawns)).Ready?
      ensures (processes, ok) == (old(processes)[i := SpawnEffect(old(processes)[i], os.spawn(old(spawns))).0],
                                  SpawnEffect(old(processes)[i], os.spawn(old(spawns))).1)
    {
      var r := processes[i];
      var spawn := os.spawn(spawns);
      spawns := spawns + 1;
      match spawn {
        case NoPipe =>
          processes := processes[i := r.(state := Failed)];
          ok := false;
        case NotSpawned =>
          processes := processes[i := r.(state := Failed)];
          ok := false;
        case NotReady(code) =>
          processes := processes[i := r.(pid := 0, state := Failed, lastExitCode := code)];
          ok := false;
        case Ready(pid, at) =>
          processes := processes[i := r.(pid := pid, state := Running, lastExitCode := 0, startedAt := at,
                                         startCount := r.startCount + 1)];
          ok := true;
      }
      log := log + [Done(Launch(r.config.id), ok)];
    }

    method StartModule(id: ModuleId) returns (ok: bool)
      requires Valid()
      modifies this`processes, this`spawns, this`log
      ensures Valid() && |processes| == |old(processes)| && old(spawns) <= spawns <= old(spawns) + 1
      ensures !config.Configures(id) ==> !ok
      ensures log == old(log) + if IsDown(old(processes), id) then [Done(Launch(id), ok)] else []
      ensures !ok && config.Configures(id) ==>
                IsDown(old(processes), id) && spawns == old(spawns) + 1 && !os.spawn(old(spawns)).Ready?
      ensures forall j | 0 <= j < |processes| ::
                if processes[j].config.id == id then (processes[j], ok) == StartEffect(old(processes)[j], os.spawn(old(spawns)))
                else processes[j] == old(processes)[j]
    {
      var index := Find(id);
      if index == None {
        return false;
      }
      var i := index.value;
      if processes[i].state == Running {
        processes := processes[i := processes[i].(desired := true)];
        return true;
      }
      processes := processes[i := processes[i].(desired := true, restartPending := false, restartTimes := [])];
      ok := Start(i);
    }

    method Wanted() returns (order: seq<ModuleId>)
      requires Valid()
      ensures forall id | id in order :: config.Configures(id)
      ensures forall j | 0 <= j < |processes| :: processes[j].desired <==> processes[j].config.id in order
    {
      order := [];
      for i := 0 to |processes|
        invariant forall id | id in order :: exists j | 0 <= j < i :: config.modules[j].id == id
        invariant forall j | 0 <= j < i :: processes[j].desired <==> processes[j].config.id in order
      {
        if processes[i].desired {
          order := order + [processes[i].config.id];
        }
      }
    }

    method StopAt(i: nat) returns (ok: bool)
      requires Valid() && i < |processes|
      modifies this`processes, this`stops, this`log
      ensures Valid() && stops == old(stops) + 1
      ensures (processes, ok) == (old(processes)[i := StopEffect(old(processes)[i], os.stop(old(stops))).0],
                                  StopEffect(old(processes)[i], os.stop(old(stops))).1)
      ensures log == old(log) + [Done(Stop(old(processes)[i].config.id), ok)]
      ensures Ends(os.stop(old(stops))) ==> ok
    {
      ghost var before := processes;
      ok := StopModule(processes[i].config.id);
      assert processes == before[i := StopEffect(before[i], os.stop(old(stops))).0];
    }

    /** Stops, from the back, what is wanted and not listed; stops at the first failure if so asked. */
    method StopUnlisted(ids: seq<ModuleId>, giveUp: bool) returns (ok: bool)
      requires Valid()
      modifies this`processes, this`stops, this`log
      ensures Valid() && StoppedFrom(old(processes), processes, ids, 0)
      ensures ok ==> ClearedFrom(processes, ids, 0)
      ensures old(log) <= log && stops >= old(stops)
      ensures ok <==> AllOk(log[|old(log)|..])
      ensures giveUp ==> CarriedOut(log[|old(log)|..], StopPlan(old(processes), ids, 0), ok)
      ensures !ok ==> exists n: nat :: old(stops) <= n < stops && !Ends(os.stop(n))
    {
      ok := true;
      var i := |processes|;
      while i > 0
        invariant 0 <= i <= |processes| && Valid() && StoppedFrom(old(processes), processes, ids, i)
        invariant ok ==> ClearedFrom(processes, ids, i)
        invariant old(log) <= log && stops >= old(stops)
        invariant ok <==> AllOk(log[|old(log)|..])
        invariant giveUp ==> ok && CarriedOut(log[|old(log)|..], StopPlan(old(processes), ids, i), true)
        invariant !ok ==> exists n: nat :: old(stops) <= n < stops && !Ends(os.stop(n))
      {
        i := i - 1;
        assert processes[i] == old(processes)[i];
        if !(processes[i].desired && processes[i].config.id !in ids) {
          assert StopPlan(old(processes), ids, i) == StopPlan(old(processes), ids, i + 1);
        } else {
          ghost var before, done, n := processes, log[|old(log)|..], stops;
          var stopped := StopAt(i);
          StoppedStep(old(processes), before, ids, i, os.stop(n));
          ghost var last := Done(Stop(before[i].config.id), stopped);
          assert log[|old(log)|..] == done + [last];
          AllOkMore(done, [last]);
          AllOkOne(last);
          if giveUp {
            StopPlanStep(old(processes), ids, i, done, last);
          }
          ok := ok && stopped;
          if giveUp && !stopped {
            return;
          }
        }
      }
    }

    method StartUnlessUp(id: ModuleId) returns (ok: bool)
      requires Valid() && config.Configures(id)
      modifies this`processes, this`spawns, this`log
      ensures Valid() && spawns >= old(spawns)
      ensures StartedOnly(old(processes), processes, [id])
      ensures ok ==> AreUp(processes, [id])
      ensures log == old(log) + if IsDown(old(processes), id) then [Done(Launch(id), ok)] else []
      ensures !ok ==> IsDown(old(processes), id)
      ensures !ok ==> exists n: nat :: old(spawns) <= n < spawns && !os.spawn(n).Ready?
    {
      ok := true;
      var index := Find(id);
      assert processes[index.value].config.id == id;
      if !(processes[index.value].desired && processes[index.value].state == Running) {
        ok := StartModule(id);
      }
    }

    /** Starts the listed modules in order; stops at the first failure if so asked. */
    method StartListed(ids: seq<ModuleId>, giveUp: bool) returns (ok: bool)
      requires Valid() && forall id | id in ids :: config.Configures(id)
      modifies this`processes, this`spawns, this`log
      ensures Valid() && StartedOnly(old(processes), processes, ids)
      ensures ok ==> AreUp(processes, ids)
      ensures old(log) <= log && spawns >= old(spawns)
      ensures ok <==> AllOk(log[|old(log)|..])
      ensures giveUp ==> CarriedOut(log[|old(log)|..], LaunchPlan(old(processes), ids, |ids|), ok)
      ensures !ok ==> exists n: nat :: old(spawns) <= n < spawns && !os.spawn(n).Ready?
    {
      ok := true;
      for k := 0 to |ids|
        invariant Valid() && StartedOnly(old(processes), processes, ids[..k])
        invariant ok ==> AreUp(processes, ids[..k])
        invariant old(log) <= log && spawns >= old(spawns)
        invariant ok <==> AllOk(log[|old(log)|..])
        invariant giveUp ==> ok && CarriedOut(log[|old(log)|..], LaunchPlan(old(processes), ids, k), true)
        invariant !ok ==> exists n: nat :: old(spawns) <= n < spawns && !os.spawn(n).Ready?
      {
        ghost var before, done := processes, log[|old(log)|..];
        var started := StartUnlessUp(ids[k]);
        ghost var more := if IsDown(before, ids[k]) then [Done(Launch(ids[k]), started)] else [];
        assert log[|old(log)|..] == done + more;
        AllOkMore(done, more);
        AllOkOne(Done(Launch(ids[k]), started));
        StartedStep(old(processes), before, processes, ids, k);
        if giveUp {
          LaunchPlanStep(old(processes), before, ids, k, done, more, started);
        }
        ok := ok && started;
        if giveUp && !started {
          return;
        }
      }
      assert ids[..|ids|] == ids;
    }

    method RestorePreviousMode(previous: seq<ModuleId>) returns (ok: bool)
      requires Valid() && forall id | id in previous :: config.Configures(id)
      modifies this`processes, this`stops, this`spawns, this`log
      ensures Valid() && Untouched(old(processes), processes, previous) && |processes| == |old(processes)|
      ensures ok ==> RunsExactly(processes, previous)
      ensures old(log) <= log && stops >= old(stops) && spawns >= old(spawns)
      ensures ok <==> AllOk(log[|old(log)|..])
    {
      var stopped := StopUnlisted(previous, false);
      ghost var stops := log[|old(log)|..];
      ghost var middle := processes;
      StoppedLeaves(old(processes), middle, previous);
      var started := StartListed(previous, false);
      ChangeLeaves(old(processes), middle, processes, previous);
      ok := stopped && started;
      ghost var starts := log[|old(log)| + |stops|..];
      assert log[|old(log)|..] == stops + starts;
      AllOkMore(stops, starts);
      if ok {
        ClearedAndUp(middle, processes, previous);
      }
    }

    /** The stops and starts of a switch, up to the first failure. */
    method ApplyPlan(ids: seq<ModuleId>) returns (ok: bool)
      requires Valid() && forall id | id in ids :: config.Configures(id)
      modifies this`processes, this`stops, this`spawns, this`log
      ensures Valid() && Untouched(old(processes), processes, ids)
      ensures ok ==> RunsExactly(processes, ids)
      ensures old(log) <= log && stops >= old(stops) && spawns >= old(spawns)
      ensures CarriedOut(log[|old(log)|..], SwitchPlan(old(processes), ids), ok)
      ensures !ok ==>
                (exists n: nat :: old(stops) <= n < stops && !Ends(os.stop(n)))
                || (exists n: nat :: old(spawns) <= n < spawns && !os.spawn(n).Ready?)
    {
      ok := StopUnlisted(ids, true);
      ghost var middle, halfway := processes, log;
      if ok {
        ok := StartListed(ids, true);
        PlanJoined(old(processes), middle, ids, old(log), halfway, log, ok);
        if ok {
          ClearedAndUp(middle, processes, ids);
        }
      } else {
        CarriedFirst(log[|old(log)|..], StopPlan(old(processes), ids, 0), LaunchPlan(old(processes), ids, |ids|));
      }
      ChangeLeaves(old(processes), middle, processes, ids);
    }

    /** All or nothing: afterwards exactly the modules of the mode are wanted and run, or exactly those
        wanted before, or the caller is told that the rollback failed. Either way a module that both
        modes run is not stopped, and one that is in neither is not touched. The switch succeeds if and
        only if every stop and start of its plan does; otherwise it ends with the first that fails, and
        the rest is the way back. */
    method SwitchMode(newMode: string) returns (result: SwitchResult)
      requires Valid()
      modifies this
      ensures Valid()
      ensures result == UnknownMode <==> newMode !in config.modes
      ensures result == UnknownMode ==> processes == old(processes) && log == old(log)
      ensures result == Switched ==>
                RunsExactly(processes, config.modes[newMode]) && mode == newMode && !criticalFailure
      ensures result != Switched ==> mode == old(mode) && criticalFailure == old(criticalFailure)
      ensures result == Reverted ==>
                |processes| == |old(processes)|
                && forall j | 0 <= j < |processes| ::
                     (processes[j].desired <==> old(processes)[j].desired) && (processes[j].desired ==> IsUp(processes[j]))
      ensures result != UnknownMode ==> Untouched(old(processes), processes, config.modes[newMode])
      ensures old(log) <= log && stops >= old(stops) && spawns >= old(spawns)
      ensures newMode in config.modes ==>
                Ran(log[|old(log)|..], SwitchPlan(old(processes), config.modes[newMode]), result)
      ensures result in {Reverted, RollbackFailed} ==>
                (exists n: nat :: old(stops) <= n < stops && !Ends(os.stop(n)))
                || (exists n: nat :: old(spawns) <= n < spawns && !os.spawn(n).Ready?)
    {
      if newMode !in config.modes {
        return UnknownMode;
      }
      var ids := config.modes[newMode];
      var previous := Wanted();
      var ok := ApplyPlan(ids);
      ghost var halfway, changed := log, processes;
      if ok {
        mode := newMode;
        criticalFailure := false;
        RanThrough(log[|old(log)|..], SwitchPlan(old(processes), ids));
        return Switched;
      }
      var restored := RestorePreviousMode(previous);
      BackLeaves(old(processes), changed, processes, ids, previous);
      RanBack(old(log), halfway, log, SwitchPlan(old(processes), ids), restored);
      return if restored then Reverted else RollbackFailed;
    }

    method MarkFailed(i: nat)
      requires i < |processes|
      modifies this`processes, this`criticalFailure
      ensures processes == old(processes)[i := old(processes)[i].(state := Failed, restartPending := false)]
      ensures criticalFailure == (old(criticalFailure) || old(processes)[i].config.critical)
    {
      processes := processes[i := processes[i].(state := Failed, restartPending := false)];
      if processes[i].config.critical {
        criticalFailure := true;
      }
    }

    static method PruneRestartTimes(all: seq<int>, now: int, window: nat) returns (times: seq<int>)
      ensures times == Pruned(all, now, window)
    {
      times := all;
      while times != [] && now - times[0] > window
        invariant Pruned(times, now, window) == Pruned(all, now, window)
      {
        times := times[1..];
      }
    }

    /** A critical failure is raised exactly when a critical module that is wanted is out of restarts. */
    method HandleExit(i: nat, code: int, now: int)
      requires Valid() && i < |processes|
      modifies this`processes, this`criticalFailure
      ensures Valid()
      ensures processes == old(processes)[i := ExitEffect(old(processes)[i], code, now, config.restartWindowMs)]
      ensures criticalFailure
           == (old(criticalFailure) || (processes[i].state == Failed && processes[i].config.critical))
    {
      var r := TakeExit(processes[i], code, now, config.restartWindowMs);
      processes := processes[i := r];
      if r.state == Failed {
        MarkFailed(i);
      }
    }

    /** What `HandleExit` does to the record. */
    static method TakeExit(before: ProcessRecord, code: int, now: int, window: nat) returns (r: ProcessRecord)
      ensures r == ExitEffect(before, code, now, window)
    {
      r := before.(pid := 0, lastExitCode := code);
      if !r.desired {
        return r.(state := Stopped);
      }
      var times := PruneRestartTimes(r.restartTimes, now, window);
      r := r.(restartTimes := times);
      if |times| >= r.config.restartLimit {
        return r.(state := Failed, restartPending := false);
      }
      return r.(restartTimes := times + [now], state := Restarting, restartPending := true,
                restartAt := now + r.config.restartDelayMs, failedPid := before.pid);
    }

    /** Every restart that is due is tried; the others and the wanted set stay. */
    method RestartPending(now: int)
      requires Valid()
      modifies this`processes, this`spawns, this`criticalFailure, this`log
      ensures Valid() && |processes| == |old(processes)|
      ensures processes == AfterRestarts(old(processes), now, AttemptOf(os.spawn), old(spawns), |old(processes)|)
      ensures spawns == old(spawns) + DueBefore(old(processes), now, |processes|)
      ensures criticalFailure
           == (old(criticalFailure)
               || SomeCritical(old(processes), now, AttemptOf(os.spawn), old(spawns), |old(processes)|))
    {
      ghost var attempt := AttemptOf(os.spawn);
      for i := 0 to |processes|
        invariant Valid() && |processes| == |old(processes)| && spawns == old(spawns) + DueBefore(old(processes), now, i)
        invariant processes == AfterRestarts(old(processes), now, attempt, old(spawns), i)
        invariant criticalFailure == (old(criticalFailure) || SomeCritical(old(processes), now, attempt, old(spawns), i))
      {
        RestartedAt(old(processes), now, attempt, old(spawns), i, i);
        var r := processes[i];
        if !r.restartPending || now < r.restartAt {
          continue;
        }
        Retry(i);
      }
    }

    method Retry(i: nat)
      requires Valid() && i < |processes| && processes[i].restartPending
      modifies this`processes, this`spawns, this`criticalFailure, this`log
      ensures Valid() && spawns == old(spawns) + 1
      ensures processes == old(processes)[i := AttemptOf(os.spawn)(old(processes)[i], old(spawns))]
      ensures criticalFailure == (old(criticalFailure) || IsCriticalFailure(processes[i]))
    {
      processes := processes[i := processes[i].(restartPending := false, failedPid := 0)];
      var ok := Start(i);
      if !ok {
        MarkFailed(i);
      }
    }

    /** `exits` is what `waitpid(-1)` reports, in order: each is taken by the first record that runs
        under its identifier, and then every restart that is due is tried. */
    method ReapExited(exits: seq<ChildExit>, now: int)
      requires Valid()
      modifies this`processes, this`spawns, this`criticalFailure, this`log
      ensures Valid() && |processes| == |old(processes)|
      ensures var reaped := AfterExits(old(processes), exits, config.restartWindowMs);
        processes == AfterRestarts(reaped, now, AttemptOf(os.spawn), old(spawns), |reaped|)
      ensures forall j | 0 <= j < |processes| :: processes[j].desired == old(processes)[j].desired
      ensures forall j | 0 <= j < |processes| && old(processes)[j].state == Running ::
                (forall e | e in exits :: e.pid != old(processes)[j].pid) ==> processes[j] == old(processes)[j]
    {
      for k := 0 to |exits|
        invariant Valid() && |processes| == |old(processes)| && spawns == old(spawns)
        invariant processes == AfterExits(old(processes), exits[..k], config.restartWindowMs)
      {
        var i := 0;
        while i < |processes| && processes[i].pid != exits[k].pid
          invariant i <= |processes| && FirstWithPid(processes, exits[k].pid, i) == FirstWithPid(processes, exits[k].pid, 0)
        {
          i := i + 1;
        }
        assert exits[..k + 1][..k] == exits[..k];
        if i < |processes| {
          HandleExit(i, exits[k].code, exits[k].at);
        }
      }
      assert exits[..|exits|] == exits;
      forall j | 0 <= j < |processes|
        ensures processes[j].desired == old(processes)[j].desired
        ensures old(processes)[j].pid != 0 && (forall e | e in exits :: e.pid != old(processes)[j].pid) ==>
                  processes[j] == old(processes)[j]
      {
        ReapingIsLiving(old(processes), exits, config.restartWindowMs, j);
      }
      ghost var reaped := processes;
      RestartPending(now);
      RestartsKeep(reaped, now, os.spawn, old(spawns));
    }
  }

  datatype ChildExit = ChildExit(pid: Pid, code: int, at: int)

  /** The first record at or behind `i` with this identifier, or the end. */
  function FirstWithPid(ps: seq<ProcessRecord>, pid: Pid, i: nat): (r: nat)
    requires i <= |ps|
    ensures r <= |ps|
    decreases |ps| - i
  {
    if i == |ps| || ps[i].pid == pid then i else FirstWithPid(ps, pid, i + 1)
  }

  function AfterExits(ps: seq<ProcessRecord>, exits: seq<ChildExit>, window: nat): (r: seq<ProcessRecord>)
    ensures |r| == |ps|
  {
    if exits == [] then ps
    else
      var before, last := AfterExits(ps, exits[..|exits| - 1], window), exits[|exits| - 1];
      var i := FirstWithPid(before, last.pid, 0);
      if i == |ps| then before else before[i := ExitEffect(before[i], last.code, last.at, window)]
  }

  // ---------------------------------------------------------------- one module between manual commands

  /** What happens to a record that nobody starts or stops by hand. */
  datatype Incident = Exited(code: int, now: int) | Retried(spawn: Spawn)

  function Lived(r: ProcessRecord, incidents: seq<Incident>, window: nat): ProcessRecord {
    if incidents == [] then r
    else
      var before := Lived(r, incidents[..|incidents| - 1], window);
      match incidents[|incidents| - 1]
      case Exited(code, now) => ExitEffect(before, code, now, window)
      case Retried(spawn) => RestartEffect(before, spawn).0
  }

  function ExitTimes(incidents: seq<Incident>): seq<int> {
    if incidents == [] then []
    else
      var before, last := ExitTimes(incidents[..|incidents| - 1]), incidents[|incidents| - 1];
      if last.Exited? then before + [last.now] else before
  }

  /** The times at which a restart became due. */
  function RestartsGranted(r: ProcessRecord, incidents: seq<Incident>, window: nat): seq<int> {
    if incidents == [] then []
    else
      var before, last := RestartsGranted(r, incidents[..|incidents| - 1], window), incidents[|incidents| - 1];
      if last.Exited? && Lived(r, incidents, window).restartPending then before + [last.now] else before
  }

  lemma {:induction false} ExitAsksLimiter(r: ProcessRecord, code: int, now: int, window: nat)
    requires r.desired
    ensures var n := ExitEffect(r, code, now, window);
      var (times, ok) := OnExit(r.restartTimes, now, window, r.config.restartLimit);
      && n.desired && n.config == r.config && n.restartTimes == times
      && n.restartPending == ok && (n.state == Failed <==> !ok)
  {
  }

  lemma {:induction false} RetryKeepsMemory(r: ProcessRecord, spawn: Spawn)
    ensures var n := RestartEffect(r, spawn).0;
      n.desired == r.desired && n.config == r.config && n.restartTimes == r.restartTimes
  {
  }

  /** A manual start or stop clears the memory; from then on the record is the limiter. */
  lemma {:induction false} RecordIsLimiter(r: ProcessRecord, incidents: seq<Incident>, window: nat)
    requires r.desired && r.restartTimes == []
    ensures var n := Lived(r, incidents, window);
      && n.desired && n.config == r.config
      && n.restartTimes == Remembered(ExitTimes(incidents), window, r.config.restartLimit)
    ensures RestartsGranted(r, incidents, window) == Granted(ExitTimes(incidents), window, r.config.restartLimit)
  {
    if incidents != [] {
      var init, last := incidents[..|incidents| - 1], incidents[|incidents| - 1];
      RecordIsLimiter(r, init, window);
      var before := Lived(r, init, window);
      match last {
        case Exited(code, now) =>
          ExitAsksLimiter(before, code, now, window);
          OneMoreExit(ExitTimes(init), now, window, r.config.restartLimit);
        case Retried(spawn) =>
          RetryKeepsMemory(before, spawn);
      }
    }
  }

  /** Between manual starts and stops no closed window holds more restarts than the limit. */
  lemma {:induction false} RestartsWithinLimit(r: ProcessRecord, incidents: seq<Incident>, window: nat, start: int)
    requires r.desired && r.restartTimes == [] && Sorted(ExitTimes(incidents))
    ensures CountIn(RestartsGranted(r, incidents, window), start, start + window) <= r.config.restartLimit
  {
    RecordIsLimiter(r, incidents, window);
    WindowNeverOverfull(ExitTimes(incidents), window, r.config.restartLimit, start);
  }

  /** ... and a module is given up if and only if the window that ends now is full. */
  lemma {:induction false} GivenUpIffWindowFull(r: ProcessRecord, incidents: seq<Incident>, code: int, now: int, window: nat)
    requires r.desired && r.restartTimes == [] && Sorted(ExitTimes(incidents) + [now])
    ensures ExitEffect(Lived(r, incidents, window), code, now, window).state == Failed
       <==> CountIn(RestartsGranted(r, incidents, window), now - window, now) >= r.config.restartLimit
  {
    RecordIsLimiter(r, incidents, window);
    ExitAsksLimiter(Lived(r, incidents, window), code, now, window);
    RefusedIffFull(ExitTimes(incidents), now, window, r.config.restartLimit);
  }

  /** The exits that one record takes while all records are reaped. */
  function ExitsOf(ps: seq<ProcessRecord>, exits: seq<ChildExit>, window: nat, j: nat): seq<Incident>
    requires j < |ps|
  {
    if exits == [] then []
    else
      var init, last := exits[..|exits| - 1], exits[|exits| - 1];
      var before := ExitsOf(ps, init, window, j);
      if FirstWithPid(AfterExits(ps, init, window), last.pid, 0) == j then before + [Exited(last.code, last.at)] else before
  }

  /** Reaping is, record by record, the life that the limiter's properties are about; a module that runs
      under no reported identifier is left alone. */
  lemma {:induction false} ReapingIsLiving(ps: seq<ProcessRecord>, exits: seq<ChildExit>, window: nat, j: nat)
    requires j < |ps|
    ensures AfterExits(ps, exits, window)[j] == Lived(ps[j], ExitsOf(ps, exits, window, j), window)
    ensures AfterExits(ps, exits, window)[j].desired == ps[j].desired
    ensures ps[j].pid != 0 && (forall e | e in exits :: e.pid != ps[j].pid) ==> ExitsOf(ps, exits, window, j) == []
  {
    if exits != [] {
      var init, last := exits[..|exits| - 1], exits[|exits| - 1];
      ReapingIsLiving(ps, init, window, j);
      FirstHasPid(AfterExits(ps, init, window), last.pid, 0);
      var life := ExitsOf(ps, init, window, j);
      assert (life + [Exited(last.code, last.at)])[..|life|] == life;
    }
  }

  lemma {:induction false} FirstHasPid(ps: seq<ProcessRecord>, pid: Pid, i: nat)
    requires i <= |ps|
    ensures var r := FirstWithPid(ps, pid, i); r < |ps| ==> ps[r].pid == pid
    decreases |ps| - i
  {
    if i < |ps| && ps[i].pid != pid {
      FirstHasPid(ps, pid, i + 1);
    }
  }

  /** The exits of one record are in the order of the report. */
  lemma {:induction false} ExitsOfSorted(ps: seq<ProcessRecord>, exits: seq<ChildExit>, window: nat, j: nat)
    requires j < |ps| && forall a, b | 0 <= a <= b < |exits| :: exits[a].at <= exits[b].at
    ensures Sorted(ExitTimes(ExitsOf(ps, exits, window, j)))
    ensures exits != [] ==> forall t | t in ExitTimes(ExitsOf(ps, exits, window, j)) :: t <= exits[|exits| - 1].at
  {
    if exits != [] {
      var init, last := exits[..|exits| - 1], exits[|exits| - 1];
      ExitsOfSorted(ps, init, window, j);
      var life := ExitsOf(ps, init, window, j);
      assert (life + [Exited(last.code, last.at)])[..|life|] == life;
      AppendSorted(ExitTimes(life), last.at);
    }
  }

  lemma {:induction false} AppendSorted(times: seq<int>, t: int)
    requires Sorted(times)
    ensures (forall u | u in times :: u <= t) ==> Sorted(times + [t])
  {
    if forall u | u in times :: u <= t {
      var all := times + [t];
      forall i, j | 0 <= i <= j < |all| ensures all[i] <= all[j] {
        if i < |times| {
          assert times[i] in times;
        }
      }
    }
  }

  /** What a manual start leaves is a record with an empty memory, unless the module already runs. */
  lemma {:induction false} ManualStartClears(r: ProcessRecord, spawn: Spawn)
    requires RecordOk(r)
    ensures var n := StartEffect(r, spawn).0;
      n.desired && RecordOk(n) && (r.state != Running ==> n.restartTimes == [])
  {
  }

  /** So from a manual start on, reaping grants a module at most its limit of restarts per window. */
  lemma {:induction false} RestartsSinceStart(r: ProcessRecord, spawn: Spawn, incidents: seq<Incident>, window: nat, start: int)
    requires RecordOk(r) && r.state != Running && Sorted(ExitTimes(incidents))
    ensures CountIn(RestartsGranted(StartEffect(r, spawn).0, incidents, window), start, start + window)
         <= r.config.restartLimit
  {
    ManualStartClears(r, spawn);
    RestartsWithinLimit(StartEffect(r, spawn).0, incidents, window, start);
  }

  // ---------------------------------------------------------------- what a stop and a start need

  /** The poll says that the process is gone. */
  predicate SaysGone(poll: Poll, code: int) {
    poll == Reaped(code) || (poll == Vanished && code == 0)
  }

  predicate IsUndecided(poll: Poll) {
    poll.NotYet? || poll.Interrupted?
  }

  /** A process counts as gone, with this exit code, exactly when it could be told to terminate, and the first
      poll that decides says so, or none decides before the deadline, it could be killed, and the wait behind
      that says so. */
  lemma {:induction false} GoneExactly(script: StopScript, code: int)
    ensures StopResult(script) == Some(code) <==>
              script.terminated
              && (|| (exists k | 0 <= k < |script.polls| :: IsFirstDecided(script.polls, k) && SaysGone(script.polls[k], code))
                  || ((forall k | 0 <= k < |script.polls| :: IsUndecided(script.polls[k]))
                      && script.killed && SaysGone(script.finalWait, code)))
  {
    DecisionIsFirst(script.polls);
    if k :| 0 <= k < |script.polls| && IsFirstDecided(script.polls, k) {
      assert !IsUndecided(script.polls[k]);
    }
  }

  predicate IsFirstDecided(polls: seq<Poll>, k: nat)
    requires k < |polls|
  {
    !IsUndecided(polls[k]) && forall j | 0 <= j < k :: IsUndecided(polls[j])
  }

  lemma {:induction false} DecisionIsFirst(polls: seq<Poll>)
    ensures forall k | 0 <= k < |polls| && IsFirstDecided(polls, k) :: Decision(polls) == polls[k]
    ensures (forall k | 0 <= k < |polls| :: IsUndecided(polls[k])) <==> Decision(polls) == NotYet
    ensures Decision(polls) != NotYet ==>
              exists k | 0 <= k < |polls| :: IsFirstDecided(polls, k) && Decision(polls) == polls[k]
  {
    if polls != [] {
      var rest := polls[1..];
      DecisionIsFirst(rest);
      if !IsUndecided(polls[0]) {
        assert IsFirstDecided(polls, 0);
        forall k | 0 <= k < |polls| && IsFirstDecided(polls, k) ensures Decision(polls) == polls[k] {
          assert k == 0;
        }
      } else {
        forall k | 0 <= k < |polls| && IsFirstDecided(polls, k) ensures Decision(polls) == polls[k] {
          assert k > 0 && forall j | 0 <= j < k - 1 :: rest[j] == polls[j + 1];
          assert IsFirstDecided(rest, k - 1);
        }
        if Decision(rest) != NotYet {
          var k :| 0 <= k < |rest| && IsFirstDecided(rest, k) && Decision(rest) == rest[k];
          forall j | 0 <= j < k + 1 ensures IsUndecided(polls[j]) {
            assert j > 0 ==> polls[j] == rest[j - 1];
          }
          assert IsFirstDecided(polls, k + 1);
        } else {
          forall k | 0 <= k < |polls| ensures IsUndecided(polls[k]) {
            assert k > 0 ==> polls[k] == rest[k - 1];
          }
        }
      }
    }
  }

  /** A stop: an injected failure changes nothing; otherwise the module is no longer wanted nor due for a
      restart, and it is stopped, or still runs as before and the stop has failed. */
  lemma {:induction false} StopMeans(r: ProcessRecord, script: StopScript)
    requires RecordOk(r)
    ensures var (n, ok) := StopEffect(r, script);
      && (ok <==> !script.injected && (r.state != Running || StopResult(script).Some?))
      && (script.injected ==> n == r)
      && (!script.injected ==> !n.desired && !n.restartPending && n.restartTimes == [])
      && (ok ==> n.state == Stopped && n.pid == 0 && (r.state == Running ==> StopResult(script) == Some(n.lastExitCode)))
      && (!ok ==> n.state == r.state && n.pid == r.pid)
      && n.config == r.config && n.startCount == r.startCount
  {
  }

  /** A start: a running module is only wanted; any other runs under its new identifier if its process comes
      up, and is failed if not. */
  lemma {:induction false} StartMeans(r: ProcessRecord, spawn: Spawn)
    requires RecordOk(r)
    ensures var (n, ok) := StartEffect(r, spawn);
      && n.desired && n.config == r.config
      && (ok <==> r.state == Running || spawn.Ready?)
      && (r.state == Running ==> n == r.(desired := true))
      && (r.state != Running && ok ==> n.state == Running && n.pid == spawn.pid && n.startCount == r.startCount + 1)
      && (!ok ==> n.state == Failed && n.pid == 0 && !n.restartPending && n.startCount == r.startCount)
  {
  }

  /** An exit of a wanted module that has restarts left: the next one is due after its delay and not before. */
  lemma {:induction false} RestartAfterDelay(r: ProcessRecord, code: int, now: int, window: nat, later: int)
    requires r.desired
    ensures var n := ExitEffect(r, code, now, window);
      && (n.state == Restarting ==> (IsDue(n, later) <==> later >= now + r.config.restartDelayMs))
      && (n.state != Restarting ==> n.state == Failed && (!n.restartPending ==> !IsDue(n, later)))
      && n.pid == 0 && n.lastExitCode == code
    ensures ExitEffect(r.(desired := false), code, now, window).state == Stopped
  {
  }
}
