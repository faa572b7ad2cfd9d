/** `BridgeService`: one navigation goal at a time, a timeout, and a guard that is kept until the
    provider says that the goal is over. */
module BridgeServices {
  import opened Options

  datatype NavigationState =
    | Disabled | Idle | Accepted | Executing | Succeeded | Cancelled | Rejected | Failed | TimedOut | Disconnected

  predicate IsActive(s: NavigationState) {
    s == Accepted || s == Executing
  }

  predicate IsConfirmed(s: NavigationState) {
    s == Cancelled || s == Failed || s == Succeeded
  }

  /** What the provider answers; the pose, the times and the texts are left out. */
  datatype Status = Status(state: NavigationState, goalId: string)

  /** The fields of the service. */
  datatype Bridge = Bridge(status: Status, acceptedAtMs: int, timeoutCancelRequested: bool)

  const NO_GOAL := Bridge(Status(Idle, ""), 0, false)

  /** One call of the provider, with its answer. */
  datatype Call =
    | Get(answer: Status)
    | Cancel(goalId: string, byTimeout: bool, answer: Status)
    | Submit(goalId: string, answer: Status)

  /** The provider's possible answers during one request. */
  datatype Answers = Answers(get: Status, timeoutCancel: Status, direct: Status)

  datatype Request = GetStatus | SubmitGoal(goalId: string, valid: bool) | CancelGoal(goalId: string)

  // ---------------------------------------------------------------- the service as a value

  predicate Concerns(mine: Status, theirs: Status) {
    mine.goalId == "" || theirs.goalId == "" || theirs.goalId == mine.goalId
  }

  /** The provider's news, taken over unless it would lose an unconfirmed cancel. */
  function Merged(b: Bridge, news: Status): Bridge {
    if !Concerns(b.status, news) then b
    else if b.timeoutCancelRequested && !IsActive(news.state) && !IsConfirmed(news.state) then b
    else Bridge(news, if IsActive(news.state) then b.acceptedAtMs else 0, b.timeoutCancelRequested)
  }

  /** A goal that is over although a timeout cancelled it: cancelled becomes timed out. */
  function Closed(b: Bridge): Bridge {
    b.(acceptedAtMs := 0, status := if b.status.state == Cancelled then b.status.(state := TimedOut) else b.status)
  }

  predicate IsOverdue(b: Bridge, now: int, timeout: int) {
    IsActive(b.status.state) && b.acceptedAtMs > 0 && now - b.acceptedAtMs >= timeout
  }

  function Refreshed(b: Bridge, now: int, timeout: int, answers: Answers): (Bridge, seq<Call>) {
    if b.status.state == TimedOut then (b, [])
    else
      var m := Merged(b, answers.get);
      if m.timeoutCancelRequested && IsConfirmed(m.status.state) then (Closed(m), [Get(answers.get)])
      else if IsOverdue(m, now, timeout) && !m.timeoutCancelRequested then
        var n := m.(timeoutCancelRequested := true);
        (if IsConfirmed(answers.timeoutCancel.state) then Closed(n.(status := answers.timeoutCancel)) else n,
         [Get(answers.get), Cancel(m.status.goalId, true, answers.timeoutCancel)])
      else (m, [Get(answers.get)])
  }

  /** `later` is the second reading of the clock. */
  function Submitted(b: Bridge, goalId: string, later: int, answer: Status): Bridge {
    Bridge(answer, if IsActive(answer.state) then later else 0, false)
  }

  predicate MayCancel(b: Bridge, goalId: string) {
    IsActive(b.status.state) && goalId != "" && goalId == b.status.goalId
  }

  predicate MaySubmit(b: Bridge) {
    b.status.state != Disabled && b.status.state != Disconnected && !IsActive(b.status.state)
  }

  /** The part of a request behind the refresh. */
  function Direct(b: Bridge, r: Request, later: int, answer: Status): (Bridge, seq<Call>) {
    match r
    case GetStatus => (b, [])
    case SubmitGoal(goalId, _) =>
      if MaySubmit(b) then (Submitted(b, goalId, later, answer), [Submit(goalId, answer)]) else (b, [])
    case CancelGoal(goalId) =>
      if MayCancel(b, goalId) then
        (if IsConfirmed(answer.state) then Bridge(answer, 0, false) else b, [Cancel(goalId, false, answer)])
      else (b, [])
  }

  function Handled(b: Bridge, r: Request, now: int, later: int, timeout: int, answers: Answers): (Bridge, seq<Call>) {
    if r.SubmitGoal? && !r.valid then (b, [])
    else
      var (m, calls) := Refreshed(b, now, timeout, answers);
      var (n, direct) := Direct(m, r, later, answers.direct);
      (n, calls + direct)
  }

  // ---------------------------------------------------------------- the object

  /** `hasProvider` is false for a null provider, which answers nothing. */
  class BridgeService {
    const hasProvider: bool
    const goalTimeoutMs: int
    var status: Status
    var acceptedAtSteadyMs: int
    var timeoutCancelRequested: bool
    ghost var log: seq<Call>

    function View(): Bridge
      reads this
    {
      Bridge(status, acceptedAtSteadyMs, timeoutCancelRequested)
    }

    ghost predicate Valid()
      reads this
    {
      !hasProvider ==> status.state == Disabled && log == []
    }

    constructor (hasProvider: bool, goalTimeoutMs: int)
      ensures Valid() && this.hasProvider == hasProvider && this.goalTimeoutMs == goalTimeoutMs && log == []
      ensures hasProvider ==> View() == NO_GOAL
    {
      this.hasProvider, this.goalTimeoutMs := hasProvider, goalTimeoutMs;
      status := Status(if hasProvider then Idle else Disabled, "");
      acceptedAtSteadyMs, timeoutCancelRequested, log := 0, false, [];
    }

    method CloseTimedOut()
      modifies this`status, this`acceptedAtSteadyMs
      ensures View() == Closed(old(View()))
    {
      acceptedAtSteadyMs := 0;
      if status.state == Cancelled {
        status := status.(state := TimedOut);
      }
    }

    method RefreshLocked(now: int, answers: Answers)
      requires Valid()
      modifies this
      ensures Valid()
      ensures hasProvider ==>
                (View(), log) == (Refreshed(old(View()), now, goalTimeoutMs, answers).0,
                                  old(log) + Refreshed(old(View()), now, goalTimeoutMs, answers).1)
      ensures !hasProvider ==> View() == old(View())
    {
      if !hasProvider || status.state == TimedOut {
        assert log + [] == log;
        return;
      }
      var refreshed := answers.get;
      log := log + [Get(refreshed)];
      if status.goalId == "" || refreshed.goalId == "" || refreshed.goalId == status.goalId {
        if !(timeoutCancelRequested && !IsActive(refreshed.state) && !IsConfirmed(refreshed.state)) {
          status := refreshed;
          if !IsActive(status.state) {
            acceptedAtSteadyMs := 0;
          }
        }
      }
      if timeoutCancelRequested && IsConfirmed(status.state) {
        CloseTimedOut();
        return;
      }
      if IsActive(status.state) && acceptedAtSteadyMs > 0 && now - acceptedAtSteadyMs >= goalTimeoutMs {
        if !timeoutCancelRequested {
          var cancellation := answers.timeoutCancel;
          log := log + [Cancel(status.goalId, true, cancellation)];
          assert log == old(log) + [Get(refreshed), Cancel(status.goalId, true, cancellation)];
          timeoutCancelRequested := true;
          if IsConfirmed(cancellation.state) {
            status := cancellation;
            CloseTimedOut();
          }
        }
      }
    }

    method SubmitNavigationGoal(goalId: string, valid: bool, now: int, later: int, answers: Answers) returns (ok: bool)
      requires Valid()
      modifies this
      ensures Valid()
      ensures hasProvider ==>
                var r := Handled(old(View()), SubmitGoal(goalId, valid), now, later, goalTimeoutMs, answers);
                View() == r.0 && log == old(log) + r.1
      ensures ok ==> hasProvider && valid && status == answers.direct
                     && status.state != Rejected && status.state != Disconnected && status.state != Failed
      ensures hasProvider ==>
                var calls := Handled(old(View()), SubmitGoal(goalId, valid), now, later, goalTimeoutMs, answers).1;
                ok <==> calls != [] && calls[|calls| - 1].Submit?
                        && answers.direct.state != Rejected && answers.direct.state != Disconnected && answers.direct.state != Failed
    {
      if !valid {
        return false;
      }
      RefreshLocked(now, answers);
      if !hasProvider || status.state == Disabled || status.state == Disconnected {
        return false;
      }
      if IsActive(status.state) {
        return false;
      }
      status := answers.direct;
      log := log + [Submit(goalId, status)];
      acceptedAtSteadyMs := if IsActive(status.state) then later else 0;
      timeoutCancelRequested := false;
      return status.state != Rejected && status.state != Disconnected && status.state != Failed;
    }

    method CancelNavigationGoal(goalId: string, now: int, answers: Answers) returns (ok: bool)
      requires Valid()
      modifies this
      ensures Valid()
      ensures hasProvider ==>
                var r := Handled(old(View()), CancelGoal(goalId), now, now, goalTimeoutMs, answers);
                View() == r.0 && log == old(log) + r.1
      ensures ok ==> status == answers.direct && status.state == Cancelled
      ensures hasProvider ==>
                var calls := Handled(old(View()), CancelGoal(goalId), now, now, goalTimeoutMs, answers).1;
                ok <==> calls != [] && calls[|calls| - 1] == Cancel(goalId, false, answers.direct) && answers.direct.state == Cancelled
    {
      RefreshLocked(now, answers);
      if !IsActive(status.state) {
        return false;
      }
      if goalId == "" || goalId != status.goalId {
        return false;
      }
      var cancellation := answers.direct;
      log := log + [Cancel(goalId, false, cancellation)];
      if IsConfirmed(cancellation.state) {
        status := cancellation;
        acceptedAtSteadyMs := 0;
        timeoutCancelRequested := false;
      }
      return status.state == Cancelled;
    }

    method GetNavigationStatus(now: int, answers: Answers) returns (result: Status)
      requires Valid()
      modifies this
      ensures Valid() && result == status
      ensures hasProvider ==>
                var r := Handled(old(View()), GetStatus, now, now, goalTimeoutMs, answers);
                View() == r.0 && log == old(log) + r.1
    {
      RefreshLocked(now, answers);
      result := status;
    }
  }

  // ---------------------------------------------------------------- what the calls alone say

  predicate SaysActive(a: Status) {
    a.state in {Accepted, Executing}
  }

  predicate SaysOver(a: Status) {
    a.state in {Cancelled, Failed, Succeeded}
  }

  /** The answer is about the goal, unless both have names and these differ. */
  predicate IsAbout(goal: string, a: Status) {
    !(goal != "" && a.goalId != "" && goal != a.goalId)
  }

  /** How often a timeout has cancelled the goal submitted last. */
  function TimeoutCancels(log: seq<Call>): nat {
    if log == [] then 0
    else
      var before, c := TimeoutCancels(log[..|log| - 1]), log[|log| - 1];
      match c
      case Submit(_, _) => 0
      case Cancel(_, byTimeout, _) => if byTimeout then before + 1 else before
      case Get(_) => before
  }

  /** The goal that was accepted and has not been reported over: after a timeout cancel, only cancelled,
      failed and succeeded count as over. */
  function Held(log: seq<Call>): Option<string> {
    if log == [] then None
    else
      var init, c := log[..|log| - 1], log[|log| - 1];
      var before := Held(init);
      match c
      case Submit(_, a) => if SaysActive(a) then Some(a.goalId) else None
      case Cancel(_, _, a) => if SaysOver(a) then None else before
      case Get(a) =>
        if before == None || !IsAbout(before.value, a) then before
        else if SaysActive(a) then Some(a.goalId)
        else if TimeoutCancels(init) > 0 && !SaysOver(a) then before
        else None
  }

  /** A timeout has cancelled the goal, and no cancel asked for by the user has been confirmed since. */
  function CancelPending(log: seq<Call>): bool {
    if log == [] then false
    else
      var before, c := CancelPending(log[..|log| - 1]), log[|log| - 1];
      match c
      case Submit(_, _) => false
      case Cancel(_, byTimeout, a) => byTimeout || (before && !SaysOver(a))
      case Get(_) => before
  }

  /** The goal that the answers so far are about. */
  function ShownGoal(log: seq<Call>): string {
    if log == [] then ""
    else
      var init, c := log[..|log| - 1], log[|log| - 1];
      var before := ShownGoal(init);
      match c
      case Submit(_, a) => a.goalId
      case Cancel(_, _, a) => if SaysOver(a) then a.goalId else before
      case Get(a) =>
        if IsAbout(before, a) && (CancelPending(init) ==> SaysActive(a) || SaysOver(a))
        then a.goalId else before
  }

  /** The state that the answers so far show: "timed out" is a goal reported cancelled behind its timeout. */
  function ShownState(log: seq<Call>): NavigationState {
    if log == [] then Idle
    else
      var init, c := log[..|log| - 1], log[|log| - 1];
      match c
      case Submit(_, a) => a.state
      case Cancel(_, byTimeout, a) =>
        if !SaysOver(a) then ShownState(init)
        else if byTimeout && a.state == Cancelled then TimedOut
        else a.state
      case Get(a) =>
        if IsAbout(ShownGoal(init), a) && (CancelPending(init) ==> SaysActive(a) || SaysOver(a))
        then (if CancelPending(init) && a.state == Cancelled then TimedOut else a.state)
        else ShownState(init)
  }

  /** A timeout cancelled the goal submitted last, and then the provider reported that goal cancelled. */
  function TimeoutConfirmed(log: seq<Call>): bool {
    if log == [] then false
    else
      var init, c := log[..|log| - 1], log[|log| - 1];
      !c.Submit?
      && (TimeoutConfirmed(init)
          || (TimeoutCancels(log) > 0 && c.answer.state == Cancelled
              && (c.Cancel? || IsAbout(ShownGoal(init), c.answer))))
  }

  // ---------------------------------------------------------------- any run

  datatype Input = Input(request: Request, now: int, later: int, answers: Answers)

  /** The provider never reports "timed out" itself. */
  predicate IsHonest(i: Input) {
    i.answers.get.state != TimedOut && i.answers.timeoutCancel.state != TimedOut && i.answers.direct.state != TimedOut
  }

  function Run(timeout: int, inputs: seq<Input>): (Bridge, seq<Call>) {
    if inputs == [] then (NO_GOAL, [])
    else
      var (b, log) := Run(timeout, inputs[..|inputs| - 1]);
      var i := inputs[|inputs| - 1];
      var (n, calls) := Handled(b, i.request, i.now, i.later, timeout, i.answers);
      (n, log + calls)
  }

  /** The fields say what the calls say. */
  ghost predicate Agrees(b: Bridge, log: seq<Call>) {
    && (Held(log).Some? ==> IsActive(b.status.state) && b.status.goalId == Held(log).value)
    && (Held(log).Some? && TimeoutCancels(log) == 1 ==> b.timeoutCancelRequested)
    && b.status.goalId == ShownGoal(log) && b.timeoutCancelRequested == CancelPending(log)
    && b.status.state == ShownState(log)
    && TimeoutCancels(log) <= 1
    && (TimeoutCancels(log) == 1 ==> b.timeoutCancelRequested || b.acceptedAtMs == 0)
    && (b.timeoutCancelRequested ==> TimeoutCancels(log) == 1 && b.status.state != Cancelled)
    && (b.status.state == TimedOut ==> TimeoutConfirmed(log))
  }

  lemma {:induction false} AfterCall(log: seq<Call>, c: Call)
    ensures (log + [c])[..|log|] == log && (log + [c])[|log|] == c
  {
  }

  lemma {:induction false} MergeAgrees(b: Bridge, log: seq<Call>, news: Status)
    requires Agrees(b, log) && b.status.state != TimedOut && news.state != TimedOut
    ensures var m := Merged(b, news);
      Agrees(if m.timeoutCancelRequested && IsConfirmed(m.status.state) then Closed(m) else m, log + [Get(news)])
  {
    AfterCall(log, Get(news));
  }

  lemma {:induction false} TimeoutAgrees(b: Bridge, log: seq<Call>, answer: Status)
    requires Agrees(b, log) && IsActive(b.status.state) && b.acceptedAtMs > 0 && !b.timeoutCancelRequested
    requires answer.state != TimedOut
    ensures var n := b.(timeoutCancelRequested := true);
      Agrees(if IsConfirmed(answer.state) then Closed(n.(status := answer)) else n,
             log + [Cancel(b.status.goalId, true, answer)])
  {
    AfterCall(log, Cancel(b.status.goalId, true, answer));
  }

  lemma {:induction false} RefreshAgrees(b: Bridge, log: seq<Call>, now: int, timeout: int, answers: Answers)
    requires Agrees(b, log) && answers.get.state != TimedOut && answers.timeoutCancel.state != TimedOut
    ensures var (n, calls) := Refreshed(b, now, timeout, answers);
      Agrees(n, log + calls)
  {
    if b.status.state == TimedOut {
      assert log + [] == log;
    } else {
      MergeAgrees(b, log, answers.get);
      var m := Merged(b, answers.get);
      if IsOverdue(m, now, timeout) && !m.timeoutCancelRequested {
        TimeoutAgrees(m, log + [Get(answers.get)], answers.timeoutCancel);
        assert log + [Get(answers.get), Cancel(m.status.goalId, true, answers.timeoutCancel)]
            == (log + [Get(answers.get)]) + [Cancel(m.status.goalId, true, answers.timeoutCancel)];
      }
    }
  }

  /** What may be called when: a goal is submitted only when none is held, a timeout cancels only a goal
      that no timeout has cancelled yet, and what is cancelled is the goal shown. */
  predicate MayFollow(log: seq<Call>, c: Call) {
    match c
    case Submit(_, _) => Held(log) == None
    case Cancel(goalId, byTimeout, _) => goalId == ShownGoal(log) && (byTimeout ==> TimeoutCancels(log) == 0)
    case Get(_) => true
  }

  ghost predicate IsGuarded(log: seq<Call>) {
    forall k | 0 <= k < |log| :: MayFollow(log[..k], log[k])
  }

  lemma {:induction false} GuardedAppend(log: seq<Call>, c: Call)
    requires IsGuarded(log) && MayFollow(log, c)
    ensures IsGuarded(log + [c])
  {
    var all := log + [c];
    forall k | 0 <= k < |all| ensures MayFollow(all[..k], all[k]) {
      if k < |log| {
        assert all[..k] == log[..k] && MayFollow(log[..k], log[k]);
      } else {
        assert all[..k] == log;
      }
    }
  }

  /** Counted at every single call, each goal gets at most one cancel from its timeout. */
  lemma {:induction false} AtMostOneCancel(log: seq<Call>, k: nat)
    requires IsGuarded(log) && k <= |log|
    ensures TimeoutCancels(log[..k]) <= 1
  {
    if k > 0 {
      AtMostOneCancel(log, k - 1);
      assert log[..k][..k - 1] == log[..k - 1];
      assert MayFollow(log[..k - 1], log[k - 1]);
    }
  }

  lemma {:induction false} RefreshGuarded(b: Bridge, log: seq<Call>, now: int, timeout: int, answers: Answers)
    requires Agrees(b, log) && IsGuarded(log)
    requires answers.get.state != TimedOut && answers.timeoutCancel.state != TimedOut
    ensures IsGuarded(log + Refreshed(b, now, timeout, answers).1)
  {
    var calls := Refreshed(b, now, timeout, answers).1;
    if calls == [] {
      assert log + calls == log;
    } else {
      var first := log + [calls[0]];
      MergeAgrees(b, log, answers.get);
      GuardedAppend(log, calls[0]);
      if |calls| == 2 {
        GuardedAppend(first, calls[1]);
        assert log + calls == first + [calls[1]];
      } else {
        assert log + calls == first;
      }
    }
  }

  lemma {:induction false} SubmitAgrees(b: Bridge, log: seq<Call>, goalId: string, later: int, answer: Status)
    requires Agrees(b, log) && MaySubmit(b) && answer.state != TimedOut
    ensures Held(log) == None && Agrees(Submitted(b, goalId, later, answer), log + [Submit(goalId, answer)])
  {
    AfterCall(log, Submit(goalId, answer));
  }

  lemma {:induction false} CancelAgrees(b: Bridge, log: seq<Call>, goalId: string, answer: Status)
    requires Agrees(b, log) && MayCancel(b, goalId) && answer.state != TimedOut
    ensures Agrees(if IsConfirmed(answer.state) then Bridge(answer, 0, false) else b, log + [Cancel(goalId, false, answer)])
  {
    AfterCall(log, Cancel(goalId, false, answer));
  }

  lemma {:induction false} DirectAgrees(b: Bridge, log: seq<Call>, r: Request, later: int, answer: Status)
    requires Agrees(b, log) && IsGuarded(log) && answer.state != TimedOut
    ensures var (n, calls) := Direct(b, r, later, answer);
      Agrees(n, log + calls) && IsGuarded(log + calls)
  {
    var calls := Direct(b, r, later, answer).1;
    if calls == [] {
      assert log + calls == log;
    } else {
      assert calls == [calls[0]];
      if r.SubmitGoal? {
        SubmitAgrees(b, log, r.goalId, later, answer);
      } else {
        CancelAgrees(b, log, r.goalId, answer);
      }
      GuardedAppend(log, calls[0]);
    }
  }

  lemma {:induction false} HandledAgrees(b: Bridge, log: seq<Call>, i: Input, timeout: int)
    requires Agrees(b, log) && IsGuarded(log) && IsHonest(i)
    ensures var (n, calls) := Handled(b, i.request, i.now, i.later, timeout, i.answers);
      Agrees(n, log + calls) && IsGuarded(log + calls)
  {
    if i.request.SubmitGoal? && !i.request.valid {
      assert log + [] == log;
    } else {
      var (m, calls) := Refreshed(b, i.now, timeout, i.answers);
      var direct := Direct(m, i.request, i.later, i.answers.direct).1;
      assert log + (calls + direct) == (log + calls) + direct;
      assert Agrees(m, log + calls) && IsGuarded(log + calls) by {
        RefreshAgrees(b, log, i.now, timeout, i.answers);
        RefreshGuarded(b, log, i.now, timeout, i.answers);
      }
      DirectAgrees(m, log + calls, i.request, i.later, i.answers.direct);
    }
  }

  lemma {:induction false} RunAgrees(timeout: int, inputs: seq<Input>)
    requires forall k | 0 <= k < |inputs| :: IsHonest(inputs[k])
    ensures var (b, log) := Run(timeout, inputs);
      Agrees(b, log) && IsGuarded(log)
  {
    if inputs != [] {
      var init := inputs[..|inputs| - 1];
      RunAgrees(timeout, init);
      HandledAgrees(Run(timeout, init).0, Run(timeout, init).1, inputs[|inputs| - 1], timeout);
    }
  }

  /** The guard, for every provider that does not itself report "timed out" and every run: a goal is
      submitted only when the one before is over; each goal gets at most one cancel from its timeout;
      "timed out" is shown only after that cancel and a report that the goal was cancelled; and while a
      goal is held the service shows it as active. */
  lemma {:induction false} GuardHolds(timeout: int, inputs: seq<Input>)
    requires forall k | 0 <= k < |inputs| :: IsHonest(inputs[k])
    ensures var (b, log) := Run(timeout, inputs);
      && IsGuarded(log)
      && (forall k | 0 <= k <= |log| :: TimeoutCancels(log[..k]) <= 1)
      && (b.status.state == TimedOut ==> TimeoutConfirmed(log))
      && (Held(log).Some? ==> IsActive(b.status.state))
  {
    RunAgrees(timeout, inputs);
    var log := Run(timeout, inputs).1;
    forall k | 0 <= k <= |log| ensures TimeoutCancels(log[..k]) <= 1 {
      AtMostOneCancel(log, k);
    }
  }

  /** The call reports the held goal, or its cancel, as cancelled, failed or succeeded. */
  predicate Ends(log: seq<Call>, c: Call) {
    && Held(log).Some? && !c.Submit? && SaysOver(c.answer)
    && (c.Cancel? || IsAbout(Held(log).value, c.answer))
  }

  /** After its timeout cancel a held goal stays held as long as no call ends it. */
  lemma {:induction false} HeldUntilEnded(log: seq<Call>, more: seq<Call>)
    requires Held(log).Some? && TimeoutCancels(log) > 0
    requires forall k | 0 <= k < |more| :: !more[k].Submit? && !Ends(log + more[..k], more[k])
    ensures Held(log + more).Some? && TimeoutCancels(log + more) > 0
    decreases |more|
  {
    if more == [] {
      assert log + more == log;
    } else {
      var init, c := more[..|more| - 1], more[|more| - 1];
      forall k | 0 <= k < |init| ensures !init[k].Submit? && !Ends(log + init[..k], init[k]) {
        assert init[..k] == more[..k] && init[k] == more[k];
      }
      HeldUntilEnded(log, init);
      assert log + more == (log + init) + [c];
      AfterCall(log + init, c);
    }
  }

  /** So an unconfirmed timeout cancel keeps the service active, and nothing is submitted, until the
      provider reports this goal, or its cancel, as cancelled, failed or succeeded. */
  lemma {:induction false} ActiveUntilConfirmed(timeout: int, inputs: seq<Input>, log: seq<Call>, more: seq<Call>)
    requires forall k | 0 <= k < |inputs| :: IsHonest(inputs[k])
    requires Run(timeout, inputs).1 == log + more
    requires Held(log).Some? && TimeoutCancels(log) > 0
    requires forall k | 0 <= k < |more| :: !Ends(log + more[..k], more[k])
    ensures IsActive(Run(timeout, inputs).0.status.state)
    ensures forall k | 0 <= k < |more| :: !more[k].Submit?
  {
    RunAgrees(timeout, inputs);
    NoSubmitWhileHeld(log, more, |more|);
    HeldUntilEnded(log, more);
  }

  lemma {:induction false} PrefixHeld(log: seq<Call>, more: seq<Call>, n: nat)
    requires n <= |more| && Held(log).Some? && TimeoutCancels(log) > 0
    requires forall k | 0 <= k < n :: !more[k].Submit? && !Ends(log + more[..k], more[k])
    ensures Held(log + more[..n]).Some?
  {
    var init := more[..n];
    forall k | 0 <= k < |init| ensures !init[k].Submit? && !Ends(log + init[..k], init[k]) {
      assert init[..k] == more[..k] && init[k] == more[k];
    }
    HeldUntilEnded(log, init);
  }

  lemma {:induction false} NoSubmitWhileHeld(log: seq<Call>, more: seq<Call>, n: nat)
    requires n <= |more| && IsGuarded(log + more)
    requires Held(log).Some? && TimeoutCancels(log) > 0
    requires forall k | 0 <= k < |more| :: !Ends(log + more[..k], more[k])
    ensures forall k | 0 <= k < n :: !more[k].Submit?
  {
    if n > 0 {
      var init := more[..n - 1];
      NoSubmitWhileHeld(log, more, n - 1);
      PrefixHeld(log, more, n - 1);
      assert (log + more)[..|log| + n - 1] == log + init;
      assert (log + more)[|log| + n - 1] == more[n - 1];
      assert MayFollow((log + more)[..|log| + n - 1], (log + more)[|log| + n - 1]);
    }
  }

  // ---------------------------------------------------------------- when the calls are made

  /** The reading of the clock right after the last submission. */
  function SubmitTime(timeout: int, inputs: seq<Input>): int {
    if inputs == [] then 0
    else
      var init, i := inputs[..|inputs| - 1], inputs[|inputs| - 1];
      var calls := Handled(Run(timeout, init).0, i.request, i.now, i.later, timeout, i.answers).1;
      if calls != [] && calls[|calls| - 1].Submit? then i.later else SubmitTime(timeout, init)
  }

  /** The clock of the held goal. */
  predicate Times(b: Bridge, log: seq<Call>, at: int) {
    b.acceptedAtMs == if Held(log).Some? then at else 0
  }

  lemma {:induction false} MergeTimes(b: Bridge, log: seq<Call>, news: Status, at: int)
    requires Agrees(b, log) && Times(b, log, at) && b.status.state != TimedOut && news.state != TimedOut
    ensures var m := Merged(b, news);
      Times(if m.timeoutCancelRequested && IsConfirmed(m.status.state) then Closed(m) else m, log + [Get(news)], at)
  {
    AfterCall(log, Get(news));
  }

  lemma {:induction false} TimeoutTimes(b: Bridge, log: seq<Call>, answer: Status, at: int)
    requires Agrees(b, log) && Times(b, log, at) && IsActive(b.status.state) && !b.timeoutCancelRequested
    ensures var n := b.(timeoutCancelRequested := true);
      Times(if IsConfirmed(answer.state) then Closed(n.(status := answer)) else n,
            log + [Cancel(b.status.goalId, true, answer)], at)
  {
    AfterCall(log, Cancel(b.status.goalId, true, answer));
  }

  lemma {:induction false} RefreshTimes(b: Bridge, log: seq<Call>, now: int, timeout: int, answers: Answers, at: int)
    requires Agrees(b, log) && Times(b, log, at)
    requires answers.get.state != TimedOut && answers.timeoutCancel.state != TimedOut
    ensures var (n, calls) := Refreshed(b, now, timeout, answers);
      Times(n, log + calls, at)
  {
    var calls := Refreshed(b, now, timeout, answers).1;
    if calls == [] {
      assert log + calls == log;
    } else {
      var m, first := Merged(b, answers.get), log + [Get(answers.get)];
      MergeAgrees(b, log, answers.get);
      MergeTimes(b, log, answers.get, at);
      if |calls| == 2 {
        TimeoutTimes(m, first, answers.timeoutCancel, at);
        assert log + calls == first + [calls[1]];
      } else {
        assert log + calls == first;
      }
    }
  }

  lemma {:induction false} DirectTimes(b: Bridge, log: seq<Call>, r: Request, later: int, answer: Status, at: int)
    requires Agrees(b, log) && Times(b, log, at) && answer.state != TimedOut
    ensures var (n, calls) := Direct(b, r, later, answer);
      Times(n, log + calls, if calls != [] && calls[0].Submit? then later else at)
  {
    var calls := Direct(b, r, later, answer).1;
    if calls == [] {
      assert log + calls == log;
    } else {
      AfterCall(log, calls[0]);
      assert calls == [calls[0]];
    }
  }

  lemma {:induction false} RefreshOnly(b: Bridge, now: int, timeout: int, answers: Answers)
    ensures var calls := Refreshed(b, now, timeout, answers).1;
      |calls| <= 2 && forall k | 0 <= k < |calls| :: !calls[k].Submit?
  {
  }

  /** Over any run the service remembers the clock of the held goal, and nothing otherwise. */
  lemma {:induction false} TimeRemembered(timeout: int, inputs: seq<Input>)
    requires forall k | 0 <= k < |inputs| :: IsHonest(inputs[k])
    ensures var (b, log) := Run(timeout, inputs);
      b.acceptedAtMs == if Held(log).Some? then SubmitTime(timeout, inputs) else 0
  {
    if inputs != [] {
      var init, i := inputs[..|inputs| - 1], inputs[|inputs| - 1];
      TimeRemembered(timeout, init);
      RunAgrees(timeout, init);
      var (b, log) := Run(timeout, init);
      var at := SubmitTime(timeout, init);
      if i.request.SubmitGoal? && !i.request.valid {
        assert log + [] == log;
      } else {
        var (m, calls) := Refreshed(b, i.now, timeout, i.answers);
        var direct := Direct(m, i.request, i.later, i.answers.direct).1;
        RefreshAgrees(b, log, i.now, timeout, i.answers);
        RefreshTimes(b, log, i.now, timeout, i.answers, at);
        DirectTimes(m, log + calls, i.request, i.later, i.answers.direct, at);
        RefreshOnly(b, i.now, timeout, i.answers);
        assert log + (calls + direct) == (log + calls) + direct;
      }
    }
  }

  /** Exactly when a request makes the timeout cancel the goal: a goal is held, also after the provider's
      news, its timeout has not cancelled it yet, and the clock has moved by the timeout since it was
      submitted. The goal cancelled is the one held. */
  lemma {:induction false} TimeoutCancelIff(timeout: int, inputs: seq<Input>, i: Input)
    requires forall k | 0 <= k < |inputs| :: IsHonest(inputs[k])
    requires IsHonest(i) && (i.request.SubmitGoal? ==> i.request.valid)
    ensures var (b, log) := Run(timeout, inputs);
      var calls := Refreshed(b, i.now, timeout, i.answers).1;
      var held, at := Held(log + [Get(i.answers.get)]), SubmitTime(timeout, inputs);
      if held.Some? && TimeoutCancels(log) == 0 && at > 0 && i.now - at >= timeout
      then calls == [Get(i.answers.get), Cancel(held.value, true, i.answers.timeoutCancel)]
      else calls == [] || calls == [Get(i.answers.get)]
  {
    TimeRemembered(timeout, inputs);
    RunAgrees(timeout, inputs);
    var (b, log) := Run(timeout, inputs);
    AfterCall(log, Get(i.answers.get));
    if b.status.state != TimedOut {
      MergeAgrees(b, log, i.answers.get);
      MergeTimes(b, log, i.answers.get, SubmitTime(timeout, inputs));
    }
  }

  /** Behind the refresh of a request, in terms of what the answers so far show: a valid goal is submitted
      exactly if the provider is there and shows no active goal, a cancel is sent exactly for the active goal
      by its name, and a mere question calls nothing more. */
  lemma {:induction false} DirectCallIff(timeout: int, inputs: seq<Input>, i: Input)
    requires forall k | 0 <= k < |inputs| :: IsHonest(inputs[k])
    requires IsHonest(i)
    ensures var (b, log) := Run(timeout, inputs);
      var calls := Handled(b, i.request, i.now, i.later, timeout, i.answers).1;
      var refresh := log + Refreshed(b, i.now, timeout, i.answers).1;
      var state := ShownState(refresh);
      match i.request
      case GetStatus => log + calls == refresh
      case SubmitGoal(goalId, valid) =>
        if !valid then calls == []
        else if state == Disabled || state == Disconnected || state == Accepted || state == Executing
        then log + calls == refresh
        else log + calls == refresh + [Submit(goalId, i.answers.direct)]
      case CancelGoal(goalId) =>
        if (state == Accepted || state == Executing) && goalId != "" && goalId == ShownGoal(refresh)
        then log + calls == refresh + [Cancel(goalId, false, i.answers.direct)]
        else log + calls == refresh
  {
    RunAgrees(timeout, inputs);
    var (b, log) := Run(timeout, inputs);
    RefreshAgrees(b, log, i.now, timeout, i.answers);
    var (m, first) := Refreshed(b, i.now, timeout, i.answers);
    var direct := Direct(m, i.request, i.later, i.answers.direct).1;
    assert log + (first + direct) == (log + first) + direct;
    assert (log + first) + [] == log + first;
  }

  /** The provider is asked at every request until a goal has timed out; then only a new goal helps. */
  lemma {:induction false} AsksUnlessTimedOut(timeout: int, inputs: seq<Input>, i: Input)
    requires forall k | 0 <= k < |inputs| :: IsHonest(inputs[k])
    ensures var (b, log) := Run(timeout, inputs);
      Refreshed(b, i.now, timeout, i.answers).1 == [] <==> ShownState(log) == TimedOut
  {
    RunAgrees(timeout, inputs);
  }
}
