/** The state that `AudioPlaybackClient` shares under one mutex, and the single-flight protocol by
    which any number of threads cancel a playback. */
module PlaybackCancellations {

  const MAX_CANCELLATION_ATTEMPTS := 2

  // ---------------------------------------------------------------- what the mutex protects

  /** 0 stands for "none" in both identifiers. */
  datatype Shared = Shared(request: nat, playback: nat, attempts: nat, inFlight: bool, confirmed: bool)

  const IDLE := Shared(0, 0, 0, false, false)

  /** The playback is still the active one; request 0 stands for "whoever's it is". */
  predicate IsActive(s: Shared, request: nat, playback: nat) {
    s.playback == playback && (request == 0 || s.request == request)
  }

  /** What a cancelling thread does when it lets go of the mutex. */
  datatype Action = Return(result: bool) | Wait | Send

  /** One round of the loop, from holding the mutex to letting go of it. */
  function Decided(s: Shared, request: nat, playback: nat, owns: bool): (Shared, Action) {
    if !IsActive(s, request, playback) then (s, Return(false))
    else if s.confirmed then (s, Return(true))
    else if s.inFlight && !owns then (s, Wait)
    else if s.attempts >= MAX_CANCELLATION_ATTEMPTS then (s, Return(false))
    else (s.(inFlight := s.inFlight || !owns, attempts := s.attempts + 1), Send)
  }

  /** The answer to a Cancel call; a refusal with an attempt left goes straight into another round. */
  function Answered(s: Shared, request: nat, playback: nat, accepted: bool): (Shared, Action, bool) {
    if !IsActive(s, request, playback) then (s, Return(false), true)
    else if accepted then (s.(confirmed := true, inFlight := false), Return(true), true)
    else if s.attempts >= MAX_CANCELLATION_ATTEMPTS then (s.(inFlight := false), Return(false), true)
    else
      var (t, action) := Decided(s, request, playback, true);
      (t, action, false)
  }

  predicate MayWake(s: Shared, request: nat, playback: nat) {
    !IsActive(s, request, playback) || !s.inFlight
  }

  class AudioPlaybackClient {
    var activeRequestId: nat
    var activePlaybackId: nat
    var activeCancellationAttempts: nat
    var activeCancellationInFlight: bool
    var activeCancellationConfirmed: bool

    function View(): Shared
      reads this
    {
      Shared(activeRequestId, activePlaybackId, activeCancellationAttempts, activeCancellationInFlight,
             activeCancellationConfirmed)
    }

    constructor ()
      ensures View() == IDLE
    {
      activeRequestId, activePlaybackId, activeCancellationAttempts := 0, 0, 0;
      activeCancellationInFlight, activeCancellationConfirmed := false, false;
    }

    method ResetCancellation()
      modifies this`activeCancellationAttempts, this`activeCancellationInFlight, this`activeCancellationConfirmed
      ensures View() == old(View()).(attempts := 0, inFlight := false, confirmed := false)
    {
      activeCancellationAttempts := 0;
      activeCancellationInFlight := false;
      activeCancellationConfirmed := false;
    }

    /** `refuse` stands for stopping and for a cancelled request. */
    method Activate(request: nat, refuse: bool) returns (ok: bool)
      modifies this
      ensures ok == (!refuse && old(activeRequestId) == 0)
      ensures View() == if ok then Shared(request, old(activePlaybackId), 0, false, false) else old(View())
    {
      if refuse || activeRequestId != 0 {
        return false;
      }
      activeRequestId := request;
      ResetCancellation();
      return true;
    }

    method Publish(playback: nat, refuse: bool) returns (ok: bool)
      modifies this
      ensures ok == !refuse
      ensures View() == if ok then Shared(old(activeRequestId), playback, 0, false, false)
                              else old(View()).(request := 0)
    {
      if refuse {
        activeRequestId := 0;
        return false;
      }
      activePlaybackId := playback;
      ResetCancellation();
      return true;
    }

    method ClearActiveRequest(request: nat) returns (notify: bool)
      modifies this
      ensures notify == (old(activeRequestId) == request)
      ensures View() == if notify then IDLE else old(View())
    {
      if activeRequestId != request {
        return false;
      }
      activeRequestId := 0;
      activePlaybackId := 0;
      ResetCancellation();
      return true;
    }

    method BeginRound(request: nat, playback: nat, owns: bool) returns (action: Action)
      modifies this
      ensures (View(), action) == Decided(old(View()), request, playback, owns)
    {
      if activePlaybackId != playback || (request != 0 && activeRequestId != request) {
        return Return(false);
      }
      if activeCancellationConfirmed {
        return Return(true);
      }
      if activeCancellationInFlight && !owns {
        return Wait;
      }
      if activeCancellationAttempts >= MAX_CANCELLATION_ATTEMPTS {
        return Return(false);
      }
      if !owns {
        activeCancellationInFlight := true;
      }
      activeCancellationAttempts := activeCancellationAttempts + 1;
      return Send;
    }

    method TakeAnswer(request: nat, playback: nat, accepted: bool) returns (action: Action, notify: bool)
      modifies this
      ensures (View(), action, notify) == Answered(old(View()), request, playback, accepted)
    {
      if activePlaybackId != playback || (request != 0 && activeRequestId != request) {
        return Return(false), true;
      }
      if accepted {
        activeCancellationConfirmed := true;
        activeCancellationInFlight := false;
        return Return(true), true;
      }
      if activeCancellationAttempts >= MAX_CANCELLATION_ATTEMPTS {
        activeCancellationInFlight := false;
        return Return(false), true;
      }
      action := BeginRound(request, playback, true);
      notify := false;
    }
  }

  // ---------------------------------------------------------------- threads

  /** Where a thread is. The first three belong to `SubmitSingleSegment`, the rest to
      `RequestPlaybackCancellation`; `Calling` is the only one outside the mutex with an RPC open. */
  datatype Thread =
    | Synthesizing(request: nat)
    | Identified(request: nat, playback: nat)
    | Playing(request: nat, playback: nat)
    | Entering(request: nat, playback: nat)
    | Waiting(request: nat, playback: nat, notified: bool)
    | Calling(request: nat, playback: nat)
    | Returned(request: nat, playback: nat, result: bool)
    | Over
  {
    predicate Submits() { Synthesizing? || Identified? || Playing? }
    predicate Cancels() { Entering? || Waiting? || Calling? || Returned? }
  }

  /** What passes between the client and the audio service about one playback. */
  datatype Message = Sent(playback: nat) | Got(playback: nat, accepted: bool)

  datatype System = System(shared: Shared, nextPlaybackId: nat, threads: seq<Thread>, log: seq<Message>)

  function Initial(firstId: nat): System {
    System(IDLE, firstId, [], [])
  }

  /** One atomic step: a critical section, or the counter's increment. */
  datatype Step =
    | StartSubmit(request: nat)
    | TakeId(t: nat)
    | Publish(t: nat)
    | RefusePublish(t: nat)
    | Clear(t: nat)
    | StartCancel(request: nat, playback: nat)
    | Enter(t: nat)
    | Resume(t: nat)
    | Answer(t: nat, accepted: bool)

  predicate Enabled(s: System, step: Step) {
    match step
    case StartSubmit(request) => request != 0 && s.shared.request == 0
    case TakeId(t) => t < |s.threads| && s.threads[t].Synthesizing?
    case Publish(t) => t < |s.threads| && s.threads[t].Identified?
    case RefusePublish(t) => t < |s.threads| && s.threads[t].Identified?
    case Clear(t) => t < |s.threads| && (s.threads[t].Synthesizing? || s.threads[t].Playing?)
    case StartCancel(request, playback) => playback != 0
    case Enter(t) => t < |s.threads| && s.threads[t].Entering?
    case Resume(t) => t < |s.threads| && s.threads[t].Waiting?
    case Answer(t, _) => t < |s.threads| && s.threads[t].Calling?
  }

  function Notify(th: Thread): Thread {
    if th.Waiting? then th.(notified := true) else th
  }

  /** `notify_all`. */
  function NotifyAll(threads: seq<Thread>): (r: seq<Thread>)
    ensures |r| == |threads| && forall t | 0 <= t < |r| :: r[t] == Notify(threads[t])
  {
    seq(|threads|, t requires 0 <= t < |threads| => Notify(threads[t]))
  }

  /** Thread `t` goes where its action sends it. */
  function Acted(s: System, t: nat, action: Action): System
    requires t < |s.threads| && s.threads[t].Cancels()
  {
    var request, playback := s.threads[t].request, s.threads[t].playback;
    match action
    case Return(result) => s.(threads := s.threads[t := Returned(request, playback, result)])
    case Wait => s.(threads := s.threads[t := Waiting(request, playback, false)])
    case Send => s.(threads := s.threads[t := Calling(request, playback)], log := s.log + [Sent(playback)])
  }

  function Next(s: System, step: Step): System
    requires Enabled(s, step)
  {
    match step
    case StartSubmit(request) =>
      s.(shared := Shared(request, s.shared.playback, 0, false, false), threads := s.threads + [Synthesizing(request)])
    case TakeId(t) =>
      s.(nextPlaybackId := s.nextPlaybackId + 1,
         threads := s.threads[t := Identified(s.threads[t].request, s.nextPlaybackId)])
    case Publish(t) =>
      var th := s.threads[t];
      s.(shared := Shared(s.shared.request, th.playback, 0, false, false),
         threads := s.threads[t := Playing(th.request, th.playback)])
    case RefusePublish(t) => s.(shared := s.shared.(request := 0), threads := s.threads[t := Over])
    case Clear(t) =>
      if s.shared.request == s.threads[t].request
      then s.(shared := IDLE, threads := NotifyAll(s.threads[t := Over]))
      else s.(threads := s.threads[t := Over])
    case StartCancel(request, playback) => s.(threads := s.threads + [Entering(request, playback)])
    case Enter(t) => Round(s, t)
    case Resume(t) =>
      if MayWake(s.shared, s.threads[t].request, s.threads[t].playback) then Round(s, t)
      else s.(threads := s.threads[t := s.threads[t].(notified := false)])
    case Answer(t, accepted) =>
      var th := s.threads[t];
      var (shared, action, notify) := Answered(s.shared, th.request, th.playback, accepted);
      var r := Acted(s.(shared := shared, log := s.log + [Got(th.playback, accepted)]), t, action);
      if notify then r.(threads := NotifyAll(r.threads)) else r
  }

  function Round(s: System, t: nat): System
    requires t < |s.threads| && s.threads[t].Cancels()
  {
    var (shared, action) := Decided(s.shared, s.threads[t].request, s.threads[t].playback, false);
    Acted(s.(shared := shared), t, action)
  }

  // ---------------------------------------------------------------- one playback's conversation

  /** The messages about one playback, in order. */
  function Talk(log: seq<Message>, playback: nat): seq<Message> {
    if log == [] then []
    else
      var rest, m := Talk(log[..|log| - 1], playback), log[|log| - 1];
      if m.playback == playback then rest + [m] else rest
  }

  /** At most two Cancel calls, one after the other, and none after one that was accepted. */
  predicate SingleFlight(talk: seq<Message>, playback: nat) {
    var sent, no, yes := Sent(playback), Got(playback, false), Got(playback, true);
    || talk == []
    || talk == [sent] || talk == [sent, no] || talk == [sent, yes]
    || talk == [sent, no, sent] || talk == [sent, no, sent, no] || talk == [sent, no, sent, yes]
  }

  predicate IsOpen(talk: seq<Message>) {
    talk != [] && talk[|talk| - 1].Sent?
  }

  predicate IsConfirmed(talk: seq<Message>) {
    talk != [] && talk[|talk| - 1].Got? && talk[|talk| - 1].accepted
  }

  /** How many Cancel calls a single-flight conversation holds. */
  function Calls(talk: seq<Message>): nat {
    (|talk| + 1) / 2
  }

  lemma {:induction false} TalkAfter(log: seq<Message>, m: Message)
    ensures forall id: nat :: Talk(log + [m], id) == if m.playback == id then Talk(log, id) + [m] else Talk(log, id)
  {
    assert (log + [m])[..|log|] == log;
  }

  // ---------------------------------------------------------------- the invariant

  predicate CallsFor(th: Thread, playback: nat) {
    th.Calling? && th.playback == playback
  }

  /** What holds of one thread: a submitter's request and playback are the shared ones, a waiter that
      has not been notified has nothing to wake for, an open call is in the conversation, and "true"
      means that a Cancel call was accepted. */
  predicate Ok(s: System, th: Thread) {
    match th
    case Synthesizing(r) => s.shared.request == r != 0 && s.shared.playback == 0
    case Identified(r, p) =>
      s.shared.request == r != 0 && s.shared.playback == 0 && 0 < p < s.nextPlaybackId && Talk(s.log, p) == []
    case Playing(r, p) => s.shared.request == r != 0 && s.shared.playback == p && 0 < p < s.nextPlaybackId
    case Entering(_, p) => p != 0
    case Waiting(r, p, notified) => p != 0 && (!notified ==> !MayWake(s.shared, r, p))
    case Calling(r, p) =>
      p != 0 && IsOpen(Talk(s.log, p)) && (s.shared.playback == p ==> IsActive(s.shared, r, p))
    case Returned(r, p, result) => p != 0 && (result ==> IsConfirmed(Talk(s.log, p)))
    case Over => true
  }

  /** The shared fields say how far the active playback's conversation has come; identifiers that
      have not been given out have none. */
  ghost predicate SharedOk(s: System) {
    var talk := Talk(s.log, s.shared.playback);
    && (s.shared.request == 0 ==> s.shared.playback == 0)
    && s.shared.playback < s.nextPlaybackId
    && s.shared.attempts == Calls(talk)
    && s.shared.inFlight == IsOpen(talk)
    && s.shared.confirmed == IsConfirmed(talk)
    && (forall id: nat | id >= s.nextPlaybackId || id == 0 :: Talk(s.log, id) == [])
  }

  ghost predicate Conversations(log: seq<Message>) {
    forall id: nat {:trigger SingleFlight(Talk(log, id), id)} :: SingleFlight(Talk(log, id), id)
  }

  /** Two threads that exclude each other: two submitters, or two callers for one playback. */
  predicate Exclude(a: Thread, b: Thread) {
    (a.Submits() && b.Submits()) || (a.Calling? && b.Calling? && a.playback == b.playback)
  }

  predicate Apart(threads: seq<Thread>) {
    forall t, u | 0 <= t < u < |threads| :: !Exclude(threads[t], threads[u])
  }

  predicate HasCaller(threads: seq<Thread>, id: nat) {
    exists t | 0 <= t < |threads| :: CallsFor(threads[t], id)
  }

  ghost predicate Inv(s: System) {
    && SharedOk(s) && Conversations(s.log)
    && (forall t | 0 <= t < |s.threads| :: Ok(s, s.threads[t]))
    && Apart(s.threads)
    && (forall id: nat | IsOpen(Talk(s.log, id)) :: HasCaller(s.threads, id))
  }

  lemma {:induction false} InitialInv(firstId: nat)
    requires firstId != 0
    ensures Inv(Initial(firstId))
  {
  }

  /** Thread `t` takes a step; the others stay, or are notified. */
  ghost predicate OthersStay(s: System, n: System, t: nat)
    requires t < |s.threads|
  {
    && |n.threads| == |s.threads|
    && (forall u | 0 <= u < |s.threads| && u != t :: n.threads[u] == s.threads[u] || n.threads[u] == Notify(s.threads[u]))
  }

  /** Enough for one thread's step to keep the invariant. */
  lemma {:induction false} StepKeepsInv(s: System, n: System, t: nat)
    requires Inv(s) && t < |s.threads| && OthersStay(s, n, t)
    requires SharedOk(n) && Conversations(n.log)
    requires forall u | 0 <= u < |s.threads| :: Ok(n, n.threads[u])
    requires n.threads[t].Submits() ==> s.threads[t].Submits()
    requires n.threads[t].Calling? ==>
               CallsFor(s.threads[t], n.threads[t].playback) || !IsOpen(Talk(s.log, n.threads[t].playback))
    requires forall id: nat | IsOpen(Talk(n.log, id)) ::
               CallsFor(n.threads[t], id) || (IsOpen(Talk(s.log, id)) && !CallsFor(s.threads[t], id))
    ensures Inv(n)
  {
    forall i, j | 0 <= i < j < |n.threads| ensures !Exclude(n.threads[i], n.threads[j]) {
      assert !Exclude(s.threads[i], s.threads[j]);
      assert Ok(s, s.threads[i]) && Ok(s, s.threads[j]);
    }
    forall id: nat | IsOpen(Talk(n.log, id)) ensures HasCaller(n.threads, id) {
      if CallsFor(n.threads[t], id) {
      } else {
        assert HasCaller(s.threads, id);
        var u :| 0 <= u < |s.threads| && CallsFor(s.threads[u], id);
        assert CallsFor(n.threads[u], id);
      }
    }
  }

  /** A new thread keeps the invariant when it excludes no other. */
  lemma {:induction false} SpawnKeepsInv(s: System, n: System, th: Thread)
    requires Inv(s) && n.threads == s.threads + [th] && n.log == s.log
    requires SharedOk(n)
    requires Ok(n, th) && !th.Calling?
    requires th.Submits() ==> s.shared.request == 0
    requires forall u | 0 <= u < |s.threads| :: Ok(n, s.threads[u])
    ensures Inv(n)
  {
    forall i, j | 0 <= i < j < |n.threads| ensures !Exclude(n.threads[i], n.threads[j]) {
      if j < |s.threads| {
        assert !Exclude(s.threads[i], s.threads[j]);
      } else {
        assert Ok(s, s.threads[i]);
      }
    }
    forall id: nat | IsOpen(Talk(n.log, id)) ensures HasCaller(n.threads, id) {
      assert HasCaller(s.threads, id);
      var u :| 0 <= u < |s.threads| && CallsFor(s.threads[u], id);
      assert CallsFor(n.threads[u], id);
    }
  }

  // ---------------------------------------------------------------- every step keeps it

  lemma {:induction false} StartSubmitInv(s: System, request: nat)
    requires Inv(s) && Enabled(s, StartSubmit(request))
    ensures Inv(Next(s, StartSubmit(request)))
  {
    SpawnKeepsInv(s, Next(s, StartSubmit(request)), Synthesizing(request));
  }

  lemma {:induction false} StartCancelInv(s: System, request: nat, playback: nat)
    requires Inv(s) && Enabled(s, StartCancel(request, playback))
    ensures Inv(Next(s, StartCancel(request, playback)))
  {
    SpawnKeepsInv(s, Next(s, StartCancel(request, playback)), Entering(request, playback));
  }

  lemma {:induction false} TakeIdInv(s: System, t: nat)
    requires Inv(s) && Enabled(s, TakeId(t))
    ensures Inv(Next(s, TakeId(t)))
  {
    StepKeepsInv(s, Next(s, TakeId(t)), t);
  }

  lemma {:induction false} PublishInv(s: System, t: nat)
    requires Inv(s) && Enabled(s, Publish(t))
    ensures Inv(Next(s, Publish(t)))
  {
    var n := Next(s, Publish(t));
    forall u | 0 <= u < |s.threads| && u != t ensures Ok(n, n.threads[u]) {
      ApartFrom(s, t, u);
    }
    StepKeepsInv(s, n, t);
  }

  lemma {:induction false} ApartFrom(s: System, t: nat, u: nat)
    requires Inv(s) && t < |s.threads| && u < |s.threads| && u != t
    ensures !Exclude(s.threads[t], s.threads[u])
    ensures Ok(s, s.threads[t]) && Ok(s, s.threads[u])
  {
    if t < u {
      assert !Exclude(s.threads[t], s.threads[u]);
    } else {
      assert !Exclude(s.threads[u], s.threads[t]);
    }
  }

  lemma {:induction false} RefusePublishInv(s: System, t: nat)
    requires Inv(s) && Enabled(s, RefusePublish(t))
    ensures Inv(Next(s, RefusePublish(t)))
  {
    var n := Next(s, RefusePublish(t));
    forall u | 0 <= u < |s.threads| && u != t ensures Ok(n, n.threads[u]) {
      ApartFrom(s, t, u);
    }
    StepKeepsInv(s, n, t);
  }

  lemma {:induction false} ClearInv(s: System, t: nat)
    requires Inv(s) && Enabled(s, Clear(t))
    ensures Inv(Next(s, Clear(t)))
  {
    var n := Next(s, Clear(t));
    forall u | 0 <= u < |s.threads| && u != t ensures Ok(n, n.threads[u]) {
      ApartFrom(s, t, u);
    }
    StepKeepsInv(s, n, t);
  }

  lemma {:induction false} TalkSends(talk: seq<Message>, id: nat)
    requires SingleFlight(talk, id) && !IsOpen(talk) && !IsConfirmed(talk) && Calls(talk) < MAX_CANCELLATION_ATTEMPTS
    ensures var next := talk + [Sent(id)];
      SingleFlight(next, id) && IsOpen(next) && !IsConfirmed(next) && Calls(next) == Calls(talk) + 1
  {
  }

  lemma {:induction false} TalkGets(talk: seq<Message>, id: nat, accepted: bool)
    requires SingleFlight(talk, id) && IsOpen(talk)
    ensures var next := talk + [Got(id, accepted)];
      SingleFlight(next, id) && !IsOpen(next) && IsConfirmed(next) == accepted && Calls(next) == Calls(talk)
    ensures !IsConfirmed(talk)
  {
  }

  predicate MayFollow(talk: seq<Message>, m: Message) {
    if m.Sent? then !IsOpen(talk) && !IsConfirmed(talk) && Calls(talk) < MAX_CANCELLATION_ATTEMPTS else IsOpen(talk)
  }

  lemma {:induction false} MessageFollows(log: seq<Message>, m: Message)
    requires Conversations(log) && MayFollow(Talk(log, m.playback), m)
    ensures Conversations(log + [m])
    ensures forall i: nat | i != m.playback :: Talk(log + [m], i) == Talk(log, i)
    ensures !IsConfirmed(Talk(log, m.playback))
    ensures var talk := Talk(log + [m], m.playback);
      && talk != []
      && IsOpen(talk) == m.Sent?
      && IsConfirmed(talk) == (m.Got? && m.accepted)
      && Calls(talk) == Calls(Talk(log, m.playback)) + if m.Sent? then 1 else 0
  {
    var id := m.playback;
    TalkAfter(log, m);
    assert SingleFlight(Talk(log, id), id);
    if m.Sent? {
      TalkSends(Talk(log, id), id);
    } else {
      TalkGets(Talk(log, id), id, m.accepted);
    }
    forall i: nat ensures SingleFlight(Talk(log + [m], i), i) {
      assert SingleFlight(Talk(log, i), i);
    }
  }

  /** Another thread's facts survive a message about `id`, unless it calls for `id` itself. */
  lemma {:induction false} OkSurvives(s: System, n: System, th: Thread, id: nat)
    requires Ok(s, th)
    requires n.shared.request == s.shared.request && n.shared.playback == s.shared.playback
    requires n.nextPlaybackId == s.nextPlaybackId
    requires forall i: nat | i != id :: Talk(n.log, i) == Talk(s.log, i)
    requires Talk(s.log, id) != [] || (s.shared.playback == id != 0)
    requires !CallsFor(th, id) && !IsConfirmed(Talk(s.log, id))
    requires s.shared.inFlight ==> n.shared.inFlight
    ensures Ok(n, th)
  {
  }

  /** A thread starts a Cancel call. */
  lemma {:induction false} SendInv(s: System, n: System, t: nat, request: nat, id: nat)
    requires Inv(s) && t < |s.threads| && id != 0
    requires s.threads[t] == Entering(request, id) || s.threads[t].Waiting?
    requires IsActive(s.shared, request, id) && !s.shared.confirmed && !s.shared.inFlight
    requires s.shared.attempts < MAX_CANCELLATION_ATTEMPTS
    requires n == System(s.shared.(inFlight := true, attempts := s.shared.attempts + 1), s.nextPlaybackId,
                         s.threads[t := Calling(request, id)], s.log + [Sent(id)])
    ensures Inv(n)
  {
    MessageFollows(s.log, Sent(id));
    assert Ok(n, n.threads[t]);
    forall u | 0 <= u < |s.threads| && u != t ensures Ok(n, n.threads[u]) {
      var th := s.threads[u];
      assert Ok(s, th);
      assert !CallsFor(th, id);
      OkSurvives(s, n, th, id);
    }
    StepKeepsInv(s, n, t);
  }

  lemma {:induction false} RoundInv(s: System, t: nat)
    requires Inv(s) && t < |s.threads| && (s.threads[t].Entering? || s.threads[t].Waiting?)
    ensures Inv(Round(s, t))
  {
    if Decided(s.shared, s.threads[t].request, s.threads[t].playback, false).1 == Send {
      assert Ok(s, s.threads[t]);
      SendInv(s, Round(s, t), t, s.threads[t].request, s.threads[t].playback);
    } else {
      StepKeepsInv(s, Round(s, t), t);
    }
  }

  lemma {:induction false} ResumeInv(s: System, t: nat)
    requires Inv(s) && Enabled(s, Resume(t))
    ensures Inv(Next(s, Resume(t)))
  {
    if MayWake(s.shared, s.threads[t].request, s.threads[t].playback) {
      RoundInv(s, t);
    } else {
      StepKeepsInv(s, Next(s, Resume(t)), t);
    }
  }

  /** An answer after which the thread returns. */
  lemma {:induction false} LastAnswerInv(s: System, n: System, t: nat, accepted: bool, result: bool)
    requires Inv(s) && t < |s.threads| && s.threads[t].Calling? && (result ==> accepted)
    requires var request, id := s.threads[t].request, s.threads[t].playback;
      n == System(if s.shared.playback == id then s.shared.(inFlight := false, confirmed := accepted) else s.shared,
                  s.nextPlaybackId, NotifyAll(s.threads[t := Returned(request, id, result)]),
                  s.log + [Got(id, accepted)])
    ensures Inv(n)
  {
    var id := s.threads[t].playback;
    assert Ok(s, s.threads[t]);
    MessageFollows(s.log, Got(id, accepted));
    forall u | 0 <= u < |s.threads| && u != t ensures Ok(n, n.threads[u]) {
      ApartFrom(s, t, u);
    }
    assert SharedOk(n);
    StepKeepsInv(s, n, t);
  }

  /** A refused first call: the thread keeps the flight and calls again. */
  lemma {:induction false} RetryInv(s: System, t: nat)
    requires Inv(s) && Enabled(s, Answer(t, false))
    requires !Answered(s.shared, s.threads[t].request, s.threads[t].playback, false).1.Return?
    ensures Inv(Next(s, Answer(t, false)))
  {
    var n, id := Next(s, Answer(t, false)), s.threads[t].playback;
    assert Ok(s, s.threads[t]);
    MessageFollows(s.log, Got(id, false));
    MessageFollows(s.log + [Got(id, false)], Sent(id));
    forall u | 0 <= u < |s.threads| && u != t ensures Ok(n, n.threads[u]) {
      ApartFrom(s, t, u);
      OkSurvives(s, n, s.threads[u], id);
    }
    StepKeepsInv(s, n, t);
  }

  lemma {:induction false} AnswerInv(s: System, t: nat, accepted: bool)
    requires Inv(s) && Enabled(s, Answer(t, accepted))
    ensures Inv(Next(s, Answer(t, accepted)))
  {
    if Answered(s.shared, s.threads[t].request, s.threads[t].playback, accepted).1.Return? {
      assert Ok(s, s.threads[t]);
      MessageFollows(s.log, Got(s.threads[t].playback, accepted));
      LastAnswerInv(s, Next(s, Answer(t, accepted)), t, accepted,
                    Answered(s.shared, s.threads[t].request, s.threads[t].playback, accepted).1.result);
    } else {
      RetryInv(s, t);
    }
  }

  lemma {:induction false} NextInv(s: System, step: Step)
    requires Inv(s) && Enabled(s, step)
    ensures Inv(Next(s, step))
  {
    match step
    case StartSubmit(request) => StartSubmitInv(s, request);
    case TakeId(t) => TakeIdInv(s, t);
    case Publish(t) => PublishInv(s, t);
    case RefusePublish(t) => RefusePublishInv(s, t);
    case Clear(t) => ClearInv(s, t);
    case StartCancel(request, playback) => StartCancelInv(s, request, playback);
    case Enter(t) => RoundInv(s, t);
    case Resume(t) => ResumeInv(s, t);
    case Answer(t, accepted) => AnswerInv(s, t, accepted);
  }

  // ---------------------------------------------------------------- any interleaving

  predicate IsRun(firstId: nat, states: seq<System>, steps: seq<Step>) {
    && |states| == |steps| + 1
    && states[0] == Initial(firstId)
    && (forall i | 0 <= i < |steps| :: Enabled(states[i], steps[i]) && states[i + 1] == Next(states[i], steps[i]))
  }

  lemma {:induction false} InvThroughout(firstId: nat, states: seq<System>, steps: seq<Step>, i: nat)
    requires firstId != 0 && IsRun(firstId, states, steps) && i < |states|
    ensures Inv(states[i])
  {
    if i == 0 {
      InitialInv(firstId);
    } else {
      InvThroughout(firstId, states, steps, i - 1);
      NextInv(states[i - 1], steps[i - 1]);
    }
  }

  /** Whatever the threads do and in whatever order: each playback gets at most two Cancel calls, never
      two at once, and none after one that was accepted. */
  lemma {:induction false} EveryConversationIsSingleFlight(firstId: nat, states: seq<System>, steps: seq<Step>, i: nat, id: nat)
    requires firstId != 0 && IsRun(firstId, states, steps) && i < |states|
    ensures SingleFlight(Talk(states[i].log, id), id)
  {
    InvThroughout(firstId, states, steps, i);
  }

  /** A caller that returns true knows that a Cancel call for its playback was accepted. */
  lemma {:induction false} TrueMeansAccepted(firstId: nat, states: seq<System>, steps: seq<Step>, i: nat, t: nat)
    requires firstId != 0 && IsRun(firstId, states, steps) && i < |states| && t < |states[i].threads|
    requires states[i].threads[t].Returned? && states[i].threads[t].result
    ensures Got(states[i].threads[t].playback, true) in states[i].log
  {
    InvThroughout(firstId, states, steps, i);
    var s := states[i];
    assert Ok(s, s.threads[t]);
    var talk := Talk(s.log, s.threads[t].playback);
    TalkIsFromLog(s.log, s.threads[t].playback);
    assert talk[|talk| - 1] in s.log;
  }

  lemma {:induction false} TalkIsFromLog(log: seq<Message>, id: nat)
    ensures forall m | m in Talk(log, id) :: m in log && m.playback == id
  {
    if log != [] {
      TalkIsFromLog(log[..|log| - 1], id);
    }
  }

  lemma {:induction false} FalseReturn(s: System, step: Step, t: nat)
    requires Inv(s) && Enabled(s, step) && t < |s.threads| && s.threads[t].Cancels() && !s.threads[t].Returned?
    requires Next(s, step).threads[t].Returned? && !Next(s, step).threads[t].result
    ensures var th := s.threads[t];
      || !IsActive(s.shared, th.request, th.playback)
      || Talk(Next(s, step).log, th.playback)
         == [Sent(th.playback), Got(th.playback, false), Sent(th.playback), Got(th.playback, false)]
  {
    var id := s.threads[t].playback;
    if step.Answer? && step.t == t {
      FalseAnswer(s, t, step.accepted);
    } else {
      assert step in {Enter(t), Resume(t)};
      assert SingleFlight(Talk(s.log, id), id);
    }
  }

  lemma {:induction false} FalseAnswer(s: System, t: nat, accepted: bool)
    requires Inv(s) && Enabled(s, Answer(t, accepted))
    requires Next(s, Answer(t, accepted)).threads[t].Returned? && !Next(s, Answer(t, accepted)).threads[t].result
    ensures var th := s.threads[t];
      || !IsActive(s.shared, th.request, th.playback)
      || Talk(Next(s, Answer(t, accepted)).log, th.playback)
         == [Sent(th.playback), Got(th.playback, false), Sent(th.playback), Got(th.playback, false)]
  {
    var id := s.threads[t].playback;
    assert Ok(s, s.threads[t]) && SingleFlight(Talk(s.log, id), id);
    TalkAfter(s.log, Got(id, accepted));
  }

  lemma {:induction false} ReturnComesOnce(firstId: nat, states: seq<System>, steps: seq<Step>, i: nat, t: nat) returns (j: nat)
    requires IsRun(firstId, states, steps) && i < |states| && t < |states[i].threads| && states[i].threads[t].Returned?
    ensures j < i && t < |states[j].threads| && states[j].threads[t].Cancels() && !states[j].threads[t].Returned?
    ensures states[j + 1].threads[t] == states[i].threads[t]
  {
    j := i - 1;
    assert states[i] == Next(states[j], steps[j]);
    if t < |states[j].threads| && states[j].threads[t].Returned? {
      j := ReturnComesOnce(firstId, states, steps, i - 1, t);
    }
  }

  /** A caller that has returned false was told so at the step that made it return: its playback was no
      longer the active one, or both Cancel calls had been refused. */
  lemma {:induction false} FalseMeansStaleOrRefused(firstId: nat, states: seq<System>, steps: seq<Step>, i: nat, t: nat)
    returns (j: nat)
    requires firstId != 0 && IsRun(firstId, states, steps) && i < |states| && t < |states[i].threads|
    requires states[i].threads[t].Returned? && !states[i].threads[t].result
    ensures j < i && t < |states[j].threads| && states[j].threads[t].Cancels() && !states[j].threads[t].Returned?
    ensures states[j + 1].threads[t] == states[i].threads[t]
    ensures var th := states[j].threads[t];
      || !IsActive(states[j].shared, th.request, th.playback)
      || Talk(states[j + 1].log, th.playback)
         == [Sent(th.playback), Got(th.playback, false), Sent(th.playback), Got(th.playback, false)]
  {
    j := ReturnComesOnce(firstId, states, steps, i, t);
    InvThroughout(firstId, states, steps, j);
    FalseReturn(states[j], steps[j], t);
  }

  /** Thread `u` plays what caller `t` wants cancelled, and the caller asks for that request or for
      whichever it is. */
  predicate IsMeant(s: System, t: nat, u: nat)
    requires t < |s.threads| && s.threads[t].Cancels()
  {
    && u < |s.threads| && s.threads[u].Playing? && s.threads[u].playback == s.threads[t].playback
    && (s.threads[t].request == 0 || s.threads[t].request == s.threads[u].request)
  }

  /** While its playback plays, a caller is told false only because both Cancel calls were refused. */
  lemma {:induction false} FalseWhilePlaying(firstId: nat, states: seq<System>, steps: seq<Step>, i: nat, t: nat)
    returns (j: nat)
    requires firstId != 0 && IsRun(firstId, states, steps) && i < |states| && t < |states[i].threads|
    requires states[i].threads[t].Returned? && !states[i].threads[t].result
    ensures j < i && t < |states[j].threads| && states[j].threads[t].Cancels() && !states[j].threads[t].Returned?
    ensures states[j + 1].threads[t] == states[i].threads[t]
    ensures var id := states[j].threads[t].playback;
      (exists u: nat :: IsMeant(states[j], t, u)) ==>
        Talk(states[j + 1].log, id) == [Sent(id), Got(id, false), Sent(id), Got(id, false)]
  {
    j := FalseMeansStaleOrRefused(firstId, states, steps, i, t);
    InvThroughout(firstId, states, steps, j);
    forall u: nat | IsMeant(states[j], t, u) ensures Ok(states[j], states[j].threads[u]) {
    }
  }

  /** The first caller that comes while its playback plays sends a Cancel call. */
  lemma {:induction false} FirstCallerSends(firstId: nat, states: seq<System>, steps: seq<Step>, i: nat, t: nat, u: nat)
    requires firstId != 0 && IsRun(firstId, states, steps) && i < |steps| && steps[i] == Enter(t)
    requires IsMeant(states[i], t, u) && Talk(states[i].log, states[i].threads[t].playback) == []
    ensures var th := states[i].threads[t];
      states[i + 1].log == states[i].log + [Sent(th.playback)] && states[i + 1].threads[t] == Calling(th.request, th.playback)
  {
    InvThroughout(firstId, states, steps, i);
    assert Ok(states[i], states[i].threads[u]);
  }

  /** Whoever comes or wakes up while its playback plays waits only for an open call; if one was accepted
      it returns true, if the one refused was the first it calls again. */
  lemma {:induction false} LaterCallerIsAnswered(firstId: nat, states: seq<System>, steps: seq<Step>, i: nat, t: nat, u: nat)
    requires firstId != 0 && IsRun(firstId, states, steps) && i < |steps| && steps[i] in {Enter(t), Resume(t)}
    requires IsMeant(states[i], t, u)
    ensures var th, id := states[i].threads[t], states[i].threads[t].playback;
      var talk, after := Talk(states[i].log, id), states[i + 1].threads[t];
      && (after.Waiting? <==> talk in {[Sent(id)], [Sent(id), Got(id, false), Sent(id)]})
      && (talk in {[Sent(id), Got(id, true)], [Sent(id), Got(id, false), Sent(id), Got(id, true)]} ==>
            after == Returned(th.request, id, true))
      && (talk == [Sent(id), Got(id, false)] ==> after == Calling(th.request, id))
  {
    InvThroughout(firstId, states, steps, i);
    var s, id := states[i], states[i].threads[t].playback;
    assert Ok(s, s.threads[u]) && Ok(s, s.threads[t]);
    assert SingleFlight(Talk(s.log, id), id);
  }

  /** An answer while the playback plays: an accepted call is the caller's success, the first refusal makes
      it call again, the second one is its failure. */
  lemma {:induction false} AnswerWhilePlaying(firstId: nat, states: seq<System>, steps: seq<Step>, i: nat, t: nat, u: nat, accepted: bool)
    requires firstId != 0 && IsRun(firstId, states, steps) && i < |steps| && steps[i] == Answer(t, accepted)
    requires IsMeant(states[i], t, u)
    ensures var th, id := states[i].threads[t], states[i].threads[t].playback;
      var talk, after := Talk(states[i].log, id), states[i + 1].threads[t];
      && (accepted ==> after == Returned(th.request, id, true))
      && (!accepted && talk == [Sent(id)] ==> after == Calling(th.request, id))
      && (!accepted && talk != [Sent(id)] ==> after == Returned(th.request, id, false))
  {
    InvThroughout(firstId, states, steps, i);
    var s, id := states[i], states[i].threads[t].playback;
    assert Ok(s, s.threads[u]) && Ok(s, s.threads[t]);
    assert SingleFlight(Talk(s.log, id), id);
  }

  predicate AllNotified(threads: seq<Thread>) {
    forall u | 0 <= u < |threads| :: threads[u].Waiting? ==> threads[u].notified
  }

  /** A submitter that is through leaves nothing behind, and wakes everybody. */
  lemma {:induction false} SubmitterFrees(firstId: nat, states: seq<System>, steps: seq<Step>, i: nat, t: nat)
    requires firstId != 0 && IsRun(firstId, states, steps) && i < |steps| && steps[i] == Clear(t)
    ensures states[i + 1].shared == Shared(0, 0, 0, false, false)
    ensures AllNotified(states[i + 1].threads)
  {
    InvThroughout(firstId, states, steps, i);
    assert Ok(states[i], states[i].threads[t]);
  }

  /** A waiter that wakes up when its playback is over does not wait again. */
  lemma {:induction false} OverIsOver(firstId: nat, states: seq<System>, steps: seq<Step>, i: nat, t: nat)
    requires firstId != 0 && IsRun(firstId, states, steps) && i < |steps| && steps[i] in {Enter(t), Resume(t)}
    requires t < |states[i].threads| && states[i].threads[t].Cancels()
    requires forall u | 0 <= u < |states[i].threads| && states[i].threads[u].Playing? ::
               states[i].threads[u].playback != states[i].threads[t].playback
    ensures states[i + 1].threads[t] == Returned(states[i].threads[t].request, states[i].threads[t].playback, false)
  {
    InvThroughout(firstId, states, steps, i);
    assert Ok(states[i], states[i].threads[t]);
    SomeonePlays(firstId, states, steps, i);
  }

  /** A playback is shared only while some thread plays it. */
  lemma {:induction false} SomeonePlays(firstId: nat, states: seq<System>, steps: seq<Step>, i: nat)
    requires firstId != 0 && IsRun(firstId, states, steps) && i < |states|
    ensures states[i].shared.playback != 0 ==> PlayedBySome(states[i])
  {
    if i > 0 {
      SomeonePlays(firstId, states, steps, i - 1);
      InvThroughout(firstId, states, steps, i - 1);
      assert states[i] == Next(states[i - 1], steps[i - 1]);
      PlayedStep(states[i - 1], steps[i - 1]);
    }
  }

  predicate PlayedBySome(s: System) {
    exists u | 0 <= u < |s.threads| :: s.threads[u].Playing? && s.threads[u].playback == s.shared.playback
  }

  lemma {:induction false} PlayedStep(s: System, step: Step)
    requires Inv(s) && Enabled(s, step)
    requires s.shared.playback != 0 ==> PlayedBySome(s)
    ensures Next(s, step).shared.playback != 0 ==> PlayedBySome(Next(s, step))
  {
    var n := Next(s, step);
    if n.shared.playback != 0 {
      if step.Publish? {
        assert n.threads[step.t].Playing? && n.threads[step.t].playback == n.shared.playback;
      } else {
        assert n.shared.playback == s.shared.playback;
        var u :| 0 <= u < |s.threads| && s.threads[u].Playing? && s.threads[u].playback == s.shared.playback;
        assert Ok(s, s.threads[u]);
        PlayingStays(s, step, u);
        assert n.threads[u].Playing? && n.threads[u].playback == n.shared.playback;
      }
    }
  }

  lemma {:induction false} PlayingStays(s: System, step: Step, u: nat)
    requires Inv(s) && Enabled(s, step) && u < |s.threads| && s.threads[u].Playing?
    requires Next(s, step).shared.playback != 0 && !step.Publish?
    ensures u < |Next(s, step).threads| && Next(s, step).threads[u] == s.threads[u]
  {
    assert Ok(s, s.threads[u]);
  }

  /** No lost wake-up: whoever waits and has not been notified waits for a call that some other
      thread still has open, so an answer will come to wake it. */
  lemma {:induction false} WaitersHaveAnOwner(firstId: nat, states: seq<System>, steps: seq<Step>, i: nat, t: nat)
    requires firstId != 0 && IsRun(firstId, states, steps) && i < |states| && t < |states[i].threads|
    requires states[i].threads[t].Waiting? && !states[i].threads[t].notified
    ensures HasCaller(states[i].threads, states[i].threads[t].playback)
    ensures states[i].threads[t].playback == states[i].shared.playback
  {
    InvThroughout(firstId, states, steps, i);
    assert Ok(states[i], states[i].threads[t]);
  }

  lemma {:induction false} AnswerWakes(s: System, owner: nat, t: nat, accepted: bool)
    requires Inv(s) && Enabled(s, Answer(owner, accepted))
    requires t < |s.threads| && s.threads[t].Waiting? && !s.threads[t].notified
    requires s.threads[t].playback == s.threads[owner].playback
    ensures var n := Next(s, Answer(owner, accepted));
      n.threads[t].notified || (n.threads[owner].Calling? && |Talk(n.log, s.threads[t].playback)| == 3)
  {
    var id := s.threads[owner].playback;
    assert Ok(s, s.threads[owner]) && Ok(s, s.threads[t]);
    assert SingleFlight(Talk(s.log, id), id);
    TalkAfter(s.log, Got(id, accepted));
    TalkAfter(s.log + [Got(id, accepted)], Sent(id));
  }

  /** And that answer does wake it: the caller returns and notifies, or calls once more. */
  lemma {:induction false} OwnersAnswerWakes(firstId: nat, states: seq<System>, steps: seq<Step>, i: nat, t: nat)
    requires firstId != 0 && IsRun(firstId, states, steps) && i < |steps| && t < |states[i].threads|
    requires states[i].threads[t].Waiting? && !states[i].threads[t].notified
    requires steps[i].Answer? && states[i].threads[steps[i].t].playback == states[i].threads[t].playback
    ensures var n := states[i + 1];
      n.threads[t].notified || (n.threads[steps[i].t].Calling? && |Talk(n.log, states[i].threads[t].playback)| == 3)
  {
    InvThroughout(firstId, states, steps, i);
    AnswerWakes(states[i], steps[i].t, t, steps[i].accepted);
  }
}
