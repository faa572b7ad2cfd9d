/** The bookkeeping of `Receive`: one frame's fragments, in any order, become one packet. */
module FragmentAssemblers {
  import opened Options
  import opened AnnexBs

  /** A datagram behind its header; `Unreadable` is too short or has another magic number. */
  datatype Datagram =
    | Unreadable
    | Fragment(frame: nat, index: nat, total: nat, pts: int, keyframe: bool, payload: Bytes)

  datatype Packet = Packet(data: Bytes, pts: int, keyframe: bool)

  datatype Assembly = Assembly(frame: nat, expected: nat, fragments: seq<Bytes>, pts: int, keyframe: bool)

  const EMPTY := Assembly(0, 0, [], 0, false)

  // ---------------------------------------------------------------- one datagram

  function Blank(total: nat): (r: seq<Bytes>)
    ensures |r| == total && forall i | 0 <= i < total :: r[i] == []
  {
    seq(total, _ => [])
  }

  function Opened(s: Assembly, d: Datagram): Assembly
    requires d.Fragment?
  {
    if d.frame != s.frame || d.total != s.expected
    then Assembly(d.frame, d.total, Blank(d.total), d.pts, d.keyframe) else s
  }

  function Concat(fragments: seq<Bytes>): Bytes {
    if fragments == [] then [] else Concat(fragments[..|fragments| - 1]) + fragments[|fragments| - 1]
  }

  predicate IsComplete(fragments: seq<Bytes>) {
    forall i | 0 <= i < |fragments| :: fragments[i] != []
  }

  predicate Consistent(s: Assembly) {
    s.expected != 0 ==> |s.fragments| == s.expected
  }

  function Received(s: Assembly, d: Datagram): (Assembly, Option<Packet>)
    requires Consistent(s)
  {
    if d.Unreadable? || d.total == 0 || d.index >= d.total then (s, None)
    else
      var o := Opened(s, d);
      var t := o.(fragments := o.fragments[d.index := d.payload]);
      if IsComplete(t.fragments) then (t.(expected := 0), Some(Packet(Concat(t.fragments), t.pts, t.keyframe)))
      else (t, None)
  }

  class FragmentAssembler {
    var frameId: nat
    var expectedFragments: nat
    var fragments: seq<Bytes>
    var pts: int
    var keyframe: bool

    function View(): Assembly
      reads this
    {
      Assembly(frameId, expectedFragments, fragments, pts, keyframe)
    }

    ghost predicate Valid()
      reads this
    {
      Consistent(View())
    }

    constructor ()
      ensures Valid() && View() == EMPTY
    {
      frameId, expectedFragments, fragments, pts, keyframe := 0, 0, [], 0, false;
    }

    method Receive(d: Datagram) returns (packet: Option<Packet>)
      requires Valid()
      modifies this
      ensures Valid() && (View(), packet) == Received(old(View()), d)
    {
      if d.Unreadable? || d.total == 0 || d.index >= d.total {
        return None;
      }
      if d.frame != frameId || d.total != expectedFragments {
        frameId := d.frame;
        expectedFragments := d.total;
        pts := d.pts;
        keyframe := d.keyframe;
        fragments := Blank(d.total);
      }
      fragments := fragments[d.index := d.payload];
      var complete := AllPresent(fragments);
      if !complete {
        return None;
      }
      var data := Append(fragments);
      packet := Some(Packet(data, pts, keyframe));
      expectedFragments := 0;
    }

    static method AllPresent(fragments: seq<Bytes>) returns (complete: bool)
      ensures complete == IsComplete(fragments)
    {
      complete := true;
      for i := 0 to |fragments|
        invariant complete == IsComplete(fragments[..i])
      {
        if fragments[i] == [] {
          complete := false;
        }
      }
      assert fragments[..|fragments|] == fragments;
    }

    static method Append(fragments: seq<Bytes>) returns (data: Bytes)
      ensures data == Concat(fragments)
    {
      data := [];
      for i := 0 to |fragments|
        invariant data == Concat(fragments[..i])
      {
        data := data + fragments[i];
        assert fragments[..i + 1][..i] == fragments[..i];
      }
      assert fragments[..|fragments|] == fragments;
    }
  }

  // ---------------------------------------------------------------- runs

  /** The state after the datagrams, and the packets that were pushed. */
  function Run(s: Assembly, ds: seq<Datagram>): (r: (Assembly, seq<Packet>))
    requires Consistent(s)
    ensures Consistent(r.0)
  {
    if ds == [] then (s, [])
    else
      var (before, pushed) := Run(s, ds[..|ds| - 1]);
      var (after, packet) := Received(before, ds[|ds| - 1]);
      (after, if packet == None then pushed else pushed + [packet.value])
  }

  /** One frame as it is sent. */
  datatype Frame = Frame(id: nat, pts: int, keyframe: bool, fragments: seq<Bytes>)

  predicate IsFrame(f: Frame) {
    f.fragments != [] && IsComplete(f.fragments)
  }

  function PacketOf(f: Frame): Packet {
    Packet(Concat(f.fragments), f.pts, f.keyframe)
  }

  predicate InRange(f: Frame, order: seq<nat>) {
    forall k | 0 <= k < |order| :: order[k] < |f.fragments|
  }

  /** The frame's fragments, sent in this order. */
  function Sent(f: Frame, order: seq<nat>): (ds: seq<Datagram>)
    requires InRange(f, order)
    ensures |ds| == |order|
  {
    seq(|order|, k requires 0 <= k < |order| =>
      Fragment(f.id, order[k], |f.fragments|, f.pts, f.keyframe, f.fragments[order[k]]))
  }

  predicate IsMissing(f: Frame, order: seq<nat>) {
    exists i | 0 <= i < |f.fragments| :: i !in order
  }

  /** All fragments arrive, some perhaps more than once, and the last one is the last to be missing. */
  predicate JustCompletes(f: Frame, order: seq<nat>) {
    && order != [] && InRange(f, order)
    && !IsMissing(f, order) && IsMissing(f, order[..|order| - 1])
  }

  /** The assembler does not hold a part of a frame with this number and size. */
  predicate IsFreshFor(s: Assembly, f: Frame) {
    s.frame != f.id || s.expected != |f.fragments|
  }

  /** What has arrived is in its place, and nothing else is. */
  ghost predicate Holds(s: Assembly, f: Frame, order: seq<nat>) {
    && s.frame == f.id && s.expected == |f.fragments| == |s.fragments| && s.pts == f.pts && s.keyframe == f.keyframe
    && forall i | 0 <= i < |f.fragments| :: s.fragments[i] == if i in order then f.fragments[i] else []
  }

  lemma {:induction false} FirstArrives(s: Assembly, f: Frame, i: nat)
    requires Consistent(s) && IsFreshFor(s, f) && IsFrame(f) && i < |f.fragments|
    ensures var (t, packet) := Received(s, Sent(f, [i])[0]);
      if IsMissing(f, [i]) then packet == None && Holds(t, f, [i])
      else packet == Some(PacketOf(f)) && IsFreshFor(t, f)
  {
    var o := Opened(s, Sent(f, [i])[0]);
    Placed(o, f, [], i);
    assert [] + [i] == [i];
  }

  /** Fragment `i` is put in its place in an open assembly. */
  lemma {:induction false} Placed(s: Assembly, f: Frame, order: seq<nat>, i: nat)
    requires IsFrame(f) && i < |f.fragments| && Holds(s, f, order)
    ensures var t := s.(fragments := s.fragments[i := f.fragments[i]]);
      && Holds(t, f, order + [i])
      && IsComplete(t.fragments) == !IsMissing(f, order + [i])
      && (!IsMissing(f, order + [i]) ==> t.fragments == f.fragments)
  {
    var t := s.(fragments := s.fragments[i := f.fragments[i]]);
    if !IsMissing(f, order + [i]) {
      forall k | 0 <= k < |f.fragments| ensures t.fragments[k] == f.fragments[k] {
        assert k in order + [i];
      }
    } else {
      var k :| 0 <= k < |f.fragments| && k !in order + [i];
      assert t.fragments[k] == [];
    }
  }

  lemma {:induction false} NextArrives(s: Assembly, f: Frame, order: seq<nat>, i: nat)
    requires IsFrame(f) && i < |f.fragments| && Holds(s, f, order)
    ensures var (t, packet) := Received(s, Sent(f, [i])[0]);
      if IsMissing(f, order + [i]) then packet == None && Holds(t, f, order + [i])
      else packet == Some(PacketOf(f)) && IsFreshFor(t, f)
  {
    Placed(s, f, order, i);
  }

  /** One more datagram of the frame. */
  lemma {:induction false} OneMore(s: Assembly, f: Frame, init: seq<nat>, i: nat)
    requires Consistent(s) && InRange(f, init + [i]) && i < |f.fragments| && InRange(f, init)
    ensures var (before, pushed) := Run(s, Sent(f, init));
      var (after, packet) := Received(before, Sent(f, [i])[0]);
      Run(s, Sent(f, init + [i])) == (after, if packet == None then pushed else pushed + [packet.value])
  {
    var ds := Sent(f, init + [i]);
    assert ds[..|init|] == Sent(f, init) && ds[|init|] == Sent(f, [i])[0];
  }

  lemma {:induction false} NothingYet(s: Assembly, f: Frame, order: seq<nat>)
    requires Consistent(s) && IsFreshFor(s, f) && IsFrame(f)
    requires order != [] && InRange(f, order) && IsMissing(f, order)
    ensures var (t, pushed) := Run(s, Sent(f, order)); pushed == [] && Holds(t, f, order)
  {
    var n := |order| - 1;
    var init, i := order[..n], order[n];
    assert init + [i] == order;
    OneMore(s, f, init, i);
    if n == 0 {
      assert Sent(f, init) == [] && order == [i];
      FirstArrives(s, f, i);
    } else {
      var k :| 0 <= k < |f.fragments| && k !in order;
      assert k !in init;
      NothingYet(s, f, init);
      NextArrives(Run(s, Sent(f, init)).0, f, init, i);
    }
  }

  /** When the last missing fragment arrives there is one packet, and nothing is left open. */
  lemma {:induction false} JustOnePacket(s: Assembly, f: Frame, order: seq<nat>)
    requires Consistent(s) && IsFreshFor(s, f) && IsFrame(f) && JustCompletes(f, order)
    ensures var (t, pushed) := Run(s, Sent(f, order)); pushed == [PacketOf(f)] && IsFreshFor(t, f)
  {
    var n := |order| - 1;
    var init, i := order[..n], order[n];
    assert init + [i] == order;
    OneMore(s, f, init, i);
    if n == 0 {
      assert Sent(f, init) == [] && order == [i];
      FirstArrives(s, f, i);
    } else {
      NothingYet(s, f, init);
      NextArrives(Run(s, Sent(f, init)).0, f, init, i);
    }
  }

  // ---------------------------------------------------------------- how many packets an order gives

  /** How many arrivals it takes until no fragment is missing. */
  function FirstCover(f: Frame, order: seq<nat>): (k: nat)
    requires !IsMissing(f, order)
    ensures k <= |order| && !IsMissing(f, order[..k])
    ensures k > 0 ==> IsMissing(f, order[..k - 1])
  {
    if order == [] || IsMissing(f, order[..|order| - 1]) then
      assert order[..|order|] == order;
      |order|
    else
      var k := FirstCover(f, order[..|order| - 1]);
      assert order[..|order| - 1][..k] == order[..k];
      assert k > 0 ==> order[..|order| - 1][..k - 1] == order[..k - 1];
      k
  }

  /** The arrivals are used up cover by cover. */
  function Covers(f: Frame, order: seq<nat>): nat
    requires f.fragments != []
    decreases |order|
  {
    if IsMissing(f, order) then 0
    else
      var k := FirstCover(f, order);
      NeedsArrivals(f, order[..k]);
      1 + Covers(f, order[k..])
  }

  lemma {:induction false} NeedsArrivals(f: Frame, order: seq<nat>)
    requires f.fragments != [] && !IsMissing(f, order)
    ensures order != []
  {
    assert 0 in order;
  }

  function Copies(packet: Packet, n: nat): seq<Packet> {
    if n == 0 then [] else [packet] + Copies(packet, n - 1)
  }

  function Pushed(packet: Option<Packet>): seq<Packet> {
    if packet == None then [] else [packet.value]
  }

  lemma {:induction false} RunStep(s: Assembly, ds: seq<Datagram>, d: Datagram)
    requires Consistent(s)
    ensures var (before, pushed) := Run(s, ds);
      Run(s, ds + [d]) == (Received(before, d).0, pushed + Pushed(Received(before, d).1))
  {
    assert (ds + [d])[..|ds|] == ds;
    var pushed := Run(s, ds).1;
    assert pushed + [] == pushed;
  }

  lemma {:induction false} RunConcat(s: Assembly, a: seq<Datagram>, b: seq<Datagram>)
    requires Consistent(s)
    ensures Run(s, a + b).0 == Run(Run(s, a).0, b).0
    ensures Run(s, a + b).1 == Run(s, a).1 + Run(Run(s, a).0, b).1
    decreases |b|
  {
    if b == [] {
      assert a + b == a && Run(s, a).1 + [] == Run(s, a).1;
    } else {
      var init, last := b[..|b| - 1], b[|b| - 1];
      assert a + b == (a + init) + [last] && b == init + [last];
      RunConcat(s, a, init);
      RunStep(s, a + init, last);
      RunStep(Run(s, a).0, init, last);
    }
  }

  lemma {:induction false} SentConcat(f: Frame, a: seq<nat>, b: seq<nat>)
    requires InRange(f, a) && InRange(f, b)
    ensures InRange(f, a + b) && Sent(f, a + b) == Sent(f, a) + Sent(f, b)
  {
  }

  /** From any assembly that holds no part of the frame, the order gives so many packets. */
  ghost predicate Gives(f: Frame, order: seq<nat>, n: nat)
    requires InRange(f, order)
  {
    forall s | Consistent(s) && IsFreshFor(s, f) :: Run(s, Sent(f, order)).1 == Copies(PacketOf(f), n)
  }

  lemma {:induction false} MissingGivesNone(f: Frame, order: seq<nat>)
    requires IsFrame(f) && InRange(f, order) && IsMissing(f, order)
    ensures Gives(f, order, 0)
  {
    forall s | Consistent(s) && IsFreshFor(s, f) ensures Run(s, Sent(f, order)).1 == Copies(PacketOf(f), 0) {
      if order == [] {
        assert Sent(f, order) == [];
      } else {
        NothingYet(s, f, order);
      }
    }
  }

  lemma {:induction false} CoverGivesOneMore(f: Frame, now: seq<nat>, later: seq<nat>, n: nat)
    requires IsFrame(f) && JustCompletes(f, now) && InRange(f, later) && InRange(f, now + later) && Gives(f, later, n)
    ensures Gives(f, now + later, n + 1)
  {
    forall s | Consistent(s) && IsFreshFor(s, f)
      ensures Run(s, Sent(f, now + later)).1 == Copies(PacketOf(f), n + 1)
    {
      PacketsAfterCover(s, f, now, later);
    }
  }

  /** Exactly, for every arrival order of one frame's fragments, with any repeats: one packet, the
      concatenation in index order, for every time that all fragments have arrived anew. */
  lemma {:induction false} PacketsAreCovers(f: Frame, order: seq<nat>)
    requires IsFrame(f) && InRange(f, order)
    ensures Gives(f, order, Covers(f, order))
    decreases |order|
  {
    if IsMissing(f, order) {
      MissingGivesNone(f, order);
    } else {
      var k := FirstCover(f, order);
      CoverCompletes(f, order);
      PacketsAreCovers(f, order[k..]);
      assert order[..k] + order[k..] == order;
      CoverGivesOneMore(f, order[..k], order[k..], Covers(f, order[k..]));
    }
  }

  lemma {:induction false} CoverCompletes(f: Frame, order: seq<nat>)
    requires f.fragments != [] && InRange(f, order) && !IsMissing(f, order)
    ensures var k := FirstCover(f, order); k > 0 && JustCompletes(f, order[..k]) && InRange(f, order[k..])
  {
    var k := FirstCover(f, order);
    NeedsArrivals(f, order[..k]);
    assert order[..k][..k - 1] == order[..k - 1];
  }

  lemma {:induction false} PacketsAfterCover(s: Assembly, f: Frame, now: seq<nat>, later: seq<nat>)
    requires Consistent(s) && IsFreshFor(s, f) && IsFrame(f) && JustCompletes(f, now) && InRange(f, later)
    ensures InRange(f, now + later) && IsFreshFor(Run(s, Sent(f, now)).0, f)
    ensures Run(s, Sent(f, now + later)).1 == [PacketOf(f)] + Run(Run(s, Sent(f, now)).0, Sent(f, later)).1
  {
    JustOnePacket(s, f, now);
    SentConcat(f, now, later);
    RunConcat(s, Sent(f, now), Sent(f, later));
  }

  /** So there is exactly one packet if and only if all fragments arrive, and behind the point where
      they have, not all of them arrive once more. */
  lemma {:induction false} OnePacketIff(s: Assembly, f: Frame, order: seq<nat>)
    requires Consistent(s) && IsFreshFor(s, f) && IsFrame(f) && InRange(f, order)
    ensures Run(s, Sent(f, order)).1 == [PacketOf(f)]
       <==> !IsMissing(f, order) && IsMissing(f, order[FirstCover(f, order)..])
  {
    PacketsAreCovers(f, order);
    CopiesLength(PacketOf(f), Covers(f, order));
    CoversOnce(f, order);
    if Covers(f, order) == 1 {
      assert Copies(PacketOf(f), 1) == [PacketOf(f)] + Copies(PacketOf(f), 0);
    }
  }

  lemma {:induction false} CoversOnce(f: Frame, order: seq<nat>)
    requires f.fragments != []
    ensures Covers(f, order) == 1 <==> !IsMissing(f, order) && IsMissing(f, order[FirstCover(f, order)..])
  {
    if !IsMissing(f, order) {
      var k := FirstCover(f, order);
      NeedsArrivals(f, order[..k]);
      assert Covers(f, order) == 1 + Covers(f, order[k..]);
    }
  }

  lemma {:induction false} CopiesLength(packet: Packet, n: nat)
    ensures |Copies(packet, n)| == n
  {
    if n > 0 {
      CopiesLength(packet, n - 1);
    }
  }

  /** Every fragment once, in any order. */
  predicate IsPermutation(f: Frame, order: seq<nat>) {
    InRange(f, order) && !IsMissing(f, order) && forall j, k | 0 <= j < k < |order| :: order[j] != order[k]
  }

  lemma {:induction false} AnyOrder(s: Assembly, f: Frame, order: seq<nat>)
    requires Consistent(s) && IsFreshFor(s, f) && IsFrame(f) && IsPermutation(f, order)
    ensures Run(s, Sent(f, order)).1 == [PacketOf(f)]
  {
    assert 0 in order;
    assert order[|order| - 1] !in order[..|order| - 1];
    JustOnePacket(s, f, order);
  }

  // ---------------------------------------------------------------- no packet mixes frames

  predicate Carries(d: Datagram, id: nat, total: nat, i: nat, payload: Bytes) {
    d.Fragment? && d.frame == id && d.total == total && d.index == i && d.payload == payload
  }

  predicate Contributes(ds: seq<Datagram>, id: nat, total: nat, i: nat, payload: Bytes) {
    exists k | 0 <= k < |ds| :: Carries(ds[k], id, total, i, payload)
  }

  /** All of these arrived as the fragments of one frame. */
  ghost predicate Arrived(ds: seq<Datagram>, id: nat, fragments: seq<Bytes>) {
    forall i: nat | i < |fragments| && fragments[i] != [] :: Contributes(ds, id, |fragments|, i, fragments[i])
  }

  ghost predicate MadeFrom(p: Packet, ds: seq<Datagram>, id: nat, fragments: seq<Bytes>) {
    p.data == Concat(fragments) && IsComplete(fragments) && Arrived(ds, id, fragments)
  }

  /** Every part of the packet arrived in a datagram of one and the same frame, at its place. */
  ghost predicate IsOneFrame(p: Packet, ds: seq<Datagram>) {
    exists id: nat, fragments: seq<Bytes> :: MadeFrom(p, ds, id, fragments)
  }

  ghost predicate FromOneFrame(s: Assembly, ds: seq<Datagram>) {
    s.expected != 0 ==> Arrived(ds, s.frame, s.fragments)
  }

  lemma {:induction false} ContributesLater(ds: seq<Datagram>, d: Datagram, id: nat, total: nat, i: nat, payload: Bytes)
    requires Contributes(ds, id, total, i, payload)
    ensures Contributes(ds + [d], id, total, i, payload)
  {
    var k :| 0 <= k < |ds| && Carries(ds[k], id, total, i, payload);
    assert (ds + [d])[k] == ds[k];
  }

  lemma {:induction false} ArrivedLater(ds: seq<Datagram>, d: Datagram, id: nat, fragments: seq<Bytes>)
    requires Arrived(ds, id, fragments)
    ensures Arrived(ds + [d], id, fragments)
  {
    forall i: nat | i < |fragments| && fragments[i] != []
      ensures Contributes(ds + [d], id, |fragments|, i, fragments[i])
    {
      ContributesLater(ds, d, id, |fragments|, i, fragments[i]);
    }
  }

  lemma {:induction false} ArrivesNow(ds: seq<Datagram>, d: Datagram, fragments: seq<Bytes>)
    requires d.Fragment? && d.index < d.total == |fragments| && Arrived(ds, d.frame, fragments)
    ensures Arrived(ds + [d], d.frame, fragments[d.index := d.payload])
  {
    var next := fragments[d.index := d.payload];
    ArrivedLater(ds, d, d.frame, fragments);
    assert (ds + [d])[|ds|] == d;
    forall i: nat | i < |next| && next[i] != [] ensures Contributes(ds + [d], d.frame, |next|, i, next[i]) {
      if i == d.index {
        assert Carries((ds + [d])[|ds|], d.frame, |next|, i, next[i]);
      }
    }
  }

  lemma {:induction false} StepFromOneFrame(s: Assembly, ds: seq<Datagram>, d: Datagram)
    requires Consistent(s) && FromOneFrame(s, ds)
    ensures var (t, packet) := Received(s, d);
      FromOneFrame(t, ds + [d]) && (packet.Some? ==> IsOneFrame(packet.value, ds + [d]))
  {
    if d.Fragment? && d.total != 0 && d.index < d.total {
      var o := Opened(s, d);
      ArrivesNow(ds, d, o.fragments);
      var (t, packet) := Received(s, d);
      if packet.Some? {
        assert MadeFrom(packet.value, ds + [d], d.frame, t.fragments);
      }
    } else if s.expected != 0 {
      ArrivedLater(ds, d, s.frame, s.fragments);
    }
  }

  lemma {:induction false} OneFrameLater(p: Packet, ds: seq<Datagram>, d: Datagram)
    requires IsOneFrame(p, ds)
    ensures IsOneFrame(p, ds + [d])
  {
    var id: nat, fragments: seq<Bytes> :| MadeFrom(p, ds, id, fragments);
    ArrivedLater(ds, d, id, fragments);
    assert MadeFrom(p, ds + [d], id, fragments);
  }

  /** Whatever arrives, in whatever order, damaged or not: no packet mixes two frames. */
  lemma {:induction false} NoMixedPackets(ds: seq<Datagram>)
    ensures FromOneFrame(Run(EMPTY, ds).0, ds)
    ensures forall p | p in Run(EMPTY, ds).1 :: IsOneFrame(p, ds)
  {
    if ds != [] {
      var init, d := ds[..|ds| - 1], ds[|ds| - 1];
      assert init + [d] == ds;
      NoMixedPackets(init);
      StepFromOneFrame(Run(EMPTY, init).0, init, d);
      forall p | p in Run(EMPTY, init).1 ensures IsOneFrame(p, ds) {
        OneFrameLater(p, init, d);
      }
    }
  }

  // ---------------------------------------------------------------- noise

  /** A datagram that is no fragment: unreadable, of no fragments, or out of range. */
  predicate IsNoise(d: Datagram) {
    d.Unreadable? || d.total == 0 || d.index >= d.total
  }

  function WithoutNoise(ds: seq<Datagram>): seq<Datagram> {
    if ds == [] then []
    else
      var before, last := WithoutNoise(ds[..|ds| - 1]), ds[|ds| - 1];
      if IsNoise(last) then before else before + [last]
  }

  /** Noise anywhere changes nothing. */
  lemma {:induction false} NoiseIsHarmless(s: Assembly, ds: seq<Datagram>)
    requires Consistent(s)
    ensures Run(s, ds) == Run(s, WithoutNoise(ds))
  {
    if ds != [] {
      var init, last := ds[..|ds| - 1], ds[|ds| - 1];
      NoiseIsHarmless(s, init);
      var clean := WithoutNoise(init);
      if !IsNoise(last) {
        assert (clean + [last])[..|clean|] == clean;
      }
    }
  }

  /** A packet's data is its fragments, one behind the other. */
  lemma {:induction false} ConcatInOrder(a: seq<Bytes>, b: seq<Bytes>)
    ensures Concat(a + b) == Concat(a) + Concat(b)
    ensures forall fragment: Bytes :: Concat([fragment]) == fragment
    decreases |b|
  {
    forall fragment: Bytes ensures Concat([fragment]) == fragment {
      assert [fragment][..0] == [];
    }
    if b == [] {
      assert a + b == a && Concat(a) + [] == Concat(a);
    } else {
      var init, last := b[..|b| - 1], b[|b| - 1];
      ConcatInOrder(a, init);
      assert (a + b)[..|a + b| - 1] == a + init && (a + b)[|a + b| - 1] == last;
      assert (Concat(a) + Concat(init)) + last == Concat(a) + (Concat(init) + last);
    }
  }
}
