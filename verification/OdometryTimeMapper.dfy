/** `ChassisOdometryTimeMapper`: extends a 32-bit millisecond clock and anchors it to host time by the
    smallest reception delay seen so far. */
module OdometryTimeMappers {
  import opened Options
  import opened ChassisCanCodecs

  const INT64_MAX := 0x7FFF_FFFF_FFFF_FFFF
  const INT64_MIN := -0x8000_0000_0000_0000
  const UINT64_MAX := 0xFFFF_FFFF_FFFF_FFFF
  const NS_PER_MS := 1_000_000

  // ---------------------------------------------------------------- the mapper as a value

  datatype Mapper = Mapper(
    initialized: bool, lastDeviceMs: u32, wraps: nat, offsetNs: int, lastReceivedNs: int, lastSampleNs: int,
    resetPending: bool)

  function Fresh(resetPending: bool): Mapper {
    Mapper(false, 0, 0, 0, 0, 0, resetPending)
  }

  datatype Outcome = Mapped(sampleNs: int) | Reset(sampleNs: int) | Invalid

  datatype Call = Call(deviceMs: u32, receivedNs: int)

  function DeviceNs(wraps: nat, deviceMs: u32): nat {
    (wraps * TWO_32 + deviceMs) * NS_PER_MS
  }

  /** The step back is too short to be a wrap of the clock, or host time ran backwards. */
  predicate OutOfOrder(m: Mapper, c: Call) {
    || c.receivedNs <= 0
    || (m.initialized && c.receivedNs < m.lastReceivedNs)
    || (m.initialized && 0 < m.lastDeviceMs - c.deviceMs <= TWO_31)
  }

  function Wraps(m: Mapper, c: Call): nat {
    m.wraps + if m.initialized && m.lastDeviceMs - c.deviceMs > TWO_31 then 1 else 0
  }

  /** The sample time would not fit 64 bits. */
  predicate Overflows(m: Mapper, c: Call) {
    var device := DeviceNs(Wraps(m, c), c.deviceMs);
    device / NS_PER_MS > INT64_MAX / NS_PER_MS || (m.initialized && m.offsetNs + device > INT64_MAX)
  }

  function Min(a: int, b: int): int {
    if a <= b then a else b
  }

  function Next(m: Mapper, c: Call): (r: (Mapper, Outcome)) {
    if OutOfOrder(m, c) then (m, Invalid)
    else if Overflows(m, c) then (m.(wraps := Wraps(m, c)), Invalid)
    else
      var device := DeviceNs(Wraps(m, c), c.deviceMs);
      var delay := c.receivedNs - device;
      var offset := if m.initialized then Min(m.offsetNs, delay) else delay;
      (Mapper(true, c.deviceMs, Wraps(m, c), offset, c.receivedNs, offset + device, false),
       if m.resetPending then Reset(offset + device) else Mapped(offset + device))
  }

  predicate IsInt64(x: int) {
    INT64_MIN <= x <= INT64_MAX
  }

  /** Kept by every call, refused ones included: everything fits 64 bits, the last sample is not
      later than its reception, and the clock as extended so far is not behind the last sample. */
  predicate Consistent(m: Mapper) {
    && IsInt64(m.offsetNs) && IsInt64(m.lastReceivedNs) && IsInt64(m.lastSampleNs)
    && (!m.initialized ==> m == Fresh(m.resetPending))
    && (m.initialized ==>
          && m.lastSampleNs <= m.lastReceivedNs
          && m.lastSampleNs <= m.offsetNs + DeviceNs(m.wraps, m.lastDeviceMs))
  }

  lemma {:induction false} DeviceNsMonotone(w: nat, d: u32, v: nat, e: u32)
    requires w * TWO_32 + d <= v * TWO_32 + e
    ensures DeviceNs(w, d) <= DeviceNs(v, e)
  {
  }

  /** The extended clock never runs backwards. */
  lemma {:induction false} DeviceAdvances(m: Mapper, c: Call)
    requires m.initialized && !OutOfOrder(m, c)
    ensures DeviceNs(Wraps(m, c), c.deviceMs) >= DeviceNs(m.wraps, m.lastDeviceMs)
  {
    DeviceNsMonotone(m.wraps, m.lastDeviceMs, Wraps(m, c), c.deviceMs);
  }

  lemma {:induction false} NextConsistent(m: Mapper, c: Call)
    requires Consistent(m) && IsInt64(c.receivedNs)
    ensures Consistent(Next(m, c).0)
  {
    if m.initialized && !OutOfOrder(m, c) {
      DeviceAdvances(m, c);
    }
  }

  // ---------------------------------------------------------------- the object

  class ChassisOdometryTimeMapper {
    var initialized: bool
    var lastDeviceMs: u32
    var wraps: nat
    var offsetNs: int
    var lastReceivedNs: int
    var lastSampleNs: int
    var resetPending: bool

    function View(): Mapper
      reads this
    {
      Mapper(initialized, lastDeviceMs, wraps, offsetNs, lastReceivedNs, lastSampleNs, resetPending)
    }

    predicate Valid()
      reads this
    {
      Consistent(View())
    }

    constructor ()
      ensures Valid() && View() == Fresh(false)
    {
      initialized, lastDeviceMs, wraps, offsetNs := false, 0, 0, 0;
      lastReceivedNs, lastSampleNs, resetPending := 0, 0, false;
    }

    method Map(deviceMs: u32, receivedNs: int) returns (outcome: Outcome)
      requires Valid() && IsInt64(receivedNs)
      modifies this
      ensures Valid() && (View(), outcome) == Next(old(View()), Call(deviceMs, receivedNs))
    {
      ghost var m, c := View(), Call(deviceMs, receivedNs);
      NextConsistent(m, c);
      if receivedNs <= 0 || (initialized && receivedNs < lastReceivedNs) {
        return Invalid;
      }
      if initialized && deviceMs < lastDeviceMs {
        var backwards := lastDeviceMs - deviceMs;
        if backwards > TWO_31 {
          wraps := wraps + 1;
        } else {
          return Invalid;
        }
      }
      assert wraps == Wraps(m, c) && !OutOfOrder(m, c);
      var device := DeviceNanoseconds(wraps, deviceMs);
      if device == None {
        return Invalid;
      }
      if m.initialized {
        DeviceAdvances(m, c);
      }
      outcome := Anchor(deviceMs, device.value, receivedNs);
    }

    /** The second half of `Map`. Each sum is tested before it is made; the final test, for a sample
        earlier than the last one, can never refuse a call. */
    method Anchor(deviceMs: u32, deviceNs: nat, receivedNs: int) returns (outcome: Outcome)
      requires IsInt64(offsetNs) && deviceNs <= INT64_MAX && 0 < receivedNs <= INT64_MAX
      requires initialized ==> lastSampleNs <= lastReceivedNs <= receivedNs && lastSampleNs <= offsetNs + deviceNs
      modifies this
      ensures wraps == old(wraps)
      ensures outcome == Invalid <==> old(initialized) && old(offsetNs) + deviceNs > INT64_MAX
      ensures outcome == Invalid ==> View() == old(View())
      ensures outcome != Invalid ==>
                var offset := if old(initialized) then Min(old(offsetNs), receivedNs - deviceNs) else receivedNs - deviceNs;
                && View() == Mapper(true, deviceMs, old(wraps), offset, receivedNs, offset + deviceNs, false)
                && outcome == if old(resetPending) then Outcome.Reset(offset + deviceNs) else Mapped(offset + deviceNs)
    {
      if !initialized {
        offsetNs := receivedNs - deviceNs;
      }
      if (offsetNs > 0 && deviceNs > INT64_MAX - offsetNs) || (offsetNs < 0 && deviceNs < INT64_MIN - offsetNs) {
        return Invalid;
      }
      var mappedNs := offsetNs + deviceNs;
      if mappedNs > receivedNs {
        offsetNs := offsetNs - (mappedNs - receivedNs);
        mappedNs := receivedNs;
      }
      if initialized && mappedNs < lastSampleNs {
        assert false;
        return Invalid;
      }
      initialized := true;
      lastDeviceMs := deviceMs;
      lastReceivedNs := receivedNs;
      lastSampleNs := mappedNs;
      outcome := if resetPending then Outcome.Reset(mappedNs) else Mapped(mappedNs);
      resetPending := false;
    }

    method Reset()
      modifies this
      ensures Valid() && View() == Fresh(true)
    {
      initialized, lastDeviceMs, wraps, offsetNs := false, 0, 0, 0;
      lastReceivedNs, lastSampleNs, resetPending := 0, 0, true;
    }
  }

  /** Nothing is computed that does not fit: the wrap count is bounded before it is scaled. */
  method DeviceNanoseconds(wraps: nat, deviceMs: u32) returns (ns: Option<nat>)
    ensures ns.Some? <==> DeviceNs(wraps, deviceMs) / NS_PER_MS <= INT64_MAX / NS_PER_MS
    ensures ns.Some? ==> ns.value == DeviceNs(wraps, deviceMs) <= INT64_MAX
  {
    if wraps > UINT64_MAX / TWO_32 {
      return None;
    }
    var extendedMs := wraps * TWO_32 + deviceMs;
    assert extendedMs <= UINT64_MAX;
    if extendedMs > INT64_MAX / NS_PER_MS {
      return None;
    }
    return Some(extendedMs * NS_PER_MS);
  }

  // ---------------------------------------------------------------- closed form over any run

  function Run(m: Mapper, calls: seq<Call>): Mapper {
    if calls == [] then m else Next(Run(m, calls[..|calls| - 1]), calls[|calls| - 1]).0
  }

  /** An accepted call: its time on the extended device clock, and its reception. */
  datatype Sample = Sample(deviceNs: int, receivedNs: int)

  function Accepted(m: Mapper, calls: seq<Call>): (h: seq<Sample>)
    ensures |h| <= |calls|
  {
    if calls == [] then []
    else
      var before, c := Run(m, calls[..|calls| - 1]), calls[|calls| - 1];
      var h := Accepted(m, calls[..|calls| - 1]);
      if Next(before, c).1 == Invalid then h else h + [Sample(DeviceNs(Wraps(before, c), c.deviceMs), c.receivedNs)]
  }

  /** The smallest reception delay of the samples. */
  function MinDelay(h: seq<Sample>): int
    requires h != []
  {
    var last := h[|h| - 1];
    var delay := last.receivedNs - last.deviceNs;
    if |h| == 1 then delay else Min(MinDelay(h[..|h| - 1]), delay)
  }

  /** The closed form of the last sample. */
  function SampleOf(h: seq<Sample>): int
    requires h != []
  {
    h[|h| - 1].deviceNs + MinDelay(h)
  }

  lemma {:induction false} MinDelayIsMinimum(h: seq<Sample>)
    requires h != []
    ensures forall i | 0 <= i < |h| :: MinDelay(h) <= h[i].receivedNs - h[i].deviceNs
    ensures exists i | 0 <= i < |h| :: MinDelay(h) == h[i].receivedNs - h[i].deviceNs
  {
    var n := |h| - 1;
    if n > 0 {
      var init := h[..n];
      MinDelayIsMinimum(init);
      var i :| 0 <= i < n && MinDelay(init) == init[i].receivedNs - init[i].deviceNs;
      assert h[i] == init[i];
      forall j | 0 <= j < n ensures MinDelay(h) <= h[j].receivedNs - h[j].deviceNs {
        assert h[j] == init[j];
      }
      assert MinDelay(h) == h[i].receivedNs - h[i].deviceNs || MinDelay(h) == h[n].receivedNs - h[n].deviceNs;
    }
  }

  ghost predicate Tracks(m: Mapper, h: seq<Sample>) {
    && m.initialized == (h != [])
    && (h != [] ==>
          && m.offsetNs == MinDelay(h) && m.lastSampleNs == SampleOf(h)
          && h[|h| - 1].deviceNs <= DeviceNs(m.wraps, m.lastDeviceMs)
          && m.lastReceivedNs == h[|h| - 1].receivedNs)
  }

  /** After any calls whatever since a reset, refused ones included, the mapper is where the closed
      form says: sample k is its device time plus the smallest delay of samples 0 to k. */
  lemma {:induction false} ClosedForm(pending: bool, calls: seq<Call>)
    ensures Tracks(Run(Fresh(pending), calls), Accepted(Fresh(pending), calls))
  {
    if calls != [] {
      var init, c := calls[..|calls| - 1], calls[|calls| - 1];
      ClosedForm(pending, init);
      TracksStep(Run(Fresh(pending), init), Accepted(Fresh(pending), init), c);
    }
  }

  lemma {:induction false} TracksStep(m: Mapper, h: seq<Sample>, c: Call)
    requires Tracks(m, h)
    ensures var (n, outcome) := Next(m, c);
      Tracks(n, if outcome == Invalid then h else h + [Sample(DeviceNs(Wraps(m, c), c.deviceMs), c.receivedNs)])
  {
    var s := Sample(DeviceNs(Wraps(m, c), c.deviceMs), c.receivedNs);
    assert (h + [s])[..|h|] == h;
    if m.initialized && !OutOfOrder(m, c) {
      DeviceAdvances(m, c);
    }
    DeviceNsMonotone(m.wraps, m.lastDeviceMs, m.wraps + 1, m.lastDeviceMs);
  }

  predicate Ordered(h: seq<Sample>) {
    forall i, j | 0 <= i < j < |h| :: h[i].deviceNs <= h[j].deviceNs && h[i].receivedNs <= h[j].receivedNs
  }

  lemma {:induction false} AcceptedOrdered(pending: bool, calls: seq<Call>)
    ensures Ordered(Accepted(Fresh(pending), calls))
  {
    if calls != [] {
      var init, c := calls[..|calls| - 1], calls[|calls| - 1];
      AcceptedOrdered(pending, init);
      ClosedForm(pending, init);
      var m := Run(Fresh(pending), init);
      if m.initialized && !OutOfOrder(m, c) {
        DeviceAdvances(m, c);
      }
    }
  }

  /** The samples of any run are non-decreasing, and none is later than its reception. */
  lemma {:induction false} SamplesNonDecreasing(h: seq<Sample>, i: nat, j: nat)
    requires Ordered(h) && i <= j < |h|
    ensures SampleOf(h[..i + 1]) <= SampleOf(h[..j + 1]) <= h[j].receivedNs
    decreases j
  {
    var upTo := h[..j + 1];
    MinDelayIsMinimum(upTo);
    assert upTo[j] == h[j];
    if i < j {
      SamplesNonDecreasing(h, i, j - 1);
      assert upTo[..j] == h[..j] && h[..j][j - 1] == h[j - 1];
    }
  }

  /** What call `k` of a run gives. */
  function OutcomeAt(pending: bool, calls: seq<Call>, k: nat): Outcome
    requires k < |calls|
  {
    Next(Run(Fresh(pending), calls[..k]), calls[k]).1
  }

  lemma {:induction false} AcceptedPrefix(m: Mapper, calls: seq<Call>, k: nat)
    requires k <= |calls|
    ensures Accepted(m, calls[..k]) <= Accepted(m, calls)
    decreases |calls|
  {
    if k == |calls| {
      assert calls[..k] == calls;
    } else {
      var init := calls[..|calls| - 1];
      AcceptedPrefix(m, init, k);
      assert init[..k] == calls[..k];
    }
  }

  /** A call that is answered adds its sample to the run, by the closed form. */
  lemma {:induction false} OutcomeIsClosedForm(pending: bool, calls: seq<Call>, k: nat)
    requires k < |calls| && OutcomeAt(pending, calls, k) != Invalid
    ensures var h := Accepted(Fresh(pending), calls[..k + 1]);
      && h != [] && OutcomeAt(pending, calls, k).sampleNs == SampleOf(h)
      && h[|h| - 1].receivedNs == calls[k].receivedNs
  {
    var upTo := calls[..k + 1];
    assert upTo[..k] == calls[..k] && upTo[k] == calls[k];
    ClosedForm(pending, upTo);
  }

  /** In any run, refused calls included, the samples of the answered calls never decrease, and none is
      later than its reception. */
  lemma {:induction false} RunSamplesNonDecreasing(pending: bool, calls: seq<Call>, i: nat, j: nat)
    requires i <= j < |calls|
    requires OutcomeAt(pending, calls, i) != Invalid && OutcomeAt(pending, calls, j) != Invalid
    ensures OutcomeAt(pending, calls, i).sampleNs <= OutcomeAt(pending, calls, j).sampleNs <= calls[j].receivedNs
  {
    var a, b := Accepted(Fresh(pending), calls[..i + 1]), Accepted(Fresh(pending), calls[..j + 1]);
    OutcomeIsClosedForm(pending, calls, i);
    OutcomeIsClosedForm(pending, calls, j);
    AcceptedOrdered(pending, calls[..j + 1]);
    AcceptedPrefix(Fresh(pending), calls[..j + 1], i + 1);
    assert calls[..j + 1][..i + 1] == calls[..i + 1];
    PrefixSamples(a, b);
  }

  lemma {:induction false} PrefixSamples(a: seq<Sample>, b: seq<Sample>)
    requires a != [] && a <= b && Ordered(b)
    ensures SampleOf(a) <= SampleOf(b) <= b[|b| - 1].receivedNs
  {
    assert a == b[..|a|] && b == b[..|b|];
    SamplesNonDecreasing(b, |a| - 1, |b| - 1);
  }

  /** The first answered call after a reset is marked as such, and no other. */
  lemma {:induction false} ResetMarksFirst(pending: bool, calls: seq<Call>, k: nat)
    requires k < |calls| && OutcomeAt(pending, calls, k) != Invalid
    ensures OutcomeAt(pending, calls, k).Reset? <==> pending && Accepted(Fresh(pending), calls[..k]) == []
  {
    PendingUntilFirst(pending, calls[..k]);
  }

  lemma {:induction false} PendingUntilFirst(pending: bool, calls: seq<Call>)
    ensures Run(Fresh(pending), calls).resetPending <==> pending && Accepted(Fresh(pending), calls) == []
  {
    if calls != [] {
      PendingUntilFirst(pending, calls[..|calls| - 1]);
    }
  }

  /** The extended clock in nanoseconds: the wraps of a 32-bit millisecond counter and its reading. */
  lemma {:induction false} DeviceNsInNumbers(wraps: nat, deviceMs: u32)
    ensures DeviceNs(wraps, deviceMs) == 1_000_000 * (0x1_0000_0000 * wraps + deviceMs)
  {
  }

  /** Which calls are refused: those at a reception time that is not positive or lies before the last one, a step
      back of the device clock by up to 2^31, and a sample time that does not fit 63 bits. */
  lemma {:induction false} RefusedExactly(m: Mapper, c: Call)
    ensures Next(m, c).1 == Invalid <==>
              || c.receivedNs <= 0
              || (m.initialized && (c.receivedNs < m.lastReceivedNs || 1 <= m.lastDeviceMs - c.deviceMs <= 0x8000_0000))
              || (var ms := 0x1_0000_0000 * Wraps(m, c) + c.deviceMs;
                  ms > 0x7FFF_FFFF_FFFF_FFFF / 1_000_000
                  || (m.initialized && m.offsetNs + 1_000_000 * ms >= 0x8000_0000_0000_0000))
    ensures m.initialized ==> Wraps(m, c) == m.wraps + if m.lastDeviceMs - c.deviceMs > 0x8000_0000 then 1 else 0
    ensures !m.initialized ==> Wraps(m, c) == m.wraps
  {
    DeviceNsInNumbers(Wraps(m, c), c.deviceMs);
  }

  // ---------------------------------------------------------------- refusals

  /** Exactly which refusals leave a mark: those that counted a wrap before they overflowed. */
  lemma {:induction false} RefusalMarks(m: Mapper, c: Call)
    requires Next(m, c).1 == Invalid
    ensures Next(m, c).0 != m <==> !OutOfOrder(m, c) && Wraps(m, c) != m.wraps
  {
  }

  /** The clock as extended so far is already out of range. */
  predicate Stuck(m: Mapper) {
    m.initialized && Overflows(m, Call(m.lastDeviceMs, m.lastReceivedNs))
  }

  /** ... and after such a refusal nothing is accepted until `Reset`. */
  lemma {:induction false} MarkedMeansStuck(m: Mapper, c: Call, calls: seq<Call>)
    requires Next(m, c).1 == Invalid && Next(m, c).0 != m
    ensures Accepted(Next(m, c).0, calls) == [] && Stuck(Run(Next(m, c).0, calls))
  {
    var n := Next(m, c).0;
    if calls == [] {
      DeviceNsMonotone(n.wraps, c.deviceMs, n.wraps, m.lastDeviceMs);
    } else {
      var init, d := calls[..|calls| - 1], calls[|calls| - 1];
      MarkedMeansStuck(m, c, init);
      var k := Run(n, init);
      if !OutOfOrder(k, d) {
        DeviceAdvances(k, d);
        DeviceNsMonotone(k.wraps, k.lastDeviceMs, Wraps(k, d), k.lastDeviceMs);
      }
    }
  }

  /** Two calls that do it: a reading just before the wrap, received at the end of the 64-bit range, and
      then one just behind it. */
  lemma {:induction false} RefusalMarksExample(calls: seq<Call>)
    ensures var first, second := Call(0xFFFF_FFFF, INT64_MAX - 5), Call(0, INT64_MAX);
      var m := Run(Fresh(false), [first]);
      && Next(Fresh(false), first).1 == Mapped(INT64_MAX - 5)
      && Next(m, second).1 == Invalid && Next(m, second).0 == m.(wraps := 1)
      && Accepted(Next(m, second).0, calls) == []
  {
    var first, second := Call(0xFFFF_FFFF, INT64_MAX - 5), Call(0, INT64_MAX);
    var one := [first];
    assert one[..|one| - 1] == [] && one[|one| - 1] == first && Run(Fresh(false), []) == Fresh(false);
    var m := Run(Fresh(false), one);
    assert m.offsetNs + DeviceNs(0, 0xFFFF_FFFF) == INT64_MAX - 5;
    assert DeviceNs(1, 0) == DeviceNs(0, 0xFFFF_FFFF) + NS_PER_MS;
    MarkedMeansStuck(m, second, calls);
  }

  // ---------------------------------------------------------------- against the true clock

  /** A reading of the device's true, unbounded uptime, which goes out modulo 2^32. */
  datatype Reading = Reading(uptimeMs: nat, receivedNs: int)

  function Sent(r: Reading): Call {
    Call(r.uptimeMs % TWO_32, r.receivedNs)
  }

  function SentAll(rs: seq<Reading>): (calls: seq<Call>)
    ensures |calls| == |rs|
  {
    if rs == [] then [] else SentAll(rs[..|rs| - 1]) + [Sent(rs[|rs| - 1])]
  }

  /** Unwrapping, exactly: a true gap below 2^32 ms is refused if and only if the wire value fell and
      the gap is 2^31 or more, and otherwise the extended clock advances by the true gap. */
  lemma {:induction false} UnwrapExact(m: Mapper, r: Reading, next: Reading)
    requires m.initialized && m.lastDeviceMs == Sent(r).deviceMs
    requires m.lastReceivedNs <= next.receivedNs && next.receivedNs > 0
    requires r.uptimeMs <= next.uptimeMs < r.uptimeMs + TWO_32
    ensures OutOfOrder(m, Sent(next)) <==>
            Sent(next).deviceMs < Sent(r).deviceMs && next.uptimeMs - r.uptimeMs >= TWO_31
    ensures !OutOfOrder(m, Sent(next)) ==>
              DeviceNs(Wraps(m, Sent(next)), Sent(next).deviceMs) - DeviceNs(m.wraps, m.lastDeviceMs)
              == (next.uptimeMs - r.uptimeMs) * NS_PER_MS
  {
    var a, b := r.uptimeMs, next.uptimeMs;
    assert a == a / TWO_32 * TWO_32 + a % TWO_32 && b == b / TWO_32 * TWO_32 + b % TWO_32;
    assert b / TWO_32 == a / TWO_32 || b / TWO_32 == a / TWO_32 + 1;
  }

  /** Gaps below 2^31 ms, receptions in order, and sample times that fit 64 bits. */
  ghost predicate WellTimed(rs: seq<Reading>) {
    && (forall k | 0 <= k < |rs| ::
          && 0 < rs[k].receivedNs <= INT64_MAX
          && rs[0].uptimeMs <= rs[k].uptimeMs
          && rs[0].uptimeMs % TWO_32 + rs[k].uptimeMs - rs[0].uptimeMs <= INT64_MAX / NS_PER_MS
          && rs[0].receivedNs + (rs[k].uptimeMs - rs[0].uptimeMs) * NS_PER_MS <= INT64_MAX)
    && (forall k | 0 < k < |rs| ::
          && rs[k - 1].uptimeMs <= rs[k].uptimeMs < rs[k - 1].uptimeMs + TWO_31
          && rs[k - 1].receivedNs <= rs[k].receivedNs)
  }

  /** The readings on the true clock. */
  function TrueSamples(rs: seq<Reading>): (h: seq<Sample>)
    ensures |h| == |rs|
  {
    seq(|rs|, i requires 0 <= i < |rs| => Sample(rs[i].uptimeMs * NS_PER_MS, rs[i].receivedNs))
  }

  function Shifted(h: seq<Sample>, base: int): (r: seq<Sample>)
    ensures |r| == |h|
  {
    seq(|h|, i requires 0 <= i < |h| => Sample(h[i].deviceNs - base, h[i].receivedNs))
  }

  /** Where the device clock starts does not matter. */
  lemma {:induction false} ShiftInvariant(h: seq<Sample>, base: int)
    requires h != []
    ensures MinDelay(Shifted(h, base)) == MinDelay(h) + base
    ensures SampleOf(Shifted(h, base)) == SampleOf(h)
  {
    if |h| > 1 {
      ShiftInvariant(h[..|h| - 1], base);
      assert Shifted(h, base)[..|h| - 1] == Shifted(h[..|h| - 1], base);
    }
  }

  /** The true time at which the wire clock last read 0 before the first reading. */
  function Origin(rs: seq<Reading>): int
    requires rs != []
  {
    rs[0].uptimeMs - rs[0].uptimeMs % TWO_32
  }

  /** The mapper has accepted every reading and its extended clock is the true one. */
  ghost predicate OnTrueClock(m: Mapper, h: seq<Sample>, rs: seq<Reading>)
    requires rs != []
  {
    var last := rs[|rs| - 1];
    && m.initialized && m.lastDeviceMs == Sent(last).deviceMs && m.lastReceivedNs == last.receivedNs
    && DeviceNs(m.wraps, m.lastDeviceMs) == (last.uptimeMs - Origin(rs)) * NS_PER_MS
    && h == Shifted(TrueSamples(rs), Origin(rs) * NS_PER_MS)
    && Tracks(m, h)
  }

  lemma {:induction false} NotRefused(m: Mapper, h: seq<Sample>, init: seq<Reading>, r: Reading)
    requires init != [] && WellTimed(init + [r])
    requires OnTrueClock(m, h, init)
    ensures var c := Sent(r);
      && !OutOfOrder(m, c) && !Overflows(m, c)
      && DeviceNs(Wraps(m, c), c.deviceMs) == (r.uptimeMs - Origin(init)) * NS_PER_MS
  {
    var rs, last := init + [r], init[|init| - 1];
    assert rs[|init|] == r && rs[|init| - 1] == last && rs[0] == init[0];
    UnwrapExact(m, last, r);
    var c := Sent(r);
    var a, b := last.uptimeMs, r.uptimeMs;
    assert c.deviceMs < Sent(last).deviceMs ==> b - a < TWO_31;
    assert !OutOfOrder(m, c);
    MinDelayIsMinimum(h);
    assert h[0] == Sample((init[0].uptimeMs - Origin(init)) * NS_PER_MS, init[0].receivedNs);
  }

  lemma {:induction false} NextReading(m: Mapper, h: seq<Sample>, init: seq<Reading>, r: Reading)
    requires init != [] && WellTimed(init + [r])
    requires OnTrueClock(m, h, init)
    ensures Next(m, Sent(r)).1 != Invalid
    ensures OnTrueClock(Next(m, Sent(r)).0, h + [Sample(DeviceNs(Wraps(m, Sent(r)), Sent(r).deviceMs), r.receivedNs)],
                        init + [r])
  {
    NotRefused(m, h, init, r);
    TracksStep(m, h, Sent(r));
    var rs := init + [r];
    assert forall k | 0 <= k < |init| :: rs[k] == init[k];
    assert Shifted(TrueSamples(rs), Origin(rs) * NS_PER_MS)
        == h + [Sample((r.uptimeMs - Origin(rs)) * NS_PER_MS, r.receivedNs)];
  }

  lemma {:induction false} FirstReading(pending: bool, r: Reading)
    requires WellTimed([r])
    ensures var c := Sent(r);
      && Next(Fresh(pending), c).1 != Invalid && Wraps(Fresh(pending), c) == 0
      && OnTrueClock(Next(Fresh(pending), c).0, [Sample(DeviceNs(0, c.deviceMs), r.receivedNs)], [r])
  {
    TracksStep(Fresh(pending), [], Sent(r));
    assert Shifted(TrueSamples([r]), Origin([r]) * NS_PER_MS) == [Sample(DeviceNs(0, Sent(r).deviceMs), r.receivedNs)];
  }

  lemma {:induction false} OneMore(m: Mapper, calls: seq<Call>, c: Call)
    requires Next(Run(m, calls), c).1 != Invalid
    ensures Run(m, calls + [c]) == Next(Run(m, calls), c).0
    ensures Accepted(m, calls + [c])
         == Accepted(m, calls) + [Sample(DeviceNs(Wraps(Run(m, calls), c), c.deviceMs), c.receivedNs)]
  {
    assert (calls + [c])[..|calls|] == calls;
  }

  lemma {:induction false} WellTimedPrefix(rs: seq<Reading>, n: nat)
    requires WellTimed(rs) && n <= |rs|
    ensures WellTimed(rs[..n])
  {
    var init := rs[..n];
    assert forall k | 0 <= k < n :: init[k] == rs[k];
  }

  lemma {:induction false} SentAllAppend(rs: seq<Reading>, r: Reading)
    ensures SentAll(rs + [r]) == SentAll(rs) + [Sent(r)]
  {
    assert (rs + [r])[..|rs|] == rs;
  }

  ghost predicate ExactAfter(pending: bool, rs: seq<Reading>)
    requires rs != []
  {
    OnTrueClock(Run(Fresh(pending), SentAll(rs)), Accepted(Fresh(pending), SentAll(rs)), rs)
  }

  lemma {:induction false} ExactAfterFirst(pending: bool, r: Reading)
    requires WellTimed([r])
    ensures ExactAfter(pending, [r])
  {
    FirstReading(pending, r);
    SentAllAppend([], r);
    assert [] + [r] == [r];
    OneMore(Fresh(pending), [], Sent(r));
  }

  lemma {:induction false} ExactAfterNext(pending: bool, init: seq<Reading>, r: Reading)
    requires init != [] && WellTimed(init + [r]) && ExactAfter(pending, init)
    ensures ExactAfter(pending, init + [r])
  {
    NextReading(Run(Fresh(pending), SentAll(init)), Accepted(Fresh(pending), SentAll(init)), init, r);
    SentAllAppend(init, r);
    OneMore(Fresh(pending), SentAll(init), Sent(r));
  }

  /** Gaps below 2^31 ms and times that fit: every reading is accepted, and the sample is its true
      device time plus the smallest true delay seen so far. */
  lemma {:induction false} ExactOnTrueClock(pending: bool, rs: seq<Reading>)
    requires rs != [] && WellTimed(rs)
    ensures ExactAfter(pending, rs)
  {
    var n := |rs| - 1;
    assert rs == rs[..n] + [rs[n]];
    if n == 0 {
      assert rs == [rs[0]];
      ExactAfterFirst(pending, rs[0]);
    } else {
      WellTimedPrefix(rs, n);
      ExactOnTrueClock(pending, rs[..n]);
      ExactAfterNext(pending, rs[..n], rs[n]);
    }
  }

  lemma {:induction false} TrueClosedForm(pending: bool, rs: seq<Reading>)
    requires rs != [] && WellTimed(rs)
    ensures |Accepted(Fresh(pending), SentAll(rs))| == |rs|
    ensures Run(Fresh(pending), SentAll(rs)).lastSampleNs == SampleOf(TrueSamples(rs))
  {
    ExactOnTrueClock(pending, rs);
    ShiftInvariant(TrueSamples(rs), Origin(rs) * NS_PER_MS);
  }
}
