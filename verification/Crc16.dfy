/** `ChassisCanCodec::Crc16` (polynomial 0x1021, initial value 0xFFFF, most significant bit first,
    identifier before payload) and how strong it is. Words are numbers; the width of each C++
    operation is written out. */
module Crc16s {
  type u8 = n: int | 0 <= n < 0x100
  type u16 = n: int | 0 <= n < 0x1_0000

  const INITIAL: u16 := 0xFFFF

  // ---------------------------------------------------------------- words

  function Pow2(k: nat): (p: nat)
    ensures p > 0
  {
    if k == 0 then 1 else 2 * Pow2(k - 1)
  }

  /** Bitwise exclusive or of the `k` low bits. */
  function XorBitwise(a: nat, b: nat, k: nat): (r: nat)
    ensures r < Pow2(k)
  {
    if k == 0 then 0 else 2 * XorBitwise(a / 2, b / 2, k - 1) + (if a % 2 != b % 2 then 1 else 0)
  }

  function XorWord(a: u16, b: u16): u16 {
    Pow2Sixteen();
    XorBitwise(a, b, 16)
  }

  lemma {:induction false} Pow2Sixteen()
    ensures Pow2(8) == 0x100 && Pow2(15) == 0x8000 && Pow2(16) == 0x1_0000
  {
    assert Pow2(4) == 16 && Pow2(8) == 16 * Pow2(4) && Pow2(12) == 16 * Pow2(8) && Pow2(16) == 16 * Pow2(12);
  }

  // ---------------------------------------------------------------- the algorithm

  /** One iteration of the inner loop. */
  function Shift(crc: u16): u16 {
    if crc >= 0x8000 then XorWord(2 * crc % 0x1_0000, 0x1021) else 2 * crc
  }

  function Shifts(crc: u16, n: nat): u16
    decreases n
  {
    if n == 0 then crc else Shifts(Shift(crc), n - 1)
  }

  /** A u8 in the upper half of a register. */
  function HighByte(value: u8): u16 {
    0x100 * value
  }

  function FeedByte(crc: u16, value: u8): u16 {
    Shifts(XorWord(crc, HighByte(value)), 8)
  }

  function FeedBytes(crc: u16, data: seq<u8>): u16
    decreases |data|
  {
    if data == [] then crc else FeedBytes(FeedByte(crc, data[0]), data[1..])
  }

  /** The identifier, low u8 first. */
  function Header(identifier: u16): seq<u8> {
    [identifier % 0x100, identifier / 0x100]
  }

  function Crc(identifier: u16, payload: seq<u8>): u16 {
    FeedBytes(INITIAL, Header(identifier) + payload)
  }

  method FeedInPlace(crc: u16, value: u8) returns (r: u16)
    ensures r == FeedByte(crc, value)
  {
    r := XorWord(crc, HighByte(value));
    ghost var target := FeedByte(crc, value);
    for bit := 0 to 8
      invariant Shifts(r, 8 - bit) == target
    {
      r := if r >= 0x8000 then XorWord(2 * r % 0x1_0000, 0x1021) else 2 * r;
    }
  }

  method Crc16(identifier: u16, payload: seq<u8>) returns (crc: u16)
    ensures crc == Crc(identifier, payload)
  {
    crc := INITIAL;
    var header := Header(identifier);
    ghost var message := header + payload;
    for i := 0 to |header|
      invariant FeedBytes(crc, message[i..]) == FeedBytes(INITIAL, message)
    {
      assert message[i..][1..] == message[i + 1..];
      crc := FeedInPlace(crc, header[i]);
    }
    assert message[|header|..] == payload;
    for i := 0 to |payload|
      invariant FeedBytes(crc, payload[i..]) == FeedBytes(INITIAL, message)
    {
      assert payload[i..][1..] == payload[i + 1..];
      crc := FeedInPlace(crc, payload[i]);
    }
  }

  // ---------------------------------------------------------------- the register as bits

  /** The bits of 0x1021. */
  const POLYNOMIAL: seq<bool> :=
    [false, false, false, true] + [false, false, false, false] + [false, false, true, false] + [false, false, false, true]

  /** Bit strings have their most significant bit first. */
  function Xor(a: seq<bool>, b: seq<bool>): (r: seq<bool>)
    requires |a| == |b|
    ensures |r| == |a| && forall i | 0 <= i < |r| :: r[i] == (a[i] != b[i])
  {
    seq(|a|, i requires 0 <= i < |a| => a[i] != b[i])
  }

  function Zeros(n: nat): (r: seq<bool>)
    ensures |r| == n && forall i | 0 <= i < n :: !r[i]
  {
    seq(n, _ => false)
  }

  function Step(r: seq<bool>): (s: seq<bool>)
    requires |r| == 16
    ensures |s| == 16
  {
    if r[0] then Xor(r[1..] + [false], POLYNOMIAL) else r[1..] + [false]
  }

  function Steps(r: seq<bool>, n: nat): (s: seq<bool>)
    requires |r| == 16
    ensures |s| == 16
    decreases n
  {
    if n == 0 then r else Steps(Step(r), n - 1)
  }

  function FeedBit(r: seq<bool>, bit: bool): (s: seq<bool>)
    requires |r| == 16
    ensures |s| == 16
  {
    Step(r[0 := (r[0] != bit)])
  }

  /** A shift register that takes one message bit at a time. */
  function FeedBits(r: seq<bool>, bits: seq<bool>): (s: seq<bool>)
    requires |r| == 16
    ensures |s| == 16
    decreases |bits|
  {
    if bits == [] then r else FeedBits(FeedBit(r, bits[0]), bits[1..])
  }

  /** The `k` low bits of a number, most significant first. */
  function ToBits(c: nat, k: nat): (bits: seq<bool>)
    ensures |bits| == k
  {
    if k == 0 then [] else ToBits(c / 2, k - 1) + [c % 2 == 1]
  }

  function Register(c: u16): (r: seq<bool>)
    ensures |r| == 16
  {
    ToBits(c, |POLYNOMIAL|)
  }

  function Bits(data: seq<u8>): (bits: seq<bool>)
    ensures |bits| == 8 * |data|
  {
    if data == [] then [] else ToBits(data[0], 8) + Bits(data[1..])
  }

  lemma {:induction false} BitsOfXor(a: nat, b: nat, k: nat)
    ensures ToBits(XorBitwise(a, b, k), k) == Xor(ToBits(a, k), ToBits(b, k))
    decreases k
  {
    if k > 0 {
      BitsOfXor(a / 2, b / 2, k - 1);
      var x := XorBitwise(a, b, k);
      assert x / 2 == XorBitwise(a / 2, b / 2, k - 1);
    }
  }

  /** The low bits do not depend on what is above them. */
  lemma {:induction false} BitsOfExcess(c: nat, k: nat)
    requires c >= Pow2(k)
    ensures ToBits(c - Pow2(k), k) == ToBits(c, k)
    decreases k
  {
    if k > 0 {
      BitsOfExcess(c / 2, k - 1);
      assert (c - Pow2(k)) / 2 == c / 2 - Pow2(k - 1);
    }
  }

  /** The most significant of `k + 1` bits. */
  function TopBit(c: nat, k: nat): bool {
    if k == 0 then c % 2 == 1 else TopBit(c / 2, k - 1)
  }

  lemma {:induction false} BitsFromTop(c: nat, k: nat)
    ensures ToBits(c, k + 1) == [TopBit(c, k)] + ToBits(c, k)
    decreases k
  {
    if k > 0 {
      BitsFromTop(c / 2, k - 1);
    }
  }

  lemma {:induction false} TopBitIsUpperHalf(c: nat, k: nat)
    requires c < Pow2(k + 1)
    ensures TopBit(c, k) <==> c >= Pow2(k)
    decreases k
  {
    if k == 0 {
      assert Pow2(1) == 2;
    } else {
      TopBitIsUpperHalf(c / 2, k - 1);
    }
  }

  lemma {:induction false} BitsInjectiveWord(a: nat, b: nat, k: nat)
    requires a < Pow2(k) && b < Pow2(k) && ToBits(a, k) == ToBits(b, k)
    ensures a == b
    decreases k
  {
    if k > 0 {
      var x, y := ToBits(a, k), ToBits(b, k);
      assert x[..k - 1] == ToBits(a / 2, k - 1) && y[..k - 1] == ToBits(b / 2, k - 1);
      assert x[k - 1] == (a % 2 == 1) && y[k - 1] == (b % 2 == 1);
      BitsInjectiveWord(a / 2, b / 2, k - 1);
    }
  }

  lemma {:induction false} LastBit(c: nat, k: nat)
    ensures ToBits(c, k + 1) == ToBits(c / 2, k) + [c % 2 == 1]
  {
  }

  lemma {:induction false} BitsOfDouble(c: nat, d: nat, k: nat)
    requires d == if 2 * c >= Pow2(k + 1) then 2 * c - Pow2(k + 1) else 2 * c
    ensures ToBits(d, k + 1) == ToBits(c, k) + [false]
  {
    LastBit(2 * c, k);
    if 2 * c >= Pow2(k + 1) {
      BitsOfExcess(2 * c, k + 1);
    }
  }

  lemma {:induction false} RegisterFromTop(c: u16)
    ensures Register(c) == [c >= 0x8000] + ToBits(c, 15)
  {
    Pow2Sixteen();
    BitsFromTop(c, 15);
    TopBitIsUpperHalf(c, 15);
  }

  lemma {:induction false} RegisterOfLeft(c: u16)
    ensures Register(2 * c % 0x1_0000) == Register(c)[1..] + [false]
    ensures Register(c)[0] <==> c >= 0x8000
  {
    Pow2Sixteen();
    BitsOfDouble(c, 2 * c % 0x1_0000, |POLYNOMIAL| - 1);
    RegisterFromTop(c);
  }

  function Append(d: nat, bit: bool): nat {
    2 * d + (if bit then 1 else 0)
  }

  lemma {:induction false} AppendBit(d: nat, k: nat, bit: bool)
    ensures ToBits(Append(d, bit), k + 1) == ToBits(d, k) + [bit]
  {
    LastBit(Append(d, bit), k);
  }

  lemma {:induction false} AppendTwo(d: nat, k: nat, x: bool, y: bool)
    ensures ToBits(Append(Append(d, x), y), k + 2) == ToBits(d, k) + [x, y]
  {
    AppendBit(d, k, x);
    AppendBit(Append(d, x), k + 1, y);
  }

  lemma {:induction false} AppendNibble(d: nat, k: nat, w: bool, x: bool, y: bool, z: bool) returns (c: nat)
    ensures c == Append(Append(Append(Append(d, w), x), y), z)
    ensures ToBits(c, k + 4) == ToBits(d, k) + [w, x, y, z]
  {
    var half := Append(Append(d, w), x);
    AppendTwo(d, k, w, x);
    AppendTwo(half, k + 2, y, z);
    c := Append(Append(half, y), z);
  }

  lemma {:induction false} RegisterOfPolynomial()
    ensures Register(0x1021) == POLYNOMIAL
  {
    var a, b, c, d := 4, 8, 12, 16;
    var p := AppendNibble(0, 0, false, false, false, true);
    var q := AppendNibble(p, a, false, false, false, false);
    var r := AppendNibble(q, b, false, false, true, false);
    var s := AppendNibble(r, c, false, false, false, true);
    assert s == 0x1021 && |POLYNOMIAL| == d;
  }

  lemma {:induction false} RegisterOfXor(a: u16, b: u16)
    ensures Register(XorWord(a, b)) == Xor(Register(a), Register(b))
  {
    BitsOfXor(a, b, |POLYNOMIAL|);
  }

  lemma {:induction false} RegisterOfShift(c: u16)
    ensures Register(Shift(c)) == Step(Register(c))
  {
    var doubled := 2 * c % 0x1_0000;
    RegisterOfLeft(c);
    if c >= 0x8000 {
      RegisterOfXor(doubled, 0x1021);
      RegisterOfPolynomial();
      assert Shift(c) == XorWord(doubled, 0x1021);
    } else {
      assert Shift(c) == doubled;
    }
  }

  lemma {:induction false} BitsOfScaled(c: nat, j: nat, k: nat)
    requires j <= k
    ensures ToBits(c * Pow2(j), k) == ToBits(c, k - j) + Zeros(j)
    decreases j
  {
    if j == 0 {
      assert ToBits(c, k) + Zeros(0) == ToBits(c, k);
    } else {
      var p := Pow2(j - 1);
      assert c * Pow2(j) == 2 * (c * p);
      BitsOfScaled(c, j - 1, k - 1);
      assert Zeros(j - 1) + [false] == Zeros(j);
    }
  }

  lemma {:induction false} RegisterOfByte(b: u8)
    ensures Register(HighByte(b)) == ToBits(b, 8) + Zeros(8)
  {
    var width, half := |POLYNOMIAL|, |POLYNOMIAL| / 2;
    Pow2Sixteen();
    assert HighByte(b) == b * Pow2(half);
    BitsOfScaled(b, half, width);
  }

  lemma {:induction false} RegisterOfShifts(c: u16, n: nat)
    ensures Register(Shifts(c, n)) == Steps(Register(c), n)
    decreases n
  {
    if n > 0 {
      RegisterOfShift(c);
      RegisterOfShifts(Shift(c), n - 1);
    }
  }

  /** Feeding the first bits of a word one at a time is feeding the word at once. */
  lemma {:induction false} FeedWord(r: seq<bool>, w: seq<bool>, k: nat)
    requires |r| == 16 && |w| == 16 && k <= 16
    ensures Steps(Xor(r, w), k) == Xor(FeedBits(r, w[..k]), w[k..] + Zeros(k))
    decreases k
  {
    if k == 0 {
      assert w[0..] + Zeros(0) == w;
    } else {
      var v := w[1..] + [false];
      assert Step(Xor(r, w)) == Xor(FeedBit(r, w[0]), v);
      FeedWord(FeedBit(r, w[0]), v, k - 1);
      assert w[..k][1..] == v[..k - 1];
      assert w[k..] + Zeros(k) == v[k - 1..] + Zeros(k - 1);
    }
  }

  /** Eight shifts of the register with a byte in its upper half: the byte's bits, one at a time. */
  lemma {:induction false} ByteIsEightBits(c: u16, b: u8)
    ensures Register(FeedByte(c, b)) == FeedBits(Register(c), ToBits(b, 8))
  {
    var word := HighByte(b);
    var w := ToBits(b, 8) + Zeros(8);
    RegisterOfByte(b);
    RegisterOfXor(c, word);
    RegisterOfShifts(XorWord(c, word), 8);
    FeedWord(Register(c), w, 8);
    assert w[..8] == ToBits(b, 8);
    XorZeros(FeedBits(Register(c), ToBits(b, 8)), w[8..] + Zeros(8));
  }

  lemma {:induction false} XorZeros(r: seq<bool>, z: seq<bool>)
    requires |r| == |z| && forall i | 0 <= i < |z| :: !z[i]
    ensures Xor(r, z) == r
  {
  }

  lemma {:induction false} FeedBitsConcat(r: seq<bool>, a: seq<bool>, b: seq<bool>)
    requires |r| == 16
    ensures FeedBits(r, a + b) == FeedBits(FeedBits(r, a), b)
    decreases |a|
  {
    if a == [] {
      assert a + b == b;
    } else {
      FeedBitsConcat(FeedBit(r, a[0]), a[1..], b);
      assert (a + b)[1..] == a[1..] + b;
    }
  }

  /** The bytewise algorithm on words is the bitwise shift register. */
  lemma {:induction false} BytesAreBits(c: u16, data: seq<u8>)
    ensures Register(FeedBytes(c, data)) == FeedBits(Register(c), Bits(data))
    decreases |data|
  {
    if data != [] {
      ByteIsEightBits(c, data[0]);
      BytesAreBits(FeedByte(c, data[0]), data[1..]);
      FeedBitsConcat(Register(c), ToBits(data[0], 8), Bits(data[1..]));
    }
  }

  // ---------------------------------------------------------------- nothing is lost on the way

  lemma {:induction false} StepInjective(a: seq<bool>, b: seq<bool>)
    requires |a| == |b| == 16 && Step(a) == Step(b)
    ensures a == b
  {
    assert Step(a)[15] == a[0] && Step(b)[15] == b[0];
    forall i | 0 < i < 16 ensures a[i] == b[i] {
      assert Step(a)[i - 1] == (a[i] != (a[0] && POLYNOMIAL[i - 1]));
      assert Step(b)[i - 1] == (b[i] != (b[0] && POLYNOMIAL[i - 1]));
    }
  }

  lemma {:induction false} StepsInjective(a: seq<bool>, b: seq<bool>, k: nat)
    requires |a| == |b| == 16 && Steps(a, k) == Steps(b, k)
    ensures a == b
    decreases k
  {
    if k > 0 {
      StepsInjective(Step(a), Step(b), k - 1);
      StepInjective(a, b);
    }
  }

  /** Different register contents stay different however the message goes on. */
  lemma {:induction false} FeedBitsInjective(a: seq<bool>, b: seq<bool>, bits: seq<bool>)
    requires |a| == |b| == 16 && FeedBits(a, bits) == FeedBits(b, bits)
    ensures a == b
    decreases |bits|
  {
    if bits != [] {
      FeedBitsInjective(FeedBit(a, bits[0]), FeedBit(b, bits[0]), bits[1..]);
      var x, y := a[0 := (a[0] != bits[0])], b[0 := (b[0] != bits[0])];
      StepInjective(x, y);
      assert x[0] == y[0] && forall i | 0 < i < 16 :: a[i] == x[i] && b[i] == y[i];
    }
  }

  lemma {:induction false} BitsInjective(p: seq<u8>, q: seq<u8>)
    requires |p| == |q| && Bits(p) == Bits(q)
    ensures p == q
    decreases |p|
  {
    if p != [] {
      assert Bits(p)[..8] == ToBits(p[0], 8) && Bits(q)[..8] == ToBits(q[0], 8);
      assert Bits(p)[8..] == Bits(p[1..]) && Bits(q)[8..] == Bits(q[1..]);
      Pow2Sixteen();
      BitsInjectiveWord(p[0], q[0], 8);
      BitsInjective(p[1..], q[1..]);
      assert p == [p[0]] + p[1..] && q == [q[0]] + q[1..];
    }
  }

  // ---------------------------------------------------------------- bursts of at most 16 bits

  /** From one register, two different bit strings of equal length up to 16 never meet again. */
  lemma {:induction false} BurstChangesRegister(r: seq<bool>, x: seq<bool>, y: seq<bool>)
    requires |r| == 16 && |x| == |y| <= 16 && FeedBits(r, x) == FeedBits(r, y)
    ensures x == y
  {
    var k := |x|;
    var v, w := x + Zeros(16 - k), y + Zeros(16 - k);
    FeedWord(r, v, k);
    FeedWord(r, w, k);
    assert v[..k] == x && w[..k] == y;
    assert v[k..] + Zeros(k) == w[k..] + Zeros(k);
    StepsInjective(Xor(r, v), Xor(r, w), k);
    forall i | 0 <= i < k ensures x[i] == y[i] {
      assert Xor(r, v)[i] == Xor(r, w)[i] && v[i] == x[i] && w[i] == y[i];
    }
  }

  /** Two bit strings differ at most within `width` positions from `start` on. */
  ghost predicate DifferWithin(x: seq<bool>, y: seq<bool>, start: nat, width: nat) {
    |x| == |y| && forall i | 0 <= i < |x| && !(start <= i < start + width) :: x[i] == y[i]
  }

  lemma {:induction false} FeedBitsThree(c: seq<bool>, a: seq<bool>, m: seq<bool>, s: seq<bool>)
    requires |c| == 16
    ensures FeedBits(c, a + m + s) == FeedBits(FeedBits(FeedBits(c, a), m), s)
  {
    FeedBitsConcat(c, a + m, s);
    FeedBitsConcat(c, a, m);
  }

  lemma {:induction false} SplitBurst(x: seq<bool>, y: seq<bool>, start: nat)
    returns (a: seq<bool>, m: seq<bool>, n: seq<bool>, s: seq<bool>)
    requires DifferWithin(x, y, start, 16)
    ensures x == a + m + s && y == a + n + s && |m| == |n| <= 16
  {
    var lo := if start <= |x| then start else |x|;
    var hi := if start + 16 <= |x| then start + 16 else |x|;
    a, m, n, s := x[..lo], x[lo..hi], y[lo..hi], x[hi..];
    assert y[..lo] == a && y[hi..] == s;
  }

  lemma {:induction false} BurstOfBitsDetected(c: seq<bool>, x: seq<bool>, y: seq<bool>, start: nat)
    requires |c| == 16 && DifferWithin(x, y, start, 16) && x != y
    ensures FeedBits(c, x) != FeedBits(c, y)
  {
    var a, m, n, s := SplitBurst(x, y, start);
    FeedBitsThree(c, a, m, s);
    FeedBitsThree(c, a, n, s);
    if FeedBits(c, x) == FeedBits(c, y) {
      var r := FeedBits(c, a);
      FeedBitsInjective(FeedBits(r, m), FeedBits(r, n), s);
      BurstChangesRegister(r, m, n);
      assert false;
    }
  }

  /** The covered bytes of a frame: the identifier and then the payload. */
  function Covered(identifier: u16, payload: seq<u8>): seq<u8> {
    Header(identifier) + payload
  }

  /** Every corruption of the covered bytes that stays within 16 consecutive bits changes the CRC. */
  lemma {:induction false} BurstDetected(i: u16, p: seq<u8>, j: u16, q: seq<u8>, start: nat)
    requires |p| == |q| && Covered(i, p) != Covered(j, q)
    requires DifferWithin(Bits(Covered(i, p)), Bits(Covered(j, q)), start, 16)
    ensures Crc(i, p) != Crc(j, q)
  {
    var x, y := Covered(i, p), Covered(j, q);
    BytesAreBits(INITIAL, x);
    BytesAreBits(INITIAL, y);
    if Bits(x) == Bits(y) {
      BitsInjective(x, y);
      assert false;
    }
    BurstOfBitsDetected(Register(INITIAL), Bits(x), Bits(y), start);
  }

  lemma {:induction false} BitsConcat(a: seq<u8>, b: seq<u8>)
    ensures Bits(a + b) == Bits(a) + Bits(b)
    decreases |a|
  {
    if a == [] {
      assert a + b == b;
      assert Bits(a) == [];
    } else {
      var rest := a[1..];
      BitsConcat(rest, b);
      assert (a + b)[0] == a[0] && (a + b)[1..] == rest + b;
      var first, x, y := ToBits(a[0], 8), Bits(rest), Bits(b);
      assert Bits(a + b) == first + Bits(rest + b);
      assert first + (x + y) == (first + x) + y;
    }
  }

  /** Payloads of any length that differ only within 16 consecutive bits have different CRCs. */
  lemma {:induction false} PayloadBurstDetected(identifier: u16, p: seq<u8>, q: seq<u8>, start: nat)
    requires p != q && DifferWithin(Bits(p), Bits(q), start, 16)
    ensures Crc(identifier, p) != Crc(identifier, q)
  {
    var h := Header(identifier);
    BitsConcat(h, p);
    BitsConcat(h, q);
    assert Covered(identifier, p)[|h|..] == p && Covered(identifier, q)[|h|..] == q;
    BurstDetected(identifier, p, identifier, q, 16 + start);
  }

  /** One payload under two identifiers has two CRCs. */
  lemma {:induction false} IdentifierDetected(i: u16, j: u16, payload: seq<u8>)
    requires i != j
    ensures Crc(i, payload) != Crc(j, payload)
  {
    BitsConcat(Header(i), payload);
    BitsConcat(Header(j), payload);
    assert Header(i) != Header(j);
    assert Covered(i, payload)[..2] == Header(i) && Covered(j, payload)[..2] == Header(j);
    BurstDetected(i, payload, j, payload, 0);
  }

  lemma {:induction false} BitsAround(p: seq<u8>, k: nat)
    requires k < |p|
    ensures Bits(p) == Bits(p[..k]) + ToBits(p[k], 8) + Bits(p[k + 1..])
  {
    var a, m, s := p[..k], [p[k]], p[k + 1..];
    assert p == a + (m + s);
    BitsConcat(a, m + s);
    BitsConcat(m, s);
    assert Bits(m) == ToBits(p[k], 8) + Bits([]);
    assert Bits(a) + (ToBits(p[k], 8) + Bits(s)) == Bits(a) + ToBits(p[k], 8) + Bits(s);
  }

  /** A single-byte corruption is a burst. */
  lemma {:induction false} ByteChangeDetected(identifier: u16, p: seq<u8>, k: nat, b: u8)
    requires k < |p| && p[k] != b
    ensures Crc(identifier, p) != Crc(identifier, p[k := b])
  {
    var q := p[k := b];
    assert q[..k] == p[..k] && q[k + 1..] == p[k + 1..] && q[k] == b;
    BitsAround(p, k);
    BitsAround(q, k);
    PayloadBurstDetected(identifier, p, q, 8 * k);
  }

  // ---------------------------------------------------------------- corrupted payload and checksum

  lemma {:induction false} StepLinear(a: seq<bool>, b: seq<bool>)
    requires |a| == |b| == 16
    ensures Step(Xor(a, b)) == Xor(Step(a), Step(b))
  {
    forall i | 0 <= i < 16 ensures Step(Xor(a, b))[i] == Xor(Step(a), Step(b))[i] {
      StepBit(a, i);
      StepBit(b, i);
      StepBit(Xor(a, b), i);
    }
  }

  lemma {:induction false} StepBit(r: seq<bool>, i: nat)
    requires |r| == 16 && i < 16
    ensures Step(r)[i] == ((i < 15 && r[i + 1]) != (r[0] && POLYNOMIAL[i]))
  {
  }

  /** The register is linear in its start and the message together. */
  lemma {:induction false} FeedBitsLinear(a: seq<bool>, b: seq<bool>, x: seq<bool>, y: seq<bool>)
    requires |a| == |b| == 16 && |x| == |y|
    ensures FeedBits(Xor(a, b), Xor(x, y)) == Xor(FeedBits(a, x), FeedBits(b, y))
    decreases |x|
  {
    if x != [] {
      FeedBitLinear(a, b, x[0], y[0]);
      FeedBitsLinear(FeedBit(a, x[0]), FeedBit(b, y[0]), x[1..], y[1..]);
      assert Xor(x, y)[1..] == Xor(x[1..], y[1..]);
    }
  }

  lemma {:induction false} FeedBitLinear(a: seq<bool>, b: seq<bool>, x: bool, y: bool)
    requires |a| == |b| == 16
    ensures FeedBit(Xor(a, b), x != y) == Xor(FeedBit(a, x), FeedBit(b, y))
  {
    var v, w := a[0 := (a[0] != x)], b[0 := (b[0] != y)];
    StepLinear(v, w);
    assert Xor(a, b)[0 := (Xor(a, b)[0] != (x != y))] == Xor(v, w);
  }

  /** What a difference between two payloads does to the CRC depends on the difference alone. */
  lemma {:induction false} DifferenceOfCrcs(identifier: u16, p: seq<u8>, q: seq<u8>)
    requires |p| == |q|
    ensures Xor(Register(Crc(identifier, p)), Register(Crc(identifier, q))) == FeedBits(Zeros(16), Xor(Bits(p), Bits(q)))
  {
    var h := Header(identifier);
    var c := FeedBits(Register(INITIAL), Bits(h));
    BytesAreBits(INITIAL, h + p);
    BytesAreBits(INITIAL, h + q);
    BitsConcat(h, p);
    BitsConcat(h, q);
    FeedBitsConcat(Register(INITIAL), Bits(h), Bits(p));
    FeedBitsConcat(Register(INITIAL), Bits(h), Bits(q));
    FeedBitsLinear(c, c, Bits(p), Bits(q));
    assert Xor(c, c) == Zeros(16);
  }

  lemma {:induction false} RegisterInjective(a: u16, b: u16)
    requires Register(a) == Register(b)
    ensures a == b
  {
    Pow2Sixteen();
    BitsInjectiveWord(a, b, |POLYNOMIAL|);
  }

  lemma {:induction false} XorCancels(a: seq<bool>, b: seq<bool>, c: seq<bool>)
    requires |a| == |b| == |c|
    ensures Xor(a, b) == Xor(a, c) <==> b == c
  {
    if Xor(a, b) == Xor(a, c) {
      forall i | 0 <= i < |a| ensures b[i] == c[i] {
        assert Xor(a, b)[i] == Xor(a, c)[i];
      }
    }
  }

  /** A payload and its stored checksum are both corrupted: the checksum still fits if and only if the
      change of the checksum is what the change of the payload makes of an empty register. */
  lemma {:induction false} UndetectedIff(identifier: u16, p: seq<u8>, q: seq<u8>, t: u16)
    requires |p| == |q|
    ensures t == Crc(identifier, q) <==>
              Xor(Register(Crc(identifier, p)), Register(t)) == FeedBits(Zeros(16), Xor(Bits(p), Bits(q)))
  {
    var s, r := Crc(identifier, p), Crc(identifier, q);
    DifferenceOfCrcs(identifier, p, q);
    XorCancels(Register(s), Register(r), Register(t));
    if Register(r) == Register(t) {
      RegisterInjective(r, t);
    }
  }
}
