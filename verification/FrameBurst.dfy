/** Bursts that reach from the covered bytes of a frame into its checksum, which is stored low byte
    first. */
module FrameBursts {
  import opened Crc16s
  import opened Options
  import opened ChassisCanCodecs

  // ---------------------------------------------------------------- division by the polynomial

  /** Bit `i`, and no bit outside. */
  function At(b: seq<bool>, i: int): bool {
    0 <= i < |b| && b[i]
  }

  function Xor3(a: bool, b: bool, c: bool): bool {
    (a != b) != c
  }

  function QuotientBit(q: seq<bool>, i: int): bool {
    Xor3(At(q, i), At(q, i - 4), At(q, i - 11)) != At(q, i - 16)
  }

  function RemainderBit(q: seq<bool>, k: int): bool {
    Xor3(At(q, |q| + k - 4), At(q, |q| + k - 11), At(q, |q| + k - 16))
  }

  /** The bits `e`, followed by 16 zeros, divided by x^16 + x^12 + x^5 + 1 give `q` and leave `r`. */
  ghost predicate Divides(e: seq<bool>, q: seq<bool>, r: seq<bool>) {
    && |q| == |e| && |r| == 16
    && (forall i | 0 <= i < |e| :: e[i] == QuotientBit(q, i))
    && (forall k | 0 <= k < 16 :: r[k] == RemainderBit(q, k))
  }

  lemma {:induction false} AtSnoc(q: seq<bool>, f: bool, i: int)
    ensures At(q + [f], i) == if i == |q| then f else At(q, i)
  {
  }

  lemma {:induction false} QuotientSnoc(q: seq<bool>, f: bool, i: int)
    ensures i < |q| ==> QuotientBit(q + [f], i) == QuotientBit(q, i)
    ensures i == |q| ==> QuotientBit(q + [f], i) == (f != RemainderBit(q, 0))
  {
    AtSnoc(q, f, i);
    AtSnoc(q, f, i - 4);
    AtSnoc(q, f, i - 11);
    AtSnoc(q, f, i - 16);
  }

  lemma {:induction false} RemainderSnoc(q: seq<bool>, f: bool, k: nat)
    ensures RemainderBit(q + [f], k) == (RemainderBit(q, k + 1) != (f && (k == 3 || k == 10 || k == 15)))
  {
    var n := |q| + 1;
    AtSnoc(q, f, n + k - 4);
    AtSnoc(q, f, n + k - 11);
    AtSnoc(q, f, n + k - 16);
  }

  lemma {:induction false} NoRemainderBit(q: seq<bool>)
    ensures !RemainderBit(q, 16)
  {
  }

  lemma {:induction false} FeedBitAt(r: seq<bool>, bit: bool, k: nat)
    requires |r| == 16 && k < 16
    ensures FeedBit(r, bit)[k] == ((k < 15 && r[k + 1]) != ((r[0] != bit) && (k == 3 || k == 10 || k == 15)))
  {
    var w := r[0 := (r[0] != bit)];
    StepBit(w, k);
    PolynomialAt(k);
    assert k < 15 ==> w[k + 1] == r[k + 1];
  }

  lemma {:induction false} PolynomialAt(k: nat)
    requires k < 16
    ensures POLYNOMIAL[k] <==> k == 3 || k == 10 || k == 15
  {
  }

  lemma {:induction false} DivideStep(e: seq<bool>, q: seq<bool>, r: seq<bool>, bit: bool)
    requires Divides(e, q, r)
    ensures Divides(e + [bit], q + [r[0] != bit], FeedBit(r, bit))
  {
    var f := r[0] != bit;
    forall i | 0 <= i < |e + [bit]| ensures (e + [bit])[i] == QuotientBit(q + [f], i) {
      QuotientSnoc(q, f, i);
    }
    forall k | 0 <= k < 16 ensures FeedBit(r, bit)[k] == RemainderBit(q + [f], k) {
      FeedBitAt(r, bit, k);
      RemainderSnoc(q, f, k);
      NoRemainderBit(q);
    }
  }

  lemma {:induction false} FeedLast(r: seq<bool>, e: seq<bool>, bit: bool)
    requires |r| == 16
    ensures FeedBits(r, e + [bit]) == FeedBit(FeedBits(r, e), bit)
  {
    FeedBitsConcat(r, e, [bit]);
    var s := FeedBits(r, e);
    assert FeedBits(FeedBit(s, bit), [bit][1..]) == FeedBit(s, bit);
  }

  /** The register computes the remainder. */
  lemma {:induction false} RegisterDivides(e: seq<bool>) returns (q: seq<bool>)
    ensures Divides(e, q, FeedBits(Zeros(16), e))
    decreases |e|
  {
    if e == [] {
      q := [];
    } else {
      var init, bit := e[..|e| - 1], e[|e| - 1];
      var rest := RegisterDivides(init);
      var r := FeedBits(Zeros(16), init);
      DivideStep(init, rest, r, bit);
      FeedLast(Zeros(16), init, bit);
      assert init + [bit] == e;
      q := rest + [r[0] != bit];
    }
  }

  // ---------------------------------------------------------------- the errors that escape

  /** The last covered bits and the first bits of the checksum, in the order of transmission, that an
      error changes: ones where it does. */
  datatype Escape = Escape(covered: string, stored: string)

  /** All the errors within 16 bits that the checksum does not detect. The shortest are 13 bits long. */
  const ESCAPES := [
    Escape("1", "001000010001"),
    Escape("10", "01000010001"),
    Escape("11", "011000110011"),
    Escape("100", "1000010001"),
    Escape("101", "101001010101"),
    Escape("110", "11000110011"),
    Escape("111", "111001110111"),
    Escape("10001001", "10100001"),
    Escape("1000110101", "100101"),
    Escape("100011000101", "01"),
    Escape("1000110001010", "1"),
    Escape("1100101001111", "11")]

  /** The bits of a text of zeros and ones. */
  function BitsOf(text: string): (b: seq<bool>)
    ensures |b| == |text| && forall i | 0 <= i < |b| :: b[i] == (text[i] == '1')
  {
    seq(|text|, i requires 0 <= i < |text| => text[i] == '1')
  }

  /** Register contents in the order of transmission: the low byte first. */
  function Wire(r: seq<bool>): (w: seq<bool>)
    requires |r| == 16
    ensures |w| == 16 && forall k | 0 <= k < 16 :: w[(k + 8) % 16] == r[k]
  {
    r[8..] + r[..8]
  }

  /** From place `n` on, in the order of transmission, there is nothing. */
  predicate IsQuiet(r: seq<bool>, n: nat)
    requires |r| == 16
  {
    forall k | 0 <= k < 16 && (k + 8) % 16 >= n :: !r[k]
  }

  function StoredBits(m: Escape): (b: seq<bool>)
    requires |m.stored| <= 16
    ensures |b| == 16
  {
    BitsOf(m.stored) + Zeros(16 - |m.stored|)
  }

  /** The error on `n` covered bits and the checksum behind them. */
  function Pattern(m: Escape, n: nat): seq<bool>
    requires |m.covered| <= n && |m.stored| <= 16
  {
    (Zeros(n - |m.covered|) + BitsOf(m.covered)) + StoredBits(m)
  }

  lemma {:induction false} QuietRemainder(e: seq<bool>, q: seq<bool>, r: seq<bool>)
    requires Divides(e, q, r) && 0 < |e| < 16 && e[0] && IsQuiet(r, 16 - |e|)
    ensures q[0]
    ensures forall k | 0 <= k < 16 && (k + 8) % 16 >= 16 - |e| :: !RemainderBit(q, k)
  {
    assert e[0] == QuotientBit(q, 0);
    forall k | 0 <= k < 16 && (k + 8) % 16 >= 16 - |e| ensures !RemainderBit(q, k) {
      assert !r[k];
    }
  }

  /** Up to seven covered bits: three at most. */
  lemma {:induction false} ShortEscapes(e: seq<bool>, q: seq<bool>, r: seq<bool>) returns (m: nat)
    requires Divides(e, q, r) && 0 < |e| < 8 && e[0] && IsQuiet(r, 16 - |e|)
    ensures m < 12 && e == BitsOf(ESCAPES[m].covered)
  {
    QuietRemainder(e, q, r);
    assert |e| >= 4 ==> !RemainderBit(q, 11 - |e|);
    m := if |e| == 1 then 0 else if |e| == 2 then (if e[1] then 2 else 1)
         else if e[1] then (if e[2] then 6 else 5) else (if e[2] then 4 else 3);
  }

  lemma {:induction false} MiddleEscapes(e: seq<bool>, q: seq<bool>, r: seq<bool>) returns (m: nat)
    requires Divides(e, q, r) && 8 <= |e| < 12 && e[0] && IsQuiet(r, 16 - |e|)
    ensures m < 12 && e == BitsOf(ESCAPES[m].covered)
  {
    QuietRemainder(e, q, r);
    assert !RemainderBit(q, 0) && !RemainderBit(q, 1) && !RemainderBit(q, 2) && !RemainderBit(q, 3);
    assert !RemainderBit(q, 4) && !RemainderBit(q, 5) && !RemainderBit(q, 6) && !RemainderBit(q, 7);
    assert |e| >= 9 ==> !RemainderBit(q, 15);
    assert |e| >= 10 ==> !RemainderBit(q, 14);
    assert |e| >= 11 ==> !RemainderBit(q, 13);
    assert |e| == 8 || |e| == 9 || |e| == 10 || |e| == 11;
    m := if |e| == 8 then 7 else 8;
  }

  lemma {:induction false} LongEscapes(e: seq<bool>, q: seq<bool>, r: seq<bool>) returns (m: nat)
    requires Divides(e, q, r) && 12 <= |e| < 16 && e[0] && IsQuiet(r, 16 - |e|)
    ensures m < 12 && e == BitsOf(ESCAPES[m].covered)
  {
    QuietRemainder(e, q, r);
    assert !RemainderBit(q, 0) && !RemainderBit(q, 1) && !RemainderBit(q, 2) && !RemainderBit(q, 3);
    assert !RemainderBit(q, 4) && !RemainderBit(q, 5) && !RemainderBit(q, 6) && !RemainderBit(q, 7);
    assert !RemainderBit(q, 15) && !RemainderBit(q, 14) && !RemainderBit(q, 13) && !RemainderBit(q, 12);
    assert |e| >= 13 ==> !RemainderBit(q, 11);
    assert |e| >= 14 ==> !RemainderBit(q, 10);
    assert |e| == 12 || |e| == 13 || |e| == 14 || |e| == 15;
    m := if |e| == 12 then 9 else if e[1] then 11 else 10;
  }

  /** The equations of a division of up to 13 bits, one by one. */
  lemma {:induction false} Unfolded(e: seq<bool>, q: seq<bool>, r: seq<bool>)
    requires Divides(e, q, r)
    ensures 0 < |e| ==> e[0] == QuotientBit(q, 0)
    ensures 1 < |e| ==> e[1] == QuotientBit(q, 1)
    ensures 2 < |e| ==> e[2] == QuotientBit(q, 2)
    ensures 3 < |e| ==> e[3] == QuotientBit(q, 3)
    ensures 4 < |e| ==> e[4] == QuotientBit(q, 4)
    ensures 5 < |e| ==> e[5] == QuotientBit(q, 5)
    ensures 6 < |e| ==> e[6] == QuotientBit(q, 6)
    ensures 7 < |e| ==> e[7] == QuotientBit(q, 7)
    ensures 8 < |e| ==> e[8] == QuotientBit(q, 8)
    ensures 9 < |e| ==> e[9] == QuotientBit(q, 9)
    ensures 10 < |e| ==> e[10] == QuotientBit(q, 10)
    ensures 11 < |e| ==> e[11] == QuotientBit(q, 11)
    ensures 12 < |e| ==> e[12] == QuotientBit(q, 12)
    ensures Wire(r)[8] == RemainderBit(q, 0)
    ensures Wire(r)[9] == RemainderBit(q, 1)
    ensures Wire(r)[10] == RemainderBit(q, 2)
    ensures Wire(r)[11] == RemainderBit(q, 3)
    ensures Wire(r)[12] == RemainderBit(q, 4)
    ensures Wire(r)[13] == RemainderBit(q, 5)
    ensures Wire(r)[14] == RemainderBit(q, 6)
    ensures Wire(r)[15] == RemainderBit(q, 7)
    ensures Wire(r)[0] == RemainderBit(q, 8)
    ensures Wire(r)[1] == RemainderBit(q, 9)
    ensures Wire(r)[2] == RemainderBit(q, 10)
    ensures Wire(r)[3] == RemainderBit(q, 11)
    ensures Wire(r)[4] == RemainderBit(q, 12)
    ensures Wire(r)[5] == RemainderBit(q, 13)
    ensures Wire(r)[6] == RemainderBit(q, 14)
    ensures Wire(r)[7] == RemainderBit(q, 15)
  {
    assert forall k | 0 <= k < 16 :: Wire(r)[(k + 8) % 16] == r[k];
  }



  lemma {:induction false} Remainders0(m: nat, q: seq<bool>, r: seq<bool>)
    requires 0 <= m < 4 && Divides(BitsOf(ESCAPES[m].covered), q, r)
    ensures Wire(r) == StoredBits(ESCAPES[m])
  {
    Unfolded(BitsOf(ESCAPES[m].covered), q, r);
  }

  lemma {:induction false} Remainders4(m: nat, q: seq<bool>, r: seq<bool>)
    requires 4 <= m < 7 && Divides(BitsOf(ESCAPES[m].covered), q, r)
    ensures Wire(r) == StoredBits(ESCAPES[m])
  {
    Unfolded(BitsOf(ESCAPES[m].covered), q, r);
  }

  lemma {:induction false} Remainder7(q: seq<bool>, r: seq<bool>)
    requires Divides(BitsOf("10001001"), q, r)
    ensures Wire(r) == BitsOf("10100001") + Zeros(8)
  {
    Unfolded(BitsOf("10001001"), q, r);
  }

  lemma {:induction false} Remainder8(q: seq<bool>, r: seq<bool>)
    requires Divides(BitsOf("1000110101"), q, r)
    ensures Wire(r) == BitsOf("100101") + Zeros(10)
  {
    Unfolded(BitsOf("1000110101"), q, r);
  }

  lemma {:induction false} Remainder9(q: seq<bool>, r: seq<bool>)
    requires Divides(BitsOf("100011000101"), q, r)
    ensures Wire(r) == BitsOf("01") + Zeros(14)
  {
    Unfolded(BitsOf("100011000101"), q, r);
  }

  lemma {:induction false} Remainder10(q: seq<bool>, r: seq<bool>)
    requires Divides(BitsOf("1000110001010"), q, r)
    ensures Wire(r) == BitsOf("1") + Zeros(15)
  {
    Unfolded(BitsOf("1000110001010"), q, r);
  }

  lemma {:induction false} Remainder11(q: seq<bool>, r: seq<bool>)
    requires Divides(BitsOf("1100101001111"), q, r)
    ensures Wire(r) == BitsOf("11") + Zeros(14)
  {
    Unfolded(BitsOf("1100101001111"), q, r);
  }

  /** What each of the covered parts makes of the checksum. */
  lemma {:induction false} EscapeRemainder(m: nat)
    requires m < 12
    ensures Wire(FeedBits(Zeros(16), BitsOf(ESCAPES[m].covered))) == StoredBits(ESCAPES[m])
  {
    var e := BitsOf(ESCAPES[m].covered);
    var r := FeedBits(Zeros(16), e);
    var q := RegisterDivides(e);
    if m < 4 {
      Remainders0(m, q, r);
    } else if m < 7 {
      Remainders4(m, q, r);
    } else if m == 7 {
      Remainder7(q, r);
    } else if m == 8 {
      Remainder8(q, r);
    } else if m == 9 {
      Remainder9(q, r);
    } else if m == 10 {
      Remainder10(q, r);
    } else {
      Remainder11(q, r);
    }
  }

  lemma {:induction false} WireInjective(a: seq<bool>, b: seq<bool>)
    requires |a| == |b| == 16 && Wire(a) == Wire(b)
    ensures a == b
  {
    forall k | 0 <= k < 16 ensures a[k] == b[k] {
      assert Wire(a)[(k + 8) % 16] == Wire(b)[(k + 8) % 16];
    }
  }

  lemma {:induction false} ZerosStay(n: nat)
    ensures FeedBits(Zeros(16), Zeros(n)) == Zeros(16)
  {
    if n > 0 {
      ZerosStay(n - 1);
      assert Zeros(n)[1..] == Zeros(n - 1);
      assert FeedBit(Zeros(16), false) == Zeros(16);
    }
  }

  /** Zeros in front do not matter to an empty register. */
  lemma {:induction false} LeadingZeros(n: nat, e: seq<bool>)
    ensures FeedBits(Zeros(16), Zeros(n) + e) == FeedBits(Zeros(16), e)
  {
    FeedBitsConcat(Zeros(16), Zeros(n), e);
    ZerosStay(n);
  }

  // ---------------------------------------------------------------- bursts in the bits of a frame

  /** All ones lie within 16 places from `start` on. */
  ghost predicate IsBurst(error: seq<bool>, start: nat) {
    forall i | 0 <= i < |error| && !(start <= i < start + 16) :: !error[i]
  }

  /** The error on the covered bits makes the error of the checksum. */
  predicate Escapes(covered: seq<bool>, stored: seq<bool>)
    requires |stored| == 16
  {
    stored == FeedBits(Zeros(16), covered)
  }

  /** The error is on the list, for a checksum behind `n` bits. */
  ghost predicate IsListedError(error: seq<bool>, n: nat) {
    exists m: nat :: m < 12 && |ESCAPES[m].covered| <= n && error == Pattern(ESCAPES[m], n)
  }

  lemma {:induction false} ListedEscapes(covered: seq<bool>, stored: seq<bool>)
    requires |stored| == 16 && IsListedError(covered + Wire(stored), |covered|)
    ensures Escapes(covered, stored)
  {
    var m: nat :| m < 12 && |ESCAPES[m].covered| <= |covered| && covered + Wire(stored) == Pattern(ESCAPES[m], |covered|);
    var e, z := BitsOf(ESCAPES[m].covered), |covered| - |ESCAPES[m].covered|;
    Halves(covered, Wire(stored), Zeros(z) + e, StoredBits(ESCAPES[m]));
    LeadingZeros(z, e);
    EscapeRemainder(m);
    WireInjective(stored, FeedBits(Zeros(16), e));
  }

  lemma {:induction false} Halves(a: seq<bool>, b: seq<bool>, c: seq<bool>, d: seq<bool>)
    requires |a| == |c| && a + b == c + d
    ensures a == c && b == d
  {
    assert a == (a + b)[..|a|] && b == (a + b)[|a|..];
    assert c == (c + d)[..|c|] && d == (c + d)[|c|..];
  }

  /** Where the ones begin. */
  lemma {:induction false} FirstOne(x: seq<bool>) returns (i: nat)
    ensures i <= |x| && x[..i] == Zeros(i) && (i < |x| ==> x[i])
  {
    i := 0;
    while i < |x| && !x[i]
      invariant i <= |x| && forall k | 0 <= k < i :: !x[k]
    {
      i := i + 1;
    }
  }

  lemma {:induction false} LateQuiet(covered: seq<bool>, stored: seq<bool>, start: nat, n: nat)
    requires |stored| == 16 && IsBurst(covered + Wire(stored), start)
    requires start + 16 <= |covered| + n
    ensures IsQuiet(stored, n)
  {
    forall k | 0 <= k < 16 && (k + 8) % 16 >= n ensures !stored[k] {
      var at := (k + 8) % 16;
      assert (covered + Wire(stored))[|covered| + at] == Wire(stored)[at] == stored[k];
    }
  }

  /** A burst within the covered bits is detected, and so is one within the checksum. */
  lemma {:induction false} NotStraddling(covered: seq<bool>, stored: seq<bool>, start: nat)
    requires |stored| == 16 && IsBurst(covered + Wire(stored), start)
    requires start + 16 <= |covered| || covered == Zeros(|covered|)
    requires covered != Zeros(|covered|) || stored != Zeros(16)
    ensures !Escapes(covered, stored)
  {
    ZerosStay(|covered|);
    if covered != Zeros(|covered|) {
      LateQuiet(covered, stored, start, 0);
      assert stored == Zeros(16);
      forall i | 0 <= i < |covered| && !(start <= i < start + 16) ensures covered[i] == Zeros(|covered|)[i] {
        assert covered[i] == (covered + Wire(stored))[i];
      }
      BurstOfBitsDetected(Zeros(16), covered, Zeros(|covered|), start);
    }
  }

  lemma {:induction false} EscapeIsListed(covered: seq<bool>, stored: seq<bool>, start: nat)
    requires |stored| == 16 && IsBurst(covered + Wire(stored), start)
    requires covered != Zeros(|covered|) || stored != Zeros(16)
    requires Escapes(covered, stored)
    ensures IsListedError(covered + Wire(stored), |covered|)
  {
    var i := FirstOne(covered);
    assert covered == covered[..i] + covered[i..];
    if start + 16 <= |covered| || i == |covered| {
      NotStraddling(covered, stored, start);
      assert false;
    }
    var e := covered[i..];
    assert start <= i by {
      assert (covered + Wire(stored))[i];
    }
    LeadingZeros(i, e);
    LateQuiet(covered, stored, start, start + 16 - |covered|);
    var q := RegisterDivides(e);
    var m: nat;
    if |e| < 8 {
      m := ShortEscapes(e, q, stored);
    } else if |e| < 12 {
      m := MiddleEscapes(e, q, stored);
    } else {
      m := LongEscapes(e, q, stored);
    }
    EscapeRemainder(m);
    assert covered + Wire(stored) == Pattern(ESCAPES[m], |covered|);
  }

  // ---------------------------------------------------------------- bursts in the bytes of a frame

  /** The checksum as it stands behind the covered bytes. */
  function Stored(crc: u16): seq<u8> {
    [crc % 0x100, crc / 0x100]
  }

  /** The covered bytes and their checksum in the order of transmission. */
  function FrameBits(payload: seq<u8>, crc: u16): (b: seq<bool>)
    ensures |b| == 8 * |payload| + 16
  {
    Bits(payload + Stored(crc))
  }

  lemma {:induction false} BitsOfSum(high: nat, low: nat, k: nat, j: nat)
    requires low < Pow2(j)
    ensures ToBits(high * Pow2(j) + low, k + j) == ToBits(high, k) + ToBits(low, j)
    decreases j
  {
    if j > 0 {
      var x, c := high * Pow2(j - 1), high * Pow2(j) + low;
      assert high * Pow2(j) == 2 * x;
      HalfOfSum(x, low);
      assert ToBits(c, k + j) == ToBits(x + low / 2, k + j - 1) + [low % 2 == 1];
      BitsOfSum(high, low / 2, k, j - 1);
      Associates(ToBits(high, k), ToBits(low / 2, j - 1), [low % 2 == 1]);
    }
  }

  lemma {:induction false} HalfOfSum(x: nat, low: nat)
    ensures (2 * x + low) / 2 == x + low / 2 && (2 * x + low) % 2 == low % 2
  {
  }

  lemma {:induction false} Associates(a: seq<bool>, b: seq<bool>, c: seq<bool>)
    ensures (a + b) + c == a + (b + c)
  {
  }

  lemma {:induction false} StoredBitsOf(crc: u16)
    ensures Bits(Stored(crc)) == Wire(Register(crc))
  {
    var half := |POLYNOMIAL| / 2;
    Pow2Sixteen();
    BitsOfSum(crc / 0x100, crc % 0x100, half, half);
    var low, high := ToBits(crc % 0x100, 8), ToBits(crc / 0x100, 8);
    assert Register(crc) == high + low;
    assert Stored(crc)[1..] == [crc / 0x100] && [crc / 0x100][1..] == [];
    assert Bits([crc / 0x100]) == high + Bits([]);
    assert Bits(Stored(crc)) == low + high;
  }

  /** The error of a frame is the error of its covered bytes and then that of its checksum. */
  lemma {:induction false} ErrorParts(p: seq<u8>, q: seq<u8>, s: u16, t: u16)
    requires |p| == |q|
    ensures Xor(FrameBits(p, s), FrameBits(q, t))
         == Xor(Bits(p), Bits(q)) + Wire(Xor(Register(s), Register(t)))
  {
    BitsConcat(p, Stored(s));
    BitsConcat(q, Stored(t));
    StoredBitsOf(s);
    StoredBitsOf(t);
    assert Wire(Xor(Register(s), Register(t))) == Xor(Wire(Register(s)), Wire(Register(t)));
    XorParts(Bits(p), Bits(q), Wire(Register(s)), Wire(Register(t)));
  }

  lemma {:induction false} XorParts(a: seq<bool>, b: seq<bool>, c: seq<bool>, d: seq<bool>)
    requires |a| == |b| && |c| == |d|
    ensures Xor(a + c, b + d) == Xor(a, b) + Xor(c, d)
  {
  }

  lemma {:induction false} XorIsZeros(a: seq<bool>, b: seq<bool>)
    requires |a| == |b| && Xor(a, b) == Zeros(|a|)
    ensures a == b
  {
    forall i | 0 <= i < |a| ensures a[i] == b[i] {
      assert Xor(a, b)[i] == Zeros(|a|)[i];
    }
  }

  lemma {:induction false} ErrorIsBurst(x: seq<bool>, y: seq<bool>, start: nat, width: nat)
    requires DifferWithin(x, y, start, width) && width <= 16
    ensures IsBurst(Xor(x, y), start)
  {
  }

  /** Exactly which bursts of at most 16 bits, anywhere in the covered bytes and the checksum behind
      them, go undetected: the twelve on the list, all of which reach across the border. */
  lemma {:induction false} BurstEscapesIff(identifier: u16, p: seq<u8>, q: seq<u8>, t: u16, start: nat)
    requires |p| == |q| && (p != q || t != Crc(identifier, p))
    requires DifferWithin(FrameBits(p, Crc(identifier, p)), FrameBits(q, t), start, 16)
    ensures t == Crc(identifier, q) <==>
              IsListedError(Xor(FrameBits(p, Crc(identifier, p)), FrameBits(q, t)), |Bits(p)|)
  {
    var s := Crc(identifier, p);
    var covered, stored := Xor(Bits(p), Bits(q)), Xor(Register(s), Register(t));
    ErrorParts(p, q, s, t);
    ErrorIsBurst(FrameBits(p, s), FrameBits(q, t), start, 16);
    UndetectedIff(identifier, p, q, t);
    if covered == Zeros(|covered|) && stored == Zeros(16) {
      XorIsZeros(Bits(p), Bits(q));
      XorIsZeros(Register(s), Register(t));
      BitsInjective(p, q);
      RegisterInjective(s, t);
      assert false;
    }
    if Escapes(covered, stored) {
      EscapeIsListed(covered, stored, start);
    }
    if IsListedError(covered + Wire(stored), |covered|) {
      ListedEscapes(covered, stored);
    }
  }

  /** The first and the last one of each error on the list. */
  lemma {:induction false} PatternEnds(m: nat, n: nat)
    requires m < 12 && |ESCAPES[m].covered| <= n
    ensures var c, s := |ESCAPES[m].covered|, |ESCAPES[m].stored|;
      13 <= c + s && Pattern(ESCAPES[m], n)[n - c] && Pattern(ESCAPES[m], n)[n + s - 1]
  {
    var c, s := |ESCAPES[m].covered|, |ESCAPES[m].stored|;
    assert BitsOf(ESCAPES[m].covered)[0] && BitsOf(ESCAPES[m].stored)[s - 1];
    assert StoredBits(ESCAPES[m])[s - 1];
  }

  /** Bursts of at most 12 bits are all detected. */
  lemma {:induction false} ShortBurstDetected(identifier: u16, p: seq<u8>, q: seq<u8>, t: u16, start: nat)
    requires |p| == |q| && (p != q || t != Crc(identifier, p))
    requires DifferWithin(FrameBits(p, Crc(identifier, p)), FrameBits(q, t), start, 12)
    ensures t != Crc(identifier, q)
  {
    var x, y := FrameBits(p, Crc(identifier, p)), FrameBits(q, t);
    if t == Crc(identifier, q) {
      assert DifferWithin(x, y, start, 16);
      BurstEscapesIff(identifier, p, q, t, start);
      var n := |Bits(p)|;
      var m: nat :| m < 12 && |ESCAPES[m].covered| <= n && Xor(x, y) == Pattern(ESCAPES[m], n);
      NotWithinTwelve(x, y, start, m, n);
    }
  }

  lemma {:induction false} NotWithinTwelve(x: seq<bool>, y: seq<bool>, start: nat, m: nat, n: nat)
    requires m < 12 && |ESCAPES[m].covered| <= n && DifferWithin(x, y, start, 12)
    ensures Xor(x, y) != Pattern(ESCAPES[m], n)
  {
    PatternEnds(m, n);
    var error := Pattern(ESCAPES[m], n);
    var first, last := n - |ESCAPES[m].covered|, n + |ESCAPES[m].stored| - 1;
    assert error[first] && error[last] && last - first >= 12;
    if |Xor(x, y)| == |error| {
      assert Xor(x, y)[first] ==> start <= first;
      assert Xor(x, y)[last] ==> last < start + 12;
    }
  }

  /** The error of 13 bits that is first on the list: the last covered bit turned over, and 0x1021 added
      to the checksum. It escapes in every frame. */
  lemma {:induction false} LastBitEscapes(identifier: u16, p: seq<u8>, q: seq<u8>)
    requires p != [] && q == p[|p| - 1 := Turned(p[|p| - 1])]
    ensures XorWord(Crc(identifier, p), 0x1021) == Crc(identifier, q)
  {
    var s := Crc(identifier, p);
    LastBitTurned(p, q);
    RegisterOfXor(s, 0x1021);
    RegisterOfPolynomial();
    assert Xor(Register(s), Xor(Register(s), POLYNOMIAL)) == POLYNOMIAL;
    OneBit();
    LeadingZeros(|Bits(p)| - 1, [true]);
    UndetectedIff(identifier, p, q, XorWord(s, 0x1021));
  }

  function Turned(b: u8): u8 {
    if b % 2 == 0 then b + 1 else b - 1
  }

  lemma {:induction false} LastBitTurned(p: seq<u8>, q: seq<u8>)
    requires p != [] && q == p[|p| - 1 := Turned(p[|p| - 1])]
    ensures Xor(Bits(p), Bits(q)) == Zeros(|Bits(p)| - 1) + [true]
  {
    var n := |p| - 1;
    BitsAround(p, n);
    BitsAround(q, n);
    assert q[..n] == p[..n] && q[n + 1..] == p[n + 1..] == [];
    LastBit(p[n], 7);
    LastBit(q[n], 7);
    var a := Bits(p[..n]) + ToBits(p[n] / 2, 7);
    assert Bits(p) == a + [p[n] % 2 == 1] && Bits(q) == a + [q[n] % 2 == 1];
  }

  lemma {:induction false} OneBit()
    ensures FeedBits(Zeros(16), [true]) == POLYNOMIAL
  {
    FeedLast(Zeros(16), [], true);
    assert [] + [true] == [true];
    forall k | 0 <= k < 16 ensures FeedBit(Zeros(16), true)[k] == POLYNOMIAL[k] {
      FeedBitAt(Zeros(16), true, k);
      PolynomialAt(k);
    }
  }

  /** The bytes up to `end` with an error of at most 12 bits no longer fit together. */
  lemma {:induction false} ShortBurstOfBytes(identifier: u16, d: seq<u8>, e: seq<u8>, n: nat, end: nat, start: nat)
    requires end == n + 2 <= |d| && end <= |e| && d[..end] != e[..end]
    requires GetU16(d, n) == Crc(identifier, d[..n])
    requires DifferWithin(Bits(d[..end]), Bits(e[..end]), start, 12)
    ensures GetU16(e, n) != Crc(identifier, e[..n])
  {
    DataParts(d, n);
    DataParts(e, n);
    ShortBurstDetected(identifier, d[..n], e[..n], GetU16(e, n), start);
  }

  lemma {:induction false} DataParts(d: seq<u8>, n: nat)
    requires n + 2 <= |d|
    ensures d[..n + 2] == d[..n] + Stored(GetU16(d, n))
  {
  }

  /** A heartbeat with such an error, in its covered bytes or its checksum or both, is refused. */
  lemma {:induction false} HeartbeatShortBurstRejected(good: CanFrame, bad: CanFrame, start: nat)
    requires DecodeHeartbeat(good).Some? && bad.data[..12] != good.data[..12]
    requires DifferWithin(Bits(good.data[..12]), Bits(bad.data[..12]), start, 12)
    ensures DecodeHeartbeat(bad) == None
  {
    ShortBurstOfBytes(HEARTBEAT_ID, good.data, bad.data, 10, 12, start);
  }

  lemma {:induction false} FaultShortBurstRejected(good: CanFrame, bad: CanFrame, start: nat)
    requires DecodeFault(good).Some? && bad.data[..16] != good.data[..16]
    requires DifferWithin(Bits(good.data[..16]), Bits(bad.data[..16]), start, 12)
    ensures DecodeFault(bad) == None
  {
    ShortBurstOfBytes(FAULT_STATUS_ID, good.data, bad.data, 14, 16, start);
  }
}
