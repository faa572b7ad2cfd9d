/** The check value of CRC-16/CCITT-FALSE: the checksum of the characters "123456789" is 0x29B1. It fixes the
    initial value, the polynomial, and the order of bits and bytes. */
module CrcChecks {
  import opened Crc16s
  import opened FrameBursts

  lemma {:induction false} WordFeeds(r: seq<bool>, w: seq<bool>)
    requires |r| == 16 && |w| == 16
    ensures FeedBits(r, w) == FeedBits(Zeros(16), Xor(r, w))
  {
    var v := Xor(r, w);
    FeedWord(r, w, 16);
    FeedWord(Zeros(16), v, 16);
    assert w[..16] == w && v[..16] == v && Xor(Zeros(16), v) == v;
    XorZeros(FeedBits(r, w), w[16..] + Zeros(16));
    XorZeros(FeedBits(Zeros(16), v), v[16..] + Zeros(16));
  }

  lemma {:induction false} ByteFeeds(r: seq<bool>, w: seq<bool>)
    requires |r| == 16 && |w| == 8
    ensures FeedBits(r, w) == Xor(FeedBits(Zeros(16), Xor(r[..8], w)), r[8..] + Zeros(8))
  {
    var v := Xor(r, w + Zeros(8));
    FeedWord(r, w + Zeros(8), 8);
    FeedWord(Zeros(16), v, 8);
    assert Xor(Zeros(16), v) == v && v[..8] == Xor(r[..8], w) && v[8..] == r[8..];
    assert (w + Zeros(8))[..8] == w && (w + Zeros(8))[8..] == Zeros(8);
    XorZeros(FeedBits(r, w), (w + Zeros(8))[8..] + Zeros(8));
  }

  /** All the equations of a division of up to 16 bits. */
  lemma {:induction false} Equations(e: seq<bool>, q: seq<bool>, r: seq<bool>)
    requires Divides(e, q, r)
    ensures 0 < |e| ==> e[0] == QuotientBit(q, 0)
    ensures 1 < |e| ==> e[1] == QuotientBit(q, 1)
    ensures 2 < |e| ==> e[2] == QuotientBit(q, 2)
    ensures 3 < |e| ==> e[3] == QuotientBit(q, 3)
    ensures 4 < |e| ==> e[4] == QuotientBit(q, 4)
    ensures 5 < |e| ==> e[5] == QuotientBit(q, 5)
    ensures 6 < |e| ==> e[6] == QuotientBit(q, 6)
    ensures 7 < |e| ==> e[7] == QuotientBit(q, 7)
    ensures 8 < |e| ==> e[8] == QuotientBit(q, 8)
    ensures 9 < |e| ==> e[9] == QuotientBit(q, 9)
    ensures 10 < |e| ==> e[10] == QuotientBit(q, 10)
    ensures 11 < |e| ==> e[11] == QuotientBit(q, 11)
    ensures 12 < |e| ==> e[12] == QuotientBit(q, 12)
    ensures 13 < |e| ==> e[13] == QuotientBit(q, 13)
    ensures 14 < |e| ==> e[14] == QuotientBit(q, 14)
    ensures 15 < |e| ==> e[15] == QuotientBit(q, 15)
    ensures r[0] == RemainderBit(q, 0)
    ensures r[1] == RemainderBit(q, 1)
    ensures r[2] == RemainderBit(q, 2)
    ensures r[3] == RemainderBit(q, 3)
    ensures r[4] == RemainderBit(q, 4)
    ensures r[5] == RemainderBit(q, 5)
    ensures r[6] == RemainderBit(q, 6)
    ensures r[7] == RemainderBit(q, 7)
    ensures r[8] == RemainderBit(q, 8)
    ensures r[9] == RemainderBit(q, 9)
    ensures r[10] == RemainderBit(q, 10)
    ensures r[11] == RemainderBit(q, 11)
    ensures r[12] == RemainderBit(q, 12)
    ensures r[13] == RemainderBit(q, 13)
    ensures r[14] == RemainderBit(q, 14)
    ensures r[15] == RemainderBit(q, 15)
  {
  }

  /** The bits of a digit. */
  lemma {:induction false} DigitBits(w: bool, x: bool, y: bool, z: bool) returns (c: u8)
    ensures c == 0x30 + (if w then 8 else 0) + (if x then 4 else 0) + (if y then 2 else 0) + (if z then 1 else 0)
    ensures ToBits(c, 8) == [false, false, true, true, w, x, y, z]
  {
    var high := AppendNibble(0, 0, false, false, true, true);
    c := AppendNibble(high, 4, w, x, y, z);
    assert ToBits(0, 0) == [];
  }

  lemma {:induction false} FeedTwo(r: seq<bool>, a: u8, b: u8, rest: seq<u8>)
    requires |r| == 16
    ensures FeedBits(r, Bits([a, b] + rest)) == FeedBits(FeedBits(r, ToBits(a, 8) + ToBits(b, 8)), Bits(rest))
  {
    assert ([a, b] + rest)[1..] == [b] + rest && ([b] + rest)[1..] == rest;
    assert Bits([a, b] + rest) == (ToBits(a, 8) + ToBits(b, 8)) + Bits(rest);
    FeedBitsConcat(r, ToBits(a, 8) + ToBits(b, 8), Bits(rest));
  }

  lemma {:induction false} Remainder1(q: seq<bool>, r: seq<bool>)
    requires Divides(BitsOf("1100111011001101"), q, r)
    ensures r == BitsOf("0011110110111010")
  {
    Equations(BitsOf("1100111011001101"), q, r);
  }

  lemma {:induction false} Xor1()
    ensures Xor(BitsOf("1111111111111111"), BitsOf("0011000100110010")) == BitsOf("1100111011001101")
  {
  }

  lemma {:induction false} Word1(w: seq<bool>)
    requires w == BitsOf("0011000100110010")
    ensures FeedBits(BitsOf("1111111111111111"), w) == BitsOf("0011110110111010")
  {
    var e := BitsOf("1100111011001101");
    WordFeeds(BitsOf("1111111111111111"), w);
    Xor1();
    var q := RegisterDivides(e);
    Remainder1(q, FeedBits(Zeros(16), e));
  }

  lemma {:induction false} Digits1(rest: seq<u8>)
    ensures FeedBits(BitsOf("1111111111111111"), Bits([0x31, 0x32] + rest)) == FeedBits(BitsOf("0011110110111010"), Bits(rest))
  {
    var a := DigitBits(false, false, false, true);
    var b := DigitBits(false, false, true, false);
    assert ToBits(a, 8) + ToBits(b, 8) == BitsOf("0011000100110010");
    Word1(ToBits(a, 8) + ToBits(b, 8));
    FeedTwo(BitsOf("1111111111111111"), a, b, rest);
  }

  lemma {:induction false} Remainder2(q: seq<bool>, r: seq<bool>)
    requires Divides(BitsOf("0000111010001110"), q, r)
    ensures r == BitsOf("0101001101001001")
  {
    Equations(BitsOf("0000111010001110"), q, r);
  }

  lemma {:induction false} Xor2()
    ensures Xor(BitsOf("0011110110111010"), BitsOf("0011001100110100")) == BitsOf("0000111010001110")
  {
  }

  lemma {:induction false} Word2(w: seq<bool>)
    requires w == BitsOf("0011001100110100")
    ensures FeedBits(BitsOf("0011110110111010"), w) == BitsOf("0101001101001001")
  {
    var e := BitsOf("0000111010001110");
    WordFeeds(BitsOf("0011110110111010"), w);
    Xor2();
    var q := RegisterDivides(e);
    Remainder2(q, FeedBits(Zeros(16), e));
  }

  lemma {:induction false} Digits2(rest: seq<u8>)
    ensures FeedBits(BitsOf("0011110110111010"), Bits([0x33, 0x34] + rest)) == FeedBits(BitsOf("0101001101001001"), Bits(rest))
  {
    var a := DigitBits(false, false, true, true);
    var b := DigitBits(false, true, false, false);
    assert ToBits(a, 8) + ToBits(b, 8) == BitsOf("0011001100110100");
    Word2(ToBits(a, 8) + ToBits(b, 8));
    FeedTwo(BitsOf("0011110110111010"), a, b, rest);
  }

  lemma {:induction false} Remainder3(q: seq<bool>, r: seq<bool>)
    requires Divides(BitsOf("0110011001111111"), q, r)
    ensures r == BitsOf("0010111011110100")
  {
    Equations(BitsOf("0110011001111111"), q, r);
  }

  lemma {:induction false} Xor3()
    ensures Xor(BitsOf("0101001101001001"), BitsOf("0011010100110110")) == BitsOf("0110011001111111")
  {
  }

  lemma {:induction false} Word3(w: seq<bool>)
    requires w == BitsOf("0011010100110110")
    ensures FeedBits(BitsOf("0101001101001001"), w) == BitsOf("0010111011110100")
  {
    var e := BitsOf("0110011001111111");
    WordFeeds(BitsOf("0101001101001001"), w);
    Xor3();
    var q := RegisterDivides(e);
    Remainder3(q, FeedBits(Zeros(16), e));
  }

  lemma {:induction false} Digits3(rest: seq<u8>)
    ensures FeedBits(BitsOf("0101001101001001"), Bits([0x35, 0x36] + rest)) == FeedBits(BitsOf("0010111011110100"), Bits(rest))
  {
    var a := DigitBits(false, true, false, true);
    var b := DigitBits(false, true, true, false);
    assert ToBits(a, 8) + ToBits(b, 8) == BitsOf("0011010100110110");
    Word3(ToBits(a, 8) + ToBits(b, 8));
    FeedTwo(BitsOf("0101001101001001"), a, b, rest);
  }

  lemma {:induction false} Remainder4(q: seq<bool>, r: seq<bool>)
    requires Divides(BitsOf("0001100111001100"), q, r)
    ensures r == BitsOf("1010000100101011")
  {
    Equations(BitsOf("0001100111001100"), q, r);
  }

  lemma {:induction false} Xor4()
    ensures Xor(BitsOf("0010111011110100"), BitsOf("0011011100111000")) == BitsOf("0001100111001100")
  {
  }

  lemma {:induction false} Word4(w: seq<bool>)
    requires w == BitsOf("0011011100111000")
    ensures FeedBits(BitsOf("0010111011110100"), w) == BitsOf("1010000100101011")
  {
    var e := BitsOf("0001100111001100");
    WordFeeds(BitsOf("0010111011110100"), w);
    Xor4();
    var q := RegisterDivides(e);
    Remainder4(q, FeedBits(Zeros(16), e));
  }

  lemma {:induction false} Digits4(rest: seq<u8>)
    ensures FeedBits(BitsOf("0010111011110100"), Bits([0x37, 0x38] + rest)) == FeedBits(BitsOf("1010000100101011"), Bits(rest))
  {
    var a := DigitBits(false, true, true, true);
    var b := DigitBits(true, false, false, false);
    assert ToBits(a, 8) + ToBits(b, 8) == BitsOf("0011011100111000");
    Word4(ToBits(a, 8) + ToBits(b, 8));
    FeedTwo(BitsOf("0010111011110100"), a, b, rest);
  }

  lemma {:induction false} Remainder5(q: seq<bool>, r: seq<bool>)
    requires Divides(BitsOf("10011000"), q, r)
    ensures r == BitsOf("0000001010110001")
  {
    Equations(BitsOf("10011000"), q, r);
  }

  lemma {:induction false} Halves5()
    ensures BitsOf("1010000100101011")[..8] == BitsOf("10100001") && BitsOf("1010000100101011")[8..] == BitsOf("00101011")
    ensures Xor(BitsOf("10100001"), BitsOf("00111001")) == BitsOf("10011000")
  {
  }

  lemma {:induction false} Xor5()
    ensures Xor(BitsOf("0000001010110001"), BitsOf("00101011") + Zeros(8)) == BitsOf("0010100110110001")
  {
  }

  lemma {:induction false} Byte5(r: seq<bool>, w: seq<bool>)
    requires r == BitsOf("1010000100101011") && w == BitsOf("00111001")
    ensures FeedBits(r, w) == BitsOf("0010100110110001")
  {
    ByteFeeds(r, w);
    Halves5();
    var e := Xor(r[..8], w);
    var q := RegisterDivides(e);
    Remainder5(q, FeedBits(Zeros(16), e));
    Xor5();
  }

  lemma {:induction false} Digit5(d: u8)
    requires d == 0x39
    ensures FeedBits(BitsOf("1010000100101011"), Bits([d])) == BitsOf("0010100110110001")
  {
    var c := DigitBits(true, false, false, true);
    OneByte(d);
    assert ToBits(d, 8) == BitsOf("00111001");
    Byte5(BitsOf("1010000100101011"), ToBits(d, 8));
  }

  lemma {:induction false} OneByte(d: u8)
    ensures Bits([d]) == ToBits(d, 8)
  {
    assert [d][1..] == [] && ToBits(d, 8) + [] == ToBits(d, 8);
  }

  lemma {:induction false} InitialBits()
    ensures Register(0xFFFF) == BitsOf("1111111111111111")
  {
    var a, b, c, d := 4, 8, 12, 16;
    var p := AppendNibble(0, 0, true, true, true, true);
    var q := AppendNibble(p, a, true, true, true, true);
    var r := AppendNibble(q, b, true, true, true, true);
    var s := AppendNibble(r, c, true, true, true, true);
    assert s == 0xFFFF && |POLYNOMIAL| == d;
    InitialBitsText();
  }

  lemma {:induction false} InitialBitsText()
    ensures BitsOf("1111111111111111")
         == [true, true, true, true] + [true, true, true, true] + [true, true, true, true] + [true, true, true, true]
  {
  }

  lemma {:induction false} CheckBits()
    ensures Register(0x29B1) == BitsOf("0010100110110001")
  {
    var a, b, c, d := 4, 8, 12, 16;
    var p := AppendNibble(0, 0, false, false, true, false);
    var q := AppendNibble(p, a, true, false, false, true);
    var r := AppendNibble(q, b, true, false, true, true);
    var s := AppendNibble(r, c, false, false, false, true);
    assert s == 0x29B1 && |POLYNOMIAL| == d;
    CheckBitsText();
  }

  lemma {:induction false} CheckBitsText()
    ensures BitsOf("0010100110110001")
         == [false, false, true, false] + [true, false, false, true] + [true, false, true, true] + [false, false, false, true]
  {
  }

  lemma {:induction false} NineBytes(a: u8, b: u8, c: u8, d: u8, e: u8, f: u8, g: u8, h: u8, i: u8)
    ensures [a, b] + ([c, d] + ([e, f] + ([g, h] + [i]))) == [a, b] + [c, d, e, f, g, h, i]
  {
  }

  /** The identifier is fed low byte first, so that "12" is 0x3231. */
  lemma {:induction false} CheckValue()
    ensures Crc(0x3231, [0x33, 0x34, 0x35, 0x36, 0x37, 0x38, 0x39]) == 0x29B1
  {
    var payload: seq<u8> := [0x33, 0x34, 0x35, 0x36, 0x37, 0x38, 0x39];
    var header: seq<u8> := Header(0x3231);
    assert header == [0x31, 0x32];
    BytesAreBits(INITIAL, header + payload);
    NineBytes(0x31, 0x32, 0x33, 0x34, 0x35, 0x36, 0x37, 0x38, 0x39);
    CheckRegister();
    InitialBits();
    CheckBits();
    RegisterInjective(Crc(0x3231, payload), 0x29B1);
  }

  lemma {:induction false} CheckRegister()
    ensures FeedBits(BitsOf("1111111111111111"), Bits([0x31, 0x32] + ([0x33, 0x34] + ([0x35, 0x36] + ([0x37, 0x38] + [0x39])))))
         == BitsOf("0010100110110001")
  {
    Digits1([0x33, 0x34] + ([0x35, 0x36] + ([0x37, 0x38] + [0x39])));
    Digits2([0x35, 0x36] + ([0x37, 0x38] + [0x39]));
    Digits3([0x37, 0x38] + [0x39]);
    Digits4([0x39]);
    Digit5(0x39);
  }
}
