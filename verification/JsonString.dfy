/** `DecodeJsonString`: escapes of a JSON string to UTF-8 bytes. A byte is a `char` below 256. */
module JsonStrings {

  // ---------------------------------------------------------------- bit operations on naturals

  function Or(a: nat, b: nat): nat
    decreases a + b
  {
    if a == 0 then b else if b == 0 then a
    else 2 * Or(a / 2, b / 2) + if a % 2 == 1 || b % 2 == 1 then 1 else 0
  }

  function Pow2(k: nat): (p: nat)
    ensures p >= 1
  {
    if k == 0 then 1 else 2 * Pow2(k - 1)
  }

  /** Numbers without a common bit are added. */
  lemma {:induction false} OrDisjoint(q: nat, k: nat, b: nat)
    requires b < Pow2(k)
    ensures Or(q * Pow2(k), b) == q * Pow2(k) + b
  {
    var a := q * Pow2(k);
    if k > 0 && a > 0 && b > 0 {
      var half := q * Pow2(k - 1);
      assert a == 2 * half;
      OrDisjoint(q, k - 1, b / 2);
      OrStep(half, b);
    }
  }

  lemma {:induction false} OrStep(half: nat, b: nat)
    requires half > 0 && b > 0 && Or(half, b / 2) == half + b / 2
    ensures Or(2 * half, b) == 2 * half + b
  {
  }

  // ---------------------------------------------------------------- the decoder's parts

  const TWO_32 := 0x1_0000_0000

  /** The value of a hexadecimal digit; other characters give whatever the subtraction gives. */
  function HexValue(c: char): nat {
    if '0' <= c <= '9' then c as int - '0' as int
    else if 'a' <= c <= 'f' then c as int - 'a' as int + 10
    else (c as int - 'A' as int + 10) % TWO_32
  }

  function CodeUnit(digits: string): nat {
    if digits == [] then 0
    else Or(CodeUnit(digits[..|digits| - 1]) * 16 % TWO_32, HexValue(digits[|digits| - 1]))
  }

  /** `static_cast<char>`. */
  function Byte(n: nat): char {
    (n % 0x100) as char
  }

  function Tagged(tag: nat, bits: nat): char {
    Byte(Or(tag, bits))
  }

  /** `append_utf8`, shifts and masks written as divisions and remainders. */
  function AppendUtf8(codepoint: nat): string {
    if codepoint <= 0x7F then [Byte(codepoint)]
    else if codepoint <= 0x7FF then [Tagged(0xC0, codepoint / 0x40), Tagged(0x80, codepoint % 0x40)]
    else if codepoint <= 0xFFFF then
      [Tagged(0xE0, codepoint / 0x1000), Tagged(0x80, codepoint / 0x40 % 0x40), Tagged(0x80, codepoint % 0x40)]
    else
      [Tagged(0xF0, codepoint / 0x4_0000), Tagged(0x80, codepoint / 0x1000 % 0x40),
       Tagged(0x80, codepoint / 0x40 % 0x40), Tagged(0x80, codepoint % 0x40)]
  }

  predicate IsHighSurrogate(u: nat) {
    0xD800 <= u <= 0xDBFF
  }

  predicate IsLowSurrogate(u: nat) {
    0xDC00 <= u <= 0xDFFF
  }

  function Joined(high: nat, low: nat): nat
    requires IsHighSurrogate(high) && IsLowSurrogate(low)
  {
    0x1_0000 + (high - 0xD800) * 0x400 + (low - 0xDC00)
  }

  /** The low surrogate that is written right after position `i`, or 0. */
  function LowAt(value: string, i: nat): nat {
    if i + 6 < |value| && value[i + 1] == '\\' && value[i + 2] == 'u' && IsLowSurrogate(CodeUnit(value[i + 3..i + 7]))
    then CodeUnit(value[i + 3..i + 7]) else 0
  }

  /** What a short escape stands for; every other character stands for itself. */
  function ShortEscape(c: char): char {
    match c
    case 'b' => 8 as char
    case 'f' => 12 as char
    case 'n' => '\n'
    case 'r' => '\r'
    case 't' => '\t'
    case _ => c
  }

  /** The bytes decoded at position `i`, and the position after them. */
  function One(value: string, i: nat): (r: (string, nat))
    requires i < |value|
    ensures i < r.1 <= |value|
  {
    if value[i] != '\\' then ([value[i]], i + 1)
    else if i + 1 == |value| then ([], i + 1)
    else if value[i + 1] != 'u' then ([ShortEscape(value[i + 1])], i + 2)
    else if i + 5 >= |value| then ([], i + 2)
    else
      var unit := CodeUnit(value[i + 2..i + 6]);
      var low := LowAt(value, i + 5);
      if IsHighSurrogate(unit) && low != 0 then (AppendUtf8(Joined(unit, low)), i + 12)
      else (AppendUtf8(unit), i + 6)
  }

  /** A way to read a string piece by piece: the output at a position, and the next position. */
  type Reader = (string, nat) -> (string, nat)

  ghost predicate Advances(read: Reader) {
    forall value: string, i: nat | i < |value| :: i < read(value, i).1 <= |value|
  }

  /** Everything a reader reads from position `i` on. */
  function ReadAll(read: Reader, value: string, i: nat): string
    requires Advances(read) && i <= |value|
    decreases |value| - i
  {
    if i == |value| then "" else read(value, i).0 + ReadAll(read, value, read(value, i).1)
  }

  function Decoder(): (read: Reader)
    ensures Advances(read)
  {
    (value: string, i: nat) => if i < |value| then One(value, i) else ([], i)
  }

  function DecodeFrom(value: string, i: nat): string
    requires i <= |value|
  {
    ReadAll(Decoder(), value, i)
  }

  function Decode(value: string): string {
    DecodeFrom(value, 0)
  }

  method DecodeCodeUnit(input: string, offset: nat) returns (unit: nat)
    requires offset + 4 <= |input|
    ensures unit == CodeUnit(input[offset..offset + 4])
  {
    unit := 0;
    for index := 0 to 4
      invariant unit == CodeUnit(input[offset..offset + index])
    {
      var digits := input[offset..offset + index + 1];
      assert digits[..|digits| - 1] == input[offset..offset + index];
      unit := Or(unit * 16 % TWO_32, HexValue(input[offset + index]));
    }
  }

  lemma {:induction false} EscapeIs(value: string, i: nat, unit: nat, low: nat)
    requires i + 6 <= |value| && value[i] == '\\' && value[i + 1] == 'u'
    requires unit == CodeUnit(value[i + 2..i + 6]) && low == LowAt(value, i + 5)
    ensures One(value, i) ==
      if IsHighSurrogate(unit) && low != 0 then (AppendUtf8(Joined(unit, low)), i + 12) else (AppendUtf8(unit), i + 6)
  {
  }

  /** A `\u` escape with its digits at `i`: its bytes, and the position after it. */
  method DecodeUnicodeEscape(value: string, i: nat) returns (bytes: string, next: nat)
    requires i >= 2 && i + 4 <= |value| && value[i - 2] == '\\' && value[i - 1] == 'u'
    ensures (bytes, next) == One(value, i - 2)
  {
    var codepoint := DecodeCodeUnit(value, i);
    EscapeIs(value, i - 2, codepoint, LowAt(value, i + 3));
    next := i + 3;
    if IsHighSurrogate(codepoint) && next + 6 < |value| && value[next + 1] == '\\' && value[next + 2] == 'u' {
      var low := DecodeCodeUnit(value, next + 3);
      if IsLowSurrogate(low) {
        codepoint := Joined(codepoint, low);
        next := next + 6;
      }
    }
    return AppendUtf8(codepoint), next + 1;
  }

  method DecodeOne(value: string, i: nat) returns (bytes: string, next: nat)
    requires i < |value|
    ensures (bytes, next) == One(value, i)
  {
    if value[i] != '\\' {
      return [value[i]], i + 1;
    }
    if i + 1 >= |value| {
      return [], i + 1;
    }
    var escaped := value[i + 1];
    if escaped != 'u' {
      return [ShortEscape(escaped)], i + 2;
    }
    if i + 5 >= |value| {
      return [], i + 2;
    }
    bytes, next := DecodeUnicodeEscape(value, i + 2);
  }

  method DecodeJsonString(value: string) returns (output: string)
    ensures output == Decode(value)
  {
    output := "";
    var i := 0;
    while i < |value|
      invariant i <= |value|
      invariant output + DecodeFrom(value, i) == Decode(value)
    {
      var bytes, next := DecodeOne(value, i);
      OneDecodes(value, i);
      assert output + (bytes + DecodeFrom(value, next)) == (output + bytes) + DecodeFrom(value, next);
      output := output + bytes;
      i := next;
    }
  }

  // ---------------------------------------------------------------- Unicode

  /** A Unicode scalar value: a code point that is not a surrogate. */
  predicate IsScalar(c: nat) {
    c <= 0x10_FFFF && !(0xD800 <= c <= 0xDFFF)
  }

  /** UTF-8 as section 3 of RFC 3629 lays it out. */
  function Utf8(c: nat): string
    requires IsScalar(c)
  {
    if c < 0x80 then [c as char]
    else if c < 0x800 then [(0xC0 + c / 0x40) as char, (0x80 + c % 0x40) as char]
    else if c < 0x1_0000 then [(0xE0 + c / 0x1000) as char, (0x80 + c / 0x40 % 0x40) as char, (0x80 + c % 0x40) as char]
    else [(0xF0 + c / 0x4_0000) as char, (0x80 + c / 0x1000 % 0x40) as char, (0x80 + c / 0x40 % 0x40) as char,
          (0x80 + c % 0x40) as char]
  }

  lemma {:induction false} TagAdds(q: nat, k: nat, bits: nat)
    requires bits < Pow2(k) && q * Pow2(k) + bits < 0x100
    ensures Tagged(q * Pow2(k), bits) == (q * Pow2(k) + bits) as char
  {
    OrDisjoint(q, k, bits);
  }

  lemma {:induction false} Continuation(bits: nat)
    requires bits < 0x40
    ensures Tagged(0x80, bits) == (0x80 + bits) as char
  {
    TagAdds(2, 6, bits);
  }

  lemma {:induction false} LeadTwo(bits: nat)
    requires bits < 0x20
    ensures Tagged(0xC0, bits) == (0xC0 + bits) as char
  {
    TagAdds(6, 5, bits);
  }

  lemma {:induction false} LeadThree(bits: nat)
    requires bits < 0x10
    ensures Tagged(0xE0, bits) == (0xE0 + bits) as char
  {
    TagAdds(14, 4, bits);
  }

  lemma {:induction false} LeadFour(bits: nat)
    requires bits < 0x08
    ensures Tagged(0xF0, bits) == (0xF0 + bits) as char
  {
    TagAdds(30, 3, bits);
  }

  lemma {:induction false} AppendUtf8IsUtf8(c: nat)
    requires IsScalar(c)
    ensures AppendUtf8(c) == Utf8(c)
  {
    Continuation(c % 0x40);
    Continuation(c / 0x40 % 0x40);
    Continuation(c / 0x1000 % 0x40);
    if 0x80 <= c < 0x800 {
      LeadTwo(c / 0x40);
    } else if 0x800 <= c < 0x1_0000 {
      LeadThree(c / 0x1000);
    } else if c >= 0x1_0000 {
      LeadFour(c / 0x4_0000);
    }
  }

  // ---------------------------------------------------------------- the ways to write a character

  predicate IsHex(c: char) {
    '0' <= c <= '9' || 'a' <= c <= 'f' || 'A' <= c <= 'F'
  }

  /** The sixteen digits, in either case, and their values. */
  lemma {:induction false} HexExactly(c: char)
    ensures IsHex(c) <==> c in "0123456789abcdef" || c in "ABCDEF"
    ensures forall d: nat | d < 16 :: "0123456789abcdef"[d] == c ==> HexDigit(c) == d
    ensures forall d: nat | d < 6 :: "ABCDEF"[d] == c ==> HexDigit(c) == 10 + d
  {
    var lower, upper := "0123456789abcdef", "ABCDEF";
    if IsHex(c) {
      if c <= '9' {
        assert lower[c as int - '0' as int] == c;
      } else if c <= 'F' {
        assert upper[c as int - 'A' as int] == c;
      } else {
        assert lower[10 + (c as int - 'a' as int)] == c;
      }
    }
  }

  function HexDigit(c: char): (d: nat)
    requires IsHex(c)
    ensures d < 16
  {
    if c <= '9' then c as int - '0' as int
    else if c <= 'F' then c as int - 'A' as int + 10
    else c as int - 'a' as int + 10
  }

  /** The number that hexadecimal digits write. */
  function HexNumber(digits: string): (n: nat)
    requires forall i | 0 <= i < |digits| :: IsHex(digits[i])
    ensures n < Pow16(|digits|)
  {
    if digits == [] then 0 else 16 * HexNumber(digits[..|digits| - 1]) + HexDigit(digits[|digits| - 1])
  }

  function Pow16(k: nat): nat {
    if k == 0 then 1 else 16 * Pow16(k - 1)
  }

  predicate IsHexOf(digits: string, u: nat) {
    |digits| == 4 && (forall i | 0 <= i < |digits| :: IsHex(digits[i])) && HexNumber(digits) == u
  }

  /** The two-character escapes of section 7 of RFC 8259. */
  predicate IsShortForm(text: string, c: nat) {
    || (text == "\\\"" && c == 0x22) || (text == "\\\\" && c == 0x5C) || (text == "\\/" && c == 0x2F)
    || (text == "\\b" && c == 0x08) || (text == "\\f" && c == 0x0C) || (text == "\\n" && c == 0x0A)
    || (text == "\\r" && c == 0x0D) || (text == "\\t" && c == 0x09)
  }

  /** The text writes scalar value `c`: as its own UTF-8 bytes, as a short escape, as one escaped code
      unit, or as two that are a surrogate pair. */
  predicate Writes(text: string, c: nat)
    requires IsScalar(c)
  {
    || (text == Utf8(c) && c != '\\' as int)
    || IsShortForm(text, c)
    || (|text| == 6 && text[..2] == "\\u" && IsHexOf(text[2..], c))
    || (|text| == 12 && c >= 0x1_0000 && text[..2] == "\\u" && text[6..8] == "\\u"
        && IsHexOf(text[2..6], 0xD800 + (c - 0x1_0000) / 0x400)
        && IsHexOf(text[8..], 0xDC00 + (c - 0x1_0000) % 0x400))
  }

  lemma {:induction false} HexValueIsDigit(c: char)
    requires IsHex(c)
    ensures HexValue(c) == HexDigit(c)
  {
  }

  lemma {:induction false} AppendNibble(u: nat, d: nat)
    requires 16 * u < TWO_32 && d < 16
    ensures Or(u * 16 % TWO_32, d) == 16 * u + d
  {
    var x := u * Pow2(4);
    OrDisjoint(u, 4, d);
    assert x == u * 16 == u * 16 % TWO_32 by {
      assert Pow2(4) == 16;
    }
  }

  lemma {:induction false} CodeUnitIsHexNumber(digits: string)
    requires Pow16(|digits|) <= TWO_32 && forall i | 0 <= i < |digits| :: IsHex(digits[i])
    ensures CodeUnit(digits) == HexNumber(digits)
  {
    if digits != [] {
      var init := digits[..|digits| - 1];
      CodeUnitIsHexNumber(init);
      HexValueIsDigit(digits[|init|]);
      AppendNibble(HexNumber(init), HexDigit(digits[|init|]));
    }
  }

  lemma {:induction false} CodeUnitOf(digits: string, u: nat)
    requires IsHexOf(digits, u)
    ensures CodeUnit(digits) == u < 0x1_0000
  {
    assert Pow16(4) == 0x1_0000;
    CodeUnitIsHexNumber(digits);
  }

  // ---------------------------------------------------------------- one character decodes

  /** At `i` of `value` stands `text`. */
  predicate StandsAt(value: string, i: nat, text: string) {
    i + |text| <= |value| && value[i..i + |text|] == text
  }

  /** A reader that copies `n` characters. */
  lemma {:induction false} ReadsCopy(read: Reader, value: string, i: nat, n: nat)
    requires Advances(read) && i + n <= |value|
    requires forall k: nat | i <= k < i + n :: read(value, k) == ([value[k]], k + 1)
    ensures ReadAll(read, value, i) == value[i..i + n] + ReadAll(read, value, i + n)
    decreases n
  {
    if n > 0 {
      ReadsCopy(read, value, i, n - 1);
      assert value[i..i + n] == value[i..i + n - 1] + [value[i + n - 1]];
    }
  }

  lemma {:induction false} RawOne(value: string, i: nat)
    requires i < |value| && value[i] != '\\'
    ensures Decoder()(value, i) == ([value[i]], i + 1)
  {
  }

  lemma {:induction false} RawDecodes(value: string, i: nat, n: nat)
    requires i + n <= |value| && forall k | i <= k < i + n :: value[k] != '\\'
    ensures DecodeFrom(value, i) == value[i..i + n] + DecodeFrom(value, i + n)
  {
    forall k: nat | i <= k < i + n ensures Decoder()(value, k) == ([value[k]], k + 1) {
      RawOne(value, k);
    }
    ReadsCopy(Decoder(), value, i, n);
  }

  lemma {:induction false} OneDecodes(value: string, i: nat)
    requires i < |value|
    ensures DecodeFrom(value, i) == One(value, i).0 + DecodeFrom(value, One(value, i).1)
  {
  }

  lemma {:induction false} Utf8HasNoBackslash(c: nat)
    requires IsScalar(c) && c != '\\' as int
    ensures '\\' !in Utf8(c)
  {
  }

  lemma {:induction false} UnitDecodes(value: string, i: nat, text: string, c: nat)
    requires IsScalar(c) && StandsAt(value, i, text)
    requires |text| == 6 && text[..2] == "\\u" && IsHexOf(text[2..], c)
    ensures One(value, i) == (Utf8(c), i + 6)
  {
    CodeUnitOf(text[2..], c);
    assert value[i] == text[0] == text[..2][0] && value[i + 1] == text[1] == text[..2][1];
    assert value[i + 2..i + 6] == value[i..i + 6][2..];
    AppendUtf8IsUtf8(c);
  }

  lemma {:induction false} PairDecodes(value: string, i: nat, text: string, c: nat)
    requires IsScalar(c) && c >= 0x1_0000 && StandsAt(value, i, text)
    requires |text| == 12 && text[..2] == "\\u" && text[6..8] == "\\u"
    requires IsHexOf(text[2..6], 0xD800 + (c - 0x1_0000) / 0x400)
    requires IsHexOf(text[8..], 0xDC00 + (c - 0x1_0000) % 0x400)
    ensures One(value, i) == (Utf8(c), i + 12)
  {
    var high, low := 0xD800 + (c - 0x1_0000) / 0x400, 0xDC00 + (c - 0x1_0000) % 0x400;
    CodeUnitOf(text[2..6], high);
    CodeUnitOf(text[8..], low);
    PairStands(value, i, text);
    PairIsJoined(value, i, high, low);
    JoinedBack(c);
    AppendUtf8IsUtf8(c);
  }

  lemma {:induction false} PairStands(value: string, i: nat, text: string)
    requires StandsAt(value, i, text) && |text| == 12 && text[..2] == "\\u" && text[6..8] == "\\u"
    ensures value[i] == '\\' && value[i + 1] == 'u' && value[i + 6] == '\\' && value[i + 7] == 'u'
    ensures value[i + 2..i + 6] == text[2..6] && value[i + 8..i + 12] == text[8..]
  {
    assert value[i] == text[0] == text[..2][0] && value[i + 1] == text[1] == text[..2][1];
    assert value[i + 6] == text[6] == text[6..8][0] && value[i + 7] == text[7] == text[6..8][1];
    assert value[i + 2..i + 6] == value[i..i + 12][2..6];
    assert value[i + 8..i + 12] == value[i..i + 12][8..];
  }

  lemma {:induction false} PairIsJoined(value: string, i: nat, high: nat, low: nat)
    requires i + 12 <= |value| && IsHighSurrogate(high) && IsLowSurrogate(low)
    requires value[i] == '\\' && value[i + 1] == 'u' && value[i + 6] == '\\' && value[i + 7] == 'u'
    requires CodeUnit(value[i + 2..i + 6]) == high && CodeUnit(value[i + 8..i + 12]) == low
    ensures One(value, i) == (AppendUtf8(Joined(high, low)), i + 12)
  {
    assert LowAt(value, i + 5) == low;
  }

  lemma {:induction false} JoinedBack(c: nat)
    requires IsScalar(c) && c >= 0x1_0000
    ensures var high, low := 0xD800 + (c - 0x1_0000) / 0x400, 0xDC00 + (c - 0x1_0000) % 0x400;
      IsHighSurrogate(high) && IsLowSurrogate(low) && Joined(high, low) == c
  {
  }

  lemma {:induction false} ShortDecodes(value: string, i: nat, text: string)
    requires StandsAt(value, i, text) && |text| == 2 && text[0] == '\\' && text[1] != 'u'
    ensures One(value, i) == ([ShortEscape(text[1])], i + 2)
  {
    assert value[i] == value[i..i + 2][0] && value[i + 1] == value[i..i + 2][1];
  }

  lemma {:induction false} ShortFormDecodes(value: string, i: nat, text: string, c: nat)
    requires IsShortForm(text, c) && StandsAt(value, i, text)
    ensures |text| == 2 && One(value, i) == (Utf8(c), i + 2)
  {
    ShortDecodes(value, i, text);
    ShortFormMeans(text, c);
  }

  lemma {:induction false} ShortFormMeans(text: string, c: nat)
    requires IsShortForm(text, c)
    ensures |text| == 2 && ShortEscape(text[1]) == c as char && IsScalar(c) && Utf8(c) == [c as char]
  {
  }

  lemma {:induction false} WrittenDecodes(value: string, i: nat, text: string, c: nat)
    requires IsScalar(c) && Writes(text, c) && StandsAt(value, i, text)
    ensures DecodeFrom(value, i) == Utf8(c) + DecodeFrom(value, i + |text|)
  {
    if text == Utf8(c) && c != '\\' as int {
      Utf8HasNoBackslash(c);
      assert forall k | i <= k < i + |text| :: value[k] == value[i..i + |text|][k - i] == text[k - i];
      RawDecodes(value, i, |text|);
    } else {
      OneDecodes(value, i);
      if IsShortForm(text, c) {
        ShortFormDecodes(value, i, text, c);
      } else if |text| == 6 {
        UnitDecodes(value, i, text, c);
      } else {
        PairDecodes(value, i, text, c);
      }
    }
  }

  // ---------------------------------------------------------------- whole strings

  function Concat(parts: seq<string>): string {
    if parts == [] then "" else parts[0] + Concat(parts[1..])
  }

  function Utf8All(cs: seq<nat>): (parts: seq<string>)
    requires forall k | 0 <= k < |cs| :: IsScalar(cs[k])
    ensures |parts| == |cs| && forall k | 0 <= k < |cs| :: parts[k] == Utf8(cs[k])
  {
    seq(|cs|, k requires 0 <= k < |cs| => Utf8(cs[k]))
  }

  /** Wherever the text stands, the reader makes UTF-8 of it. */
  ghost predicate ReadsAs(read: Reader, value: string, text: string, bytes: string)
    requires Advances(read)
  {
    forall j: nat | StandsAt(value, j, text) ::
      ReadAll(read, value, j) == bytes + ReadAll(read, value, j + |text|)
  }

  lemma {:induction false} ReadsTexts(read: Reader, value: string, i: nat, texts: seq<string>, bytes: seq<string>)
    requires Advances(read) && |texts| == |bytes|
    requires forall k | 0 <= k < |texts| :: ReadsAs(read, value, texts[k], bytes[k])
    requires i <= |value| && value[i..] == Concat(texts)
    ensures ReadAll(read, value, i) == Concat(bytes)
    decreases |texts|
  {
    if texts != [] {
      var text := texts[0];
      assert value[i..i + |text|] == value[i..][..|text|] == text;
      assert value[i + |text|..] == value[i..][|text|..] == Concat(texts[1..]);
      assert StandsAt(value, i, text);
      ReadsTexts(read, value, i + |text|, texts[1..], bytes[1..]);
    }
  }

  lemma {:induction false} WrittenReads(value: string, text: string, c: nat)
    requires IsScalar(c) && Writes(text, c)
    ensures ReadsAs(Decoder(), value, text, Utf8(c))
  {
    forall j: nat | StandsAt(value, j, text)
      ensures ReadAll(Decoder(), value, j) == Utf8(c) + ReadAll(Decoder(), value, j + |text|)
    {
      WrittenDecodes(value, j, text, c);
    }
  }

  /** However each scalar value is written, the string decodes to the UTF-8 form of the values. */
  lemma {:induction false} DecodesToUtf8(texts: seq<string>, cs: seq<nat>)
    requires |texts| == |cs|
    requires forall k | 0 <= k < |cs| :: IsScalar(cs[k]) && Writes(texts[k], cs[k])
    ensures Decode(Concat(texts)) == Concat(Utf8All(cs))
  {
    var value := Concat(texts);
    forall k | 0 <= k < |cs| ensures ReadsAs(Decoder(), value, texts[k], Utf8All(cs)[k]) {
      WrittenReads(value, texts[k], cs[k]);
    }
    ReadsTexts(Decoder(), value, 0, texts, Utf8All(cs));
  }

  // ---------------------------------------------------------------- escapes that JSON does not have

  lemma {:induction false} PlainAround(x: string, middle: string, y: string)
    requires '\\' !in x
    ensures Decode(x + middle + y) == x + DecodeFrom(x + middle + y, |x|)
  {
    var all := x + middle + y;
    forall k | 0 <= k < |x| ensures all[k] != '\\' {
      assert all[k] == x[k];
    }
    RawDecodes(all, 0, |x|);
    assert all[0..|x|] == x;
  }

  lemma {:induction false} PlainToEnd(value: string, i: nat, y: string)
    requires i <= |value| && value[i..] == y && '\\' !in y
    ensures DecodeFrom(value, i) == y
  {
    forall k | i <= k < |value| ensures value[k] != '\\' {
      assert value[k] == y[k - i];
    }
    RawDecodes(value, i, |y|);
    assert value[i..i + |y|] == y && DecodeFrom(value, |value|) == "" && y + "" == y;
  }

  /** A backslash at the end is dropped. */
  lemma {:induction false} TrailingBackslash(x: string)
    requires '\\' !in x
    ensures Decode(x + "\\") == x
  {
    var all := x + "\\" + "";
    assert all == x + "\\";
    PlainAround(x, "\\", "");
    assert all[|x|] == '\\';
    OneDecodes(all, |x|);
    assert DecodeFrom(all, |all|) == "" && x + ("" + "") == x;
  }

  /** An unknown escape stands for its character. */
  lemma {:induction false} UnknownEscape(x: string, c: char, y: string)
    requires '\\' !in x && '\\' !in y && c !in "bfnrtu"
    ensures Decode(x + ['\\', c] + y) == x + [c] + y
  {
    var middle := ['\\', c];
    var all := x + middle + y;
    PlainAround(x, middle, y);
    assert all[|x|] == '\\' && all[|x| + 1] == c && all[|x| + 2..] == y;
    OneDecodes(all, |x|);
    assert One(all, |x|) == ([c], |x| + 2) by {
      assert ShortEscape(c) == c;
    }
    PlainToEnd(all, |x| + 2, y);
    assert x + ([c] + y) == x + [c] + y;
  }

  /** Of a Unicode escape without four characters behind it only the two in front are dropped. */
  lemma {:induction false} CutUnicodeEscape(x: string, y: string)
    requires '\\' !in x && '\\' !in y && |y| < 4
    ensures Decode(x + "\\u" + y) == x + y
  {
    var all := x + "\\u" + y;
    PlainAround(x, "\\u", y);
    assert all[|x|] == '\\' && all[|x| + 1] == 'u' && all[|x| + 2..] == y;
    OneDecodes(all, |x|);
    PlainToEnd(all, |x| + 2, y);
    assert x + ("" + y) == x + y;
  }

  /** A surrogate without its partner is written as if it were a character, in three bytes. */
  lemma {:induction false} LoneSurrogate(x: string, digits: string, u: nat, y: string)
    requires '\\' !in x && '\\' !in y && IsHexOf(digits, u) && 0xD800 <= u <= 0xDFFF
    ensures Decode(x + ("\\u" + digits) + y)
         == x + [(0xE0 + u / 0x1000) as char, (0x80 + u / 0x40 % 0x40) as char, (0x80 + u % 0x40) as char] + y
  {
    var middle := "\\u" + digits;
    var all := x + middle + y;
    PlainAround(x, middle, y);
    var i := |x|;
    assert all[i] == '\\' && all[i + 1] == 'u' && all[i + 2..i + 6] == digits && all[i + 6..] == y;
    CodeUnitOf(digits, u);
    assert LowAt(all, i + 5) == 0 by {
      if i + 11 < |all| {
        assert all[i + 6] == y[0];
      }
    }
    OneDecodes(all, i);
    assert One(all, i) == (AppendUtf8(u), i + 6);
    LeadThree(u / 0x1000);
    Continuation(u / 0x40 % 0x40);
    Continuation(u % 0x40);
    PlainToEnd(all, i + 6, y);
    var bytes := [(0xE0 + u / 0x1000) as char, (0x80 + u / 0x40 % 0x40) as char, (0x80 + u % 0x40) as char];
    assert x + (bytes + y) == x + bytes + y;
  }
}
