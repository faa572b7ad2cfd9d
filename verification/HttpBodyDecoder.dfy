/** `HttpBodyDecoder`: the chunked transfer coding, decoded as the bytes arrive. */
module HttpBodyDecoders {
  import opened Options
  import opened Texts
  import JsonStrings

  const TWO_64 := 0x1_0000_0000_0000_0000

  // ---------------------------------------------------------------- chunk sizes

  function Unsigned(t: string): string {
    if t != "" && (t[0] == '+' || t[0] == '-') then t[1..] else t
  }

  function WithoutPrefix(t: string): string {
    if |t| > 2 && t[0] == '0' && (t[1] == 'x' || t[1] == 'X') && JsonStrings.IsHex(t[2]) then t[2..] else t
  }

  predicate AllHex(t: string) {
    forall i | 0 <= i < |t| :: JsonStrings.IsHex(t[i])
  }

  /** `std::stoull` in base 16, and nothing left over: leading space, a sign and `0x` are allowed, and
      a minus sign negates modulo 2^64. */
  function ParseSize(text: string): Option<nat> {
    var t := SkipSpaces(text);
    var digits := WithoutPrefix(Unsigned(t));
    if digits == "" || !AllHex(digits) || JsonStrings.HexNumber(digits) >= TWO_64 then None
    else if t[0] == '-' then Some((TWO_64 - JsonStrings.HexNumber(digits)) % TWO_64)
    else Some(JsonStrings.HexNumber(digits))
  }

  /** The size line up to its extensions. */
  function SizeText(line: string): string {
    var extension := Find(line, ";");
    if extension.Some? then line[..extension.value] else line
  }

  // ---------------------------------------------------------------- the decoder as a value

  datatype Decoder = Decoder(chunked: bool, pending: string, size: Option<nat>, complete: bool)

  function DecoderFor(chunked: bool): Decoder {
    Decoder(chunked, "", None, false)
  }

  /** `OutOfRange` is the exception of a comparison that starts past the end of the buffer. */
  datatype DecodeError = BadChunkSize | BadTerminator | OutOfRange

  datatype Move = More | Fail(error: DecodeError) | Advance(next: Decoder, output: string)

  const CRLF := "\r\n"

  /** One size line or one chunk, if it is all there. Sizes are 64-bit, so that of the two largest the
      sum with 2 wraps around. */
  function Step(d: Decoder): (m: Move)
    ensures m.Advance? ==> |m.next.pending| < |d.pending| && m.next.chunked == d.chunked
  {
    if d.complete then More
    else if d.size == None then
      var end := Find(d.pending, CRLF);
      if end == None then More
      else
        var size := ParseSize(SizeText(d.pending[..end.value]));
        if size == None then Fail(BadChunkSize)
        else Advance(d.(pending := d.pending[end.value + 2..], size := size, complete := size == Some(0)), "")
    else
      var n := d.size.value;
      if |d.pending| < (n + 2) % TWO_64 then More
      else if n + 2 >= TWO_64 then Fail(OutOfRange)
      else if d.pending[n..n + 2] != CRLF then Fail(BadTerminator)
      else Advance(d.(pending := d.pending[n + 2..], size := None), d.pending[..n])
  }

  datatype Fed = Fed(decoder: Decoder, output: string, error: Option<DecodeError>)

  /** One move of a decoder, as a function. */
  type Stepper = Decoder -> Move

  ghost predicate Shrinks(step: Stepper) {
    forall d | step(d).Advance? :: |step(d).next.pending| < |d.pending| && step(d).next.chunked == d.chunked
  }

  /** All the moves that can be made. */
  function DrainBy(step: Stepper, d: Decoder): (r: Fed)
    requires Shrinks(step)
    ensures r.decoder.chunked == d.chunked
    decreases |d.pending|
  {
    match step(d)
    case More => Fed(d, "", None)
    case Fail(e) => Fed(d, "", Some(e))
    case Advance(next, output) =>
      var r := DrainBy(step, next);
      r.(output := output + r.output)
  }

  function Steps(): (step: Stepper)
    ensures Shrinks(step)
  {
    (d: Decoder) => Step(d)
  }

  function Drain(d: Decoder): (r: Fed)
    ensures r.decoder.chunked == d.chunked
  {
    DrainBy(Steps(), d)
  }

  function FedWith(d: Decoder, input: string): Fed {
    if d.chunked then Drain(d.(pending := d.pending + input)) else Fed(d, input, None)
  }

  /** What one size line or chunk does to the object. */
  datatype Progress = Blocked | Broken(error: DecodeError) | Moved(output: string)

  predicate Follows(before: Decoder, p: Progress, after: Decoder) {
    match p
    case Blocked => Step(before).More? && after == before
    case Broken(e) => Step(before) == Fail(e)
    case Moved(output) => Step(before) == Advance(after, output)
  }

  lemma {:induction false} DrainFollows(before: Decoder, p: Progress, after: Decoder)
    requires Follows(before, p, after)
    ensures p.Blocked? ==> Drain(before) == Fed(before, "", None)
    ensures p.Broken? ==> Drain(before) == Fed(before, "", Some(p.error))
    ensures p.Moved? ==> Drain(before) == Drain(after).(output := p.output + Drain(after).output)
  {
  }

  // ---------------------------------------------------------------- the object

  class HttpBodyDecoder {
    const chunked: bool
    var pending: string
    var chunkSize: Option<nat>
    var complete: bool

    function View(): Decoder
      reads this
    {
      Decoder(chunked, pending, chunkSize, complete)
    }

    constructor (chunked: bool)
      ensures View() == DecoderFor(chunked)
    {
      this.chunked := chunked;
      pending, chunkSize, complete := "", None, false;
    }

    method TakeSize() returns (p: Progress)
      requires !complete && chunkSize == None
      modifies this
      ensures Follows(old(View()), p, View())
      ensures p.Moved? ==> chunkSize.Some? && p.output == ""
    {
      var lineEnd := Find(pending, CRLF);
      if lineEnd == None {
        return Blocked;
      }
      var size := ParseSize(SizeText(pending[..lineEnd.value]));
      if size == None {
        return Broken(BadChunkSize);
      }
      chunkSize := size;
      pending := pending[lineEnd.value + 2..];
      if chunkSize.value == 0 {
        complete := true;
      }
      return Moved("");
    }

    method TakeChunk() returns (p: Progress)
      requires !complete && chunkSize.Some?
      modifies this
      ensures Follows(old(View()), p, View())
    {
      var n := chunkSize.value;
      if |pending| < (n + 2) % TWO_64 {
        return Blocked;
      }
      if n + 2 >= TWO_64 {
        return Broken(OutOfRange);
      }
      if pending[n..n + 2] != CRLF {
        return Broken(BadTerminator);
      }
      p := Moved(pending[..n]);
      pending := pending[n + 2..];
      chunkSize := None;
    }

    /** One pass of the loop: a size line if one is due, and a chunk. */
    method TakeOne() returns (more: bool, output: string, error: Option<DecodeError>)
      requires !complete
      modifies this
      ensures more ==> |pending| < |old(pending)| && error == None
      ensures Drain(old(View())).error == if more then Drain(View()).error else error
      ensures error == None ==>
                Drain(old(View())) == if more then Drain(View()).(output := output + Drain(View()).output)
                                      else Fed(View(), output, None)
    {
      if chunkSize == None {
        var p := TakeSize();
        DrainFollows(old(View()), p, View());
        if p.Blocked? {
          return false, "", None;
        }
        if p.Broken? {
          return false, "", Some(p.error);
        }
        if complete {
          return false, "", None;
        }
      }
      ghost var before := View();
      var p := TakeChunk();
      DrainFollows(before, p, View());
      if p.Blocked? {
        return false, "", None;
      }
      if p.Broken? {
        return false, "", Some(p.error);
      }
      return true, p.output, None;
    }

    /** After an error the decoder is not used again, and its state does not matter. */
    method Feed(input: string) returns (decoded: string, error: Option<DecodeError>)
      modifies this
      ensures var r := FedWith(old(View()), input);
        && error == r.error
        && (error == None ==> View() == r.decoder && decoded == r.output)
    {
      if !chunked {
        return input, None;
      }
      decoded, error := "", None;
      pending := pending + input;
      ghost var all := Drain(View());
      var more := true;
      while more && !complete
        invariant more ==> error == None
        invariant var r := Drain(View());
          && all.error == (if more then r.error else error)
          && (error == None ==> all.decoder == if more then r.decoder else View())
          && (error == None ==> all.output == if more then decoded + r.output else decoded)
        decreases if more then |pending| + 1 else 0
      {
        var output;
        more, output, error := TakeOne();
        decoded := decoded + output;
      }
    }
  }

  // ---------------------------------------------------------------- how the bytes are cut

  function With(d: Decoder, more: string): Decoder {
    d.(pending := d.pending + more)
  }

  /** More bytes behind do not change a move that can be made. */
  ghost predicate Stays(step: Stepper, d: Decoder, more: string) {
    && (step(d).Fail? ==> step(With(d, more)) == step(d))
    && (step(d).Advance? ==> step(With(d, more)) == Advance(With(step(d).next, more), step(d).output))
  }

  lemma {:induction false} SizeStays(d: Decoder, more: string)
    requires !d.complete && d.size == None
    ensures Stays(Steps(), d, more)
  {
    var p, all := d.pending, d.pending + more;
    if Find(p, CRLF).Some? {
      var end := Find(p, CRLF).value;
      FindStays(p, more, CRLF);
      assert all[..end] == p[..end] && all[end + 2..] == p[end + 2..] + more;
    }
  }

  lemma {:induction false} DataStays(d: Decoder, more: string)
    requires !d.complete && d.size.Some?
    ensures Stays(Steps(), d, more)
  {
    var p, all, n := d.pending, d.pending + more, d.size.value;
    if n + 2 <= |p| {
      assert all[..n] == p[..n] && all[n..n + 2] == p[n..n + 2] && all[n + 2..] == p[n + 2..] + more;
    }
  }

  lemma {:induction false} StepStays(d: Decoder, more: string)
    ensures Stays(Steps(), d, more)
  {
    if d.complete {
    } else if d.size == None {
      SizeStays(d, more);
    } else {
      DataStays(d, more);
    }
  }

  /** Two reads decode to what one read of both decodes to; an error in the first read remains. */
  ghost predicate SplitsAt(step: Stepper, d: Decoder, more: string)
    requires Shrinks(step)
  {
    var first, whole := DrainBy(step, d), DrainBy(step, With(d, more));
    var second := DrainBy(step, With(first.decoder, more));
    if first.error.Some? then whole.error == first.error && whole.output == first.output
    else whole == second.(output := first.output + second.output)
  }

  lemma {:induction false} DrainBySplits(step: Stepper, d: Decoder, more: string)
    requires Shrinks(step) && forall e :: Stays(step, e, more)
    ensures SplitsAt(step, d, more)
    decreases |d.pending|
  {
    assert Stays(step, d, more);
    match step(d)
    case More =>
    case Fail(_) =>
    case Advance(next, output) =>
      DrainBySplits(step, next, more);
      var first := DrainBy(step, next);
      assert output + (first.output + DrainBy(step, With(first.decoder, more)).output)
          == (output + first.output) + DrainBy(step, With(first.decoder, more)).output;
  }

  lemma {:induction false} DrainSplit(d: Decoder, more: string)
    ensures SplitsAt(Steps(), d, more)
  {
    forall e ensures Stays(Steps(), e, more) {
      StepStays(e, more);
    }
    DrainBySplits(Steps(), d, more);
  }

  lemma {:induction false} FeedSplit(d: Decoder, a: string, b: string)
    ensures FedWith(d, a).error.Some? ==>
              FedWith(d, a + b).error == FedWith(d, a).error && FedWith(d, a + b).output == FedWith(d, a).output
    ensures var first := FedWith(d, a);
      var second := FedWith(first.decoder, b);
      first.error == None ==> FedWith(d, a + b) == second.(output := first.output + second.output)
  {
    DrainSplit(d.(pending := d.pending + a), b);
    assert d.pending + (a + b) == (d.pending + a) + b;
  }

  // ---------------------------------------------------------------- where an error strikes

  lemma {:induction false} DrainedIsStuck(step: Stepper, d: Decoder)
    requires Shrinks(step)
    ensures var r := DrainBy(step, d);
      r.error == None ==> step(r.decoder).More?
    decreases |d.pending|
  {
    if step(d).Advance? {
      DrainedIsStuck(step, step(d).next);
    }
  }

  /** The byte that brings an error brings no output. */
  lemma {:induction false} ErrorIsSilent(d: Decoder, c: char)
    requires Step(d).More? && Drain(With(d, [c])).error.Some?
    ensures Drain(With(d, [c])).output == ""
  {
    var e := With(d, [c]);
    if Step(e).Advance? {
      var next := Step(e).next;
      assert next.pending == "" by {
        if d.size == None {
          FindMeans(e.pending, CRLF);
          if Find(e.pending, CRLF).value + 2 <= |d.pending| {
            EarlierFind(d.pending, [c]);
          }
        }
      }
      assert Find("", CRLF) == None;
      assert !Step(next).Advance?;
      TwoMoves(Steps(), e);
    }
  }

  lemma {:induction false} EarlierFind(s: string, t: string)
    requires Find(s + t, CRLF).Some? && Find(s + t, CRLF).value + 2 <= |s|
    ensures Find(s, CRLF) == Find(s + t, CRLF)
  {
    var i := Find(s + t, CRLF).value;
    FindMeans(s + t, CRLF);
    assert (s + t)[i..i + 2] == s[i..i + 2];
    forall k: nat | k < i ensures !MatchesAt(s, CRLF, k) {
      assert !MatchesAt(s + t, CRLF, k) && (s + t)[k..k + 2] == s[k..k + 2];
    }
    FindIs(s, CRLF, i);
  }

  lemma {:induction false} TwoMoves(step: Stepper, d: Decoder)
    requires Shrinks(step) && step(d).Advance? && !step(step(d).next).Advance?
    ensures DrainBy(step, d).output == step(d).output + ""
    ensures step(step(d).next).More? ==> DrainBy(step, d).error == None
  {
    var next := step(d).next;
    assert DrainBy(step, next).output == "";
  }

  lemma {:induction false} LastByte(d: Decoder, init: string, c: char)
    requires FedWith(d, init + [c]).error.Some?
    ensures FedWith(d, init + [c]).output == FedWith(d, init).output
  {
    FeedSplit(d, init, [c]);
    var first := FedWith(d, init);
    if first.error == None {
      DrainedIsStuck(Steps(), With(d, init));
      ErrorIsSilent(first.decoder, c);
      assert first.output + "" == first.output;
    }
  }

  ghost predicate SilentErrors(feed: string -> Fed) {
    && feed("").error == None
    && forall init, c | feed(init + [c]).error.Some? :: feed(init + [c]).output == feed(init).output
  }

  lemma {:induction false} GoodPartOf(feed: string -> Fed, body: string) returns (n: nat)
    requires SilentErrors(feed)
    ensures n <= |body| && feed(body[..n]).error == None && feed(body[..n]).output == feed(body).output
    decreases |body|
  {
    n := |body|;
    assert body[..n] == body;
    if feed(body).error.Some? {
      var init, c := body[..n - 1], body[n - 1];
      assert init + [c] == body;
      n := GoodPartOf(feed, init);
      assert init[..n] == body[..n];
    }
  }

  /** Some first part of a body is free of errors and has all the output of the whole. */
  lemma {:induction false} GoodPart(chunked: bool, body: string) returns (n: nat)
    ensures n <= |body|
    ensures var part := FedWith(DecoderFor(chunked), body[..n]);
      part.error == None && part.output == FedWith(DecoderFor(chunked), body).output
  {
    var d := DecoderFor(chunked);
    var feed := (bytes: string) => FedWith(d, bytes);
    forall init, c | feed(init + [c]).error.Some? ensures feed(init + [c]).output == feed(init).output {
      LastByte(d, init, c);
    }
    assert "" + "" == "" && Find("", CRLF) == None;
    n := GoodPartOf(feed, body);
  }

  // ---------------------------------------------------------------- which encodings decode

  /** A chunk as section 7.1 of RFC 9112 writes it: size in hexadecimal, optional blanks before the
      extensions (section 7.1.1), extensions, data. Blanks with no extension behind them are more than
      the grammar allows. */
  datatype Chunk = Chunk(digits: string, blanks: string, extension: string, data: string)

  predicate IsChunk(c: Chunk) {
    && c.digits != "" && AllHex(c.digits) && JsonStrings.HexNumber(c.digits) == |c.data|
    && |c.data| + 2 < TWO_64
    && (forall b | b in c.blanks :: b == ' ' || b == '\t')
    && (c.extension != "" ==> c.extension[0] == ';') && '\r' !in c.extension
  }

  /** No blanks behind the size. */
  predicate IsPlain(c: Chunk) {
    c.blanks == ""
  }

  function SizeLine(c: Chunk): string {
    c.digits + c.blanks + c.extension
  }

  function Encode(c: Chunk): string {
    SizeLine(c) + CRLF + c.data + CRLF
  }

  /** The chunks, the last chunk of size 0, and whatever follows it. */
  function EncodeAll(chunks: seq<Chunk>, last: Chunk, trailer: string): string {
    if chunks == [] then SizeLine(last) + CRLF + trailer else Encode(chunks[0]) + EncodeAll(chunks[1..], last, trailer)
  }

  function Body(chunks: seq<Chunk>): string {
    if chunks == [] then "" else chunks[0].data + Body(chunks[1..])
  }

  lemma {:induction false} HexIsPlain(digits: string)
    requires digits != "" && AllHex(digits)
    ensures ParseSize(digits) == if JsonStrings.HexNumber(digits) < TWO_64 then Some(JsonStrings.HexNumber(digits)) else None
  {
    assert JsonStrings.IsHex(digits[0]);
    if |digits| > 2 {
      assert JsonStrings.IsHex(digits[1]);
    }
  }

  lemma {:induction false} SizeTextOf(c: Chunk)
    requires IsChunk(c)
    ensures SizeText(SizeLine(c)) == c.digits + c.blanks
  {
    var size, line := c.digits + c.blanks, SizeLine(c);
    forall k: nat | k < |size| ensures !MatchesAt(line, ";", k) {
      assert line[k] == size[k] && line[k..k + 1] == [line[k]];
      SizeChar(c, k);
    }
    if c.extension == "" {
      assert line == size;
      FindNone(line, ";");
    } else {
      assert line[|size|..|size| + 1] == [c.extension[0]] == ";";
      FindIs(line, ";", |size|);
    }
  }

  lemma {:induction false} SizeChar(c: Chunk, k: nat)
    requires IsChunk(c) && k < |c.digits + c.blanks|
    ensures (c.digits + c.blanks)[k] != ';' && (c.digits + c.blanks)[k] != '\r'
  {
    if k < |c.digits| {
      assert JsonStrings.IsHex(c.digits[k]);
    } else {
      assert c.blanks[k - |c.digits|] in c.blanks;
    }
  }

  /** Blanks behind the digits are left over. */
  lemma {:induction false} BlanksAreLeftOver(digits: string, blanks: string)
    requires digits != "" && AllHex(digits) && blanks != ""
    requires forall b | b in blanks :: b == ' ' || b == '\t'
    ensures ParseSize(digits + blanks) == None
  {
    var t := digits + blanks;
    assert JsonStrings.IsHex(digits[0]);
    assert WithoutPrefix(t) == t by {
      if |digits| > 1 {
        assert t[1] == digits[1] && JsonStrings.IsHex(digits[1]);
      } else {
        assert t[1] == blanks[0] && blanks[0] in blanks;
      }
    }
    assert t[|t| - 1] == blanks[|blanks| - 1] && blanks[|blanks| - 1] in blanks;
    assert !JsonStrings.IsHex(t[|t| - 1]);
  }

  /** A size line is accepted if and only if it has no blanks behind the size. */
  lemma {:induction false} SizeAcceptedIff(c: Chunk)
    requires IsChunk(c)
    ensures ParseSize(SizeText(SizeLine(c))) == if IsPlain(c) then Some(|c.data|) else None
  {
    SizeTextOf(c);
    if IsPlain(c) {
      assert c.digits + c.blanks == c.digits;
      HexIsPlain(c.digits);
    } else {
      BlanksAreLeftOver(c.digits, c.blanks);
    }
  }

  lemma {:induction false} LineEnds(c: Chunk, rest: string)
    requires IsChunk(c)
    ensures Find(SizeLine(c) + CRLF + rest, CRLF) == Some(|SizeLine(c)|)
  {
    var line := SizeLine(c);
    var all := line + CRLF + rest;
    forall k: nat | k < |line| ensures !MatchesAt(all, CRLF, k) {
      assert all[k] == line[k] != '\r' by {
        var size := c.digits + c.blanks;
        if k < |size| {
          assert line[k] == size[k];
          SizeChar(c, k);
        } else {
          assert line[k] == c.extension[k - |size|];
        }
      }
      if k + 2 <= |all| {
        assert all[k..k + 2][0] == all[k];
      }
    }
    assert all[|line|..|line| + 2] == CRLF;
    FindIs(all, CRLF, |line|);
  }

  /** The first step reads the size line of a chunk, or fails on its blanks. */
  lemma {:induction false} SizeStep(c: Chunk, rest: string)
    requires IsChunk(c)
    ensures var d := Decoder(true, SizeLine(c) + CRLF + rest, None, false);
      Step(d) == if IsPlain(c) then Advance(Decoder(true, rest, Some(|c.data|), c.data == ""), "") else Fail(BadChunkSize)
  {
    var line := SizeLine(c);
    var all := line + CRLF + rest;
    assert all[..|line|] == line && all[|line| + 2..] == rest;
    LineEnds(c, rest);
    SizeAcceptedIff(c);
    SizeLineStep(all, |line|);
  }

  lemma {:induction false} SizeLineStep(pending: string, end: nat)
    requires end + 2 <= |pending| && Find(pending, CRLF) == Some(end)
    ensures var size := ParseSize(SizeText(pending[..end]));
      Step(Decoder(true, pending, None, false))
      == if size == None then Fail(BadChunkSize)
         else Advance(Decoder(true, pending[end + 2..], size, size == Some(0)), "")
  {
  }

  lemma {:induction false} DrainAdvance(d: Decoder, next: Decoder, output: string)
    requires Step(d) == Advance(next, output)
    ensures Drain(d) == Drain(next).(output := output + Drain(next).output)
  {
  }

  /** The second step takes its data. */
  lemma {:induction false} DataStep(data: string, rest: string)
    requires |data| + 2 < TWO_64
    ensures var d := Decoder(true, data + CRLF + rest, Some(|data|), false);
      Step(d) == Advance(Decoder(true, rest, None, false), data)
  {
    var all := data + CRLF + rest;
    assert all[..|data|] == data && all[|data|..|data| + 2] == CRLF && all[|data| + 2..] == rest;
  }

  lemma {:induction false} DrainChunk(c: Chunk, rest: string)
    requires IsChunk(c) && IsPlain(c) && c.data != ""
    ensures var r := Drain(Decoder(true, rest, None, false));
      Drain(Decoder(true, SizeLine(c) + CRLF + (c.data + CRLF + rest), None, false))
      == r.(output := c.data + r.output)
  {
    var r := Drain(Decoder(true, rest, None, false));
    var sized := Decoder(true, c.data + CRLF + rest, Some(|c.data|), false);
    SizeStep(c, c.data + CRLF + rest);
    DrainAdvance(Decoder(true, SizeLine(c) + CRLF + (c.data + CRLF + rest), None, false), sized, "");
    DataStep(c.data, rest);
    DrainAdvance(sized, Decoder(true, rest, None, false), c.data);
    assert "" + (c.data + r.output) == c.data + r.output;
  }

  /** A chunk in front adds its data, or is an error. */
  lemma {:induction false} FeedChunk(c: Chunk, rest: string)
    requires IsChunk(c) && c.data != ""
    ensures var r := FedWith(DecoderFor(true), rest);
      var whole := FedWith(DecoderFor(true), Encode(c) + rest);
      if IsPlain(c) then whole == r.(output := c.data + r.output)
      else whole.error == Some(BadChunkSize) && whole.output == ""
  {
    EncodeThen(c, rest);
    FreshFeed(Encode(c) + rest);
    FreshFeed(rest);
    if IsPlain(c) {
      DrainChunk(c, rest);
    } else {
      SizeStep(c, c.data + CRLF + rest);
      DrainsAtOnce(SizeLine(c) + CRLF + (c.data + CRLF + rest), BadChunkSize);
    }
  }

  lemma {:induction false} EncodeThen(c: Chunk, rest: string)
    ensures Encode(c) + rest == SizeLine(c) + CRLF + (c.data + CRLF + rest)
  {
  }

  lemma {:induction false} FreshFeed(bytes: string)
    ensures FedWith(DecoderFor(true), bytes) == Drain(Decoder(true, bytes, None, false))
  {
    assert "" + bytes == bytes;
  }

  lemma {:induction false} DrainsAtOnce(bytes: string, error: DecodeError)
    requires Step(Decoder(true, bytes, None, false)) == Fail(error)
    ensures Drain(Decoder(true, bytes, None, false)) == Fed(Decoder(true, bytes, None, false), "", Some(error))
  {
  }

  lemma {:induction false} FeedLast(last: Chunk, trailer: string)
    requires IsChunk(last) && last.data == ""
    ensures var r := FedWith(DecoderFor(true), SizeLine(last) + CRLF + trailer);
      && r.output == ""
      && if IsPlain(last) then r.error == None && r.decoder.complete else r.error == Some(BadChunkSize)
  {
    var all := SizeLine(last) + CRLF + trailer;
    assert "" + all == all;
    SizeStep(last, trailer);
    assert Drain(Decoder(true, trailer, Some(0), true)) == Fed(Decoder(true, trailer, Some(0), true), "", None);
  }

  /** Behind its data a chunk is ended by return and newline, and by nothing else. */
  lemma {:induction false} BadTerminatorFails(c: Chunk, end: string, rest: string)
    requires IsChunk(c) && IsPlain(c) && c.data != "" && |end| == 2 && end != CRLF
    ensures FedWith(DecoderFor(true), SizeLine(c) + CRLF + (c.data + (end + rest))).error == Some(BadTerminator)
  {
    var data := c.data + (end + rest);
    var bytes := SizeLine(c) + CRLF + data;
    assert "" + bytes == bytes;
    SizeStep(c, data);
    BadEndStep(c.data, end, rest);
    DrainsToError(Decoder(true, bytes, None, false), Decoder(true, data, Some(|c.data|), false), BadTerminator);
  }

  lemma {:induction false} BadEndStep(data: string, end: string, rest: string)
    requires |end| == 2 && end != CRLF && |data| + 2 < TWO_64
    ensures Step(Decoder(true, data + (end + rest), Some(|data|), false)) == Fail(BadTerminator)
  {
    var all := data + (end + rest);
    assert all[|data|..|data| + 2] == end;
  }

  lemma {:induction false} DrainsToError(d: Decoder, next: Decoder, error: DecodeError)
    requires Step(d) == Advance(next, "") && Step(next) == Fail(error)
    ensures Drain(d).error == Some(error)
  {
    DrainAdvance(d, next, "");
  }

  /** A size that is no number in 64 bits is refused. */
  lemma {:induction false} BadSizeFails(line: string, rest: string)
    requires '\r' !in line && ParseSize(SizeText(line)) == None
    ensures FedWith(DecoderFor(true), line + CRLF + rest).error == Some(BadChunkSize)
  {
    var all := line + CRLF + rest;
    assert "" + all == all;
    forall k: nat | k < |line| ensures !MatchesAt(all, CRLF, k) {
      assert all[k] == line[k];
      if k + 2 <= |all| {
        assert all[k..k + 2][0] == all[k];
      }
    }
    assert all[|line|..|line| + 2] == CRLF && all[..|line|] == line;
    FindIs(all, CRLF, |line|);
    SizeLineStep(all, |line|);
  }

  /** Which size texts are no numbers: the empty one, one without a digit in front, one with anything behind its
      digits, and one of 2^64 or more. */
  lemma {:induction false} PlainSizeExactly(digits: string, more: string)
    requires AllHex(digits) && (more != "" ==> !JsonStrings.IsHex(more[0]))
    requires digits != "" && digits != "0"
    ensures ParseSize(digits + more)
         == if more == "" && JsonStrings.HexNumber(digits) < 0x1_0000_0000_0000_0000
            then Some(JsonStrings.HexNumber(digits)) else None
  {
    var t := digits + more;
    assert t[0] == digits[0] && JsonStrings.IsHex(digits[0]);
    if |digits| > 1 {
      assert t[1] == digits[1] && JsonStrings.IsHex(digits[1]);
    }
    if more == "" {
      assert t == digits;
      HexIsPlain(digits);
    } else {
      assert t[|digits|] == more[0];
      assert |digits| == 1 ==> digits == [digits[0]];
      assert WithoutPrefix(t) == t;
    }
  }

  predicate AllPlain(chunks: seq<Chunk>) {
    forall k | 0 <= k < |chunks| :: IsPlain(chunks[k])
  }

  /** The chunks before the first one with blanks. */
  function PlainPart(chunks: seq<Chunk>): seq<Chunk> {
    if chunks == [] || !IsPlain(chunks[0]) then [] else [chunks[0]] + PlainPart(chunks[1..])
  }

  /** A chunked encoding of a body decodes if and only if no size in it has blanks behind it. It then
      gives the body back; otherwise the error comes behind the chunks that have none. */
  lemma {:induction false} DecodesEncoding(chunks: seq<Chunk>, last: Chunk, trailer: string)
    requires forall k | 0 <= k < |chunks| :: IsChunk(chunks[k]) && chunks[k].data != ""
    requires IsChunk(last) && last.data == ""
    ensures var r := FedWith(DecoderFor(true), EncodeAll(chunks, last, trailer));
      if AllPlain(chunks) && IsPlain(last) then r.error == None && r.output == Body(chunks) && r.decoder.complete
      else r.error == Some(BadChunkSize) && r.output == Body(PlainPart(chunks))
    decreases |chunks|
  {
    if chunks == [] {
      FeedLast(last, trailer);
    } else {
      FeedChunk(chunks[0], EncodeAll(chunks[1..], last, trailer));
      DecodesEncoding(chunks[1..], last, trailer);
      PlainSplit(chunks);
    }
  }

  lemma {:induction false} PlainSplit(chunks: seq<Chunk>)
    requires chunks != []
    ensures AllPlain(chunks) <==> IsPlain(chunks[0]) && AllPlain(chunks[1..])
    ensures IsPlain(chunks[0]) ==> Body(PlainPart(chunks)) == chunks[0].data + Body(PlainPart(chunks[1..]))
  {
    if IsPlain(chunks[0]) && AllPlain(chunks[1..]) {
      forall k | 0 <= k < |chunks| ensures IsPlain(chunks[k]) {
        assert k > 0 ==> chunks[k] == chunks[1..][k - 1];
      }
    }
    assert ([chunks[0]] + PlainPart(chunks[1..]))[1..] == PlainPart(chunks[1..]);
  }

  /** A chunk that section 7.1.1 allows and the decoder refuses. */
  lemma {:induction false} BlankIsRefused(rest: string)
    ensures IsChunk(Chunk("5", " ", ";x", "hello"))
    ensures FedWith(DecoderFor(true), "5 ;x\r\nhello\r\n" + rest).error == Some(BadChunkSize)
  {
    var c := Chunk("5", " ", ";x", "hello");
    assert "5"[..0] == "" && JsonStrings.HexNumber("") == 0 && JsonStrings.HexNumber("5") == 5;
    assert "5 ;x\r\nhello\r\n" + rest == Encode(c) + rest;
    FeedChunk(c, rest);
  }

  /** `body` is the coding of `decoded`: itself, or a chunked encoding without blanks. */
  ghost predicate IsCodingOf(chunked: bool, body: string, decoded: string) {
    if !chunked then body == decoded
    else
      exists chunks: seq<Chunk>, last: Chunk, trailer: string ::
        IsEncoding(chunks, last, trailer, body) && decoded == Body(chunks)
  }

  predicate IsEncoding(chunks: seq<Chunk>, last: Chunk, trailer: string, body: string) {
    && (forall k | 0 <= k < |chunks| :: IsChunk(chunks[k]) && chunks[k].data != "")
    && IsChunk(last) && last.data == "" && AllPlain(chunks) && IsPlain(last)
    && body == EncodeAll(chunks, last, trailer)
  }

  /** A coded body decodes to what it codes; one that is not chunked is copied. */
  lemma {:induction false} DecodesCoding(chunked: bool, body: string, decoded: string)
    requires IsCodingOf(chunked, body, decoded)
    ensures var r := FedWith(DecoderFor(chunked), body);
      r.error == None && r.output == decoded
  {
    if chunked {
      var chunks: seq<Chunk>, last: Chunk, trailer: string :|
        IsEncoding(chunks, last, trailer, body) && decoded == Body(chunks);
      DecodesEncoding(chunks, last, trailer);
    }
  }

  // ---------------------------------------------------------------- any cut of any encoding

  /** Reads one after the other, until one fails. */
  function FedAll(d: Decoder, inputs: seq<string>): Fed {
    if inputs == [] then Fed(d, "", None)
    else
      var before := FedAll(d, inputs[..|inputs| - 1]);
      if before.error.Some? then before
      else
        var r := FedWith(before.decoder, inputs[|inputs| - 1]);
        r.(output := before.output + r.output)
  }

  function Joined(inputs: seq<string>): string {
    if inputs == [] then "" else Joined(inputs[..|inputs| - 1]) + inputs[|inputs| - 1]
  }

  /** However the bytes are cut, the decoder ends in the same state with the same output, or fails
      with the same error. */
  lemma {:induction false} CutsDoNotMatter(chunked: bool, inputs: seq<string>)
    ensures var whole, cut := FedWith(DecoderFor(chunked), Joined(inputs)), FedAll(DecoderFor(chunked), inputs);
      cut.error == whole.error && (cut.error == None ==> cut == whole)
  {
    var d := DecoderFor(chunked);
    if inputs != [] {
      var init, last := inputs[..|inputs| - 1], inputs[|inputs| - 1];
      CutsDoNotMatter(chunked, init);
      FeedSplit(d, Joined(init), last);
    }
  }

  // ---------------------------------------------------------------- sizes that no grammar has

  lemma {:induction false} SpacesSkipped(spaces: string, t: string)
    requires forall k | 0 <= k < |spaces| :: IsSpace(spaces[k])
    requires t != "" && !IsSpace(t[0])
    ensures SkipSpaces(spaces + t) == t
    decreases |spaces|
  {
    if spaces == "" {
      assert spaces + t == t;
    } else {
      assert (spaces + t)[1..] == spaces[1..] + t;
      SpacesSkipped(spaces[1..], t);
    }
  }

  lemma {:induction false} DigitsHaveNoPrefix(digits: string)
    requires digits != "" && AllHex(digits)
    ensures WithoutPrefix(digits) == digits && Unsigned(digits) == digits && !IsSpace(digits[0])
  {
    assert JsonStrings.IsHex(digits[0]);
    if |digits| > 2 {
      assert JsonStrings.IsHex(digits[1]);
    }
  }

  /** `std::stoull` skips spaces, takes a sign, of which a minus negates modulo 2^64, and takes `0x`. */
  lemma {:induction false} OddSizes(spaces: string, digits: string)
    requires forall k | 0 <= k < |spaces| :: IsSpace(spaces[k])
    requires digits != "" && AllHex(digits) && JsonStrings.HexNumber(digits) < 0x1_0000_0000_0000_0000
    ensures var n := JsonStrings.HexNumber(digits);
      && ParseSize(spaces + digits) == Some(n)
      && ParseSize(spaces + ("+" + digits)) == Some(n)
      && ParseSize(spaces + ("-" + digits)) == Some(if n == 0 then 0 else 0x1_0000_0000_0000_0000 - n)
      && ParseSize(spaces + ("0x" + digits)) == Some(n)
  {
    DigitsHaveNoPrefix(digits);
    SpacesSkipped(spaces, digits);
    SpacesSkipped(spaces, "+" + digits);
    SpacesSkipped(spaces, "-" + digits);
    SpacesSkipped(spaces, "0x" + digits);
    assert ("+" + digits)[1..] == digits && ("-" + digits)[1..] == digits;
    var hex := "0x" + digits;
    assert hex[2] == digits[0] && JsonStrings.IsHex(digits[0]);
    assert hex[2..] == digits;
  }

  /** The two largest sizes wrap around when 2 is added, and the exception of the comparison behind the end of
      the buffer is the error. */
  lemma {:induction false} HugeSizeFails(pending: string)
    ensures |pending| < 0xFFFF_FFFF_FFFF_FFFE ==>
              Step(Decoder(true, pending, Some(0xFFFF_FFFF_FFFF_FFFE), false)) == Fail(OutOfRange)
    ensures pending != "" ==> Step(Decoder(true, pending, Some(0xFFFF_FFFF_FFFF_FFFF), false)) == Fail(OutOfRange)
    ensures Step(Decoder(true, "", Some(0xFFFF_FFFF_FFFF_FFFF), false)) == More
  {
  }
}
