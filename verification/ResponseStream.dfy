/** The receive loop of `GenerateResponse` and `ConsumeSseLines`: bytes from the socket to text. */
module ResponseStreams {
  import opened Options
  import opened Texts
  import opened HttpBodyDecoders
  import JsonFields
  import JsonStrings

  // ---------------------------------------------------------------- server-sent events

  /** What the lines so far have said. */
  datatype Seen = Seen(text: string, receivedContent: bool, receivedReasoning: bool, finished: bool, done: bool)

  const NOTHING := Seen("", false, false, false, false)

  datatype StreamError = NotJson | BadField(error: JsonFields.FieldError)

  datatype LineResult = Next(seen: Seen) | Stop(seen: Seen) | Bad(error: StreamError)

  function WithoutReturn(line: string): string {
    if line != "" && line[|line| - 1] == '\r' then line[..|line| - 1] else line
  }

  function WithoutBlanks(s: string): string {
    if s != "" && s[0] == ' ' then WithoutBlanks(s[1..]) else s
  }

  const DATA := "data:"
  const DONE := "[DONE]"

  predicate HasText(f: JsonFields.Field) {
    f.Text? && f.text != ""
  }

  /** What the three fields of an event say, content first. */
  function OnFields(s: Seen, content: JsonFields.Field, reasoning: JsonFields.Field, finish: JsonFields.Field): LineResult {
    if content.Malformed? then Bad(BadField(content.error))
    else if reasoning.Malformed? then Bad(BadField(reasoning.error))
    else if finish.Malformed? then Bad(BadField(finish.error))
    else Next(s.(text := if HasText(content) then s.text + content.text else s.text,
                 receivedContent := s.receivedContent || HasText(content),
                 receivedReasoning := s.receivedReasoning || HasText(reasoning),
                 finished := s.finished || HasText(finish)))
  }

  function OnEvent(isJson: string -> bool, s: Seen, payload: string): LineResult {
    if !isJson(payload) then Bad(NotJson)
    else
      OnFields(s, JsonFields.Extracted(payload, "content"), JsonFields.Extracted(payload, "reasoning_content"),
               JsonFields.Extracted(payload, "finish_reason"))
  }

  function OnLine(isJson: string -> bool, s: Seen, line: string): LineResult {
    var t := WithoutReturn(line);
    if |t| < 5 || t[..5] != DATA then Next(s)
    else
      var payload := WithoutBlanks(t[5..]);
      if payload == DONE then Stop(s) else OnEvent(isJson, s, payload)
  }

  /** How a response is read. `statusOf` and `usesChunks` stand for the scans of the headers and
      `isJson` for JSON validation, which the model does not look into. */
  datatype Protocol = Protocol(
    statusOf: string -> Option<int>,
    usesChunks: string -> bool,
    isJson: string -> bool,
    onLine: (Seen, string) -> LineResult)

  /** The protocol of the chat endpoint. */
  function ChatProtocol(statusOf: string -> Option<int>, usesChunks: string -> bool, isJson: string -> bool): Protocol {
    Protocol(statusOf, usesChunks, isJson, (s, line) => OnLine(isJson, s, line))
  }

  datatype Stream = Stream(pending: string, seen: Seen)

  datatype LinesResult = Running(stream: Stream) | Ended(stream: Stream) | Wrong(error: StreamError)

  const NEWLINE := "\n"

  /** All complete lines, up to the end mark. */
  function Lines(p: Protocol, s: Stream): (r: LinesResult)
    decreases |s.pending|
  {
    var end := Find(s.pending, NEWLINE);
    if end == None then Running(s)
    else
      var rest := s.pending[end.value + 1..];
      match p.onLine(s.seen, s.pending[..end.value])
      case Next(seen) => Lines(p, Stream(rest, seen))
      case Stop(seen) => Ended(Stream(rest, seen.(done := true)))
      case Bad(e) => Wrong(e)
  }

  // ---------------------------------------------------------------- the receive loop

  /** `body` is there once the headers are; `undecoded` matters only before. */
  datatype Reader = Reader(undecoded: string, status: int, body: Option<Decoder>, decodedBody: string, stream: Stream)

  const START := Reader("", 0, None, "", Stream("", NOTHING))

  datatype ReadError = BadStatusLine | BadBody(decode: DecodeError) | BadStream(stream: StreamError)

  datatype Reading = Open(reader: Reader) | Finished(reader: Reader) | Failed(error: ReadError)

  predicate IsSuccess(status: int) {
    200 <= status < 300
  }

  const HEADER_END := "\r\n\r\n"

  function Streamed(p: Protocol, r: Reader, decoded: string): Reading {
    var q := r.(decodedBody := r.decodedBody + decoded);
    if !IsSuccess(r.status) then Open(q)
    else
      Placed(q, Lines(p, r.stream.(pending := r.stream.pending + decoded)))
  }

  function Placed(r: Reader, lines: LinesResult): Reading {
    match lines
    case Wrong(e) => Failed(BadStream(e))
    case Running(stream) => Open(r.(stream := stream))
    case Ended(stream) => Finished(r.(stream := stream))
  }

  function Decoded(p: Protocol, r: Reader, bytes: string): Reading
    requires r.body.Some?
  {
    var f := FedWith(r.body.value, bytes);
    if f.error.Some? then Failed(BadBody(f.error.value))
    else Streamed(p, r.(body := Some(f.decoder)), f.output)
  }

  /** One read from the socket. */
  function Received(p: Protocol, r: Reader, bytes: string): Reading {
    if r.body.Some? then Decoded(p, r, bytes) else Unheaded(p, r, r.undecoded + bytes)
  }

  /** Everything read so far, before the headers were complete. */
  function Unheaded(p: Protocol, r: Reader, all: string): Reading {
    var end := Find(all, HEADER_END);
    if end == None then Open(r.(undecoded := all)) else Headed(p, r, all[..end.value + 2], all[end.value + 4..])
  }

  /** The headers are complete, and the body begins with `rest`. */
  function Headed(p: Protocol, r: Reader, headers: string, rest: string): Reading {
    var status := p.statusOf(headers);
    if status == None then Failed(BadStatusLine)
    else
      var q := r.(undecoded := "", status := status.value, body := Some(DecoderFor(p.usesChunks(headers))));
      Decoded(p, q, rest)
  }

  /** What the caller gets. */
  datatype Answer =
    | Success(text: string)
    | Refused
    | NoHeaders
    | HttpError(body: string)
    | NoContent(reasoning: bool)
    | BadJson
    | NoMessage

  function AnswerFor(p: Protocol, reading: Reading): Answer {
    if reading.Failed? then Refused
    else
      var r := reading.reader;
      if r.body == None then NoHeaders
      else if !IsSuccess(r.status) then HttpError(r.decodedBody)
      else if r.stream.seen.done || r.stream.seen.finished then
        if r.stream.seen.text == "" then NoContent(r.stream.seen.receivedReasoning) else Success(r.stream.seen.text)
      else if !p.isJson(r.decodedBody) then BadJson
      else
        var content := JsonFields.Extracted(r.decodedBody, "content");
        if HasText(content) then Success(content.text) else NoMessage
  }

  // ---------------------------------------------------------------- the object

  class ResponseReader {
    const isJson: string -> bool
    const protocol: Protocol
    var undecodedResponse: string
    var statusCode: int
    var bodyDecoder: HttpBodyDecoder?
    var decodedBody: string
    var ssePending: string
    var responseText: string
    var receivedContent: bool
    var receivedReasoning: bool
    var streamFinished: bool
    var streamDone: bool

    function SeenView(): Seen
      reads this
    {
      Seen(responseText, receivedContent, receivedReasoning, streamFinished, streamDone)
    }

    function StreamView(): Stream
      reads this
    {
      Stream(ssePending, SeenView())
    }

    function View(): Reader
      reads this, bodyDecoder
    {
      Reader(if bodyDecoder == null then undecodedResponse else "", statusCode,
             if bodyDecoder == null then None else Some(bodyDecoder.View()), decodedBody, StreamView())
    }

    ghost predicate Valid()
      reads this
    {
      && !streamDone
      && forall s, line :: protocol.onLine(s, line) == OnLine(isJson, s, line)
    }

    constructor (statusOf: string -> Option<int>, usesChunks: string -> bool, isJson: string -> bool)
      ensures Valid() && View() == START && bodyDecoder == null
      ensures protocol == ChatProtocol(statusOf, usesChunks, isJson)
    {
      this.isJson := isJson;
      this.protocol := ChatProtocol(statusOf, usesChunks, isJson);
      undecodedResponse, statusCode, bodyDecoder, decodedBody := "", 0, null, "";
      ssePending, responseText := "", "";
      receivedContent, receivedReasoning, streamFinished, streamDone := false, false, false, false;
    }

    /** One event that is not the end mark. */
    method TakeEvent(payload: string) returns (error: Option<StreamError>)
      modifies this
      ensures bodyDecoder == old(bodyDecoder) && undecodedResponse == old(undecodedResponse)
      ensures statusCode == old(statusCode) && decodedBody == old(decodedBody)
      ensures ssePending == old(ssePending) && streamDone == old(streamDone)
      ensures OnEvent(isJson, old(SeenView()), payload) == if error.Some? then Bad(error.value) else Next(SeenView())
    {
      if !isJson(payload) {
        return Some(NotJson);
      }
      var content := JsonFields.ExtractStringField(payload, "content");
      var reasoning := JsonFields.ExtractStringField(payload, "reasoning_content");
      var finish := JsonFields.ExtractStringField(payload, "finish_reason");
      error := TakeFields(content, reasoning, finish);
    }

    method TakeFields(content: JsonFields.Field, reasoning: JsonFields.Field, finish: JsonFields.Field)
      returns (error: Option<StreamError>)
      modifies this
      ensures bodyDecoder == old(bodyDecoder) && undecodedResponse == old(undecodedResponse)
      ensures statusCode == old(statusCode) && decodedBody == old(decodedBody)
      ensures ssePending == old(ssePending) && streamDone == old(streamDone)
      ensures OnFields(old(SeenView()), content, reasoning, finish)
           == if error.Some? then Bad(error.value) else Next(SeenView())
    {
      if content.Malformed? {
        return Some(BadField(content.error));
      }
      if HasText(content) {
        responseText := responseText + content.text;
        receivedContent := true;
      }
      if reasoning.Malformed? {
        return Some(BadField(reasoning.error));
      }
      if HasText(reasoning) {
        receivedReasoning := true;
      }
      if finish.Malformed? {
        return Some(BadField(finish.error));
      }
      if HasText(finish) {
        streamFinished := true;
      }
      return None;
    }

    method TakeLine(line: string) returns (error: Option<StreamError>)
      requires !streamDone
      modifies this
      ensures bodyDecoder == old(bodyDecoder) && undecodedResponse == old(undecodedResponse)
      ensures statusCode == old(statusCode) && decodedBody == old(decodedBody)
      ensures ssePending == old(ssePending)
      ensures OnLine(isJson, old(SeenView()), line)
           == if error.Some? then Bad(error.value) else if streamDone then Stop(SeenView().(done := false))
              else Next(SeenView())
    {
      var t := WithoutReturn(line);
      if |t| < 5 || t[..5] != DATA {
        return None;
      }
      var payload := WithoutBlanks(t[5..]);
      if payload == DONE {
        streamDone := true;
        return None;
      }
      error := TakeEvent(payload);
    }

    method ConsumeSseLines() returns (error: Option<StreamError>)
      requires Valid()
      modifies this
      ensures bodyDecoder == old(bodyDecoder) && undecodedResponse == old(undecodedResponse)
      ensures statusCode == old(statusCode) && decodedBody == old(decodedBody)
      ensures Lines(protocol, old(StreamView()))
           == if error.Some? then Wrong(error.value) else if streamDone then Ended(StreamView()) else Running(StreamView())
    {
      ghost var all := Lines(protocol, StreamView());
      while true
        invariant bodyDecoder == old(bodyDecoder) && undecodedResponse == old(undecodedResponse)
        invariant statusCode == old(statusCode) && decodedBody == old(decodedBody)
        invariant Valid() && Lines(protocol, StreamView()) == all
        decreases |ssePending|
      {
        var lineEnd := Find(ssePending, NEWLINE);
        if lineEnd == None {
          return None;
        }
        var line := ssePending[..lineEnd.value];
        ssePending := ssePending[lineEnd.value + 1..];
        error := TakeLine(line);
        if error.Some? || streamDone {
          return;
        }
      }
    }

    /** What a read with this error did. */
    function ReadingFor(error: Option<ReadError>): Reading
      reads this, bodyDecoder
    {
      if error.Some? then Failed(error.value) else if streamDone then Finished(View()) else Open(View())
    }

    method ReadStream(decoded: string) returns (error: Option<ReadError>)
      requires Valid() && bodyDecoder != null
      modifies this
      ensures bodyDecoder == old(bodyDecoder)
      ensures Streamed(protocol, old(View()), decoded) == ReadingFor(error)
    {
      decodedBody := decodedBody + decoded;
      if !IsSuccess(statusCode) {
        return None;
      }
      ssePending := ssePending + decoded;
      var wrong := ConsumeSseLines();
      error := if wrong.Some? then Some(BadStream(wrong.value)) else None;
    }

    method Decode(bytes: string) returns (error: Option<ReadError>)
      requires Valid() && bodyDecoder != null
      modifies this, bodyDecoder
      ensures bodyDecoder == old(bodyDecoder)
      ensures Decoded(protocol, old(View()), bytes) == ReadingFor(error)
    {
      var decoded, wrong := bodyDecoder.Feed(bytes);
      if wrong.Some? {
        return Some(BadBody(wrong.value));
      }
      error := ReadStream(decoded);
    }

    /** The part of the receive loop behind a successful read. */
    method Receive(bytes: string) returns (error: Option<ReadError>)
      requires Valid()
      modifies this, bodyDecoder
      ensures old(bodyDecoder) != null ==> bodyDecoder == old(bodyDecoder)
      ensures old(bodyDecoder) == null ==> bodyDecoder == null || fresh(bodyDecoder)
      ensures Received(protocol, old(View()), bytes) == ReadingFor(error)
    {
      if bodyDecoder != null {
        error := Decode(bytes);
        return;
      }
      undecodedResponse := undecodedResponse + bytes;
      error := SeekHeaders();
    }

    method SeekHeaders() returns (error: Option<ReadError>)
      requires Valid() && bodyDecoder == null
      modifies this
      ensures bodyDecoder == null || fresh(bodyDecoder)
      ensures Unheaded(protocol, old(View()), old(undecodedResponse)) == ReadingFor(error)
    {
      var headerEnd := Find(undecodedResponse, HEADER_END);
      if headerEnd == None {
        return None;
      }
      error := TakeHeaders(undecodedResponse[..headerEnd.value + 2], undecodedResponse[headerEnd.value + 4..]);
    }

    method TakeHeaders(headers: string, rest: string) returns (error: Option<ReadError>)
      requires Valid() && bodyDecoder == null
      modifies this
      ensures bodyDecoder == null || fresh(bodyDecoder)
      ensures Headed(protocol, old(View()), headers, rest) == ReadingFor(error)
    {
      var status := protocol.statusOf(headers);
      if status == None {
        return Some(BadStatusLine);
      }
      statusCode := status.value;
      bodyDecoder := new HttpBodyDecoder(protocol.usesChunks(headers));
      error := Decode(rest);
    }
  }

  // ---------------------------------------------------------------- how the bytes are cut

  function Followed(s: Stream, more: string): Stream {
    s.(pending := s.pending + more)
  }

  lemma {:induction false} LinesSplit(p: Protocol, s: Stream, more: string)
    ensures var first := Lines(p, s);
      LinesContinue(first, Lines(p, Followed(s, more)),
                    if first.Running? then Lines(p, Followed(first.stream, more)) else first, more)
    decreases |s.pending|
  {
    var end := Find(s.pending, NEWLINE);
    if end.Some? {
      var i := end.value;
      FindStays(s.pending, more, NEWLINE);
      assert (s.pending + more)[..i] == s.pending[..i];
      assert (s.pending + more)[i + 1..] == s.pending[i + 1..] + more;
      var r := p.onLine(s.seen, s.pending[..i]);
      if r.Next? {
        LinesSplit(p, Stream(s.pending[i + 1..], r.seen), more);
      }
    }
  }

  /** `whole` is what the rest of the bytes makes of `first`. */
  predicate Continues(first: Reading, whole: Reading, then_: Reading) {
    match first
    case Open(_) => whole == then_
    case Finished(q) =>
      || whole.Failed?
      || (whole.Finished? && whole.reader.status == q.status && whole.reader.body.Some? == q.body.Some?
          && whole.reader.stream.seen == q.stream.seen)
    case Failed(_) => whole.Failed?
  }

  /** What the lines of more bytes make of the lines so far. */
  predicate LinesContinue(first: LinesResult, whole: LinesResult, then_: LinesResult, more: string) {
    match first
    case Running(_) => whole == then_
    case Ended(t) => whole == Ended(Followed(t, more))
    case Wrong(e) => whole == Wrong(e)
  }

  lemma {:induction false} PlacedContinues(r: Reader, whole: Reader, then_: Reader, l: LinesResult, lw: LinesResult, lt: LinesResult, more: string)
    requires LinesContinue(l, lw, lt, more)
    requires whole.status == r.status && whole.body.Some? && r.body.Some?
    requires l.Running? ==> whole == then_.(stream := whole.stream)
    ensures Continues(Placed(r, l), Placed(whole, lw), if l.Running? then Placed(then_, lt) else Placed(r, l))
  {
  }

  lemma {:induction false} StreamedSplit(p: Protocol, r: Reader, body: Option<Decoder>, a: string, b: string)
    requires r.body.Some? && body.Some?
    ensures var first := Streamed(p, r, a);
      Continues(first, Streamed(p, r.(body := body), a + b),
                if first.Open? then Streamed(p, first.reader.(body := body), b) else first)
  {
    assert r.decodedBody + (a + b) == (r.decodedBody + a) + b;
    if IsSuccess(r.status) {
      var s := Followed(r.stream, a);
      var l := Lines(p, s);
      LinesSplit(p, s, b);
      assert r.stream.pending + (a + b) == s.pending + b;
      var q := r.(decodedBody := r.decodedBody + a);
      var whole := r.(body := body, decodedBody := r.decodedBody + (a + b));
      if l.Running? {
        var then_ := q.(body := body, stream := l.stream, decodedBody := q.decodedBody + b);
        PlacedContinues(q, whole, then_, l, Lines(p, Followed(s, b)), Lines(p, Followed(l.stream, b)), b);
      } else {
        PlacedContinues(q, whole, whole, l, Lines(p, Followed(s, b)), l, b);
      }
    }
  }

  /** What the next read makes of a reading. */
  function Then(p: Protocol, first: Reading, bytes: string): Reading {
    if first.Open? then Received(p, first.reader, bytes) else first
  }

  lemma {:induction false} DecodedKeepsBody(p: Protocol, r: Reader, a: string, b: string)
    requires r.body.Some?
    ensures Decoded(p, r, a).Open? ==>
              Decoded(p, r, a).reader.body.Some? && Then(p, Decoded(p, r, a), b) == Decoded(p, Decoded(p, r, a).reader, b)
  {
  }

  lemma {:induction false} DecodedContinues(p: Protocol, r: Reader, a: string, b: string)
    requires r.body.Some?
    ensures var first := Decoded(p, r, a);
      Continues(first, Decoded(p, r, a + b),
                if first.Open? && first.reader.body.Some? then Decoded(p, first.reader, b) else first)
  {
    FeedSplit(r.body.value, a, b);
    var first := FedWith(r.body.value, a);
    if first.error == None {
      var second := FedWith(first.decoder, b);
      StreamedSplit(p, r.(body := Some(first.decoder)), Some(second.decoder), first.output, second.output);
    }
  }

  lemma {:induction false} DecodedSplit(p: Protocol, r: Reader, a: string, b: string)
    requires r.body.Some?
    ensures Continues(Decoded(p, r, a), Decoded(p, r, a + b), Then(p, Decoded(p, r, a), b))
  {
    DecodedContinues(p, r, a, b);
    DecodedKeepsBody(p, r, a, b);
  }

  lemma {:induction false} HeadedSplit(p: Protocol, r: Reader, headers: string, a: string, b: string)
    ensures Continues(Headed(p, r, headers, a), Headed(p, r, headers, a + b), Then(p, Headed(p, r, headers, a), b))
  {
    var status := p.statusOf(headers);
    if status.Some? {
      DecodedSplit(p, r.(undecoded := "", status := status.value, body := Some(DecoderFor(p.usesChunks(headers)))), a, b);
    }
  }

  lemma {:induction false} UnheadedSplit(p: Protocol, r: Reader, all: string, b: string)
    requires r.body == None
    ensures Continues(Unheaded(p, r, all), Unheaded(p, r, all + b), Then(p, Unheaded(p, r, all), b))
  {
    var end := Find(all, HEADER_END);
    if end.Some? {
      var i := end.value;
      FindStays(all, b, HEADER_END);
      assert (all + b)[..i + 2] == all[..i + 2] && (all + b)[i + 4..] == all[i + 4..] + b;
      HeadedSplit(p, r, all[..i + 2], all[i + 4..], b);
    }
  }

  lemma {:induction false} ReceivedSplit(p: Protocol, r: Reader, a: string, b: string)
    ensures Continues(Received(p, r, a), Received(p, r, a + b), Then(p, Received(p, r, a), b))
  {
    if r.body.Some? {
      DecodedSplit(p, r, a, b);
    } else {
      UnheadedSplit(p, r, r.undecoded + a, b);
      assert r.undecoded + (a + b) == (r.undecoded + a) + b;
    }
  }

  /** The end of a stream is found in the lines of a good response. */
  predicate IsEnd(r: Reader) {
    r.stream.seen.done && IsSuccess(r.status) && r.body.Some?
  }

  lemma {:induction false} EndedIsDone(p: Protocol, s: Stream)
    ensures Lines(p, s).Ended? ==> Lines(p, s).stream.seen.done
    decreases |s.pending|
  {
    var end := Find(s.pending, NEWLINE);
    if end.Some? {
      var r := p.onLine(s.seen, s.pending[..end.value]);
      if r.Next? {
        EndedIsDone(p, Stream(s.pending[end.value + 1..], r.seen));
      }
    }
  }

  lemma {:induction false} DecodedIsEnd(p: Protocol, r: Reader, bytes: string)
    requires r.body.Some?
    ensures Decoded(p, r, bytes).Finished? ==> IsEnd(Decoded(p, r, bytes).reader)
  {
    EndedIsDone(p, Followed(r.stream, FedWith(r.body.value, bytes).output));
  }

  lemma {:induction false} FinishedIsEnd(p: Protocol, r: Reader, bytes: string)
    ensures Received(p, r, bytes).Finished? ==> IsEnd(Received(p, r, bytes).reader)
  {
    if r.body.Some? {
      DecodedIsEnd(p, r, bytes);
    } else {
      var all := r.undecoded + bytes;
      var end := Find(all, HEADER_END);
      if end.Some? && p.statusOf(all[..end.value + 2]).Some? {
        var headers := all[..end.value + 2];
        var status := p.statusOf(headers).value;
        DecodedIsEnd(p, r.(undecoded := "", status := status, body := Some(DecoderFor(p.usesChunks(headers)))),
                     all[end.value + 4..]);
      }
    }
  }

  // ---------------------------------------------------------------- any cut at all

  /** One read, as a function. */
  type Receive = (Reader, string) -> Reading

  function ReceiverFor(p: Protocol): Receive {
    (r: Reader, bytes: string) => Received(p, r, bytes)
  }

  function Onward(receive: Receive, first: Reading, bytes: string): Reading {
    if first.Open? then receive(first.reader, bytes) else first
  }

  /** Two reads continue as one read of both does, and only a good response finishes. */
  ghost predicate Splits(receive: Receive) {
    && (forall r, a, b :: Continues(receive(r, a), receive(r, a + b), Onward(receive, receive(r, a), b)))
    && (forall r, a | receive(r, a).Finished? :: IsEnd(receive(r, a).reader))
    && receive(START, "") == Open(START)
  }

  lemma {:induction false} ReceiverSplits(p: Protocol)
    ensures Splits(ReceiverFor(p))
  {
    var receive := ReceiverFor(p);
    forall r, a, b ensures Continues(receive(r, a), receive(r, a + b), Onward(receive, receive(r, a), b)) {
      ReceivedSplit(p, r, a, b);
    }
    forall r, a | receive(r, a).Finished? ensures IsEnd(receive(r, a).reader) {
      FinishedIsEnd(p, r, a);
    }
    assert START.undecoded + "" == "";
  }

  /** Reads until the stream is done, something is wrong, or the connection ends. */
  function ReceivedAll(receive: Receive, parts: seq<string>): Reading {
    if parts == [] then Open(START) else Onward(receive, ReceivedAll(receive, parts[..|parts| - 1]), parts[|parts| - 1])
  }

  lemma {:induction false} FinishedAllIsEnd(receive: Receive, parts: seq<string>)
    requires Splits(receive)
    ensures ReceivedAll(receive, parts).Finished? ==> IsEnd(ReceivedAll(receive, parts).reader)
  {
    if parts != [] {
      FinishedAllIsEnd(receive, parts[..|parts| - 1]);
    }
  }

  /** A cut ends open, finished or failed; this is what the same bytes in one read can then do. */
  lemma {:induction false} CutAgainstWhole(receive: Receive, parts: seq<string>)
    requires Splits(receive)
    ensures Continues(ReceivedAll(receive, parts), receive(START, Joined(parts)), ReceivedAll(receive, parts))
  {
    if parts != [] {
      var init, last := parts[..|parts| - 1], parts[|parts| - 1];
      CutAgainstWhole(receive, init);
      var a := Joined(init);
      assert Continues(receive(START, a), receive(START, a + last), Onward(receive, receive(START, a), last));
    }
  }

  /** The same answer, and the same text and flags behind it. */
  predicate SameOutcome(p: Protocol, cut: Reading, whole: Reading) {
    && AnswerFor(p, cut) == AnswerFor(p, whole)
    && cut.Failed? == whole.Failed? && cut.Finished? == whole.Finished?
    && (!cut.Failed? ==> cut.reader.status == whole.reader.status && cut.reader.stream.seen == whole.reader.stream.seen)
  }

  /** If the whole response parses without error, every way of cutting it into reads gives the same
      answer, text and flags. */
  lemma {:induction false} AnswerDoesNotDependOnCut(p: Protocol, parts: seq<string>)
    requires !Received(p, START, Joined(parts)).Failed?
    ensures SameOutcome(p, ReceivedAll(ReceiverFor(p), parts), Received(p, START, Joined(parts)))
  {
    ReceiverSplits(p);
    CutAgainstWhole(ReceiverFor(p), parts);
    FinishedAllIsEnd(ReceiverFor(p), parts);
    SameEndSameAnswer(p, ReceivedAll(ReceiverFor(p), parts), ReceiverFor(p)(START, Joined(parts)));
  }

  lemma {:induction false} SameEndSameAnswer(p: Protocol, cut: Reading, whole: Reading)
    requires Continues(cut, whole, cut) && !whole.Failed?
    requires cut.Finished? ==> IsEnd(cut.reader)
    ensures SameOutcome(p, cut, whole)
  {
  }

  /** Some first part of the bytes already ends the stream. */
  predicate EndsEarly(receive: Receive, bytes: string) {
    exists n: nat | n <= |bytes| :: receive(START, bytes[..n]).Finished?
  }

  lemma {:induction false} FinishedCutEndsEarly(receive: Receive, parts: seq<string>)
    requires Splits(receive) && ReceivedAll(receive, parts).Finished?
    ensures EndsEarly(receive, Joined(parts))
  {
    var init, last := parts[..|parts| - 1], parts[|parts| - 1];
    var bytes, a := Joined(parts), Joined(init);
    if ReceivedAll(receive, init).Finished? {
      FinishedCutEndsEarly(receive, init);
      var n: nat :| n <= |a| && receive(START, a[..n]).Finished?;
      assert bytes[..n] == a[..n];
    } else {
      CutAgainstWhole(receive, init);
      assert Continues(receive(START, a), receive(START, a + last), Onward(receive, receive(START, a), last));
      assert bytes[..|bytes|] == bytes;
    }
  }

  lemma {:induction false} TwoReads(receive: Receive, a: string, b: string)
    requires receive(START, a).Finished?
    ensures Joined([a, b]) == a + b
    ensures ReceivedAll(receive, [a, b]) == receive(START, a)
  {
    assert [a, b][..1] == [a] && [a][..0] == [];
    assert Joined([a]) == a;
    assert ReceivedAll(receive, [a]) == receive(START, a);
  }

  /** Every cut of the bytes gives what one read gives. */
  ghost predicate CutsAgree(p: Protocol, bytes: string) {
    forall parts | Joined(parts) == bytes :: SameOutcome(p, ReceivedAll(ReceiverFor(p), parts), Received(p, START, bytes))
  }

  /** Exactly when the cut matters: when the response is in error behind the end of its stream. */
  lemma {:induction false} CutMattersExactly(p: Protocol, bytes: string)
    ensures CutsAgree(p, bytes) <==> !(Received(p, START, bytes).Failed? && EndsEarly(ReceiverFor(p), bytes))
  {
    var receive := ReceiverFor(p);
    ReceiverSplits(p);
    if receive(START, bytes).Failed? && EndsEarly(receive, bytes) {
      CutMatters(p, receive, bytes);
    } else {
      forall parts | Joined(parts) == bytes
        ensures SameOutcome(p, ReceivedAll(receive, parts), receive(START, bytes))
      {
        CutAgrees(p, receive, parts);
      }
    }
  }

  lemma {:induction false} CutMatters(p: Protocol, receive: Receive, bytes: string)
    requires Splits(receive) && receive(START, bytes).Failed? && EndsEarly(receive, bytes)
    ensures exists parts :: Joined(parts) == bytes
                            && AnswerFor(p, ReceivedAll(receive, parts)) != AnswerFor(p, receive(START, bytes))
  {
    var n: nat :| n <= |bytes| && receive(START, bytes[..n]).Finished?;
    TwoReads(receive, bytes[..n], bytes[n..]);
    assert bytes[..n] + bytes[n..] == bytes;
    var parts := [bytes[..n], bytes[n..]];
    assert IsEnd(ReceivedAll(receive, parts).reader);
    assert AnswerFor(p, ReceivedAll(receive, parts)) != Refused;
  }

  lemma {:induction false} CutAgrees(p: Protocol, receive: Receive, parts: seq<string>)
    requires Splits(receive)
    requires !(receive(START, Joined(parts)).Failed? && EndsEarly(receive, Joined(parts)))
    ensures SameOutcome(p, ReceivedAll(receive, parts), receive(START, Joined(parts)))
  {
    CutAgainstWhole(receive, parts);
    FinishedAllIsEnd(receive, parts);
    if receive(START, Joined(parts)).Failed? {
      if ReceivedAll(receive, parts).Finished? {
        FinishedCutEndsEarly(receive, parts);
      }
    } else {
      SameEndSameAnswer(p, ReceivedAll(receive, parts), receive(START, Joined(parts)));
    }
  }

  // ---------------------------------------------------------------- chunked responses

  /** Complete headers. */
  predicate IsHead(p: Protocol, head: string, status: int, chunked: bool) {
    && |head| >= 4 && Find(head, HEADER_END) == Some(|head| - 4)
    && p.statusOf(head[..|head| - 2]) == Some(status)
    && p.usesChunks(head[..|head| - 2]) == chunked
  }

  /** Complete headers of a good response in chunks. */
  predicate IsChunkedHead(p: Protocol, head: string, status: int) {
    IsHead(p, head, status, true) && IsSuccess(status)
  }

  /** The reader behind the headers. */
  function Headless(status: int, decoder: Decoder): Reader {
    START.(status := status, body := Some(decoder))
  }

  lemma {:induction false} HeadRead(p: Protocol, head: string, status: int, chunked: bool, body: string)
    requires IsHead(p, head, status, chunked)
    ensures Received(p, START, head + body) == Decoded(p, Headless(status, DecoderFor(chunked)), body)
  {
    FindStays(head, body, HEADER_END);
    var all := head + body;
    assert START.undecoded + all == all;
    assert all[..|head| - 2] == head[..|head| - 2] && all[|head|..] == body;
    UnheadedAt(p, START, all, |head| - 4);
  }

  lemma {:induction false} UnheadedAt(p: Protocol, r: Reader, all: string, end: nat)
    requires end + 4 <= |all| && Find(all, HEADER_END) == Some(end)
    ensures Unheaded(p, r, all) == Headed(p, r, all[..end + 2], all[end + 4..])
  {
  }

  /** Before the headers are complete nothing is finished. */
  lemma {:induction false} HeadOnly(p: Protocol, head: string, status: int, chunked: bool, body: string, n: nat)
    requires IsHead(p, head, status, chunked) && n < |head|
    ensures Received(p, START, (head + body)[..n]).Open?
  {
    var all := head + body;
    var part, rest := all[..n], all[n..];
    assert START.undecoded + part == part && part + rest == all;
    FindStays(head, body, HEADER_END);
    if Find(part, HEADER_END).Some? {
      FindStays(part, rest, HEADER_END);
      assert false;
    }
  }

  /** The lines of a decoded body end the stream. */
  predicate EndsIn(p: Protocol, status: int, decoded: string) {
    IsSuccess(status) && Lines(p, Stream(decoded, NOTHING)).Ended?
  }

  lemma {:induction false} EndsInMore(p: Protocol, status: int, decoded: string, more: string)
    requires EndsIn(p, status, decoded)
    ensures EndsIn(p, status, decoded + more)
  {
    LinesSplit(p, Stream(decoded, NOTHING), more);
  }

  /** What one read makes of complete headers and a body. */
  lemma {:induction false} BodyRead(p: Protocol, head: string, status: int, chunked: bool, body: string)
    requires IsHead(p, head, status, chunked)
    ensures var r := FedWith(DecoderFor(chunked), body);
      && (Received(p, START, head + body).Finished? <==> r.error == None && EndsIn(p, status, r.output))
      && (r.error.Some? ==> Received(p, START, head + body).Failed?)
  {
    HeadRead(p, head, status, chunked, body);
    var decoded := FedWith(DecoderFor(chunked), body).output;
    assert "" + decoded == decoded;
  }

  lemma {:induction false} CutBehind(head: string, body: string, n: nat)
    requires |head| <= n <= |head + body|
    ensures (head + body)[..n] == head + body[..n - |head|]
    ensures body[..n - |head|] + body[n - |head|..] == body
  {
  }

  lemma {:induction false} EarlyEnd(p: Protocol, bytes: string, n: nat)
    requires n <= |bytes| && Received(p, START, bytes[..n]).Finished?
    ensures EndsEarly(ReceiverFor(p), bytes)
  {
    assert ReceiverFor(p)(START, bytes[..n]).Finished?;
  }

  /** If a first part ends the stream, the stream ends in what the whole body decodes to. */
  lemma {:induction false} PartEnds(p: Protocol, head: string, status: int, chunked: bool, body: string, n: nat)
    requires IsHead(p, head, status, chunked)
    requires n <= |head + body| && Received(p, START, (head + body)[..n]).Finished?
    ensures EndsIn(p, status, FedWith(DecoderFor(chunked), body).output)
  {
    if n < |head| {
      HeadOnly(p, head, status, chunked, body, n);
    } else {
      var d, a, b := DecoderFor(chunked), body[..n - |head|], body[n - |head|..];
      CutBehind(head, body, n);
      BodyRead(p, head, status, chunked, a);
      FeedSplit(d, a, b);
      EndsInMore(p, status, FedWith(d, a).output, FedWith(FedWith(d, a).decoder, b).output);
    }
  }

  lemma {:induction false} GoodPartEnds(p: Protocol, head: string, status: int, chunked: bool, body: string) returns (n: nat)
    requires IsHead(p, head, status, chunked)
    requires EndsIn(p, status, FedWith(DecoderFor(chunked), body).output)
    ensures n <= |body| && Received(p, START, head + body[..n]).Finished?
  {
    n := GoodPart(chunked, body);
    BodyRead(p, head, status, chunked, body[..n]);
  }

  lemma {:induction false} GoodPartEndsEarly(p: Protocol, head: string, status: int, chunked: bool, body: string)
    requires IsHead(p, head, status, chunked)
    requires EndsIn(p, status, FedWith(DecoderFor(chunked), body).output)
    ensures EndsEarly(ReceiverFor(p), head + body)
  {
    var n := GoodPartEnds(p, head, status, chunked, body);
    CutBehind(head, body, |head| + n);
    EarlyEnd(p, head + body, |head| + n);
  }

  lemma {:induction false} OnlyThenEndsEarly(p: Protocol, head: string, status: int, chunked: bool, body: string)
    requires IsHead(p, head, status, chunked)
    requires !EndsIn(p, status, FedWith(DecoderFor(chunked), body).output)
    ensures !EndsEarly(ReceiverFor(p), head + body)
  {
    forall n: nat | n <= |head + body| ensures !ReceiverFor(p)(START, (head + body)[..n]).Finished? {
      if Received(p, START, (head + body)[..n]).Finished? {
        PartEnds(p, head, status, chunked, body, n);
      }
    }
  }

  /** Exactly when the cut matters, in terms of the body: when its chunks are in error, the status is
      good, and the lines decoded before the error have ended the stream. */
  lemma {:induction false} CutMattersIff(p: Protocol, head: string, status: int, chunked: bool, body: string)
    requires IsHead(p, head, status, chunked)
    ensures var r := FedWith(DecoderFor(chunked), body);
      CutsAgree(p, head + body) <==> r.error == None || !EndsIn(p, status, r.output)
  {
    CutMattersExactly(p, head + body);
    BodyRead(p, head, status, chunked, body);
    if EndsIn(p, status, FedWith(DecoderFor(chunked), body).output) {
      GoodPartEndsEarly(p, head, status, chunked, body);
    } else {
      OnlyThenEndsEarly(p, head, status, chunked, body);
    }
  }

  /** Cuts agree on every response whose body decodes, whatever its lines hold: good, bad, ended or not,
      and whatever its status. */
  lemma {:induction false} DecodableResponse(p: Protocol, head: string, status: int, chunked: bool, body: string)
    requires IsHead(p, head, status, chunked) && FedWith(DecoderFor(chunked), body).error == None
    ensures CutsAgree(p, head + body)
  {
    CutMattersIff(p, head, status, chunked, body);
  }

  /** Cuts agree on a chunked response if and only if no size has blanks behind it, or the lines before
      the first that has do not end the stream of a good response. Without blanks any cut gives what the
      body gives in one read. */
  lemma {:induction false} ChunkedResponse(p: Protocol, head: string, status: int, chunks: seq<Chunk>, last: Chunk, trailer: string)
    requires IsHead(p, head, status, true)
    requires forall k | 0 <= k < |chunks| :: IsChunk(chunks[k]) && chunks[k].data != ""
    requires IsChunk(last) && last.data == ""
    ensures CutsAgree(p, head + EncodeAll(chunks, last, trailer)) <==>
              (AllPlain(chunks) && IsPlain(last)) || !EndsIn(p, status, Body(PlainPart(chunks)))
    ensures AllPlain(chunks) && IsPlain(last) ==>
              exists d :: Received(p, START, head + EncodeAll(chunks, last, trailer))
                       == Streamed(p, Headless(status, d), Body(chunks))
  {
    var body := EncodeAll(chunks, last, trailer);
    DecodesEncoding(chunks, last, trailer);
    CutMattersIff(p, head, status, true, body);
    HeadRead(p, head, status, true, body);
    if AllPlain(chunks) && IsPlain(last) {
      var d := FedWith(DecoderFor(true), body).decoder;
      assert Received(p, START, head + body) == Streamed(p, Headless(status, d), Body(chunks));
    }
  }

  /** A response that is cut-dependent: its first chunk ends the stream, and behind it comes an empty
      line where a chunk size is due. */
  lemma {:induction false} BadTailIsCutDependent(p: Protocol, head: string, status: int, c: Chunk)
    requires IsChunkedHead(p, head, status)
    requires IsChunk(c) && IsPlain(c) && c.data != "" && Lines(p, Stream(c.data, NOTHING)).Ended?
    ensures !CutsAgree(p, head + (Encode(c) + CRLF))
  {
    FeedChunk(c, CRLF);
    EmptyLineFails();
    assert c.data + "" == c.data;
    CutMattersIff(p, head, status, true, Encode(c) + CRLF);
  }

  lemma {:induction false} EmptyLineFails()
    ensures FedWith(DecoderFor(true), CRLF) == Fed(Decoder(true, CRLF, None, false), "", Some(BadChunkSize))
  {
    assert "" + CRLF == CRLF;
    FindIs(CRLF, CRLF, 0);
    assert CRLF[..0] == "";
    assert Find("", ";") == None;
  }

  // ---------------------------------------------------------------- what the events assemble

  lemma {:induction false} LineRead(p: Protocol, line: string, rest: string, s: Seen)
    requires '\n' !in line
    ensures var r := p.onLine(s, line);
      && (r.Next? ==> Lines(p, Stream(line + NEWLINE + rest, s)) == Lines(p, Stream(rest, r.seen)))
      && (r.Stop? ==> Lines(p, Stream(line + NEWLINE + rest, s)) == Ended(Stream(rest, r.seen.(done := true))))
  {
    LineEnd(line, rest);
  }

  lemma {:induction false} LineEnd(line: string, rest: string)
    requires '\n' !in line
    ensures var all := line + NEWLINE + rest;
      Find(all, NEWLINE) == Some(|line|) && all[..|line|] == line && all[|line| + 1..] == rest
  {
    var all := line + NEWLINE + rest;
    forall k: nat | k < |line| ensures !MatchesAt(all, NEWLINE, k) {
      assert all[k] == line[k] && all[k..k + 1] == [line[k]];
    }
    assert all[|line|..|line| + 1] == NEWLINE;
    FindIs(all, NEWLINE, |line|);
  }

  const FIELD_START := "data: "

  /** An event as the server sends it: one line, then an empty one. */
  function Event(payload: string): string {
    FIELD_START + payload + NEWLINE + (NEWLINE + "")
  }

  function Events(payloads: seq<string>): string {
    if payloads == [] then "" else Event(payloads[0]) + Events(payloads[1..])
  }

  /** A payload on one line that neither begins with a blank nor is the end mark. */
  predicate IsPayload(payload: string) {
    '\n' !in payload && payload != "" && payload[0] != ' ' && payload[|payload| - 1] != '\r' && payload != DONE
  }

  lemma {:induction false} EventLine(isJson: string -> bool, payload: string, s: Seen)
    requires IsPayload(payload)
    ensures OnLine(isJson, s, FIELD_START + payload) == OnEvent(isJson, s, payload)
  {
    var line := FIELD_START + payload;
    assert line[..5] == DATA && line[5..] == " " + payload && (" " + payload)[1..] == payload;
    assert line[|line| - 1] == payload[|payload| - 1];
    assert WithoutBlanks(" " + payload) == WithoutBlanks(payload) == payload;
  }

  function ContentOf(payload: string): string {
    var content := JsonFields.Extracted(payload, "content");
    if HasText(content) then content.text else ""
  }

  function ContentList(payloads: seq<string>): (texts: seq<string>)
    ensures |texts| == |payloads| && forall k | 0 <= k < |texts| :: texts[k] == ContentOf(payloads[k])
  {
    seq(|payloads|, k requires 0 <= k < |payloads| => ContentOf(payloads[k]))
  }

  /** The contents of the events, one behind the other. */
  function Contents(payloads: seq<string>): string {
    JsonStrings.Concat(ContentList(payloads))
  }

  lemma {:induction false} EventRead(p: Protocol, isJson: string -> bool, payload: string, rest: string, s: Seen)
    requires forall t, line :: p.onLine(t, line) == OnLine(isJson, t, line)
    requires IsPayload(payload) && OnEvent(isJson, s, payload).Next?
    ensures var seen := OnEvent(isJson, s, payload).seen;
      && Lines(p, Stream(Event(payload) + rest, s)) == Lines(p, Stream(rest, seen))
      && seen.text == s.text + ContentOf(payload)
  {
    var seen := OnEvent(isJson, s, payload).seen;
    EventText(isJson, payload, s);
    EventLine(isJson, payload, s);
    LineRead(p, FIELD_START + payload, NEWLINE + rest, s);
    LineRead(p, "", rest, seen);
    assert Event(payload) + rest == FIELD_START + payload + NEWLINE + (NEWLINE + rest);
    assert "" + NEWLINE + rest == NEWLINE + rest;
    EmptyLine(isJson, seen);
  }

  lemma {:induction false} EmptyLine(isJson: string -> bool, s: Seen)
    ensures OnLine(isJson, s, "") == Next(s)
  {
  }

  lemma {:induction false} EventText(isJson: string -> bool, payload: string, s: Seen)
    requires OnEvent(isJson, s, payload).Next?
    ensures OnEvent(isJson, s, payload).seen.text == s.text + ContentOf(payload)
  {
    assert s.text + "" == s.text;
  }

  predicate IsGoodEvent(isJson: string -> bool, payload: string) {
    IsPayload(payload) && OnEvent(isJson, NOTHING, payload).Next?
  }

  /** The effect of a good event. */
  function EventEffect(isJson: string -> bool): (Seen, string) -> Seen {
    (s: Seen, payload: string) => if OnEvent(isJson, s, payload).Next? then OnEvent(isJson, s, payload).seen else s
  }

  function Folded(effect: (Seen, string) -> Seen, s: Seen, payloads: seq<string>): Seen
    decreases |payloads|
  {
    if payloads == [] then s else Folded(effect, effect(s, payloads[0]), payloads[1..])
  }

  /** Reading the event from any state has the effect. */
  ghost predicate Reads(p: Protocol, effect: (Seen, string) -> Seen, payload: string) {
    forall s, rest :: Lines(p, Stream(Event(payload) + rest, s)) == Lines(p, Stream(rest, effect(s, payload)))
  }

  ghost predicate AddsText(effect: (Seen, string) -> Seen, payload: string, text: string) {
    forall s :: effect(s, payload).text == s.text + text
  }

  lemma {:induction false} GoodEventReads(p: Protocol, isJson: string -> bool, payload: string)
    requires forall t, line :: p.onLine(t, line) == OnLine(isJson, t, line)
    requires IsGoodEvent(isJson, payload)
    ensures Reads(p, EventEffect(isJson), payload)
    ensures AddsText(EventEffect(isJson), payload, ContentOf(payload))
  {
    var effect := EventEffect(isJson);
    forall s, rest
      ensures Lines(p, Stream(Event(payload) + rest, s)) == Lines(p, Stream(rest, effect(s, payload)))
    {
      EventRead(p, isJson, payload, rest, s);
    }
    forall s ensures effect(s, payload).text == s.text + ContentOf(payload) {
      EventRead(p, isJson, payload, "", s);
    }
  }

  lemma {:induction false} EventsRead(p: Protocol, effect: (Seen, string) -> Seen, payloads: seq<string>, tail: string, s: Seen)
    requires forall k | 0 <= k < |payloads| :: Reads(p, effect, payloads[k])
    ensures Lines(p, Stream(Events(payloads) + tail, s)) == Lines(p, Stream(tail, Folded(effect, s, payloads)))
    decreases |payloads|
  {
    if payloads == [] {
      assert Events(payloads) + tail == tail;
    } else {
      var rest := Events(payloads[1..]) + tail;
      assert Events(payloads) + tail == Event(payloads[0]) + rest;
      assert Lines(p, Stream(Event(payloads[0]) + rest, s)) == Lines(p, Stream(rest, effect(s, payloads[0])));
      EventsRead(p, effect, payloads[1..], tail, effect(s, payloads[0]));
    }
  }

  lemma {:induction false} FoldedText(effect: (Seen, string) -> Seen, payloads: seq<string>, texts: seq<string>, s: Seen)
    requires |texts| == |payloads|
    requires forall k | 0 <= k < |payloads| :: AddsText(effect, payloads[k], texts[k])
    ensures Folded(effect, s, payloads).text == s.text + JsonStrings.Concat(texts)
    decreases |payloads|
  {
    if payloads == [] {
      assert s.text + "" == s.text;
    } else {
      FoldedText(effect, payloads[1..], texts[1..], effect(s, payloads[0]));
      assert s.text + (texts[0] + JsonStrings.Concat(texts[1..])) == (s.text + texts[0]) + JsonStrings.Concat(texts[1..]);
    }
  }

  /** The end mark of the chat endpoint ends the stream. */
  lemma {:induction false} DoneEnds(p: Protocol, isJson: string -> bool, rest: string, s: Seen)
    requires forall t, line :: p.onLine(t, line) == OnLine(isJson, t, line)
    ensures Lines(p, Stream(FIELD_START + DONE + NEWLINE + rest, s)) == Ended(Stream(rest, s.(done := true)))
  {
    DoneLine(isJson, s);
    LineRead(p, FIELD_START + DONE, rest, s);
  }

  lemma {:induction false} DoneLine(isJson: string -> bool, s: Seen)
    ensures OnLine(isJson, s, FIELD_START + DONE) == Stop(s)
  {
    var line := FIELD_START + DONE;
    assert line[..5] == DATA && line[5..] == " " + DONE && (" " + DONE)[1..] == DONE;
    assert WithoutBlanks(" " + DONE) == WithoutBlanks(DONE) == DONE;
  }

  /** The text of a stream is the contents of its events, one behind the other. */
  lemma {:induction false} TextIsContents(p: Protocol, isJson: string -> bool, payloads: seq<string>, rest: string, s: Seen)
    requires forall t, line :: p.onLine(t, line) == OnLine(isJson, t, line)
    requires forall k | 0 <= k < |payloads| :: IsGoodEvent(isJson, payloads[k])
    ensures var r := Lines(p, Stream(Events(payloads) + (FIELD_START + DONE + NEWLINE + rest), s));
      r.Ended? && r.stream.seen.text == s.text + Contents(payloads) && r.stream.pending == rest
  {
    var effect := EventEffect(isJson);
    forall k | 0 <= k < |payloads|
      ensures Reads(p, effect, payloads[k]) && AddsText(effect, payloads[k], ContentOf(payloads[k]))
    {
      GoodEventReads(p, isJson, payloads[k]);
    }
    EventsRead(p, effect, payloads, FIELD_START + DONE + NEWLINE + rest, s);
    FoldedText(effect, payloads, ContentList(payloads), s);
    DoneEnds(p, isJson, rest, Folded(effect, s, payloads));
  }

  // ---------------------------------------------------------------- events by their text

  /** An event and how its text carries the three fields. */
  datatype ChatEvent = ChatEvent(
    payload: string, content: JsonFields.Found, reasoning: JsonFields.Found, finish: JsonFields.Found)

  /** A field that is a string, `null` or absent. */
  ghost predicate Carries(payload: string, field: string, found: JsonFields.Found) {
    && JsonFields.Describes(payload, field, found)
    && (found.At? ==> found.value.StringValue? || found.value.NullValue?)
  }

  ghost predicate IsChatEvent(isJson: string -> bool, e: ChatEvent) {
    && IsPayload(e.payload) && isJson(e.payload)
    && Carries(e.payload, "content", e.content)
    && Carries(e.payload, "reasoning_content", e.reasoning)
    && Carries(e.payload, "finish_reason", e.finish)
  }

  /** The text of a field in UTF-8; nothing for `null` and for an absent field. */
  ghost function TextOf(payload: string, field: string, found: JsonFields.Found): string
    requires Carries(payload, field, found)
  {
    if found.At? && found.value.StringValue? then JsonStrings.Concat(JsonStrings.Utf8All(found.value.codes)) else ""
  }

  lemma {:induction false} NameCloses(name: string)
    requires name == "content" || name == "reasoning_content" || name == "finish_reason"
    ensures JsonFields.IsClosed(name, false)
  {
    NoQuoteCloses(name);
  }

  lemma {:induction false} NoQuoteCloses(raw: string)
    requires '"' !in raw && '\\' !in raw
    ensures JsonFields.IsClosed(raw, false)
    decreases |raw|
  {
    if raw != "" {
      NoQuoteCloses(raw[1..]);
    }
  }

  lemma {:induction false} FieldMeans(payload: string, field: string, found: JsonFields.Found)
    requires Carries(payload, field, found)
    requires field == "content" || field == "reasoning_content" || field == "finish_reason"
    ensures var f := JsonFields.Extracted(payload, field);
      !f.Malformed? && (if HasText(f) then f.text else "") == TextOf(payload, field, found)
  {
    NameCloses(field);
    JsonFields.ExtractsFound(payload, field, found);
  }

  /** What an event adds: its content to the text, and that it had content, reasoning or a reason to
      finish. */
  ghost predicate Adds(s: Seen, t: Seen, content: string, reasoning: string, finish: string) {
    && t.text == s.text + content
    && t.receivedContent == (s.receivedContent || content != "")
    && t.receivedReasoning == (s.receivedReasoning || reasoning != "")
    && t.finished == (s.finished || finish != "")
    && t.done == s.done
  }

  lemma {:induction false} FieldsAdd(s: Seen, content: JsonFields.Field, reasoning: JsonFields.Field, finish: JsonFields.Field)
    requires !content.Malformed? && !reasoning.Malformed? && !finish.Malformed?
    ensures var r := OnFields(s, content, reasoning, finish);
      r.Next? && Adds(s, r.seen, if HasText(content) then content.text else "",
                      if HasText(reasoning) then reasoning.text else "", if HasText(finish) then finish.text else "")
  {
    assert s.text + "" == s.text;
  }

  ghost function ContentText(isJson: string -> bool, e: ChatEvent): string
    requires IsChatEvent(isJson, e)
  {
    TextOf(e.payload, "content", e.content)
  }

  ghost function ReasoningText(isJson: string -> bool, e: ChatEvent): string
    requires IsChatEvent(isJson, e)
  {
    TextOf(e.payload, "reasoning_content", e.reasoning)
  }

  ghost function FinishText(isJson: string -> bool, e: ChatEvent): string
    requires IsChatEvent(isJson, e)
  {
    TextOf(e.payload, "finish_reason", e.finish)
  }

  /** An event whose fields are strings, `null` or absent is never an error, and adds what its text says. */
  lemma {:induction false} EventMeans(isJson: string -> bool, e: ChatEvent, s: Seen)
    requires IsChatEvent(isJson, e)
    ensures var r := OnEvent(isJson, s, e.payload);
      r.Next? && Adds(s, r.seen, ContentText(isJson, e), ReasoningText(isJson, e), FinishText(isJson, e))
  {
    FieldMeans(e.payload, "content", e.content);
    FieldMeans(e.payload, "reasoning_content", e.reasoning);
    FieldMeans(e.payload, "finish_reason", e.finish);
    FieldsAdd(s, JsonFields.Extracted(e.payload, "content"), JsonFields.Extracted(e.payload, "reasoning_content"),
              JsonFields.Extracted(e.payload, "finish_reason"));
  }

  ghost predicate AreChatEvents(isJson: string -> bool, events: seq<ChatEvent>) {
    forall k | 0 <= k < |events| :: IsChatEvent(isJson, events[k])
  }

  ghost function Payloads(events: seq<ChatEvent>): (r: seq<string>)
    ensures |r| == |events| && forall k | 0 <= k < |r| :: r[k] == events[k].payload
  {
    seq(|events|, k requires 0 <= k < |events| => events[k].payload)
  }

  /** The contents of the events, in order; likewise the reasoning and the reasons to finish. */
  ghost function ContentTexts(isJson: string -> bool, events: seq<ChatEvent>): (r: seq<string>)
    requires AreChatEvents(isJson, events)
    ensures |r| == |events| && forall k | 0 <= k < |r| :: r[k] == ContentText(isJson, events[k])
  {
    seq(|events|, k requires 0 <= k < |events| => ContentText(isJson, events[k]))
  }

  ghost function ReasoningTexts(isJson: string -> bool, events: seq<ChatEvent>): (r: seq<string>)
    requires AreChatEvents(isJson, events)
    ensures |r| == |events| && forall k | 0 <= k < |r| :: r[k] == ReasoningText(isJson, events[k])
  {
    seq(|events|, k requires 0 <= k < |events| => ReasoningText(isJson, events[k]))
  }

  ghost function FinishTexts(isJson: string -> bool, events: seq<ChatEvent>): (r: seq<string>)
    requires AreChatEvents(isJson, events)
    ensures |r| == |events| && forall k | 0 <= k < |r| :: r[k] == FinishText(isJson, events[k])
  {
    seq(|events|, k requires 0 <= k < |events| => FinishText(isJson, events[k]))
  }

  predicate SomeText(texts: seq<string>) {
    exists k | 0 <= k < |texts| :: texts[k] != ""
  }

  lemma {:induction false} SomeTextFirst(texts: seq<string>)
    requires texts != []
    ensures SomeText(texts) <==> texts[0] != "" || SomeText(texts[1..])
  {
    if SomeText(texts[1..]) {
      var k :| 0 <= k < |texts[1..]| && texts[1..][k] != "";
      assert texts[k + 1] != "";
    }
    if SomeText(texts) && texts[0] == "" {
      var k :| 0 <= k < |texts| && texts[k] != "";
      assert texts[1..][k - 1] != "";
    }
  }

  /** What a stream of events with these texts makes of what was seen before. */
  ghost predicate SaysAll(s: Seen, contents: seq<string>, reasonings: seq<string>, finishes: seq<string>, t: Seen) {
    && t.text == s.text + JsonStrings.Concat(contents)
    && (t.receivedContent <==> s.receivedContent || SomeText(contents))
    && (t.receivedReasoning <==> s.receivedReasoning || SomeText(reasonings))
    && (t.finished <==> s.finished || SomeText(finishes))
    && t.done == s.done
  }

  ghost predicate AddsAll(effect: (Seen, string) -> Seen, payload: string, content: string, reasoning: string, finish: string) {
    forall s :: Adds(s, effect(s, payload), content, reasoning, finish)
  }

  lemma {:induction false} FoldedSays(effect: (Seen, string) -> Seen, payloads: seq<string>, contents: seq<string>,
                                      reasonings: seq<string>, finishes: seq<string>, s: Seen)
    requires |payloads| == |contents| == |reasonings| == |finishes|
    requires forall k | 0 <= k < |payloads| :: AddsAll(effect, payloads[k], contents[k], reasonings[k], finishes[k])
    ensures SaysAll(s, contents, reasonings, finishes, Folded(effect, s, payloads))
    decreases |payloads|
  {
    if payloads == [] {
      assert s.text + "" == s.text;
    } else {
      var m := effect(s, payloads[0]);
      FoldedSays(effect, payloads[1..], contents[1..], reasonings[1..], finishes[1..], m);
      assert Adds(s, m, contents[0], reasonings[0], finishes[0]);
      SomeTextFirst(contents);
      SomeTextFirst(reasonings);
      SomeTextFirst(finishes);
      var c := JsonStrings.Concat(contents[1..]);
      assert (s.text + contents[0]) + c == s.text + (contents[0] + c);
    }
  }

  lemma {:induction false} ChatEventReads(p: Protocol, isJson: string -> bool, e: ChatEvent)
    requires forall t, line :: p.onLine(t, line) == OnLine(isJson, t, line)
    requires IsChatEvent(isJson, e)
    ensures Reads(p, EventEffect(isJson), e.payload)
    ensures AddsAll(EventEffect(isJson), e.payload, ContentText(isJson, e), ReasoningText(isJson, e), FinishText(isJson, e))
  {
    var effect := EventEffect(isJson);
    EventMeans(isJson, e, NOTHING);
    GoodEventReads(p, isJson, e.payload);
    forall s ensures Adds(s, effect(s, e.payload), ContentText(isJson, e), ReasoningText(isJson, e), FinishText(isJson, e)) {
      EventMeans(isJson, e, s);
    }
  }

  /** Reading a stream of events from any state: no error, and what they say. */
  lemma {:induction false} EventsMean(p: Protocol, isJson: string -> bool, events: seq<ChatEvent>, tail: string, s: Seen) returns (t: Seen)
    requires forall r, line :: p.onLine(r, line) == OnLine(isJson, r, line)
    requires AreChatEvents(isJson, events)
    ensures Lines(p, Stream(Events(Payloads(events)) + tail, s)) == Lines(p, Stream(tail, t))
    ensures SaysAll(s, ContentTexts(isJson, events), ReasoningTexts(isJson, events), FinishTexts(isJson, events), t)
  {
    var effect, payloads := EventEffect(isJson), Payloads(events);
    var contents, reasonings, finishes := ContentTexts(isJson, events), ReasoningTexts(isJson, events), FinishTexts(isJson, events);
    forall k | 0 <= k < |events|
      ensures Reads(p, effect, payloads[k]) && AddsAll(effect, payloads[k], contents[k], reasonings[k], finishes[k])
    {
      ChatEventReads(p, isJson, events[k]);
    }
    EventsRead(p, effect, payloads, tail, s);
    FoldedSays(effect, payloads, contents, reasonings, finishes, s);
    t := Folded(effect, s, payloads);
  }

  /** A line as section 9.2 of the HTML standard allows it: any blanks before the data, and a return at its end. */
  function DataLine(blanks: nat, payload: string, returned: bool): string {
    DATA + (Blanks(blanks) + payload) + if returned then "\r" else ""
  }

  function Blanks(n: nat): (s: string)
    ensures |s| == n && forall k | 0 <= k < n :: s[k] == ' '
  {
    seq(n, _ => ' ')
  }

  lemma {:induction false} BlanksSkipped(n: nat, payload: string)
    requires payload == "" || payload[0] != ' '
    ensures WithoutBlanks(Blanks(n) + payload) == payload
    decreases n
  {
    if n == 0 {
      assert Blanks(0) + payload == payload;
    } else {
      assert (Blanks(n) + payload)[1..] == Blanks(n - 1) + payload;
      BlanksSkipped(n - 1, payload);
    }
  }

  /** Every such line is the event, or the end mark. */
  lemma {:induction false} DataLineMeans(isJson: string -> bool, s: Seen, blanks: nat, payload: string, returned: bool)
    requires payload != "" && payload[0] != ' ' && (returned || payload[|payload| - 1] != '\r')
    ensures OnLine(isJson, s, DataLine(blanks, payload, returned))
         == if payload == DONE then Stop(s) else OnEvent(isJson, s, payload)
  {
    var t := DATA + (Blanks(blanks) + payload);
    var line := DataLine(blanks, payload, returned);
    assert t[|t| - 1] == payload[|payload| - 1];
    assert WithoutReturn(line) == t by {
      if returned {
        assert line[..|line| - 1] == t;
      } else {
        assert line == t;
      }
    }
    assert t[..5] == DATA && t[5..] == Blanks(blanks) + payload;
    BlanksSkipped(blanks, payload);
  }

  // ---------------------------------------------------------------- what the caller gets

  /** Some cut of a response: its headers, and a coded body. */
  ghost predicate Arrives(p: Protocol, parts: seq<string>, head: string, status: int, chunked: bool, decoded: string) {
    && IsHead(p, head, status, chunked)
    && exists body: string :: IsCodingOf(chunked, body, decoded) && Joined(parts) == head + body
  }

  /** However it is cut, the response is answered as its decoded body is. */
  lemma {:induction false} ArrivesAsOne(p: Protocol, parts: seq<string>, head: string, status: int, chunked: bool, decoded: string)
    returns (d: Decoder)
    requires Arrives(p, parts, head, status, chunked, decoded)
    ensures SameOutcome(p, ReceivedAll(ReceiverFor(p), parts), Streamed(p, Headless(status, d), decoded))
  {
    var body: string :| IsCodingOf(chunked, body, decoded) && Joined(parts) == head + body;
    DecodesCoding(chunked, body, decoded);
    DecodableResponse(p, head, status, chunked, body);
    HeadRead(p, head, status, chunked, body);
    d := FedWith(DecoderFor(chunked), body).decoder;
  }

  /** A stream of chat events: with the end mark and anything behind it, or without. */
  function ChatStream(payloads: seq<string>, marked: bool, rest: string): string {
    Events(payloads) + if marked then FIELD_START + DONE + NEWLINE + rest else ""
  }

  lemma {:induction false} ChatStreamRead(p: Protocol, isJson: string -> bool, events: seq<ChatEvent>, marked: bool, rest: string)
    requires forall t, line :: p.onLine(t, line) == OnLine(isJson, t, line)
    requires AreChatEvents(isJson, events)
    ensures var l := Lines(p, Stream(ChatStream(Payloads(events), marked, rest), NOTHING));
      && (if marked then l.Ended? else l.Running?)
      && l.stream.seen.done == marked
      && SaysAll(NOTHING, ContentTexts(isJson, events), ReasoningTexts(isJson, events), FinishTexts(isJson, events),
                 l.stream.seen.(done := false))
  {
    var tail := if marked then FIELD_START + DONE + NEWLINE + rest else "";
    var t := EventsMean(p, isJson, events, tail, NOTHING);
    if marked {
      DoneEnds(p, isJson, rest, t);
    } else {
      assert Find("", NEWLINE) == None;
    }
  }

  lemma {:induction false} StreamedSeen(p: Protocol, status: int, d: Decoder, decoded: string)
    requires IsSuccess(status) && !Lines(p, Stream(decoded, NOTHING)).Wrong?
    ensures var r := Streamed(p, Headless(status, d), decoded);
      && !r.Failed? && r.reader.status == status && r.reader.body.Some? && r.reader.decodedBody == decoded
      && r.reader.stream.seen == Lines(p, Stream(decoded, NOTHING)).stream.seen
  {
    assert "" + decoded == decoded;
  }

  /** End to end: events given by their text, coded in any way and cut anywhere, with the end mark or a reason
      to finish. The answer is their contents, or that there were none, with or without reasoning; and the
      flags say what the events do. */
  lemma {:induction false} ChatAnswer(p: Protocol, isJson: string -> bool, head: string, status: int, chunked: bool,
                                      events: seq<ChatEvent>, marked: bool, rest: string, parts: seq<string>)
    requires forall t, line :: p.onLine(t, line) == OnLine(isJson, t, line)
    requires AreChatEvents(isJson, events) && (marked || SomeText(FinishTexts(isJson, events)))
    requires 200 <= status <= 299 && Arrives(p, parts, head, status, chunked, ChatStream(Payloads(events), marked, rest))
    ensures var r, text := ReceivedAll(ReceiverFor(p), parts), JsonStrings.Concat(ContentTexts(isJson, events));
      && AnswerFor(p, r) == (if text != "" then Success(text) else NoContent(SomeText(ReasoningTexts(isJson, events))))
      && !r.Failed? && r.reader.stream.seen.done == marked
      && SaysAll(NOTHING, ContentTexts(isJson, events), ReasoningTexts(isJson, events), FinishTexts(isJson, events),
                 r.reader.stream.seen.(done := false))
  {
    var decoded := ChatStream(Payloads(events), marked, rest);
    var d := ArrivesAsOne(p, parts, head, status, chunked, decoded);
    ChatStreamRead(p, isJson, events, marked, rest);
    StreamedSeen(p, status, d, decoded);
    var text := JsonStrings.Concat(ContentTexts(isJson, events));
    assert "" + text == text;
  }

  /** Any other status than success: the answer is the body, whatever it holds. */
  lemma {:induction false} ErrorAnswer(p: Protocol, head: string, status: int, chunked: bool, decoded: string, parts: seq<string>)
    requires Arrives(p, parts, head, status, chunked, decoded) && !(200 <= status <= 299)
    ensures AnswerFor(p, ReceivedAll(ReceiverFor(p), parts)) == HttpError(decoded)
  {
    var d := ArrivesAsOne(p, parts, head, status, chunked, decoded);
    assert "" + decoded == decoded;
  }

  /** No line begins with `data:`. */
  ghost predicate HasNoEvents(text: string) {
    forall i: nat | MatchesAt(text, DATA, i) :: i > 0 && text[i - 1] != '\n'
  }

  lemma {:induction false} NoEventsRead(p: Protocol, isJson: string -> bool, text: string, s: Seen)
    requires forall t, line :: p.onLine(t, line) == OnLine(isJson, t, line)
    requires HasNoEvents(text)
    ensures Lines(p, Stream(text, s)).Running? && Lines(p, Stream(text, s)).stream.seen == s
    decreases |text|
  {
    var end := Find(text, NEWLINE);
    if end.Some? {
      FindMeans(text, NEWLINE);
      var i := end.value;
      var line, rest := text[..i], text[i + 1..];
      assert text[i..i + 1] == NEWLINE && text[i] == '\n';
      OtherLine(isJson, s, line, text);
      forall k: nat | MatchesAt(rest, DATA, k) ensures k > 0 && rest[k - 1] != '\n' {
        assert rest[k..k + 5] == text[i + 1 + k..i + 1 + k + 5];
        assert MatchesAt(text, DATA, i + 1 + k);
      }
      NoEventsRead(p, isJson, rest, s);
    }
  }

  lemma {:induction false} OtherLine(isJson: string -> bool, s: Seen, line: string, text: string)
    requires line <= text && HasNoEvents(text)
    ensures OnLine(isJson, s, line) == Next(s)
  {
    var t := WithoutReturn(line);
    if |t| >= 5 && t[..5] == DATA {
      assert text[0..5] == t[..5];
      assert MatchesAt(text, DATA, 0);
      assert false;
    }
  }

  /** A good response without events is taken as one JSON text, whose content is the answer. */
  lemma {:induction false} UnstreamedAnswer(p: Protocol, isJson: string -> bool, head: string, status: int, chunked: bool, decoded: string,
                                            content: JsonFields.Found, parts: seq<string>)
    requires forall t, line :: p.onLine(t, line) == OnLine(isJson, t, line)
    requires 200 <= status <= 299 && Arrives(p, parts, head, status, chunked, decoded) && HasNoEvents(decoded)
    ensures var answer := AnswerFor(p, ReceivedAll(ReceiverFor(p), parts));
      && (!p.isJson(decoded) ==> answer == BadJson)
      && (p.isJson(decoded) && Carries(decoded, "content", content) ==>
            answer == if TextOf(decoded, "content", content) != "" then Success(TextOf(decoded, "content", content))
                      else NoMessage)
  {
    var d := ArrivesAsOne(p, parts, head, status, chunked, decoded);
    NoEventsRead(p, isJson, decoded, NOTHING);
    StreamedSeen(p, status, d, decoded);
    if Carries(decoded, "content", content) {
      FieldMeans(decoded, "content", content);
    }
  }

  /** Bytes in which the headers do not end are no response. */
  lemma {:induction false} HeadlessAnswer(p: Protocol, parts: seq<string>)
    requires Find(Joined(parts), HEADER_END) == None
    ensures AnswerFor(p, ReceivedAll(ReceiverFor(p), parts)) == NoHeaders
  {
    var all := Joined(parts);
    assert START.undecoded + all == all;
    AnswerDoesNotDependOnCut(p, parts);
  }

  /** An event in error refuses the whole response: one that is not JSON, or in which a field that is looked
      at is neither a string nor `null`. */
  ghost predicate IsBadEvent(isJson: string -> bool, e: ChatEvent) {
    && IsPayload(e.payload)
    && (|| !isJson(e.payload)
        || IsBadField(e.payload, "content", e.content)
        || (Carries(e.payload, "content", e.content)
            && (|| IsBadField(e.payload, "reasoning_content", e.reasoning)
                || (Carries(e.payload, "reasoning_content", e.reasoning)
                    && IsBadField(e.payload, "finish_reason", e.finish)))))
  }

  ghost predicate IsBadField(payload: string, field: string, found: JsonFields.Found) {
    JsonFields.Describes(payload, field, found) && found.At? && (found.value.OtherValue? || found.value.OpenValue?)
  }

  lemma {:induction false} BadFieldMeans(payload: string, field: string, found: JsonFields.Found)
    requires IsBadField(payload, field, found)
    requires field == "content" || field == "reasoning_content" || field == "finish_reason"
    ensures JsonFields.Extracted(payload, field).Malformed?
  {
    NameCloses(field);
    JsonFields.ExtractsFound(payload, field, found);
  }

  lemma {:induction false} BadEventFails(isJson: string -> bool, e: ChatEvent, s: Seen)
    requires IsBadEvent(isJson, e)
    ensures OnEvent(isJson, s, e.payload).Bad?
  {
    if isJson(e.payload) {
      if IsBadField(e.payload, "content", e.content) {
        BadFieldMeans(e.payload, "content", e.content);
      } else if IsBadField(e.payload, "reasoning_content", e.reasoning) {
        BadFieldMeans(e.payload, "reasoning_content", e.reasoning);
      } else {
        BadFieldMeans(e.payload, "finish_reason", e.finish);
      }
    }
  }

  lemma {:induction false} BadEventRead(p: Protocol, isJson: string -> bool, bad: ChatEvent, rest: string, s: Seen)
    requires forall t, line :: p.onLine(t, line) == OnLine(isJson, t, line)
    requires IsBadEvent(isJson, bad)
    ensures Lines(p, Stream(Event(bad.payload) + rest, s)).Wrong?
  {
    BadEventFails(isJson, bad, s);
    EventLine(isJson, bad.payload, s);
    BadLineRead(p, FIELD_START + bad.payload, NEWLINE + rest, s);
    assert Event(bad.payload) + rest == FIELD_START + bad.payload + NEWLINE + (NEWLINE + rest);
  }

  lemma {:induction false} StreamedWrong(p: Protocol, status: int, d: Decoder, decoded: string)
    requires IsSuccess(status) && Lines(p, Stream(decoded, NOTHING)).Wrong?
    ensures Streamed(p, Headless(status, d), decoded).Failed?
  {
    assert "" + decoded == decoded;
  }

  /** One such event behind any others: the whole response is refused. */
  lemma {:induction false} BadEventAnswer(p: Protocol, isJson: string -> bool, head: string, status: int, chunked: bool,
                                          events: seq<ChatEvent>, bad: ChatEvent, rest: string, parts: seq<string>)
    requires forall t, line :: p.onLine(t, line) == OnLine(isJson, t, line)
    requires AreChatEvents(isJson, events) && IsBadEvent(isJson, bad) && 200 <= status <= 299
    requires Arrives(p, parts, head, status, chunked, Events(Payloads(events)) + (Event(bad.payload) + rest))
    ensures AnswerFor(p, ReceivedAll(ReceiverFor(p), parts)) == Refused
  {
    var tail := Event(bad.payload) + rest;
    var d := ArrivesAsOne(p, parts, head, status, chunked, Events(Payloads(events)) + tail);
    var t := EventsMean(p, isJson, events, tail, NOTHING);
    BadEventRead(p, isJson, bad, rest, t);
    StreamedWrong(p, status, d, Events(Payloads(events)) + tail);
  }

  lemma {:induction false} BadLineRead(p: Protocol, line: string, rest: string, s: Seen)
    requires '\n' !in line && p.onLine(s, line).Bad?
    ensures Lines(p, Stream(line + NEWLINE + rest, s)).Wrong?
  {
    LineEnd(line, rest);
  }

  // ---------------------------------------------------------------- one cut-dependent response

  /** A status line and one header field. */
  function HeadOf(line: string, field: string): string {
    line + (CRLF + (field + HEADER_END))
  }

  lemma {:induction false} HeadEnds(line: string, field: string)
    requires '\r' !in line && '\r' !in field && field != ""
    ensures Find(HeadOf(line, field), HEADER_END) == Some(|HeadOf(line, field)| - 4)
  {
    var head, n := HeadOf(line, field), |HeadOf(line, field)| - 4;
    forall k | 0 <= k < n ensures !MatchesAt(head, HEADER_END, k) {
      if MatchesAt(head, HEADER_END, k) {
        assert head[k..k + 4][0] == head[k] && head[k..k + 4][2] == head[k + 2];
        CharOfHead(line, field, k);
        CharOfHead(line, field, k + 2);
        assert false;
      }
    }
    assert head[n..n + 4] == HEADER_END;
    FindIs(head, HEADER_END, n);
  }

  lemma {:induction false} CharOfHead(line: string, field: string, k: nat)
    requires '\r' !in line && '\r' !in field && k < |HeadOf(line, field)|
    ensures HeadOf(line, field)[k] == '\r' ==>
              k == |line| || k == |line| + 2 + |field| || k == |line| + 4 + |field|
  {
    var head := HeadOf(line, field);
    if k < |line| {
      assert head[k] == line[k];
    } else if |line| + 2 <= k < |line| + 2 + |field| {
      assert head[k] == field[k - |line| - 2];
    } else if k >= |line| + 2 + |field| {
      assert head[k] == HEADER_END[k - |line| - 2 - |field|];
    } else {
      assert head[k] == CRLF[k - |line|];
    }
  }

  /** The part of it that the header scans are given. */
  function HeadersOf(line: string, field: string): string {
    line + (CRLF + (field + CRLF))
  }

  /** The scans find status 200 and chunks in this one head. */
  ghost predicate ScansHead(p: Protocol, isJson: string -> bool, line: string, field: string) {
    && (forall s, l :: p.onLine(s, l) == OnLine(isJson, s, l))
    && p.statusOf(HeadersOf(line, field)) == Some(200)
    && p.usesChunks(HeadersOf(line, field))
  }

  /** The end mark in a chunk. */
  predicate IsEndChunk(c: Chunk) {
    IsChunk(c) && IsPlain(c) && c.data == FIELD_START + DONE + NEWLINE + ""
  }

  lemma {:induction false} ScannedHead(p: Protocol, isJson: string -> bool, line: string, field: string, c: Chunk)
    requires ScansHead(p, isJson, line, field) && IsEndChunk(c)
    requires '\r' !in line && '\r' !in field && field != ""
    ensures IsChunkedHead(p, HeadOf(line, field), 200)
    ensures EndsIn(p, 200, c.data) && c.data != ""
  {
    var head := HeadOf(line, field);
    HeadEnds(line, field);
    assert head[..|head| - 2] == HeadersOf(line, field);
    DoneEnds(p, isJson, "", NOTHING);
  }

  lemma {:induction false} BlankTail(p: Protocol, head: string, c: Chunk, last: Chunk, trailer: string)
    requires IsChunkedHead(p, head, 200)
    requires IsChunk(c) && IsPlain(c) && c.data != "" && EndsIn(p, 200, c.data)
    requires IsChunk(last) && last.data == "" && !IsPlain(last)
    ensures !CutsAgree(p, head + (Encode(c) + (SizeLine(last) + CRLF + trailer)))
  {
    OneChunkEncoded(c, last, trailer);
    ChunkedResponse(p, head, 200, [c], last, trailer);
  }

  const EXAMPLE_LINE := "HTTP/1.1 200 OK"
  const EXAMPLE_FIELD := "Transfer-Encoding: chunked"
  const EXAMPLE_HEAD := HeadOf(EXAMPLE_LINE, EXAMPLE_FIELD)

  /** A good header, the end mark in a chunk of 13 bytes, and then an empty line instead of a size. */
  lemma {:induction false} CutDependentExample(p: Protocol, isJson: string -> bool)
    requires ScansHead(p, isJson, EXAMPLE_LINE, EXAMPLE_FIELD)
    ensures !CutsAgree(p, EXAMPLE_HEAD + (Encode(Chunk("d", "", "", "data: [DONE]\n")) + CRLF))
  {
    var c := Chunk("d", "", "", "data: [DONE]\n");
    ExampleChunks(c, Chunk("0", " ", ";x", ""));
    ScannedHead(p, isJson, EXAMPLE_LINE, EXAMPLE_FIELD, c);
    BadTailIsCutDependent(p, EXAMPLE_HEAD, 200, c);
  }

  /** The same chunk, and then a last chunk with a blank before its extension: a response that RFC 9112
      allows and that is cut-dependent. */
  lemma {:induction false} BlankIsCutDependent(p: Protocol, isJson: string -> bool)
    requires ScansHead(p, isJson, EXAMPLE_LINE, EXAMPLE_FIELD)
    ensures !CutsAgree(p, EXAMPLE_HEAD + (Encode(Chunk("d", "", "", "data: [DONE]\n")) + ("0 ;x" + CRLF + CRLF)))
  {
    var c, last := Chunk("d", "", "", "data: [DONE]\n"), Chunk("0", " ", ";x", "");
    ExampleChunks(c, last);
    ScannedHead(p, isJson, EXAMPLE_LINE, EXAMPLE_FIELD, c);
    BlankTail(p, EXAMPLE_HEAD, c, last, CRLF);
  }

  lemma {:induction false} ExampleChunks(c: Chunk, last: Chunk)
    requires c == Chunk("d", "", "", "data: [DONE]\n") && last == Chunk("0", " ", ";x", "")
    ensures IsEndChunk(c)
    ensures IsChunk(last) && last.data == "" && !IsPlain(last) && SizeLine(last) == "0 ;x"
  {
    assert "d"[..0] == "" && "0"[..0] == "";
    assert JsonStrings.HexNumber("") == 0;
    assert JsonStrings.HexNumber("d") == 13 && JsonStrings.HexNumber("0") == 0;
  }

  lemma {:induction false} OneChunkEncoded(c: Chunk, last: Chunk, trailer: string)
    ensures EncodeAll([c], last, trailer) == Encode(c) + (SizeLine(last) + CRLF + trailer)
    ensures IsPlain(c) ==> Body(PlainPart([c])) == c.data
  {
    assert [c][1..] == [];
    assert [c] + PlainPart([]) == [c];
    assert Body([]) == "" && c.data + "" == c.data;
  }
}
