/** `FindJsonFieldValue` and `ExtractStringField`: a named field of a JSON text, found by its quotes. */
module JsonFields {
  import opened Options
  import opened Texts
  import JsonStrings

  // ---------------------------------------------------------------- specification

  /** Where the literal that is being read at `i` closes, or the end of the text. */
  function LiteralEnd(body: string, i: nat, escaped: bool): (end: nat)
    requires i <= |body|
    ensures i <= end <= |body|
    decreases |body| - i
  {
    if i == |body| || (!escaped && body[i] == '"') then i
    else LiteralEnd(body, i + 1, !escaped && body[i] == '\\')
  }

  function SpacesEnd(body: string, i: nat): (end: nat)
    requires i <= |body|
    ensures i <= end <= |body|
    decreases |body| - i
  {
    if i < |body| && IsSpace(body[i]) then SpacesEnd(body, i + 1) else i
  }

  predicate HasColonAt(body: string, i: nat) {
    i < |body| && body[i] == ':'
  }

  /** The position behind the colon of the first literal that is the field's name and has a colon. */
  function FieldFrom(body: string, field: string, start: nat): (r: Option<nat>)
    requires start <= |body|
    ensures r.Some? ==> r.value <= |body|
    decreases |body| - start
  {
    if start == |body| then None
    else if body[start] != '"' then FieldFrom(body, field, start + 1)
    else
      var end := LiteralEnd(body, start + 1, false);
      if end == |body| then None
      else
        var colon := SpacesEnd(body, end + 1);
        if body[start + 1..end] == field && HasColonAt(body, colon) then Some(colon + 1)
        else FieldFrom(body, field, end + 1)
  }

  datatype FieldError = NotAString | NotTerminated

  datatype Field = Missing | Null | Text(text: string) | Malformed(error: FieldError)

  function ValueAt(body: string, start: nat): Field
    requires start <= |body|
  {
    if start + 4 <= |body| && body[start..start + 4] == "null" then Null
    else if start == |body| || body[start] != '"' then Malformed(NotAString)
    else
      var end := LiteralEnd(body, start + 1, false);
      if end == |body| then Malformed(NotTerminated) else Text(JsonStrings.Decode(body[start + 1..end]))
  }

  function Extracted(body: string, field: string): Field {
    var value := FieldFrom(body, field, 0);
    if value == None then Missing else ValueAt(body, SpacesEnd(body, value.value))
  }

  // ---------------------------------------------------------------- the loops

  method FindJsonFieldValue(body: string, field: string) returns (value: Option<nat>)
    ensures value == FieldFrom(body, field, 0)
  {
    var start := 0;
    while start < |body|
      invariant start <= |body|
      invariant FieldFrom(body, field, start) == FieldFrom(body, field, 0)
    {
      if body[start] != '"' {
        start := start + 1;
        continue;
      }
      var end := start + 1;
      var escaped := false;
      while end < |body|
        invariant start < end <= |body|
        invariant LiteralEnd(body, end, escaped) == LiteralEnd(body, start + 1, false)
      {
        if !escaped && body[end] == '"' {
          break;
        }
        escaped := !escaped && body[end] == '\\';
        end := end + 1;
      }
      if end == |body| {
        return None;
      }
      var colon := end + 1;
      while colon < |body| && IsSpace(body[colon])
        invariant end < colon <= |body|
        invariant SpacesEnd(body, colon) == SpacesEnd(body, end + 1)
      {
        colon := colon + 1;
      }
      if body[start + 1..end] == field && colon < |body| && body[colon] == ':' {
        return Some(colon + 1);
      }
      start := end + 1;
    }
    return None;
  }

  method ExtractStringField(body: string, field: string) returns (result: Field)
    ensures result == Extracted(body, field)
  {
    var valueStart := FindJsonFieldValue(body, field);
    if valueStart == None {
      return Missing;
    }
    var start := valueStart.value;
    while start < |body| && IsSpace(body[start])
      invariant start <= |body|
      invariant SpacesEnd(body, start) == SpacesEnd(body, valueStart.value)
    {
      start := start + 1;
    }
    if start + 4 <= |body| && body[start..start + 4] == "null" {
      return Null;
    }
    if start >= |body| || body[start] != '"' {
      return Malformed(NotAString);
    }
    start := start + 1;
    var raw := "";
    var escaped := false;
    for index := start to |body|
      invariant raw == body[start..index]
      invariant LiteralEnd(body, index, escaped) == LiteralEnd(body, start, false)
    {
      var ch := body[index];
      if !escaped && ch == '"' {
        var text := JsonStrings.DecodeJsonString(raw);
        return Text(text);
      }
      escaped := !escaped && ch == '\\';
      raw := raw + [ch];
    }
    return Malformed(NotTerminated);
  }

  // ---------------------------------------------------------------- what the scan finds

  /** A text without quotes, a string literal, or one with what stands behind it: spaces, and a character that
      is no colon. */
  datatype Segment = Plain(text: string) | Literal(raw: string) | Ended(raw: string, spaces: string, stop: char)

  /** The literal's text closes at the quote behind it and nowhere before. */
  predicate IsClosed(raw: string, escaped: bool) {
    if raw == "" then !escaped else (escaped || raw[0] != '"') && IsClosed(raw[1..], !escaped && raw[0] == '\\')
  }

  predicate Skips(segment: Segment, field: string) {
    match segment
    case Plain(text) => '"' !in text
    case Literal(raw) => IsClosed(raw, false) && raw != field
    case Ended(raw, spaces, stop) =>
      IsClosed(raw, false) && AllSpaces(spaces) && !IsSpace(stop) && stop != ':' && stop != '"'
  }

  predicate AllSpaces(s: string) {
    forall k: nat | k < |s| :: IsSpace(s[k])
  }

  function Quoted(raw: string): string {
    "\"" + raw + "\""
  }

  function Printed(segment: Segment): string {
    match segment
    case Plain(text) => text
    case Literal(raw) => Quoted(raw)
    case Ended(raw, spaces, stop) => Quoted(raw) + (spaces + [stop])
  }

  function PrintedAll(segments: seq<Segment>): string {
    if segments == [] then "" else Printed(segments[0]) + PrintedAll(segments[1..])
  }

  lemma {:induction false} LiteralCloses(body: string, i: nat, raw: string, escaped: bool)
    requires i + |raw| < |body| && body[i + |raw|] == '"' && IsClosed(raw, escaped)
    requires forall k: nat | k < |raw| :: body[i + k] == raw[k]
    ensures LiteralEnd(body, i, escaped) == i + |raw|
    decreases |raw|
  {
    if raw != "" {
      assert body[i + 0] == raw[0];
      forall k: nat | k < |raw| - 1 ensures body[i + 1 + k] == raw[1..][k] {
        assert body[i + (k + 1)] == raw[k + 1];
      }
      LiteralCloses(body, i + 1, raw[1..], !escaped && raw[0] == '\\');
    }
  }

  lemma {:induction false} SpacesStop(body: string, i: nat, j: nat)
    requires i <= j < |body| && !IsSpace(body[j]) && forall k | i <= k < j :: IsSpace(body[k])
    ensures SpacesEnd(body, i) == j
    decreases j - i
  {
    if i < j {
      SpacesStop(body, i + 1, j);
    }
  }

  lemma {:induction false} PlainSkipped(body: string, field: string, i: nat, n: nat)
    requires i + n <= |body| && forall k | i <= k < i + n :: body[k] != '"'
    ensures FieldFrom(body, field, i) == FieldFrom(body, field, i + n)
    decreases n
  {
    if n > 0 {
      PlainSkipped(body, field, i + 1, n - 1);
    }
  }

  lemma {:induction false} LiteralInside(body: string, i: nat, raw: string)
    requires MatchesAt(body, Quoted(raw), i) && IsClosed(raw, false)
    ensures body[i] == '"' && MatchesAt(body, raw, i + 1) && body[i + 1 + |raw|] == '"'
    ensures LiteralEnd(body, i + 1, false) == i + 1 + |raw|
  {
    var q := Quoted(raw);
    MatchesChars(body, q, i);
    assert q[0] == '"' && q[1 + |raw|] == '"';
    assert body[i + 0] == q[0] && body[i + (1 + |raw|)] == q[1 + |raw|];
    forall k: nat | k < |raw| ensures body[i + 1 + k] == raw[k] {
      assert body[i + (k + 1)] == q[k + 1] == raw[k];
    }
    MatchesChars(body, raw, i + 1);
    LiteralCloses(body, i + 1, raw, false);
  }

  lemma {:induction false} LiteralSkipped(body: string, field: string, i: nat, raw: string)
    requires MatchesAt(body, Quoted(raw), i) && IsClosed(raw, false) && raw != field
    ensures FieldFrom(body, field, i) == FieldFrom(body, field, i + |raw| + 2)
  {
    LiteralInside(body, i, raw);
  }

  /** Spaces, and then the text `t`. */
  lemma {:induction false} SpacesThen(body: string, i: nat, spaces: string, t: string)
    requires MatchesAt(body, spaces + t, i) && AllSpaces(spaces) && t != "" && !IsSpace(t[0])
    ensures SpacesEnd(body, i) == i + |spaces| && MatchesAt(body, t, i + |spaces|) && body[i + |spaces|] == t[0]
  {
    MatchesParts(body, spaces, t, i);
    MatchesChars(body, spaces, i);
    MatchesChars(body, t, i + |spaces|);
    assert body[i + |spaces| + 0] == t[0];
    forall k | i <= k < i + |spaces| ensures IsSpace(body[k]) {
      assert body[i + (k - i)] == spaces[k - i];
    }
    SpacesStop(body, i, i + |spaces|);
  }

  /** A literal without a colon behind it is no name, whatever it says. */
  lemma {:induction false} EndedSkipped(body: string, field: string, i: nat, raw: string, spaces: string, stop: char)
    requires MatchesAt(body, Quoted(raw) + (spaces + [stop]), i) && IsClosed(raw, false)
    requires AllSpaces(spaces) && !IsSpace(stop) && stop != ':' && stop != '"'
    ensures FieldFrom(body, field, i) == FieldFrom(body, field, i + |Quoted(raw) + (spaces + [stop])|)
  {
    var end := i + |raw| + 2;
    MatchesParts(body, Quoted(raw), spaces + [stop], i);
    LiteralInside(body, i, raw);
    SpacesThen(body, end, spaces, [stop]);
    NoColonNext(body, field, i, end, end + |spaces|);
    var behind := spaces + [stop];
    MatchesChars(body, behind, end);
    forall k | end <= k < end + |behind| ensures body[k] != '"' {
      assert body[end + (k - end)] == behind[k - end];
    }
    PlainSkipped(body, field, end, |behind|);
  }

  lemma {:induction false} NoColonNext(body: string, field: string, i: nat, end: nat, colon: nat)
    requires i < end <= |body| && body[i] == '"' && LiteralEnd(body, i + 1, false) == end - 1 < |body|
    requires SpacesEnd(body, end) == colon && !HasColonAt(body, colon)
    ensures FieldFrom(body, field, i) == FieldFrom(body, field, end)
  {
  }

  lemma {:induction false} SegmentSkipped(body: string, field: string, i: nat, segment: Segment)
    requires MatchesAt(body, Printed(segment), i) && Skips(segment, field)
    ensures FieldFrom(body, field, i) == FieldFrom(body, field, i + |Printed(segment)|)
  {
    if segment.Plain? {
      MatchesChars(body, segment.text, i);
      forall k | i <= k < i + |segment.text| ensures body[k] != '"' {
        assert body[i + (k - i)] == segment.text[k - i];
      }
      PlainSkipped(body, field, i, |segment.text|);
    } else if segment.Ended? {
      EndedSkipped(body, field, i, segment.raw, segment.spaces, segment.stop);
    } else {
      LiteralSkipped(body, field, i, segment.raw);
    }
  }

  /** The search gives the same before and behind the text, wherever it stands. */
  ghost predicate Ignores(find: nat -> Option<nat>, body: string, text: string) {
    forall j: nat | MatchesAt(body, text, j) :: find(j) == find(j + |text|)
  }

  lemma {:induction false} IgnoresBoth(find: nat -> Option<nat>, body: string, a: string, b: string)
    requires Ignores(find, body, a) && Ignores(find, body, b)
    ensures Ignores(find, body, a + b)
  {
    forall j: nat | MatchesAt(body, a + b, j) ensures find(j) == find(j + |a + b|) {
      MatchesParts(body, a, b, j);
    }
  }

  lemma {:induction false} IgnoresAll(find: nat -> Option<nat>, body: string, segments: seq<Segment>)
    requires forall k | 0 <= k < |segments| :: Ignores(find, body, Printed(segments[k]))
    ensures Ignores(find, body, PrintedAll(segments))
    decreases |segments|
  {
    if segments != [] {
      IgnoresAll(find, body, segments[1..]);
      IgnoresBoth(find, body, Printed(segments[0]), PrintedAll(segments[1..]));
    }
  }

  function Finder(body: string, field: string): nat -> Option<nat> {
    (i: nat) => if i <= |body| then FieldFrom(body, field, i) else None
  }

  lemma {:induction false} FinderSkips(body: string, field: string, j: nat, segment: Segment)
    requires MatchesAt(body, Printed(segment), j) && Skips(segment, field)
    ensures Finder(body, field)(j) == Finder(body, field)(j + |Printed(segment)|)
  {
    SegmentSkipped(body, field, j, segment);
  }

  lemma {:induction false} FinderIgnores(body: string, field: string, segment: Segment)
    requires Skips(segment, field)
    ensures Ignores(Finder(body, field), body, Printed(segment))
  {
    forall j: nat | MatchesAt(body, Printed(segment), j)
      ensures Finder(body, field)(j) == Finder(body, field)(j + |Printed(segment)|)
    {
      FinderSkips(body, field, j, segment);
    }
  }

  lemma {:induction false} SegmentsSkipped(body: string, field: string, segments: seq<Segment>)
    requires MatchesAt(body, PrintedAll(segments), 0)
    requires forall k | 0 <= k < |segments| :: Skips(segments[k], field)
    ensures FieldFrom(body, field, 0) == FieldFrom(body, field, |PrintedAll(segments)|)
  {
    var find := Finder(body, field);
    forall k | 0 <= k < |segments| ensures Ignores(find, body, Printed(segments[k])) {
      FinderIgnores(body, field, segments[k]);
    }
    IgnoresAll(find, body, segments);
    assert find(0) == find(0 + |PrintedAll(segments)|);
  }

  /** The member that carries the field: name, colon and string value. */
  function Member(field: string, before: string, after: string, raw: string): string {
    Quoted(field) + (before + (":" + (after + Quoted(raw))))
  }

  /** The field's name and colon are found. */
  lemma {:induction false} NameRead(body: string, i: nat, field: string, before: string, rest: string)
    requires IsClosed(field, false) && AllSpaces(before)
    requires MatchesAt(body, Quoted(field) + (before + (":" + rest)), i)
    ensures FieldFrom(body, field, i) == Some(i + |field| + |before| + 3)
    ensures MatchesAt(body, rest, i + |field| + |before| + 3)
  {
    MatchesParts(body, Quoted(field), before + (":" + rest), i);
    LiteralInside(body, i, field);
    SpacesThen(body, i + |field| + 2, before, ":" + rest);
    FieldHere(body, i, field, i + |field| + 2 + |before|);
    MatchesParts(body, ":", rest, i + |field| + 2 + |before|);
  }

  lemma {:induction false} FieldHere(body: string, i: nat, field: string, colon: nat)
    requires i + |field| + 2 <= |body| && body[i] == '"' && body[i + 1..i + 1 + |field|] == field
    requires LiteralEnd(body, i + 1, false) == i + 1 + |field|
    requires SpacesEnd(body, i + 2 + |field|) == colon && HasColonAt(body, colon)
    ensures FieldFrom(body, field, i) == Some(colon + 1)
  {
  }

  /** The value is decoded. */
  lemma {:induction false} ValueRead(body: string, i: nat, after: string, raw: string)
    requires IsClosed(raw, false) && AllSpaces(after) && MatchesAt(body, after + Quoted(raw), i)
    ensures ValueAt(body, SpacesEnd(body, i)) == Text(JsonStrings.Decode(raw))
  {
    SpacesThen(body, i, after, Quoted(raw));
    var start := i + |after|;
    LiteralInside(body, start, raw);
    if start + 4 <= |body| {
      assert body[start..start + 4][0] == '"';
    }
  }

  lemma {:induction false} ExtractedAt(body: string, field: string, at: nat)
    requires FieldFrom(body, field, 0) == Some(at)
    ensures Extracted(body, field) == ValueAt(body, SpacesEnd(body, at))
  {
  }

  /** The first literal that is the field's name and has a colon, with whatever stands behind it. */
  lemma {:induction false} ValueFound(segments: seq<Segment>, field: string, before: string, value: string, body: string) returns (at: nat)
    requires forall k | 0 <= k < |segments| :: Skips(segments[k], field)
    requires IsClosed(field, false) && AllSpaces(before)
    requires body == PrintedAll(segments) + (Quoted(field) + (before + (":" + value)))
    ensures FieldFrom(body, field, 0) == Some(at) && MatchesAt(body, value, at) && |body| == at + |value|
  {
    var pre, m := PrintedAll(segments), Quoted(field) + (before + (":" + value));
    TwoParts(pre, m);
    SegmentsSkipped(body, field, segments);
    at := ValueBehind(body, field, before, value, |pre|);
  }

  lemma {:induction false} ValueBehind(body: string, field: string, before: string, value: string, pre: nat) returns (at: nat)
    requires IsClosed(field, false) && AllSpaces(before) && pre <= |body|
    requires MatchesAt(body, Quoted(field) + (before + (":" + value)), pre)
    requires |body| == pre + |Quoted(field) + (before + (":" + value))|
    ensures FieldFrom(body, field, pre) == Some(at) && MatchesAt(body, value, at) && |body| == at + |value|
  {
    NameRead(body, pre, field, before, value);
    at := pre + |field| + |before| + 3;
  }

  lemma {:induction false} TwoParts(a: string, b: string)
    ensures MatchesAt(a + b, a, 0) && MatchesAt(a + b, b, |a|)
  {
  }

  /** The first literal that is the field's name, with a colon and a string behind it, gives the
      field's value: the decoded string. */
  lemma {:induction false} ExtractsMember(segments: seq<Segment>, field: string, before: string, after: string, raw: string, rest: string)
    requires forall k | 0 <= k < |segments| :: Skips(segments[k], field)
    requires IsClosed(field, false) && IsClosed(raw, false) && AllSpaces(before) && AllSpaces(after)
    ensures Extracted(PrintedAll(segments) + (Member(field, before, after, raw) + rest), field)
         == Text(JsonStrings.Decode(raw))
  {
    var body, value := PrintedAll(segments) + (Member(field, before, after, raw) + rest), (after + Quoted(raw)) + rest;
    assert Member(field, before, after, raw) + rest == Quoted(field) + (before + (":" + value));
    var at := ValueFound(segments, field, before, value, body);
    MatchesParts(body, after + Quoted(raw), rest, at);
    ValueRead(body, at, after, raw);
    ExtractedAt(body, field, at);
  }

  /** So a value that is written in any mix of forms comes out as UTF-8. */
  lemma {:induction false} ExtractsUtf8(segments: seq<Segment>, field: string, before: string, after: string, texts: seq<string>,
                     cs: seq<nat>, rest: string)
    requires forall k | 0 <= k < |segments| :: Skips(segments[k], field)
    requires |texts| == |cs|
    requires forall k | 0 <= k < |cs| :: JsonStrings.IsScalar(cs[k]) && JsonStrings.Writes(texts[k], cs[k])
    requires IsClosed(field, false) && IsClosed(JsonStrings.Concat(texts), false)
    requires AllSpaces(before) && AllSpaces(after)
    ensures Extracted(PrintedAll(segments) + (Member(field, before, after, JsonStrings.Concat(texts)) + rest), field)
         == Text(JsonStrings.Concat(JsonStrings.Utf8All(cs)))
  {
    ExtractsMember(segments, field, before, after, JsonStrings.Concat(texts), rest);
    JsonStrings.DecodesToUtf8(texts, cs);
  }

  // ---------------------------------------------------------------- what a text says about a field

  /** A value with what is behind it: `null`, a string in any mix of forms, something that is neither, or
      a string that does not end. */
  datatype Value =
    | NullValue(rest: string)
    | StringValue(texts: seq<string>, codes: seq<nat>, rest: string)
    | OtherValue(value: string)
    | OpenValue(raw: string)

  function PrintedValue(value: Value): string {
    match value
    case NullValue(rest) => "null" + rest
    case StringValue(texts, _, rest) => Quoted(JsonStrings.Concat(texts)) + rest
    case OtherValue(v) => v
    case OpenValue(raw) => "\"" + raw
  }

  /** How a text carries a field: not at all, or behind segments that are not its name as its name, a
      colon and a value. */
  datatype Found = Nowhere(segments: seq<Segment>)
                 | At(segments: seq<Segment>, before: string, after: string, value: Value)

  /** No quote in the text closes it. */
  predicate StaysOpen(raw: string, escaped: bool) {
    raw == "" || ((escaped || raw[0] != '"') && StaysOpen(raw[1..], !escaped && raw[0] == '\\'))
  }

  ghost predicate IsStringForm(texts: seq<string>, codes: seq<nat>) {
    && |texts| == |codes|
    && (forall k | 0 <= k < |codes| :: JsonStrings.IsScalar(codes[k]) && JsonStrings.Writes(texts[k], codes[k]))
    && IsClosed(JsonStrings.Concat(texts), false)
  }

  ghost predicate IsValue(value: Value) {
    match value
    case NullValue(_) => true
    case StringValue(texts, codes, _) => IsStringForm(texts, codes)
    case OtherValue(v) => v == "" || (!IsSpace(v[0]) && v[0] != '"' && v[0] != 'n')
    case OpenValue(raw) => StaysOpen(raw, false)
  }

  ghost predicate Describes(body: string, field: string, found: Found) {
    && (forall k | 0 <= k < |found.segments| :: Skips(found.segments[k], field))
    && match found
       case Nowhere(segments) => body == PrintedAll(segments)
       case At(segments, before, after, value) =>
         && AllSpaces(before) && AllSpaces(after) && IsValue(value)
         && body == PrintedAll(segments) + (Quoted(field) + (before + (":" + (after + PrintedValue(value)))))
  }

  lemma {:induction false} NothingFound(body: string, field: string)
    ensures FieldFrom(body, field, |body|) == None
  {
  }

  lemma {:induction false} NullRead(body: string, at: nat, after: string, rest: string)
    requires MatchesAt(body, after + ("null" + rest), at) && AllSpaces(after)
    ensures ValueAt(body, SpacesEnd(body, at)) == Null
  {
    SpacesThen(body, at, after, "null" + rest);
    MatchesParts(body, "null", rest, at + |after|);
  }

  lemma {:induction false} OtherRead(body: string, at: nat, after: string, value: string)
    requires MatchesAt(body, after + value, at) && |body| == at + |after + value| && AllSpaces(after)
    requires value == "" || (!IsSpace(value[0]) && value[0] != '"' && value[0] != 'n')
    ensures ValueAt(body, SpacesEnd(body, at)) == Malformed(NotAString)
  {
    if value == "" {
      assert after + value == after;
      MatchesChars(body, after, at);
      forall k | at <= k < |body| ensures IsSpace(body[k]) {
        assert body[at + (k - at)] == after[k - at];
      }
      SpacesToEnd(body, at);
    } else {
      SpacesThen(body, at, after, value);
      var start := at + |after|;
      if start + 4 <= |body| {
        assert body[start..start + 4][0] == value[0];
      }
    }
  }

  lemma {:induction false} SpacesToEnd(body: string, i: nat)
    requires i <= |body| && forall k | i <= k < |body| :: IsSpace(body[k])
    ensures SpacesEnd(body, i) == |body|
    decreases |body| - i
  {
    if i < |body| {
      SpacesToEnd(body, i + 1);
    }
  }

  lemma {:induction false} LiteralStaysOpen(body: string, i: nat, raw: string, escaped: bool)
    requires i + |raw| == |body| && StaysOpen(raw, escaped)
    requires forall k: nat | k < |raw| :: body[i + k] == raw[k]
    ensures LiteralEnd(body, i, escaped) == |body|
    decreases |raw|
  {
    if raw != "" {
      assert body[i + 0] == raw[0];
      forall k: nat | k < |raw| - 1 ensures body[i + 1 + k] == raw[1..][k] {
        assert body[i + (k + 1)] == raw[k + 1];
      }
      LiteralStaysOpen(body, i + 1, raw[1..], !escaped && raw[0] == '\\');
    }
  }

  lemma {:induction false} OpenRead(body: string, at: nat, after: string, raw: string)
    requires MatchesAt(body, after + ("\"" + raw), at) && |body| == at + |after| + 1 + |raw|
    requires AllSpaces(after) && StaysOpen(raw, false)
    ensures ValueAt(body, SpacesEnd(body, at)) == Malformed(NotTerminated)
  {
    SpacesThen(body, at, after, "\"" + raw);
    OpenAt(body, at + |after|, raw);
  }

  lemma {:induction false} OpenAt(body: string, start: nat, raw: string)
    requires MatchesAt(body, "\"" + raw, start) && |body| == start + 1 + |raw| && StaysOpen(raw, false)
    ensures ValueAt(body, start) == Malformed(NotTerminated)
  {
    var all := "\"" + raw;
    MatchesChars(body, all, start);
    assert body[start + 0] == all[0];
    forall k: nat | k < |raw| ensures body[start + 1 + k] == raw[k] {
      assert body[start + (k + 1)] == all[k + 1];
    }
    LiteralStaysOpen(body, start + 1, raw, false);
    if start + 4 <= |body| {
      assert body[start..start + 4][0] == '"';
    }
  }

  lemma {:induction false} StringRead(body: string, at: nat, after: string, texts: seq<string>, codes: seq<nat>, rest: string)
    requires IsStringForm(texts, codes) && AllSpaces(after)
    requires MatchesAt(body, after + (Quoted(JsonStrings.Concat(texts)) + rest), at)
    ensures ValueAt(body, SpacesEnd(body, at)) == Text(JsonStrings.Concat(JsonStrings.Utf8All(codes)))
  {
    var raw := JsonStrings.Concat(texts);
    assert after + (Quoted(raw) + rest) == (after + Quoted(raw)) + rest;
    MatchesParts(body, after + Quoted(raw), rest, at);
    ValueRead(body, at, after, raw);
    JsonStrings.DecodesToUtf8(texts, codes);
  }

  lemma {:induction false} ReadsValue(body: string, at: nat, after: string, value: Value)
    requires MatchesAt(body, after + PrintedValue(value), at) && |body| == at + |after + PrintedValue(value)|
    requires AllSpaces(after) && IsValue(value)
    ensures ValueAt(body, SpacesEnd(body, at))
         == match value
            case NullValue(_) => Null
            case StringValue(_, codes, _) => Text(JsonStrings.Concat(JsonStrings.Utf8All(codes)))
            case OtherValue(_) => Malformed(NotAString)
            case OpenValue(_) => Malformed(NotTerminated)
  {
    match value
    case NullValue(rest) => NullRead(body, at, after, rest);
    case StringValue(texts, codes, rest) => StringRead(body, at, after, texts, codes, rest);
    case OtherValue(v) => OtherRead(body, at, after, v);
    case OpenValue(raw) => OpenRead(body, at, after, raw);
  }

  /** What is extracted is what the text says: nothing, `null`, the UTF-8 of the string, or an error. */
  lemma {:induction false} ExtractsFound(body: string, field: string, found: Found)
    requires IsClosed(field, false) && Describes(body, field, found)
    ensures Extracted(body, field)
         == if found.Nowhere? then Missing
            else match found.value
                 case NullValue(_) => Null
                 case StringValue(_, codes, _) => Text(JsonStrings.Concat(JsonStrings.Utf8All(codes)))
                 case OtherValue(_) => Malformed(NotAString)
                 case OpenValue(_) => Malformed(NotTerminated)
  {
    if found.Nowhere? {
      assert MatchesAt(body, PrintedAll(found.segments), 0);
      SegmentsSkipped(body, field, found.segments);
      NothingFound(body, field);
    } else {
      var v := found.after + PrintedValue(found.value);
      var at := ValueFound(found.segments, field, found.before, v, body);
      ExtractedAt(body, field, at);
      ReadsValue(body, at, found.after, found.value);
    }
  }
}
