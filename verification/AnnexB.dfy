/** `Nals` and `Avcc`: from start codes to four-byte lengths. */
module AnnexBs {
  import opened Options
  import opened Crc16s

  type Bytes = seq<u8>

  // ---------------------------------------------------------------- splitting

  /** The length of the start code at `i`, or 0. */
  function StartCodeAt(data: Bytes, i: nat): (n: nat)
    requires i + 3 < |data|
  {
    if data[i] == 0 && data[i + 1] == 0 && data[i + 2] == 1 then 3
    else if data[i] == 0 && data[i + 1] == 0 && data[i + 2] == 0 && data[i + 3] == 1 then 4
    else 0
  }

  /** Where a start code begins, and where it ends. */
  datatype Mark = Mark(begin: nat, end: nat)

  function Marks(data: Bytes, i: nat): seq<Mark>
    decreases |data| - i
  {
    if i + 3 >= |data| then []
    else
      var n := StartCodeAt(data, i);
      if n == 0 then Marks(data, i + 1) else [Mark(i, i + n)] + Marks(data, i + n)
  }

  /** Marks lie inside the data, one behind the other. */
  predicate InOrder(marks: seq<Mark>, size: nat) {
    && (forall k | 0 <= k < |marks| :: marks[k].begin < marks[k].end <= size)
    && (forall j, k | 0 <= j < k < |marks| :: marks[j].end <= marks[k].begin)
  }

  /** The unit behind the first mark: up to the next mark, or to the end. */
  function Unit(data: Bytes, marks: seq<Mark>, k: nat): Bytes
    requires k < |marks|
  {
    var end := if k + 1 < |marks| then marks[k + 1].begin else |data|;
    if marks[k].end <= end <= |data| then data[marks[k].end..end] else []
  }

  function UnlessEmpty(unit: Bytes): seq<Bytes> {
    if unit == [] then [] else [unit]
  }

  /** `item(0)`, `item(1)` and so on, one behind the other. */
  function Collected<T>(item: nat -> seq<T>, n: nat): seq<T> {
    if n == 0 then [] else Collected(item, n - 1) + item(n - 1)
  }

  /** The unit behind each mark, if it is not empty. */
  function UnitsOf(data: Bytes, marks: seq<Mark>): nat -> seq<Bytes> {
    (k: nat) => if k < |marks| then UnlessEmpty(Unit(data, marks, k)) else []
  }

  function NalUnits(data: Bytes): seq<Bytes> {
    var marks := Marks(data, 0);
    if marks == [] then (if data == [] then [] else [data]) else Collected(UnitsOf(data, marks), |marks|)
  }

  /** The first loop of `Nals`. */
  method FindStarts(data: Bytes) returns (starts: seq<Mark>)
    ensures starts == Marks(data, 0)
  {
    starts := [];
    var i := 0;
    while i + 3 < |data|
      invariant starts + Marks(data, i) == Marks(data, 0)
      decreases |data| - i
    {
      var size := if data[i] == 0 && data[i + 1] == 0 && data[i + 2] == 1 then 3
                  else if i + 4 <= |data| && data[i] == 0 && data[i + 1] == 0 && data[i + 2] == 0 && data[i + 3] == 1 then 4
                  else 0;
      if size != 0 {
        assert starts + ([Mark(i, i + size)] + Marks(data, i + size)) == (starts + [Mark(i, i + size)]) + Marks(data, i + size);
        starts := starts + [Mark(i, i + size)];
        i := i + size;
      } else {
        i := i + 1;
      }
    }
  }

  /** The second loop of `Nals`. */
  method CutUnits(data: Bytes, starts: seq<Mark>) returns (result: seq<Bytes>)
    requires InOrder(starts, |data|)
    ensures result == Collected(UnitsOf(data, starts), |starts|)
  {
    result := [];
    ghost var item := UnitsOf(data, starts);
    for k := 0 to |starts|
      invariant result == Collected(item, k)
    {
      var begin := starts[k].end;
      var end := if k + 1 < |starts| then starts[k + 1].begin else |data|;
      result := AppendUnit(result, data, begin, end);
    }
  }

  method AppendUnit(units: seq<Bytes>, data: Bytes, begin: nat, end: nat) returns (result: seq<Bytes>)
    requires begin <= end <= |data|
    ensures result == units + UnlessEmpty(data[begin..end])
  {
    result := units;
    if begin < end {
      result := result + [data[begin..end]];
    }
  }

  method Nals(data: Bytes) returns (result: seq<Bytes>)
    ensures result == NalUnits(data)
  {
    var starts := FindStarts(data);
    if starts == [] {
      return if data == [] then [] else [data];
    }
    MarksInOrder(data, 0);
    result := CutUnits(data, starts);
  }

  lemma {:induction false} MarksInOrder(data: Bytes, i: nat)
    ensures InOrder(Marks(data, i), |data|)
    ensures forall k | 0 <= k < |Marks(data, i)| :: i <= Marks(data, i)[k].begin
    decreases |data| - i
  {
    if i + 3 < |data| {
      var n := StartCodeAt(data, i);
      if n == 0 {
        MarksInOrder(data, i + 1);
      } else {
        MarksInOrder(data, i + n);
        PrependInOrder(Mark(i, i + n), Marks(data, i + n), |data|);
      }
    }
  }

  lemma {:induction false} PrependInOrder(m: Mark, rest: seq<Mark>, size: nat)
    requires m.begin < m.end <= size && InOrder(rest, size) && forall k | 0 <= k < |rest| :: m.end <= rest[k].begin
    ensures InOrder([m] + rest, size) && forall k | 0 <= k < |rest| + 1 :: m.begin <= ([m] + rest)[k].begin
  {
  }

  // ---------------------------------------------------------------- length prefixes

  function Length32(n: nat): Bytes {
    [n / 0x100_0000 % 0x100, n / 0x1_0000 % 0x100, n / 0x100 % 0x100, n % 0x100]
  }

  function WithLength(nal: Bytes): Bytes {
    Length32(|nal|) + nal
  }

  /** The length stands in front in four bytes, the highest first. */
  lemma {:induction false} LengthIsBigEndian(nal: Bytes)
    requires |nal| < 0x1_0000_0000
    ensures var b := WithLength(nal);
      var b0: int, b1: int, b2: int, b3: int := b[0], b[1], b[2], b[3];
      |nal| == 0x100_0000 * b0 + 0x1_0000 * b1 + 0x100 * b2 + b3 && b[4..] == nal
  {
    LengthReads(|nal|);
    var l := Length32(|nal|);
    assert WithLength(nal)[0] == l[0] && WithLength(nal)[1] == l[1] && WithLength(nal)[2] == l[2] && WithLength(nal)[3] == l[3];
    assert WithLength(nal)[4..] == nal;
  }

  function Prefixed(nals: seq<Bytes>): Bytes {
    if nals == [] then [] else WithLength(nals[0]) + Prefixed(nals[1..])
  }

  method Avcc(data: Bytes) returns (output: Bytes)
    ensures output == Prefixed(NalUnits(data))
  {
    output := [];
    var nals := Nals(data);
    assert nals[0..] == nals;
    for k := 0 to |nals|
      invariant output + Prefixed(nals[k..]) == Prefixed(nals)
    {
      PrefixedFrom(nals, k, output);
      output := AppendWithLength(output, nals[k]);
    }
  }

  lemma {:induction false} PrefixedFrom(nals: seq<Bytes>, k: nat, before: Bytes)
    requires k < |nals|
    ensures before + Prefixed(nals[k..]) == (before + WithLength(nals[k])) + Prefixed(nals[k + 1..])
  {
    assert nals[k..][1..] == nals[k + 1..];
    assert before + (WithLength(nals[k]) + Prefixed(nals[k + 1..]))
        == (before + WithLength(nals[k])) + Prefixed(nals[k + 1..]);
  }

  method AppendWithLength(bytes: Bytes, nal: Bytes) returns (output: Bytes)
    ensures output == bytes + WithLength(nal)
  {
    var length := |nal|;
    output := bytes + [length / 0x100_0000 % 0x100];
    output := output + [length / 0x1_0000 % 0x100];
    output := output + [length / 0x100 % 0x100];
    output := output + [length % 0x100];
    output := output + nal;
  }

  function Read32(l: Bytes): nat
    requires |l| == 4
  {
    var a: int, b: int, c: int, d: int := l[0], l[1], l[2], l[3];
    a * 0x100_0000 + b * 0x1_0000 + c * 0x100 + d
  }

  /** Reads units back by their lengths. */
  function ReadPrefixed(data: Bytes): Option<seq<Bytes>>
    decreases |data|
  {
    if data == [] then Some([])
    else if |data| < 4 || |data| - 4 < Read32(data[..4]) then None
    else
      var n := Read32(data[..4]);
      var rest := ReadPrefixed(data[4 + n..]);
      if rest == None then None else Some([data[4..4 + n]] + rest.value)
  }

  lemma {:induction false} LengthReads(n: nat)
    requires n < 0x1_0000_0000
    ensures Read32(Length32(n)) == n
  {
    var q1 := n / 0x100;
    var q2 := q1 / 0x100;
    var q3 := q2 / 0x100;
    assert n / 0x1_0000 == q2 && n / 0x100_0000 == q3 < 0x100;
    assert n == 0x100 * q1 + n % 0x100 && q1 == 0x100 * q2 + q1 % 0x100 && q2 == 0x100 * q3 + q2 % 0x100;
  }

  lemma {:induction false} ReadOne(nal: Bytes, rest: Bytes)
    requires |nal| < 0x1_0000_0000 && ReadPrefixed(rest).Some?
    ensures ReadPrefixed(WithLength(nal) + rest) == Some([nal] + ReadPrefixed(rest).value)
  {
    LengthReads(|nal|);
    var data := WithLength(nal) + rest;
    assert data[..4] == Length32(|nal|) && data[4..4 + |nal|] == nal && data[4 + |nal|..] == rest;
  }

  lemma {:induction false} ReadFirst(first: Bytes, rest: seq<Bytes>, more: Bytes)
    requires |first| < 0x1_0000_0000 && ReadPrefixed(more) == Some(rest)
    ensures ReadPrefixed(WithLength(first) + more) == Some([first] + rest)
  {
    ReadOne(first, more);
  }

  lemma {:induction false} PrefixedReads(nals: seq<Bytes>)
    requires forall k | 0 <= k < |nals| :: |nals[k]| < 0x1_0000_0000
    ensures ReadPrefixed(Prefixed(nals)) == Some(nals)
    decreases |nals|
  {
    if nals != [] {
      PrefixedReads(nals[1..]);
      ReadFirst(nals[0], nals[1..], Prefixed(nals[1..]));
      assert nals == [nals[0]] + nals[1..];
    }
  }

  // ---------------------------------------------------------------- byte streams

  /** A unit with the start code before it and the zero bytes behind it (`zero_byte`,
      `trailing_zero_8bits`). */
  datatype Part = Part(long: bool, nal: Bytes, zeros: nat)

  function StartCode(long: bool): Bytes {
    if long then [0, 0, 0, 1] else [0, 0, 1]
  }

  function Zeros(n: nat): (r: Bytes)
    ensures |r| == n && forall k | 0 <= k < n :: r[k] == 0
  {
    seq(n, _ => 0)
  }

  /** The byte stream of section B.1 of ITU-T H.264 with `lead` zero bytes in front. */
  function Stream(lead: nat, parts: seq<Part>): Bytes
    decreases |parts|
  {
    if parts == [] then Zeros(lead)
    else Zeros(lead) + (StartCode(parts[0].long) + (parts[0].nal + Stream(parts[0].zeros, parts[1..])))
  }

  predicate StartsAt(nal: Bytes, i: nat) {
    i + 2 < |nal| && nal[i] == 0 && nal[i + 1] == 0 && nal[i + 2] == 1
  }

  /** A unit as the standard has it: not empty, no start code inside, no zero byte at the end. */
  predicate IsNal(nal: Bytes) {
    nal != [] && nal[|nal| - 1] != 0 && forall i | 0 <= i < |nal| :: !StartsAt(nal, i)
  }

  predicate AreNals(parts: seq<Part>) {
    forall k | 0 <= k < |parts| :: IsNal(parts[k].nal)
  }

  /** How many of the zero bytes in front are read as part of the next start code: a short code makes a
      long one of the last. */
  function Taken(lead: nat, parts: seq<Part>): nat {
    if parts != [] && lead > 0 && !parts[0].long then 1 else 0
  }

  /** The zero bytes behind unit `k` that are not. */
  function LeftOver(parts: seq<Part>, k: nat): nat
    requires k < |parts|
  {
    parts[k].zeros - Taken(parts[k].zeros, parts[k + 1..])
  }

  /** No start code begins inside a unit. */
  lemma {:induction false} NoStartInside(data: Bytes, j: nat, nal: Bytes, i: nat)
    requires IsNal(nal) && j + |nal| <= |data| && data[j..j + |nal|] == nal
    requires j <= i < j + |nal| && i + 3 < |data|
    ensures StartCodeAt(data, i) == 0
  {
    var k := i - j;
    forall m | j <= m < j + |nal| ensures data[m] == nal[m - j] {
      assert data[m] == data[j..j + |nal|][m - j];
    }
    assert !StartsAt(nal, k) && !StartsAt(nal, k + 1);
  }

  /** No start code begins between `i` and `end`. */
  predicate Quiet(data: Bytes, i: nat, end: nat) {
    forall k | i <= k < end && k + 3 < |data| :: StartCodeAt(data, k) == 0
  }

  lemma {:induction false} QuietSkipped(data: Bytes, i: nat, end: nat)
    requires i <= end <= |data| && Quiet(data, i, end)
    ensures Marks(data, i) == Marks(data, end)
    decreases end - i
  {
    if i < end && i + 3 < |data| {
      QuietSkipped(data, i + 1, end);
    }
  }

  /** Where the unit of a part begins and ends, if `lead` zero bytes and its start code stand from `o`. */
  function BeginOf(o: nat, lead: nat, p: Part): nat {
    o + lead + |StartCode(p.long)|
  }

  function EndOf(o: nat, lead: nat, p: Part): nat {
    BeginOf(o, lead, p) + |p.nal|
  }

  predicate Stands(data: Bytes, o: nat, lead: nat, p: Part, rest: Bytes) {
    var code, begin, end := o + lead, BeginOf(o, lead, p), EndOf(o, lead, p);
    && end <= |data|
    && (forall k | o <= k < code :: data[k] == 0)
    && data[code..begin] == StartCode(p.long)
    && data[begin..end] == p.nal
    && data[end..] == rest
  }

  lemma {:induction false} FirstStands(data: Bytes, o: nat, lead: nat, parts: seq<Part>)
    requires parts != [] && o <= |data| && data[o..] == Stream(lead, parts)
    ensures Stands(data, o, lead, parts[0], Stream(parts[0].zeros, parts[1..]))
  {
    var p := parts[0];
    var tail := Stream(p.zeros, parts[1..]);
    Slices(data, o, Zeros(lead), StartCode(p.long), p.nal, tail);
    forall k | o <= k < o + lead ensures data[k] == 0 {
      assert data[k] == data[o..o + lead][k - o];
    }
  }

  lemma {:induction false} Slices<T>(data: seq<T>, o: nat, a: seq<T>, b: seq<T>, c: seq<T>, d: seq<T>)
    requires o <= |data| && data[o..] == a + (b + (c + d))
    ensures o + |a| + |b| + |c| + |d| == |data|
    ensures data[o..o + |a|] == a && data[o + |a|..o + |a| + |b|] == b
    ensures data[o + |a| + |b|..o + |a| + |b| + |c|] == c && data[o + |a| + |b| + |c|..] == d
  {
    var w := data[o..];
    assert |w| == |a| + (|b| + (|c| + |d|));
    SliceTwo(data, o, a, b + (c + d));
    SliceTwo(data, o + |a|, b, c + d);
    SliceTwo(data, o + |a| + |b|, c, d);
  }

  lemma {:induction false} SliceTwo<T>(data: seq<T>, o: nat, a: seq<T>, b: seq<T>)
    requires o <= |data| && data[o..] == a + b
    ensures o + |a| + |b| == |data|
    ensures data[o..o + |a|] == a && data[o + |a|..] == b
  {
    var w := data[o..];
    assert |w| == |a| + |b| && w[..|a|] == a && w[|a|..] == b;
  }

  lemma {:induction false} CodeBytes(data: Bytes, o: nat, lead: nat, p: Part, rest: Bytes)
    requires Stands(data, o, lead, p, rest)
    ensures var one := BeginOf(o, lead, p) - 1;
      data[one] == 1 && forall k | o <= k < one :: data[k] == 0
  {
    var code := o + lead;
    var w := data[code..code + |StartCode(p.long)|];
    forall k | code <= k < code + |w| ensures data[k] == w[k - code] {
    }
  }

  /** The zero bytes that are left over are passed by, and then the start code is found. */
  lemma {:induction false} CodeFound(data: Bytes, o: nat, lead: nat, parts: seq<Part>, rest: Bytes)
    requires parts != [] && parts[0].nal != [] && Stands(data, o, lead, parts[0], rest)
    ensures var i := o + lead - Taken(lead, parts);
      && Quiet(data, o, i)
      && i + 3 < |data|
      && i + StartCodeAt(data, i) == BeginOf(o, lead, parts[0]) > i
  {
    CodeBytes(data, o, lead, parts[0], rest);
  }

  lemma {:induction false} UnitQuiet(data: Bytes, o: nat, lead: nat, p: Part, rest: Bytes)
    requires IsNal(p.nal) && Stands(data, o, lead, p, rest)
    ensures Quiet(data, BeginOf(o, lead, p), EndOf(o, lead, p))
  {
    var begin, end := BeginOf(o, lead, p), EndOf(o, lead, p);
    forall k | begin <= k < end && k + 3 < |data| ensures StartCodeAt(data, k) == 0 {
      NoStartInside(data, begin, p.nal, k);
    }
  }

  /** Where the start codes of a stream are, if it begins at `o`. */
  function AllMarks(o: nat, lead: nat, parts: seq<Part>): (m: seq<Mark>)
    ensures |m| == |parts|
    decreases |parts|
  {
    if parts == [] then []
    else
      [Mark(o + lead - Taken(lead, parts), BeginOf(o, lead, parts[0]))]
      + AllMarks(EndOf(o, lead, parts[0]), parts[0].zeros, parts[1..])
  }

  lemma {:induction false} MarkAtCode(data: Bytes, i: nat)
    requires i + 3 < |data| && StartCodeAt(data, i) != 0
    ensures Marks(data, i) == [Mark(i, i + StartCodeAt(data, i))] + Marks(data, i + StartCodeAt(data, i))
  {
  }

  /** The marks of one part, and then those of the rest. */
  lemma {:induction false} MarkStep(data: Bytes, o: nat, lead: nat, parts: seq<Part>, rest: Bytes)
    requires parts != [] && IsNal(parts[0].nal) && Stands(data, o, lead, parts[0], rest)
    ensures Marks(data, o)
         == [Mark(o + lead - Taken(lead, parts), BeginOf(o, lead, parts[0]))] + Marks(data, EndOf(o, lead, parts[0]))
  {
    var i := o + lead - Taken(lead, parts);
    assert Quiet(data, o, i) && i + 3 < |data| && i + StartCodeAt(data, i) == BeginOf(o, lead, parts[0]) > i by {
      CodeFound(data, o, lead, parts, rest);
    }
    QuietSkipped(data, o, i);
    MarkAtCode(data, i);
    UnitQuiet(data, o, lead, parts[0], rest);
    QuietSkipped(data, BeginOf(o, lead, parts[0]), EndOf(o, lead, parts[0]));
  }

  lemma {:induction false} MarksFound(data: Bytes, o: nat, lead: nat, parts: seq<Part>)
    requires AreNals(parts) && o <= |data| && data[o..] == Stream(lead, parts)
    ensures Marks(data, o) == AllMarks(o, lead, parts)
    decreases |parts|
  {
    if parts == [] {
      forall k | o <= k < |data| ensures data[k] == 0 {
        assert data[k] == data[o..][k - o];
      }
      QuietSkipped(data, o, |data|);
    } else {
      FirstStands(data, o, lead, parts);
      MarkStep(data, o, lead, parts, Stream(parts[0].zeros, parts[1..]));
      MarksFound(data, EndOf(o, lead, parts[0]), parts[0].zeros, parts[1..]);
    }
  }

  /** What comes out for part `k`. */
  function Padded(parts: seq<Part>, k: nat): Bytes
    requires k < |parts|
  {
    parts[k].nal + Zeros(LeftOver(parts, k))
  }

  lemma {:induction false} PaddedStands(data: Bytes, o: nat, lead: nat, p: Part, tail: seq<Part>, left: nat)
    requires Stands(data, o, lead, p, Stream(p.zeros, tail)) && left <= p.zeros
    ensures EndOf(o, lead, p) + left <= |data|
    ensures data[BeginOf(o, lead, p)..EndOf(o, lead, p) + left] == p.nal + Zeros(left)
    ensures tail == [] ==> EndOf(o, lead, p) + p.zeros == |data|
  {
    var begin, end := BeginOf(o, lead, p), EndOf(o, lead, p);
    ZerosFirst(data, end, p.zeros, tail);
    assert data[begin..end + left] == data[begin..end] + data[end..end + left];
  }

  /** The unit behind the first mark ends where the zero bytes end that are left over. */
  lemma {:induction false} FirstUnit(data: Bytes, o: nat, lead: nat, parts: seq<Part>)
    requires parts != [] && o <= |data| && data[o..] == Stream(lead, parts)
    ensures Unit(data, AllMarks(o, lead, parts), 0) == Padded(parts, 0)
  {
    FirstStands(data, o, lead, parts);
    PaddedStands(data, o, lead, parts[0], parts[1..], LeftOver(parts, 0));
    FirstEnd(o, lead, parts);
    UnitIs(data, AllMarks(o, lead, parts), BeginOf(o, lead, parts[0]), EndOf(o, lead, parts[0]) + LeftOver(parts, 0));
  }

  lemma {:induction false} UnitIs(data: Bytes, marks: seq<Mark>, begin: nat, end: nat)
    requires marks != [] && marks[0].end == begin <= end <= |data|
    requires end == if |marks| > 1 then marks[1].begin else |data|
    ensures Unit(data, marks, 0) == data[begin..end]
  {
  }

  lemma {:induction false} FirstEnd(o: nat, lead: nat, parts: seq<Part>)
    requires parts != []
    ensures AllMarks(o, lead, parts)[0].end == BeginOf(o, lead, parts[0])
    ensures |parts| > 1 ==>
              AllMarks(o, lead, parts)[1].begin == EndOf(o, lead, parts[0]) + LeftOver(parts, 0)
  {
  }

  lemma {:induction false} ZerosFirst(data: Bytes, o: nat, lead: nat, parts: seq<Part>)
    requires o <= |data| && data[o..] == Stream(lead, parts)
    ensures o + lead <= |data| && forall n: nat | n <= lead :: data[o..o + n] == Zeros(n)
  {
    assert |data[o..]| >= lead;
    forall n: nat | n <= lead ensures data[o..o + n] == Zeros(n) {
      forall k | o <= k < o + n ensures data[k] == 0 {
        assert data[k] == Stream(lead, parts)[k - o];
      }
    }
  }

  lemma {:induction false} LaterUnit(data: Bytes, o: nat, lead: nat, parts: seq<Part>, k: nat)
    requires 0 < k < |parts|
    ensures Unit(data, AllMarks(o, lead, parts), k)
         == Unit(data, AllMarks(EndOf(o, lead, parts[0]), parts[0].zeros, parts[1..]), k - 1)
  {
  }

  lemma {:induction false} LaterPadded(parts: seq<Part>, k: nat)
    requires 0 < k < |parts|
    ensures Padded(parts, k) == Padded(parts[1..], k - 1)
  {
    assert parts[1..][k..] == parts[k + 1..];
  }

  lemma {:induction false} UnitFound(data: Bytes, o: nat, lead: nat, parts: seq<Part>, k: nat)
    requires k < |parts| && o <= |data| && data[o..] == Stream(lead, parts)
    ensures Unit(data, AllMarks(o, lead, parts), k) == Padded(parts, k)
    decreases k
  {
    if k == 0 {
      FirstUnit(data, o, lead, parts);
    } else {
      FirstStands(data, o, lead, parts);
      UnitFound(data, EndOf(o, lead, parts[0]), parts[0].zeros, parts[1..], k - 1);
      LaterUnit(data, o, lead, parts, k);
      LaterPadded(parts, k);
    }
  }

  function NalsOf(parts: seq<Part>): (r: seq<Bytes>)
    ensures |r| == |parts| && forall k | 0 <= k < |parts| :: r[k] == parts[k].nal
  {
    seq(|parts|, k requires 0 <= k < |parts| => parts[k].nal)
  }

  function PaddedNals(parts: seq<Part>): (r: seq<Bytes>)
    ensures |r| == |parts| && forall k | 0 <= k < |parts| :: r[k] == Padded(parts, k)
  {
    seq(|parts|, k requires 0 <= k < |parts| => Padded(parts, k))
  }

  lemma {:induction false} CollectsAll<T>(item: nat -> seq<T>, all: seq<T>, n: nat)
    requires n <= |all| && forall k: nat | k < |all| :: item(k) == [all[k]]
    ensures Collected(item, n) == all[..n]
  {
    if n > 0 {
      CollectsAll(item, all, n - 1);
    }
  }

  lemma {:induction false} UnitsAre(data: Bytes, marks: seq<Mark>, units: seq<Bytes>)
    requires |units| == |marks|
    requires forall k | 0 <= k < |units| :: |units[k]| > 0 && units[k] == Unit(data, marks, k)
    ensures Collected(UnitsOf(data, marks), |marks|) == units
  {
    CollectsAll(UnitsOf(data, marks), units, |units|);
    assert units[..|units|] == units;
  }

  /** Exactly what comes out of a byte stream: each unit followed by the zero bytes behind it, less the
      one that a short start code takes. A stream of zero bytes alone is one unit. */
  lemma {:induction false} SplitsStream(lead: nat, parts: seq<Part>)
    requires AreNals(parts)
    ensures NalUnits(Stream(lead, parts))
         == if parts != [] then PaddedNals(parts) else if lead == 0 then [] else [Zeros(lead)]
  {
    var data := Stream(lead, parts);
    assert data[0..] == data;
    MarksFound(data, 0, lead, parts);
    if parts != [] {
      var marks, units := AllMarks(0, lead, parts), PaddedNals(parts);
      forall k | 0 <= k < |units| ensures |units[k]| > 0 && units[k] == Unit(data, marks, k) {
        UnitFound(data, 0, lead, parts, k);
      }
      UnitsAre(data, marks, units);
    }
  }

  /** No padding behind unit `k`, or a single zero byte that the next start code takes. */
  predicate IsTight(parts: seq<Part>, k: nat)
    requires k < |parts|
  {
    parts[k].zeros == 0 || (parts[k].zeros == 1 && k + 1 < |parts| && !parts[k + 1].long)
  }

  /** The units come out as they went in if and only if no zero byte is left over behind one. */
  lemma {:induction false} UnitsUnchangedIff(lead: nat, parts: seq<Part>)
    requires AreNals(parts) && parts != []
    ensures NalUnits(Stream(lead, parts)) == NalsOf(parts) <==> forall k | 0 <= k < |parts| :: IsTight(parts, k)
  {
    SplitsStream(lead, parts);
    forall k | 0 <= k < |parts|
      ensures PaddedNals(parts)[k] == NalsOf(parts)[k] <==> IsTight(parts, k)
    {
      assert |Padded(parts, k)| == |parts[k].nal| + LeftOver(parts, k);
      assert LeftOver(parts, k) == 0 ==> Padded(parts, k) == parts[k].nal;
    }
    if forall k | 0 <= k < |parts| :: PaddedNals(parts)[k] == NalsOf(parts)[k] {
      assert PaddedNals(parts) == NalsOf(parts);
    }
  }

  /** A padding zero that arrives inside the unit. */
  lemma {:induction false} PaddingIsDelivered()
    ensures NalUnits([0, 0, 1, 0x65, 0x80, 0, 0, 0, 0, 1, 0x41]) == [[0x65, 0x80, 0], [0x41]]
  {
    var parts := [Part(false, [0x65, 0x80], 1), Part(true, [0x41], 0)];
    assert parts[1..] == [parts[1]] && parts[1..][1..] == [];
    assert Stream(0, parts[1..][1..]) == [];
    assert Stream(1, parts[1..]) == [0, 0, 0, 0, 1, 0x41];
    assert Stream(0, parts) == [0, 0, 1, 0x65, 0x80, 0, 0, 0, 0, 1, 0x41];
    SplitsStream(0, parts);
    assert PaddedNals(parts) == [Padded(parts, 0), Padded(parts, 1)];
    assert parts[2..] == [];
    assert Padded(parts, 0) == [0x65, 0x80, 0] && Padded(parts, 1) == [0x41];
  }

  /** Reading the converted stream by its lengths gives what came out. */
  lemma {:induction false} ConvertsStream(lead: nat, parts: seq<Part>)
    requires AreNals(parts) && parts != []
    requires forall k | 0 <= k < |parts| :: |parts[k].nal| + LeftOver(parts, k) < 0x1_0000_0000
    ensures ReadPrefixed(Prefixed(NalUnits(Stream(lead, parts)))) == Some(PaddedNals(parts))
  {
    SplitsStream(lead, parts);
    PrefixedReads(PaddedNals(parts));
  }

  /** Without padding any mix of start codes gives the units themselves, split and converted. */
  lemma {:induction false} UnpaddedStream(lead: nat, parts: seq<Part>)
    requires AreNals(parts) && parts != []
    requires forall k | 0 <= k < |parts| :: parts[k].zeros == 0 && |parts[k].nal| < 0x1_0000_0000
    ensures NalUnits(Stream(lead, parts)) == NalsOf(parts)
    ensures ReadPrefixed(Prefixed(NalUnits(Stream(lead, parts)))) == Some(NalsOf(parts))
  {
    UnitsUnchangedIff(lead, parts);
    PrefixedReads(NalsOf(parts));
  }
}
