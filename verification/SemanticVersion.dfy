/** The OTA version format: `ParseSemanticVersion`, `IsValidVersion` and
    `CompareSemanticVersions` of the upgrader. */
module SemanticVersions {
  import opened Options

  const MAX_U64: nat := 0xFFFF_FFFF_FFFF_FFFF

  datatype SemanticVersion = SemanticVersion(core: seq<nat>)

  // ---------------------------------------------------------------- characters

  predicate IsDigit(c: char) {
    '0' <= c <= '9'
  }

  predicate IsAlnum(c: char) {
    IsDigit(c) || 'a' <= c <= 'z' || 'A' <= c <= 'Z'
  }

  /** The characters allowed in a release directory name. */
  predicate IsValidVersion(version: string) {
    version != "" && forall i | 0 <= i < |version| :: IsAlnum(version[i]) || version[i] in "._-"
  }

  predicate IsComponent(s: string) {
    s != "" && forall i | 0 <= i < |s| :: IsDigit(s[i])
  }

  // ---------------------------------------------------------------- decimal numbers

  /** The number a digit string denotes, most significant digit first. */
  function Number(s: string): nat
    requires forall i | 0 <= i < |s| :: IsDigit(s[i])
  {
    if s == "" then 0
    else
      assert IsDigit(s[|s| - 1]);
      10 * Number(s[..|s| - 1]) + (s[|s| - 1] as int - '0' as int)
  }

  lemma {:induction false} NumberMonotone(s: string, k: nat)
    requires k <= |s| && forall i | 0 <= i < |s| :: IsDigit(s[i])
    ensures Number(s[..k]) <= Number(s)
    decreases |s|
  {
    if k == |s| {
      assert s[..k] == s;
    } else {
      var t := s[..|s| - 1];
      NumberMonotone(t, k);
      assert t[..k] == s[..k];
      assert IsDigit(s[|s| - 1]);
    }
  }

  /** The usual decimal notation, without leading zeros. */
  function Decimal(n: nat): (s: string)
    ensures IsComponent(s)
  {
    var last := [('0' as int + n % 10) as char];
    if n < 10 then last else Decimal(n / 10) + last
  }

  lemma {:induction false} NumberOfDecimal(n: nat)
    ensures Number(Decimal(n)) == n
  {
    var s := Decimal(n);
    if n >= 10 {
      NumberOfDecimal(n / 10);
      assert s[..|s| - 1] == Decimal(n / 10);
    } else {
      assert s[..|s| - 1] == "";
    }
  }

  // ---------------------------------------------------------------- splitting at dots

  /** The pieces of `s` between dots; never empty. */
  function Split(s: string): (r: seq<string>)
    ensures r != []
  {
    if s == "" then [""]
    else if s[0] == '.' then [""] + Split(s[1..])
    else
      var r := Split(s[1..]);
      [[s[0]] + r[0]] + r[1..]
  }

  function Join(parts: seq<string>): string {
    if parts == [] then ""
    else if |parts| == 1 then parts[0]
    else parts[0] + "." + Join(parts[1..])
  }

  lemma {:induction false} SplitWithoutDot(s: string)
    requires '.' !in s
    ensures Split(s) == [s]
  {
    if s != "" {
      SplitWithoutDot(s[1..]);
      assert [s[0]] + s[1..] == s;
    }
  }

  lemma {:induction false} SplitAtDot(a: string, b: string)
    requires '.' !in a
    ensures Split(a + "." + b) == [a] + Split(b)
  {
    var s := a + "." + b;
    if a == "" {
      assert s[1..] == b;
    } else {
      SplitAtDot(a[1..], b);
      assert s[1..] == a[1..] + "." + b;
      assert [a[0]] + a[1..] == a;
    }
  }

  /** A character before the first piece is a character before the whole. */
  lemma {:induction false} JoinPrepends(c: char, parts: seq<string>)
    requires parts != []
    ensures Join([[c] + parts[0]] + parts[1..]) == [c] + Join(parts)
  {
    var longer := [[c] + parts[0]] + parts[1..];
    assert longer[1..] == parts[1..];
    if |parts| > 1 {
      assert [c] + (parts[0] + "." + Join(parts[1..])) == [c] + parts[0] + "." + Join(parts[1..]);
    }
  }

  lemma {:induction false} JoinEmptyFirst(parts: seq<string>)
    requires parts != []
    ensures Join([""] + parts) == "." + Join(parts)
  {
    assert ([""] + parts)[1..] == parts;
  }

  lemma {:induction false} JoinSplit(s: string)
    ensures Join(Split(s)) == s
  {
    if s != "" {
      JoinSplit(s[1..]);
      assert s == [s[0]] + s[1..];
      if s[0] == '.' {
        JoinEmptyFirst(Split(s[1..]));
      } else {
        JoinPrepends(s[0], Split(s[1..]));
      }
    }
  }

  lemma {:induction false} JoinThree(parts: seq<string>)
    requires |parts| == 3
    ensures Join(parts) == parts[0] + "." + parts[1] + "." + parts[2]
  {
    var a, b, c := parts[0], parts[1], parts[2];
    assert parts[1..] == [b, c] && parts[1..][1..] == [c];
    assert Join([b, c]) == b + "." + c by {
      assert [b, c][1..] == [c];
    }
    assert a + "." + (b + "." + c) == a + "." + b + "." + c;
  }

  // ---------------------------------------------------------------- parsing

  predicate IsRepresentable(part: string) {
    IsComponent(part) && Number(part) <= MAX_U64
  }

  /** What `ParseSemanticVersion` computes. */
  function Parse(value: string): Option<SemanticVersion> {
    var parts := Split(value);
    if |parts| == 3 && IsRepresentable(parts[0]) && IsRepresentable(parts[1]) && IsRepresentable(parts[2])
    then Some(SemanticVersion([Number(parts[0]), Number(parts[1]), Number(parts[2])]))
    else None
  }

  /** `std::string::find` for one character; `|s|` plays the role of `npos`. */
  method Find(s: string, c: char, begin: nat) returns (end: nat)
    requires begin <= |s|
    ensures begin <= end <= |s| && c !in s[begin..end]
    ensures end < |s| ==> s[end] == c
  {
    end := begin;
    while end < |s| && s[end] != c
      invariant begin <= end <= |s| && c !in s[begin..end]
    {
      end := end + 1;
    }
  }

  /** One dot-free component: digits only, and rejected exactly when it exceeds 64 bits. */
  method ParseComponent(component: string) returns (number: Option<nat>)
    ensures number == if IsRepresentable(component) then Some(Number(component)) else None
  {
    if component == "" {
      return None;
    }
    for i := 0 to |component|
      invariant forall j | 0 <= j < i :: IsDigit(component[j])
    {
      if !IsDigit(component[i]) {
        return None;
      }
    }
    var n: nat := 0;
    for i := 0 to |component|
      invariant n == Number(component[..i]) && n <= MAX_U64
    {
      var digit := component[i] as int - '0' as int;
      assert component[..i + 1][..i] == component[..i];
      assert 0 <= digit <= 9 && Number(component[..i + 1]) == 10 * n + digit;
      if n > (MAX_U64 - digit) / 10 {
        NumberMonotone(component, i + 1);
        return None;
      }
      n := n * 10 + digit;
    }
    assert component[..|component|] == component;
    return Some(n);
  }

  /** The component between `begin` and `end` is the next piece. */
  lemma {:induction false} NextComponent(value: string, begin: nat, end: nat, done: seq<string>)
    requires begin <= end <= |value| && '.' !in value[begin..end] && (end < |value| ==> value[end] == '.')
    ensures var component := value[begin..end];
      done + Split(value[begin..])
      == (done + [component]) + if end < |value| then Split(value[end + 1..]) else []
  {
    var component, rest := value[begin..end], value[begin..];
    if end < |value| {
      assert rest == component + "." + value[end + 1..];
      SplitAtDot(component, value[end + 1..]);
    } else {
      assert rest == component;
      SplitWithoutDot(component);
    }
  }

  method ParseSemanticVersion(value: string) returns (version: Option<SemanticVersion>)
    ensures version == Parse(value)
  {
    if '-' in value {
      RejectsHyphen(value);
      return None;
    }
    if value == "" {
      assert Split(value) == [""];
      return None;
    }
    var core: seq<nat> := [];
    var begin := 0;
    ghost var done: seq<string> := [];
    while begin <= |value|
      invariant begin <= |value| + 1
      invariant begin <= |value| ==> Split(value) == done + Split(value[begin..])
      invariant begin > |value| ==> Split(value) == done
      invariant |core| == |done|
      invariant forall i | 0 <= i < |done| :: IsRepresentable(done[i]) && core[i] == Number(done[i])
      decreases |value| + 1 - begin
    {
      var end := Find(value, '.', begin);
      var component := value[begin..end];
      NextComponent(value, begin, end, done);
      assert Split(value)[|done|] == component;
      var number := ParseComponent(component);
      if number == None {
        assert |Split(value)| == 3 ==> |done| == 0 || |done| == 1 || |done| == 2;
        return None;
      }
      core := core + [number.value];
      done := done + [component];
      begin := end + 1;
    }
    if |core| != 3 {
      return None;
    }
    assert core == [Number(done[0]), Number(done[1]), Number(done[2])];
    return Some(SemanticVersion(core));
  }

  /** A dotted triple of components holds nothing but digits and dots. */
  lemma {:induction false} DigitsAndDots(a: string, b: string, c: string)
    requires IsComponent(a) && IsComponent(b) && IsComponent(c)
    ensures var s := a + "." + b + "." + c; forall i | 0 <= i < |s| :: IsDigit(s[i]) || s[i] == '.'
  {
    var s := a + "." + b + "." + c;
    forall i | 0 <= i < |s| ensures IsDigit(s[i]) || s[i] == '.' {
      assert s[i] == if i < |a| then a[i] else if i == |a| then '.'
                     else if i < |a| + 1 + |b| then b[i - |a| - 1]
                     else if i == |a| + 1 + |b| then '.' else c[i - |a| - |b| - 2];
    }
  }

  lemma {:induction false} RejectsHyphen(value: string)
    requires '-' in value
    ensures Parse(value) == None
  {
    var parts := Split(value);
    if |parts| == 3 && IsComponent(parts[0]) && IsComponent(parts[1]) && IsComponent(parts[2]) {
      JoinSplit(value);
      JoinThree(parts);
      DigitsAndDots(parts[0], parts[1], parts[2]);
      assert false;
    }
  }

  // ---------------------------------------------------------------- what parsing means

  /** The format, said without reference to the parser. */
  ghost predicate IsSemanticVersion(value: string, a: string, b: string, c: string) {
    value == a + "." + b + "." + c && IsRepresentable(a) && IsRepresentable(b) && IsRepresentable(c)
  }

  /** Parsing accepts exactly three dot-separated, non-empty decimal numbers below 2^64. */
  lemma {:induction false} ParseAcceptsExactly(value: string)
    ensures Parse(value).Some? <==> exists a, b, c :: IsSemanticVersion(value, a, b, c)
    ensures forall a, b, c | IsSemanticVersion(value, a, b, c) ::
              Parse(value) == Some(SemanticVersion([Number(a), Number(b), Number(c)]))
  {
    var parts := Split(value);
    if Parse(value).Some? {
      JoinSplit(value);
      JoinThree(parts);
      assert IsSemanticVersion(value, parts[0], parts[1], parts[2]);
    }
    forall a, b, c | IsSemanticVersion(value, a, b, c)
      ensures Parse(value) == Some(SemanticVersion([Number(a), Number(b), Number(c)]))
    {
      ComponentHasNoDot(a);
      ComponentHasNoDot(b);
      ComponentHasNoDot(c);
      assert value == a + "." + (b + "." + c);
      SplitAtDot(a, b + "." + c);
      SplitAtDot(b, c);
      SplitWithoutDot(c);
      assert Split(value) == [a, b, c];
    }
  }

  lemma {:induction false} ComponentHasNoDot(s: string)
    requires IsComponent(s)
    ensures '.' !in s
  {
    forall i | 0 <= i < |s| ensures s[i] != '.' {
      assert IsDigit(s[i]);
    }
  }

  function Print(a: nat, b: nat, c: nat): string {
    Decimal(a) + "." + Decimal(b) + "." + Decimal(c)
  }

  lemma {:induction false} ParseOfPrint(a: nat, b: nat, c: nat)
    requires a <= MAX_U64 && b <= MAX_U64 && c <= MAX_U64
    ensures Parse(Print(a, b, c)) == Some(SemanticVersion([a, b, c]))
  {
    NumberOfDecimal(a);
    NumberOfDecimal(b);
    NumberOfDecimal(c);
    ParseAcceptsExactly(Print(a, b, c));
    assert IsSemanticVersion(Print(a, b, c), Decimal(a), Decimal(b), Decimal(c));
  }

  /** Every accepted version is also a legal release directory name, and not "." or "..". */
  lemma {:induction false} ParsedIsValidVersion(value: string)
    requires Parse(value).Some?
    ensures IsValidVersion(value) && value != "." && value != ".."
  {
    ParseAcceptsExactly(value);
    var a, b, c :| IsSemanticVersion(value, a, b, c);
    DigitsAndDots(a, b, c);
    assert value[0] == a[0] && value[|value| - 1] == c[|c| - 1];
    assert IsDigit(value[0]);
  }

  /** A release directory is named by one or more of these characters. */
  lemma {:induction false} ValidVersionExactly(version: string)
    ensures IsValidVersion(version) <==>
              version != ""
              && forall c | c in version ::
                   '0' <= c <= '9' || 'A' <= c <= 'Z' || 'a' <= c <= 'z' || c == '.' || c == '_' || c == '-'
  {
    assert forall i | 0 <= i < |version| :: version[i] in version;
  }

  // ---------------------------------------------------------------- comparing

  /** `std::lexicographical_compare` on the component vectors. */
  predicate LexLess(left: seq<nat>, right: seq<nat>) {
    if right == [] then false
    else if left == [] then true
    else left[0] < right[0] || (left[0] == right[0] && LexLess(left[1..], right[1..]))
  }

  function Compare(left: SemanticVersion, right: SemanticVersion): int {
    if left.core != right.core then (if LexLess(left.core, right.core) then -1 else 1) else 0
  }

  predicate Newer(left: SemanticVersion, right: SemanticVersion) {
    Compare(left, right) > 0
  }

  lemma {:induction false} LexTrichotomy(a: seq<nat>, b: seq<nat>)
    ensures LexLess(a, b) ==> !LexLess(b, a) && a != b
    ensures !LexLess(a, b) && !LexLess(b, a) ==> a == b
  {
    if a != [] && b != [] {
      LexTrichotomy(a[1..], b[1..]);
      assert a == [a[0]] + a[1..] && b == [b[0]] + b[1..];
    }
  }

  lemma {:induction false} LexTransitive(a: seq<nat>, b: seq<nat>, c: seq<nat>)
    requires LexLess(a, b) && LexLess(b, c)
    ensures LexLess(a, c)
  {
    if a != [] && a[0] == b[0] == c[0] {
      LexTransitive(a[1..], b[1..], c[1..]);
    }
  }

  /** Comparison is a strict total order: trichotomous, antisymmetric and transitive. */
  lemma {:induction false} CompareIsTotalOrder(a: SemanticVersion, b: SemanticVersion, c: SemanticVersion)
    ensures Compare(a, b) == -Compare(b, a)
    ensures Compare(a, b) == 0 <==> a == b
    ensures Newer(a, b) && Newer(b, c) ==> Newer(a, c)
  {
    LexTrichotomy(a.core, b.core);
    LexTrichotomy(b.core, c.core);
    LexTrichotomy(a.core, c.core);
    if Newer(a, b) && Newer(b, c) {
      LexTransitive(c.core, b.core, a.core);
    }
  }

  /** On three-component versions the order is major, then minor, then patch. */
  lemma {:induction false} CompareByPrecedence(a: SemanticVersion, b: SemanticVersion)
    requires |a.core| == 3 && |b.core| == 3
    ensures Newer(a, b) <==>
              || a.core[0] > b.core[0]
              || (a.core[0] == b.core[0] && a.core[1] > b.core[1])
              || (a.core[0] == b.core[0] && a.core[1] == b.core[1] && a.core[2] > b.core[2])
  {
    LexTrichotomy(a.core, b.core);
    var x, y := b.core, a.core;
    assert LexLess(x[1..][1..][1..], y[1..][1..][1..]) == false;
    assert LexLess(x[1..][1..], y[1..][1..]) <==> x[2] < y[2];
    assert LexLess(x[1..], y[1..]) <==> x[1] < y[1] || (x[1] == y[1] && x[2] < y[2]);
  }
}
