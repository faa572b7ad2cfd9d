/** Searching and cutting byte strings. */
module Texts {
  import opened Options

  /** `std::isspace`. */
  predicate IsSpace(c: char) {
    c == ' ' || 9 <= c as int <= 13
  }

  /** Blank, tab, newline, vertical tab, form feed and return. */
  lemma {:induction false} SpaceExactly(c: char)
    ensures IsSpace(c) <==> c as int in {0x20, 0x09, 0x0A, 0x0B, 0x0C, 0x0D}
  {
  }

  function SkipSpaces(s: string): (r: string)
    ensures |r| <= |s|
  {
    if s != "" && IsSpace(s[0]) then SkipSpaces(s[1..]) else s
  }

  predicate MatchesAt(s: string, pattern: string, i: nat) {
    i + |pattern| <= |s| && s[i..i + |pattern|] == pattern
  }

  /** The first place at or behind `i` where the pattern occurs. */
  function FindFrom(s: string, pattern: string, i: nat): (r: Option<nat>)
    requires i <= |s|
    ensures r.Some? ==> r.value + |pattern| <= |s|
    decreases |s| - i
  {
    if MatchesAt(s, pattern, i) then Some(i)
    else if i == |s| then None
    else FindFrom(s, pattern, i + 1)
  }

  /** `std::string::find`. */
  function Find(s: string, pattern: string): (r: Option<nat>)
    ensures r.Some? ==> r.value + |pattern| <= |s|
  {
    FindFrom(s, pattern, 0)
  }

  /** No occurrence before `end`. */
  predicate NoneBetween(s: string, pattern: string, begin: nat, end: nat) {
    forall k | begin <= k < end :: !MatchesAt(s, pattern, k)
  }

  lemma {:induction false} FindFromMeans(s: string, pattern: string, i: nat)
    requires i <= |s|
    ensures var r := FindFrom(s, pattern, i);
      if r.Some? then i <= r.value && MatchesAt(s, pattern, r.value) && NoneBetween(s, pattern, i, r.value)
      else NoneBetween(s, pattern, i, |s| + 1)
    decreases |s| - i
  {
    if !MatchesAt(s, pattern, i) && i < |s| {
      FindFromMeans(s, pattern, i + 1);
    }
  }

  /** It is the first occurrence, and there is one if any place matches. */
  lemma {:induction false} FindIs(s: string, pattern: string, i: nat)
    requires MatchesAt(s, pattern, i) && NoneBetween(s, pattern, 0, i)
    ensures Find(s, pattern) == Some(i)
  {
    FindFromMeans(s, pattern, 0);
  }

  lemma {:induction false} FindNone(s: string, pattern: string)
    requires NoneBetween(s, pattern, 0, |s| + 1)
    ensures Find(s, pattern) == None
  {
    FindFromMeans(s, pattern, 0);
  }

  lemma {:induction false} FindMeans(s: string, pattern: string)
    requires Find(s, pattern).Some?
    ensures MatchesAt(s, pattern, Find(s, pattern).value) && NoneBetween(s, pattern, 0, Find(s, pattern).value)
  {
    FindFromMeans(s, pattern, 0);
  }

  /** More text behind does not move the first match. */
  lemma {:induction false} FindStays(s: string, t: string, pattern: string)
    requires Find(s, pattern).Some?
    ensures Find(s + t, pattern) == Find(s, pattern)
  {
    FindMeans(s, pattern);
    var i := Find(s, pattern).value;
    assert (s + t)[i..i + |pattern|] == s[i..i + |pattern|];
    forall k | 0 <= k < i ensures !MatchesAt(s + t, pattern, k) {
      assert !MatchesAt(s, pattern, k);
      assert (s + t)[k..k + |pattern|] == s[k..k + |pattern|];
    }
    FindIs(s + t, pattern, i);
  }

  lemma {:induction false} MatchesParts(s: string, a: string, b: string, i: nat)
    ensures MatchesAt(s, a + b, i) <==> MatchesAt(s, a, i) && MatchesAt(s, b, i + |a|)
  {
    if i + |a| + |b| <= |s| {
      var w := s[i..i + |a| + |b|];
      assert w[..|a|] == s[i..i + |a|] && w[|a|..] == s[i + |a|..i + |a| + |b|];
      assert (a + b)[..|a|] == a && (a + b)[|a|..] == b;
      assert w == w[..|a|] + w[|a|..];
    }
  }

  lemma {:induction false} MatchesChars(s: string, t: string, i: nat)
    ensures MatchesAt(s, t, i) <==> i + |t| <= |s| && forall k: nat | k < |t| :: s[i + k] == t[k]
  {
    if MatchesAt(s, t, i) {
      forall k: nat | k < |t| ensures s[i + k] == t[k] {
        assert s[i + k] == s[i..i + |t|][k];
      }
    }
  }
}
