/** Python's `str.strip()` with no argument: removes leading and trailing
    characters that `str.isspace()` accepts. */
module Whitespace {

  /** The characters Python's `str.isspace()` accepts. */
  predicate IsSpace(c: char) {
    c == ' ' || '\t' <= c <= '\r' || '\U{1C}' <= c <= '\U{1F}'
    || c == '\U{85}' || c == '\U{A0}' || c == '\U{1680}'
    || '\U{2000}' <= c <= '\U{200A}' || c == '\U{2028}' || c == '\U{2029}'
    || c == '\U{202F}' || c == '\U{205F}' || c == '\U{3000}'
  }

  predicate AllSpace(s: string) {
    forall i :: 0 <= i < |s| ==> IsSpace(s[i])
  }

  /** No whitespace at either end. */
  predicate IsStripped(s: string) {
    s == [] || (!IsSpace(s[0]) && !IsSpace(s[|s| - 1]))
  }

  /** How many whitespace characters `s` starts with. */
  function LeadingSpace(s: string): (n: nat)
    ensures n <= |s| && (n < |s| ==> !IsSpace(s[n]))
  {
    if s != [] && IsSpace(s[0]) then 1 + LeadingSpace(s[1..]) else 0
  }

  /** How many whitespace characters `s` ends with. */
  function TrailingSpace(s: string): (n: nat)
    ensures n <= |s| && (n < |s| ==> !IsSpace(s[|s| - 1 - n]))
  {
    if s != [] && IsSpace(s[|s| - 1]) then 1 + TrailingSpace(s[..|s| - 1]) else 0
  }

  /** `s.lstrip()` */
  function StripStart(s: string): (r: string)
    ensures |r| <= |s| && r == s[|s| - |r|..]
    ensures r == [] || !IsSpace(r[0])
  {
    s[LeadingSpace(s)..]
  }

  /** `s.rstrip()` */
  function StripEnd(s: string): (r: string)
    ensures |r| <= |s| && r == s[..|r|]
    ensures r == [] || !IsSpace(r[|r| - 1])
  {
    s[..|s| - TrailingSpace(s)]
  }

  lemma {:induction false} LeadingSpaceIsSpace(s: string)
    ensures AllSpace(s[..LeadingSpace(s)])
  {
    if s != [] && IsSpace(s[0]) {
      var rest := s[1..];
      LeadingSpaceIsSpace(rest);
      var n := LeadingSpace(s);
      assert n == 1 + LeadingSpace(rest);
      AllSpaceCons(s[0], rest[..n - 1]);
      PrefixCons(s, n);
    }
  }

  lemma {:induction false} TrailingSpaceIsSpace(s: string)
    ensures AllSpace(s[|s| - TrailingSpace(s)..])
  {
    if s != [] && IsSpace(s[|s| - 1]) {
      var rest := s[..|s| - 1];
      TrailingSpaceIsSpace(rest);
      var n := |s| - TrailingSpace(s);
      assert n == |rest| - TrailingSpace(rest);
      AllSpaceSnoc(rest[n..], s[|s| - 1]);
      SuffixSnoc(s, n);
    }
  }

  lemma PrefixCons(s: string, n: nat)
    requires 0 < n <= |s|
    ensures s[..n] == [s[0]] + s[1..][..n - 1]
  {
  }

  lemma SuffixSnoc(s: string, n: nat)
    requires n < |s|
    ensures s[n..] == s[..|s| - 1][n..] + [s[|s| - 1]]
  {
  }

  lemma AllSpaceCons(c: char, s: string)
    requires IsSpace(c) && AllSpace(s)
    ensures AllSpace([c] + s)
  {
    var r := [c] + s;
    forall i | 0 <= i < |r| ensures IsSpace(r[i]) {
      if i > 0 { assert r[i] == s[i - 1]; }
    }
  }

  lemma AllSpaceSnoc(s: string, c: char)
    requires AllSpace(s) && IsSpace(c)
    ensures AllSpace(s + [c])
  {
    var r := s + [c];
    forall i | 0 <= i < |r| ensures IsSpace(r[i]) {
      if i < |s| { assert r[i] == s[i]; }
    }
  }

  lemma StripStartRemovesSpace(s: string)
    ensures AllSpace(s[..|s| - |StripStart(s)|])
  {
    LeadingSpaceIsSpace(s);
  }

  lemma StripEndRemovesSpace(s: string)
    ensures AllSpace(s[|StripEnd(s)|..])
  {
    TrailingSpaceIsSpace(s);
  }

  /** `s.strip()`: whitespace removed from both ends. */
  function Strip(s: string): (r: string)
    ensures IsStripped(r) && |r| <= |s|
  {
    var t := StripStart(s);
    var r := StripEnd(t);
    assert r != [] ==> r[0] == t[0];
    r
  }

  /** What `Strip` keeps is a contiguous part of `s`, starting where the
      leading whitespace ends ... */
  lemma StripKeepsSlice(s: string)
    ensures var r, i := Strip(s), |s| - |StripStart(s)|;
            i + |r| <= |s| && r == s[i..i + |r|]
  {
    PrefixOfSuffix(s, StripStart(s), Strip(s));
  }

  lemma PrefixOfSuffix(s: string, t: string, r: string)
    requires |t| <= |s| && t == s[|s| - |t|..]
    requires |r| <= |t| && r == t[..|r|]
    ensures r == s[|s| - |t|..|s| - |t| + |r|]
  {
  }

  /** ... and everything it removes, on either side, is whitespace. */
  lemma StripRemovesSpace(s: string)
    ensures var r, i := Strip(s), |s| - |StripStart(s)|;
            i + |r| <= |s| && AllSpace(s[..i]) && AllSpace(s[i + |r|..])
  {
    var t := StripStart(s);
    var r := StripEnd(t);
    var i := |s| - |t|;
    StripStartRemovesSpace(s);
    StripEndRemovesSpace(t);
    assert s[i + |r|..] == t[|r|..];
  }

  lemma {:induction false} StripStartAt(s: string, i: nat)
    requires i <= |s| && AllSpace(s[..i]) && (i < |s| ==> !IsSpace(s[i]))
    ensures StripStart(s) == s[i..]
  {
    if i > 0 {
      assert IsSpace(s[..i][0]);
      assert s[1..][..i - 1] == s[1..i];
      StripStartAt(s[1..], i - 1);
    }
  }

  lemma {:induction false} StripEndAt(s: string, j: nat)
    requires j <= |s| && AllSpace(s[j..]) && (0 < j ==> !IsSpace(s[j - 1]))
    ensures StripEnd(s) == s[..j]
  {
    if j < |s| {
      assert IsSpace(s[j..][|s| - 1 - j]);
      assert s[..|s| - 1][j..] == s[j..|s| - 1];
      StripEndAt(s[..|s| - 1], j);
    }
  }

  /** Any way of cutting `s` into whitespace, a stripped middle and whitespace
      yields the same middle: `Strip` is the one such cut. */
  lemma StripUnique(s: string, i: nat, j: nat)
    requires i <= j <= |s|
    requires AllSpace(s[..i]) && AllSpace(s[j..]) && IsStripped(s[i..j])
    ensures Strip(s) == s[i..j]
  {
    if i < j {
      StripAround(s, i, j);
    } else {
      StripBlank(s, i);
    }
  }

  lemma StripAround(s: string, i: nat, j: nat)
    requires i < j <= |s|
    requires AllSpace(s[..i]) && AllSpace(s[j..]) && IsStripped(s[i..j])
    ensures StripEnd(StripStart(s)) == s[i..j]
  {
    assert !IsSpace(s[i]) by { assert s[i..j][0] == s[i]; }
    StripStartAt(s, i);
    StripEndOfSuffix(s, i, j);
  }

  lemma StripEndOfSuffix(s: string, i: nat, j: nat)
    requires i < j <= |s|
    requires AllSpace(s[j..]) && IsStripped(s[i..j])
    ensures StripEnd(s[i..]) == s[i..j]
  {
    var m := s[i..j];
    var t := s[i..];
    assert AllSpace(t[j - i..]) by { assert t[j - i..] == s[j..]; }
    assert |m| == j - i && m[j - i - 1] == s[j - 1];
    assert !IsSpace(t[j - i - 1]) by { assert t[j - i - 1] == s[j - 1]; }
    StripEndAt(t, j - i);
    assert t[..j - i] == m;
  }

  lemma StripBlank(s: string, i: nat)
    requires i <= |s| && AllSpace(s[..i]) && AllSpace(s[i..])
    ensures Strip(s) == []
  {
    assert forall k :: 0 <= k < |s| ==> IsSpace(s[k]) by {
      forall k | 0 <= k < |s| ensures IsSpace(s[k]) {
        if k < i { assert s[..i][k] == s[k]; } else { assert s[i..][k - i] == s[k]; }
      }
    }
    assert s[..|s|] == s;
    StripStartAt(s, |s|);
  }

  /** Stripping twice is stripping once. */
  lemma StripIdempotent(s: string)
    ensures Strip(Strip(s)) == Strip(s)
  {
    StripStripped(Strip(s));
  }

  /** A string with no whitespace at either end is its own strip. */
  lemma StripStripped(s: string)
    requires IsStripped(s)
    ensures Strip(s) == s
  {
    assert s[..0] == [] && s[|s|..] == [] && s[0..|s|] == s;
    StripUnique(s, 0, |s|);
  }
}
