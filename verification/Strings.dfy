/** Splitting text at a separator character and joining it again, prefixes and
    suffixes, and white space. */
module Strings {
  function Split(s: string, c: char): (parts: seq<string>)
    ensures parts != []
  {
    if s == [] then [[]]
    else
      var rest := Split(s[1..], c);
      if s[0] == c then [[]] + rest else [[s[0]] + rest[0]] + rest[1..]
  }

  function Join(parts: seq<string>, c: char): string {
    if parts == [] then []
    else if |parts| == 1 then parts[0]
    else parts[0] + [c] + Join(parts[1..], c)
  }

  lemma {:induction false} SplitPlain(s: string, c: char)
    requires c !in s
    ensures Split(s, c) == [s]
  {
    if s != [] {
      SplitPlain(s[1..], c);
      assert [s[0]] + s[1..] == s;
    }
  }

  lemma {:induction false} SplitAt(a: string, c: char, b: string)
    ensures Split(a + [c] + b, c) == Split(a, c) + Split(b, c)
  {
    if a == [] {
      assert ([c] + b)[1..] == b && a + [c] + b == [c] + b;
    } else {
      assert (a + [c] + b)[1..] == a[1..] + [c] + b;
      SplitAt(a[1..], c, b);
    }
  }

  lemma {:induction false} JoinSplit(s: string, c: char)
    ensures Join(Split(s, c), c) == s
  {
    if s != [] {
      JoinSplit(s[1..], c);
      var rest := Split(s[1..], c);
      if s[0] == c {
        assert ([[]] + rest)[1..] == rest;
      } else {
        assert ([[s[0]] + rest[0]] + rest[1..])[1..] == rest[1..];
      }
    }
  }

  lemma {:induction false} SplitParts(s: string, c: char)
    ensures forall i :: 0 <= i < |Split(s, c)| ==> c !in Split(s, c)[i]
  {
    if s != [] { SplitParts(s[1..], c); }
  }

  lemma {:induction false} SplitJoin(parts: seq<string>, c: char)
    requires parts != [] && forall i :: 0 <= i < |parts| ==> c !in parts[i]
    ensures Split(Join(parts, c), c) == parts
  {
    SplitPlain(parts[0], c);
    if |parts| > 1 {
      SplitJoin(parts[1..], c);
      SplitAt(parts[0], c, Join(parts[1..], c));
    }
  }

  /** The suffix put after the last part. */
  function Extended(parts: seq<string>, suffix: string): seq<string>
    requires parts != []
  {
    parts[..|parts| - 1] + [parts[|parts| - 1] + suffix]
  }

  lemma ExtendedFront(front: seq<string>, rest: seq<string>, suffix: string)
    requires rest != []
    ensures Extended(front + rest, suffix) == front + Extended(rest, suffix)
  {
    assert (front + rest)[..|front + rest| - 1] == front + rest[..|rest| - 1];
  }

  lemma {:induction false} SplitSuffix(s: string, suffix: string, c: char)
    requires c !in suffix
    ensures Split(s + suffix, c) == Extended(Split(s, c), suffix)
  {
    if s == [] {
      assert s + suffix == suffix;
      SplitPlain(suffix, c);
    } else {
      assert (s + suffix)[1..] == s[1..] + suffix;
      SplitSuffix(s[1..], suffix, c);
      var rest := Split(s[1..], c);
      if s[0] == c {
        ExtendedFront([[]], rest, suffix);
      } else if |rest| == 1 {
        assert [s[0]] + (rest[0] + suffix) == [s[0]] + rest[0] + suffix;
      } else {
        ExtendedFront([rest[0]], rest[1..], suffix);
        assert [rest[0]] + rest[1..] == rest;
        ExtendedFront([[s[0]] + rest[0]], rest[1..], suffix);
      }
    }
  }

  /** The parts of several texts, one after the other. */
  function SplitEach(texts: seq<string>, c: char): seq<string> {
    if texts == [] then [] else Split(texts[0], c) + SplitEach(texts[1..], c)
  }

  /** Splitting joined texts splits each of them. */
  lemma {:induction false} SplitJoined(texts: seq<string>, c: char)
    requires texts != []
    ensures Split(Join(texts, c), c) == SplitEach(texts, c)
  {
    if |texts| == 1 {
      assert SplitEach(texts[1..], c) == [];
    } else {
      SplitAt(texts[0], c, Join(texts[1..], c));
      SplitJoined(texts[1..], c);
    }
  }

  predicate StartsWith(s: string, prefix: string) {
    |s| >= |prefix| && s[..|prefix|] == prefix
  }

  predicate EndsWith(s: string, suffix: string) {
    |s| >= |suffix| && s[|s| - |suffix|..] == suffix
  }

  /** `t` stands in `s` at offset `i`. */
  predicate At(s: string, i: nat, t: string) {
    i + |t| <= |s| && s[i..i + |t|] == t
  }

  /** What the regular-expression class for white space holds. */
  predicate IsSpace(c: char) {
    || '\t' <= c <= '\r' || c == ' ' || c == '\U{00A0}' || c == '\U{1680}' || '\U{2000}' <= c <= '\U{200A}'
    || c == '\U{2028}' || c == '\U{2029}' || c == '\U{202F}' || c == '\U{205F}' || c == '\U{3000}' || c == '\U{FEFF}'
  }

  /** The white space and line terminators of sections 7.2 and 7.3 of ECMA-262
      edition 5.1, one by one. */
  const SPACES := [
    '\t', '\n', '\U{000B}', '\U{000C}', '\r', ' ', '\U{00A0}', '\U{1680}',
    '\U{2000}', '\U{2001}', '\U{2002}', '\U{2003}', '\U{2004}', '\U{2005}', '\U{2006}', '\U{2007}',
    '\U{2008}', '\U{2009}', '\U{200A}', '\U{2028}', '\U{2029}', '\U{202F}', '\U{205F}', '\U{3000}', '\U{FEFF}'
  ]

  lemma SpacesAreListed(c: char)
    ensures IsSpace(c) <==> c in SPACES
  {
    if IsSpace(c) {
      SpaceIsListed(c);
    }
  }

  lemma SpaceIsListed(c: char)
    requires IsSpace(c)
    ensures c in SPACES
  {
    var n := c as int;
    if n <= 13 { assert SPACES[n - 9] == c; }
    else if 0x2000 <= n <= 0x200A { assert SPACES[8 + n - 0x2000] == c; }
    else {
      assert SPACES[5] == ' ' && SPACES[6] == '\U{00A0}' && SPACES[7] == '\U{1680}' && SPACES[19] == '\U{2028}'
        && SPACES[20] == '\U{2029}' && SPACES[21] == '\U{202F}' && SPACES[22] == '\U{205F}'
        && SPACES[23] == '\U{3000}' && SPACES[24] == '\U{FEFF}';
    }
  }

  predicate AllSpaces(s: string) {
    forall i | 0 <= i < |s| :: IsSpace(s[i])
  }

  function SkipSpace(s: string, i: nat): (j: nat)
    requires i <= |s|
    ensures i <= j <= |s| && (j < |s| ==> !IsSpace(s[j]))
    decreases |s| - i
  {
    if i < |s| && IsSpace(s[i]) then SkipSpace(s, i + 1) else i
  }

  lemma {:induction false} SpaceSkipped(s: string, i: nat, j: nat)
    requires i <= j <= |s| && (forall k :: i <= k < j ==> IsSpace(s[k])) && (j < |s| ==> !IsSpace(s[j]))
    ensures SkipSpace(s, i) == j
    decreases j - i
  {
    if i < j { SpaceSkipped(s, i + 1, j); }
  }

  lemma {:induction false} SpacesOnly(s: string, i: nat)
    requires i <= |s|
    ensures forall k :: i <= k < SkipSpace(s, i) ==> IsSpace(s[k])
    decreases |s| - i
  {
    if i < |s| && IsSpace(s[i]) { SpacesOnly(s, i + 1); }
  }
}
