/** Rewriting a line under a table of names: quoted tokens and YAML `name:`
    scalars, one name after the other. */
module RescopeLines {
  import opened Wrappers
  import opened Strings
  import opened RescopeTokens

  // ---------------------------------------------------------------------
  // YAML name scalars
  // ---------------------------------------------------------------------

  predicate IsBlank(c: char) {
    c == ' ' || c == '\t'
  }

  function SkipBlank(s: string, i: nat): (j: nat)
    requires i <= |s|
    ensures i <= j <= |s| && (j < |s| ==> !IsBlank(s[j])) && forall k :: i <= k < j ==> IsBlank(s[k])
    decreases |s| - i
  {
    if i < |s| && IsBlank(s[i]) then SkipBlank(s, i + 1) else i
  }

  /** Where the key begins, also in a list item. */
  function KeyStart(s: string): (key: nat)
    ensures key <= |s|
  {
    var dash := SkipSpace(s, 0);
    if dash < |s| && s[dash] == '-' then SkipSpace(s, dash + 1) else dash
  }

  /** Where the value of a `name:` key begins. */
  function ScalarStart(s: string): (start: Option<nat>)
    ensures start.Some? ==> 0 < start.value <= |s| && (start.value < |s| ==> !IsBlank(s[start.value]))
  {
    var key := KeyStart(s);
    if !At(s, key, "name:") || SkipBlank(s, key + 5) == key + 5 then None else Some(SkipBlank(s, key + 5))
  }

  predicate IsLineTerminator(c: char) {
    c == '\r' || c == '\U{2028}' || c == '\U{2029}'
  }

  /** Nothing follows but blanks and a comment, or blanks and a new line. */
  predicate IsScalarEnd(s: string) {
    var i := SkipBlank(s, 0);
    i == |s| || s[i] == '#' || IsLineTerminator(s[i])
  }

  predicate IsScalar(s: string, name: string) {
    var start := ScalarStart(s);
    start.Some? && At(s, start.value, name) && IsScalarEnd(s[start.value + |name|..])
  }

  function ReplaceScalar(s: string, p: Pattern): string {
    if IsScalar(s, p.from) then
      var start := ScalarStart(s).value;
      s[..start] + p.to + s[start + |p.from|..]
    else s
  }

  predicate Agree(s: string, t: string, n: nat) {
    n <= |s| && n <= |t| && s[..n] == t[..n]
  }

  lemma {:induction false} SpaceAgrees(s: string, t: string, i: nat, n: nat)
    requires Agree(s, t, n) && i <= n && SkipSpace(s, i) < n
    ensures SkipSpace(t, i) == SkipSpace(s, i)
    decreases n - i
  {
    if IsSpace(s[i]) { SpaceAgrees(s, t, i + 1, n); }
  }

  lemma {:induction false} KeyAgrees(s: string, t: string, n: nat)
    requires Agree(s, t, n) && KeyStart(s) < n
    ensures KeyStart(t) == KeyStart(s)
  {
    var dash := SkipSpace(s, 0);
    SpaceAgrees(s, t, 0, n);
    if s[dash] == '-' { SpaceAgrees(s, t, dash + 1, n); }
  }

  /** Where the value begins is settled by what stands before it. */
  lemma {:induction false} StartAgrees(s: string, t: string, n: nat)
    requires Agree(s, t, n) && ScalarStart(s) == Some(n)
    requires n < |t| ==> !IsBlank(t[n])
    ensures ScalarStart(t) == Some(n)
  {
    var key := KeyStart(s);
    KeyAgrees(s, t, n);
    assert key + 5 <= SkipBlank(s, key + 5) == n;
    SliceAgrees(s, t, n, key, key + 5);
    assert forall k :: key + 5 <= k < n ==> t[k] == t[..n][k] == s[..n][k] == s[k];
    BlankUntil(t, key + 5, n);
  }

  lemma SliceAgrees(s: string, t: string, n: nat, i: nat, j: nat)
    requires Agree(s, t, n) && i <= j <= n
    ensures s[i..j] == t[i..j]
  {
    SliceOfPrefix(s, n, i, j);
    SliceOfPrefix(t, n, i, j);
  }

  lemma SliceOfPrefix(s: string, n: nat, i: nat, j: nat)
    requires i <= j <= n <= |s|
    ensures s[i..j] == s[..n][i..j]
  {
  }

  lemma {:induction false} BlankUntil(s: string, i: nat, n: nat)
    requires i <= n <= |s| && (n < |s| ==> !IsBlank(s[n])) && forall k :: i <= k < n ==> IsBlank(s[k])
    ensures SkipBlank(s, i) == n
    decreases n - i
  {
    if i < n { BlankUntil(s, i + 1, n); }
  }

  /** A line has at most one name scalar. */
  lemma ScalarIsUnique(s: string, a: string, b: string)
    requires IsName(a) && IsName(b) && IsScalar(s, a) && IsScalar(s, b)
    ensures a == b
  {
    var start := ScalarStart(s).value;
    if |a| < |b| {
      ScalarNotLonger(s, start, a, b);
    } else if |b| < |a| {
      ScalarNotLonger(s, start, b, a);
    }
  }

  lemma ScalarNotLonger(s: string, start: nat, a: string, b: string)
    requires IsName(b) && |a| < |b| && At(s, start, a) && At(s, start, b)
    ensures !IsScalarEnd(s[start + |a|..])
  {
    var rest := s[start + |a|..];
    assert rest[0] == s[start..start + |b|][|a|] == b[|a|];
    assert !IsSpace(b[|a|]);
  }

  /** A replaced scalar is the name put there. */
  lemma {:induction false} ScalarReplaced(s: string, p: Pattern)
    requires IsName(p.from) && IsName(p.to) && IsScalar(s, p.from)
    ensures IsScalar(ReplaceScalar(s, p), p.to) && ScalarStart(ReplaceScalar(s, p)) == ScalarStart(s)
  {
    var start := ScalarStart(s).value;
    ScalarSet(s, ReplaceScalar(s, p), start, p.from, p.to);
  }

  lemma {:induction false} ScalarSet(s: string, t: string, start: nat, from: string, to: string)
    requires IsName(to) && ScalarStart(s) == Some(start) && IsScalar(s, from)
    requires Agree(s, t, start) && At(t, start, to) && t[start + |to|..] == s[start + |from|..] && t[start] == to[0]
    ensures IsScalar(t, to) && ScalarStart(t) == Some(start)
  {
    assert !IsSpace(to[0]);
    StartAgrees(s, t, start);
  }

  // ---------------------------------------------------------------------
  // Scalars lie before the first quote
  // ---------------------------------------------------------------------

  /** The rest of a line from its first quote on. */
  predicate IsRest(rest: string) {
    rest == [] || IsQuote(rest[0])
  }

  lemma {:induction false} SpaceBeforeQuote(head: string, rest: string, i: nat)
    requires NoQuotes(head) && IsRest(rest) && i <= |head|
    ensures SkipSpace(head + rest, i) <= |head|
    decreases |head| - i
  {
    var s := head + rest;
    if i < |head| { SpaceBeforeQuote(head, rest, i + 1); }
  }

  lemma {:induction false} BlankBeforeQuote(head: string, rest: string, i: nat)
    requires NoQuotes(head) && IsRest(rest) && i <= |head|
    ensures SkipBlank(head + rest, i) <= |head|
    decreases |head| - i
  {
    var s := head + rest;
    if i < |head| { BlankBeforeQuote(head, rest, i + 1); }
  }

  lemma AtBeforeQuote(head: string, rest: string, i: nat, t: string)
    requires NoQuotes(head) && IsRest(rest) && i <= |head| && NoQuotes(t)
    ensures At(head + rest, i, t) <==> At(head, i, t)
  {
    var s := head + rest;
    if i + |t| <= |s| {
      if |head| < i + |t| {
        assert s[i..i + |t|][|head| - i] == rest[0];
      } else {
        assert s[i..i + |t|] == head[i..i + |t|];
      }
    }
  }

  lemma {:induction false} StartBeforeQuote(head: string, rest: string)
    requires NoQuotes(head) && IsRest(rest) && ScalarStart(head + rest).Some?
    ensures ScalarStart(head + rest).value <= |head|
  {
    var s := head + rest;
    SpaceBeforeQuote(head, rest, 0);
    if SkipSpace(s, 0) < |head| { SpaceBeforeQuote(head, rest, SkipSpace(s, 0) + 1); }
    var key := KeyStart(s);
    AtBeforeQuote(head, rest, key, "name:");
    BlankBeforeQuote(head, rest, key + 5);
  }

  lemma StartInHead(head: string, a: string, b: string)
    requires NoQuotes(head) && IsRest(a) && IsRest(b) && ScalarStart(head + a).Some?
    ensures ScalarStart(head + b) == ScalarStart(head + a)
  {
    StartBeforeQuote(head, a);
    var start := ScalarStart(head + a).value;
    assert (head + a)[..start] == head[..start] == (head + b)[..start];
    StartAgrees(head + a, head + b, start);
  }

  lemma EndInHead(head: string, a: string, b: string)
    requires NoQuotes(head) && IsRest(a) && IsRest(b) && (a == [] <==> b == [])
    ensures IsScalarEnd(head + a) ==> IsScalarEnd(head + b)
  {
    BlankBeforeQuote(head, a, 0);
    var i := SkipBlank(head + a, 0);
    assert forall k :: 0 <= k < |head| ==> (head + a)[k] == head[k] == (head + b)[k];
  }

  /** Whether a name is the scalar depends on the text before the first quote,
      and on whether there is a quote at all. */
  lemma ScalarInHead(head: string, a: string, b: string, name: string)
    requires NoQuotes(head) && IsRest(a) && IsRest(b) && (a == [] <==> b == []) && IsName(name)
    requires IsScalar(head + a, name)
    ensures IsScalar(head + b, name) && ScalarStart(head + a) == ScalarStart(head + b)
    ensures ScalarStart(head + a).value + |name| <= |head|
  {
    StartInHead(head, a, b);
    StartBeforeQuote(head, a);
    var start := ScalarStart(head + a).value;
    var end := start + |name|;
    AtBeforeQuote(head, a, start, name);
    AtBeforeQuote(head, b, start, name);
    assert (head + a)[end..] == head[end..] + a && (head + b)[end..] == head[end..] + b;
    EndInHead(head[end..], a, b);
  }
}
