/** Renaming delimited package names in a line: what one pass does at the level
    of characters, and what it means for the line cut at its quotes. */
module RescopeTokens {
  import opened Wrappers
  import opened Strings

  /** A name's rewrite, in the running direction. */
  datatype Pattern = Pattern(upstream: string, from: string, to: string)

  predicate IsQuote(c: char) {
    c == '\'' || c == '"' || c == '`'
  }

  predicate NoQuotes(s: string) {
    forall i | 0 <= i < |s| :: !IsQuote(s[i])
  }

  predicate NoSpaces(s: string) {
    forall i | 0 <= i < |s| :: !IsSpace(s[i])
  }

  predicate IsName(s: string) {
    s != [] && NoQuotes(s) && NoSpaces(s) && '#' !in s
  }

  // ---------------------------------------------------------------------
  // The token pass over characters
  // ---------------------------------------------------------------------

  /** The end of the run without quotes and white space. */
  function RunEnd(s: string, i: nat): (end: nat)
    requires i <= |s|
    ensures i <= end <= |s|
    decreases |s| - i
  {
    if i < |s| && !IsQuote(s[i]) && !IsSpace(s[i]) then RunEnd(s, i + 1) else i
  }

  lemma {:induction false} RunEndMeaning(s: string, i: nat)
    requires i <= |s|
    ensures var end := RunEnd(s, i);
      && (end < |s| ==> IsQuote(s[end]) || IsSpace(s[end]))
      && forall k :: i <= k < end ==> !IsQuote(s[k]) && !IsSpace(s[k])
    decreases |s| - i
  {
    if i < |s| && !IsQuote(s[i]) && !IsSpace(s[i]) { RunEndMeaning(s, i + 1); }
  }

  /** Where the token at the start of `s` closes: a quote, the name, possibly a
      subpath, and the same quote. */
  function TokenEnd(s: string, from: string): (end: Option<nat>)
    ensures end.Some? ==> |from| < end.value < |s|
  {
    if s == [] || !IsQuote(s[0]) || !StartsWith(s[1..], from) then None
    else
      var stop := 1 + |from|;
      var end := if stop < |s| && s[stop] == '/' then RunEnd(s, stop + 1) else stop;
      if end < |s| && s[end] == s[0] then Some(end) else None
  }

  /** All tokens found from left to right, none beginning inside another. */
  function ReplaceTokens(s: string, p: Pattern): string
    decreases |s|
  {
    if s == [] then []
    else
      var end := TokenEnd(s, p.from);
      if end.None? then [s[0]] + ReplaceTokens(s[1..], p)
      else [s[0]] + p.to + s[1 + |p.from|..end.value + 1] + ReplaceTokens(s[end.value + 1..], p)
  }

  // ---------------------------------------------------------------------
  // Lines cut at their quotes
  // ---------------------------------------------------------------------

  /** A quote and the text up to the next one. */
  datatype Part = Part(quote: char, text: string)

  datatype Line = Line(head: string, parts: seq<Part>)

  function Cut(s: string): Line {
    if s == [] then Line([], [])
    else
      var rest := Cut(s[1..]);
      if IsQuote(s[0]) then Line([], [Part(s[0], rest.head)] + rest.parts) else Line([s[0]] + rest.head, rest.parts)
  }

  function FlatParts(parts: seq<Part>): string {
    if parts == [] then [] else [parts[0].quote] + parts[0].text + FlatParts(parts[1..])
  }

  function Flat(line: Line): string {
    line.head + FlatParts(line.parts)
  }

  predicate AreParts(parts: seq<Part>) {
    forall i | 0 <= i < |parts| :: IsQuote(parts[i].quote) && NoQuotes(parts[i].text)
  }

  predicate IsLine(line: Line) {
    NoQuotes(line.head) && AreParts(line.parts)
  }

  lemma {:induction false} CutIsLine(s: string)
    ensures IsLine(Cut(s)) && Flat(Cut(s)) == s
  {
    if s != [] {
      CutIsLine(s[1..]);
      var rest := Cut(s[1..]);
      assert s == [s[0]] + s[1..];
      if IsQuote(s[0]) {
        assert ([Part(s[0], rest.head)] + rest.parts)[1..] == rest.parts;
      }
    }
  }

  lemma {:induction false} CutHead(head: string, rest: string)
    requires NoQuotes(head) && (rest == [] || IsQuote(rest[0]))
    ensures Cut(head + rest) == Line(head, Cut(rest).parts)
    decreases |head|
  {
    if head == [] {
      assert head + rest == rest;
    } else {
      assert (head + rest)[1..] == head[1..] + rest;
      CutHead(head[1..], rest);
      assert [head[0]] + head[1..] == head;
    }
  }

  lemma {:induction false} CutCons(quote: char, text: string, rest: string)
    requires IsQuote(quote) && NoQuotes(text) && (rest == [] || IsQuote(rest[0]))
    ensures Cut([quote] + text + rest).parts == [Part(quote, text)] + Cut(rest).parts
  {
    CutHead(text, rest);
    assert [quote] + (text + rest) == [quote] + text + rest;
  }

  lemma {:induction false} CutParts(parts: seq<Part>)
    requires AreParts(parts)
    ensures Cut(FlatParts(parts)).parts == parts
    decreases |parts|
  {
    if parts != [] {
      CutParts(parts[1..]);
      CutCons(parts[0].quote, parts[0].text, FlatParts(parts[1..]));
      assert [parts[0]] + parts[1..] == parts;
    }
  }

  lemma CutFlat(line: Line)
    requires IsLine(line)
    ensures Cut(Flat(line)) == line
  {
    CutParts(line.parts);
    CutHead(line.head, FlatParts(line.parts));
  }

  // ---------------------------------------------------------------------
  // Tokens as parts
  // ---------------------------------------------------------------------

  /** The name, or the name and a subpath. */
  predicate IsNamed(text: string, name: string) {
    || text == name
    || (|text| > |name| && text[..|name|] == name && text[|name|] == '/' && NoSpaces(text[|name| + 1..]))
  }

  predicate IsToken(parts: seq<Part>, name: string, k: nat) {
    k + 1 < |parts| && parts[k].quote == parts[k + 1].quote && IsNamed(parts[k].text, name)
  }

  /** The tokens a pass rewrites: not one whose opening quote closed the one
      rewritten before it. */
  predicate Taken(parts: seq<Part>, name: string, k: nat) {
    IsToken(parts, name, k) && !(k > 0 && Taken(parts, name, k - 1))
  }

  function Renamed(text: string, p: Pattern): string
    requires IsNamed(text, p.from)
  {
    p.to + text[|p.from|..]
  }

  function PassPart(parts: seq<Part>, p: Pattern, k: nat): Part
    requires k < |parts|
  {
    if Taken(parts, p.from, k) then parts[k].(text := Renamed(parts[k].text, p)) else parts[k]
  }

  function PassParts(parts: seq<Part>, p: Pattern): (passed: seq<Part>)
    ensures |passed| == |parts| && forall k :: 0 <= k < |parts| ==> passed[k] == PassPart(parts, p, k)
  {
    seq(|parts|, k requires 0 <= k < |parts| => PassPart(parts, p, k))
  }

  /** The same pass from left to right, told whether the part before was taken. */
  function PassFrom(parts: seq<Part>, p: Pattern, taken: bool): seq<Part> {
    if parts == [] then []
    else if !taken && IsToken(parts, p.from, 0) then
      [parts[0].(text := Renamed(parts[0].text, p))] + PassFrom(parts[1..], p, true)
    else [parts[0]] + PassFrom(parts[1..], p, false)
  }

  lemma {:induction false} PassFromIsPass(parts: seq<Part>, p: Pattern, j: nat)
    requires j <= |parts|
    ensures PassFrom(parts[j..], p, j > 0 && Taken(parts, p.from, j - 1)) == PassParts(parts, p)[j..]
    decreases |parts| - j
  {
    if j < |parts| {
      assert parts[j..][1..] == parts[j + 1..];
      assert IsToken(parts[j..], p.from, 0) <==> IsToken(parts, p.from, j);
      PassFromIsPass(parts, p, j + 1);
      assert PassParts(parts, p)[j..] == [PassPart(parts, p, j)] + PassParts(parts, p)[j + 1..];
    }
  }

  lemma StartsInText(text: string, rest: string, name: string)
    requires NoQuotes(name) && (rest == [] || IsQuote(rest[0]))
    ensures StartsWith(text + rest, name) <==> StartsWith(text, name)
  {
    var whole := text + rest;
    if |text| < |name| <= |whole| {
      assert whole[..|name|][|text|] == rest[0];
    } else if |name| <= |text| {
      assert whole[..|name|] == text[..|name|];
    }
  }

  /** A subpath's run ends at the next quote unless white space comes first. */
  lemma RunOverText(s: string, i: nat, end: nat)
    requires i <= end <= |s| && (end < |s| ==> IsQuote(s[end]))
    requires forall k :: i <= k < end ==> !IsQuote(s[k])
    ensures RunEnd(s, i) <= end
    ensures RunEnd(s, i) == end <==> NoSpaces(s[i..end])
    ensures RunEnd(s, i) < end ==> !IsQuote(s[RunEnd(s, i)])
  {
    var run := RunEnd(s, i);
    RunEndMeaning(s, i);
    if run == end {
      assert forall k :: 0 <= k < end - i ==> s[i..end][k] == s[i + k];
    } else if run < end {
      assert s[i..end][run - i] == s[run];
    }
  }

  lemma {:induction false} SubpathAt(quote: char, text: string, rest: string, name: string)
    requires IsQuote(quote) && NoQuotes(text) && (rest == [] || IsQuote(rest[0]))
    requires |name| < |text| && text[|name|] == '/'
    ensures var s := [quote] + text + rest; var run := RunEnd(s, 2 + |name|);
      run < |s| && s[run] == quote <==> NoSpaces(text[|name| + 1..]) && rest != [] && rest[0] == quote
    ensures RunEnd([quote] + text + rest, 2 + |name|) == 1 + |text| || !NoSpaces(text[|name| + 1..])
  {
    var s, close := [quote] + text + rest, 1 + |text|;
    assert forall k :: 1 <= k < close ==> s[k] == text[k - 1];
    assert rest != [] ==> s[close] == rest[0];
    RunOverText(s, 2 + |name|, close);
    assert s[2 + |name|..close] == text[|name| + 1..];
  }

  lemma {:induction false} TokenAt(quote: char, text: string, rest: string, name: string)
    requires IsQuote(quote) && NoQuotes(text) && (rest == [] || IsQuote(rest[0])) && NoQuotes(name)
    ensures TokenEnd([quote] + text + rest, name) ==
            if IsNamed(text, name) && rest != [] && rest[0] == quote then Some(1 + |text|) else None
  {
    var s, stop := [quote] + text + rest, 1 + |name|;
    assert s[1..] == text + rest;
    StartsInText(text, rest, name);
    if StartsWith(text, name) {
      if |name| < |text| {
        assert s[stop] == text[|name|];
        if text[|name|] == '/' { SubpathAt(quote, text, rest, name); }
      } else {
        assert text == name;
        assert rest != [] ==> s[stop] == rest[0];
      }
    }
  }

  lemma TokenAtPart(parts: seq<Part>, name: string)
    requires AreParts(parts) && parts != [] && NoQuotes(name)
    ensures TokenEnd(FlatParts(parts), name) == if IsToken(parts, name, 0) then Some(1 + |parts[0].text|) else None
  {
    TokenAt(parts[0].quote, parts[0].text, FlatParts(parts[1..]), name);
  }

  lemma {:induction false} ReplacePastText(text: string, rest: string, p: Pattern)
    requires NoQuotes(text)
    ensures ReplaceTokens(text + rest, p) == text + ReplaceTokens(rest, p)
    decreases |text|
  {
    if text == [] {
      assert text + rest == rest;
    } else {
      assert (text + rest)[1..] == text[1..] + rest;
      ReplacePastText(text[1..], rest, p);
      assert [text[0]] + (text[1..] + ReplaceTokens(rest, p)) == text + ReplaceTokens(rest, p);
    }
  }

  lemma {:induction false} ReplaceInParts(parts: seq<Part>, p: Pattern)
    requires AreParts(parts) && NoQuotes(p.from)
    ensures ReplaceTokens(FlatParts(parts), p) == FlatParts(PassFrom(parts, p, false))
    decreases |parts|
  {
    if parts != [] {
      var s := FlatParts(parts);
      TokenAtPart(parts, p.from);
      if IsToken(parts, p.from, 0) {
        ReplaceFirstToken(parts, p);
        ReplaceInParts(parts[2..], p);
        FlatOfTaken(parts, p);
      } else {
        assert s[1..] == parts[0].text + FlatParts(parts[1..]);
        ReplacePastText(parts[0].text, FlatParts(parts[1..]), p);
        ReplaceInParts(parts[1..], p);
        FlatCons(parts[0], PassFrom(parts[1..], p, false));
      }
    }
  }

  lemma FlatCons(part: Part, parts: seq<Part>)
    ensures FlatParts([part] + parts) == [part.quote] + part.text + FlatParts(parts)
  {
    assert ([part] + parts)[1..] == parts;
  }

  /** Over a token at the start the pass writes the new name and goes on behind
      the closing quote. */
  lemma {:induction false} ReplaceFirstToken(parts: seq<Part>, p: Pattern)
    requires AreParts(parts) && NoQuotes(p.from) && IsToken(parts, p.from, 0)
    ensures ReplaceTokens(FlatParts(parts), p) ==
            [parts[0].quote] + Renamed(parts[0].text, p) + [parts[1].quote]
            + (parts[1].text + ReplaceTokens(FlatParts(parts[2..]), p))
  {
    var text, next, last := parts[0].text, parts[1], FlatParts(parts[2..]);
    TokenAtPart(parts, p.from);
    FlatOfTwo(parts);
    TokenPieces(parts[0].quote, text, next.quote, next.text + last, |p.from|);
    ReplacePastText(next.text, last, p);
  }

  lemma FlatOfTwo(parts: seq<Part>)
    requires |parts| >= 2
    ensures FlatParts(parts) ==
            [parts[0].quote] + parts[0].text + ([parts[1].quote] + (parts[1].text + FlatParts(parts[2..])))
  {
    var next, last := parts[1], FlatParts(parts[2..]);
    assert parts[1..][1..] == parts[2..];
    assert [next.quote] + next.text + last == [next.quote] + (next.text + last);
  }

  lemma {:induction false} ReplaceOne(s: string, p: Pattern, end: nat)
    requires TokenEnd(s, p.from) == Some(end)
    ensures ReplaceTokens(s, p) == [s[0]] + p.to + s[1 + |p.from|..end + 1] + ReplaceTokens(s[end + 1..], p)
  {
  }

  lemma TokenPieces(open: char, text: string, close: char, rest: string, n: nat)
    requires n <= |text|
    ensures var s, end := [open] + text + ([close] + rest), 1 + |text|;
      s[1 + n..end + 1] == text[n..] + [close] && s[end + 1..] == rest && s[0] == open && |s| > end
  {
  }

  lemma {:induction false} FlatOfTaken(parts: seq<Part>, p: Pattern)
    requires IsToken(parts, p.from, 0)
    ensures FlatParts(PassFrom(parts, p, false)) ==
            [parts[0].quote] + Renamed(parts[0].text, p) + [parts[1].quote]
            + (parts[1].text + FlatParts(PassFrom(parts[2..], p, false)))
  {
    var more := PassFrom(parts[2..], p, false);
    assert parts[1..][1..] == parts[2..];
    assert PassFrom(parts[1..], p, true) == [parts[1]] + more;
    var first := parts[0].(text := Renamed(parts[0].text, p));
    FlatCons(first, [parts[1]] + more);
    FlatCons(parts[1], more);
    assert [first.quote] + first.text + ([parts[1].quote] + parts[1].text + FlatParts(more)) ==
           [first.quote] + first.text + [parts[1].quote] + (parts[1].text + FlatParts(more));
  }

  /** Replacing tokens in a line rewrites exactly the taken parts. */
  lemma ReplaceIsPass(line: Line, p: Pattern)
    requires IsLine(line) && NoQuotes(p.from)
    ensures ReplaceTokens(Flat(line), p) == Flat(Line(line.head, PassParts(line.parts, p)))
  {
    ReplacePastText(line.head, FlatParts(line.parts), p);
    ReplaceInParts(line.parts, p);
    PassFromIsPass(line.parts, p, 0);
    assert line.parts[0..] == line.parts && PassParts(line.parts, p)[0..] == PassParts(line.parts, p);
  }
}
