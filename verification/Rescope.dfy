/** What rewriting a line under a whole table of names does: which names change,
    when doing it twice is doing it once, and when the reverse table undoes it. */
module Rescope {
  import opened Wrappers
  import opened Strings
  import opened RescopeTokens
  import opened RescopeLines

  // ---------------------------------------------------------------------
  // The rewriting
  // ---------------------------------------------------------------------

  /** The patterns that are not skipped in a file. */
  function Active(all: seq<Pattern>, skips: set<string>): seq<Pattern> {
    if all == [] then []
    else
      var last := all[|all| - 1];
      Active(all[..|all| - 1], skips) + if last.upstream in skips then [] else [last]
  }

  function Rewritten(line: string, ps: seq<Pattern>): string {
    if ps == [] then line
    else
      var last := ps[|ps| - 1];
      ReplaceScalar(ReplaceTokens(Rewritten(line, ps[..|ps| - 1]), last), last)
  }

  method RewriteLine(line: string, all: seq<Pattern>, skips: set<string>) returns (out: string)
    ensures out == Rewritten(line, Active(all, skips))
  {
    out := line;
    for k := 0 to |all|
      invariant out == Rewritten(line, Active(all[..k], skips))
    {
      assert all[..k + 1][..k] == all[..k];
      var pattern := all[k];
      if pattern.upstream !in skips {
        ghost var active := Active(all[..k], skips);
        assert (active + [pattern])[..|active|] == active;
        out := ReplaceTokens(out, pattern);
        out := ReplaceScalar(out, pattern);
      } else {
        assert Active(all[..k], skips) + [] == Active(all[..k], skips);
      }
    }
    assert all[..|all|] == all;
  }

  // ---------------------------------------------------------------------
  // Tables of names
  // ---------------------------------------------------------------------

  predicate IsPathPrefix(a: string, b: string) {
    b == a || StartsWith(b, a + "/")
  }

  /** No text names both. */
  predicate Apart(a: string, b: string) {
    !IsPathPrefix(a, b) && !IsPathPrefix(b, a)
  }

  predicate Compatible(ps: seq<Pattern>) {
    && (forall i {:trigger IsName(ps[i].from)} | 0 <= i < |ps| :: IsName(ps[i].from))
    && (forall i {:trigger IsName(ps[i].to)} | 0 <= i < |ps| :: IsName(ps[i].to))
    && (forall i, j {:trigger Apart(ps[i].from, ps[j].to)} | 0 <= i < |ps| && 0 <= j < |ps| ::
          Apart(ps[i].from, ps[j].to))
    && (forall i, j {:trigger Apart(ps[i].from, ps[j].from)} | 0 <= i < |ps| && 0 <= j < |ps| && i != j ::
          Apart(ps[i].from, ps[j].from))
  }

  ghost predicate ApartFromNew(name: string, ps: seq<Pattern>) {
    forall i {:trigger Apart(name, ps[i].to)} :: 0 <= i < |ps| ==> Apart(name, ps[i].to)
  }

  ghost predicate ApartFromOld(name: string, ps: seq<Pattern>) {
    forall i {:trigger Apart(name, ps[i].from)} :: 0 <= i < |ps| ==> Apart(name, ps[i].from)
  }

  lemma PrefixNamed(text: string, a: string, b: string)
    requires |a| <= |b| && IsNamed(text, a) && IsNamed(text, b)
    ensures IsPathPrefix(a, b)
  {
    assert text[..|b|] == b && text[..|a|] == a;
    assert b[..|a|] == text[..|b|][..|a|] == a;
    if |a| < |b| {
      assert b[|a|] == text[|a|] == '/';
      assert b[..|a| + 1] == a + "/";
    } else {
      assert b[..|a|] == b;
    }
  }

  lemma NamedApart(text: string, a: string, b: string)
    requires IsNamed(text, a) && IsNamed(text, b)
    ensures !Apart(a, b)
  {
    if |a| <= |b| { PrefixNamed(text, a, b); } else { PrefixNamed(text, b, a); }
  }

  /** Where an active pattern stands among all. */
  function Origin(all: seq<Pattern>, skips: set<string>, i: nat): (j: nat)
    requires i < |Active(all, skips)|
    ensures j < |all| && Active(all, skips)[i] == all[j]
  {
    var earlier := all[..|all| - 1];
    if i < |Active(earlier, skips)| then Origin(earlier, skips, i) else |all| - 1
  }

  lemma {:induction false} OriginsDiffer(all: seq<Pattern>, skips: set<string>, i: nat, k: nat)
    requires i < k < |Active(all, skips)|
    ensures Origin(all, skips, i) != Origin(all, skips, k)
    decreases |all|
  {
    var earlier := all[..|all| - 1];
    if k < |Active(earlier, skips)| { OriginsDiffer(earlier, skips, i, k); }
  }

  /** Skipping names keeps a table compatible. */
  lemma ActiveIsCompatible(all: seq<Pattern>, skips: set<string>)
    requires Compatible(all)
    ensures Compatible(Active(all, skips))
  {
    var ps := Active(all, skips);
    forall i | 0 <= i < |ps|
      ensures IsName(ps[i].from) && IsName(ps[i].to)
    {
      var j := Origin(all, skips, i);
      assert IsName(all[j].from) && IsName(all[j].to);
    }
    forall i, k | 0 <= i < |ps| && 0 <= k < |ps|
      ensures Apart(ps[i].from, ps[k].to)
    {
      assert Apart(all[Origin(all, skips, i)].from, all[Origin(all, skips, k)].to);
    }
    forall i, k | 0 <= i < |ps| && 0 <= k < |ps| && i != k
      ensures Apart(ps[i].from, ps[k].from)
    {
      if i < k { OriginsDiffer(all, skips, i, k); } else { OriginsDiffer(all, skips, k, i); }
      assert Apart(all[Origin(all, skips, i)].from, all[Origin(all, skips, k)].from);
    }
  }

  /** A text names at most one of the old names. */
  lemma OneOldName(ps: seq<Pattern>, i: nat, j: nat, text: string)
    requires Compatible(ps) && i < |ps| && j < |ps| && IsNamed(text, ps[i].from) && IsNamed(text, ps[j].from)
    ensures i == j
  {
    if i != j {
      assert Apart(ps[i].from, ps[j].from);
      NamedApart(text, ps[i].from, ps[j].from);
    }
  }

  lemma OldIsNotNew(ps: seq<Pattern>, i: nat, j: nat, text: string)
    requires Compatible(ps) && i < |ps| && j < |ps| && IsNamed(text, ps[j].to)
    ensures !IsNamed(text, ps[i].from)
  {
    assert Apart(ps[i].from, ps[j].to);
    if IsNamed(text, ps[i].from) { NamedApart(text, ps[i].from, ps[j].to); }
  }

  lemma OldNamesDiffer(ps: seq<Pattern>, i: nat, j: nat)
    requires Compatible(ps) && i < |ps| && j < |ps| && ps[i].from == ps[j].from
    ensures i == j
  {
    assert IsNamed(ps[i].from, ps[i].from);
    OneOldName(ps, i, j, ps[i].from);
  }

  lemma RenamedIsNamed(text: string, p: Pattern)
    requires IsNamed(text, p.from)
    ensures IsNamed(Renamed(text, p), p.to)
    ensures Renamed(text, p)[|p.to|..] == text[|p.from|..]
  {
    var renamed := Renamed(text, p);
    assert renamed[..|p.to|] == p.to;
    if text != p.from {
      assert renamed[|p.to|] == text[|p.from|];
      assert renamed[|p.to| + 1..] == text[|p.from| + 1..];
    }
  }

  // ---------------------------------------------------------------------
  // All tokens at once
  // ---------------------------------------------------------------------

  /** A part after all passes, told from the original parts alone. */
  function ClosedPart(parts: seq<Part>, ps: seq<Pattern>, k: nat): Part
    requires k < |parts|
  {
    if ps == [] then parts[k]
    else
      var last := ps[|ps| - 1];
      if Taken(parts, last.from, k) then PassPart(parts, last, k) else ClosedPart(parts, ps[..|ps| - 1], k)
  }

  function ClosedParts(parts: seq<Part>, ps: seq<Pattern>): (closed: seq<Part>)
    ensures |closed| == |parts| && forall k :: 0 <= k < |parts| ==> closed[k] == ClosedPart(parts, ps, k)
  {
    seq(|parts|, k requires 0 <= k < |parts| => ClosedPart(parts, ps, k))
  }

  /** A part is renamed by a pattern that takes it, and else stays. */
  lemma {:induction false} PartCases(parts: seq<Part>, ps: seq<Pattern>, k: nat) returns (i: Option<nat>)
    requires k < |parts|
    ensures i.Some? ==> i.value < |ps| && Taken(parts, ps[i.value].from, k)
    ensures i.Some? ==> ClosedPart(parts, ps, k) == PassPart(parts, ps[i.value], k)
    ensures i.None? ==> ClosedPart(parts, ps, k) == parts[k]
    ensures i.None? ==> forall j :: 0 <= j < |ps| ==> !Taken(parts, ps[j].from, k)
  {
    if ps == [] {
      i := None;
    } else if Taken(parts, ps[|ps| - 1].from, k) {
      i := Some(|ps| - 1);
    } else {
      i := PartCases(parts, ps[..|ps| - 1], k);
    }
  }

  lemma PartTaken(parts: seq<Part>, ps: seq<Pattern>, i: nat, k: nat)
    requires Compatible(ps) && i < |ps| && k < |parts| && Taken(parts, ps[i].from, k)
    ensures ClosedPart(parts, ps, k) == PassPart(parts, ps[i], k)
  {
    var j := PartCases(parts, ps, k);
    OneOldName(ps, i, j.value, parts[k].text);
  }

  /** Which tokens a name has once other names, and maybe itself, are replaced. */
  lemma TokenAfter(parts: seq<Part>, ps: seq<Pattern>, name: string, k: nat)
    requires Compatible(ps) && ApartFromNew(name, ps)
    ensures IsToken(ClosedParts(parts, ps), name, k) <==>
      IsToken(parts, name, k) && forall i :: 0 <= i < |ps| ==> !Taken(parts, ps[i].from, k)
  {
    if k + 1 < |parts| {
      var here := PartCases(parts, ps, k);
      var next := PartCases(parts, ps, k + 1);
      if here.Some? {
        var p := ps[here.value];
        RenamedIsNamed(parts[k].text, p);
        if IsNamed(Renamed(parts[k].text, p), name) { NamedApart(Renamed(parts[k].text, p), name, p.to); }
      }
    }
  }

  lemma {:induction false} TakenAfter(parts: seq<Part>, ps: seq<Pattern>, name: string, k: nat)
    requires Compatible(ps) && ApartFromNew(name, ps) && ApartFromOld(name, ps)
    ensures IsToken(ClosedParts(parts, ps), name, k) <==> IsToken(parts, name, k)
    ensures Taken(ClosedParts(parts, ps), name, k) <==> Taken(parts, name, k)
    ensures k < |parts| && Taken(parts, name, k) ==> ClosedPart(parts, ps, k) == parts[k]
    decreases k
  {
    TokenAfter(parts, ps, name, k);
    if IsToken(parts, name, k) {
      var here := PartCases(parts, ps, k);
      if here.Some? { NamedApart(parts[k].text, name, ps[here.value].from); }
    }
    if k > 0 { TakenAfter(parts, ps, name, k - 1); }
  }

  lemma PassOfClosed(parts: seq<Part>, ps: seq<Pattern>)
    requires Compatible(ps) && ps != []
    ensures PassParts(ClosedParts(parts, ps[..|ps| - 1]), ps[|ps| - 1]) == ClosedParts(parts, ps)
  {
    var earlier, last := ps[..|ps| - 1], ps[|ps| - 1];
    var before := ClosedParts(parts, earlier);
    forall k | 0 <= k < |parts|
      ensures PassPart(before, last, k) == ClosedPart(parts, ps, k)
    {
      TakenAfter(parts, earlier, last.from, k);
    }
  }

  lemma ClosedAreParts(parts: seq<Part>, ps: seq<Pattern>)
    requires Compatible(ps) && AreParts(parts)
    ensures AreParts(ClosedParts(parts, ps))
  {
    forall k | 0 <= k < |parts|
      ensures IsQuote(ClosedPart(parts, ps, k).quote) && NoQuotes(ClosedPart(parts, ps, k).text)
    {
      var i := PartCases(parts, ps, k);
      if i.Some? { assert IsName(ps[i.value].to); }
    }
  }

  // ---------------------------------------------------------------------
  // The scalar
  // ---------------------------------------------------------------------

  /** The text before the first quote after a pass. */
  function PassHead(head: string, rest: string, p: Pattern): string
    requires NoQuotes(head) && IsRest(rest) && IsName(p.from)
  {
    if IsScalar(head + rest, p.from) then
      ScalarInHead(head, rest, rest, p.from);
      var start := ScalarStart(head + rest).value;
      head[..start] + p.to + head[start + |p.from|..]
    else head
  }

  lemma ReplaceInHead(head: string, rest: string, p: Pattern)
    requires NoQuotes(head) && IsRest(rest) && IsName(p.from)
    ensures ReplaceScalar(head + rest, p) == PassHead(head, rest, p) + rest
  {
    if IsScalar(head + rest, p.from) {
      ScalarInHead(head, rest, rest, p.from);
    }
  }

  /** What follows the first quote plays no part. */
  lemma PassHeadSame(head: string, a: string, b: string, p: Pattern)
    requires NoQuotes(head) && IsRest(a) && IsRest(b) && (a == [] <==> b == []) && IsName(p.from)
    ensures PassHead(head, a, p) == PassHead(head, b, p)
    ensures IsScalar(head + a, p.from) <==> IsScalar(head + b, p.from)
  {
    if IsScalar(head + a, p.from) {
      ScalarInHead(head, a, b, p.from);
    } else if IsScalar(head + b, p.from) {
      ScalarInHead(head, b, a, p.from);
    }
  }

  lemma PassHeadSets(head: string, rest: string, p: Pattern)
    requires NoQuotes(head) && IsRest(rest) && IsName(p.from) && IsName(p.to) && IsScalar(head + rest, p.from)
    ensures NoQuotes(PassHead(head, rest, p)) && IsScalar(PassHead(head, rest, p) + rest, p.to)
    ensures ScalarStart(PassHead(head, rest, p) + rest) == ScalarStart(head + rest)
  {
    ReplaceInHead(head, rest, p);
    ScalarReplaced(head + rest, p);
    ScalarInHead(head, rest, rest, p.from);
  }

  function ClosedHead(head: string, rest: string, ps: seq<Pattern>): string
    requires NoQuotes(head) && IsRest(rest) && Compatible(ps)
  {
    if ps == [] then head
    else
      var last := ps[|ps| - 1];
      if IsScalar(head + rest, last.from) then PassHead(head, rest, last) else ClosedHead(head, rest, ps[..|ps| - 1])
  }

  lemma {:induction false} HeadCases(head: string, rest: string, ps: seq<Pattern>) returns (i: Option<nat>)
    requires NoQuotes(head) && IsRest(rest) && Compatible(ps)
    ensures i.Some? ==> i.value < |ps| && IsName(ps[i.value].from) && IsName(ps[i.value].to)
    ensures i.Some? ==> IsScalar(head + rest, ps[i.value].from)
    ensures i.Some? ==> ClosedHead(head, rest, ps) == PassHead(head, rest, ps[i.value])
    ensures i.None? ==> ClosedHead(head, rest, ps) == head
    ensures i.None? ==> forall j :: 0 <= j < |ps| ==> !IsScalar(head + rest, ps[j].from)
  {
    if ps == [] {
      i := None;
    } else {
      if IsScalar(head + rest, ps[|ps| - 1].from) {
        i := Some(|ps| - 1);
      } else {
        i := HeadCases(head, rest, ps[..|ps| - 1]);
      }
    }
  }

  lemma ClosedHeadPlain(head: string, rest: string, ps: seq<Pattern>)
    requires NoQuotes(head) && IsRest(rest) && Compatible(ps)
    ensures NoQuotes(ClosedHead(head, rest, ps))
  {
    var i := HeadCases(head, rest, ps);
    if i.Some? { PassHeadSets(head, rest, ps[i.value]); }
  }

  /** The scalar is an old or other name still exactly if no pattern hit it. */
  lemma {:induction false} ScalarAfter(head: string, rest: string, ps: seq<Pattern>, name: string)
    requires NoQuotes(head) && IsRest(rest) && Compatible(ps) && IsName(name) && ApartFromNew(name, ps)
    ensures IsScalar(ClosedHead(head, rest, ps) + rest, name) <==>
      IsScalar(head + rest, name) && forall i :: 0 <= i < |ps| ==> !IsScalar(head + rest, ps[i].from)
  {
    var i := HeadCases(head, rest, ps);
    if i.Some? {
      var p := ps[i.value];
      assert Apart(name, p.to) && name != p.to;
      PassHeadSets(head, rest, p);
      if IsScalar(ClosedHead(head, rest, ps) + rest, name) {
        ScalarIsUnique(ClosedHead(head, rest, ps) + rest, name, p.to);
      }
    }
  }

  lemma HeadPassOfClosed(head: string, rest: string, ps: seq<Pattern>)
    requires NoQuotes(head) && IsRest(rest) && Compatible(ps) && ps != []
    ensures Compatible(ps[..|ps| - 1]) && NoQuotes(ClosedHead(head, rest, ps[..|ps| - 1])) && IsName(ps[|ps| - 1].from)
    ensures PassHead(ClosedHead(head, rest, ps[..|ps| - 1]), rest, ps[|ps| - 1]) == ClosedHead(head, rest, ps)
  {
    var earlier, last := ps[..|ps| - 1], ps[|ps| - 1];
    ClosedHeadPlain(head, rest, earlier);
    ScalarAfter(head, rest, earlier, last.from);
    if IsScalar(head + rest, last.from) {
      var i := HeadCases(head, rest, earlier);
      if i.Some? {
        ScalarIsUnique(head + rest, last.from, ps[i.value].from);
        OldNamesDiffer(ps, i.value, |ps| - 1);
      }
    }
  }

  // ---------------------------------------------------------------------
  // The passes and the closed form
  // ---------------------------------------------------------------------

  /** Any text from the first quote on does for telling the scalar. */
  function Tip(parts: seq<Part>): (tip: string)
    ensures IsRest(tip)
  {
    if parts == [] then "" else "'"
  }

  /** The line after all passes, told from the original line alone. */
  function Closed(line: Line, ps: seq<Pattern>): Line
    requires IsLine(line) && Compatible(ps)
  {
    Line(ClosedHead(line.head, Tip(line.parts), ps), ClosedParts(line.parts, ps))
  }

  lemma ClosedIsLine(line: Line, ps: seq<Pattern>)
    requires IsLine(line) && Compatible(ps)
    ensures IsLine(Closed(line, ps)) && Tip(Closed(line, ps).parts) == Tip(line.parts)
  {
    ClosedAreParts(line.parts, ps);
    ClosedHeadPlain(line.head, Tip(line.parts), ps);
  }

  lemma OnePass(line: Line, p: Pattern)
    requires IsLine(line) && IsName(p.from) && IsName(p.to)
    ensures ReplaceScalar(ReplaceTokens(Flat(line), p), p) ==
            Flat(Line(PassHead(line.head, Tip(line.parts), p), PassParts(line.parts, p)))
  {
    var rest := FlatParts(PassParts(line.parts, p));
    ReplaceIsPass(line, p);
    ReplaceInHead(line.head, rest, p);
    PassHeadSame(line.head, rest, Tip(line.parts), p);
  }

  /** Rewriting a line gives the closed form: a quoted token changes if its name
      is in the table and its opening quote is not the closing one of a token
      already changed; the scalar changes if its name is in the table; nothing
      else changes, and the order of the table plays no part. */
  lemma {:induction false} RewrittenIsClosed(line: Line, ps: seq<Pattern>)
    requires IsLine(line) && Compatible(ps)
    ensures Rewritten(Flat(line), ps) == Flat(Closed(line, ps))
    decreases |ps|
  {
    if ps == [] {
      assert ClosedParts(line.parts, ps) == line.parts;
    } else {
      var earlier, last := ps[..|ps| - 1], ps[|ps| - 1];
      RewrittenIsClosed(line, earlier);
      ClosedIsLine(line, earlier);
      OnePass(Closed(line, earlier), last);
      HeadPassOfClosed(line.head, Tip(line.parts), ps);
      PassOfClosed(line.parts, ps);
    }
  }

  // ---------------------------------------------------------------------
  // Twice is once
  // ---------------------------------------------------------------------

  /** Two tokens of one name use the same quote. */
  predicate SharesQuote(parts: seq<Part>, name: string, k: nat) {
    IsToken(parts, name, k) && IsToken(parts, name, k + 1)
  }

  ghost predicate NoSharedQuotes(parts: seq<Part>, ps: seq<Pattern>) {
    forall i, k: nat :: 0 <= i < |ps| ==> !SharesQuote(parts, ps[i].from, k)
  }

  ghost predicate NoneTaken(parts: seq<Part>, ps: seq<Pattern>) {
    forall i, k: nat :: 0 <= i < |ps| ==> !Taken(parts, ps[i].from, k)
  }

  lemma SameIfNoneTaken(parts: seq<Part>, ps: seq<Pattern>)
    requires Compatible(ps)
    ensures ClosedParts(parts, ps) == parts <==> NoneTaken(parts, ps)
  {
    if NoneTaken(parts, ps) {
      forall k | 0 <= k < |parts|
        ensures ClosedPart(parts, ps, k) == parts[k]
      {
        var i := PartCases(parts, ps, k);
      }
    } else {
      var i, k: nat :| 0 <= i < |ps| && Taken(parts, ps[i].from, k);
      PartTaken(parts, ps, i, k);
      RenamedIsNamed(parts[k].text, ps[i]);
      OldIsNotNew(ps, i, i, Renamed(parts[k].text, ps[i]));
      assert ClosedParts(parts, ps)[k] != parts[k];
    }
  }

  lemma TakenAgain(parts: seq<Part>, ps: seq<Pattern>, i: nat, k: nat)
    requires Compatible(ps) && i < |ps|
    ensures IsToken(ClosedParts(parts, ps), ps[i].from, k) <==>
      IsToken(parts, ps[i].from, k) && !Taken(parts, ps[i].from, k)
  {
    TokenAfter(parts, ps, ps[i].from, k);
    if IsToken(parts, ps[i].from, k) && !Taken(parts, ps[i].from, k) {
      var j := PartCases(parts, ps, k);
      if j.Some? { OneOldName(ps, i, j.value, parts[k].text); }
    }
  }

  /** After a rewriting no token is taken exactly when no quote was shared. */
  lemma TwicePartsIsOnce(parts: seq<Part>, ps: seq<Pattern>)
    requires Compatible(ps)
    ensures ClosedParts(ClosedParts(parts, ps), ps) == ClosedParts(parts, ps) <==> NoSharedQuotes(parts, ps)
  {
    var closed := ClosedParts(parts, ps);
    SameIfNoneTaken(closed, ps);
    if NoSharedQuotes(parts, ps) {
      forall i, k: nat | 0 <= i < |ps|
        ensures !Taken(closed, ps[i].from, k)
      {
        TakenAgain(parts, ps, i, k);
        assert k > 0 ==> !SharesQuote(parts, ps[i].from, k - 1);
      }
      assert NoneTaken(closed, ps);
    } else {
      var i, k: nat :| 0 <= i < |ps| && SharesQuote(parts, ps[i].from, k);
      var name := ps[i].from;
      var left := if Taken(parts, name, k) then k + 1 else k;
      TakenAgain(parts, ps, i, left);
      assert Taken(closed, name, left) || Taken(closed, name, left - 1);
      assert !NoneTaken(closed, ps);
    }
  }

  lemma TwiceHeadIsOnce(head: string, rest: string, ps: seq<Pattern>)
    requires NoQuotes(head) && IsRest(rest) && Compatible(ps)
    ensures NoQuotes(ClosedHead(head, rest, ps))
    ensures ClosedHead(ClosedHead(head, rest, ps), rest, ps) == ClosedHead(head, rest, ps)
  {
    ClosedHeadPlain(head, rest, ps);
    var i := HeadCases(ClosedHead(head, rest, ps), rest, ps);
    if i.Some? {
      ScalarAfter(head, rest, ps, ps[i.value].from);
    }
  }

  /** Rewriting a line twice is rewriting it once exactly when no two tokens of
      one name share a quote. */
  lemma {:induction false} TwiceIsOnce(line: string, ps: seq<Pattern>)
    requires Compatible(ps)
    ensures Rewritten(Rewritten(line, ps), ps) == Rewritten(line, ps) <==> NoSharedQuotes(Cut(line).parts, ps)
  {
    CutIsLine(line);
    var cut := Cut(line);
    var once := Closed(cut, ps);
    RewrittenIsClosed(cut, ps);
    ClosedIsLine(cut, ps);
    TwiceHeadIsOnce(cut.head, Tip(cut.parts), ps);
    RewrittenIsClosed(once, ps);
    TwicePartsIsOnce(cut.parts, ps);
    ClosedIsLine(once, ps);
    CutFlat(once);
    CutFlat(Closed(once, ps));
  }

  /** The name twice, the second time in the quote that closes the first. */
  function Repeated(name: string): string {
    "'" + name + "'" + name + "'"
  }

  lemma CutRepeated(name: string)
    requires NoQuotes(name)
    ensures Cut(Repeated(name)).parts == [Part('\'', name)] + ([Part('\'', name)] + [Part('\'', [])])
  {
    var last := [Part('\'', [])];
    var two := [Part('\'', name)] + last;
    FlatCons(Part('\'', []), []);
    FlatCons(Part('\'', name), last);
    FlatCons(Part('\'', name), two);
    RepeatedPieces(name);
    CutParts([Part('\'', name)] + two);
  }

  lemma RepeatedShares(name: string)
    requires NoQuotes(name)
    ensures SharesQuote(Cut(Repeated(name)).parts, name, 0)
  {
    CutRepeated(name);
  }

  lemma RepeatedPieces(name: string)
    ensures ['\''] + name + (['\''] + name + (['\''] + [] + [])) == Repeated(name)
  {
  }

  /** Whatever the table, a second rewriting of `'name'name'` changes it again. */
  lemma {:induction false} SharedQuoteChangesAgain(ps: seq<Pattern>, i: nat)
    requires Compatible(ps) && i < |ps|
    ensures Rewritten(Rewritten(Repeated(ps[i].from), ps), ps) != Rewritten(Repeated(ps[i].from), ps)
  {
    assert IsName(ps[i].from);
    RepeatedShares(ps[i].from);
    TwiceIsOnce(Repeated(ps[i].from), ps);
  }

  // ---------------------------------------------------------------------
  // The reverse
  // ---------------------------------------------------------------------

  predicate Undoes(r: Pattern, p: Pattern) {
    r.from == p.to && r.to == p.from
  }

  /** The same names in the other direction, in any order. */
  ghost predicate AreReverse(rs: seq<Pattern>, ps: seq<Pattern>) {
    && (forall i :: 0 <= i < |ps| ==> IsUndone(rs, ps[i]))
    && (forall j :: 0 <= j < |rs| ==> IsUndoing(ps, rs[j]))
  }

  ghost predicate IsUndone(rs: seq<Pattern>, p: Pattern) {
    exists j :: 0 <= j < |rs| && Undoes(rs[j], p)
  }

  ghost predicate IsUndoing(ps: seq<Pattern>, r: Pattern) {
    exists i :: 0 <= i < |ps| && Undoes(r, ps[i])
  }

  /** A new name is a token only in the quote that closes a changed token of its
      old name. */
  ghost predicate NewBehindOld(parts: seq<Part>, ps: seq<Pattern>) {
    forall i, k: nat {:trigger IsToken(parts, ps[i].to, k)} ::
      0 <= i < |ps| && IsToken(parts, ps[i].to, k) ==> k > 0 && Taken(parts, ps[i].from, k - 1)
  }

  /** What a line may hold of the new names before the rewriting. */
  ghost predicate Restorable(line: string, ps: seq<Pattern>, rs: seq<Pattern>) {
    NewBehindOld(Cut(line).parts, ps) && NoScalarOf(line, rs)
  }

  lemma ReverseOf(rs: seq<Pattern>, ps: seq<Pattern>, i: nat) returns (j: nat)
    requires AreReverse(rs, ps) && i < |ps|
    ensures j < |rs| && Undoes(rs[j], ps[i])
  {
    assert IsUndone(rs, ps[i]);
    j :| 0 <= j < |rs| && Undoes(rs[j], ps[i]);
  }

  lemma ForwardOf(rs: seq<Pattern>, ps: seq<Pattern>, j: nat) returns (i: nat)
    requires AreReverse(rs, ps) && j < |rs|
    ensures i < |ps| && Undoes(rs[j], ps[i])
  {
    assert IsUndoing(ps, rs[j]);
    i :| 0 <= i < |ps| && Undoes(rs[j], ps[i]);
  }

  lemma NotOldAndNew(parts: seq<Part>, ps: seq<Pattern>, i: nat, k: nat)
    requires Compatible(ps) && i < |ps|
    ensures !IsToken(parts, ps[i].to, k) || !Taken(parts, ps[i].from, k)
  {
    if k < |parts| && IsNamed(parts[k].text, ps[i].to) { OldIsNotNew(ps, i, i, parts[k].text); }
  }

  /** In the rewritten line a new name's tokens are its own and those renamed to
      it. */
  lemma TokenOfRenamed(parts: seq<Part>, ps: seq<Pattern>, rs: seq<Pattern>, i: nat, j: nat, k: nat)
    requires Compatible(ps) && Compatible(rs) && AreReverse(rs, ps)
    requires i < |ps| && j < |rs| && Undoes(rs[j], ps[i])
    ensures IsToken(ClosedParts(parts, ps), rs[j].from, k) <==>
      Taken(parts, ps[i].from, k) || IsToken(parts, rs[j].from, k)
  {
    if k + 1 < |parts| {
      var here := PartCases(parts, ps, k);
      var next := PartCases(parts, ps, k + 1);
      if here.Some? { NameOfRenamed(parts, ps, rs, i, j, k, here.value); }
    }
  }

  lemma NameOfRenamed(parts: seq<Part>, ps: seq<Pattern>, rs: seq<Pattern>, i: nat, j: nat, k: nat, here: nat)
    requires Compatible(ps) && Compatible(rs) && AreReverse(rs, ps)
    requires i < |ps| && j < |rs| && Undoes(rs[j], ps[i])
    requires k < |parts| && here < |ps| && Taken(parts, ps[here].from, k)
    ensures !IsNamed(parts[k].text, rs[j].from) && (Taken(parts, ps[i].from, k) <==> here == i)
    ensures IsNamed(Renamed(parts[k].text, ps[here]), rs[j].from) <==> here == i
  {
    var text := parts[k].text;
    RenamedIsNamed(text, ps[here]);
    if IsNamed(text, ps[i].to) { OldIsNotNew(ps, here, i, text); }
    if here != i { OtherRenamed(text, ps, rs, i, j, here); }
    if Taken(parts, ps[i].from, k) { OneOldName(ps, i, here, text); }
  }

  lemma OtherRenamed(text: string, ps: seq<Pattern>, rs: seq<Pattern>, i: nat, j: nat, other: nat)
    requires Compatible(ps) && Compatible(rs) && AreReverse(rs, ps)
    requires i < |ps| && j < |rs| && Undoes(rs[j], ps[i]) && other < |ps| && other != i
    requires IsNamed(text, ps[other].from)
    ensures !IsNamed(Renamed(text, ps[other]), rs[j].from)
  {
    var m := ReverseOf(rs, ps, other);
    RenamedIsNamed(text, ps[other]);
    if IsNamed(Renamed(text, ps[other]), rs[j].from) {
      OneOldName(rs, j, m, Renamed(text, ps[other]));
      OldNamesDiffer(ps, i, other);
    }
  }

  /** The reverse changes just the tokens that were changed. */
  lemma {:induction false} TakenBack(parts: seq<Part>, ps: seq<Pattern>, rs: seq<Pattern>, i: nat, j: nat, k: nat)
    requires Compatible(ps) && Compatible(rs) && AreReverse(rs, ps) && NewBehindOld(parts, ps)
    requires i < |ps| && j < |rs| && Undoes(rs[j], ps[i])
    ensures Taken(ClosedParts(parts, ps), rs[j].from, k) <==> Taken(parts, ps[i].from, k)
    decreases k
  {
    TokenOfRenamed(parts, ps, rs, i, j, k);
    if k > 0 { TakenBack(parts, ps, rs, i, j, k - 1); }
    NotOldAndNew(parts, ps, i, k);
  }

  lemma {:induction false} PartUndone(parts: seq<Part>, ps: seq<Pattern>, rs: seq<Pattern>, k: nat)
    requires Compatible(ps) && Compatible(rs) && AreReverse(rs, ps) && NewBehindOld(parts, ps) && k < |parts|
    ensures ClosedPart(ClosedParts(parts, ps), rs, k) == parts[k]
  {
    var closed := ClosedParts(parts, ps);
    var forward := PartCases(parts, ps, k);
    if forward.Some? {
      var i := forward.value;
      var j := ReverseOf(rs, ps, i);
      TakenBack(parts, ps, rs, i, j, k);
      PartTaken(closed, rs, j, k);
      RenamedIsNamed(parts[k].text, ps[i]);
      NamedText(parts[k].text, ps[i].from);
    } else {
      var back := PartCases(closed, rs, k);
      if back.Some? {
        var i := ForwardOf(rs, ps, back.value);
        TakenBack(parts, ps, rs, i, back.value, k);
      }
    }
  }

  /** Where a part comes back, the reverse changed it just if it was changed. */
  lemma {:induction false} UndoneTaken(parts: seq<Part>, ps: seq<Pattern>, rs: seq<Pattern>, i: nat, j: nat, k: nat)
    requires Compatible(ps) && Compatible(rs) && i < |ps| && j < |rs| && Undoes(rs[j], ps[i])
    requires k < |parts| && ClosedPart(ClosedParts(parts, ps), rs, k) == parts[k]
    ensures Taken(ClosedParts(parts, ps), rs[j].from, k) <==> Taken(parts, ps[i].from, k)
  {
    var closed := ClosedParts(parts, ps);
    if Taken(closed, rs[j].from, k) {
      PartTaken(closed, rs, j, k);
      RenamedIsNamed(closed[k].text, rs[j]);
      var forward := PartCases(parts, ps, k);
      if forward.None? { OldIsNotNew(ps, i, i, parts[k].text); }
      else { OneOldName(ps, i, forward.value, parts[k].text); }
    } else if Taken(parts, ps[i].from, k) {
      PartTaken(parts, ps, i, k);
      RenamedIsNamed(parts[k].text, ps[i]);
      var back := PartCases(closed, rs, k);
      if back.None? { OldIsNotNew(ps, i, i, parts[k].text); }
      else { OneOldName(rs, j, back.value, closed[k].text); }
    }
  }

  lemma PartsUndone(parts: seq<Part>, ps: seq<Pattern>, rs: seq<Pattern>)
    requires Compatible(ps) && Compatible(rs) && AreReverse(rs, ps)
    ensures ClosedParts(ClosedParts(parts, ps), rs) == parts <==> NewBehindOld(parts, ps)
  {
    var closed := ClosedParts(parts, ps);
    if NewBehindOld(parts, ps) {
      forall k | 0 <= k < |parts|
        ensures ClosedPart(closed, rs, k) == parts[k]
      {
        PartUndone(parts, ps, rs, k);
      }
    }
    if ClosedParts(closed, rs) == parts {
      forall i, k: nat | 0 <= i < |ps| && IsToken(parts, ps[i].to, k)
        ensures k > 0 && Taken(parts, ps[i].from, k - 1)
      {
        var j := ReverseOf(rs, ps, i);
        NewIsBehind(parts, ps, rs, i, j, k);
      }
    }
  }

  lemma {:induction false} NewIsBehind(parts: seq<Part>, ps: seq<Pattern>, rs: seq<Pattern>, i: nat, j: nat, k: nat)
    requires Compatible(ps) && Compatible(rs) && AreReverse(rs, ps)
    requires ClosedParts(ClosedParts(parts, ps), rs) == parts
    requires i < |ps| && j < |rs| && Undoes(rs[j], ps[i]) && IsToken(parts, ps[i].to, k)
    ensures k > 0 && Taken(parts, ps[i].from, k - 1)
  {
    TokenOfRenamed(parts, ps, rs, i, j, k);
    UndoneTaken(parts, ps, rs, i, j, k);
    NotOldAndNew(parts, ps, i, k);
    if k > 0 { UndoneTaken(parts, ps, rs, i, j, k - 1); }
  }

  lemma NamedText(text: string, name: string)
    requires IsNamed(text, name)
    ensures name + text[|name|..] == text
  {
  }

  ghost predicate NoScalarOf(s: string, rs: seq<Pattern>) {
    forall j {:trigger IsScalar(s, rs[j].from)} :: 0 <= j < |rs| ==> !IsScalar(s, rs[j].from)
  }

  lemma {:induction false} HeadUndone(head: string, rest: string, ps: seq<Pattern>, rs: seq<Pattern>)
    requires NoQuotes(head) && IsRest(rest) && Compatible(ps) && Compatible(rs) && AreReverse(rs, ps)
    ensures NoQuotes(ClosedHead(head, rest, ps))
    ensures ClosedHead(ClosedHead(head, rest, ps), rest, rs) == head <==> NoScalarOf(head + rest, rs)
  {
    ClosedHeadPlain(head, rest, ps);
    var closed := ClosedHead(head, rest, ps);
    var forward := HeadCases(head, rest, ps);
    if forward.None? {
      var back := HeadCases(head, rest, rs);
      if back.Some? { ScalarChanged(head, rest, rs[back.value], rs); }
    } else {
      var p := ps[forward.value];
      var j := ReverseOf(rs, ps, forward.value);
      PassHeadSets(head, rest, p);
      OnlyScalar(closed, rest, rs, j);
      HeadRestored(head, rest, p, rs[j]);
      OldScalarOnly(head, rest, ps, rs, forward.value);
    }
  }

  lemma ScalarChanged(head: string, rest: string, r: Pattern, rs: seq<Pattern>)
    requires NoQuotes(head) && IsRest(rest) && Compatible(rs) && r in rs
    requires IsName(r.from) && IsName(r.to) && IsScalar(head + rest, r.from)
    ensures PassHead(head, rest, r) != head && !NoScalarOf(head + rest, rs)
  {
    var j :| 0 <= j < |rs| && rs[j] == r;
    assert Apart(rs[j].from, rs[j].to);
    PassHeadSets(head, rest, r);
    if PassHead(head, rest, r) == head { ScalarIsUnique(head + rest, r.from, r.to); }
  }

  lemma OldScalarOnly(head: string, rest: string, ps: seq<Pattern>, rs: seq<Pattern>, i: nat)
    requires Compatible(ps) && Compatible(rs) && AreReverse(rs, ps) && i < |ps|
    requires IsName(ps[i].from) && IsScalar(head + rest, ps[i].from)
    ensures NoScalarOf(head + rest, rs)
  {
    forall j | 0 <= j < |rs|
      ensures !IsScalar(head + rest, rs[j].from)
    {
      var m := ForwardOf(rs, ps, j);
      assert IsName(rs[j].from) && Apart(ps[i].from, ps[m].to);
      if IsScalar(head + rest, rs[j].from) { ScalarIsUnique(head + rest, ps[i].from, rs[j].from); }
    }
  }

  lemma OnlyScalar(head: string, rest: string, rs: seq<Pattern>, j: nat)
    requires NoQuotes(head) && IsRest(rest) && Compatible(rs)
    requires j < |rs| && IsName(rs[j].from) && IsScalar(head + rest, rs[j].from)
    ensures ClosedHead(head, rest, rs) == PassHead(head, rest, rs[j])
  {
    var i := HeadCases(head, rest, rs);
    ScalarIsUnique(head + rest, rs[i.value].from, rs[j].from);
    OldNamesDiffer(rs, i.value, j);
  }

  lemma HeadRestored(head: string, rest: string, p: Pattern, r: Pattern)
    requires NoQuotes(head) && IsRest(rest) && IsName(p.from) && IsName(p.to) && Undoes(r, p)
    requires IsScalar(head + rest, p.from)
    ensures NoQuotes(PassHead(head, rest, p)) && PassHead(PassHead(head, rest, p), rest, r) == head
  {
    PassHeadSets(head, rest, p);
    ScalarInHead(head, rest, rest, p.from);
    var start := ScalarStart(head + rest).value;
    AtBeforeQuote(head, rest, start, p.from);
  }

  lemma NoScalarBefore(line: Line, rs: seq<Pattern>)
    requires IsLine(line) && Compatible(rs)
    ensures NoScalarOf(line.head + Tip(line.parts), rs) <==> NoScalarOf(Flat(line), rs)
  {
    forall j | 0 <= j < |rs|
      ensures IsScalar(line.head + Tip(line.parts), rs[j].from) <==> IsScalar(Flat(line), rs[j].from)
    {
      assert IsName(rs[j].from);
      PassHeadSame(line.head, FlatParts(line.parts), Tip(line.parts), rs[j]);
    }
  }

  /** The reverse table undoes a rewriting, shared quotes or not, exactly when
      the line held no new name but in quotes that close changed tokens of its
      old name. */
  lemma {:induction false} ReverseUndoes(line: string, ps: seq<Pattern>, rs: seq<Pattern>)
    requires Compatible(ps) && Compatible(rs) && AreReverse(rs, ps)
    ensures Rewritten(Rewritten(line, ps), rs) == line <==> Restorable(line, ps, rs)
  {
    CutIsLine(line);
    var cut := Cut(line);
    var once := Closed(cut, ps);
    RewrittenIsClosed(cut, ps);
    ClosedIsLine(cut, ps);
    RewrittenIsClosed(once, rs);
    NoScalarBefore(cut, rs);
    HeadUndone(cut.head, Tip(cut.parts), ps, rs);
    PartsUndone(cut.parts, ps, rs);
    ClosedIsLine(once, rs);
    CutFlat(Closed(once, rs));
  }

  function Quoted(name: string): string {
    "'" + name + "'"
  }

  lemma {:induction false} QuotedIsToken(name: string)
    requires IsName(name)
    ensures IsToken(Cut(Quoted(name)).parts, name, 0)
  {
    var last := [Part('\'', [])];
    FlatCons(Part('\'', []), []);
    FlatCons(Part('\'', name), last);
    assert ['\''] + name + (['\''] + [] + []) == Quoted(name);
    CutParts([Part('\'', name)] + last);
  }

  /** Whatever the table, the reverse does not restore a quoted new name. */
  lemma {:induction false} NewNameIsNotRestored(ps: seq<Pattern>, rs: seq<Pattern>, i: nat)
    requires Compatible(ps) && Compatible(rs) && AreReverse(rs, ps) && i < |ps|
    ensures Rewritten(Rewritten(Quoted(ps[i].to), ps), rs) != Quoted(ps[i].to)
  {
    assert IsName(ps[i].to);
    QuotedIsToken(ps[i].to);
    ReverseUndoes(Quoted(ps[i].to), ps, rs);
  }
}
