/** Rewriting a whole file line by line: Markdown follows the rename inside its
    fences and, under `docs/`, in its prose too. */
module RescopeFiles {
  import opened Wrappers
  import opened Strings
  import opened RescopeTokens
  import opened RescopeLines
  import opened Rescope

  predicate IsFenceLine(line: string) {
    At(line, SkipSpace(line, 0), "```")
  }

  /** Whether a file is Markdown, and whether its prose follows the rename. */
  datatype FileKind = FileKind(markdown: bool, prose: bool)

  function KindOf(file: string): FileKind {
    var markdown := EndsWith(file, ".md");
    FileKind(markdown, markdown && StartsWith(file, "docs/"))
  }

  /** Whether line `k` of a Markdown file begins inside a fence. */
  predicate InsideFence(lines: seq<string>, k: nat)
    requires k <= |lines|
  {
    k > 0 && InsideFence(lines, k - 1) != IsFenceLine(lines[k - 1])
  }

  predicate IsEligible(kind: FileKind, lines: seq<string>, k: nat)
    requires k < |lines|
  {
    !kind.markdown || (!IsFenceLine(lines[k]) && (InsideFence(lines, k) || kind.prose))
  }

  function NewLine(kind: FileKind, lines: seq<string>, ps: seq<Pattern>, k: nat): string
    requires k < |lines|
  {
    if IsEligible(kind, lines, k) then Rewritten(lines[k], ps) else lines[k]
  }

  function NewLines(kind: FileKind, lines: seq<string>, ps: seq<Pattern>): (after: seq<string>)
    ensures |after| == |lines| && forall k :: 0 <= k < |lines| ==> after[k] == NewLine(kind, lines, ps, k)
  {
    seq(|lines|, k requires 0 <= k < |lines| => NewLine(kind, lines, ps, k))
  }

  /** How many of the first `n` lines differ. */
  function Differences(before: seq<string>, after: seq<string>, n: nat): nat
    requires n <= |before| == |after|
  {
    if n == 0 then 0 else Differences(before, after, n - 1) + if before[n - 1] != after[n - 1] then 1 else 0
  }

  ghost predicate PlainTargets(ps: seq<Pattern>) {
    forall i :: 0 <= i < |ps| ==> '\n' !in ps[i].to
  }

  lemma {:induction false} OneMoreLine(kind: FileKind, lines: seq<string>, ps: seq<Pattern>, target: seq<string>, k: nat)
    requires k < |lines| && target == NewLines(kind, lines, ps)
    ensures target[..k + 1] == target[..k] + [target[k]]
    ensures target[k] == if IsEligible(kind, lines, k) then Rewritten(lines[k], ps) else lines[k]
    ensures InsideFence(lines, k + 1) <==> InsideFence(lines, k) != IsFenceLine(lines[k])
    ensures Differences(lines, target, k + 1) == Differences(lines, target, k) + if lines[k] != target[k] then 1 else 0
  {
    assert target[k] == NewLine(kind, lines, ps, k);
  }

  method RewriteLines(lines: seq<string>, kind: FileKind, all: seq<Pattern>, skips: set<string>)
    returns (after: seq<string>, changed: nat)
    ensures after == NewLines(kind, lines, Active(all, skips))
    ensures changed == Differences(lines, after, |lines|)
  {
    var insideFence := false;
    after, changed := [], 0;
    ghost var target := NewLines(kind, lines, Active(all, skips));
    for k := 0 to |lines|
      invariant after == target[..k]
      invariant kind.markdown ==> insideFence == InsideFence(lines, k)
      invariant changed == Differences(lines, target, k)
    {
      OneMoreLine(kind, lines, Active(all, skips), target, k);
      var next := lines[k];
      if kind.markdown && IsFenceLine(next) {
        insideFence := !insideFence;
      } else if !kind.markdown || insideFence || kind.prose {
        next := RewriteLine(lines[k], all, skips);
        if next != lines[k] { changed := changed + 1; }
      }
      after := after + [next];
    }
    assert target[..|lines|] == target;
  }

  /** The text keeps its lines, each as it was or rewritten, and the count is
      the number of lines that changed. */
  method Rewrite(text: string, file: string, all: seq<Pattern>, skips: set<string>) returns (out: string, changed: nat)
    requires PlainTargets(Active(all, skips))
    ensures Split(out, '\n') == NewLines(KindOf(file), Split(text, '\n'), Active(all, skips))
    ensures changed == Differences(Split(text, '\n'), Split(out, '\n'), |Split(text, '\n')|)
  {
    var lines, kind, after := Split(text, '\n'), KindOf(file), [];
    after, changed := RewriteLines(lines, kind, all, skips);
    NewLinesPlain(kind, text, Active(all, skips));
    out := Join(after, '\n');
    PlainLinesJoin(after);
  }

  ghost predicate ArePlain(lines: seq<string>) {
    lines != [] && forall k :: 0 <= k < |lines| ==> '\n' !in lines[k]
  }

  lemma PlainLinesJoin(lines: seq<string>)
    requires ArePlain(lines)
    ensures Split(Join(lines, '\n'), '\n') == lines
  {
    SplitJoin(lines, '\n');
  }

  // ---------------------------------------------------------------------
  // Lines stay lines
  // ---------------------------------------------------------------------

  lemma JoinedPlain(a: string, b: string, c: string, d: string)
    requires '\n' !in a && '\n' !in b && '\n' !in c && '\n' !in d
    ensures '\n' !in a + b + c + d
  {
  }

  lemma SlicePlain(s: string, i: nat, j: nat)
    requires i <= j <= |s| && '\n' !in s
    ensures '\n' !in s[i..j]
  {
  }

  lemma TailPlain(s: string, i: nat)
    requires i <= |s| && '\n' !in s
    ensures '\n' !in s[i..]
  {
  }

  lemma {:induction false} TokensPlain(s: string, p: Pattern)
    requires '\n' !in s && '\n' !in p.to
    ensures '\n' !in ReplaceTokens(s, p)
    decreases |s|
  {
    if s != [] {
      var end := TokenEnd(s, p.from);
      var next := if end.None? then 1 else end.value + 1;
      TailPlain(s, next);
      TokensPlain(s[next..], p);
      if end.None? { NoTokenPlain(s, p); } else { TokenPlain(s, p, end.value); }
    }
  }

  lemma {:induction false} NoTokenPlain(s: string, p: Pattern)
    requires s != [] && '\n' !in s && TokenEnd(s, p.from).None? && '\n' !in ReplaceTokens(s[1..], p)
    ensures '\n' !in ReplaceTokens(s, p)
  {
    assert ReplaceTokens(s, p) == [s[0]] + ReplaceTokens(s[1..], p);
  }

  lemma {:induction false} TokenPlain(s: string, p: Pattern, end: nat)
    requires '\n' !in s && '\n' !in p.to && TokenEnd(s, p.from) == Some(end)
    requires '\n' !in ReplaceTokens(s[end + 1..], p)
    ensures '\n' !in ReplaceTokens(s, p)
  {
    ReplaceOne(s, p, end);
    SlicePlain(s, 1 + |p.from|, end + 1);
    JoinedPlain([s[0]], p.to, s[1 + |p.from|..end + 1], ReplaceTokens(s[end + 1..], p));
  }

  lemma {:induction false} RewrittenPlain(line: string, ps: seq<Pattern>)
    requires '\n' !in line && PlainTargets(ps)
    ensures '\n' !in Rewritten(line, ps)
    decreases |ps|
  {
    if ps != [] {
      var earlier, last := ps[..|ps| - 1], ps[|ps| - 1];
      RewrittenPlain(line, earlier);
      TokensPlain(Rewritten(line, earlier), last);
    }
  }

  lemma NamesArePlain(ps: seq<Pattern>)
    requires Compatible(ps)
    ensures PlainTargets(ps)
  {
    forall i | 0 <= i < |ps|
      ensures '\n' !in ps[i].to
    {
      assert IsName(ps[i].to) && IsSpace('\n');
    }
  }

  lemma NewLinesPlain(kind: FileKind, text: string, ps: seq<Pattern>)
    requires PlainTargets(ps)
    ensures ArePlain(NewLines(kind, Split(text, '\n'), ps))
  {
    var lines := Split(text, '\n');
    SplitParts(text, '\n');
    forall k | 0 <= k < |lines|
      ensures '\n' !in NewLine(kind, lines, ps, k)
    {
      RewrittenPlain(lines[k], ps);
    }
  }

  // ---------------------------------------------------------------------
  // Which lines follow the rename
  // ---------------------------------------------------------------------

  /** Three backticks after nothing but white space. */
  lemma FenceLineMeaning(line: string)
    ensures IsFenceLine(line) <==>
      exists i {:trigger line[..i]} :: 0 <= i <= |line| - 3 && AllSpaces(line[..i]) && line[i..i + 3] == "```"
  {
    var start := SkipSpace(line, 0);
    SpacesOnly(line, 0);
    assert AllSpaces(line[..start]);
    forall i | 0 <= i <= |line| - 3 && AllSpaces(line[..i]) && line[i..i + 3] == "```"
      ensures start == i
    {
      assert line[i] == line[i..i + 3][0] == '`';
      assert forall k :: 0 <= k < i ==> line[k] == line[..i][k];
      SpaceSkipped(line, 0, i);
    }
  }

  ghost function FencesBefore(lines: seq<string>, k: nat): set<int>
    requires k <= |lines|
  {
    set j | 0 <= j < k && IsFenceLine(lines[j])
  }

  /** Inside a fence means after an odd number of fence lines. */
  lemma {:induction false} InsideMeaning(lines: seq<string>, k: nat)
    requires k <= |lines|
    ensures InsideFence(lines, k) <==> |FencesBefore(lines, k)| % 2 == 1
    decreases k
  {
    if k == 0 {
      assert FencesBefore(lines, 0) == {};
    } else {
      InsideMeaning(lines, k - 1);
      OneMoreFence(lines, k);
    }
  }

  lemma OneMoreFence(lines: seq<string>, k: nat)
    requires 0 < k <= |lines|
    ensures |FencesBefore(lines, k)| == |FencesBefore(lines, k - 1)| + if IsFenceLine(lines[k - 1]) then 1 else 0
  {
    var fewer := FencesBefore(lines, k - 1);
    assert FencesBefore(lines, k) == if IsFenceLine(lines[k - 1]) then fewer + {k - 1} else fewer;
  }

  /** In a Markdown file a line follows the rename after an odd number of fence
      lines, and under `docs/` outside fences too; a fence line never does, and
      every line of any other file does. */
  lemma EligibleMeaning(file: string, lines: seq<string>, k: nat)
    requires k < |lines|
    ensures IsEligible(KindOf(file), lines, k) <==>
      if exists name: string :: file == name + ".md" then
        !IsFenceLine(lines[k])
        && (|FencesBefore(lines, k)| % 2 == 1 || exists name: string :: file == "docs/" + name)
      else true
  {
    InsideMeaning(lines, k);
    if EndsWith(file, ".md") { assert file == file[..|file| - 3] + ".md"; }
    forall name: string | file == name + ".md"
      ensures EndsWith(file, ".md")
    {
      assert file[|name|..] == ".md";
    }
    if StartsWith(file, "docs/") { assert file == "docs/" + file[5..]; }
    forall name: string | file == "docs/" + name
      ensures StartsWith(file, "docs/")
    {
      assert file[..5] == "docs/";
    }
  }

  /** The count is the number of places where the lines differ. */
  lemma {:induction false} DifferencesMeaning(before: seq<string>, after: seq<string>, n: nat)
    requires n <= |before| == |after|
    ensures Differences(before, after, n) == |set k | 0 <= k < n && before[k] != after[k]|
    decreases n
  {
    var all := set k | 0 <= k < n && before[k] != after[k];
    if n > 0 {
      DifferencesMeaning(before, after, n - 1);
      var fewer := set k | 0 <= k < n - 1 && before[k] != after[k];
      assert all == if before[n - 1] != after[n - 1] then fewer + {n - 1} else fewer;
    }
  }

  // ---------------------------------------------------------------------
  // Fences stay fences
  // ---------------------------------------------------------------------

  /** A fence line cut at its quotes: three backticks after white space. */
  predicate FenceShape(line: Line) {
    && AllSpaces(line.head) && |line.parts| >= 3
    && line.parts[0].quote == line.parts[1].quote == line.parts[2].quote == '`'
    && line.parts[0].text == [] && line.parts[1].text == []
  }

  lemma ThreeTicks(parts: seq<Part>)
    requires AreParts(parts)
    ensures At(FlatParts(parts), 0, "```") <==> FenceShape(Line([], parts))
  {
    var s := FlatParts(parts);
    if parts != [] && parts[0].text == [] {
      assert s[1..] == FlatParts(parts[1..]);
      if |parts| > 1 && parts[1].text == [] {
        assert parts[1..][1..] == parts[2..];
        assert s[2..] == FlatParts(parts[2..]);
        assert |parts| > 2 ==> s[2] == parts[2].quote;
        assert s[1] == parts[1].quote;
      } else if |parts| > 1 {
        assert s[2] == parts[1].text[0];
      }
    } else if parts != [] {
      assert s[1] == parts[0].text[0];
    }
    assert |s| >= 3 ==> s[0..3] == [s[0], s[1], s[2]];
  }

  lemma FenceByParts(line: Line)
    requires IsLine(line)
    ensures IsFenceLine(Flat(line)) <==> FenceShape(line)
  {
    var s, rest, n := Flat(line), FlatParts(line.parts), |line.head|;
    SpaceBeforeQuote(line.head, rest, 0);
    var i := SkipSpace(s, 0);
    assert forall k :: 0 <= k < n ==> s[k] == line.head[k];
    if AllSpaces(line.head) {
      SpaceSkipped(s, 0, n);
      ThreeTicks(line.parts);
      AtAfter(line.head, rest, "```");
    } else {
      SpaceStops(s, n);
      FirstOfAt(s, i, "```");
    }
  }

  lemma FirstOfAt(s: string, i: nat, t: string)
    requires t != []
    ensures At(s, i, t) ==> s[i] == t[0]
  {
    if At(s, i, t) { assert s[i..i + |t|][0] == s[i]; }
  }

  lemma AtAfter(head: string, rest: string, t: string)
    ensures At(head + rest, |head|, t) <==> At(rest, 0, t)
  {
    if |t| <= |rest| { assert (head + rest)[|head|..|head| + |t|] == rest[0..|t|]; }
  }

  lemma SpaceStops(s: string, n: nat)
    requires n <= |s| && exists k :: 0 <= k < n && !IsSpace(s[k])
    ensures SkipSpace(s, 0) < n
  {
    var k :| 0 <= k < n && !IsSpace(s[k]);
    SpacesOnly(s, 0);
  }

  /** A line with a name scalar does not begin with white space alone. */
  lemma ScalarIsNoFence(head: string, rest: string)
    requires NoQuotes(head) && IsRest(rest) && ScalarStart(head + rest).Some?
    ensures !AllSpaces(head)
  {
    var s := head + rest;
    var key := KeyStart(s);
    SpaceBeforeQuote(head, rest, 0);
    if SkipSpace(s, 0) < |head| { SpaceBeforeQuote(head, rest, SkipSpace(s, 0) + 1); }
    AtBeforeQuote(head, rest, key, "name:");
    assert head[key..key + 5][0] == head[key];
  }

  lemma FenceStays(line: string, ps: seq<Pattern>)
    requires Compatible(ps)
    ensures IsFenceLine(Rewritten(line, ps)) <==> IsFenceLine(line)
  {
    CutIsLine(line);
    var cut := Cut(line);
    RewrittenIsClosed(cut, ps);
    ClosedIsLine(cut, ps);
    FenceByParts(cut);
    FenceByParts(Closed(cut, ps));
    HeadStaysSpaces(cut.head, Tip(cut.parts), ps);
    forall k | 0 <= k < |cut.parts|
      ensures ClosedPart(cut.parts, ps, k).quote == cut.parts[k].quote
      ensures ClosedPart(cut.parts, ps, k).text == [] <==> cut.parts[k].text == []
    {
      EmptyStaysEmpty(cut.parts, ps, k);
    }
  }

  lemma EmptyStaysEmpty(parts: seq<Part>, ps: seq<Pattern>, k: nat)
    requires Compatible(ps) && k < |parts|
    ensures ClosedPart(parts, ps, k).quote == parts[k].quote
    ensures ClosedPart(parts, ps, k).text == [] <==> parts[k].text == []
  {
    var i := PartCases(parts, ps, k);
    if i.Some? { assert IsName(ps[i.value].from) && IsName(ps[i.value].to); }
  }

  lemma HeadStaysSpaces(head: string, rest: string, ps: seq<Pattern>)
    requires NoQuotes(head) && IsRest(rest) && Compatible(ps)
    ensures AllSpaces(ClosedHead(head, rest, ps)) <==> AllSpaces(head)
  {
    var i := HeadCases(head, rest, ps);
    if i.Some? {
      PassHeadSets(head, rest, ps[i.value]);
      ScalarIsNoFence(head, rest);
      ScalarIsNoFence(ClosedHead(head, rest, ps), rest);
    }
  }

  lemma {:induction false} EligibleStays(kind: FileKind, lines: seq<string>, ps: seq<Pattern>, k: nat)
    requires Compatible(ps) && k <= |lines|
    ensures InsideFence(NewLines(kind, lines, ps), k) <==> InsideFence(lines, k)
    ensures k < |lines| ==> (IsEligible(kind, NewLines(kind, lines, ps), k) <==> IsEligible(kind, lines, k))
    decreases k
  {
    if k > 0 {
      EligibleStays(kind, lines, ps, k - 1);
      FenceStays(lines[k - 1], ps);
    }
    if k < |lines| { FenceStays(lines[k], ps); }
  }

  // ---------------------------------------------------------------------
  // Whole files
  // ---------------------------------------------------------------------

  /** A second run over a file changes nothing exactly when no line the first
      run may rewrite has two tokens of one name sharing a quote. */
  lemma SecondRunIsIdle(kind: FileKind, lines: seq<string>, ps: seq<Pattern>)
    requires Compatible(ps)
    ensures NewLines(kind, NewLines(kind, lines, ps), ps) == NewLines(kind, lines, ps) <==>
      forall k :: 0 <= k < |lines| && IsEligible(kind, lines, k) ==> NoSharedQuotes(Cut(lines[k]).parts, ps)
  {
    var once := NewLines(kind, lines, ps);
    var twice := NewLines(kind, once, ps);
    forall k | 0 <= k < |lines|
      ensures twice[k] == once[k] <==> (IsEligible(kind, lines, k) ==> NoSharedQuotes(Cut(lines[k]).parts, ps))
    {
      EligibleStays(kind, lines, ps, k);
      TwiceIsOnce(lines[k], ps);
    }
  }

  /** The reverse run restores a file exactly when each line the first run may
      rewrite is one the reverse table restores. */
  lemma ReverseRunRestores(kind: FileKind, lines: seq<string>, ps: seq<Pattern>, rs: seq<Pattern>)
    requires Compatible(ps) && Compatible(rs) && AreReverse(rs, ps)
    ensures NewLines(kind, NewLines(kind, lines, ps), rs) == lines <==>
      forall k :: 0 <= k < |lines| && IsEligible(kind, lines, k) ==> Restorable(lines[k], ps, rs)
  {
    var once := NewLines(kind, lines, ps);
    var back := NewLines(kind, once, rs);
    forall k | 0 <= k < |lines|
      ensures back[k] == lines[k] <==> (IsEligible(kind, lines, k) ==> Restorable(lines[k], ps, rs))
    {
      EligibleStays(kind, lines, ps, k);
      ReverseUndoes(lines[k], ps, rs);
    }
  }
}
