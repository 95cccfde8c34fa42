/** Replacing spans of lines in a document by line splices, from the last span
    to the first. */
module CodeSplice {
  import opened Strings

  type Lines = seq<string>

  /** Lines counted from 1, both ends included. */
  datatype Span = Span(startLine: nat, endLine: nat)

  /** A text with the positions of its code fences. */
  datatype Document = Document(text: string, fences: seq<Span>)

  // ---------------------------------------------------------------------
  // Lines
  // ---------------------------------------------------------------------

  function Normalized(s: string): string {
    if s == [] then []
    else if |s| >= 2 && s[0] == '\r' && s[1] == '\n' then "\n" + Normalized(s[2..])
    else [s[0]] + Normalized(s[1..])
  }

  /** The lines of a text; a final line break does not begin another line. */
  function LinesOf(markdown: string): Lines {
    var lines := Split(Normalized(markdown), '\n');
    if lines[|lines| - 1] == "" then lines[..|lines| - 1] else lines
  }

  function TextOf(lines: Lines): string {
    Join(lines, '\n') + "\n"
  }

  ghost predicate AreLines(lines: Lines) {
    forall i :: 0 <= i < |lines| ==> '\n' !in lines[i]
  }

  lemma LinesOfAreLines(markdown: string)
    ensures AreLines(LinesOf(markdown))
  {
    SplitParts(Normalized(markdown), '\n');
  }

  lemma TextDetermines(a: Lines, b: Lines)
    requires AreLines(a) && AreLines(b) && a != [] && b != [] && TextOf(a) == TextOf(b)
    ensures a == b
  {
    assert Join(a, '\n') == TextOf(a)[..|TextOf(a)| - 1] == TextOf(b)[..|TextOf(b)| - 1] == Join(b, '\n');
    SplitJoin(a, '\n');
    SplitJoin(b, '\n');
  }

  /** A line without a carriage return at its end. */
  function Stripped(line: string): string {
    if line != [] && line[|line| - 1] == '\r' then line[..|line| - 1] else line
  }

  function StrippedAll(lines: Lines): (stripped: Lines)
    ensures |stripped| == |lines| && forall i :: 0 <= i < |lines| ==> stripped[i] == Stripped(lines[i])
  {
    if lines == [] then [] else [Stripped(lines[0])] + StrippedAll(lines[1..])
  }

  lemma NormalizedBreak(rest: string)
    ensures Normalized("\n" + rest) == "\n" + Normalized(rest)
    ensures Normalized("\r\n" + rest) == "\n" + Normalized(rest)
  {
    assert ("\n" + rest)[1..] == rest;
    assert ("\r\n" + rest)[2..] == rest;
  }

  lemma {:induction false} NormalizedLine(line: string, rest: string)
    requires '\n' !in line
    ensures Normalized(line + "\n" + rest) == Stripped(line) + "\n" + Normalized(rest)
  {
    NormalizedBreak(rest);
    if line == [] {
      assert line + "\n" + rest == "\n" + rest;
    } else if line == "\r" {
      assert line + "\n" + rest == "\r\n" + rest;
    } else {
      var c, tail := line[0], line[1..];
      var s := line + "\n" + rest;
      assert s[0] == c && s[1..] == tail + "\n" + rest;
      assert s[1] == if tail == [] then '\n' else tail[0];
      NormalizedLine(tail, rest);
      assert Stripped(line) == [c] + Stripped(tail);
    }
  }

  lemma {:induction false} NormalizedText(lines: Lines)
    requires AreLines(lines) && lines != []
    ensures Normalized(TextOf(lines)) == TextOf(StrippedAll(lines))
  {
    var stripped := StrippedAll(lines);
    if |lines| == 1 {
      NormalizedLine(lines[0], "");
      assert lines[0] + "\n" + "" == TextOf(lines);
      assert Stripped(lines[0]) + "\n" + "" == TextOf(stripped);
    } else {
      NormalizedLine(lines[0], TextOf(lines[1..]));
      assert TextOf(lines) == lines[0] + "\n" + TextOf(lines[1..]);
      NormalizedText(lines[1..]);
      assert stripped[1..] == StrippedAll(lines[1..]);
      assert TextOf(stripped) == stripped[0] + "\n" + TextOf(stripped[1..]);
    }
  }

  lemma SplitText(lines: Lines)
    requires AreLines(lines) && lines != []
    ensures Split(TextOf(lines), '\n') == lines + [""]
  {
    assert TextOf(lines) == Join(lines, '\n') + ['\n'] + "";
    SplitAt(Join(lines, '\n'), '\n', "");
    SplitJoin(lines, '\n');
    SplitPlain("", '\n');
  }

  /** Reading back a text made of lines takes one carriage return off each
      line's end, and changes nothing else. */
  lemma {:induction false} LinesReadBack(lines: Lines)
    requires AreLines(lines) && lines != []
    ensures LinesOf(TextOf(lines)) == StrippedAll(lines)
    ensures LinesOf(TextOf(lines)) == lines <==> forall i :: 0 <= i < |lines| ==> Stripped(lines[i]) == lines[i]
  {
    var stripped := StrippedAll(lines);
    NormalizedText(lines);
    SplitText(stripped);
    assert (stripped + [""])[..|stripped|] == stripped;
  }

  lemma {:induction false} NormalizedPlain(line: string)
    requires '\n' !in line
    ensures Normalized(line) == line
  {
    if line != [] {
      NormalizedPlain(line[1..]);
      assert line == [line[0]] + line[1..];
    }
  }

  lemma {:induction false} NormalizedJoin(lines: Lines, last: string)
    requires AreLines(lines) && '\n' !in last
    ensures Normalized(Join(lines + [last], '\n')) == Join(StrippedAll(lines) + [last], '\n')
    decreases |lines|
  {
    if lines == [] {
      assert lines + [last] == [last] && StrippedAll(lines) + [last] == [last];
      NormalizedPlain(last);
    } else {
      var rest := Join(lines[1..] + [last], '\n');
      assert (lines + [last])[1..] == lines[1..] + [last];
      assert (StrippedAll(lines) + [last])[1..] == StrippedAll(lines[1..]) + [last];
      assert lines[0] + ['\n'] + rest == lines[0] + "\n" + rest;
      NormalizedLine(lines[0], rest);
      NormalizedJoin(lines[1..], last);
    }
  }

  /** Of a text without a final line break every line is read back too, the last
      one as it is. */
  lemma {:induction false} UnendedReadsBack(lines: Lines, last: string)
    requires AreLines(lines) && '\n' !in last && last != ""
    ensures LinesOf(Join(lines + [last], '\n')) == StrippedAll(lines) + [last]
  {
    var all := StrippedAll(lines) + [last];
    NormalizedJoin(lines, last);
    forall i | 0 <= i < |all|
      ensures '\n' !in all[i]
    {
      if i < |lines| { assert '\n' !in lines[i]; }
    }
    SplitJoin(all, '\n');
  }

  /** These are all texts: nothing, lines with a final line break, and lines
      without one. */
  lemma {:induction false} EveryText(markdown: string) returns (lines: Lines)
    ensures AreLines(lines)
    ensures
      || (markdown == "" && lines == [] && LinesOf(markdown) == [])
      || (lines != [] && markdown == TextOf(lines))
      || (lines != [] && lines[|lines| - 1] != "" && markdown == Join(lines, '\n'))
  {
    lines := Split(markdown, '\n');
    JoinSplit(markdown, '\n');
    SplitParts(markdown, '\n');
    if lines[|lines| - 1] == "" {
      var front := lines[..|lines| - 1];
      assert lines == front + [""];
      if front == [] {
        SplitPlain("", '\n');
      } else {
        JoinEmptyLast(front);
      }
      lines := front;
    }
  }

  lemma {:induction false} JoinEmptyLast(lines: Lines)
    requires lines != []
    ensures Join(lines + [""], '\n') == TextOf(lines)
  {
    if |lines| == 1 {
      assert (lines + [""])[1..] == [""];
    } else {
      assert (lines + [""])[1..] == lines[1..] + [""];
      JoinEmptyLast(lines[1..]);
    }
  }

  // ---------------------------------------------------------------------
  // Prose and fences
  // ---------------------------------------------------------------------

  /** The spans lie in the lines from `from` on, in order and apart. */
  ghost predicate InOrder(lines: Lines, spans: seq<Span>, from: nat) {
    && from <= |lines|
    && (forall i :: 0 <= i < |spans| ==> from < spans[i].startLine <= spans[i].endLine <= |lines|)
    && (forall i, j :: 0 <= i < j < |spans| ==> spans[i].endLine < spans[j].startLine)
  }

  /** The lines between the spans, before the first and after the last. */
  function ProseFrom(lines: Lines, spans: seq<Span>, from: nat): (prose: seq<Lines>)
    requires InOrder(lines, spans, from)
    ensures |prose| == |spans| + 1
  {
    if spans == [] then [lines[from..]]
    else
      [lines[from..spans[0].startLine - 1]] + ProseFrom(lines, spans[1..], spans[0].endLine)
  }

  function SpanLines(lines: Lines, span: Span): Lines
    requires 1 <= span.startLine <= span.endLine <= |lines|
  {
    lines[span.startLine - 1..span.endLine]
  }

  /** Prose and bodies in turn, beginning and ending with prose. */
  function Weave(prose: seq<Lines>, bodies: seq<Lines>): Lines
    requires |prose| == |bodies| + 1
  {
    if bodies == [] then prose[0] else prose[0] + bodies[0] + Weave(prose[1..], bodies[1..])
  }

  function Bodies(lines: Lines, spans: seq<Span>): (bodies: seq<Lines>)
    requires InOrder(lines, spans, 0)
    ensures |bodies| == |spans| && forall i :: 0 <= i < |spans| ==> bodies[i] == SpanLines(lines, spans[i])
  {
    seq(|spans|, i requires 0 <= i < |spans| => SpanLines(lines, spans[i]))
  }

  lemma {:induction false} WeaveIsDocument(lines: Lines, spans: seq<Span>, from: nat, bodies: seq<Lines>)
    requires InOrder(lines, spans, from) && |bodies| == |spans|
    requires forall i :: 0 <= i < |spans| ==> bodies[i] == SpanLines(lines, spans[i])
    ensures Weave(ProseFrom(lines, spans, from), bodies) == lines[from..]
    decreases |spans|
  {
    if spans != [] {
      WeaveIsDocument(lines, spans[1..], spans[0].endLine, bodies[1..]);
      var prose := ProseFrom(lines, spans, from);
      assert prose[1..] == ProseFrom(lines, spans[1..], spans[0].endLine);
      assert lines[from..spans[0].startLine - 1] + bodies[0] + lines[spans[0].endLine..] == lines[from..];
    }
  }

  // ---------------------------------------------------------------------
  // Replacing spans
  // ---------------------------------------------------------------------

  /** The lines put in place of each span: a replacement's, or its own. */
  function NewBodies(lines: Lines, spans: seq<Span>, replacements: map<nat, string>): (bodies: seq<Lines>)
    requires InOrder(lines, spans, 0)
    ensures |bodies| == |spans|
    ensures forall i :: 0 <= i < |spans| ==>
      bodies[i] == if i in replacements then LinesOf(replacements[i]) else SpanLines(lines, spans[i])
  {
    seq(|spans|, i requires 0 <= i < |spans| =>
      if i in replacements then LinesOf(replacements[i]) else SpanLines(lines, spans[i]))
  }

  /** Where the prose before span `k` begins. */
  function After(spans: seq<Span>, k: nat): nat
    requires k <= |spans|
  {
    if k == 0 then 0 else spans[k - 1].endLine
  }

  /** The finished part of the text once the spans from `k` on are replaced. */
  ghost function Finished(lines: Lines, spans: seq<Span>, bodies: seq<Lines>, k: nat): Lines
    requires InOrder(lines, spans, 0) && k <= |spans| == |bodies|
  {
    Weave(ProseFrom(lines, spans[k..], After(spans, k)), bodies[k..])
  }

  /** The text once the spans from `k` on are replaced. */
  ghost function Replaced(lines: Lines, spans: seq<Span>, bodies: seq<Lines>, k: nat): (now: Lines)
    requires InOrder(lines, spans, 0) && k <= |spans| == |bodies|
    ensures |now| >= After(spans, k)
  {
    lines[..After(spans, k)] + Finished(lines, spans, bodies, k)
  }

  /** Replacing span `k - 1` in a text that is untouched up to it. */
  lemma OneSplice(lines: Lines, spans: seq<Span>, bodies: seq<Lines>, k: nat)
    requires InOrder(lines, spans, 0) && 0 < k <= |spans| == |bodies|
    ensures var span, now := spans[k - 1], Replaced(lines, spans, bodies, k);
      now[..span.startLine - 1] + bodies[k - 1] + now[span.endLine..] == Replaced(lines, spans, bodies, k - 1)
  {
    var span, from := spans[k - 1], After(spans, k - 1);
    var front, prose, own := lines[..from], lines[from..span.startLine - 1], SpanLines(lines, span);
    assert lines[..span.endLine] == front + prose + own;
  }

  /** A span that is not replaced stays as it is. */
  lemma NoSplice(lines: Lines, spans: seq<Span>, bodies: seq<Lines>, k: nat)
    requires InOrder(lines, spans, 0) && 0 < k <= |spans| == |bodies|
    requires bodies[k - 1] == SpanLines(lines, spans[k - 1])
    ensures Replaced(lines, spans, bodies, k) == Replaced(lines, spans, bodies, k - 1)
  {
    var span, from := spans[k - 1], After(spans, k - 1);
    var front, prose := lines[..from], lines[from..span.startLine - 1];
    assert lines[..span.endLine] == front + prose + bodies[k - 1];
    assert front + prose + bodies[k - 1] + Finished(lines, spans, bodies, k) ==
           front + (prose + bodies[k - 1] + Finished(lines, spans, bodies, k));
  }

  lemma AllReplaced(lines: Lines, spans: seq<Span>, bodies: seq<Lines>)
    requires InOrder(lines, spans, 0) && |spans| == |bodies|
    ensures Replaced(lines, spans, bodies, 0) == Weave(ProseFrom(lines, spans, 0), bodies)
    ensures Replaced(lines, spans, bodies, |spans|) == lines
  {
    assert spans[0..] == spans && bodies[0..] == bodies;
    assert spans[|spans|..] == [] && bodies[|spans|..] == [];
  }

  method ReplaceSpanTexts(markdown: string, spans: seq<Span>, replacements: map<nat, string>) returns (r: string)
    requires InOrder(LinesOf(markdown), spans, 0)
    requires forall k :: k in replacements ==> k < |spans|
    ensures var lines := LinesOf(markdown);
      r == TextOf(Weave(ProseFrom(lines, spans, 0), NewBodies(lines, spans, replacements)))
  {
    var lines := LinesOf(markdown);
    ghost var original, bodies := lines, NewBodies(lines, spans, replacements);
    var k := |spans|;
    AllReplaced(lines, spans, bodies);
    while k > 0
      invariant 0 <= k <= |spans|
      invariant lines == Replaced(original, spans, bodies, k)
    {
      if k - 1 in replacements {
        OneSplice(original, spans, bodies, k);
        lines := lines[..spans[k - 1].startLine - 1] + LinesOf(replacements[k - 1]) + lines[spans[k - 1].endLine..];
      } else {
        NoSplice(original, spans, bodies, k);
      }
      k := k - 1;
    }
    r := TextOf(lines);
  }
}
