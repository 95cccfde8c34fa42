/** Carrying an edit of code fences over to a translation: whether only fences
    changed is judged by comparing the documents with their fences masked, and
    the changed fences are spliced into the counterpart. */
module MechanicalUpdate {
  import opened Wrappers
  import opened CodeSplice
  import opened FenceMasks

  // ---------------------------------------------------------------------
  // The mechanical update
  // ---------------------------------------------------------------------

  /** A span's text, as the span records it. */
  function SpanText(doc: Document, k: nat): string
    requires IsDocument(doc) && k < |doc.fences|
  {
    TextOf(SpanLines(LinesOf(doc.text), doc.fences[k]))
  }

  lemma SameTextSameFence(a: Document, b: Document, k: nat)
    requires IsDocument(a) && IsDocument(b) && k < |a.fences| && k < |b.fences|
    ensures SpanText(a, k) == SpanText(b, k) <==> Fences(a)[k] == Fences(b)[k]
  {
    LinesOfAreLines(a.text);
    LinesOfAreLines(b.text);
    if SpanText(a, k) == SpanText(b, k) { TextDetermines(Fences(a)[k], Fences(b)[k]); }
  }

  /** A fence as a splice writes it: when it changed, with one carriage return
      less at the end of each line that has one. */
  ghost function SplicedFence(before: Lines, after: Lines): Lines {
    if before == after then after else StrippedAll(after)
  }

  ghost function SplicedFences(before: seq<Lines>, after: seq<Lines>): (spliced: seq<Lines>)
    requires |before| == |after|
    ensures |spliced| == |after| && forall k :: 0 <= k < |after| ==> spliced[k] == SplicedFence(before[k], after[k])
  {
    seq(|after|, k requires 0 <= k < |after| => SplicedFence(before[k], after[k]))
  }

  /** The change is confined to fences, and the counterpart's fences are the
      ones from before it. */
  ghost predicate IsMechanical(confirmed: Document, current: Document, counterpart: Document)
    requires IsDocument(confirmed) && IsDocument(current) && IsDocument(counterpart)
  {
    && |confirmed.fences| == |current.fences| == |counterpart.fences|
    && Masked(confirmed) == Masked(current)
    && Fences(counterpart) == Fences(confirmed)
    && Fences(current) != Fences(confirmed)
  }

  method ComputeMechanicalUpdate(confirmed: Document, current: Document, counterpart: Document)
    returns (update: Option<string>)
    requires IsDocument(confirmed) && IsDocument(current) && IsDocument(counterpart)
    ensures update.Some? <==> IsMechanical(confirmed, current, counterpart)
    ensures update.Some? ==>
      update.value == TextOf(Weave(Prose(counterpart), SplicedFences(Fences(confirmed), Fences(current))))
  {
    if |confirmed.fences| == 0 || |confirmed.fences| != |current.fences| || |confirmed.fences| != |counterpart.fences| {
      return None;
    }
    var maskedConfirmed := MaskCodeSpans(confirmed);
    var maskedCurrent := MaskCodeSpans(current);
    MaskTextDetermines(confirmed, current);
    if maskedConfirmed != maskedCurrent { return None; }
    var confirmedFences := SameFences(confirmed, counterpart);
    if !confirmedFences { return None; }
    var nothingChanged := SameFences(confirmed, current);
    if nothingChanged { return None; }
    var text := SpliceChanged(confirmed, current, counterpart);
    return Some(text);
  }

  method SameFences(a: Document, b: Document) returns (same: bool)
    requires IsDocument(a) && IsDocument(b) && |a.fences| == |b.fences|
    ensures same <==> Fences(a) == Fences(b)
  {
    for k := 0 to |a.fences|
      invariant forall j :: 0 <= j < k ==> Fences(a)[j] == Fences(b)[j]
    {
      SameTextSameFence(a, b, k);
      if SpanText(a, k) != SpanText(b, k) { return false; }
    }
    return true;
  }

  method SpliceChanged(confirmed: Document, current: Document, counterpart: Document) returns (text: string)
    requires IsDocument(confirmed) && IsDocument(current) && IsDocument(counterpart)
    requires |confirmed.fences| == |current.fences| == |counterpart.fences| && Fences(counterpart) == Fences(confirmed)
    ensures text == TextOf(Weave(Prose(counterpart), SplicedFences(Fences(confirmed), Fences(current))))
  {
    var changed := ChangedTexts(confirmed, current);
    text := ReplaceSpanTexts(counterpart.text, counterpart.fences, changed);
    SplicedBodies(confirmed, current, counterpart);
  }

  function ChangedTexts(confirmed: Document, current: Document): (changed: map<nat, string>)
    requires IsDocument(confirmed) && IsDocument(current) && |confirmed.fences| == |current.fences|
    ensures forall k :: k in changed <==> 0 <= k < |current.fences| && HasChanged(confirmed, current, k)
    ensures forall k :: k in changed ==> changed[k] == SpanText(current, k)
  {
    map k: nat | 0 <= k < |current.fences| && HasChanged(confirmed, current, k) :: SpanText(current, k)
  }

  predicate HasChanged(confirmed: Document, current: Document, k: nat)
    requires IsDocument(confirmed) && IsDocument(current) && k < |confirmed.fences| && k < |current.fences|
  {
    SpanText(current, k) != SpanText(confirmed, k)
  }

  lemma SplicedBody(confirmed: Document, current: Document, k: nat)
    requires IsDocument(confirmed) && IsDocument(current) && k < |confirmed.fences| == |current.fences|
    ensures SplicedFence(Fences(confirmed)[k], Fences(current)[k]) ==
            if HasChanged(confirmed, current, k) then LinesOf(SpanText(current, k)) else Fences(confirmed)[k]
  {
    SameTextSameFence(current, confirmed, k);
    if HasChanged(confirmed, current, k) {
      LinesOfAreLines(current.text);
      LinesReadBack(Fences(current)[k]);
    }
  }

  lemma SplicedBodies(confirmed: Document, current: Document, counterpart: Document)
    requires IsDocument(confirmed) && IsDocument(current) && IsDocument(counterpart)
    requires |confirmed.fences| == |current.fences| == |counterpart.fences| && Fences(counterpart) == Fences(confirmed)
    ensures NewBodies(LinesOf(counterpart.text), counterpart.fences, ChangedTexts(confirmed, current)) ==
            SplicedFences(Fences(confirmed), Fences(current))
  {
    var bodies := NewBodies(LinesOf(counterpart.text), counterpart.fences, ChangedTexts(confirmed, current));
    forall k | 0 <= k < |current.fences|
      ensures bodies[k] == SplicedFence(Fences(confirmed)[k], Fences(current)[k])
    {
      SplicedBody(confirmed, current, k);
      assert Fences(counterpart)[k] == SpanLines(LinesOf(counterpart.text), counterpart.fences[k]);
    }
  }

  lemma MaskTextDetermines(a: Document, b: Document)
    requires IsDocument(a) && IsDocument(b) && |a.fences| == |b.fences| > 0
    ensures TextOf(Masked(a)) == TextOf(Masked(b)) <==> Masked(a) == Masked(b)
  {
    MaskedAreLines(a);
    MaskedAreLines(b);
    if TextOf(Masked(a)) == TextOf(Masked(b)) { TextDetermines(Masked(a), Masked(b)); }
  }

  lemma MaskedAreLines(doc: Document)
    requires IsDocument(doc) && doc.fences != []
    ensures Masked(doc) != [] && AreLines(Masked(doc))
  {
    LinesOfAreLines(doc.text);
    ProseAreLines(LinesOf(doc.text), doc.fences, 0);
    forall k | 0 <= k < |doc.fences|
      ensures AreLines(MaskBodies(|doc.fences|)[k])
    {
      PlaceholderHasNoBreak(k);
    }
    WeaveAreLines(Prose(doc), MaskBodies(|doc.fences|));
  }

  lemma {:induction false} ProseAreLines(lines: Lines, spans: seq<Span>, from: nat)
    requires InOrder(lines, spans, from) && AreLines(lines)
    ensures AreProse(ProseFrom(lines, spans, from))
    decreases |spans|
  {
    if spans != [] {
      ProseAreLines(lines, spans[1..], spans[0].endLine);
    }
  }

  lemma {:induction false} WeaveAreLines(prose: seq<Lines>, bodies: seq<Lines>)
    requires |prose| == |bodies| + 1 && AreProse(prose) && AreProse(bodies)
    ensures AreLines(Weave(prose, bodies))
    ensures bodies != [] && bodies[0] != [] ==> Weave(prose, bodies) != []
    decreases |bodies|
  {
    if bodies != [] { WeaveAreLines(prose[1..], bodies[1..]); }
  }

  lemma DocumentIsWeave(doc: Document)
    requires IsDocument(doc)
    ensures LinesOf(doc.text) == Weave(Prose(doc), Fences(doc))
  {
    WeaveIsDocument(LinesOf(doc.text), doc.fences, 0, Fences(doc));
    assert LinesOf(doc.text)[0..] == LinesOf(doc.text);
  }

  lemma SameProse(a: Document, b: Document)
    requires IsDocument(a) && IsDocument(b) && |a.fences| == |b.fences| && Masked(a) == Masked(b)
    requires MasksStandOut(Prose(a))
    ensures Prose(b) == Prose(a)
  {
    MasksDetermineProse(Prose(a));
    assert MaskedAlike(Prose(a), Prose(b));
  }

  /** What an update means, when in the confirmed source no mask also stands
      next to its own place.  The two versions of the source share their prose
      and differ only in fences, and the counterpart is its own prose with the
      old fences. */
  lemma UpdateCarriesFencesOver(confirmed: Document, current: Document, counterpart: Document)
    requires IsDocument(confirmed) && IsDocument(current) && IsDocument(counterpart)
    requires IsMechanical(confirmed, current, counterpart)
    requires MasksStandOut(Prose(confirmed))
    ensures LinesOf(confirmed.text) == Weave(Prose(confirmed), Fences(confirmed))
    ensures LinesOf(current.text) == Weave(Prose(confirmed), Fences(current))
    ensures LinesOf(counterpart.text) == Weave(Prose(counterpart), Fences(confirmed))
  {
    SameProse(confirmed, current);
    DocumentIsWeave(confirmed);
    DocumentIsWeave(current);
    DocumentIsWeave(counterpart);
  }

  /** There an update is computed exactly when the prose is the same, the
      counterpart has the old fences, and as many fences as before are not all
      the same. */
  lemma UpdateIff(confirmed: Document, current: Document, counterpart: Document)
    requires IsDocument(confirmed) && IsDocument(current) && IsDocument(counterpart)
    requires MasksStandOut(Prose(confirmed))
    ensures IsMechanical(confirmed, current, counterpart) <==>
      && Prose(current) == Prose(confirmed) && Fences(counterpart) == Fences(confirmed)
      && Fences(current) != Fences(confirmed)
  {
    if IsMechanical(confirmed, current, counterpart) {
      SameProse(confirmed, current);
    } else if Prose(current) == Prose(confirmed) && Fences(counterpart) == Fences(confirmed) {
      assert |Prose(current)| == |current.fences| + 1 && |Prose(confirmed)| == |confirmed.fences| + 1;
      assert |Fences(counterpart)| == |counterpart.fences| && |Fences(confirmed)| == |confirmed.fences|;
    }
  }

  // ---------------------------------------------------------------------
  // Documents made of prose and fences
  // ---------------------------------------------------------------------

  ghost predicate AreFences(bodies: seq<Lines>) {
    forall i :: 0 <= i < |bodies| ==> bodies[i] != []
  }

  /** Where the bodies come to lie when woven into prose. */
  function SpansOf(prose: seq<Lines>, bodies: seq<Lines>, from: nat): (spans: seq<Span>)
    requires |prose| == |bodies| + 1
    ensures |spans| == |bodies|
    decreases |bodies|
  {
    if bodies == [] then []
    else
      var start := from + |prose[0]|;
      [Span(start + 1, start + |bodies[0]|)] + SpansOf(prose[1..], bodies[1..], start + |bodies[0]|)
  }

  /** One more span before others that fit. */
  lemma SpanBefore(lines: Lines, span: Span, spans: seq<Span>, from: nat)
    requires from < span.startLine <= span.endLine && InOrder(lines, spans, span.endLine)
    ensures InOrder(lines, [span] + spans, from)
    ensures ProseFrom(lines, [span] + spans, from) ==
            [lines[from..span.startLine - 1]] + ProseFrom(lines, spans, span.endLine)
  {
    var all := [span] + spans;
    assert all[1..] == spans;
    assert forall i :: 0 < i < |all| ==> all[i] == spans[i - 1];
  }

  ghost predicate Fits(lines: Lines, spans: seq<Span>, from: nat, prose: seq<Lines>, bodies: seq<Lines>) {
    && InOrder(lines, spans, from) && |spans| == |bodies|
    && ProseFrom(lines, spans, from) == prose
    && forall i :: 0 <= i < |spans| ==> SpanLines(lines, spans[i]) == bodies[i]
  }

  lemma {:induction false} SpansFit(front: Lines, prose: seq<Lines>, bodies: seq<Lines>)
    requires |prose| == |bodies| + 1 && AreFences(bodies)
    ensures Fits(front + Weave(prose, bodies), SpansOf(prose, bodies, |front|), |front|, prose, bodies)
    decreases |bodies|
  {
    var lines := front + Weave(prose, bodies);
    if bodies == [] {
      assert lines[|front|..] == prose[0] && prose == [prose[0]];
    } else {
      var longer := front + prose[0] + bodies[0];
      var rest := Weave(prose[1..], bodies[1..]);
      var span := Span(|front| + |prose[0]| + 1, |longer|);
      SpansFit(longer, prose[1..], bodies[1..]);
      assert lines == longer + rest;
      FrontParts(front, prose[0], bodies[0], rest);
      FitsBefore(lines, span, SpansOf(prose[1..], bodies[1..], |longer|), |front|, prose, bodies);
    }
  }

  lemma FitsBefore(lines: Lines, span: Span, spans: seq<Span>, from: nat, prose: seq<Lines>, bodies: seq<Lines>)
    requires prose != [] && bodies != [] && from < span.startLine <= span.endLine
    requires Fits(lines, spans, span.endLine, prose[1..], bodies[1..])
    requires lines[from..span.startLine - 1] == prose[0] && SpanLines(lines, span) == bodies[0]
    ensures Fits(lines, [span] + spans, from, prose, bodies)
  {
    SpanBefore(lines, span, spans, from);
    BodiesBefore(lines, span, spans, bodies);
    assert prose == [prose[0]] + prose[1..];
  }

  lemma BodiesBefore(lines: Lines, span: Span, spans: seq<Span>, bodies: seq<Lines>)
    requires |bodies| == |spans| + 1 && 1 <= span.startLine <= span.endLine <= |lines|
    requires SpanLines(lines, span) == bodies[0]
    requires forall i :: 0 <= i < |spans| ==> 1 <= spans[i].startLine <= spans[i].endLine <= |lines|
    requires forall i :: 0 <= i < |spans| ==> SpanLines(lines, spans[i]) == bodies[1..][i]
    ensures var all := [span] + spans;
      && (forall i :: 0 <= i < |all| ==> 1 <= all[i].startLine <= all[i].endLine <= |lines|)
      && (forall i :: 0 <= i < |all| ==> SpanLines(lines, all[i]) == bodies[i])
  {
    var all := [span] + spans;
    forall i | 0 <= i < |all|
      ensures 1 <= all[i].startLine <= all[i].endLine <= |lines| && SpanLines(lines, all[i]) == bodies[i]
    {
      if i > 0 { assert all[i] == spans[i - 1] && bodies[1..][i - 1] == bodies[i]; }
    }
  }

  lemma FrontParts(front: Lines, prose: Lines, body: Lines, rest: Lines)
    ensures var lines, start := front + prose + body + rest, |front| + |prose|;
      lines[|front|..start] == prose && lines[start..start + |body|] == body
  {
  }

  /** A line that reads back as the given one. */
  function Guarded(line: string): string {
    if line != [] && line[|line| - 1] == '\r' then line + "\r" else line
  }

  function GuardedAll(lines: Lines): (guarded: Lines)
    ensures |guarded| == |lines| && forall i :: 0 <= i < |lines| ==> guarded[i] == Guarded(lines[i])
  {
    seq(|lines|, i requires 0 <= i < |lines| => Guarded(lines[i]))
  }

  /** Any lines are the lines of some text. */
  lemma GuardedReadsBack(lines: Lines)
    requires AreLines(lines) && lines != []
    ensures LinesOf(TextOf(GuardedAll(lines))) == lines
  {
    var guarded := GuardedAll(lines);
    forall i | 0 <= i < |lines|
      ensures '\n' !in guarded[i] && Stripped(guarded[i]) == lines[i]
    {
      assert guarded[i] == Guarded(lines[i]);
      if guarded[i] != lines[i] { assert guarded[i][..|guarded[i]| - 1] == lines[i]; }
    }
    LinesReadBack(guarded);
  }

  ghost predicate ConsistsOf(doc: Document, prose: seq<Lines>, fences: seq<Lines>) {
    IsDocument(doc) && Prose(doc) == prose && Fences(doc) == fences
  }

  lemma WovenDocument(text: string, prose: seq<Lines>, fences: seq<Lines>)
    requires |prose| == |fences| + 1 && AreFences(fences) && LinesOf(text) == Weave(prose, fences)
    ensures ConsistsOf(Document(text, SpansOf(prose, fences, 0)), prose, fences)
  {
    SpansFit([], prose, fences);
    assert [] + Weave(prose, fences) == Weave(prose, fences);
  }

  /** Any prose and fences make a document. */
  lemma SomeDocument(prose: seq<Lines>, fences: seq<Lines>) returns (doc: Document)
    requires |prose| == |fences| + 1 > 1 && AreProse(prose) && AreProse(fences) && AreFences(fences)
    ensures ConsistsOf(doc, prose, fences)
  {
    var lines := Weave(prose, fences);
    WeaveAreLines(prose, fences);
    GuardedReadsBack(lines);
    doc := Document(TextOf(GuardedAll(lines)), SpansOf(prose, fences, 0));
    WovenDocument(doc.text, prose, fences);
  }

  lemma SpanPlain(lines: Lines, span: Span)
    requires AreLines(lines) && 1 <= span.startLine <= span.endLine <= |lines|
    ensures AreLines(SpanLines(lines, span)) && SpanLines(lines, span) != []
  {
  }

  lemma {:induction false} PartsOfDocument(doc: Document)
    requires IsDocument(doc)
    ensures AreProse(Prose(doc)) && AreProse(Fences(doc)) && AreFences(Fences(doc))
  {
    var lines := LinesOf(doc.text);
    LinesOfAreLines(doc.text);
    ProseAreLines(lines, doc.fences, 0);
    forall i | 0 <= i < |doc.fences|
      ensures AreLines(Fences(doc)[i]) && Fences(doc)[i] != []
    {
      SpanPlain(lines, doc.fences[i]);
    }
  }

  /** A line put in below the first: below the delimiter that opens a fence. */
  function Edited(fence: Lines): Lines
    requires fence != []
  {
    [fence[0], "!"] + fence[1..]
  }

  /** Where a mask stands next to its own place in the confirmed source, an
      update is computed though the prose has changed: one fence is edited, and
      lines of prose have gone round another. */
  lemma UpdateDeceived(confirmed: Document, m: nat) returns (current: Document)
    requires IsDocument(confirmed) && m < |confirmed.fences| && !StandsOut(Prose(confirmed), m)
    ensures IsDocument(current) && IsMechanical(confirmed, current, confirmed) && Prose(current) != Prose(confirmed)
    ensures Fences(confirmed)[0] != [] && Fences(current) == Fences(confirmed)[0 := Edited(Fences(confirmed)[0])]
  {
    var prose, fences := Prose(confirmed), Fences(confirmed);
    PartsOfDocument(confirmed);
    var other := MaskMistaken(prose, m);
    var changed := fences[0 := Edited(fences[0])];
    assert |changed[0]| != |fences[0]|;
    current := SomeDocument(other, changed);
    MaskedAlikeMeaning(prose, other);
  }

  ghost predicate FencesOnly(confirmed: Document)
    requires IsDocument(confirmed)
  {
    forall current, counterpart ::
      IsDocument(current) && IsDocument(counterpart) && IsMechanical(confirmed, current, counterpart) ==>
        Prose(current) == Prose(confirmed)
  }

  /** An update is computed only for changes confined to fences exactly when in
      the confirmed source no mask also stands next to its own place. */
  lemma FencesOnlyIff(confirmed: Document)
    requires IsDocument(confirmed)
    ensures FencesOnly(confirmed) <==> MasksStandOut(Prose(confirmed))
  {
    if MasksStandOut(Prose(confirmed)) {
      forall current, counterpart |
        IsDocument(current) && IsDocument(counterpart) && IsMechanical(confirmed, current, counterpart)
        ensures Prose(current) == Prose(confirmed)
      {
        SameProse(confirmed, current);
      }
    } else {
      var m :| 0 <= m < |confirmed.fences| && !StandsOut(Prose(confirmed), m);
      var current := UpdateDeceived(confirmed, m);
    }
  }

  ghost predicate IsPlainLine(line: string) {
    '\n' !in line && Stripped(line) == line
  }

  ghost predicate ArePlainLines(lines: Lines) {
    forall i :: 0 <= i < |lines| ==> IsPlainLine(lines[i])
  }

  /** A source of a line that reads like a mask, a fence and one more line: the
      line is taken for the fence once the fence is edited and moved before it. */
  lemma {:induction false} MaskInProseDeceives(f: Lines, g: Lines, more: string)
    requires f != g && f != [] && g != [] && ArePlainLines(f) && ArePlainLines(g) && IsPlainLine(more)
    ensures var x := "DSH_TRANSLATION_CODE_0";
      var confirmed := Document(TextOf([x] + f + [more]), [Span(2, 1 + |f|)]);
      var current := Document(TextOf(g + [x, more]), [Span(1, |g|)]);
      var counterpart := Document(TextOf(f), [Span(1, |f|)]);
      && IsDocument(confirmed) && IsDocument(current) && IsDocument(counterpart)
      && IsMechanical(confirmed, current, counterpart) && Prose(current) != Prose(confirmed)
  {
    var x := Placeholder(0);
    FirstPlaceholder();
    PlaceholderIsPlain(0);
    BetweenPlain(x, f, more);
    BeforePlain(g, x, more);
    AlonePlain(f);
    MaskMoved(
      Document(TextOf([x] + f + [more]), [Span(2, 1 + |f|)]), Document(TextOf(g + [x, more]), [Span(1, |g|)]),
      Document(TextOf(f), [Span(1, |f|)]), f, g, more);
  }

  lemma {:induction false} BetweenPlain(x: string, f: Lines, more: string)
    requires IsPlainLine(x) && f != [] && ArePlainLines(f) && IsPlainLine(more)
    ensures ConsistsOf(Document(TextOf([x] + f + [more]), [Span(2, 1 + |f|)]), [[x], [more]], [f])
  {
    PlainDocument([x], f, [more], [x] + f + [more]);
  }

  lemma {:induction false} BeforePlain(g: Lines, x: string, more: string)
    requires g != [] && ArePlainLines(g) && IsPlainLine(x) && IsPlainLine(more)
    ensures ConsistsOf(Document(TextOf(g + [x, more]), [Span(1, |g|)]), [[], [x, more]], [g])
  {
    assert [] + g + [x, more] == g + [x, more];
    PlainDocument([], g, [x, more], g + [x, more]);
  }

  lemma {:induction false} AlonePlain(f: Lines)
    requires f != [] && ArePlainLines(f)
    ensures ConsistsOf(Document(TextOf(f), [Span(1, |f|)]), [[], []], [f])
  {
    assert [] + f + [] == f;
    PlainDocument([], f, [], f);
  }

  lemma PlaceholderIsPlain(k: nat)
    ensures IsPlainLine(Placeholder(k))
  {
    PlaceholderHasNoBreak(k);
    assert [Placeholder(k)][0] == Placeholder(k);
  }

  lemma MaskMoved(confirmed: Document, current: Document, counterpart: Document, f: Lines, g: Lines, more: string)
    requires f != g && |confirmed.fences| == |current.fences| == |counterpart.fences| == 1
    requires ConsistsOf(confirmed, [[Placeholder(0)], [more]], [f])
    requires ConsistsOf(current, [[], [Placeholder(0), more]], [g]) && ConsistsOf(counterpart, [[], []], [f])
    ensures IsMechanical(confirmed, current, counterpart) && Prose(current) != Prose(confirmed)
  {
    var x := Placeholder(0);
    assert MaskBodies(1) == [[x]];
    WeaveOne([x], [x], [more]);
    WeaveOne([], [x], [x, more]);
    assert [x] + [x] + [more] == [] + [x] + [x, more];
    assert Prose(confirmed)[0] != Prose(current)[0];
    assert Fences(confirmed)[0] != Fences(current)[0];
  }

  lemma WeaveOne(before: Lines, body: Lines, after: Lines)
    ensures Weave([before, after], [body]) == before + body + after
  {
    assert [before, after][1..] == [after] && [body][1..] == [];
  }

  /** Plain lines with a single fence among them. */
  lemma PlainDocument(before: Lines, fence: Lines, after: Lines, lines: Lines)
    requires fence != [] && lines == before + fence + after && ArePlainLines(lines)
    ensures ConsistsOf(
      Document(TextOf(lines), [Span(|before| + 1, |before| + |fence|)]), [before, after], [fence])
  {
    LinesReadBack(lines);
    OneFence(TextOf(lines), before, fence, after);
  }

  lemma OneFence(text: string, before: Lines, fence: Lines, after: Lines)
    requires fence != [] && LinesOf(text) == before + fence + after
    ensures ConsistsOf(Document(text, [Span(|before| + 1, |before| + |fence|)]), [before, after], [fence])
  {
    var prose := [before, after];
    WeaveOne(before, fence, after);
    WovenDocument(text, prose, [fence]);
    assert [fence][1..] == [] && SpansOf(prose[1..], [], |before| + |fence|) == [];
  }

  /** The spliced fences are the current ones exactly when no line of a changed
      fence ends in a carriage return. */
  lemma SplicedFencesAreCurrent(before: seq<Lines>, after: seq<Lines>)
    requires |before| == |after|
    ensures SplicedFences(before, after) == after <==>
      forall k, i :: 0 <= k < |after| && before[k] != after[k] && 0 <= i < |after[k]| ==> Stripped(after[k][i]) == after[k][i]
  {
    var spliced := SplicedFences(before, after);
    if spliced == after {
      forall k, i | 0 <= k < |after| && before[k] != after[k] && 0 <= i < |after[k]|
        ensures Stripped(after[k][i]) == after[k][i]
      {
        assert spliced[k] == StrippedAll(after[k]);
      }
    } else {
      var k :| 0 <= k < |after| && spliced[k] != after[k];
      var i :| 0 <= i < |after[k]| && spliced[k][i] != after[k][i];
      assert Stripped(after[k][i]) != after[k][i];
    }
  }

  /** Read again, an update is the counterpart's prose with the spliced fences
      exactly when no line of it ends in a carriage return. */
  lemma UpdateReadsBack(confirmed: Document, current: Document, counterpart: Document)
    requires IsDocument(confirmed) && IsDocument(current) && IsDocument(counterpart)
    requires IsMechanical(confirmed, current, counterpart)
    ensures var prose, fences := Prose(counterpart), SplicedFences(Fences(confirmed), Fences(current));
      var lines := Weave(prose, fences);
      (exists spans :: ConsistsOf(Document(TextOf(lines), spans), prose, fences)) <==>
        forall i :: 0 <= i < |lines| ==> Stripped(lines[i]) == lines[i]
  {
    var prose, fences := Prose(counterpart), SplicedFences(Fences(confirmed), Fences(current));
    var lines := Weave(prose, fences);
    PartsOfDocument(counterpart);
    PartsOfDocument(current);
    SplicedArePlain(Fences(confirmed), Fences(current));
    assert |fences| > 0;
    WeaveAreLines(prose, fences);
    LinesReadBack(lines);
    if spans :| ConsistsOf(Document(TextOf(lines), spans), prose, fences) {
      DocumentIsWeave(Document(TextOf(lines), spans));
    } else if LinesOf(TextOf(lines)) == lines {
      WovenDocument(TextOf(lines), prose, fences);
    }
  }

  lemma SplicedArePlain(before: seq<Lines>, after: seq<Lines>)
    requires |before| == |after| && AreProse(after) && AreFences(after)
    ensures AreProse(SplicedFences(before, after)) && AreFences(SplicedFences(before, after))
  {
  }

  /** A changed fence whose line ends in a carriage return loses it. */
  lemma {:induction false} CarriageReturnLost(f: string, g: string)
    requires IsPlainLine(f) && IsPlainLine(g)
    ensures var confirmed := Document(TextOf([f]), [Span(1, 1)]);
      var current := Document(TextOf([g + "\r\r"]), [Span(1, 1)]);
      && IsDocument(confirmed) && IsDocument(current) && IsMechanical(confirmed, current, confirmed)
      && Fences(current) == [[g + "\r"]] && SplicedFences(Fences(confirmed), Fences(current)) == [[g]]
  {
    var once, twice := g + "\r", g + "\r\r";
    ReturnStripped(g);
    assert LinesOf(TextOf([twice])) == [] + [once] + [];
    OneFence(TextOf([twice]), [], [once], []);
    AlonePlain([f]);
    ReturnLost(Document(TextOf([f]), [Span(1, 1)]), Document(TextOf([twice]), [Span(1, 1)]), f, g);
  }

  lemma {:induction false} ReturnStripped(g: string)
    requires IsPlainLine(g)
    ensures LinesOf(TextOf([g + "\r\r"])) == [g + "\r"]
  {
    var twice := g + "\r\r";
    assert twice[..|twice| - 1] == g + "\r";
    assert forall i :: 0 <= i < |twice| ==> twice[i] == (if i < |g| then g[i] else '\r');
    LinesReadBack([twice]);
  }

  lemma {:induction false} ReturnLost(confirmed: Document, current: Document, f: string, g: string)
    requires IsPlainLine(f) && |confirmed.fences| == |current.fences| == 1
    requires ConsistsOf(confirmed, [[], []], [[f]]) && ConsistsOf(current, [[], []], [[g + "\r"]])
    ensures IsMechanical(confirmed, current, confirmed)
    ensures SplicedFences(Fences(confirmed), Fences(current)) == [[g]]
  {
    var once := g + "\r";
    assert once[..|g|] == g && Stripped(once) == g && f != once;
    assert [[f]][0][0] != [[once]][0][0];
    assert StrippedAll([once]) == [g];
    assert SplicedFence([f], [once]) == [g];
  }
}
