/** What is taken for a link's destination: exactly the destination it has, as
    long as the end of its label is found. */
module LinkDestinations {
  import opened Wrappers
  import opened Strings
  import opened LinkScan
  import opened DestinationText

  // ---------------------------------------------------------------------
  // Reaching the destination
  // ---------------------------------------------------------------------

  /** What stands between a label and the white space before a destination. */
  function Opener(kind: NodeKind): char {
    if kind == Definition then ':' else '('
  }

  /** The source of a link or definition up to its destination. */
  function LinkHead(before: string, caption: string, kind: NodeKind, space: string): string {
    before + "[" + caption + "]" + ([Opener(kind)] + space)
  }

  /** The end of the label is found, or for a definition an earlier bracket with
      no colon between. */
  ghost predicate LabelIsClear(caption: string, kind: NodeKind) {
    if kind == Definition then exists k :: 0 <= k <= |caption| && StopsAt(caption, k) && ':' !in caption[k..]
    else IsPairedUp(caption)
  }

  /** Where the character that opens the destination is looked for. */
  function OpenerAt(s: string, kind: NodeKind, bracket: nat): nat
    requires bracket < |s|
  {
    if kind == Definition then FirstAt(s, ':', bracket + 1) else bracket + 1
  }

  ghost predicate IsOpenedAt(s: string, kind: NodeKind, o: nat) {
    FindLabelEnd(s).Some? && OpenerAt(s, kind, FindLabelEnd(s).value) == o
  }

  lemma {:induction false} FoundFromOpener(s: string, kind: NodeKind)
    ensures var bracket := FindLabelEnd(s);
      if bracket.Some? && OpenerAt(s, kind, bracket.value) < |s| && s[OpenerAt(s, kind, bracket.value)] == Opener(kind)
      then FindDestination(s, kind) == DestinationFrom(s, SkipSpace(s, OpenerAt(s, kind, bracket.value) + 1))
      else FindDestination(s, kind).Failure?
  {
  }

  /** With the opener at `front` and white space up to `start`: a range is found
      there exactly when this opener and the range from `start` are. */
  lemma {:induction false} OpenerIffDestination(s: string, kind: NodeKind, front: nat, start: nat, range: Range)
    requires front < start <= |s| && s[front] == Opener(kind) && SkipSpace(s, front + 1) == start
    requires range.start == start + if start < |s| && s[start] == '<' then 1 else 0
    ensures FindDestination(s, kind) == Success(range) <==>
      IsOpenedAt(s, kind, front) && DestinationFrom(s, start) == Success(range)
  {
    FoundFromOpener(s, kind);
    if FindDestination(s, kind) == Success(range) {
      SpacesOnly(s, front + 1);
      OpenerIs(s, kind, OpenerAt(s, kind, FindLabelEnd(s).value), front, start, range);
    }
  }

  /** A destination found where it should be was opened where it should be. */
  lemma {:induction false} OpenerIs(s: string, kind: NodeKind, o: nat, front: nat, start: nat, range: Range)
    requires o < |s| && s[o] == Opener(kind) && front < start <= |s| && s[front] == Opener(kind)
    requires forall k :: front < k < start ==> IsSpace(s[k])
    requires DestinationFrom(s, SkipSpace(s, o + 1)) == Success(range)
    requires range.start == start + if start < |s| && s[start] == '<' then 1 else 0
    ensures o == front && SkipSpace(s, o + 1) == start
  {
    SpacesOnly(s, o + 1);
    assert s[start - 1] != '<';
    assert SkipSpace(s, o + 1) == start;
  }

  /** The source cut at what opens the destination. */
  lemma {:induction false} HeadParts(before: string, caption: string, kind: NodeKind, space: string, tail: string)
    requires AllSpaces(space)
    ensures var s, front := LinkHead(before, caption, kind, space) + tail, |before| + |caption| + 2;
      var start := front + 1 + |space|;
      && s == before + "[" + caption + "]" + ([Opener(kind)] + (space + tail))
      && front < start <= |s| && s[front] == Opener(kind) && (tail != [] ==> s[start] == tail[0])
      && (forall k :: front < k < start ==> IsSpace(s[k]))
      && (tail == [] || !IsSpace(tail[0]) ==> SkipSpace(s, front + 1) == start)
      && |LinkHead(before, caption, kind, space)| == start
  {
    var front := before + "[" + caption + "]";
    Regroup(front, [Opener(kind)] + space, tail);
    Regroup([Opener(kind)], space, tail);
    SpaceThenTail(front, Opener(kind), space, tail);
  }

  /** The destination is found where the head ends exactly when it does not begin
      with white space, the label can be got over, and the scan from there finds
      it. */
  lemma {:induction false} HeadReachedIff(
    before: string, caption: string, kind: NodeKind, space: string, tail: string, range: Range)
    requires '[' !in before && AllSpaces(space)
    requires range.start == |LinkHead(before, caption, kind, space)| + if tail != [] && tail[0] == '<' then 1 else 0
    ensures var head := LinkHead(before, caption, kind, space);
      FindDestination(head + tail, kind) == Success(range) <==>
        && LabelIsClear(caption, kind) && (tail == [] || !IsSpace(tail[0]))
        && DestinationFrom(head + tail, |head|) == Success(range)
  {
    var head := LinkHead(before, caption, kind, space);
    HeadParts(before, caption, kind, space, tail);
    if tail == [] || !IsSpace(tail[0]) {
      OpenerIffDestination(head + tail, kind, |before| + |caption| + 2, |head|, range);
      LabelClearIff(before, caption, kind, space + tail);
    } else {
      NotFoundAtSpace(head + tail, kind, |head|, range);
    }
  }

  lemma {:induction false} NotFoundAtSpace(s: string, kind: NodeKind, start: nat, range: Range)
    requires 0 < start < |s| && IsSpace(s[start]) && s[start - 1] != '<' && range.start == start
    ensures FindDestination(s, kind) != Success(range)
  {
    FoundFromOpener(s, kind);
  }

  lemma {:induction false} LabelClearIff(before: string, caption: string, kind: NodeKind, rest: string)
    requires '[' !in before
    ensures IsOpenedAt(before + "[" + caption + "]" + ([Opener(kind)] + rest), kind, |before| + |caption| + 2) <==>
      LabelIsClear(caption, kind)
  {
    var more := [Opener(kind)] + rest;
    if kind == Definition {
      DefinitionClearIff(before, caption, rest);
    } else {
      assert caption[..|caption|] == caption;
      LabelStopsIff(before, caption, more, |caption|);
    }
  }

  lemma {:induction false} DefinitionClearIff(before: string, caption: string, rest: string)
    requires '[' !in before
    ensures IsOpenedAt(before + "[" + caption + "]" + ([':'] + rest), Definition, |before| + |caption| + 2) <==>
      LabelIsClear(caption, Definition)
  {
    var s := before + "[" + caption + "]" + ([':'] + rest);
    if LabelIsClear(caption, Definition) {
      var k :| 0 <= k <= |caption| && StopsAt(caption, k) && ':' !in caption[k..];
      ColonReached(before, caption, rest, k);
    } else if IsOpenedAt(s, Definition, |before| + |caption| + 2) {
      LabelParts(before, caption, [':'] + rest, |caption|);
      ColonReached(before, caption, rest, FindLabelEnd(s).value - |before| - 1);
    }
  }

  lemma {:induction false} ColonReached(before: string, caption: string, rest: string, k: nat)
    requires '[' !in before && k <= |caption|
    requires StopsAt(caption, k) || FindLabelEnd(before + "[" + caption + "]" + ([':'] + rest)) == Some(|before| + 1 + k)
    ensures StopsAt(caption, k)
    ensures ':' !in caption[k..] <==>
      IsOpenedAt(before + "[" + caption + "]" + ([':'] + rest), Definition, |before| + |caption| + 2)
  {
    var s, end := before + "[" + caption + "]" + ([':'] + rest), |before| + |caption| + 2;
    LabelStopsIff(before, caption, [':'] + rest, k);
    assert s == (before + "[") + caption + ("]" + ([':'] + rest));
    ColonAfter(before + "[", caption, "]" + ([':'] + rest), k);
    assert s[end] == ':' && s[end - 1] == ']';
    OpenedAtColon(s, |before| + 1 + k, end);
  }

  lemma {:induction false} OpenedAtColon(s: string, bracket: nat, end: nat)
    requires FindLabelEnd(s) == Some(bracket) && bracket < end < |s| && s[end] == ':'
    ensures IsOpenedAt(s, Definition, end) <==> forall i :: bracket < i < end ==> s[i] != ':'
  {
    if forall i :: bracket < i < end ==> s[i] != ':' { FirstIs(s, ':', bracket + 1, end); }
    var colon := FirstAt(s, ':', bracket + 1);
    if colon == end {
      forall i | bracket < i < end
        ensures s[i] != ':'
      {
        assert s[i] == s[bracket + 1..colon][i - bracket - 1];
      }
    }
  }

  /** No colon between the bracket and the one after the label. */
  lemma ColonAfter(front: string, caption: string, rest: string, k: nat)
    requires k <= |caption| && rest != [] && rest[0] == ']' && (k < |caption| ==> caption[k] == ']')
    ensures var s := front + caption + rest;
      ':' !in caption[k..] <==> forall i :: |front| + k < i <= |front| + |caption| ==> s[i] != ':'
  {
    var s := front + caption + rest;
    assert forall i :: 0 <= i < |caption| ==> s[|front| + i] == caption[i];
    if ':' in caption[k..] {
      var j :| 0 <= j < |caption[k..]| && caption[k..][j] == ':';
      assert s[|front| + k + j] == ':';
    }
  }

  lemma Regroup(front: string, middle: string, tail: string)
    ensures front + middle + tail == front + (middle + tail)
  {
  }

  lemma {:induction false} SpaceThenTail(front: string, c: char, space: string, tail: string)
    requires AllSpaces(space)
    ensures var s := front + ([c] + space + tail); var at := |front| + 1 + |space|;
      && at <= |s| && s[|front|] == c && (tail != [] ==> s[at] == tail[0])
      && (forall k :: |front| < k < at ==> IsSpace(s[k]))
      && (tail == [] || !IsSpace(tail[0]) ==> SkipSpace(s, |front| + 1) == at)
  {
    var rest := [c] + space + tail;
    var s := front + rest;
    var at := |front| + 1 + |space|;
    forall k | |front| + 1 <= k < at
      ensures IsSpace(s[k])
    {
      assert s[k] == rest[k - |front|] == space[k - |front| - 1];
    }
    if tail != [] { assert s[at] == rest[1 + |space|] == tail[0]; }
    if tail == [] || !IsSpace(tail[0]) { SpaceSkipped(s, |front| + 1, at); }
  }

  // ---------------------------------------------------------------------
  // Links as they are parsed
  // ---------------------------------------------------------------------

  /** The parts of a link, image or definition. */
  datatype Syntax = Syntax(
    before: string, caption: string, space: string, angled: bool, destination: string, after: string)

  function Tail(x: Syntax): string {
    if x.angled then "<" + x.destination + ">" + x.after else x.destination + x.after
  }

  ghost predicate IsSyntax(x: Syntax) {
    && '[' !in x.before && AllSpaces(x.space)
    && (!x.angled ==>
          && (x.after == [] || x.after[0] == ')' || IsSpace(x.after[0]))
          && (x.destination == [] || x.destination[0] != '<'))
  }

  function SourceOf(x: Syntax, kind: NodeKind): string {
    LinkHead(x.before, x.caption, kind, x.space) + Tail(x)
  }

  /** Where the destination really is. */
  function DestinationAt(x: Syntax, kind: NodeKind): Range {
    var start := |LinkHead(x.before, x.caption, kind, x.space)| + if x.angled then 1 else 0;
    Range(start, start + |x.destination|)
  }

  ghost predicate IsScanned(x: Syntax) {
    if x.angled then IsAngled(x.destination) else IsBareBefore(x.destination, x.after)
  }

  /** The scans of the label and of the destination end where these end. */
  ghost predicate IsFindable(x: Syntax, kind: NodeKind) {
    LabelIsClear(x.caption, kind) && (Tail(x) == [] || !IsSpace(Tail(x)[0])) && IsScanned(x)
  }

  lemma {:induction false} ScannedIff(x: Syntax, kind: NodeKind)
    requires IsSyntax(x)
    ensures IsScanned(x) <==>
      DestinationFrom(SourceOf(x, kind), |LinkHead(x.before, x.caption, kind, x.space)|) == Success(DestinationAt(x, kind))
  {
    if x.angled { AngledScannedIff(x, kind); } else { BareScannedFromHead(x, kind); }
  }

  lemma {:induction false} AngledScannedIff(x: Syntax, kind: NodeKind)
    requires IsSyntax(x) && x.angled
    ensures IsScanned(x) <==>
      DestinationFrom(SourceOf(x, kind), |LinkHead(x.before, x.caption, kind, x.space)|) == Success(DestinationAt(x, kind))
  {
    var head := LinkHead(x.before, x.caption, kind, x.space);
    AngleScannedIff(head, x.destination, x.after);
    assert (head + Tail(x))[|head|] == '<';
  }

  lemma {:induction false} BareScannedFromHead(x: Syntax, kind: NodeKind)
    requires IsSyntax(x) && !x.angled
    ensures IsScanned(x) <==>
      DestinationFrom(SourceOf(x, kind), |LinkHead(x.before, x.caption, kind, x.space)|) == Success(DestinationAt(x, kind))
  {
    var head := LinkHead(x.before, x.caption, kind, x.space);
    BareScannedIff(head, x.destination, x.after);
    assert Tail(x) != [] ==> (head + Tail(x))[|head|] == Tail(x)[0] != '<';
  }

  lemma TailStarts(x: Syntax)
    requires IsSyntax(x)
    ensures x.angled <==> Tail(x) != [] && Tail(x)[0] == '<'
  {
  }

  /** The destination is found, whatever follows it, exactly when the label can
      be got over and it is a bare or angle-bracket destination to the scan. */
  lemma {:induction false} DestinationFoundIff(x: Syntax, kind: NodeKind)
    requires IsSyntax(x)
    ensures FindDestination(SourceOf(x, kind), kind) == Success(DestinationAt(x, kind)) <==> IsFindable(x, kind)
  {
    ScannedIff(x, kind);
    TailStarts(x);
    HeadReachedIff(x.before, x.caption, kind, x.space, Tail(x), DestinationAt(x, kind));
  }

  // ---------------------------------------------------------------------
  // Links of plain characters
  // ---------------------------------------------------------------------

  predicate IsUrlChar(c: char) {
    || 'a' <= c <= 'z' || 'A' <= c <= 'Z' || '0' <= c <= '9' || c == '.' || c == '/' || c == '#' || c == '?' || c == '='
    || c == '&' || c == '-' || c == '_' || c == '%' || c == ':' || c == '~' || c == '+' || c == '@' || c == ','
  }

  predicate IsUrl(s: string) {
    s != [] && forall i | 0 <= i < |s| :: IsUrlChar(s[i])
  }

  predicate IsPlainCaption(s: string) {
    forall i | 0 <= i < |s| :: s[i] != '[' && s[i] != ']' && s[i] != '\\'
  }

  /** What ends a destination: the closing parenthesis, or white space before a
      title or, in a definition, the end of the line. */
  predicate EndsUrl(rest: string) {
    rest != [] && (rest[0] == ')' || rest[0] == ' ' || rest[0] == '\t' || rest[0] == '\n')
  }

  function PlainHead(kind: NodeKind, caption: string): string {
    match kind
    case Link => "[" + caption + "]("
    case Image => "![" + caption + "]("
    case Definition => "[" + caption + "]: "
  }

  function Plains(s: string): (pieces: seq<Piece>)
    ensures |pieces| == |s| && forall i :: 0 <= i < |s| ==> pieces[i] == Plain(s[i])
  {
    seq(|s|, i requires 0 <= i < |s| => Plain(s[i]))
  }

  lemma {:induction false} PlainsText(s: string, open: char, close: char)
    ensures Text(Plains(s), open, close) == s
  {
    if s != [] {
      PlainsText(s[1..], open, close);
      assert Plains(s)[1..] == Plains(s[1..]);
      assert [s[0]] + s[1..] == s;
    }
  }

  lemma PlainCaptionPairsUp(caption: string)
    requires IsPlainCaption(caption)
    ensures IsPairedUp(caption)
  {
    PlainsText(caption, '[', ']');
    assert WellFormed(Plains(caption), '[', ']');
  }

  lemma {:induction false} UrlIsBare(url: string)
    requires IsUrl(url)
    ensures IsBare(url) && !IsSpace(url[0])
  {
    PlainsText(url, '(', ')');
    forall i | 0 <= i < |url|
      ensures IsPlain(url[i], '(', ')') && !IsSpace(url[i])
    {
      assert IsUrlChar(url[i]);
    }
    assert WellFormed(Plains(url), '(', ')') && NoSpaceOutside(Plains(url));
  }

  /** A plain link, image or definition, as it is read. */
  function PlainSyntax(kind: NodeKind, caption: string, url: string, rest: string): Syntax {
    Syntax(if kind == Image then "!" else "", caption, if kind == Definition then " " else "", false, url, rest)
  }

  lemma {:induction false} PlainSource(kind: NodeKind, caption: string, url: string, rest: string)
    ensures SourceOf(PlainSyntax(kind, caption, url, rest), kind) == PlainHead(kind, caption) + (url + rest)
    ensures DestinationAt(PlainSyntax(kind, caption, url, rest), kind) ==
      Range(|PlainHead(kind, caption)|, |PlainHead(kind, caption)| + |url|)
  {
    var x := PlainSyntax(kind, caption, url, rest);
    assert LinkHead(x.before, caption, kind, x.space) == PlainHead(kind, caption);
  }

  /** A plain destination is found from its first character to its last. */
  lemma {:induction false} PlainDestinationFound(kind: NodeKind, caption: string, url: string, rest: string)
    requires IsPlainCaption(caption) && IsUrl(url) && EndsUrl(rest)
    ensures FindDestination(PlainHead(kind, caption) + (url + rest), kind) ==
      Success(Range(|PlainHead(kind, caption)|, |PlainHead(kind, caption)| + |url|))
  {
    var x := PlainSyntax(kind, caption, url, rest);
    PlainSource(kind, caption, url, rest);
    UrlIsBare(url);
    assert IsUrlChar(url[0]) && IsSyntax(x);
    PlainLabelIsClear(caption, kind);
    DestinationFoundIff(x, kind);
  }

  lemma {:induction false} PlainLabelIsClear(caption: string, kind: NodeKind)
    requires IsPlainCaption(caption)
    ensures LabelIsClear(caption, kind)
  {
    PlainCaptionPairsUp(caption);
    if kind == Definition {
      assert caption[..|caption|] == caption && StopsAt(caption, |caption|) && caption[|caption|..] == [];
    }
  }
}
