/** Finding a link's destination in its source text: the bracket that closes
    the label, and the destination after it. */
module LinkScan {
  import opened Wrappers
  import opened Strings

  datatype NodeKind = Link | Image | Definition

  /** Start and end offsets, the end exclusive. */
  datatype Range = Range(start: nat, end: nat)

  datatype ScanError = NoLabelEnd | NoSeparator | NoInlineDestination | NoAngleEnd

  // ---------------------------------------------------------------------
  // Bracketed text
  // ---------------------------------------------------------------------

  /** Text in which brackets pair up, unless a backslash precedes them. */
  datatype Piece = Plain(c: char) | Escaped(c: char) | Group(inner: seq<Piece>)

  predicate IsPlain(c: char, open: char, close: char) {
    c != open && c != close && c != '\\'
  }

  ghost predicate WellFormed(pieces: seq<Piece>, open: char, close: char) {
    forall i :: 0 <= i < |pieces| ==>
      match pieces[i]
      case Plain(c) => IsPlain(c, open, close)
      case Escaped(_) => true
      case Group(inner) => WellFormed(inner, open, close)
  }

  function Text(pieces: seq<Piece>, open: char, close: char): string {
    if pieces == [] then [] else PieceText(pieces[0], open, close) + Text(pieces[1..], open, close)
  }

  function PieceText(piece: Piece, open: char, close: char): string {
    match piece
    case Plain(c) => [c]
    case Escaped(c) => ['\\', c]
    case Group(inner) => [open] + Text(inner, open, close) + [close]
  }

  /** Where, from `i` on, as many brackets have closed as `depth` says are open. */
  function Closing(s: string, i: nat, depth: nat): (at: Option<nat>)
    requires depth > 0
    ensures at.Some? ==> i <= at.value < |s| && s[at.value] == ']'
    decreases |s| - i
  {
    if i >= |s| then None
    else if s[i] == '\\' then Closing(s, i + 2, depth)
    else if s[i] == '[' then Closing(s, i + 1, depth + 1)
    else if s[i] == ']' then if depth == 1 then Some(i) else Closing(s, i + 1, depth - 1)
    else Closing(s, i + 1, depth)
  }

  method LabelEnd(source: string) returns (end: int)
    ensures end == -1 || 0 <= end < |source|
    ensures end == -1 <==> FindLabelEnd(source).None?
    ensures end != -1 ==> FindLabelEnd(source) == Some(end)
  {
    var first := 0;
    while first < |source| && source[first] != '['
      invariant first <= |source| && FirstAt(source, '[', 0) == FirstAt(source, '[', first)
    {
      first := first + 1;
    }
    if first == |source| { return -1; }
    var depth, index := 0, first;
    while index < |source|
      invariant first <= index && (index == first ==> depth == 0) && (index > first ==> depth > 0)
      invariant FindLabelEnd(source) == if index == first then Closing(source, first + 1, 1) else Closing(source, index, depth)
    {
      var c := source[index];
      if c == '\\' {
        index := index + 1;
      } else if c == '[' {
        depth := depth + 1;
      } else if c == ']' {
        depth := depth - 1;
        if depth == 0 { return index; }
      }
      index := index + 1;
    }
    return -1;
  }

  function FirstAt(s: string, c: char, i: nat): (at: nat)
    requires i <= |s|
    ensures i <= at <= |s| && (at < |s| ==> s[at] == c) && c !in s[i..at]
    decreases |s| - i
  {
    if i == |s| || s[i] == c then i else FirstAt(s, c, i + 1)
  }

  function FindLabelEnd(s: string): (at: Option<nat>)
    ensures at.Some? ==> FirstAt(s, '[', 0) < at.value < |s| && s[at.value] == ']'
  {
    var first := FirstAt(s, '[', 0);
    if first == |s| then None else Closing(s, first + 1, 1)
  }

  lemma AtSplit(s: string, i: nat, a: string, b: string)
    requires At(s, i, a + b)
    ensures At(s, i, a) && At(s, i + |a|, b)
  {
    var whole := s[i..i + |a + b|];
    assert whole[..|a|] == a && whole[|a|..] == b;
    assert s[i..i + |a|] == whole[..|a|] && s[i + |a|..i + |a| + |b|] == whole[|a|..];
  }

  lemma AtFirst(s: string, i: nat, c: char)
    requires At(s, i, [c])
    ensures s[i] == c
  {
    assert s[i..i + 1][0] == c;
  }

  /** Scanning over paired-up text changes nothing. */
  lemma {:induction false} ClosingPastText(s: string, i: nat, depth: nat, pieces: seq<Piece>)
    requires depth > 0 && WellFormed(pieces, '[', ']') && At(s, i, Text(pieces, '[', ']'))
    ensures Closing(s, i, depth) == Closing(s, i + |Text(pieces, '[', ']')|, depth)
    decreases pieces
  {
    if pieces != [] {
      var first, rest := PieceText(pieces[0], '[', ']'), Text(pieces[1..], '[', ']');
      AtSplit(s, i, first, rest);
      ClosingPastPiece(s, i, depth, pieces[0]);
      ClosingPastText(s, i + |first|, depth, pieces[1..]);
    }
  }

  lemma {:induction false} ClosingPastPiece(s: string, i: nat, depth: nat, piece: Piece)
    requires depth > 0 && WellFormed([piece], '[', ']') && At(s, i, PieceText(piece, '[', ']'))
    ensures Closing(s, i, depth) == Closing(s, i + |PieceText(piece, '[', ']')|, depth)
    decreases piece
  {
    assert [piece][0] == piece;
    match piece
    case Plain(c) => AtFirst(s, i, c);
    case Escaped(c) =>
      assert ['\\', c] == ['\\'] + [c];
      AtSplit(s, i, ['\\'], [c]);
      AtFirst(s, i, '\\');
    case Group(inner) =>
      var body := Text(inner, '[', ']');
      AtSplit(s, i, ['['] + body, [']']);
      AtSplit(s, i, ['['], body);
      AtFirst(s, i, '[');
      AtFirst(s, i + 1 + |body|, ']');
      ClosingPastText(s, i + 1, depth + 1, inner);
  }

  /** After paired-up label text the scan stops at exactly its closing bracket. */
  lemma LabelEndFindsMatch(before: string, inside: seq<Piece>, after: string)
    requires '[' !in before && WellFormed(inside, '[', ']')
    ensures FindLabelEnd(before + "[" + Text(inside, '[', ']') + "]" + after) ==
            Some(|before| + 1 + |Text(inside, '[', ']')|)
  {
    var text := Text(inside, '[', ']');
    var s, close := before + "[" + text + "]" + after, |before| + 1 + |text|;
    forall k | 0 <= k < |before|
      ensures s[k] != '['
    {
      assert s[k] == before[k];
    }
    FirstIs(s, '[', 0, |before|);
    ClosingPastText(s, |before| + 1, 1, inside);
    assert Closing(s, close, 1) == Some(close);
  }

  lemma {:induction false} FirstIs(s: string, c: char, i: nat, at: nat)
    requires i <= at < |s| && s[at] == c && forall k :: i <= k < at ==> s[k] != c
    ensures FirstAt(s, c, i) == at
    decreases at - i
  {
    if i < at { FirstIs(s, c, i + 1, at); }
  }

  /** The texts between a scan's position and its end: one for each bracket that
      is open, each closed by its bracket, and the one outside. */
  function LevelsText(levels: seq<seq<Piece>>, open: char, close: char): string
    requires levels != []
  {
    if |levels| == 1 then Text(levels[0], open, close)
    else Text(levels[0], open, close) + [close] + LevelsText(levels[1..], open, close)
  }

  ghost predicate LevelsWellFormed(levels: seq<seq<Piece>>, open: char, close: char) {
    forall k :: 0 <= k < |levels| ==> WellFormed(levels[k], open, close)
  }

  /** One more piece at the front of the innermost level. */
  lemma Push(piece: Piece, levels: seq<seq<Piece>>, open: char, close: char) returns (pushed: seq<seq<Piece>>)
    requires levels != [] && LevelsWellFormed(levels, open, close) && WellFormed([piece], open, close)
    ensures pushed == [[piece] + levels[0]] + levels[1..] && LevelsWellFormed(pushed, open, close)
    ensures LevelsText(pushed, open, close) == PieceText(piece, open, close) + LevelsText(levels, open, close)
  {
    var first := [piece] + levels[0];
    pushed := [first] + levels[1..];
    assert first[1..] == levels[0] && pushed[1..] == levels[1..];
    assert Text(first, open, close) == PieceText(piece, open, close) + Text(levels[0], open, close);
  }

  /** A group holds what the level inside it held. */
  lemma PushGroup(rest: seq<seq<Piece>>, open: char, close: char) returns (pushed: seq<seq<Piece>>)
    requires |rest| > 1 && LevelsWellFormed(rest, open, close)
    ensures pushed == [[Group(rest[0])] + rest[1]] + rest[2..] && LevelsWellFormed(pushed, open, close)
    ensures LevelsText(pushed, open, close) == [open] + LevelsText(rest, open, close)
  {
    var group, outer := Group(rest[0]), rest[1..];
    assert [group][0] == group;
    pushed := Push(group, outer, open, close);
  }

  lemma {:induction false} ParseLevels(s: string, i: nat, depth: nat, at: nat) returns (levels: seq<seq<Piece>>)
    requires depth > 0 && Closing(s, i, depth) == Some(at)
    ensures |levels| == depth && s[i..at] == LevelsText(levels, '[', ']')
    ensures LevelsWellFormed(levels, '[', ']')
    decreases |s| - i
  {
    if s[i] == ']' && depth == 1 {
      levels := [[]];
    } else if s[i] == '\\' {
      levels := ParseLevels(s, i + 2, depth, at);
      levels := Push(Escaped(s[i + 1]), levels, '[', ']');
      assert s[i..at] == [s[i], s[i + 1]] + s[i + 2..at];
    } else if s[i] == '[' {
      var rest := ParseLevels(s, i + 1, depth + 1, at);
      levels := PushGroup(rest, '[', ']');
      assert s[i..at] == [s[i]] + s[i + 1..at];
    } else if s[i] == ']' {
      var rest := ParseLevels(s, i + 1, depth - 1, at);
      levels := [[]] + rest;
      assert s[i..at] == [s[i]] + s[i + 1..at];
      assert levels[1..] == rest;
    } else {
      levels := ParseLevels(s, i + 1, depth, at);
      levels := Push(Plain(s[i]), levels, '[', ']');
      assert s[i..at] == [s[i]] + s[i + 1..at];
    }
  }

  /** What the scan takes for the label is always paired-up text. */
  lemma LabelIsPairedUp(s: string) returns (inside: seq<Piece>)
    requires FindLabelEnd(s).Some?
    ensures WellFormed(inside, '[', ']')
    ensures s[FirstAt(s, '[', 0) + 1..FindLabelEnd(s).value] == Text(inside, '[', ']')
  {
    var first := FirstAt(s, '[', 0);
    var levels := ParseLevels(s, first + 1, 1, FindLabelEnd(s).value);
    inside := levels[0];
  }

  ghost predicate IsPairedUp(text: string) {
    exists inside :: WellFormed(inside, '[', ']') && Text(inside, '[', ']') == text
  }

  /** The label's bracket is taken to close at `k` characters of the caption. */
  ghost predicate StopsAt(caption: string, k: nat) {
    k <= |caption| && (k < |caption| ==> caption[k] == ']') && IsPairedUp(caption[..k])
  }

  lemma LabelParts(before: string, caption: string, rest: string, k: nat)
    requires '[' !in before && k <= |caption|
    ensures var s, at := before + "[" + caption + "]" + rest, |before| + 1 + k;
      && FirstAt(s, '[', 0) == |before| && s[|before| + 1..at] == caption[..k]
      && s[at] == (if k < |caption| then caption[k] else ']')
      && (s[at] == ']' ==> s == before + "[" + caption[..k] + "]" + s[at + 1..])
  {
    var s, at := before + "[" + caption + "]" + rest, |before| + 1 + k;
    assert s[|before|] == '[' && forall i :: 0 <= i < |before| ==> s[i] == before[i];
    FirstIs(s, '[', 0, |before|);
    assert forall i :: 0 <= i < |caption| ==> s[|before| + 1 + i] == caption[i];
  }

  /** The scan takes the label to end at `k` characters of the caption exactly
      when a bracket stands there and the text before it is paired up. */
  lemma LabelStopsIff(before: string, caption: string, rest: string, k: nat)
    requires '[' !in before && k <= |caption|
    ensures FindLabelEnd(before + "[" + caption + "]" + rest) == Some(|before| + 1 + k) <==> StopsAt(caption, k)
  {
    var s, at := before + "[" + caption + "]" + rest, |before| + 1 + k;
    LabelParts(before, caption, rest, k);
    if FindLabelEnd(s) == Some(at) {
      var inside := LabelIsPairedUp(s);
      assert IsPairedUp(caption[..k]);
    } else if StopsAt(caption, k) {
      var inside :| WellFormed(inside, '[', ']') && Text(inside, '[', ']') == caption[..k];
      LabelEndFindsMatch(before, inside, s[at + 1..]);
    }
  }

  /** In particular it finds the bracket after a label exactly when the label is
      paired-up text. */
  lemma LabelEndFoundIff(before: string, caption: string, after: string)
    requires '[' !in before
    ensures FindLabelEnd(before + "[" + caption + "]" + after) == Some(|before| + 1 + |caption|) <==> IsPairedUp(caption)
  {
    LabelStopsIff(before, caption, after, |caption|);
    assert caption[..|caption|] == caption;
  }

  // ---------------------------------------------------------------------
  // Destinations
  // ---------------------------------------------------------------------

  function AngleEnd(s: string, i: nat): (at: Option<nat>)
    ensures at.Some? ==> i <= at.value < |s| && s[at.value] == '>'
    decreases |s| - i
  {
    if i >= |s| then None
    else if s[i] == '\\' then AngleEnd(s, i + 2)
    else if s[i] == '>' then Some(i)
    else AngleEnd(s, i + 1)
  }

  /** The end of a bare destination: the first unpaired `)` or the first white
      space outside parentheses. */
  function BareEnd(s: string, i: nat, depth: nat): (at: nat)
    ensures at <= |s| && (i <= |s| ==> i <= at)
    decreases |s| - i
  {
    if i >= |s| then |s|
    else if s[i] == '\\' then BareEnd(s, i + 2, depth)
    else if s[i] == '(' then BareEnd(s, i + 1, depth + 1)
    else if s[i] == ')' then if depth == 0 then i else BareEnd(s, i + 1, depth - 1)
    else if IsSpace(s[i]) && depth == 0 then i
    else BareEnd(s, i + 1, depth)
  }

  function DestinationFrom(s: string, start: nat): Result<Range, ScanError>
    requires start <= |s|
  {
    if start < |s| && s[start] == '<' then
      var end := AngleEnd(s, start + 1);
      if end.None? then Failure(NoAngleEnd) else Success(Range(start + 1, end.value))
    else Success(Range(start, BareEnd(s, start, 0)))
  }

  function FindDestination(s: string, kind: NodeKind): (r: Result<Range, ScanError>)
    ensures r.Success? ==> FindLabelEnd(s).Some? && FindLabelEnd(s).value + 2 <= r.value.start <= r.value.end <= |s|
  {
    var bracket := FindLabelEnd(s);
    if bracket.None? then Failure(NoLabelEnd)
    else if kind == Definition then
      var colon := FirstAt(s, ':', bracket.value + 1);
      if colon == |s| then Failure(NoSeparator) else DestinationFrom(s, SkipSpace(s, colon + 1))
    else if bracket.value + 1 == |s| || s[bracket.value + 1] != '(' then Failure(NoInlineDestination)
    else DestinationFrom(s, SkipSpace(s, bracket.value + 2))
  }

  method SkipWhitespace(source: string, start: nat) returns (index: nat)
    requires start <= |source|
    ensures index == SkipSpace(source, start)
  {
    index := start;
    while index < |source| && IsSpace(source[index])
      invariant index <= |source| && SkipSpace(source, start) == SkipSpace(source, index)
    {
      index := index + 1;
    }
  }

  method IndexOfColon(source: string, start: nat) returns (index: nat)
    requires start <= |source|
    ensures index == FirstAt(source, ':', start)
  {
    index := start;
    while index < |source| && source[index] != ':'
      invariant index <= |source| && FirstAt(source, ':', start) == FirstAt(source, ':', index)
    {
      index := index + 1;
    }
  }

  method DestinationRange(rawNode: string, kind: NodeKind) returns (r: Result<Range, ScanError>)
    ensures r == FindDestination(rawNode, kind)
  {
    var endOfLabel := LabelEnd(rawNode);
    if endOfLabel == -1 { return Failure(NoLabelEnd); }
    var start;
    if kind == Definition {
      var colon := IndexOfColon(rawNode, endOfLabel + 1);
      if colon == |rawNode| { return Failure(NoSeparator); }
      start := SkipWhitespace(rawNode, colon + 1);
    } else {
      if endOfLabel + 1 == |rawNode| || rawNode[endOfLabel + 1] != '(' { return Failure(NoInlineDestination); }
      start := SkipWhitespace(rawNode, endOfLabel + 2);
    }
    r := ScanDestination(rawNode, start);
  }

  method ScanDestination(rawNode: string, start: nat) returns (r: Result<Range, ScanError>)
    requires start <= |rawNode|
    ensures r == DestinationFrom(rawNode, start)
  {
    if start < |rawNode| && rawNode[start] == '<' {
      var index := start + 1;
      while index < |rawNode|
        invariant start < index && AngleEnd(rawNode, start + 1) == AngleEnd(rawNode, index)
      {
        if rawNode[index] == '\\' {
          index := index + 1;
        } else if rawNode[index] == '>' {
          return Success(Range(start + 1, index));
        }
        index := index + 1;
      }
      return Failure(NoAngleEnd);
    }
    var depth, index := 0, start;
    while index < |rawNode|
      invariant start <= index && depth >= 0 && BareEnd(rawNode, start, 0) == BareEnd(rawNode, index, depth)
    {
      var c := rawNode[index];
      if c == '\\' {
        index := index + 1;
      } else if c == '(' {
        depth := depth + 1;
      } else if c == ')' {
        if depth == 0 { return Success(Range(start, index)); }
        depth := depth - 1;
      } else if IsSpace(c) && depth == 0 {
        return Success(Range(start, index));
      }
      index := index + 1;
    }
    return Success(Range(start, |rawNode|));
  }
}
