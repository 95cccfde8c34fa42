/** Which texts the scans for bare and angle-bracket destinations take whole. */
module DestinationText {
  import opened Wrappers
  import opened Strings
  import opened LinkScan

  // ---------------------------------------------------------------------
  // Bare destinations
  // ---------------------------------------------------------------------

  ghost predicate NoSpaceOutside(pieces: seq<Piece>) {
    forall i :: 0 <= i < |pieces| && pieces[i].Plain? ==> !IsSpace(pieces[i].c)
  }

  lemma {:induction false} BarePastText(s: string, i: nat, depth: nat, pieces: seq<Piece>)
    requires WellFormed(pieces, '(', ')') && (depth == 0 ==> NoSpaceOutside(pieces)) && At(s, i, Text(pieces, '(', ')'))
    ensures BareEnd(s, i, depth) == BareEnd(s, i + |Text(pieces, '(', ')')|, depth)
    decreases pieces
  {
    if pieces != [] {
      var first, rest := PieceText(pieces[0], '(', ')'), Text(pieces[1..], '(', ')');
      AtSplit(s, i, first, rest);
      BarePastPiece(s, i, depth, pieces[0]);
      BarePastText(s, i + |first|, depth, pieces[1..]);
    }
  }

  lemma {:induction false} BarePastPiece(s: string, i: nat, depth: nat, piece: Piece)
    requires WellFormed([piece], '(', ')') && (depth == 0 ==> NoSpaceOutside([piece])) && At(s, i, PieceText(piece, '(', ')'))
    ensures BareEnd(s, i, depth) == BareEnd(s, i + |PieceText(piece, '(', ')')|, depth)
    decreases piece
  {
    assert [piece][0] == piece;
    match piece
    case Plain(c) => AtFirst(s, i, c);
    case Escaped(c) =>
      assert ['\\', c] == ['\\'] + [c];
      AtSplit(s, i, ['\\'], [c]);
      AtFirst(s, i, '\\');
    case Group(inner) =>
      var body := Text(inner, '(', ')');
      AtSplit(s, i, ['('] + body, [')']);
      AtSplit(s, i, ['('], body);
      AtFirst(s, i, '(');
      AtFirst(s, i + 1 + |body|, ')');
      BarePastText(s, i + 1, depth + 1, inner);
  }

  /** Parentheses pair up, and white space is inside them. */
  ghost predicate IsBare(text: string) {
    exists pieces :: WellFormed(pieces, '(', ')') && NoSpaceOutside(pieces) && Text(pieces, '(', ')') == text
  }

  /** At the very end of the source, text that could be completed will do. */
  ghost predicate IsBareBefore(text: string, after: string) {
    if after == [] then exists more :: IsBare(text + more) else IsBare(text)
  }

  lemma {:induction false} BareLevels(s: string, i: nat, depth: nat, at: nat) returns (levels: seq<seq<Piece>>)
    requires i <= |s| && BareEnd(s, i, depth) == at < |s|
    ensures |levels| == depth + 1 && s[i..at] == LevelsText(levels, '(', ')')
    ensures LevelsWellFormed(levels, '(', ')') && NoSpaceOutside(levels[depth])
    decreases |s| - i
  {
    if i == at {
      levels := [[]];
    } else if s[i] == '\\' {
      var rest := BareLevels(s, i + 2, depth, at);
      levels := Push(Escaped(s[i + 1]), rest, '(', ')');
      assert s[i..at] == [s[i], s[i + 1]] + s[i + 2..at];
    } else {
      assert s[i..at] == [s[i]] + s[i + 1..at];
      if s[i] == '(' {
        var rest := BareLevels(s, i + 1, depth + 1, at);
        levels := PushGroup(rest, '(', ')');
      } else if s[i] == ')' {
        var rest := BareLevels(s, i + 1, depth - 1, at);
        levels := [[]] + rest;
        assert levels[1..] == rest;
      } else {
        var rest := BareLevels(s, i + 1, depth, at);
        levels := Push(Plain(s[i]), rest, '(', ')');
      }
    }
  }

  /** Before more text exactly the bare destinations are taken whole. */
  lemma {:induction false} BareIff(text: string, after: string)
    requires after != [] && (after[0] == ')' || IsSpace(after[0]))
    ensures BareEnd(text + after, 0, 0) == |text| <==> IsBare(text)
  {
    var s := text + after;
    assert s[0..|text|] == text;
    if IsBare(text) {
      var pieces :| WellFormed(pieces, '(', ')') && NoSpaceOutside(pieces) && Text(pieces, '(', ')') == text;
      BarePastText(s, 0, 0, pieces);
    } else if BareEnd(s, 0, 0) == |text| {
      var levels := BareLevels(s, 0, 0, |text|);
    }
  }

  function Closings(n: nat): string {
    if n == 0 then [] else ")" + Closings(n - 1)
  }

  lemma {:induction false} ClosedEnd(s: string, i: nat, depth: nat)
    requires At(s, i, Closings(depth + 1))
    ensures BareEnd(s, i, depth) == i + depth && i + depth < |s|
    decreases depth
  {
    AtSplit(s, i, ")", Closings(depth));
    AtFirst(s, i, ')');
    if depth > 0 { ClosedEnd(s, i + 1, depth - 1); }
  }

  /** What a text scanned to its end lacks to be a bare destination. */
  function Completion(t: string, i: nat, depth: nat): string
    decreases |t| - i
  {
    if i > |t| then "x" + Closings(depth)
    else if i == |t| then Closings(depth)
    else if t[i] == '\\' then Completion(t, i + 2, depth)
    else if t[i] == '(' then Completion(t, i + 1, depth + 1)
    else if t[i] == ')' && depth > 0 then Completion(t, i + 1, depth - 1)
    else Completion(t, i + 1, depth)
  }

  lemma ClosingsAfter(t: string, front: string, depth: nat)
    ensures At(t + (front + Closings(depth)) + ")", |t| + |front|, Closings(depth + 1))
    ensures |t + (front + Closings(depth))| == |t| + |front| + depth
  {
    ClosingsAppend(depth);
    var s := t + (front + Closings(depth)) + ")";
    assert s == t + front + (Closings(depth) + ")");
    assert s[|t| + |front|..] == Closings(depth) + ")";
  }

  lemma {:induction false} ClosingsAppend(depth: nat)
    ensures Closings(depth) + ")" == Closings(depth + 1) && |Closings(depth)| == depth
  {
    if depth > 0 {
      ClosingsAppend(depth - 1);
      assert Closings(depth) + ")" == ")" + (Closings(depth - 1) + ")");
    }
  }

  lemma {:induction false} CompletedEnd(t: string, i: nat, depth: nat)
    requires i <= |t| + 1 && BareEnd(t, i, depth) == |t|
    ensures var whole := t + Completion(t, i, depth); BareEnd(whole + ")", i, depth) == |whole|
    decreases |t| + 1 - i
  {
    if i >= |t| {
      CompletedAtEnd(t, i, depth);
    } else {
      var s := t + Completion(t, i, depth) + ")";
      assert s[i] == t[i];
      if t[i] == '\\' { CompletedEnd(t, i + 2, depth); }
      else if t[i] == '(' { CompletedEnd(t, i + 1, depth + 1); }
      else if t[i] == ')' { CompletedEnd(t, i + 1, depth - 1); }
      else { CompletedEnd(t, i + 1, depth); }
    }
  }

  lemma {:induction false} CompletedAtEnd(t: string, i: nat, depth: nat)
    requires |t| <= i <= |t| + 1
    ensures var whole := t + Completion(t, i, depth); BareEnd(whole + ")", i, depth) == |whole|
  {
    var front := if i > |t| then "x" else "";
    assert "" + Closings(depth) == Closings(depth);
    ClosingsAfter(t, front, depth);
    ClosedEnd(t + (front + Closings(depth)) + ")", i, depth);
  }

  /** A scan that stops before the end stops there in any longer text. */
  lemma {:induction false} StopsAlike(t: string, more: string, i: nat, depth: nat)
    requires BareEnd(t, i, depth) < |t|
    ensures BareEnd(t + more, i, depth) == BareEnd(t, i, depth)
    decreases |t| - i
  {
    if i < |t| {
      assert (t + more)[i] == t[i];
      if t[i] == '\\' { StopsAlike(t, more, i + 2, depth); }
      else if t[i] == '(' { StopsAlike(t, more, i + 1, depth + 1); }
      else if t[i] == ')' { if depth > 0 { StopsAlike(t, more, i + 1, depth - 1); } }
      else if !IsSpace(t[i]) || depth > 0 { StopsAlike(t, more, i + 1, depth); }
    }
  }

  /** At the end of the source exactly the texts that can be completed are. */
  lemma {:induction false} BareLastIff(text: string)
    ensures BareEnd(text, 0, 0) == |text| <==> exists more :: IsBare(text + more)
  {
    if BareEnd(text, 0, 0) == |text| {
      CompletedEnd(text, 0, 0);
      BareIff(text + Completion(text, 0, 0), ")");
    } else if more :| IsBare(text + more) {
      BareIff(text + more, ")");
      assert text + more + ")" == text + (more + ")");
      StopsAlike(text, more + ")", 0, 0);
    }
  }

  lemma {:induction false} EndShifts(head: string, s: string, i: nat, depth: nat)
    ensures BareEnd(head + s, |head| + i, depth) == |head| + BareEnd(s, i, depth)
    decreases |s| - i
  {
    if i < |s| {
      assert (head + s)[|head| + i] == s[i];
      if s[i] == '\\' { EndShifts(head, s, i + 2, depth); }
      else if s[i] == '(' { EndShifts(head, s, i + 1, depth + 1); }
      else if s[i] == ')' { if depth > 0 { EndShifts(head, s, i + 1, depth - 1); } }
      else { EndShifts(head, s, i + 1, depth); }
    }
  }

  /** The scan stops behind a text exactly when it is a bare destination. */
  lemma {:induction false} BareScannedIff(head: string, text: string, after: string)
    requires after == [] || after[0] == ')' || IsSpace(after[0])
    ensures BareEnd(head + (text + after), |head|, 0) == |head| + |text| <==> IsBareBefore(text, after)
  {
    EndShifts(head, text + after, 0, 0);
    if after == [] {
      assert text + after == text;
      BareLastIff(text);
    } else {
      BareIff(text, after);
    }
  }

  // ---------------------------------------------------------------------
  // Angle-bracket destinations
  // ---------------------------------------------------------------------

  /** Text in which every `>` is escaped. */
  ghost predicate IsAngleText(pieces: seq<Piece>) {
    WellFormed(pieces, '>', '>') && forall i :: 0 <= i < |pieces| ==> !pieces[i].Group?
  }

  lemma {:induction false} AnglePastText(s: string, i: nat, pieces: seq<Piece>)
    requires IsAngleText(pieces) && At(s, i, Text(pieces, '>', '>'))
    ensures AngleEnd(s, i) == AngleEnd(s, i + |Text(pieces, '>', '>')|)
    decreases |pieces|
  {
    if pieces != [] {
      var first, rest := PieceText(pieces[0], '>', '>'), Text(pieces[1..], '>', '>');
      AtSplit(s, i, first, rest);
      AnglePastPiece(s, i, pieces[0]);
      AnglePastText(s, i + |first|, pieces[1..]);
    }
  }

  lemma {:induction false} AnglePastPiece(s: string, i: nat, piece: Piece)
    requires piece.Escaped? || (piece.Plain? && IsPlain(piece.c, '>', '>'))
    requires At(s, i, PieceText(piece, '>', '>'))
    ensures AngleEnd(s, i) == AngleEnd(s, i + |PieceText(piece, '>', '>')|)
  {
    match piece
    case Plain(c) => AtFirst(s, i, c);
    case Escaped(c) =>
      assert ['\\', c] == ['\\'] + [c];
      AtSplit(s, i, ['\\'], [c]);
      AtFirst(s, i, '\\');
  }

  /** What the scan takes for an angle-bracket destination is always such text. */
  lemma {:induction false} AngleTextFound(s: string, i: nat) returns (pieces: seq<Piece>)
    requires AngleEnd(s, i).Some?
    ensures IsAngleText(pieces) && s[i..AngleEnd(s, i).value] == Text(pieces, '>', '>')
    decreases |s| - i
  {
    var at := AngleEnd(s, i).value;
    if s[i] == '>' {
      pieces := [];
    } else {
      var first := if s[i] == '\\' then Escaped(s[i + 1]) else Plain(s[i]);
      var next := if s[i] == '\\' then i + 2 else i + 1;
      var rest := AngleTextFound(s, next);
      pieces := [first] + rest;
      assert pieces[1..] == rest && s[i..at] == PieceText(first, '>', '>') + s[next..at];
    }
  }

  ghost predicate IsAngled(text: string) {
    exists pieces :: IsAngleText(pieces) && Text(pieces, '>', '>') == text
  }

  /** The scan stops at the closing bracket exactly when it is the first one
      that is not escaped. */
  lemma {:induction false} AngleScannedIff(head: string, text: string, after: string)
    ensures AngleEnd(head + ("<" + text + ">" + after), |head| + 1) == Some(|head| + 1 + |text|) <==> IsAngled(text)
  {
    var s := head + ("<" + text + ">" + after);
    assert s == (head + "<") + (text + (">" + after));
    MiddleAt(head + "<", text, ">" + after);
    if IsAngled(text) {
      var pieces :| IsAngleText(pieces) && Text(pieces, '>', '>') == text;
      AnglePastText(s, |head| + 1, pieces);
    } else if AngleEnd(s, |head| + 1) == Some(|head| + 1 + |text|) {
      var pieces := AngleTextFound(s, |head| + 1);
    }
  }

  lemma MiddleAt(head: string, text: string, after: string)
    ensures var s, end := head + (text + after), |head| + |text|;
      At(s, |head|, text) && end <= |s| && (end < |s| <==> after != []) && (after != [] ==> s[end] == after[0])
  {
    var s := head + (text + after);
    assert s[|head|..|head| + |text|] == text;
  }
}
