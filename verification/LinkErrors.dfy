/** Which error is reported for a link whose destination is not found, told from
    its source alone. */
module LinkErrors {
  import opened Wrappers
  import opened Strings
  import opened LinkScan
  import opened DestinationText
  import opened LinkDestinations

  /** The label opens with the first bracket and closes, paired up, at `close`. */
  ghost predicate IsLabelAt(s: string, open: nat, close: nat) {
    && open < close < |s| && s[open] == '[' && s[close] == ']'
    && '[' !in s[..open] && IsPairedUp(s[open + 1..close])
  }

  /** What opens the destination stands at `o`. */
  ghost predicate IsOpenerAt(s: string, kind: NodeKind, close: nat, o: nat) {
    && close < o < |s|
    && if kind == Definition then s[o] == ':' && ':' !in s[close + 1..o] else o == close + 1 && s[o] == '('
  }

  /** An angle bracket follows at `start`, and no unescaped one after it. */
  ghost predicate IsUnclosedAngle(s: string, o: nat, start: nat) {
    && o < start < |s| && AllSpaces(s[o + 1..start]) && s[start] == '<'
    && forall at {:trigger s[at]} :: start < at < |s| && s[at] == '>' ==> !IsAngled(s[start + 1..at])
  }

  /** What is wrong with a link of which no destination is found. */
  ghost predicate IsScanError(s: string, kind: NodeKind, e: ScanError) {
    match e
    case NoLabelEnd => forall open: nat, close: nat :: !IsLabelAt(s, open, close)
    case NoSeparator =>
      exists open: nat, close: nat :: IsLabelAt(s, open, close) && kind == Definition && ':' !in s[close + 1..]
    case NoInlineDestination =>
      exists open: nat, close: nat :: IsLabelAt(s, open, close) && kind != Definition && !(close + 1 < |s| && s[close + 1] == '(')
    case NoAngleEnd =>
      exists open: nat, close: nat, o: nat, start: nat ::
        IsLabelAt(s, open, close) && IsOpenerAt(s, kind, close, o) && IsUnclosedAngle(s, o, start)
  }

  lemma LabelAtIsFound(s: string, open: nat, close: nat)
    requires IsLabelAt(s, open, close)
    ensures FindLabelEnd(s) == Some(close)
  {
    CutAtLabel(s, open, close);
    LabelEndFoundIff(s[..open], s[open + 1..close], s[close + 1..]);
  }

  lemma CutAtLabel(s: string, open: nat, close: nat)
    requires open < close < |s| && s[open] == '[' && s[close] == ']'
    ensures s == s[..open] + "[" + s[open + 1..close] + "]" + s[close + 1..]
  {
    assert s == s[..open] + [s[open]] + s[open + 1..close] + [s[close]] + s[close + 1..];
  }

  lemma FoundIsLabelAt(s: string) returns (open: nat)
    requires FindLabelEnd(s).Some?
    ensures IsLabelAt(s, open, FindLabelEnd(s).value)
  {
    open := FirstAt(s, '[', 0);
    var pieces := LabelIsPairedUp(s);
    assert s[0..open] == s[..open];
  }

  lemma {:induction false} OpenerIff(s: string, kind: NodeKind, close: nat, o: nat)
    requires FindLabelEnd(s) == Some(close)
    ensures IsOpenerAt(s, kind, close, o) <==>
      o < |s| && OpenerAt(s, kind, close) == o && s[o] == Opener(kind)
  {
    if kind == Definition && close < o < |s| && s[o] == ':' {
      if ':' !in s[close + 1..o] {
        forall k | close < k < o
          ensures s[k] != ':'
        {
          assert s[k] == s[close + 1..o][k - close - 1];
        }
        FirstIs(s, ':', close + 1, o);
      }
    }
  }

  lemma {:induction false} SpacesTo(s: string, i: nat, start: nat)
    requires i <= start < |s| && !IsSpace(s[start])
    ensures AllSpaces(s[i..start]) <==> SkipSpace(s, i) == start
  {
    SpacesOnly(s, i);
    if AllSpaces(s[i..start]) {
      forall k | i <= k < start
        ensures IsSpace(s[k])
      {
        assert s[k] == s[i..start][k - i];
      }
      SpaceSkipped(s, i, start);
    }
  }

  lemma {:induction false} UnclosedIff(s: string, start: nat)
    requires start < |s| && s[start] == '<'
    ensures AngleEnd(s, start + 1).None? <==>
      forall at {:trigger s[at]} :: start < at < |s| && s[at] == '>' ==> !IsAngled(s[start + 1..at])
  {
    if AngleEnd(s, start + 1).Some? {
      var at := AngleEnd(s, start + 1).value;
      var pieces := AngleTextFound(s, start + 1);
      assert IsAngled(s[start + 1..at]) && s[at] == '>';
    }
    forall at | start < at < |s| && s[at] == '>' && IsAngled(s[start + 1..at])
      ensures AngleEnd(s, start + 1).Some?
    {
      var text, after := s[start + 1..at], s[at + 1..];
      assert s == s[..start] + ("<" + text + ">" + after) && |s[..start]| == start;
      AngleScannedIff(s[..start], text, after);
    }
  }

  lemma {:induction false} UnclosedAngleIff(s: string, kind: NodeKind, o: nat, start: nat)
    requires start < |s| && s[start] == '<' && o < start
    ensures IsUnclosedAngle(s, o, start) <==> SkipSpace(s, o + 1) == start && AngleEnd(s, start + 1).None?
  {
    SpacesTo(s, o + 1, start);
    UnclosedIff(s, start);
  }

  lemma {:induction false} AngleErrorFound(s: string, kind: NodeKind)
    requires FindDestination(s, kind) == Failure(NoAngleEnd)
    ensures IsScanError(s, kind, NoAngleEnd)
  {
    FoundFromOpener(s, kind);
    var open := FoundIsLabelAt(s);
    var close := FindLabelEnd(s).value;
    var o := OpenerAt(s, kind, close);
    var start := SkipSpace(s, o + 1);
    OpenerIff(s, kind, close, o);
    UnclosedAngleIff(s, kind, o, start);
  }

  lemma {:induction false} AngleErrorReported(
    s: string, kind: NodeKind, open: nat, close: nat, o: nat, start: nat)
    requires IsLabelAt(s, open, close) && IsOpenerAt(s, kind, close, o) && IsUnclosedAngle(s, o, start)
    ensures FindDestination(s, kind) == Failure(NoAngleEnd)
  {
    LabelAtIsFound(s, open, close);
    OpenerIff(s, kind, close, o);
    UnclosedAngleIff(s, kind, o, start);
    FoundFromOpener(s, kind);
  }

  lemma {:induction false} NoLabelMeaning(s: string, kind: NodeKind)
    ensures FindDestination(s, kind) == Failure(NoLabelEnd) <==> IsScanError(s, kind, NoLabelEnd)
  {
    if FindLabelEnd(s).Some? {
      var open := FoundIsLabelAt(s);
    } else {
      forall open: nat, close: nat
        ensures !IsLabelAt(s, open, close)
      {
        if IsLabelAt(s, open, close) { LabelAtIsFound(s, open, close); }
      }
    }
  }

  lemma {:induction false} AfterLabelMeaning(s: string, kind: NodeKind, e: ScanError)
    requires FindLabelEnd(s).Some? && (e == NoSeparator || e == NoInlineDestination)
    ensures FindDestination(s, kind) == Failure(e) <==>
      var close := FindLabelEnd(s).value;
      if e == NoSeparator then kind == Definition && ':' !in s[close + 1..]
      else kind != Definition && !(close + 1 < |s| && s[close + 1] == '(')
  {
    ColonInRest(s, FindLabelEnd(s).value);
  }

  lemma {:induction false} LabelErrorMeaning(s: string, kind: NodeKind, e: ScanError)
    requires e == NoSeparator || e == NoInlineDestination
    ensures FindDestination(s, kind) == Failure(e) <==> IsScanError(s, kind, e)
  {
    if FindLabelEnd(s).Some? {
      var at := FoundIsLabelAt(s);
      AfterLabelMeaning(s, kind, e);
    }
    forall open: nat, close: nat | IsLabelAt(s, open, close)
      ensures FindLabelEnd(s) == Some(close)
    {
      LabelAtIsFound(s, open, close);
    }
  }

  lemma {:induction false} ColonInRest(s: string, close: nat)
    requires close < |s|
    ensures FirstAt(s, ':', close + 1) == |s| <==> ':' !in s[close + 1..]
  {
    var colon := FirstAt(s, ':', close + 1);
    if colon < |s| { assert s[close + 1..][colon - close - 1] == ':'; }
    else { assert s[close + 1..colon] == s[close + 1..]; }
  }

  /** The error is the one the source gives cause for. */
  lemma {:induction false} ScanErrorIff(s: string, kind: NodeKind, e: ScanError)
    ensures FindDestination(s, kind) == Failure(e) <==> IsScanError(s, kind, e)
  {
    if e == NoLabelEnd {
      NoLabelMeaning(s, kind);
    } else if e != NoAngleEnd {
      LabelErrorMeaning(s, kind, e);
    } else if FindDestination(s, kind) == Failure(e) {
      AngleErrorFound(s, kind);
    } else if IsScanError(s, kind, e) {
      var open: nat, close: nat, o: nat, start: nat :|
        IsLabelAt(s, open, close) && IsOpenerAt(s, kind, close, o) && IsUnclosedAngle(s, o, start);
      AngleErrorReported(s, kind, open, close, o, start);
    }
  }
}
