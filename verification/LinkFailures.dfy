/** Valid Markdown on which links are rewritten wrongly. */
module LinkFailures {
  import opened Wrappers
  import opened Strings
  import opened Sequences
  import opened LinkScan
  import opened LinkDestinations
  import opened LinkRewriting

  // ---------------------------------------------------------------------
  // Labels that are not paired up
  // ---------------------------------------------------------------------

  /** `[![a](b](c))](d)`: the image's destination `b](c)` is valid Markdown and
      closes the label's bracket too early, so the two ranges overlap. */
  lemma UnpairedLabelsOverlap()
    ensures DestinationOf(UNPAIRED, Node(Link, 0, 16, Some("u"))) == Success(Range(9, 10))
    ensures DestinationOf(UNPAIRED, Node(Image, 1, 12, Some("v"))) == Success(Range(6, 11))
  {
    assert UNPAIRED[0..16] == UNPAIRED;
    UnpairedLink();
    assert UNPAIRED[1..12] == UNPAIRED_IMAGE;
    UnpairedImage();
  }

  /** Given `u` for the link and `v` for the image, the page loses `u` and the
      link keeps its old destination. */
  lemma {:induction false} UnpairedLabelsMisplaced()
    ensures Rewritten(UNPAIRED, [Node(Link, 0, 16, Some("u")), Node(Image, 1, 12, Some("v"))]) ==
            Success("[![a](" + "v" + ")](d)")
  {
    var link, image := Node(Link, 0, 16, Some("u")), Node(Image, 1, 12, Some("v"));
    var r, s := Replacement(9, 10, "u"), Replacement(6, 11, "v");
    UnpairedLabelsOverlap();
    TwoReplacements(UNPAIRED, link, image, r, s);
    OverlappingSplices(UNPAIRED, r, s);
    UnpairedEnds();
  }

  lemma UnpairedEnds()
    ensures UNPAIRED[..6] == "[![a](" && UNPAIRED[11..] == ")](d)" && |UNPAIRED| == 16
  {
  }

  lemma {:induction false} TwoReplacements(source: string, a: Node, b: Node, r: Replacement, s: Replacement)
    requires a.start <= a.end <= |source| && b.start <= b.end <= |source| && a.value.Some? && b.value.Some?
    requires ReplacementOf(source, a) == Success(r) && ReplacementOf(source, b) == Success(s) && r.start >= s.start
    ensures Rewritten(source, [a, b]) == Success(Splice(Splice(source, r), s))
  {
    assert [a, b][1..] == [b] && [b][1..] == [];
    assert Replacements(source, [b]) == Success([s] + []) && [s] + [] == [s];
    assert Replacements(source, [a, b]) == Success([r] + [s]) && [r] + [s] == [r, s];
    TwoSorted(r, s);
    TwoSplices(source, r, s);
  }

  lemma {:induction false} TwoSorted(r: Replacement, s: Replacement)
    requires r.start >= s.start
    ensures Sorted(LaterFirst, [r, s]) == [r, s]
  {
    assert [r, s][1..] == [s] && [s][1..] == [];
    assert Sorted(LaterFirst, [s]) == [s] + [] == [s];
    assert [r] + [s] == [r, s];
  }

  lemma {:induction false} TwoSplices(source: string, r: Replacement, s: Replacement)
    ensures SpliceAll(source, [r, s]) == Splice(Splice(source, r), s)
  {
    assert [r, s][1..] == [s] && [s][1..] == [];
    assert SpliceAll(Splice(source, r), [s]) == SpliceAll(Splice(Splice(source, r), s), []);
  }

  /** A later range inside an earlier one is lost under it. */
  lemma OverlappingSplices(source: string, r: Replacement, s: Replacement)
    requires s.start <= r.start <= r.end <= s.end <= |source| && |r.value| == r.end - r.start
    ensures Splice(Splice(source, r), s) == source[..s.start] + s.value + source[s.end..]
  {
    var once := source[..r.start] + r.value + source[r.end..];
    assert once[..s.start] == source[..s.start];
    assert once[s.end..] == source[s.end..];
  }

  const UNPAIRED := "[![a](b](c))](d)"
  const UNPAIRED_IMAGE := "![a](b](c))"

  lemma {:induction false} UnpairedLink()
    ensures FindDestination(UNPAIRED, Link) == Success(Range(9, 10))
  {
    UnpairedLabel();
    assert SkipSpace(UNPAIRED, 9) == 9;
    assert BareEnd(UNPAIRED, 9, 0) == BareEnd(UNPAIRED, 10, 0) == 10;
  }

  lemma {:induction false} UnpairedLabel()
    ensures FindLabelEnd(UNPAIRED) == Some(7)
  {
    assert FirstAt(UNPAIRED, '[', 0) == 0;
    assert Closing(UNPAIRED, 5, 1) == Closing(UNPAIRED, 6, 1) == Closing(UNPAIRED, 7, 1) == Some(7);
    assert Closing(UNPAIRED, 1, 1) == Closing(UNPAIRED, 2, 1) == Closing(UNPAIRED, 3, 2) == Closing(UNPAIRED, 4, 2);
  }

  lemma {:induction false} UnpairedImage()
    ensures FindDestination(UNPAIRED_IMAGE, Image) == Success(Range(5, 10))
  {
    assert FirstAt(UNPAIRED_IMAGE, '[', 0) == FirstAt(UNPAIRED_IMAGE, '[', 1) == 1;
    assert Closing(UNPAIRED_IMAGE, 2, 1) == Closing(UNPAIRED_IMAGE, 3, 1) == Some(3);
    assert BareEnd(UNPAIRED_IMAGE, 8, 1) == BareEnd(UNPAIRED_IMAGE, 9, 1) == BareEnd(UNPAIRED_IMAGE, 10, 0) == 10;
    assert BareEnd(UNPAIRED_IMAGE, 5, 0) == BareEnd(UNPAIRED_IMAGE, 6, 0) == BareEnd(UNPAIRED_IMAGE, 7, 0);
  }

  // ---------------------------------------------------------------------
  // A bracket in a code span
  // ---------------------------------------------------------------------

  const CODE_SPAN := "[`](y)`](x)"

  /** The link's caption is the code span, as code spans bind tighter. */
  const CODE_SPAN_LINK := Syntax("", "`](y)`", "", false, "x", ")")

  lemma {:induction false} CodeSpanParsed()
    ensures IsParsed(CODE_SPAN, Node(Link, 0, 11, Some("u")), CODE_SPAN_LINK)
  {
    assert CODE_SPAN[0..11] == CODE_SPAN;
    assert LinkHead("", "`](y)`", Link, "") == "[`](y)`](";
  }

  lemma {:induction false} CodeSpanScanned()
    ensures FindLabelEnd(CODE_SPAN) == Some(2) && FindDestination(CODE_SPAN, Link) == Success(Range(4, 5))
  {
    assert FirstAt(CODE_SPAN, '[', 0) == 0;
    assert Closing(CODE_SPAN, 1, 1) == Closing(CODE_SPAN, 2, 1) == Some(2);
    assert SkipSpace(CODE_SPAN, 4) == 4;
    assert BareEnd(CODE_SPAN, 4, 0) == BareEnd(CODE_SPAN, 5, 0) == 5;
  }

  /** A single link: its label is taken to end inside the code span, the text
      there is replaced, and the link keeps its destination. */
  lemma {:induction false} CodeSpanMisplaced()
    ensures var link := Node(Link, 0, 11, Some("u"));
      && IsParsed(CODE_SPAN, link, CODE_SPAN_LINK) && !LabelIsClear(CODE_SPAN_LINK.caption, Link)
      && Rewritten(CODE_SPAN, [link]) == Success("[`](u)`](x)")
  {
    CodeSpanParsed();
    CodeSpanScanned();
    CodeSpanNotGotOver();
    CodeSpanRewritten();
  }

  lemma {:induction false} CodeSpanRewritten()
    requires FindDestination(CODE_SPAN, Link) == Success(Range(4, 5))
    ensures Rewritten(CODE_SPAN, [Node(Link, 0, 11, Some("u"))]) == Success("[`](u)`](x)")
  {
    assert CODE_SPAN[0..11] == CODE_SPAN;
    OneReplacement(CODE_SPAN, Node(Link, 0, 11, Some("u")), Replacement(4, 5, "u"));
    CodeSpanEnds();
  }

  lemma {:induction false} CodeSpanNotGotOver()
    requires FindLabelEnd(CODE_SPAN) == Some(2)
    ensures !LabelIsClear(CODE_SPAN_LINK.caption, Link)
  {
    var caption := CODE_SPAN_LINK.caption;
    assert "" + "[" + caption + "]" + "(x)" == CODE_SPAN && |caption| == 6;
    LabelEndFoundIff("", caption, "(x)");
  }

  lemma CodeSpanEnds()
    ensures CODE_SPAN[..4] + "u" + CODE_SPAN[5..] == "[`](u)`](x)" && |CODE_SPAN| == 11
  {
  }
}
