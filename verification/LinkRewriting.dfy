/** Rewriting link destinations in place: the destinations are located in the
    nodes' source text and replaced from the last to the first. */
module LinkRewriting {
  import opened Wrappers
  import opened Sequences
  import opened LinkScan
  import opened LinkDestinations

  /** A node with its offsets; `value` is its new destination, absent when the
      link stays as it is. */
  datatype Node = Node(kind: NodeKind, start: nat, end: nat, value: Option<string>)

  datatype Replacement = Replacement(start: nat, end: nat, value: string)

  ghost predicate InRange(source: string, nodes: seq<Node>) {
    forall n :: n in nodes ==> n.start <= n.end <= |source|
  }

  function RawNode(source: string, n: Node): string
    requires n.start <= n.end <= |source|
  {
    source[n.start..n.end]
  }

  /** Where in the whole source a node's destination lies. */
  function DestinationOf(source: string, n: Node): Result<Range, ScanError>
    requires n.start <= n.end <= |source|
  {
    match FindDestination(RawNode(source, n), n.kind)
    case Failure(e) => Failure(e)
    case Success(r) => Success(Range(n.start + r.start, n.start + r.end))
  }

  /** The replacements in visiting order, or the first failure. */
  function Replacements(source: string, nodes: seq<Node>): Result<seq<Replacement>, ScanError>
    requires forall n :: n in nodes ==> n.start <= n.end <= |source|
  {
    if nodes == [] then Success([])
    else if nodes[0].value.None? then Replacements(source, nodes[1..])
    else
      match ReplacementOf(source, nodes[0])
      case Failure(e) => Failure(e)
      case Success(r) => After([r], Replacements(source, nodes[1..]))
  }

  function ReplacementOf(source: string, n: Node): Result<Replacement, ScanError>
    requires n.start <= n.end <= |source| && n.value.Some?
  {
    match DestinationOf(source, n)
    case Failure(e) => Failure(e)
    case Success(r) => Success(Replacement(r.start, r.end, n.value.value))
  }

  function After(first: seq<Replacement>, rest: Result<seq<Replacement>, ScanError>): Result<seq<Replacement>, ScanError> {
    match rest
    case Failure(e) => Failure(e)
    case Success(more) => Success(first + more)
  }

  lemma AfterBoth(first: seq<Replacement>, second: seq<Replacement>, rest: Result<seq<Replacement>, ScanError>)
    ensures After(first, After(second, rest)) == After(first + second, rest)
  {
    if rest.Success? { assert first + (second + rest.value) == first + second + rest.value; }
  }

  lemma AfterNothing(rest: Result<seq<Replacement>, ScanError>)
    ensures After([], rest) == rest
  {
    if rest.Success? { assert [] + rest.value == rest.value; }
  }

  /** The link at `k` is the first of those to be replaced that fails. */
  ghost predicate FailsFirst(source: string, nodes: seq<Node>, k: int)
    requires InRange(source, nodes)
  {
    && 0 <= k < |nodes| && nodes[k].value.Some? && DestinationOf(source, nodes[k]).Failure?
    && forall j :: 0 <= j < k && nodes[j].value.Some? ==> DestinationOf(source, nodes[j]).Success?
  }

  /** The error of a page is that of its first failing link. */
  lemma {:induction false} FirstFailureReported(source: string, nodes: seq<Node>)
    requires InRange(source, nodes)
    ensures Replacements(source, nodes).Failure? <==> exists k :: FailsFirst(source, nodes, k)
    ensures forall k :: FailsFirst(source, nodes, k) ==>
      Replacements(source, nodes) == Failure(DestinationOf(source, nodes[k]).error)
    decreases |nodes|
  {
    if nodes != [] {
      var rest := nodes[1..];
      FirstFailureReported(source, rest);
      if nodes[0].value.Some? && DestinationOf(source, nodes[0]).Failure? {
        assert FailsFirst(source, nodes, 0);
      } else {
        forall k | FailsFirst(source, nodes, k)
          ensures FailsFirst(source, rest, k - 1)
        {
          assert forall j :: 0 <= j < k - 1 ==> rest[j] == nodes[j + 1];
        }
        forall k | FailsFirst(source, rest, k)
          ensures FailsFirst(source, nodes, k + 1)
        {
          assert forall j :: 0 < j < |nodes| ==> nodes[j] == rest[j - 1];
        }
      }
    }
  }

  function Clamp(i: nat, text: string): nat {
    if i <= |text| then i else |text|
  }

  /** Slices beyond the end of the text are cut off at the end. */
  function Splice(text: string, r: Replacement): string {
    text[..Clamp(r.start, text)] + r.value + text[Clamp(r.end, text)..]
  }

  predicate LaterFirst(a: Replacement, b: Replacement) {
    a.start >= b.start
  }

  /** Each starts where or after the next one ends: ordered and not overlapping. */
  ghost predicate Descending(rs: seq<Replacement>, bound: nat) {
    && (forall i :: 0 <= i < |rs| ==> rs[i].start <= rs[i].end <= bound)
    && (forall i, j :: 0 <= i < j < |rs| ==> rs[j].end <= rs[i].start)
  }

  /** All replacements made at once on the first `to` characters: between the
      ranges the source is kept, each range gives way to its value. */
  ghost function Substituted(source: string, rs: seq<Replacement>, to: nat): string
    requires to <= |source| && Descending(rs, to)
  {
    if rs == [] then source[..to]
    else Substituted(source, rs[1..], rs[0].start) + rs[0].value + source[rs[0].end..to]
  }

  /** No two ranges share a character, and no two start together. */
  ghost predicate Disjoint(rs: seq<Replacement>) {
    forall i, j :: 0 <= i < |rs| && 0 <= j < |rs| && i != j ==>
      rs[i].start != rs[j].start && (rs[i].start < rs[j].start ==> rs[i].end <= rs[j].start)
  }

  /** Splicing one after the other, each at its original offsets. */
  function SpliceAll(text: string, rs: seq<Replacement>): string
    decreases |rs|
  {
    if rs == [] then text else SpliceAll(Splice(text, rs[0]), rs[1..])
  }

  /** While earlier ranges remain, the text before them is still the source, so
      their offsets still hold: splicing is simultaneous substitution. */
  lemma {:induction false} SplicingIsSubstituting(source: string, rs: seq<Replacement>, to: nat, tail: string)
    requires to <= |source| && Descending(rs, to)
    ensures SpliceAll(source[..to] + tail, rs) == Substituted(source, rs, to) + tail
    decreases |rs|
  {
    if rs != [] {
      var r := rs[0];
      var more := r.value + source[r.end..to] + tail;
      SpliceBefore(source, r, to, tail);
      SplicingIsSubstituting(source, rs[1..], r.start, more);
      Regrouped(Substituted(source, rs[1..], r.start), r.value, source[r.end..to], tail);
    }
  }

  lemma Regrouped(a: string, b: string, c: string, d: string)
    ensures a + b + c + d == a + (b + c + d)
  {
  }

  lemma {:induction false} SpliceBefore(source: string, r: Replacement, to: nat, tail: string)
    requires r.start <= r.end <= to <= |source|
    ensures Splice(source[..to] + tail, r) == source[..r.start] + (r.value + source[r.end..to] + tail)
  {
    var text := source[..to] + tail;
    assert text[..r.start] == source[..r.start] && text[r.end..] == source[r.end..to] + tail;
  }

  lemma SortedIsDescending(rs: seq<Replacement>, sorted: seq<Replacement>, bound: nat)
    requires Disjoint(rs) && forall r :: r in rs ==> r.start <= r.end <= bound
    requires multiset(sorted) == multiset(rs) && IsSorted(LaterFirst, sorted)
    ensures Descending(sorted, bound)
  {
    PermutedNoDuplicates(rs, sorted);
    forall i, j | 0 <= i < j < |sorted|
      ensures sorted[j].end <= sorted[i].start
    {
      assert sorted[i] in rs && sorted[j] in rs && LaterFirst(sorted[i], sorted[j]);
      var a :| 0 <= a < |rs| && rs[a] == sorted[i];
      var b :| 0 <= b < |rs| && rs[b] == sorted[j];
    }
  }

  ghost predicate Falling(rs: seq<Replacement>) {
    forall i, j :: 0 <= i < j < |rs| ==> rs[i].start > rs[j].start
  }

  lemma {:induction false} FallingUnique(rs: seq<Replacement>, ss: seq<Replacement>)
    requires Falling(rs) && Falling(ss) && forall r :: r in rs <==> r in ss
    ensures rs == ss
  {
    if rs == [] {
      if ss != [] { Inhabited(ss); }
    } else {
      assert rs[0] in ss && rs[0] in rs;
      HeadsAgree(rs, ss);
      forall r
        ensures r in rs[1..] <==> r in ss[1..]
      {
        TailMember(rs, r);
        TailMember(ss, r);
      }
      FallingUnique(rs[1..], ss[1..]);
    }
  }

  lemma Inhabited(rs: seq<Replacement>)
    requires rs != []
    ensures exists r :: r in rs
  {
    assert rs[0] in rs;
  }

  lemma TailMember(rs: seq<Replacement>, r: Replacement)
    requires rs != [] && Falling(rs)
    ensures r in rs[1..] <==> r in rs && r != rs[0]
  {
  }

  lemma HeadsAgree(rs: seq<Replacement>, ss: seq<Replacement>)
    requires rs != [] && ss != [] && Falling(rs) && Falling(ss)
    requires rs[0] in ss && ss[0] in rs
    ensures rs[0] == ss[0]
  {
  }

  lemma SortedIsFalling(rs: seq<Replacement>)
    requires Disjoint(rs)
    ensures Falling(Sorted(LaterFirst, rs)) && forall r :: r in Sorted(LaterFirst, rs) <==> r in rs
  {
    var sorted := Sorted(LaterFirst, rs);
    SortedSorts(LaterFirst, rs);
    PermutedNoDuplicates(rs, sorted);
    forall i, j | 0 <= i < j < |sorted|
      ensures sorted[i].start > sorted[j].start
    {
      assert LaterFirst(sorted[i], sorted[j]) && sorted[i] in rs && sorted[j] in rs;
    }
  }

  lemma {:induction false} ReplacementsInRange(source: string, nodes: seq<Node>)
    requires InRange(source, nodes) && Replacements(source, nodes).Success?
    ensures forall r :: r in Replacements(source, nodes).value ==> r.start <= r.end <= |source|
  {
    if nodes != [] { ReplacementsInRange(source, nodes[1..]); }
  }

  /** All replacements made at once. */
  ghost function Simultaneous(source: string, rs: seq<Replacement>): string
    requires Disjoint(rs) && forall r :: r in rs ==> r.start <= r.end <= |source|
  {
    var ordered := Sorted(LaterFirst, rs);
    SortedSorts(LaterFirst, rs);
    SortedIsDescending(rs, ordered, |source|);
    Substituted(source, ordered, |source|)
  }

  /** The result does not depend on the order in which links are visited. */
  lemma VisitingOrderIsIrrelevant(source: string, rs: seq<Replacement>, ss: seq<Replacement>)
    requires Disjoint(rs) && Disjoint(ss) && multiset(rs) == multiset(ss)
    requires forall r :: r in rs ==> r.start <= r.end <= |source|
    requires forall r :: r in ss ==> r.start <= r.end <= |source|
    ensures Simultaneous(source, rs) == Simultaneous(source, ss)
  {
    SortedIsFalling(rs);
    SortedIsFalling(ss);
    forall r
      ensures r in rs <==> r in ss
    {
      assert r in multiset(rs) <==> r in multiset(ss);
    }
    FallingUnique(Sorted(LaterFirst, rs), Sorted(LaterFirst, ss));
  }

  lemma {:induction false} SplicedAtOnce(source: string, rs: seq<Replacement>)
    requires Disjoint(rs) && forall r :: r in rs ==> r.start <= r.end <= |source|
    ensures SpliceAll(source, Sorted(LaterFirst, rs)) == Simultaneous(source, rs)
  {
    var ordered := Sorted(LaterFirst, rs);
    SortedSorts(LaterFirst, rs);
    SortedIsDescending(rs, ordered, |source|);
    SplicingIsSubstituting(source, ordered, |source|, []);
    assert source[..|source|] + [] == source;
    assert Substituted(source, ordered, |source|) + [] == Substituted(source, ordered, |source|);
  }

  method LocateReplacement(source: string, n: Node) returns (r: Result<Replacement, ScanError>)
    requires n.start <= n.end <= |source| && n.value.Some?
    ensures r == ReplacementOf(source, n)
  {
    var destination := DestinationRange(RawNode(source, n), n.kind);
    if destination.Failure? { return Failure(destination.error); }
    return Success(Replacement(n.start + destination.value.start, n.start + destination.value.end, n.value.value));
  }

  lemma OneMoreNode(source: string, nodes: seq<Node>, k: nat, found: seq<Replacement>)
    requires InRange(source, nodes) && k < |nodes|
    ensures After(found, Replacements(source, nodes[k..])) ==
      if nodes[k].value.None? then After(found, Replacements(source, nodes[k + 1..]))
      else match ReplacementOf(source, nodes[k])
           case Failure(e) => Failure(e)
           case Success(r) => After(found + [r], Replacements(source, nodes[k + 1..]))
  {
    assert nodes[k..][1..] == nodes[k + 1..];
    if nodes[k].value.Some? && ReplacementOf(source, nodes[k]).Success? {
      AfterBoth(found, [ReplacementOf(source, nodes[k]).value], Replacements(source, nodes[k + 1..]));
    }
  }

  method CollectReplacements(source: string, nodes: seq<Node>) returns (r: Result<seq<Replacement>, ScanError>)
    requires InRange(source, nodes)
    ensures r == Replacements(source, nodes)
  {
    var replacements: seq<Replacement> := [];
    assert nodes[0..] == nodes;
    AfterNothing(Replacements(source, nodes));
    for k := 0 to |nodes|
      invariant Replacements(source, nodes) == After(replacements, Replacements(source, nodes[k..]))
    {
      OneMoreNode(source, nodes, k, replacements);
      if nodes[k].value.Some? {
        var located := LocateReplacement(source, nodes[k]);
        if located.Failure? { return Failure(located.error); }
        replacements := replacements + [located.value];
      }
    }
    assert nodes[|nodes|..] == [] && replacements + [] == replacements;
    return Success(replacements);
  }

  // ---------------------------------------------------------------------
  // Links in the labels of others
  // ---------------------------------------------------------------------

  /** When a link's label is paired-up text, nothing inside the label overlaps
      the link's own destination. */
  lemma NestedDestinationsApart(source: string, link: Node, child: Node, before: string, inside: seq<Piece>, after: string)
    requires link.start <= link.end <= |source| && child.start <= child.end <= |source|
    requires '[' !in before && WellFormed(inside, '[', ']')
    requires RawNode(source, link) == before + "[" + Text(inside, '[', ']') + "]" + after
    requires link.start <= child.start && child.end <= link.start + |before| + 1 + |Text(inside, '[', ']')|
    requires DestinationOf(source, link).Success? && DestinationOf(source, child).Success?
    ensures DestinationOf(source, child).value.end < DestinationOf(source, link).value.start
  {
    LabelEndFindsMatch(before, inside, after);
  }

  ghost predicate Apart(a: Node, b: Node) {
    a.end <= b.start || b.end <= a.start
  }

  /** The child lies in the link's label, and the label is paired-up text. */
  ghost predicate InLabel(source: string, link: Node, child: Node)
    requires link.start <= link.end <= |source|
  {
    exists before, inside, after :: IsLabel(RawNode(source, link), before, inside, after)
      && link.start <= child.start && child.end <= link.start + |before| + 1 + |Text(inside, '[', ']')|
  }

  ghost predicate IsLabel(raw: string, before: string, inside: seq<Piece>, after: string) {
    '[' !in before && WellFormed(inside, '[', ']') && raw == before + "[" + Text(inside, '[', ']') + "]" + after
  }

  ghost predicate FitTogether(source: string, a: Node, b: Node)
    requires a.start <= a.end <= |source| && b.start <= b.end <= |source|
  {
    Apart(a, b) || InLabel(source, a, b) || InLabel(source, b, a)
  }

  /** Any two links to be replaced are apart or one is in the other's label. */
  ghost predicate NodesFit(source: string, nodes: seq<Node>)
    requires InRange(source, nodes)
  {
    forall i, j :: 0 <= i < j < |nodes| && nodes[i].value.Some? && nodes[j].value.Some? ==>
      FitTogether(source, nodes[i], nodes[j])
  }

  ghost predicate RangesApart(r: Replacement, s: Replacement) {
    r.start != s.start && (r.start < s.start ==> r.end <= s.start) && (s.start < r.start ==> s.end <= r.start)
  }

  lemma FittingRangesApart(source: string, a: Node, b: Node)
    requires a.start <= a.end <= |source| && b.start <= b.end <= |source| && a.value.Some? && b.value.Some?
    requires FitTogether(source, a, b) && ReplacementOf(source, a).Success? && ReplacementOf(source, b).Success?
    ensures RangesApart(ReplacementOf(source, a).value, ReplacementOf(source, b).value)
  {
    if !Apart(a, b) {
      if InLabel(source, a, b) { ChildBefore(source, a, b); } else { ChildBefore(source, b, a); }
    }
  }

  lemma ChildBefore(source: string, link: Node, child: Node)
    requires link.start <= link.end <= |source| && child.start <= child.end <= |source|
    requires InLabel(source, link, child)
    requires DestinationOf(source, link).Success? && DestinationOf(source, child).Success?
    ensures DestinationOf(source, child).value.end < DestinationOf(source, link).value.start
  {
    var before, inside, after :| IsLabel(RawNode(source, link), before, inside, after)
      && link.start <= child.start && child.end <= link.start + |before| + 1 + |Text(inside, '[', ']')|;
    NestedDestinationsApart(source, link, child, before, inside, after);
  }

  lemma {:induction false} ReplacementSource(source: string, nodes: seq<Node>, r: Replacement) returns (i: nat)
    requires InRange(source, nodes) && Replacements(source, nodes).Success? && r in Replacements(source, nodes).value
    ensures i < |nodes| && nodes[i].value.Some? && ReplacementOf(source, nodes[i]) == Success(r)
    decreases |nodes|
  {
    if nodes[0].value.Some? && ReplacementOf(source, nodes[0]).value == r {
      i := 0;
    } else {
      i := ReplacementSource(source, nodes[1..], r);
      i := i + 1;
    }
  }

  lemma DisjointMore(r: Replacement, rs: seq<Replacement>)
    requires Disjoint(rs) && forall s :: s in rs ==> RangesApart(r, s)
    ensures Disjoint([r] + rs)
  {
    var all := [r] + rs;
    forall i, j | 0 <= i < |all| && 0 <= j < |all| && i != j
      ensures RangesApart(all[i], all[j])
    {
      if i > 0 && j > 0 {
        assert all[i] == rs[i - 1] && all[j] == rs[j - 1];
      } else if i > 0 {
        assert all[i] == rs[i - 1] && rs[i - 1] in rs;
      } else {
        assert all[j] == rs[j - 1] && rs[j - 1] in rs;
      }
    }
  }

  /** The ranges to be replaced share nothing when the links fit together. */
  lemma {:induction false} FittingNodesAreDisjoint(source: string, nodes: seq<Node>)
    requires InRange(source, nodes) && NodesFit(source, nodes) && Replacements(source, nodes).Success?
    ensures Disjoint(Replacements(source, nodes).value)
    decreases |nodes|
  {
    if nodes != [] {
      FittingNodesAreDisjoint(source, nodes[1..]);
      if nodes[0].value.Some? {
        var r, rest := ReplacementOf(source, nodes[0]).value, Replacements(source, nodes[1..]).value;
        forall s | s in rest
          ensures RangesApart(r, s)
        {
          var i := ReplacementSource(source, nodes[1..], s);
          assert nodes[1..][i] == nodes[i + 1] && FitTogether(source, nodes[0], nodes[i + 1]);
          FittingRangesApart(source, nodes[0], nodes[i + 1]);
        }
        DisjointMore(r, rest);
      }
    }
  }

  /** The rewritten page: all splices, from the last range to the first. */
  function Rewritten(source: string, nodes: seq<Node>): Result<string, ScanError>
    requires forall n :: n in nodes ==> n.start <= n.end <= |source|
  {
    match Replacements(source, nodes)
    case Failure(e) => Failure(e)
    case Success(rs) => Success(SpliceAll(source, Sorted(LaterFirst, rs)))
  }

  // ---------------------------------------------------------------------
  // The real destinations
  // ---------------------------------------------------------------------

  /** The node's source has these parts. */
  ghost predicate IsParsed(source: string, n: Node, x: Syntax)
    requires n.start <= n.end <= |source|
  {
    IsSyntax(x) && RawNode(source, n) == SourceOf(x, n.kind)
  }

  ghost predicate AreParsed(source: string, nodes: seq<Node>, xs: seq<Syntax>)
    requires InRange(source, nodes)
  {
    |xs| == |nodes| && forall i :: 0 <= i < |nodes| && nodes[i].value.Some? ==> IsParsed(source, nodes[i], xs[i])
  }

  ghost predicate AreFindable(nodes: seq<Node>, xs: seq<Syntax>)
    requires |xs| == |nodes|
  {
    forall i :: 0 <= i < |nodes| && nodes[i].value.Some? ==> IsFindable(xs[i], nodes[i].kind)
  }

  function RealReplacement(n: Node, x: Syntax): Replacement
    requires n.value.Some?
  {
    var r := DestinationAt(x, n.kind);
    Replacement(n.start + r.start, n.start + r.end, n.value.value)
  }

  /** The destinations the parts give, with their new values. */
  function RealReplacements(nodes: seq<Node>, xs: seq<Syntax>): seq<Replacement>
    requires |xs| == |nodes|
  {
    if nodes == [] then []
    else
      var rest := RealReplacements(nodes[1..], xs[1..]);
      if nodes[0].value.None? then rest else [RealReplacement(nodes[0], xs[0])] + rest
  }

  lemma {:induction false} RealLocated(source: string, n: Node, x: Syntax)
    requires n.start <= n.end <= |source| && n.value.Some?
    ensures ReplacementOf(source, n) == Success(RealReplacement(n, x)) <==>
      FindDestination(RawNode(source, n), n.kind) == Success(DestinationAt(x, n.kind))
  {
    ShiftedIff(source, n, DestinationAt(x, n.kind));
  }

  lemma {:induction false} RawFound(source: string, n: Node, x: Syntax)
    requires n.start <= n.end <= |source| && IsParsed(source, n, x)
    ensures FindDestination(RawNode(source, n), n.kind) == Success(DestinationAt(x, n.kind)) <==>
      IsFindable(x, n.kind)
  {
    DestinationFoundIff(x, n.kind);
  }

  lemma ShiftedIff(source: string, n: Node, r: Range)
    requires n.start <= n.end <= |source| && n.value.Some?
    ensures ReplacementOf(source, n) == Success(Replacement(n.start + r.start, n.start + r.end, n.value.value)) <==>
      FindDestination(RawNode(source, n), n.kind) == Success(r)
  {
  }

  /** Exactly the real destinations are located exactly when the scan gets over
      every label. */
  lemma {:induction false} LocatedIff(source: string, nodes: seq<Node>, xs: seq<Syntax>)
    requires InRange(source, nodes) && AreParsed(source, nodes, xs)
    ensures Replacements(source, nodes) == Success(RealReplacements(nodes, xs)) <==> AreFindable(nodes, xs)
    decreases |nodes|
  {
    if nodes != [] {
      LocatedIff(source, nodes[1..], xs[1..]);
      FindableParts(nodes, xs);
      if nodes[0].value.Some? {
        RawFound(source, nodes[0], xs[0]);
        RealLocated(source, nodes[0], xs[0]);
        var first, rest := ReplacementOf(source, nodes[0]), Replacements(source, nodes[1..]);
        if first.Success? && rest.Success? {
          SameSeq(first.value, rest.value, RealReplacement(nodes[0], xs[0]), RealReplacements(nodes[1..], xs[1..]));
        }
      }
    }
  }

  lemma SameSeq(r: Replacement, rs: seq<Replacement>, s: Replacement, ss: seq<Replacement>)
    ensures [r] + rs == [s] + ss <==> r == s && rs == ss
  {
    assert ([r] + rs)[1..] == rs && ([s] + ss)[1..] == ss && ([r] + rs)[0] == r && ([s] + ss)[0] == s;
  }

  lemma FindableParts(nodes: seq<Node>, xs: seq<Syntax>)
    requires |xs| == |nodes| > 0
    ensures AreFindable(nodes, xs) <==>
      (nodes[0].value.Some? ==> IsFindable(xs[0], nodes[0].kind)) && AreFindable(nodes[1..], xs[1..])
  {
    if AreFindable(nodes[1..], xs[1..]) {
      assert forall i :: 0 < i < |nodes| ==> nodes[i] == nodes[1..][i - 1] && xs[i] == xs[1..][i - 1];
    }
  }

  /** The child lies in the caption of the link or image. */
  predicate InCaption(link: Node, x: Syntax, child: Node) {
    var start := link.start + |x.before| + 1;
    link.kind != Definition && start <= child.start && child.end <= start + |x.caption|
  }

  /** Any two links to be replaced are apart or one is in the other's caption. */
  ghost predicate AreNested(nodes: seq<Node>, xs: seq<Syntax>)
    requires |xs| == |nodes|
  {
    forall i, j :: 0 <= i < j < |nodes| && nodes[i].value.Some? && nodes[j].value.Some? ==>
      Apart(nodes[i], nodes[j]) || InCaption(nodes[i], xs[i], nodes[j]) || InCaption(nodes[j], xs[j], nodes[i])
  }

  lemma CaptionIsLabel(source: string, link: Node, x: Syntax, child: Node)
    requires link.start <= link.end <= |source| && IsParsed(source, link, x) && IsFindable(x, link.kind)
    requires InCaption(link, x, child)
    ensures InLabel(source, link, child)
  {
    var inside :| WellFormed(inside, '[', ']') && Text(inside, '[', ']') == x.caption;
    var front, opener := x.before + "[" + x.caption + "]", [Opener(link.kind)] + x.space;
    Regroup(front, opener, Tail(x));
    assert IsLabel(RawNode(source, link), x.before, inside, opener + Tail(x));
  }

  lemma NestedNodesFit(source: string, nodes: seq<Node>, xs: seq<Syntax>)
    requires InRange(source, nodes) && AreParsed(source, nodes, xs) && AreNested(nodes, xs) && AreFindable(nodes, xs)
    ensures NodesFit(source, nodes)
  {
    forall i, j | 0 <= i < j < |nodes| && nodes[i].value.Some? && nodes[j].value.Some?
      ensures FitTogether(source, nodes[i], nodes[j])
    {
      if InCaption(nodes[i], xs[i], nodes[j]) { CaptionIsLabel(source, nodes[i], xs[i], nodes[j]); }
      if InCaption(nodes[j], xs[j], nodes[i]) { CaptionIsLabel(source, nodes[j], xs[j], nodes[i]); }
    }
  }

  /** The page with exactly the real destinations replaced, all at once. */
  ghost predicate IsProjected(source: string, nodes: seq<Node>, xs: seq<Syntax>, page: string)
    requires |xs| == |nodes|
  {
    var rs := RealReplacements(nodes, xs);
    Disjoint(rs) && (forall r :: r in rs ==> r.start <= r.end <= |source|) && page == Simultaneous(source, rs)
  }

  lemma RewrittenIsProjected(source: string, nodes: seq<Node>, xs: seq<Syntax>)
    requires InRange(source, nodes) && AreParsed(source, nodes, xs) && AreNested(nodes, xs) && AreFindable(nodes, xs)
    ensures Rewritten(source, nodes).Success? && IsProjected(source, nodes, xs, Rewritten(source, nodes).value)
  {
    LocatedIff(source, nodes, xs);
    NestedNodesFit(source, nodes, xs);
    FittingNodesAreDisjoint(source, nodes);
    ReplacementsInRange(source, nodes);
    SplicedAtOnce(source, RealReplacements(nodes, xs));
  }

  /** Rewrites the links of a page.  Where the scan gets over the labels of the
      replaced links, and each two of them are apart or one is in the caption of
      the other, it replaces exactly their destinations.  Computed ranges that
      overlap no other are all replaced, whether or not they are destinations. */
  method RewriteMarkdown(source: string, nodes: seq<Node>) returns (r: Result<string, ScanError>)
    requires InRange(source, nodes)
    ensures r == Rewritten(source, nodes)
    ensures r.Failure? <==> Replacements(source, nodes).Failure?
    ensures r.Success? ==> forall e :: e in Replacements(source, nodes).value ==> e.start <= e.end <= |source|
    ensures r.Success? && Disjoint(Replacements(source, nodes).value) ==>
      r.value == Simultaneous(source, Replacements(source, nodes).value)
    ensures r.Success? && NodesFit(source, nodes) ==>
      && Disjoint(Replacements(source, nodes).value)
      && r.value == Simultaneous(source, Replacements(source, nodes).value)
    ensures forall xs :: AreParsed(source, nodes, xs) && AreNested(nodes, xs) && AreFindable(nodes, xs) ==>
      r.Success? && IsProjected(source, nodes, xs, r.value)
  {
    forall xs | AreParsed(source, nodes, xs) && AreNested(nodes, xs) && AreFindable(nodes, xs)
      ensures Rewritten(source, nodes).Success? && IsProjected(source, nodes, xs, Rewritten(source, nodes).value)
    {
      RewrittenIsProjected(source, nodes, xs);
    }
    var replacements := CollectReplacements(source, nodes);
    if replacements.Failure? { return Failure(replacements.error); }
    ReplacementsInRange(source, nodes);
    var ordered := Sorted(LaterFirst, replacements.value);
    var projected := source;
    for k := 0 to |ordered|
      invariant SpliceAll(source, ordered) == SpliceAll(projected, ordered[k..])
    {
      assert ordered[k..][1..] == ordered[k + 1..];
      projected := Splice(projected, ordered[k]);
    }
    if NodesFit(source, nodes) { FittingNodesAreDisjoint(source, nodes); }
    if Disjoint(replacements.value) { SplicedAtOnce(source, replacements.value); }
    return Success(projected);
  }

  // ---------------------------------------------------------------------
  // A page of one link
  // ---------------------------------------------------------------------

  lemma {:induction false} OneReplacement(source: string, n: Node, r: Replacement)
    requires n.start <= n.end <= |source| && n.value.Some? && ReplacementOf(source, n) == Success(r)
    ensures Rewritten(source, [n]) == Success(Splice(source, r))
  {
    assert [n][1..] == [];
    assert Replacements(source, [n]) == Success([r] + []) && [r] + [] == [r];
    assert [r][1..] == [] && Sorted(LaterFirst, [r]) == [r] + [] == [r];
    assert SpliceAll(source, [r]) == SpliceAll(Splice(source, r), []);
  }

  /** A plain link keeps everything but its destination. */
  lemma {:induction false} PlainLinkRewritten(kind: NodeKind, caption: string, url: string, rest: string, value: string)
    requires IsPlainCaption(caption) && IsUrl(url) && EndsUrl(rest)
    ensures var source := PlainHead(kind, caption) + (url + rest);
      Rewritten(source, [Node(kind, 0, |source|, Some(value))]) == Success(PlainHead(kind, caption) + value + rest)
  {
    var head := PlainHead(kind, caption);
    var source := head + (url + rest);
    var n, r := Node(kind, 0, |source|, Some(value)), Replacement(|head|, |head| + |url|, value);
    PlainDestinationFound(kind, caption, url, rest);
    WholeReplaced(source, n, Range(|head|, |head| + |url|));
    OneReplacement(source, n, r);
    SpliceMiddle(head, url, rest, value);
  }

  lemma WholeReplaced(source: string, n: Node, range: Range)
    requires n.start == 0 && n.end == |source| && n.value.Some?
    requires FindDestination(source, n.kind) == Success(range)
    ensures ReplacementOf(source, n) == Success(Replacement(range.start, range.end, n.value.value))
  {
    assert source[0..|source|] == source;
  }

  lemma SpliceMiddle(head: string, middle: string, rest: string, value: string)
    ensures Splice(head + (middle + rest), Replacement(|head|, |head| + |middle|, value)) == head + value + rest
  {
    var s := head + (middle + rest);
    assert s[..|head|] == head && s[|head| + |middle|..] == rest;
  }
}
