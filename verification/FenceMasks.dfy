/** Masking code fences: each gives way to a placeholder line, and what the
    masked lines tell about the prose. */
module FenceMasks {
  import opened CodeSplice

  // ---------------------------------------------------------------------
  // Masks
  // ---------------------------------------------------------------------

  function Decimal(n: nat): (s: string)
    ensures s != [] && forall i :: 0 <= i < |s| ==> '0' <= s[i] <= '9'
  {
    if n < 10 then ["0123456789"[n]] else Decimal(n / 10) + ["0123456789"[n % 10]]
  }

  function PowerOfTen(i: nat): (power: nat) {
    if i == 0 then 1 else 10 * PowerOfTen(i - 1)
  }

  /** The value of digits, each by its place from the left. */
  function Value(digits: string): int {
    if digits == [] then 0 else (digits[0] as int - '0' as int) * PowerOfTen(|digits| - 1) + Value(digits[1..])
  }

  lemma {:induction false} ValueOfLast(digits: string, d: char)
    ensures Value(digits + [d]) == 10 * Value(digits) + (d as int - '0' as int)
    decreases |digits|
  {
    if digits == [] {
      assert digits + [d] == [d] && [d][1..] == [];
    } else {
      assert (digits + [d])[1..] == digits[1..] + [d];
      ValueOfLast(digits[1..], d);
      Tenfold(digits[0] as int - '0' as int, PowerOfTen(|digits| - 1));
    }
  }

  lemma Tenfold(a: int, power: int)
    ensures a * (10 * power) == 10 * (a * power)
  {
  }

  /** A number's digits have its value, and the first is not zero but for zero. */
  lemma {:induction false} DecimalValue(n: nat)
    ensures Value(Decimal(n)) == n && (n > 0 ==> Decimal(n)[0] != '0')
    decreases n
  {
    if n < 10 {
      assert Decimal(n)[1..] == [];
    } else {
      DecimalValue(n / 10);
      ValueOfLast(Decimal(n / 10), "0123456789"[n % 10]);
    }
  }

  function Placeholder(k: nat): string {
    "DSH_TRANSLATION_CODE_" + Decimal(k)
  }

  lemma FirstPlaceholder()
    ensures Placeholder(0) == "DSH_TRANSLATION_CODE_0"
  {
  }

  function MaskBodies(n: nat): (bodies: seq<Lines>)
    ensures |bodies| == n && forall k :: 0 <= k < n ==> bodies[k] == [Placeholder(k)]
  {
    seq(n, k requires 0 <= k < n => [Placeholder(k)])
  }

  lemma PlaceholderHasNoBreak(k: nat)
    ensures AreLines([Placeholder(k)]) && Stripped(Placeholder(k)) == Placeholder(k)
  {
    var line := Placeholder(k);
    forall i | 0 <= i < |line|
      ensures line[i] != '\n' && line[i] != '\r'
    {
      if i >= 21 { assert line[i] == Decimal(k)[i - 21]; }
    }
  }

  lemma PlaceholderIsLine(k: nat)
    ensures LinesOf(Placeholder(k) + "\n") == [Placeholder(k)]
  {
    var line := Placeholder(k);
    PlaceholderHasNoBreak(k);
    assert TextOf([line]) == line + "\n";
    LinesReadBack([line]);
  }

  function MaskTexts(n: nat): (masks: map<nat, string>)
    ensures forall k :: k in masks <==> 0 <= k < n
    ensures forall k :: k in masks ==> LinesOf(masks[k]) == [Placeholder(k)]
  {
    var masks := map k: nat | 0 <= k < n :: Placeholder(k) + "\n";
    assert forall k :: k in masks ==> LinesOf(masks[k]) == [Placeholder(k)] by {
      forall k | k in masks
        ensures LinesOf(masks[k]) == [Placeholder(k)]
      {
        PlaceholderIsLine(k);
      }
    }
    masks
  }

  ghost predicate IsDocument(doc: Document) {
    InOrder(LinesOf(doc.text), doc.fences, 0)
  }

  ghost function Prose(doc: Document): (prose: seq<Lines>)
    requires IsDocument(doc)
    ensures |prose| == |doc.fences| + 1
  {
    ProseFrom(LinesOf(doc.text), doc.fences, 0)
  }

  ghost function Fences(doc: Document): (fences: seq<Lines>)
    requires IsDocument(doc)
    ensures |fences| == |doc.fences|
  {
    Bodies(LinesOf(doc.text), doc.fences)
  }

  /** The document with each fence replaced by its placeholder. */
  ghost function Masked(doc: Document): Lines
    requires IsDocument(doc)
  {
    Weave(Prose(doc), MaskBodies(|doc.fences|))
  }

  lemma MaskedBodies(doc: Document)
    requires IsDocument(doc)
    ensures NewBodies(LinesOf(doc.text), doc.fences, MaskTexts(|doc.fences|)) == MaskBodies(|doc.fences|)
  {
  }

  method MaskCodeSpans(doc: Document) returns (r: string)
    requires IsDocument(doc)
    ensures r == TextOf(Masked(doc))
  {
    r := ReplaceSpanTexts(doc.text, doc.fences, MaskTexts(|doc.fences|));
    MaskedBodies(doc);
  }

  ghost predicate AreProse(prose: seq<Lines>) {
    forall i :: 0 <= i < |prose| ==> AreLines(prose[i])
  }

  /** No mask also stands as a line of the prose just before or just after it. */
  ghost predicate MasksStandOut(prose: seq<Lines>) {
    forall m :: 0 <= m < |prose| - 1 ==> StandsOut(prose, m)
  }

  ghost predicate StandsOut(prose: seq<Lines>, m: nat)
    requires m < |prose| - 1
  {
    Placeholder(m) !in prose[m] && Placeholder(m) !in prose[m + 1]
  }

  /** The masked lines from block `k` on. */
  ghost function MaskedFrom(prose: seq<Lines>, k: nat): Lines
    requires k < |prose|
    decreases |prose| - k
  {
    if k == |prose| - 1 then prose[k] else prose[k] + [Placeholder(k)] + MaskedFrom(prose, k + 1)
  }

  lemma {:induction false} DecimalsDiffer(m: nat, n: nat)
    requires m < n
    ensures Decimal(m) != Decimal(n)
  {
    var a, b := Decimal(m), Decimal(n);
    assert b[|b| - 1] == "0123456789"[n % 10];
    if m >= 10 {
      assert a[|a| - 1] == "0123456789"[m % 10];
      if m / 10 < n / 10 {
        DecimalsDiffer(m / 10, n / 10);
        assert a[..|a| - 1] == Decimal(m / 10) && b[..|b| - 1] == Decimal(n / 10);
      }
    } else if n >= 10 {
      assert |b| > |a|;
    }
  }

  lemma PlaceholdersDiffer(m: nat, n: nat)
    requires m < n
    ensures Placeholder(m) != Placeholder(n)
  {
    DecimalsDiffer(m, n);
    assert Placeholder(m)[21..] == Decimal(m) && Placeholder(n)[21..] == Decimal(n);
  }

  lemma {:induction false} WeaveIsMaskedFrom(prose: seq<Lines>, k: nat)
    requires k < |prose|
    ensures Weave(prose[k..], MaskBodies(|prose| - 1)[k..]) == MaskedFrom(prose, k)
    decreases |prose| - k
  {
    var masks := MaskBodies(|prose| - 1);
    if k < |prose| - 1 {
      WeaveIsMaskedFrom(prose, k + 1);
      assert prose[k..][1..] == prose[k + 1..] && masks[k..][1..] == masks[k + 1..];
    }
  }

  /** Where the same list is cut twice, the longer front ends with the mask or
      goes on past it. */
  lemma LongerFront(a: Lines, x: string, c: Lines, e: Lines, y: string, d: Lines)
    requires a + [x] + c == e + [y] + d && x != y && y !in a
    ensures |e| > |a| && e[..|a| + 1] == a + [x] && c == e[|a| + 1..] + [y] + d
  {
    var whole := a + [x] + c;
    assert whole[|e|] == y && whole[|a|] == x;
    assert forall i :: 0 <= i < |a| ==> whole[i] == a[i];
    assert e == whole[..|e|] && whole[..|a| + 1] == a + [x];
    assert c == whole[|a| + 1..];
  }

  /** Once a mask is found later than it stands in `p`, so is every later one,
      and the last has no place left. */
  lemma {:induction false} NeverLater(p: seq<Lines>, q: seq<Lines>, k: nat, e: Lines)
    requires |p| == |q| && 0 < k < |p| && MasksStandOut(p)
    ensures MaskedFrom(p, k) != e + [Placeholder(k - 1)] + MaskedFrom(q, k)
    decreases |p| - k
  {
    var y := Placeholder(k - 1);
    assert StandsOut(p, k - 1);
    SplitHolds(e, y, MaskedFrom(q, k));
    if k < |p| - 1 && MaskedFrom(p, k) == e + [y] + MaskedFrom(q, k) {
      var x := Placeholder(k);
      PlaceholdersDiffer(k - 1, k);
      LongerFront(p[k], x, MaskedFrom(p, k + 1), e, y, MaskedFrom(q, k));
      var rest := e[|p[k]| + 1..] + [y] + q[k];
      assert e[|p[k]| + 1..] + [y] + (q[k] + [x] + MaskedFrom(q, k + 1)) == rest + [x] + MaskedFrom(q, k + 1);
      NeverLater(p, q, k + 1, rest);
    }
  }

  lemma SplitHolds(e: Lines, y: string, d: Lines)
    ensures y in e + [y] + d
  {
    assert (e + [y] + d)[|e|] == y;
  }

  lemma {:induction false} MaskedDetermines(p: seq<Lines>, q: seq<Lines>, k: nat)
    requires |p| == |q| && k < |p| && MasksStandOut(p) && MaskedFrom(p, k) == MaskedFrom(q, k)
    ensures p[k..] == q[k..]
    decreases |p| - k
  {
    if k < |p| - 1 {
      var x, c, d := Placeholder(k), MaskedFrom(p, k + 1), MaskedFrom(q, k + 1);
      assert StandsOut(p, k);
      FrontNotShorter(p[k], x, c, q[k], d);
      if |q[k]| > |p[k]| {
        NeverLater(p, q, k + 1, q[k][|p[k]| + 1..]);
      }
      assert |q[k]| == |p[k]|;
      SameFront(p[k], x, c, q[k], d);
      MaskedDetermines(p, q, k + 1);
      assert p[k..] == [p[k]] + p[k + 1..] && q[k..] == [q[k]] + q[k + 1..];
    }
  }

  lemma FrontNotShorter(a: Lines, x: string, c: Lines, b: Lines, d: Lines)
    requires a + [x] + c == b + [x] + d && x !in a
    ensures |b| >= |a|
    ensures |b| > |a| ==> c == b[|a| + 1..] + [x] + d
  {
    var whole := a + [x] + c;
    assert whole[|b|] == x && forall i :: 0 <= i < |a| ==> whole[i] == a[i];
    assert b == whole[..|b|] && c == whole[|a| + 1..];
  }

  lemma SameFront(a: Lines, x: string, c: Lines, b: Lines, d: Lines)
    requires a + [x] + c == b + [x] + d && |a| == |b|
    ensures a == b && c == d
  {
    var whole := a + [x] + c;
    assert a == whole[..|a|] && b == whole[..|a|];
    assert c == whole[|a| + 1..] && d == whole[|a| + 1..];
  }

  /** The prose with the line `i` of block `m`, a mask, taken for the mask that
      follows the block. */
  ghost function TakenBefore(p: seq<Lines>, m: nat, i: nat): (q: seq<Lines>)
    requires m < |p| - 1 && i < |p[m]|
    ensures |q| == |p|
  {
    p[m := p[m][..i]][m + 1 := p[m][i + 1..] + [Placeholder(m)] + p[m + 1]]
  }

  /** The same for a line of the block after the mask. */
  ghost function TakenAfter(p: seq<Lines>, m: nat, i: nat): (q: seq<Lines>)
    requires m < |p| - 1 && i < |p[m + 1]|
    ensures |q| == |p|
  {
    p[m := p[m] + [Placeholder(m)] + p[m + 1][..i]][m + 1 := p[m + 1][i + 1..]]
  }

  lemma {:induction false} MaskedTail(p: seq<Lines>, q: seq<Lines>, k: nat)
    requires |p| == |q| && k < |p| && p[k..] == q[k..]
    ensures MaskedFrom(p, k) == MaskedFrom(q, k)
    decreases |p| - k
  {
    assert p[k] == p[k..][0] == q[k..][0] == q[k];
    if k < |p| - 1 {
      assert p[k + 1..] == p[k..][1..] == q[k..][1..] == q[k + 1..];
      MaskedTail(p, q, k + 1);
    }
  }

  lemma {:induction false} MaskedHead(p: seq<Lines>, q: seq<Lines>, k: nat, m: nat)
    requires |p| == |q| && k <= m < |p| && p[..m] == q[..m] && MaskedFrom(p, m) == MaskedFrom(q, m)
    ensures MaskedFrom(p, k) == MaskedFrom(q, k)
    decreases m - k
  {
    if k < m {
      assert p[k] == p[..m][k] == q[..m][k] == q[k];
      MaskedHead(p, q, k + 1, m);
    }
  }

  /** What follows a block's lines. */
  ghost function AfterBlock(p: seq<Lines>, k: nat): Lines
    requires k < |p|
  {
    if k == |p| - 1 then [] else [Placeholder(k)] + MaskedFrom(p, k + 1)
  }

  lemma MaskedPair(p: seq<Lines>, m: nat)
    requires m < |p| - 1
    ensures MaskedFrom(p, m) == p[m] + [Placeholder(m)] + p[m + 1] + AfterBlock(p, m + 1)
  {
    var tail := AfterBlock(p, m + 1);
    assert MaskedFrom(p, m + 1) == p[m + 1] + tail;
    assert p[m] + [Placeholder(m)] + (p[m + 1] + tail) == p[m] + [Placeholder(m)] + p[m + 1] + tail;
  }

  lemma SameTails(p: seq<Lines>, q: seq<Lines>, m: nat)
    requires |p| == |q| && m < |p| - 1 && p[..m] == q[..m] && p[m + 2..] == q[m + 2..]
    requires p[m] + [Placeholder(m)] + p[m + 1] == q[m] + [Placeholder(m)] + q[m + 1]
    ensures MaskedFrom(p, 0) == MaskedFrom(q, 0)
  {
    if m + 2 < |p| { MaskedTail(p, q, m + 2); }
    MaskedPair(p, m);
    MaskedPair(q, m);
    MaskedHead(p, q, 0, m);
  }

  /** A mask beside its own place can be taken for it. */
  lemma MaskMistaken(p: seq<Lines>, m: nat) returns (q: seq<Lines>)
    requires m < |p| - 1 && !StandsOut(p, m)
    ensures |q| == |p| && q != p && MaskedFrom(p, 0) == MaskedFrom(q, 0)
    ensures AreProse(p) ==> AreProse(q)
  {
    PlaceholderHasNoBreak(m);
    var x := Placeholder(m);
    if x in p[m] {
      var i :| 0 <= i < |p[m]| && p[m][i] == x;
      q := TakenBefore(p, m, i);
      assert p[m] == p[m][..i] + [x] + p[m][i + 1..];
      assert q[m] + [x] + q[m + 1] == p[m] + [x] + p[m + 1];
      assert |q[m]| < |p[m]|;
    } else {
      var i :| 0 <= i < |p[m + 1]| && p[m + 1][i] == x;
      q := TakenAfter(p, m, i);
      assert p[m + 1] == p[m + 1][..i] + [x] + p[m + 1][i + 1..];
      assert q[m] + [x] + q[m + 1] == p[m] + [x] + p[m + 1];
      assert |q[m]| > |p[m]|;
    }
    SameTails(p, q, m);
  }

  ghost predicate MaskedAlike(p: seq<Lines>, q: seq<Lines>)
    requires p != []
  {
    |q| == |p| && Weave(q, MaskBodies(|p| - 1)) == Weave(p, MaskBodies(|p| - 1))
  }

  lemma MaskedAlikeMeaning(p: seq<Lines>, q: seq<Lines>)
    requires p != [] && |q| == |p|
    ensures MaskedAlike(p, q) <==> MaskedFrom(p, 0) == MaskedFrom(q, 0)
  {
    WeaveIsMaskedFrom(p, 0);
    WeaveIsMaskedFrom(q, 0);
    var masks := MaskBodies(|p| - 1);
    assert p[0..] == p && q[0..] == q && masks[0..] == masks;
  }

  /** The masked lines determine the prose exactly when no mask also stands as
      a line of the prose next to it. */
  lemma MasksDetermineProse(p: seq<Lines>)
    requires p != []
    ensures (forall q :: MaskedAlike(p, q) ==> q == p) <==> MasksStandOut(p)
  {
    if MasksStandOut(p) {
      forall q | MaskedAlike(p, q)
        ensures q == p
      {
        MaskedAlikeMeaning(p, q);
        MaskedDetermines(p, q, 0);
        assert p[0..] == p && q[0..] == q;
      }
    } else {
      var m :| 0 <= m < |p| - 1 && !StandsOut(p, m);
      var q := MaskMistaken(p, m);
      MaskedAlikeMeaning(p, q);
    }
  }
}
