/** Separating the code blocks of Chinese documents that repeat their English
    sibling's blocks from the blocks that still need checking. */
module PairedDerivatives {
  import opened Wrappers
  import opened Strings
  import opened Sequences

  const ZH_SUFFIX := ".zh.md"

  function UnsuffixedSibling(doc: string): (sibling: Option<string>)
    ensures sibling.Some? ==> |sibling.value| + 3 == |doc|
  {
    if EndsWith(doc, ZH_SUFFIX) then Some(doc[..|doc| - 6] + ".md") else None
  }

  /** A document's blocks, in scan order. */
  function BlocksOf<T>(blocks: seq<T>, docOf: T -> string, doc: string): seq<T> {
    if blocks == [] then []
    else
      var last := blocks[|blocks| - 1];
      BlocksOf(blocks[..|blocks| - 1], docOf, doc) + if docOf(last) == doc then [last] else []
  }

  function Fingerprints<T>(blocks: seq<T>, fingerprintOf: T -> string): (prints: seq<string>)
    ensures |prints| == |blocks| && forall i :: 0 <= i < |blocks| ==> prints[i] == fingerprintOf(blocks[i])
  {
    seq(|blocks|, i requires 0 <= i < |blocks| => fingerprintOf(blocks[i]))
  }

  /** The document's blocks repeat, one for one, those of its sibling. */
  predicate IsDerivative<T>(blocks: seq<T>, docOf: T -> string, fingerprintOf: T -> string, doc: string) {
    var sibling := UnsuffixedSibling(doc);
    && sibling.Some?
    && BlocksOf(blocks, docOf, doc) != []
    && Fingerprints(BlocksOf(blocks, docOf, doc), fingerprintOf) ==
       Fingerprints(BlocksOf(blocks, docOf, sibling.value), fingerprintOf)
  }

  function Docs<T>(blocks: seq<T>, docOf: T -> string): set<string> {
    if blocks == [] then {} else Docs(blocks[..|blocks| - 1], docOf) + {docOf(blocks[|blocks| - 1])}
  }

  function Derivatives<T>(blocks: seq<T>, docOf: T -> string, fingerprintOf: T -> string): set<string> {
    set doc | doc in Docs(blocks, docOf) && IsDerivative(blocks, docOf, fingerprintOf, doc)
  }

  lemma {:induction false} HasBlocks<T>(blocks: seq<T>, docOf: T -> string, doc: string)
    ensures BlocksOf(blocks, docOf, doc) != [] <==> doc in Docs(blocks, docOf)
  {
    if blocks != [] { HasBlocks(blocks[..|blocks| - 1], docOf, doc); }
  }

  /** The blocks whose document is, or is not, among those given, in order. */
  function Selected<T>(blocks: seq<T>, docOf: T -> string, docs: set<string>, wanted: bool): seq<T> {
    if blocks == [] then []
    else
      var last := blocks[|blocks| - 1];
      Selected(blocks[..|blocks| - 1], docOf, docs, wanted) + if (docOf(last) in docs) == wanted then [last] else []
  }

  ghost predicate Grouped<T>(blocks: seq<T>, docOf: T -> string, byDoc: map<string, seq<T>>, docs: seq<string>) {
    && (forall d :: d in byDoc ==> byDoc[d] == BlocksOf(blocks, docOf, d) && byDoc[d] != [])
    && (forall d :: d !in byDoc ==> BlocksOf(blocks, docOf, d) == [])
    && (forall d :: d in byDoc <==> d in docs)
  }

  lemma {:induction false} OneMoreBlock<T>(blocks: seq<T>, docOf: T -> string, k: nat)
    requires k < |blocks|
    ensures forall d ::
      BlocksOf(blocks[..k + 1], docOf, d) == BlocksOf(blocks[..k], docOf, d) + if docOf(blocks[k]) == d then [blocks[k]] else []
  {
    assert blocks[..k + 1][..k] == blocks[..k];
  }

  method GroupByDoc<T>(blocks: seq<T>, docOf: T -> string) returns (byDoc: map<string, seq<T>>, docs: seq<string>)
    ensures Grouped(blocks, docOf, byDoc, docs)
  {
    byDoc, docs := map[], [];
    for k := 0 to |blocks|
      invariant Grouped(blocks[..k], docOf, byDoc, docs)
    {
      var block, doc := blocks[k], docOf(blocks[k]);
      OneMoreBlock(blocks, docOf, k);
      if doc in byDoc {
        byDoc := byDoc[doc := byDoc[doc] + [block]];
      } else {
        byDoc, docs := byDoc[doc := [block]], docs + [doc];
      }
    }
    assert blocks[..|blocks|] == blocks;
  }

  method SameFingerprints<T>(candidates: seq<T>, originals: seq<T>, fingerprintOf: T -> string) returns (same: bool)
    ensures same <==> Fingerprints(candidates, fingerprintOf) == Fingerprints(originals, fingerprintOf)
  {
    if |originals| != |candidates| {
      assert |Fingerprints(candidates, fingerprintOf)| != |Fingerprints(originals, fingerprintOf)|;
      return false;
    }
    for i := 0 to |candidates|
      invariant forall j :: 0 <= j < i ==> fingerprintOf(candidates[j]) == fingerprintOf(originals[j])
    {
      if fingerprintOf(candidates[i]) != fingerprintOf(originals[i]) {
        assert Fingerprints(candidates, fingerprintOf)[i] != Fingerprints(originals, fingerprintOf)[i];
        return false;
      }
    }
    return true;
  }

  /** A grouped document is a derivative when its sibling has blocks too and
      they have its fingerprints. */
  lemma DerivativeByGroups<T>(blocks: seq<T>, docOf: T -> string, fingerprintOf: T -> string,
                              byDoc: map<string, seq<T>>, docs: seq<string>, doc: string)
    requires Grouped(blocks, docOf, byDoc, docs) && doc in byDoc
    ensures IsDerivative(blocks, docOf, fingerprintOf, doc) <==>
      var sibling := UnsuffixedSibling(doc);
      && sibling.Some? && sibling.value in byDoc
      && Fingerprints(byDoc[doc], fingerprintOf) == Fingerprints(byDoc[sibling.value], fingerprintOf)
  {
    var sibling := UnsuffixedSibling(doc);
    if sibling.Some? && sibling.value !in byDoc {
      assert |Fingerprints(BlocksOf(blocks, docOf, sibling.value), fingerprintOf)| == 0;
    }
  }

  method DerivativeDocs<T>(blocks: seq<T>, docOf: T -> string, fingerprintOf: T -> string,
                           byDoc: map<string, seq<T>>, docs: seq<string>) returns (found: set<string>)
    requires Grouped(blocks, docOf, byDoc, docs)
    ensures found == Derivatives(blocks, docOf, fingerprintOf)
  {
    found := {};
    for k := 0 to |docs|
      invariant forall d :: d in found <==> d in docs[..k] && IsDerivative(blocks, docOf, fingerprintOf, d)
    {
      var doc := docs[k];
      DerivativeByGroups(blocks, docOf, fingerprintOf, byDoc, docs, doc);
      var sibling := UnsuffixedSibling(doc);
      assert docs[..k + 1] == docs[..k] + [doc];
      if sibling.Some? && sibling.value in byDoc {
        var same := SameFingerprints(byDoc[doc], byDoc[sibling.value], fingerprintOf);
        if same { found := found + {doc}; }
      }
    }
    assert docs[..|docs|] == docs;
    forall d | d in found || IsDerivative(blocks, docOf, fingerprintOf, d)
      ensures d in docs && d in Docs(blocks, docOf)
    {
      HasBlocks(blocks, docOf, d);
    }
  }

  method Partition<T>(blocks: seq<T>, docOf: T -> string, fingerprintOf: T -> string)
    returns (primary: seq<T>, derivatives: seq<T>)
    ensures primary == Selected(blocks, docOf, Derivatives(blocks, docOf, fingerprintOf), false)
    ensures derivatives == Selected(blocks, docOf, Derivatives(blocks, docOf, fingerprintOf), true)
    ensures Keeps(primary, blocks, IsIn(docOf, Derivatives(blocks, docOf, fingerprintOf), false))
    ensures Keeps(derivatives, blocks, IsIn(docOf, Derivatives(blocks, docOf, fingerprintOf), true))
  {
    var byDoc, docs := GroupByDoc(blocks, docOf);
    var found := DerivativeDocs(blocks, docOf, fingerprintOf, byDoc, docs);
    primary, derivatives := [], [];
    for k := 0 to |blocks|
      invariant primary == Selected(blocks[..k], docOf, found, false)
      invariant derivatives == Selected(blocks[..k], docOf, found, true)
    {
      assert blocks[..k + 1][..k] == blocks[..k];
      if docOf(blocks[k]) in found { derivatives := derivatives + [blocks[k]]; } else { primary := primary + [blocks[k]]; }
    }
    assert blocks[..|blocks|] == blocks;
    SelectedKept(blocks, docOf, found, false);
    SelectedKept(blocks, docOf, found, true);
  }

  function IsIn<T>(docOf: T -> string, docs: set<string>, wanted: bool): T -> bool {
    block => (docOf(block) in docs) == wanted
  }

  lemma {:induction false} SelectedKept<T>(blocks: seq<T>, docOf: T -> string, docs: set<string>, wanted: bool)
    ensures Keeps(Selected(blocks, docOf, docs, wanted), blocks, IsIn(docOf, docs, wanted))
  {
    if blocks == [] {
      KeepsNone(IsIn(docOf, docs, wanted));
    } else {
      var earlier, last := blocks[..|blocks| - 1], blocks[|blocks| - 1];
      SelectedKept(earlier, docOf, docs, wanted);
      KeepsOneMore(Selected(earlier, docOf, docs, wanted), earlier, last, IsIn(docOf, docs, wanted));
      assert earlier + [last] == blocks;
    }
  }

  function IsOf<T>(docOf: T -> string, doc: string): T -> bool {
    block => docOf(block) == doc
  }

  /** A document's blocks are those it owns, in scan order. */
  lemma {:induction false} BlocksKept<T>(blocks: seq<T>, docOf: T -> string, doc: string)
    ensures Keeps(BlocksOf(blocks, docOf, doc), blocks, IsOf(docOf, doc))
  {
    if blocks == [] {
      KeepsNone(IsOf(docOf, doc));
    } else {
      var earlier, last := blocks[..|blocks| - 1], blocks[|blocks| - 1];
      BlocksKept(earlier, docOf, doc);
      KeepsOneMore(BlocksOf(earlier, docOf, doc), earlier, last, IsOf(docOf, doc));
      assert earlier + [last] == blocks;
    }
  }

  /** `guide.zh.md` stands beside `guide.md`, and no other path has a sibling. */
  lemma SiblingMeaning(doc: string)
    ensures UnsuffixedSibling(doc).Some? <==> exists base: string :: doc == base + ".zh.md"
    ensures forall base: string :: doc == base + ".zh.md" ==> UnsuffixedSibling(doc) == Some(base + ".md")
  {
    forall base: string | doc == base + ".zh.md"
      ensures UnsuffixedSibling(doc) == Some(base + ".md")
    {
      assert doc[|base|..] == ".zh.md" && doc[..|base|] == base;
    }
    if EndsWith(doc, ".zh.md") { assert doc == doc[..|doc| - 6] + ".zh.md"; }
  }

  /** A document goes whole to one side and not at all to the other, with its
      blocks in their order. */
  lemma {:induction false} DocumentsStayWhole<T>(blocks: seq<T>, docOf: T -> string, docs: set<string>, wanted: bool, doc: string)
    ensures BlocksOf(Selected(blocks, docOf, docs, wanted), docOf, doc) ==
            if (doc in docs) == wanted then BlocksOf(blocks, docOf, doc) else []
  {
    if blocks != [] {
      DocumentsStayWhole(blocks[..|blocks| - 1], docOf, docs, wanted, doc);
      var earlier := Selected(blocks[..|blocks| - 1], docOf, docs, wanted);
      var last := blocks[|blocks| - 1];
      if (docOf(last) in docs) == wanted {
        assert (earlier + [last])[..|earlier|] == earlier;
      } else {
        assert earlier + [] == earlier;
      }
    }
  }

  /** Nothing is lost and nothing doubled. */
  lemma {:induction false} PartitionIsComplete<T>(blocks: seq<T>, docOf: T -> string, docs: set<string>)
    ensures multiset(Selected(blocks, docOf, docs, true)) + multiset(Selected(blocks, docOf, docs, false)) == multiset(blocks)
  {
    if blocks != [] {
      var earlier, last := blocks[..|blocks| - 1], blocks[|blocks| - 1];
      PartitionIsComplete(earlier, docOf, docs);
      assert blocks == earlier + [last];
      var chosen, others := Selected(earlier, docOf, docs, true), Selected(earlier, docOf, docs, false);
      if docOf(last) in docs { assert others + [] == others; } else { assert chosen + [] == chosen; }
    }
  }

  /** Behind every derivative document stands a primary one with the same
      fingerprints, block for block, even if its own sibling is a derivative
      too: siblings get shorter, so the chain ends. */
  lemma {:induction false} DerivativeHasPrimary<T>(blocks: seq<T>, docOf: T -> string, fingerprintOf: T -> string, doc: string)
    returns (primaryDoc: string)
    requires IsDerivative(blocks, docOf, fingerprintOf, doc)
    ensures !IsDerivative(blocks, docOf, fingerprintOf, primaryDoc) && BlocksOf(blocks, docOf, primaryDoc) != []
    ensures Fingerprints(BlocksOf(blocks, docOf, primaryDoc), fingerprintOf) ==
            Fingerprints(BlocksOf(blocks, docOf, doc), fingerprintOf)
    decreases |doc|
  {
    var sibling := UnsuffixedSibling(doc).value;
    assert |Fingerprints(BlocksOf(blocks, docOf, sibling), fingerprintOf)| == |BlocksOf(blocks, docOf, doc)|;
    if IsDerivative(blocks, docOf, fingerprintOf, sibling) {
      primaryDoc := DerivativeHasPrimary(blocks, docOf, fingerprintOf, sibling);
    } else {
      primaryDoc := sibling;
    }
  }
}
