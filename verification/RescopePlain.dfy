/** What the rename does to lines as they are written: quoted names and `name:`
    values of the three quote characters and the table's own names. */
module RescopePlain {
  import opened Wrappers
  import opened Strings
  import opened Sequences
  import opened RescopeTokens
  import opened RescopeLines
  import opened Rescope
  import opened RescopeTable

  predicate HasNoQuote(s: string) {
    '\'' !in s && '"' !in s && '`' !in s
  }

  lemma NoQuoteMeaning(s: string)
    ensures NoQuotes(s) <==> HasNoQuote(s)
  {
    if HasNoQuote(s) {
      forall i | 0 <= i < |s|
        ensures !IsQuote(s[i])
      {
        assert s[i] in s;
      }
    }
  }

  /** Nothing, or a slash and more without quotes and white space. */
  predicate IsSubpath(s: string) {
    s == "" || (s[0] == '/' && HasNoQuote(s) && NoSpaces(s))
  }

  lemma SubpathIsNamed(name: string, sub: string)
    requires IsSubpath(sub)
    ensures IsNamed(name + sub, name) && (name + sub)[|name|..] == sub
  {
    if sub == "" {
      assert name + sub == name;
    } else {
      var s := name + sub;
      assert s[..|name|] == name && s[|name| + 1..] == sub[1..];
    }
  }

  lemma {:induction false} CutTwoQuotes(a: string, q: char, text: string, z: string)
    requires NoQuotes(a) && IsQuote(q) && NoQuotes(text) && NoQuotes(z)
    ensures Cut(a + ([q] + text + ([q] + z))) == Line(a, [Part(q, text), Part(q, z)])
    ensures Flat(Line(a, [Part(q, text), Part(q, z)])) == a + ([q] + text + ([q] + z))
  {
    var parts := [Part(q, text), Part(q, z)];
    FlatCons(Part(q, z), []);
    FlatCons(Part(q, text), [Part(q, z)]);
    assert parts == [Part(q, text)] + [Part(q, z)] && [Part(q, z)] == [Part(q, z)] + [];
    assert [q] + z + [] == [q] + z;
    assert FlatParts(parts) == [q] + text + ([q] + z);
    CutFlat(Line(a, parts));
  }

  /** A quoted name, with or without a subpath, gives way to the new one, whichever
      of the three quote characters is used. */
  lemma {:induction false} QuotedNameRewritten(ps: seq<Pattern>, i: nat, a: string, q: char, sub: string, z: string)
    requires Compatible(ps) && i < |ps| && q in ['\'', '"', '`']
    requires HasNoQuote(a) && IsSubpath(sub) && HasNoQuote(z)
    requires NoScalarOf(a + ([q] + (ps[i].from + sub) + ([q] + z)), ps)
    ensures Rewritten(a + ([q] + (ps[i].from + sub) + ([q] + z)), ps) == a + ([q] + (ps[i].to + sub) + ([q] + z))
  {
    var from, to := ps[i].from, ps[i].to;
    assert IsName(from) && IsName(to);
    NoQuoteMeaning(a);
    NoQuoteMeaning(z);
    NoQuoteMeaning(sub);
    CutTwoQuotes(a, q, from + sub, z);
    CutTwoQuotes(a, q, to + sub, z);
    var line := Line(a, [Part(q, from + sub), Part(q, z)]);
    RewrittenIsClosed(line, ps);
    QuotedPartsClosed(ps, i, q, sub, z);
    NoScalarBefore(line, ps);
    var h := HeadCases(a, Tip(line.parts), ps);
  }

  lemma {:induction false} QuotedPartsClosed(ps: seq<Pattern>, i: nat, q: char, sub: string, z: string)
    requires Compatible(ps) && i < |ps| && IsSubpath(sub)
    ensures ClosedParts([Part(q, ps[i].from + sub), Part(q, z)], ps) == [Part(q, ps[i].to + sub), Part(q, z)]
  {
    var parts := [Part(q, ps[i].from + sub), Part(q, z)];
    SubpathIsNamed(ps[i].from, sub);
    PartTaken(parts, ps, i, 0);
    var last := PartCases(parts, ps, 1);
  }

  predicate IsPad(s: string) {
    forall c | c in s :: c == ' '
  }

  /** The end of the line, or a comment after a blank. */
  predicate IsComment(s: string) {
    s == "" || (|s| >= 2 && s[0] == ' ' && s[1] == '#' && HasNoQuote(s))
  }

  function NameKey(pad: string, item: bool): string {
    pad + if item then "- name: " else "name: "
  }

  /** A `name:` value, also in a list item, gives way to the new name. */
  lemma {:induction false} NameValueRewritten(ps: seq<Pattern>, i: nat, pad: string, item: bool, comment: string)
    requires Compatible(ps) && i < |ps| && IsPad(pad) && IsComment(comment)
    ensures Rewritten(NameKey(pad, item) + ps[i].from + comment, ps) == NameKey(pad, item) + ps[i].to + comment
  {
    var key, from, to := NameKey(pad, item), ps[i].from, ps[i].to;
    var head := key + from + comment;
    assert IsName(from) && IsName(to);
    KeyHasNoQuote(pad, item);
    NoQuoteMeaning(comment);
    assert IsScalar(head, from) && ScalarStart(head) == Some(|key|) by { NameValueIsScalar(pad, item, from, comment); }
    HeadRewritten(ps, i, key, comment);
  }

  lemma {:induction false} HeadRewritten(ps: seq<Pattern>, i: nat, key: string, comment: string)
    requires Compatible(ps) && i < |ps| && NoQuotes(key + ps[i].from + comment) && IsName(ps[i].from)
    requires var head := key + ps[i].from + comment; IsScalar(head, ps[i].from) && ScalarStart(head) == Some(|key|)
    ensures Rewritten(key + ps[i].from + comment, ps) == key + ps[i].to + comment
  {
    var head := key + ps[i].from + comment;
    var line := Line(head, []);
    assert Flat(line) == head && head + "" == head;
    RewrittenIsClosed(line, ps);
    OnlyScalar(head, "", ps, i);
    assert ClosedParts([], ps) == [];
    PassHeadAt(key, ps[i], comment);
    var after := key + ps[i].to + comment;
    assert Flat(Line(after, [])) == after;
  }

  lemma {:induction false} PassHeadAt(key: string, p: Pattern, comment: string)
    requires NoQuotes(key + p.from + comment) && IsName(p.from)
    requires var head := key + p.from + comment; IsScalar(head, p.from) && ScalarStart(head) == Some(|key|)
    ensures PassHead(key + p.from + comment, "", p) == key + p.to + comment
  {
    var head := key + p.from + comment;
    assert head + "" == head && head[..|key|] == key && head[|key| + |p.from|..] == comment;
  }

  lemma KeyHasNoQuote(pad: string, item: bool)
    requires IsPad(pad)
    ensures NoQuotes(NameKey(pad, item))
  {
    forall k | 0 <= k < |pad|
      ensures !IsQuote(pad[k])
    {
      assert pad[k] in pad;
    }
  }

  lemma {:induction false} NameValueIsScalar(pad: string, item: bool, name: string, comment: string)
    requires IsPad(pad) && IsComment(comment) && IsName(name)
    ensures var key := NameKey(pad, item); var s := key + name + comment;
      IsScalar(s, name) && ScalarStart(s) == Some(|key|)
  {
    var key := NameKey(pad, item);
    var s := key + name + comment;
    KeyCells(pad, item, name, comment);
    KeyFound(s, |pad|, item);
    assert s[|key|..|key| + |name|] == name;
    ScalarEnds(s, |key| + |name|, comment);
  }

  predicate IsKeyAt(s: string, n: nat, item: bool) {
    var at := if item then n + 2 else n;
    && at + 6 < |s| && (forall k :: 0 <= k < n ==> s[k] == ' ') && (item ==> s[n] == '-' && s[n + 1] == ' ')
    && s[at] == 'n' && s[at + 1] == 'a' && s[at + 2] == 'm' && s[at + 3] == 'e' && s[at + 4] == ':' && s[at + 5] == ' '
    && !IsSpace(s[at + 6])
  }

  lemma {:induction false} KeyCells(pad: string, item: bool, name: string, comment: string)
    requires IsPad(pad) && IsName(name)
    ensures IsKeyAt(NameKey(pad, item) + name + comment, |pad|, item)
  {
    var mark := if item then "- name: " else "name: ";
    var s := NameKey(pad, item) + name + comment;
    forall k | 0 <= k < |pad|
      ensures s[k] == ' '
    {
      assert s[k] == pad[k] && pad[k] in pad;
    }
    assert forall k :: 0 <= k < |mark| ==> s[|pad| + k] == mark[k];
    assert s[|pad| + |mark|] == name[0] && !IsSpace(name[0]);
  }

  lemma {:induction false} KeyFound(s: string, n: nat, item: bool)
    requires IsKeyAt(s, n, item)
    ensures ScalarStart(s) == Some(if item then n + 8 else n + 6)
  {
    var at := if item then n + 2 else n;
    SpaceSkipped(s, 0, n);
    if item { SpaceSkipped(s, n + 1, at); }
    assert KeyStart(s) == at;
    assert s[at..at + 5] == "name:";
    BlankUntil(s, at + 5, at + 6);
  }

  lemma {:induction false} ScalarEnds(s: string, end: nat, comment: string)
    requires end <= |s| && s[end..] == comment && IsComment(comment)
    ensures IsScalarEnd(s[end..])
  {
    if comment != "" { BlankUntil(comment, 0, 1); }
  }

  // ---------------------------------------------------------------------
  // The table
  // ---------------------------------------------------------------------

  /** The core package and a plugin, in both directions. */
  lemma VendoredNames()
    ensures Upstream(RENAMES[0]) == "cordis" && Scoped(RENAMES[0]) == "@deepseek-ai/cordis"
    ensures Upstream(RENAMES[3]) == "@cordisjs/plugin-loader"
    ensures Scoped(RENAMES[3]) == "@deepseek-ai/cordis-plugin-loader"
    ensures forall i :: 0 <= i < |RENAMES| ==>
      && Patterns(RENAMES, false)[i] == Pattern(Upstream(RENAMES[i]), Upstream(RENAMES[i]), Scoped(RENAMES[i]))
      && Patterns(RENAMES, true)[i] == Pattern(Upstream(RENAMES[i]), Scoped(RENAMES[i]), Upstream(RENAMES[i]))
  {
  }

  function IsActive(skips: set<string>): Pattern -> bool {
    (p: Pattern) => p.upstream !in skips
  }

  /** Exactly the patterns whose upstream name is not skipped, in their order. */
  lemma {:induction false} ActiveKept(all: seq<Pattern>, skips: set<string>)
    ensures Keeps(Active(all, skips), all, IsActive(skips))
  {
    if all == [] {
      KeepsNone(IsActive(skips));
    } else {
      var earlier, last := all[..|all| - 1], all[|all| - 1];
      ActiveKept(earlier, skips);
      KeepsOneMore(Active(earlier, skips), earlier, last, IsActive(skips));
      assert earlier + [last] == all;
    }
  }
}
