/** The table of vendored packages, and why its names never get in each other's
    way, in whatever order they are applied. */
module RescopeTable {
  import opened Strings
  import opened RescopeTokens
  import opened Rescope

  /** A package named alike under the scope, or one of the upstream plugins. */
  datatype Rename = Bare(name: string) | Plugin(name: string)

  const UPSTREAM_PLUGIN := "@cordisjs/plugin-"
  const SCOPE := "@deepseek-ai/"
  const SCOPED_PLUGIN := "cordis-plugin-"

  const RENAMES := [
    Bare("cordis"), Bare("cosmokit"), Bare("schemastery"),
    Plugin("loader"), Plugin("include"), Plugin("group"), Plugin("timer"), Plugin("hmr"), Plugin("logger-console")
  ]

  function Upstream(r: Rename): string {
    match r
    case Bare(name) => name
    case Plugin(name) => UPSTREAM_PLUGIN + name
  }

  /** The scoped name without its scope. */
  function ScopedWord(r: Rename): string {
    match r
    case Bare(name) => name
    case Plugin(name) => SCOPED_PLUGIN + name
  }

  function Scoped(r: Rename): string {
    SCOPE + ScopedWord(r)
  }

  function PatternOf(r: Rename, reverse: bool): Pattern {
    if reverse then Pattern(Upstream(r), Scoped(r), Upstream(r)) else Pattern(Upstream(r), Upstream(r), Scoped(r))
  }

  /** The patterns in the order of the renames given. */
  function Patterns(renames: seq<Rename>, reverse: bool): (ps: seq<Pattern>)
    ensures |ps| == |renames| && forall i :: 0 <= i < |ps| ==> ps[i] == PatternOf(renames[i], reverse)
  {
    seq(|renames|, i requires 0 <= i < |renames| => PatternOf(renames[i], reverse))
  }

  predicate IsWordChar(c: char) {
    'a' <= c <= 'z' || c == '-'
  }

  predicate IsWord(s: string) {
    s != [] && forall i | 0 <= i < |s| :: IsWordChar(s[i])
  }

  predicate IsRename(r: Rename) {
    IsWord(r.name) && (r.Bare? ==> !StartsWith(r.name, SCOPED_PLUGIN))
  }

  ghost predicate IsTable(renames: seq<Rename>) {
    && (forall i :: 0 <= i < |renames| ==> IsRename(renames[i]))
    && (forall i, j :: 0 <= i < |renames| && 0 <= j < |renames| && i != j ==> renames[i] != renames[j])
  }

  lemma ScopedWordIsWord(r: Rename)
    requires IsRename(r)
    ensures IsWord(ScopedWord(r))
  {
  }

  predicate IsNameChar(c: char) {
    !IsQuote(c) && !IsSpace(c) && c != '#'
  }

  lemma NameOf(front: string, word: string)
    requires (forall i :: 0 <= i < |front| ==> IsNameChar(front[i])) && IsWord(word)
    ensures IsName(front + word)
  {
    var name := front + word;
    forall i | 0 <= i < |name|
      ensures IsNameChar(name[i])
    {
      if i >= |front| { assert name[i] == word[i - |front|] && IsWordChar(name[i]); }
    }
  }

  lemma Fronts()
    ensures forall i :: 0 <= i < |UPSTREAM_PLUGIN| ==> IsNameChar(UPSTREAM_PLUGIN[i])
    ensures forall i :: 0 <= i < |SCOPE| ==> IsNameChar(SCOPE[i])
  {
  }

  lemma AreNames(r: Rename)
    requires IsRename(r)
    ensures IsName(Upstream(r)) && IsName(Scoped(r))
  {
    Fronts();
    ScopedWordIsWord(r);
    NameOf(SCOPE, ScopedWord(r));
    if r.Plugin? {
      NameOf(UPSTREAM_PLUGIN, r.name);
    } else {
      NameOf([], r.name);
      assert [] + r.name == r.name;
    }
  }

  /** Different words after the same text are apart: neither holds a slash. */
  lemma WordsApart(front: string, a: string, b: string)
    requires IsWord(a) && IsWord(b) && a != b
    ensures Apart(front + a, front + b)
  {
    NoWordBelow(front, a, b);
    NoWordBelow(front, b, a);
  }

  lemma NoWordBelow(front: string, a: string, b: string)
    requires IsWord(a) && IsWord(b) && a != b
    ensures !IsPathPrefix(front + a, front + b)
  {
    var x, y := front + a, front + b;
    assert x[|front|..] == a && y[|front|..] == b;
    if |x| < |y| {
      assert y[|x|] == b[|a|] && IsWordChar(b[|a|]);
      assert (x + "/")[|x|] == '/';
      assert |x| + 1 <= |y| ==> y[..|x| + 1][|x|] == y[|x|];
    }
  }

  lemma DifferentStarts(a: string, b: string, k: nat)
    requires k < |a| && k < |b| && a[k] != b[k]
    ensures Apart(a, b)
  {
    NotBelow(a, b, k);
    NotBelow(b, a, k);
  }

  lemma NotBelow(a: string, b: string, k: nat)
    requires k < |a| && k < |b| && a[k] != b[k]
    ensures !IsPathPrefix(a, b)
  {
    if |a| + 1 <= |b| { assert b[..|a| + 1][k] == b[k] && (a + "/")[k] == a[k]; }
  }

  lemma UpstreamApartFromScoped(r: Rename, q: Rename)
    requires IsRename(r) && IsRename(q)
    ensures Apart(Upstream(r), Scoped(q)) && Apart(Scoped(q), Upstream(r))
  {
    var a, b := Upstream(r), Scoped(q);
    assert b[0] == SCOPE[0] == '@' && b[1] == SCOPE[1] == 'd';
    if r.Plugin? {
      assert a[1] == UPSTREAM_PLUGIN[1] == 'c';
      DifferentStarts(a, b, 1);
    } else {
      assert IsWordChar(a[0]);
      DifferentStarts(a, b, 0);
    }
  }

  lemma UpstreamsApart(r: Rename, q: Rename)
    requires IsRename(r) && IsRename(q) && r != q
    ensures Apart(Upstream(r), Upstream(q))
  {
    if r.Plugin? && q.Plugin? {
      WordsApart(UPSTREAM_PLUGIN, r.name, q.name);
    } else if r.Bare? && q.Bare? {
      WordsApart([], r.name, q.name);
      assert [] + r.name == r.name && [] + q.name == q.name;
    } else {
      assert UPSTREAM_PLUGIN[0] == '@' && IsWordChar(r.name[0]) && IsWordChar(q.name[0]);
      DifferentStarts(Upstream(r), Upstream(q), 0);
    }
  }

  lemma ScopedApart(r: Rename, q: Rename)
    requires IsRename(r) && IsRename(q) && r != q
    ensures Apart(Scoped(r), Scoped(q))
  {
    ScopedWordIsWord(r);
    ScopedWordIsWord(q);
    ScopedWordsDiffer(r, q);
    WordsApart(SCOPE, ScopedWord(r), ScopedWord(q));
  }

  lemma ScopedWordsDiffer(r: Rename, q: Rename)
    requires IsRename(r) && IsRename(q) && r != q
    ensures ScopedWord(r) != ScopedWord(q)
  {
    var front := SCOPED_PLUGIN;
    assert r.Plugin? ==> ScopedWord(r)[..|front|] == front && ScopedWord(r)[|front|..] == r.name;
    assert q.Plugin? ==> ScopedWord(q)[..|front|] == front && ScopedWord(q)[|front|..] == q.name;
  }

  /** A table's patterns, in either direction and any order, are compatible. */
  lemma TableIsCompatible(renames: seq<Rename>, reverse: bool)
    requires IsTable(renames)
    ensures Compatible(Patterns(renames, reverse))
  {
    var ps := Patterns(renames, reverse);
    forall i | 0 <= i < |ps|
      ensures IsName(ps[i].from) && IsName(ps[i].to)
    {
      AreNames(renames[i]);
    }
    forall i, j | 0 <= i < |ps| && 0 <= j < |ps|
      ensures Apart(ps[i].from, ps[j].to)
    {
      UpstreamApartFromScoped(renames[i], renames[j]);
      UpstreamApartFromScoped(renames[j], renames[i]);
    }
    forall i, j | 0 <= i < |ps| && 0 <= j < |ps| && i != j
      ensures Apart(ps[i].from, ps[j].from)
    {
      UpstreamsApart(renames[i], renames[j]);
      ScopedApart(renames[i], renames[j]);
    }
  }

  /** The two directions of one table undo each other's patterns. */
  lemma TableReverses(renames: seq<Rename>, reordered: seq<Rename>)
    requires forall r :: r in renames <==> r in reordered
    ensures AreReverse(Patterns(reordered, true), Patterns(renames, false))
  {
    var ps, rs := Patterns(renames, false), Patterns(reordered, true);
    forall i | 0 <= i < |ps|
      ensures IsUndone(rs, ps[i])
    {
      var r := renames[i];
      assert r in reordered;
      var j :| 0 <= j < |reordered| && reordered[j] == r;
      assert Undoes(rs[j], ps[i]);
    }
    forall j | 0 <= j < |rs|
      ensures IsUndoing(ps, rs[j])
    {
      var r := reordered[j];
      assert r in renames;
      var i :| 0 <= i < |renames| && renames[i] == r;
      assert Undoes(rs[j], ps[i]);
    }
  }

  lemma VendoredIsTable()
    ensures IsTable(RENAMES)
  {
    BareNames();
    PluginNames();
    PluginsDiffer();
  }

  lemma BareNames()
    ensures forall i :: 0 <= i < 3 ==> IsRename(RENAMES[i])
    ensures RENAMES[0] != RENAMES[1] && RENAMES[0] != RENAMES[2] && RENAMES[1] != RENAMES[2]
  {
    assert SCOPED_PLUGIN[6] == '-' && |SCOPED_PLUGIN| == 14;
  }

  lemma PluginNames()
    ensures forall i :: 3 <= i < 9 ==> IsRename(RENAMES[i])
  {
  }

  lemma PluginsDiffer()
    ensures forall i, j :: 3 <= i < j < 9 ==> RENAMES[i] != RENAMES[j]
  {
  }
}
