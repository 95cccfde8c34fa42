/** The declarations a config type is pasted with: a worklist that follows
    package-local type names from the config type, keeps imported names as
    references, and reports names that do not mean one thing throughout. */
module ConfigClosure {
  import opened Wrappers
  import opened Sequences

  /** A declaration is found by its own name, in a file, at a line. */
  datatype Decl = Decl(name: string, file: string, line: nat)

  datatype TypeRef = TypeRef(imported: string, specifier: string)

  /** What a name used in a file resolves to. */
  datatype Resolution = Local(file: string, line: nat) | Imported(ref: TypeRef)

  datatype Item = Item(name: string, from: string)

  /** `uses` lists the non-global type names a declaration mentions. */
  datatype Package = Package(root: Item, resolve: map<Item, Resolution>, uses: map<Decl, seq<string>>)

  datatype Violation =
    | Unresolved(item: Item)
    | RootImported(item: Item)
    | LocalThenImported(item: Item)
    | ImportedTwice(item: Item)
    | LocalTwice(item: Item)
    | ImportedThenLocal(item: Item)

  function Uses(p: Package, d: Decl): seq<string> {
    if d in p.uses then p.uses[d] else []
  }

  function DeclOf(name: string, r: Resolution): Decl
    requires r.Local?
  {
    Decl(name, r.file, r.line)
  }

  ghost predicate LeadsTo(p: Package, a: Item, b: Item) {
    a in p.resolve && p.resolve[a].Local? && b.from == p.resolve[a].file && b.name in Uses(p, DeclOf(a.name, p.resolve[a]))
  }

  ghost predicate IsTrail(p: Package, t: seq<Item>) {
    t != [] && t[0] == p.root && forall i :: 0 <= i < |t| - 1 ==> LeadsTo(p, t[i], t[i + 1])
  }

  /** The item is reached from the config type through package-local declarations. */
  ghost predicate Reached(p: Package, item: Item) {
    exists t :: IsTrail(p, t) && t[|t| - 1] == item
  }

  lemma RootReached(p: Package)
    ensures Reached(p, p.root)
  {
    assert IsTrail(p, [p.root]);
  }

  lemma NextReached(p: Package, a: Item, b: Item)
    requires Reached(p, a) && LeadsTo(p, a, b)
    ensures Reached(p, b)
  {
    var t :| IsTrail(p, t) && t[|t| - 1] == a;
    assert IsTrail(p, t + [b]);
  }

  /** A set that holds the root and everything its members lead to holds all
      that is reached. */
  lemma {:induction false} ReachedStays(p: Package, items: set<Item>, t: seq<Item>)
    requires p.root in items && forall a, b :: a in items && LeadsTo(p, a, b) ==> b in items
    requires IsTrail(p, t)
    ensures t[|t| - 1] in items
  {
    if |t| > 1 {
      ReachedStays(p, items, t[..|t| - 1]);
      assert LeadsTo(p, t[|t| - 2], t[|t| - 1]);
    }
  }

  ghost predicate Resolves(p: Package, item: Item, r: Resolution) {
    Reached(p, item) && item in p.resolve && p.resolve[item] == r
  }

  /** Every reached name resolves, means the same wherever it is reached from,
      and the config type's own name is not an import. */
  ghost predicate Unambiguous(p: Package) {
    && (forall a :: Reached(p, a) ==> a in p.resolve)
    && (forall a, r :: Resolves(p, a, r) && a.name == p.root.name ==> r.Local?)
    && (forall a, r, b, s :: Resolves(p, a, r) && Resolves(p, b, s) && a.name == b.name ==> r == s)
  }

  /** Where an entry of the tables came from. */
  ghost predicate HasSource(p: Package, name: string, r: Resolution) {
    exists from :: Resolves(p, Item(name, from), r)
  }

  ghost predicate TablesSound(p: Package, pasted: map<string, Decl>, refs: map<string, TypeRef>) {
    && (forall n :: n in pasted ==>
          pasted[n].name == n && HasSource(p, n, Local(pasted[n].file, pasted[n].line)))
    && (forall n :: n in refs ==> HasSource(p, n, Imported(refs[n])))
    && pasted.Keys !! refs.Keys
    && p.root.name !in refs
  }

  ghost predicate PastesMatch(pasted: map<string, Decl>, pastes: seq<Decl>) {
    && NoDuplicates(pastes)
    && (forall d :: d in pastes ==> d.name in pasted && pasted[d.name] == d)
    && (forall n :: n in pasted ==> pasted[n].name == n && pasted[n] in pastes)
  }

  ghost predicate Handled(p: Package, item: Item, pasted: map<string, Decl>, refs: map<string, TypeRef>) {
    && item in p.resolve
    && match p.resolve[item]
       case Local(_, _) => item.name in pasted && pasted[item.name] == DeclOf(item.name, p.resolve[item])
       case Imported(ref) => item.name in refs && refs[item.name] == ref
  }

  /** Everything the pasted declarations mention is handled or waiting. */
  ghost predicate Covered(p: Package, pasted: map<string, Decl>, done: set<Item>, queue: seq<Item>) {
    && (p.root in done || p.root in queue)
    && forall n, m :: n in pasted && m in Uses(p, pasted[n]) ==>
         Item(m, pasted[n].file) in done || Item(m, pasted[n].file) in queue
  }

  function Mentions(names: seq<string>, file: string): (items: seq<Item>)
    ensures |items| == |names| && forall i :: 0 <= i < |items| ==> items[i] == Item(names[i], file)
  {
    seq(|names|, i requires 0 <= i < |names| => Item(names[i], file))
  }

  /** All names that can ever be waiting. */
  ghost function AllNames(p: Package): set<string> {
    {p.root.name} + set d, i | d in p.uses && 0 <= i < |p.uses[d]| :: p.uses[d][i]
  }

  lemma Clash(p: Package, item: Item, r: Resolution, s: Resolution)
    requires Resolves(p, item, r) && HasSource(p, item.name, s) && r != s
    ensures !Unambiguous(p)
  {
    var from :| Resolves(p, Item(item.name, from), s);
    assert Resolves(p, item, r) && Resolves(p, Item(item.name, from), s);
  }

  ghost predicate Waiting(p: Package, queue: seq<Item>) {
    forall a :: a in queue ==> Reached(p, a) && a.name in AllNames(p)
  }

  /** While nothing has been reported, everything dealt with is in the tables. */
  ghost predicate Complete(p: Package, pasted: map<string, Decl>, pastes: seq<Decl>, refs: map<string, TypeRef>,
                           done: set<Item>, queue: seq<Item>) {
    && Covered(p, pasted, done, queue)
    && (forall a :: a in done ==> Handled(p, a, pasted, refs))
    && (if done == {} then queue == [p.root] && pastes == [] else pastes != [] && pastes[0].name == p.root.name)
  }

  lemma RefAdded(p: Package, pasted: map<string, Decl>, pastes: seq<Decl>, refs: map<string, TypeRef>,
                 done: set<Item>, queue: seq<Item>, ref: TypeRef)
    requires queue != [] && Complete(p, pasted, pastes, refs, done, queue)
    requires queue[0] in p.resolve && p.resolve[queue[0]] == Imported(ref) && queue[0].name != p.root.name
    requires queue[0].name in refs ==> refs[queue[0].name] == ref
    ensures Complete(p, pasted, pastes, refs[queue[0].name := ref], done + {queue[0]}, queue[1..])
  {
  }

  lemma DeclAdded(p: Package, pasted: map<string, Decl>, pastes: seq<Decl>, refs: map<string, TypeRef>,
                  done: set<Item>, queue: seq<Item>, decl: Decl)
    requires queue != [] && Complete(p, pasted, pastes, refs, done, queue)
    requires queue[0] in p.resolve && p.resolve[queue[0]].Local? && queue[0].name !in pasted
    requires decl == DeclOf(queue[0].name, p.resolve[queue[0]])
    ensures Complete(p, pasted[decl.name := decl], pastes + [decl], refs, done + {queue[0]},
      queue[1..] + Mentions(Uses(p, decl), decl.file))
  {
    var mentions := Mentions(Uses(p, decl), decl.file);
    var pasted' := pasted[decl.name := decl];
    forall n, m | n in pasted' && m in Uses(p, pasted'[n])
      ensures Item(m, pasted'[n].file) in done + {queue[0]} || Item(m, pasted'[n].file) in queue[1..] + mentions
    {
      if n == decl.name {
        var i :| 0 <= i < |Uses(p, decl)| && Uses(p, decl)[i] == m;
        assert mentions[i] == Item(m, decl.file);
      }
    }
  }

  lemma MentionsWaiting(p: Package, item: Item, decl: Decl)
    requires Reached(p, item) && item in p.resolve && p.resolve[item].Local?
    requires decl == DeclOf(item.name, p.resolve[item])
    ensures Waiting(p, Mentions(Uses(p, decl), decl.file))
  {
    forall a | a in Mentions(Uses(p, decl), decl.file)
      ensures Reached(p, a) && a.name in AllNames(p)
    {
      NextReached(p, item, a);
    }
  }

  lemma RefKeepsSound(p: Package, pasted: map<string, Decl>, refs: map<string, TypeRef>, item: Item, ref: TypeRef)
    requires TablesSound(p, pasted, refs) && Resolves(p, item, Imported(ref))
    requires item.name !in pasted && item.name != p.root.name
    ensures TablesSound(p, pasted, refs[item.name := ref])
  {
    assert item == Item(item.name, item.from);
  }

  lemma DeclKeepsSound(p: Package, pasted: map<string, Decl>, pastes: seq<Decl>, refs: map<string, TypeRef>, item: Item, decl: Decl)
    requires TablesSound(p, pasted, refs) && PastesMatch(pasted, pastes)
    requires Resolves(p, item, Local(decl.file, decl.line)) && decl.name == item.name
    requires item.name !in pasted && item.name !in refs
    ensures TablesSound(p, pasted[decl.name := decl], refs)
    ensures PastesMatch(pasted[decl.name := decl], pastes + [decl])
  {
    assert item == Item(item.name, item.from);
    var pasted' := pasted[decl.name := decl];
    forall n | n in pasted'
      ensures pasted'[n] in pastes + [decl]
    {
      if n == decl.name { assert (pastes + [decl])[|pastes|] == decl; }
    }
  }

  // ---------------------------------------------------------------------
  // The order of things
  // ---------------------------------------------------------------------

  /** Every item that waits in the course of the collection, in turn: the config
      type, then what each pasted declaration mentions. */
  ghost function History(p: Package, pastes: seq<Decl>): seq<Item> {
    if pastes == [] then [p.root]
    else
      var last := pastes[|pastes| - 1];
      History(p, pastes[..|pastes| - 1]) + seq(|Uses(p, last)|, i requires 0 <= i < |Uses(p, last)| => Item(Uses(p, last)[i], last.file))
  }

  /** The item resolves, and is not an import of the config type's name. */
  predicate Counts(p: Package, item: Item) {
    item in p.resolve && !(p.resolve[item].Imported? && item.name == p.root.name)
  }

  /** The first of its name that counts settles what the name means. */
  ghost predicate Settles(p: Package, items: seq<Item>, k: int) {
    && 0 <= k < |items| && Counts(p, items[k])
    && forall j :: 0 <= j < k && items[j].name == items[k].name ==> !Counts(p, items[j])
  }

  ghost predicate SettlesLocal(p: Package, items: seq<Item>, k: int) {
    Settles(p, items, k) && p.resolve[items[k]].Local?
  }

  /** What is reported of an item whose name means `first`. */
  function Disagreement(item: Item, first: Resolution, own: Resolution): Violation {
    if own.Imported? then (if first.Local? then LocalThenImported(item) else ImportedTwice(item))
    else if first.Local? then LocalTwice(item) else ImportedThenLocal(item)
  }

  /** The report names the item and says which meaning came first. */
  ghost predicate Tells(v: Violation, item: Item, first: Resolution, own: Resolution) {
    match v
    case LocalThenImported(i) => i == item && first.Local? && own.Imported?
    case ImportedTwice(i) => i == item && first.Imported? && own.Imported?
    case LocalTwice(i) => i == item && first.Local? && own.Local?
    case ImportedThenLocal(i) => i == item && first.Imported? && own.Local?
    case _ => false
  }

  ghost predicate IsFault(p: Package, items: seq<Item>, k: int, v: Violation) {
    0 <= k < |items| &&
    var item := items[k];
    if item !in p.resolve then v == Unresolved(item)
    else if !Counts(p, item) then v == RootImported(item)
    else
      exists j :: 0 <= j < k && items[j].name == item.name && Settles(p, items, j)
        && p.resolve[items[j]] != p.resolve[item] && Tells(v, item, p.resolve[items[j]], p.resolve[item])
  }

  ghost predicate HasFault(p: Package, items: seq<Item>, k: int) {
    exists v :: IsFault(p, items, k, v)
  }

  ghost predicate PastesAt(p: Package, items: seq<Item>, pastes: seq<Decl>, at: seq<int>) {
    && |at| == |pastes| && IsRising(at)
    && (forall k {:trigger k in at} :: k in at <==> SettlesLocal(p, items, k))
    && forall i :: 0 <= i < |at| ==> SettlesLocal(p, items, at[i]) && pastes[i] == DeclOf(items[at[i]].name, p.resolve[items[at[i]]])
  }

  ghost predicate FaultsAt(p: Package, items: seq<Item>, violations: seq<Violation>, at: seq<int>) {
    && |at| == |violations| && IsRising(at)
    && (forall k {:trigger k in at} :: k in at <==> HasFault(p, items, k))
    && forall i :: 0 <= i < |at| ==> IsFault(p, items, at[i], violations[i])
  }

  /** Pasted are the declarations of the items that settle a name, referenced the
      imports of those that do, and reported the faults, each in their order. */
  ghost predicate IsAccount(
    p: Package, items: seq<Item>, pastes: seq<Decl>, refs: map<string, TypeRef>, violations: seq<Violation>)
  {
    && (exists at :: PastesAt(p, items, pastes, at))
    && (exists at :: FaultsAt(p, items, violations, at))
    && forall n, ref :: n in refs && refs[n] == ref <==> SettlesImport(p, items, n, ref)
  }

  ghost predicate SettlesImport(p: Package, items: seq<Item>, n: string, ref: TypeRef) {
    exists k :: Settles(p, items, k) && items[k].name == n && p.resolve[items[k]] == Imported(ref)
  }

  lemma NothingAccounted(p: Package)
    ensures IsAccount(p, [], [], map[], [])
  {
    var at: seq<int> := [];
    assert PastesAt(p, [], [], at) && FaultsAt(p, [], [], at);
  }

  lemma SettledBefore(p: Package, items: seq<Item>, x: Item, k: int)
    requires k != |items|
    ensures Settles(p, items + [x], k) <==> Settles(p, items, k)
  {
    assert forall j :: 0 <= j < |items| ==> (items + [x])[j] == items[j];
  }

  lemma FaultBefore(p: Package, items: seq<Item>, x: Item, k: int, v: Violation)
    requires k != |items|
    ensures IsFault(p, items + [x], k, v) <==> IsFault(p, items, k, v)
  {
    if 0 <= k < |items| {
      assert (items + [x])[k] == items[k];
      forall j | 0 <= j < k
        ensures (items + [x])[j] == items[j] && (Settles(p, items + [x], j) <==> Settles(p, items, j))
      {
        SettledBefore(p, items, x, j);
      }
    }
  }

  lemma HasFaultBefore(p: Package, items: seq<Item>, x: Item, k: int)
    requires k != |items|
    ensures HasFault(p, items + [x], k) <==> HasFault(p, items, k)
  {
    forall v
      ensures IsFault(p, items + [x], k, v) <==> IsFault(p, items, k, v)
    {
      FaultBefore(p, items, x, k, v);
    }
  }

  lemma {:induction false} PastesMore(p: Package, items: seq<Item>, x: Item, pastes: seq<Decl>, at: seq<int>)
    requires PastesAt(p, items, pastes, at)
    ensures var all := items + [x];
      if SettlesLocal(p, all, |items|) then PastesAt(p, all, pastes + [DeclOf(x.name, p.resolve[x])], at + [|items|])
      else PastesAt(p, all, pastes, at)
  {
    var all := items + [x];
    forall k
      ensures k != |items| ==> (k in at <==> SettlesLocal(p, all, k))
      ensures |items| !in at
    {
      assert |items| in at <==> SettlesLocal(p, items, |items|);
      if k != |items| { SettledBefore(p, items, x, k); }
    }
    forall i | 0 <= i < |at|
      ensures SettlesLocal(p, all, at[i]) && all[at[i]] == items[at[i]]
    {
      assert at[i] in at;
      SettledBefore(p, items, x, at[i]);
    }
    assert forall k :: k in at + [|items|] <==> k in at || k == |items|;
  }

  lemma {:induction false} FaultsMore(p: Package, items: seq<Item>, x: Item, violations: seq<Violation>, at: seq<int>, v: Violation)
    requires FaultsAt(p, items, violations, at)
    ensures var all := items + [x];
      && (IsFault(p, all, |items|, v) ==> FaultsAt(p, all, violations + [v], at + [|items|]))
      && (!HasFault(p, all, |items|) ==> FaultsAt(p, all, violations, at))
  {
    var all := items + [x];
    forall k
      ensures k != |items| ==> (k in at <==> HasFault(p, all, k))
      ensures |items| !in at
    {
      assert |items| in at <==> HasFault(p, items, |items|);
      if k != |items| { HasFaultBefore(p, items, x, k); }
    }
    forall i | 0 <= i < |at|
      ensures IsFault(p, all, at[i], violations[i]) && at[i] < |items|
    {
      assert at[i] in at;
      FaultBefore(p, items, x, at[i], violations[i]);
    }
    assert forall k :: k in at + [|items|] <==> k in at || k == |items|;
  }

  lemma {:induction false} ImportsMore(p: Package, items: seq<Item>, x: Item, n: string, ref: TypeRef)
    ensures SettlesImport(p, items + [x], n, ref) <==>
      SettlesImport(p, items, n, ref) || (Settles(p, items + [x], |items|) && x.name == n && p.resolve[x] == Imported(ref))
  {
    var all := items + [x];
    forall k | 0 <= k < |items|
      ensures all[k] == items[k] && (Settles(p, all, k) <==> Settles(p, items, k))
    {
      SettledBefore(p, items, x, k);
    }
    if SettlesImport(p, all, n, ref) {
      var k :| Settles(p, all, k) && all[k].name == n && p.resolve[all[k]] == Imported(ref);
      if k < |items| { assert Settles(p, items, k); }
    }
    if SettlesImport(p, items, n, ref) {
      var k :| Settles(p, items, k) && items[k].name == n && p.resolve[items[k]] == Imported(ref);
      assert Settles(p, all, k);
    }
  }

  /** Of the items of a name that count the first settles it. */
  lemma {:induction false} SomeSettles(p: Package, items: seq<Item>, k: nat) returns (first: nat)
    requires k < |items| && Counts(p, items[k])
    ensures first <= k && items[first].name == items[k].name && Settles(p, items, first)
    decreases k
  {
    if j :| 0 <= j < k && items[j].name == items[k].name && Counts(p, items[j]) {
      first := SomeSettles(p, items, j);
    } else {
      first := k;
    }
  }

  lemma SettledOnce(p: Package, items: seq<Item>, j: int, k: int)
    requires Settles(p, items, j) && Settles(p, items, k) && items[j].name == items[k].name
    ensures j == k
  {
  }

  /** What the tables say of a name is what the item that settles it means. */
  lemma {:induction false} TablesTell(p: Package, items: seq<Item>, pasted: map<string, Decl>, pastes: seq<Decl>,
                                      refs: map<string, TypeRef>, violations: seq<Violation>, k: int)
    requires IsAccount(p, items, pastes, refs, violations) && PastesMatch(pasted, pastes) && Settles(p, items, k)
    ensures var n, r := items[k].name, p.resolve[items[k]];
      && (r.Local? ==> n in pasted && pasted[n] == DeclOf(n, r) && n !in refs)
      && (r.Imported? ==> n in refs && refs[n] == r.ref && n !in pasted)
  {
    var n, r := items[k].name, p.resolve[items[k]];
    var at :| PastesAt(p, items, pastes, at);
    if r.Local? {
      assert k in at;
      var i :| 0 <= i < |at| && at[i] == k;
      assert pastes[i] in pastes;
      if n in refs { NoImportSettles(p, items, n, refs[n], k); }
    } else {
      assert SettlesImport(p, items, n, r.ref);
      if n in pasted { NoPasteSettles(p, items, pasted, pastes, at, n, k); }
    }
  }

  lemma NoImportSettles(p: Package, items: seq<Item>, n: string, ref: TypeRef, k: int)
    requires SettlesLocal(p, items, k) && items[k].name == n
    ensures !SettlesImport(p, items, n, ref)
  {
  }

  lemma NoPasteSettles(
    p: Package, items: seq<Item>, pasted: map<string, Decl>, pastes: seq<Decl>, at: seq<int>, n: string, k: int)
    requires PastesAt(p, items, pastes, at) && PastesMatch(pasted, pastes)
    requires Settles(p, items, k) && items[k].name == n && p.resolve[items[k]].Imported?
    ensures n !in pasted
  {
    if n in pasted {
      var i :| 0 <= i < |pastes| && pastes[i] == pasted[n];
      assert pastes[i] in pastes && pastes[i].name == n;
      SettledOnce(p, items, at[i], k);
    }
  }

  /** A name is in a table exactly when some item has settled it. */
  lemma {:induction false} InTablesIff(p: Package, items: seq<Item>, pasted: map<string, Decl>, pastes: seq<Decl>,
                                       refs: map<string, TypeRef>, violations: seq<Violation>, n: string)
    requires IsAccount(p, items, pastes, refs, violations) && PastesMatch(pasted, pastes)
    ensures n in pasted || n in refs <==> exists k :: Settles(p, items, k) && items[k].name == n
  {
    forall k | Settles(p, items, k) && items[k].name == n
      ensures n in pasted || n in refs
    {
      TablesTell(p, items, pasted, pastes, refs, violations, k);
    }
    if n in pasted {
      var at :| PastesAt(p, items, pastes, at);
      var i :| 0 <= i < |pastes| && pastes[i] == pasted[n];
      assert pastes[i] in pastes && pastes[i].name == n;
      assert Settles(p, items, at[i]) && items[at[i]].name == n;
    } else if n in refs {
      assert SettlesImport(p, items, n, refs[n]);
    }
  }

  /** An item settles its name exactly if it counts and no table has the name. */
  lemma {:induction false} NextSettlesIff(p: Package, items: seq<Item>, x: Item, pasted: map<string, Decl>, pastes: seq<Decl>,
                                          refs: map<string, TypeRef>, violations: seq<Violation>)
    requires IsAccount(p, items, pastes, refs, violations) && PastesMatch(pasted, pastes)
    ensures Settles(p, items + [x], |items|) <==> Counts(p, x) && x.name !in pasted && x.name !in refs
  {
    var all := items + [x];
    assert forall j :: 0 <= j < |items| ==> all[j] == items[j];
    InTablesIff(p, items, pasted, pastes, refs, violations, x.name);
    if k :| Settles(p, items, k) && items[k].name == x.name {
      assert Counts(p, all[k]);
    } else {
      forall j | 0 <= j < |items| && items[j].name == x.name
        ensures !Counts(p, items[j])
      {
        if Counts(p, items[j]) { var first := SomeSettles(p, items, j); }
      }
    }
  }

  /** And it is a fault as the tables say. */
  lemma {:induction false} NextFault(p: Package, items: seq<Item>, x: Item, pasted: map<string, Decl>, pastes: seq<Decl>,
                                     refs: map<string, TypeRef>, violations: seq<Violation>, v: Violation)
    requires IsAccount(p, items, pastes, refs, violations) && PastesMatch(pasted, pastes)
    ensures IsFault(p, items + [x], |items|, v) <==>
      if x !in p.resolve then v == Unresolved(x)
      else if !Counts(p, x) then v == RootImported(x)
      else if x.name in pasted then
        var first := Local(pasted[x.name].file, pasted[x.name].line);
        first != p.resolve[x] && v == Disagreement(x, first, p.resolve[x])
      else if x.name in refs then
        Imported(refs[x.name]) != p.resolve[x] && v == Disagreement(x, Imported(refs[x.name]), p.resolve[x])
      else false
  {
    var all := items + [x];
    assert forall j :: 0 <= j < |items| ==> all[j] == items[j];
    InTablesIff(p, items, pasted, pastes, refs, violations, x.name);
    forall j | 0 <= j < |items|
      ensures Settles(p, all, j) <==> Settles(p, items, j)
    {
      SettledBefore(p, items, x, j);
    }
    forall j | Settles(p, items, j) && items[j].name == x.name
      ensures p.resolve[items[j]] ==
        if x.name in pasted then Local(pasted[x.name].file, pasted[x.name].line) else Imported(refs[x.name])
      ensures x.name in pasted || x.name in refs
    {
      TablesTell(p, items, pasted, pastes, refs, violations, j);
    }
  }

  /** How an item changes the account: a fault is reported, a name that is new is
      entered, and anything else changes nothing. */
  lemma {:induction false} FaultAccounted(p: Package, items: seq<Item>, x: Item, pastes: seq<Decl>,
                                          refs: map<string, TypeRef>, violations: seq<Violation>, v: Violation)
    requires IsAccount(p, items, pastes, refs, violations)
    requires IsFault(p, items + [x], |items|, v) && !Settles(p, items + [x], |items|)
    ensures IsAccount(p, items + [x], pastes, refs, violations + [v])
  {
    var at :| PastesAt(p, items, pastes, at);
    var faults :| FaultsAt(p, items, violations, faults);
    PastesMore(p, items, x, pastes, at);
    FaultsMore(p, items, x, violations, faults, v);
    assert PastesAt(p, items + [x], pastes, at) && FaultsAt(p, items + [x], violations + [v], faults + [|items|]);
    forall n, ref
      ensures n in refs && refs[n] == ref <==> SettlesImport(p, items + [x], n, ref)
    {
      ImportsMore(p, items, x, n, ref);
    }
  }

  lemma {:induction false} ItemAccounted(p: Package, items: seq<Item>, x: Item, pastes: seq<Decl>,
                                         refs: map<string, TypeRef>, violations: seq<Violation>,
                                         pastes': seq<Decl>, refs': map<string, TypeRef>)
    requires IsAccount(p, items, pastes, refs, violations) && x in p.resolve && !HasFault(p, items + [x], |items|)
    requires pastes' == if SettlesLocal(p, items + [x], |items|) then pastes + [DeclOf(x.name, p.resolve[x])] else pastes
    requires refs' == if Settles(p, items + [x], |items|) && p.resolve[x].Imported? then refs[x.name := p.resolve[x].ref] else refs
    requires Settles(p, items + [x], |items|) ==> x.name !in refs
    ensures IsAccount(p, items + [x], pastes', refs', violations)
  {
    var at :| PastesAt(p, items, pastes, at);
    var faults :| FaultsAt(p, items, violations, faults);
    PastesMore(p, items, x, pastes, at);
    FaultsMore(p, items, x, violations, faults, Unresolved(x));
    assert PastesAt(p, items + [x], pastes', if SettlesLocal(p, items + [x], |items|) then at + [|items|] else at);
    assert FaultsAt(p, items + [x], violations, faults);
    forall n, ref
      ensures n in refs' && refs'[n] == ref <==> SettlesImport(p, items + [x], n, ref)
    {
      ImportsMore(p, items, x, n, ref);
      assert SettlesImport(p, items, x.name, ref) ==> x.name in refs;
    }
  }

  ghost predicate AreTables(p: Package, items: seq<Item>, t: Tables) {
    IsAccount(p, items, t.pastes, t.refs, t.violations) && PastesMatch(t.pasted, t.pastes)
  }

  datatype Tables = Tables(pasted: map<string, Decl>, pastes: seq<Decl>, refs: map<string, TypeRef>, violations: seq<Violation>)

  /** What is reported of an item, as the tables stand. */
  function FaultOf(p: Package, x: Item, t: Tables): Option<Violation> {
    if x !in p.resolve then Some(Unresolved(x))
    else if !Counts(p, x) then Some(RootImported(x))
    else if x.name in t.pasted then
      var first := Local(t.pasted[x.name].file, t.pasted[x.name].line);
      if first == p.resolve[x] then None else Some(Disagreement(x, first, p.resolve[x]))
    else if x.name in t.refs then
      if Imported(t.refs[x.name]) == p.resolve[x] then None
      else Some(Disagreement(x, Imported(t.refs[x.name]), p.resolve[x]))
    else None
  }

  lemma {:induction false} AccountGoesOn(p: Package, items: seq<Item>, x: Item, t: Tables)
    requires AreTables(p, items, t)
    ensures var all, fault := items + [x], FaultOf(p, x, t);
      if fault.Some? then IsAccount(p, all, t.pastes, t.refs, t.violations + [fault.value])
      else if x.name in t.pasted || x.name in t.refs then IsAccount(p, all, t.pastes, t.refs, t.violations)
      else if p.resolve[x].Local? then
        IsAccount(p, all, t.pastes + [DeclOf(x.name, p.resolve[x])], t.refs, t.violations)
      else IsAccount(p, all, t.pastes, t.refs[x.name := p.resolve[x].ref], t.violations)
  {
    var fault := FaultOf(p, x, t);
    NextSettlesIff(p, items, x, t.pasted, t.pastes, t.refs, t.violations);
    forall v
      ensures IsFault(p, items + [x], |items|, v) <==> fault == Some(v)
    {
      NextFault(p, items, x, t.pasted, t.pastes, t.refs, t.violations, v);
    }
    if fault.Some? {
      FaultAccounted(p, items, x, t.pastes, t.refs, t.violations, fault.value);
    } else {
      var settles := Settles(p, items + [x], |items|);
      ItemAccounted(p, items, x, t.pastes, t.refs, t.violations,
        if settles && p.resolve[x].Local? then t.pastes + [DeclOf(x.name, p.resolve[x])] else t.pastes,
        if settles && p.resolve[x].Imported? then t.refs[x.name := p.resolve[x].ref] else t.refs);
    }
  }

  lemma {:induction false} HistoryGoesOn(p: Package, passed: seq<Item>, item: Item, waiting: seq<Item>, queue: seq<Item>,
                                         before: seq<Decl>, after: seq<Decl>)
    requires waiting != [] && item == waiting[0] && passed != [] && passed[|passed| - 1] == item
    requires passed[..|passed| - 1] + waiting == History(p, before)
    requires
      || (after == before && queue == waiting[1..])
      || (|after| == |before| + 1 && after[..|before|] == before
          && var d := after[|before|]; queue == waiting[1..] + Mentions(Uses(p, d), d.file))
    ensures passed + queue == History(p, after)
  {
    var earlier := passed[..|passed| - 1];
    assert passed == earlier + [item] && waiting == [item] + waiting[1..];
    if after != before {
      var d := after[|before|];
      Regrouped(earlier, item, waiting[1..], Mentions(Uses(p, d), d.file));
      HistoryMore(p, before, after);
    }
  }

  lemma Regrouped(a: seq<Item>, x: Item, b: seq<Item>, c: seq<Item>)
    ensures a + ([x] + b) + c == (a + [x]) + (b + c)
  {
  }

  lemma {:induction false} HistoryMore(p: Package, before: seq<Decl>, after: seq<Decl>)
    requires |after| == |before| + 1 && after[..|before|] == before
    ensures var d := after[|before|]; History(p, after) == History(p, before) + Mentions(Uses(p, d), d.file)
  {
  }

  lemma RootIsImported(p: Package, item: Item, r: Resolution)
    requires Resolves(p, item, r) && r.Imported? && item.name == p.root.name
    ensures !Unambiguous(p)
  {
  }

  /** Whether the item enters a declaration. */
  predicate IsPasted(p: Package, x: Item, t: Tables) {
    FaultOf(p, x, t).None? && x.name !in t.pasted && x.name !in t.refs && p.resolve[x].Local?
  }

  /** The tables after one more item. */
  function NextTables(p: Package, x: Item, t: Tables): Tables {
    var fault := FaultOf(p, x, t);
    if fault.Some? then t.(violations := t.violations + [fault.value])
    else if IsPasted(p, x, t) then
      var decl := DeclOf(x.name, p.resolve[x]);
      t.(pasted := t.pasted[x.name := decl], pastes := t.pastes + [decl])
    else if p.resolve[x].Imported? then t.(refs := t.refs[x.name := p.resolve[x].ref])
    else t
  }

  function NextQueue(p: Package, queue: seq<Item>, t: Tables): seq<Item>
    requires queue != []
  {
    if IsPasted(p, queue[0], t) then
      var decl := DeclOf(queue[0].name, p.resolve[queue[0]]);
      queue[1..] + Mentions(Uses(p, decl), decl.file)
    else queue[1..]
  }

  ghost predicate IsCollecting(p: Package, t: Tables, done: set<Item>, queue: seq<Item>, passed: seq<Item>) {
    && Waiting(p, queue)
    && TablesSound(p, t.pasted, t.refs) && PastesMatch(t.pasted, t.pastes)
    && (t.violations != [] ==> !Unambiguous(p))
    && (t.violations == [] ==> Complete(p, t.pasted, t.pastes, t.refs, done, queue))
    && IsAccount(p, passed, t.pastes, t.refs, t.violations) && passed + queue == History(p, t.pastes)
  }

  lemma {:induction false} FaultIsAmbiguous(p: Package, x: Item, t: Tables)
    requires Reached(p, x) && TablesSound(p, t.pasted, t.refs) && FaultOf(p, x, t).Some?
    ensures !Unambiguous(p)
  {
    if x in p.resolve {
      if !Counts(p, x) { RootIsImported(p, x, p.resolve[x]); }
      else if x.name in t.pasted { Clash(p, x, p.resolve[x], Local(t.pasted[x.name].file, t.pasted[x.name].line)); }
      else { Clash(p, x, p.resolve[x], Imported(t.refs[x.name])); }
    }
  }

  lemma {:induction false} StepAccounted(
    p: Package, t: Tables, queue: seq<Item>, passed: seq<Item>)
    requires queue != [] && AreTables(p, passed, t) && passed + queue == History(p, t.pastes)
    ensures var t' := NextTables(p, queue[0], t);
      && IsAccount(p, passed + [queue[0]], t'.pastes, t'.refs, t'.violations)
      && (passed + [queue[0]]) + NextQueue(p, queue, t) == History(p, t'.pastes)
  {
    NextAccounted(p, t, queue[0], passed);
    NextInHistory(p, t, queue, passed);
  }

  lemma {:induction false} NextAccounted(p: Package, t: Tables, x: Item, passed: seq<Item>)
    requires AreTables(p, passed, t)
    ensures var t' := NextTables(p, x, t); IsAccount(p, passed + [x], t'.pastes, t'.refs, t'.violations)
  {
    AccountGoesOn(p, passed, x, t);
    if FaultOf(p, x, t).None? && x.name in t.refs {
      assert t.refs[x.name := t.refs[x.name]] == t.refs;
    }
  }

  lemma {:induction false} NextInHistory(p: Package, t: Tables, queue: seq<Item>, passed: seq<Item>)
    requires queue != [] && passed + queue == History(p, t.pastes)
    ensures (passed + [queue[0]]) + NextQueue(p, queue, t) == History(p, NextTables(p, queue[0], t).pastes)
  {
    var x := queue[0];
    assert (passed + [x])[..|passed + [x]| - 1] == passed;
    HistoryGoesOn(p, passed + [x], x, queue, NextQueue(p, queue, t), t.pastes, NextTables(p, x, t).pastes);
  }

  lemma {:induction false} StepSound(p: Package, t: Tables, queue: seq<Item>)
    requires queue != [] && Waiting(p, queue) && TablesSound(p, t.pasted, t.refs) && PastesMatch(t.pasted, t.pastes)
    ensures var t' := NextTables(p, queue[0], t);
      && TablesSound(p, t'.pasted, t'.refs) && PastesMatch(t'.pasted, t'.pastes) && Waiting(p, NextQueue(p, queue, t))
  {
    var x := queue[0];
    assert x in queue;
    if FaultOf(p, x, t).None? {
      if IsPasted(p, x, t) {
        var decl := DeclOf(x.name, p.resolve[x]);
        DeclKeepsSound(p, t.pasted, t.pastes, t.refs, x, decl);
        MentionsWaiting(p, x, decl);
      } else if p.resolve[x].Imported? {
        RefKeepsSound(p, t.pasted, t.refs, x, p.resolve[x].ref);
      }
    }
  }

  lemma {:induction false} StepComplete(p: Package, t: Tables, done: set<Item>, queue: seq<Item>)
    requires queue != [] && Complete(p, t.pasted, t.pastes, t.refs, done, queue) && FaultOf(p, queue[0], t).None?
    requires TablesSound(p, t.pasted, t.refs) && PastesMatch(t.pasted, t.pastes)
    ensures var t' := NextTables(p, queue[0], t);
      Complete(p, t'.pasted, t'.pastes, t'.refs, done + {queue[0]}, NextQueue(p, queue, t))
  {
    var x := queue[0];
    if IsPasted(p, x, t) {
      DeclAdded(p, t.pasted, t.pastes, t.refs, done, queue, DeclOf(x.name, p.resolve[x]));
    } else if p.resolve[x].Imported? {
      RefAdded(p, t.pasted, t.pastes, t.refs, done, queue, p.resolve[x].ref);
    } else {
      assert Handled(p, x, t.pasted, t.refs);
    }
  }

  lemma {:induction false} CollectStep(p: Package, t: Tables, done: set<Item>, queue: seq<Item>, passed: seq<Item>)
    requires queue != [] && IsCollecting(p, t, done, queue, passed)
    ensures IsCollecting(p, NextTables(p, queue[0], t), done + {queue[0]}, NextQueue(p, queue, t), passed + [queue[0]])
  {
    StepAccounted(p, t, queue, passed);
    StepSound(p, t, queue);
    StepReports(p, t, queue);
    if NextTables(p, queue[0], t).violations == [] { StepComplete(p, t, done, queue); }
  }

  lemma {:induction false} StepReports(p: Package, t: Tables, queue: seq<Item>)
    requires queue != [] && Waiting(p, queue) && TablesSound(p, t.pasted, t.refs) && (t.violations != [] ==> !Unambiguous(p))
    ensures var t' := NextTables(p, queue[0], t);
      if t'.violations == [] then t.violations == [] && FaultOf(p, queue[0], t).None? else !Unambiguous(p)
  {
    assert queue[0] in queue;
    if FaultOf(p, queue[0], t).Some? { FaultIsAmbiguous(p, queue[0], t); }
  }

  /** With every item either a name is new or the queue gets shorter. */
  lemma {:induction false} StepShrinks(p: Package, t: Tables, queue: seq<Item>)
    requires queue != [] && Waiting(p, queue)
    ensures var t' := NextTables(p, queue[0], t);
      || AllNames(p) - t'.pasted.Keys < AllNames(p) - t.pasted.Keys
      || (t'.pasted == t.pasted && |NextQueue(p, queue, t)| < |queue|)
  {
    assert queue[0] in queue;
    if IsPasted(p, queue[0], t) { assert queue[0].name in AllNames(p) - t.pasted.Keys; }
  }

  /** The turn of one item: the tables it leaves, and whether it entered a
      declaration. */
  method TakeItem(p: Package, item: Item, pasted0: map<string, Decl>, pastes0: seq<Decl>, refs0: map<string, TypeRef>,
                  violations0: seq<Violation>)
    returns (pasted: map<string, Decl>, pastes: seq<Decl>, refs: map<string, TypeRef>, violations: seq<Violation>,
             entered: Option<Decl>)
    requires p.root.name !in refs0
    ensures var t := Tables(pasted0, pastes0, refs0, violations0);
      && Tables(pasted, pastes, refs, violations) == NextTables(p, item, t)
      && entered == if IsPasted(p, item, t) then Some(DeclOf(item.name, p.resolve[item])) else None
  {
    pasted, pastes, refs, violations, entered := pasted0, pastes0, refs0, violations0, None;
    if item !in p.resolve {
      violations := violations + [Unresolved(item)];
    } else if p.resolve[item].Imported? {
      var ref := p.resolve[item].ref;
      if item.name == p.root.name {
        violations := violations + [RootImported(item)];
      } else if item.name in pasted {
        violations := violations + [LocalThenImported(item)];
      } else if item.name in refs && refs[item.name] != ref {
        violations := violations + [ImportedTwice(item)];
      } else {
        refs := refs[item.name := ref];
      }
    } else {
      var decl := DeclOf(item.name, p.resolve[item]);
      if item.name in pasted {
        if pasted[item.name].file != decl.file || pasted[item.name].line != decl.line {
          violations := violations + [LocalTwice(item)];
        }
      } else if item.name in refs {
        violations := violations + [ImportedThenLocal(item)];
      } else {
        pasted := pasted[item.name := decl];
        pastes := pastes + [decl];
        entered := Some(decl);
      }
    }
  }

  method CollectClosure(p: Package)
    returns (pastes: seq<Decl>, refs: map<string, TypeRef>, violations: seq<Violation>)
    ensures violations == [] <==> Unambiguous(p)
    ensures NoDuplicates(pastes)
    ensures violations == [] ==> ClosureOf(p, pastes, refs)
    ensures IsAccount(p, History(p, pastes), pastes, refs, violations)
  {
    pastes, refs, violations := [], map[], [];
    var pasted: map<string, Decl> := map[];
    var queue := [p.root];
    ghost var done: set<Item> := {};
    ghost var passed: seq<Item> := [];
    RootReached(p);
    NothingAccounted(p);
    while |queue| > 0
      invariant IsCollecting(p, Tables(pasted, pastes, refs, violations), done, queue, passed)
      decreases AllNames(p) - pasted.Keys, |queue|
    {
      var item := queue[0];
      ghost var t := Tables(pasted, pastes, refs, violations);
      CollectStep(p, t, done, queue, passed);
      StepShrinks(p, t, queue);
      var entered;
      pasted, pastes, refs, violations, entered := TakeItem(p, item, pasted, pastes, refs, violations);
      queue := queue[1..];
      if entered.Some? { queue := queue + Mentions(Uses(p, entered.value), entered.value.file); }
      done, passed := done + {item}, passed + [item];
    }
    assert passed + [] == passed;
    if violations == [] { ClosureComplete(p, pasted, pastes, refs, done); }
  }

  /** What the tables hold when nothing was reported: exactly the reached local
      declarations, the config type first, and exactly the reached imports; each
      reached name in one of the two tables. */
  ghost predicate ClosureOf(p: Package, pastes: seq<Decl>, refs: map<string, TypeRef>) {
    && pastes != [] && p.root in p.resolve && p.resolve[p.root].Local?
    && pastes[0] == DeclOf(p.root.name, p.resolve[p.root])
    && (forall d :: d in pastes <==> HasSource(p, d.name, Local(d.file, d.line)))
    && (forall n, ref :: n in refs && refs[n] == ref <==> HasSource(p, n, Imported(ref)))
    && (forall a :: Reached(p, a) ==> ((exists d :: d in pastes && d.name == a.name) <==> a.name !in refs))
  }

  lemma AllHandled(p: Package, pasted: map<string, Decl>, refs: map<string, TypeRef>, done: set<Item>, item: Item)
    requires Covered(p, pasted, done, [])
    requires forall a :: a in done ==> Handled(p, a, pasted, refs)
    requires Reached(p, item)
    ensures item in done
  {
    forall a, b | a in done && LeadsTo(p, a, b)
      ensures b in done
    {
      assert Handled(p, a, pasted, refs);
      assert b == Item(b.name, pasted[a.name].file);
    }
    var t :| IsTrail(p, t) && t[|t| - 1] == item;
    ReachedStays(p, done, t);
  }

  lemma ClosureComplete(p: Package, pasted: map<string, Decl>, pastes: seq<Decl>, refs: map<string, TypeRef>, done: set<Item>)
    requires TablesSound(p, pasted, refs) && PastesMatch(pasted, pastes)
    requires Covered(p, pasted, done, [])
    requires forall a :: a in done ==> Handled(p, a, pasted, refs)
    requires pastes != [] && pastes[0].name == p.root.name
    ensures Unambiguous(p) && ClosureOf(p, pastes, refs)
  {
    forall a | Reached(p, a)
      ensures Handled(p, a, pasted, refs)
    {
      AllHandled(p, pasted, refs, done, a);
    }
    RootReached(p);
    assert Handled(p, p.root, pasted, refs);
    assert pastes[0] in pastes;
    PastesAreReached(p, pasted, pastes, refs);
    forall a | Reached(p, a)
      ensures (exists d :: d in pastes && d.name == a.name) <==> a.name !in refs
    {
      assert Handled(p, a, pasted, refs);
      if a.name in pasted { assert pasted[a.name] in pastes; }
    }
  }

  lemma PastesAreReached(p: Package, pasted: map<string, Decl>, pastes: seq<Decl>, refs: map<string, TypeRef>)
    requires TablesSound(p, pasted, refs) && PastesMatch(pasted, pastes)
    requires forall a :: Reached(p, a) ==> Handled(p, a, pasted, refs)
    ensures forall d :: d in pastes <==> HasSource(p, d.name, Local(d.file, d.line))
    ensures forall n, ref :: n in refs && refs[n] == ref <==> HasSource(p, n, Imported(ref))
  {
    forall n, ref | HasSource(p, n, Imported(ref))
      ensures n in refs && refs[n] == ref
    {
      var from :| Resolves(p, Item(n, from), Imported(ref));
      assert Handled(p, Item(n, from), pasted, refs);
    }
    forall d: Decl | HasSource(p, d.name, Local(d.file, d.line))
      ensures d in pastes
    {
      var from :| Resolves(p, Item(d.name, from), Local(d.file, d.line));
      assert Handled(p, Item(d.name, from), pasted, refs);
      assert pasted[d.name] == d;
    }
  }

}
