/** The layered dependency order of workspace packages: round by round, every
    package whose dependencies are placed, each round sorted. */
module PackageOrder {
  import opened Wrappers
  import opened Sequences
  import opened DependencyGraph

  datatype Package = Package(short: string, group: string, deps: seq<string>)

  /** A three-way comparison of strings, as `localeCompare` is one. */
  ghost predicate IsComparison(compare: (string, string) -> int) {
    && (forall a, b :: compare(a, b) == 0 <==> a == b)
    && (forall a, b :: compare(a, b) < 0 <==> compare(b, a) > 0)
    && (forall a, b, c :: compare(a, b) < 0 && compare(b, c) < 0 ==> compare(a, c) < 0)
  }

  const MAX_SAFE_INTEGER := 0x1F_FFFF_FFFF_FFFF

  function IndexOf(xs: seq<string>, x: string): int {
    if xs == [] then -1
    else if xs[0] == x then 0
    else if IndexOf(xs[1..], x) == -1 then -1 else 1 + IndexOf(xs[1..], x)
  }

  function GroupRank(group: string, groupOrder: seq<string>): int {
    if IndexOf(groupOrder, group) == -1 then MAX_SAFE_INTEGER else IndexOf(groupOrder, group)
  }

  function ComparePackages(a: Package, b: Package, groupOrder: seq<string>, compare: (string, string) -> int): int {
    var byRank := GroupRank(a.group, groupOrder) - GroupRank(b.group, groupOrder);
    if byRank != 0 then byRank
    else if compare(a.group, b.group) != 0 then compare(a.group, b.group)
    else compare(a.short, b.short)
  }

  function InOrder(groupOrder: seq<string>, compare: (string, string) -> int): (Package, Package) -> bool {
    (a: Package, b: Package) => ComparePackages(a, b, groupOrder, compare) <= 0
  }

  /** The comparison is total, and ties only a package with itself. */
  lemma ComparisonIsTotal(groupOrder: seq<string>, compare: (string, string) -> int)
    requires IsComparison(compare)
    ensures IsTotal(InOrder(groupOrder, compare))
    ensures forall a, b :: InOrder(groupOrder, compare)(a, b) && InOrder(groupOrder, compare)(b, a) ==>
      a.short == b.short && a.group == b.group
  {
    var leq := InOrder(groupOrder, compare);
    forall a, b, c | leq(a, b) && leq(b, c)
      ensures leq(a, c)
    {
      if GroupRank(a.group, groupOrder) == GroupRank(b.group, groupOrder) == GroupRank(c.group, groupOrder) {
        assert compare(a.group, c.group) <= 0;
      }
    }
  }

  // ---------------------------------------------------------------------
  // The order within a round
  // ---------------------------------------------------------------------

  /** The group is listed, and the other is not listed up to that place. */
  ghost predicate ListedBefore(groupOrder: seq<string>, group: string, other: string) {
    exists i {:trigger groupOrder[i]} ::
      0 <= i < |groupOrder| && groupOrder[i] == group && forall j :: 0 <= j <= i ==> groupOrder[j] != other
  }

  /** A group listed earlier stands first, listed groups stand before the others,
      these by name, and the packages of one group by short name. */
  ghost predicate StandsFirst(a: Package, b: Package, groupOrder: seq<string>, compare: (string, string) -> int) {
    if a.group == b.group then compare(a.short, b.short) <= 0
    else if a.group in groupOrder || b.group in groupOrder then ListedBefore(groupOrder, a.group, b.group)
    else compare(a.group, b.group) < 0
  }

  lemma {:induction false} IndexMeaning(xs: seq<string>, x: string)
    ensures if x in xs then 0 <= IndexOf(xs, x) < |xs| && xs[IndexOf(xs, x)] == x && x !in xs[..IndexOf(xs, x)]
            else IndexOf(xs, x) == -1
  {
    if xs != [] && xs[0] != x {
      IndexMeaning(xs[1..], x);
      var i := IndexOf(xs[1..], x);
      if i >= 0 { assert xs[..i + 1] == [xs[0]] + xs[1..][..i]; }
    }
  }

  lemma {:induction false} EarlierIsListedBefore(groupOrder: seq<string>, a: string, b: string)
    requires a != b && (a in groupOrder || b in groupOrder) && |groupOrder| <= MAX_SAFE_INTEGER
    ensures GroupRank(a, groupOrder) < GroupRank(b, groupOrder) <==> ListedBefore(groupOrder, a, b)
    ensures GroupRank(a, groupOrder) != GroupRank(b, groupOrder)
  {
    IndexMeaning(groupOrder, a);
    IndexMeaning(groupOrder, b);
    var i, j := IndexOf(groupOrder, a), IndexOf(groupOrder, b);
    if a in groupOrder {
      forall k | 0 <= k < i
        ensures groupOrder[k] != a
      {
        assert groupOrder[..i][k] == groupOrder[k];
      }
    }
    if b in groupOrder {
      forall k | 0 <= k < j
        ensures groupOrder[k] != b
      {
        assert groupOrder[..j][k] == groupOrder[k];
      }
    }
  }

  /** What the comparison means; a list is never as long as the greatest number. */
  lemma {:induction false} ComparisonMeaning(a: Package, b: Package, groupOrder: seq<string>, compare: (string, string) -> int)
    requires IsComparison(compare) && |groupOrder| <= MAX_SAFE_INTEGER
    ensures InOrder(groupOrder, compare)(a, b) <==> StandsFirst(a, b, groupOrder, compare)
  {
    if a.group != b.group {
      if a.group in groupOrder || b.group in groupOrder {
        EarlierIsListedBefore(groupOrder, a.group, b.group);
      } else {
        IndexMeaning(groupOrder, a.group);
        IndexMeaning(groupOrder, b.group);
      }
    }
  }

  // ---------------------------------------------------------------------
  // The graph
  // ---------------------------------------------------------------------

  function ShortsOf(packages: seq<Package>): (shorts: set<string>)
    ensures forall p :: p in packages ==> p.short in shorts
  {
    if packages == [] then {} else
      assert packages == packages[..|packages| - 1] + [packages[|packages| - 1]];
      ShortsOf(packages[..|packages| - 1]) + {packages[|packages| - 1].short}
  }

  ghost function PackageNamed(packages: seq<Package>, short: string): (p: Package)
    requires short in ShortsOf(packages)
    ensures p in packages && p.short == short
  {
    var last := packages[|packages| - 1];
    if last.short == short then last else PackageNamed(packages[..|packages| - 1], short)
  }

  ghost predicate DistinctShorts(packages: seq<Package>) {
    forall i, j :: 0 <= i < j < |packages| ==> packages[i].short != packages[j].short
  }

  lemma SameShort(packages: seq<Package>, p: Package, q: Package)
    requires DistinctShorts(packages) && p in packages && q in packages && p.short == q.short
    ensures p == q
  {
  }

  ghost function Graph(packages: seq<Package>): Needs {
    map s | s in ShortsOf(packages) :: PackageNamed(packages, s).deps
  }

  lemma GraphEdge(packages: seq<Package>, p: Package, d: string)
    requires DistinctShorts(packages) && p in packages
    ensures Edge(Graph(packages), p.short, d) <==> d in p.deps
  {
    SameShort(packages, p, PackageNamed(packages, p.short));
  }

  /** The package depends, directly or indirectly, on an absent name or on a
      member of a cycle. */
  ghost predicate Unorderable(packages: seq<Package>, short: string) {
    exists b :: Reaches(Graph(packages), short, b) &&
      (b !in ShortsOf(packages) || exists c :: IsCycle(Graph(packages), c) && c[0] == b)
  }

  /** The longest chain of dependencies from `a` has `n` edges. */
  ghost predicate IsDepth(needs: Needs, a: string, n: nat) {
    && (exists w :: IsWalk(needs, w) && w[0] == a && |w| == n + 1)
    && (forall w :: IsWalk(needs, w) && w[0] == a ==> |w| <= n + 1)
  }

  // ---------------------------------------------------------------------
  // Rounds
  // ---------------------------------------------------------------------

  predicate DepsPlaced(p: Package, placed: set<string>) {
    forall d | d in p.deps :: d in placed
  }

  /** The remaining packages whose dependencies are all placed, in list order. */
  function ReadyOf(packages: seq<Package>, remaining: set<string>, placed: set<string>): seq<Package> {
    if packages == [] then []
    else if packages[0].short in remaining && DepsPlaced(packages[0], placed) then
      [packages[0]] + ReadyOf(packages[1..], remaining, placed)
    else ReadyOf(packages[1..], remaining, placed)
  }

  lemma {:induction false} ReadyMember(packages: seq<Package>, remaining: set<string>, placed: set<string>, p: Package)
    ensures p in ReadyOf(packages, remaining, placed) <==>
            p in packages && p.short in remaining && DepsPlaced(p, placed)
  {
    if packages != [] { ReadyMember(packages[1..], remaining, placed, p); }
  }

  lemma {:induction false} ReadyDistinct(packages: seq<Package>, remaining: set<string>, placed: set<string>)
    requires DistinctShorts(packages)
    ensures DistinctShorts(ReadyOf(packages, remaining, placed))
  {
    if packages != [] {
      ReadyDistinct(packages[1..], remaining, placed);
      forall p | p in ReadyOf(packages[1..], remaining, placed)
        ensures p.short != packages[0].short
      {
        ReadyMember(packages[1..], remaining, placed, p);
      }
    }
  }

  ghost predicate DepAt(p: Package, rounds: map<string, nat>, n: nat) {
    exists d :: d in p.deps && d in rounds && rounds[d] == n
  }

  ghost predicate DepMissing(p: Package, rounds: map<string, nat>) {
    exists d :: d in p.deps && d !in rounds
  }

  /** Placed packages come after their dependencies, and not a round later than
      they have to. */
  ghost predicate PlacedWell(p: Package, rounds: map<string, nat>, t: nat) {
    && p.short in rounds && rounds[p.short] < t
    && (forall d :: d in p.deps ==> d in rounds && rounds[d] < rounds[p.short])
    && (rounds[p.short] > 0 ==> DepAt(p, rounds, rounds[p.short] - 1))
  }

  ghost predicate Before(leq: (Package, Package) -> bool, rounds: map<string, nat>, p: Package, q: Package)
    requires p.short in rounds && q.short in rounds
  {
    rounds[p.short] < rounds[q.short] || (rounds[p.short] == rounds[q.short] && leq(p, q))
  }

  ghost predicate Layered(leq: (Package, Package) -> bool, out: seq<Package>, rounds: map<string, nat>, t: nat) {
    && rounds.Keys == ShortsOf(out)
    && DistinctShorts(out)
    && (forall p :: p in out ==> PlacedWell(p, rounds, t))
    && (forall i, j :: 0 <= i < j < |out| ==> Before(leq, rounds, out[i], out[j]))
  }

  /** A package still waiting has a dependency that was not placed before the
      last round. */
  ghost predicate StillWaiting(packages: seq<Package>, rounds: map<string, nat>, t: nat) {
    forall p :: p in packages && p.short !in rounds ==> t == 0 || DepMissing(p, rounds) || DepAt(p, rounds, t - 1)
  }

  ghost function NextRounds(rounds: map<string, nat>, ready: seq<Package>, t: nat): map<string, nat> {
    map s | s in rounds.Keys + ShortsOf(ready) :: if s in rounds then rounds[s] else t
  }

  lemma NextPlacedWell(packages: seq<Package>, rounds: map<string, nat>, ready: seq<Package>, t: nat, p: Package)
    requires if p in ready then p in packages && p.short !in rounds && DepsPlaced(p, rounds.Keys) && StillWaiting(packages, rounds, t)
             else PlacedWell(p, rounds, t)
    requires forall s :: s in rounds ==> rounds[s] < t
    ensures PlacedWell(p, NextRounds(rounds, ready, t), t + 1)
  {
    var next := NextRounds(rounds, ready, t);
    if p in ready {
      if t > 0 {
        var d :| d in p.deps && d in rounds && rounds[d] == t - 1;
        assert next[d] == t - 1;
      }
    } else if rounds[p.short] > 0 {
      var d :| d in p.deps && d in rounds && rounds[d] == rounds[p.short] - 1;
      assert next[d] == rounds[p.short] - 1;
    }
  }

  lemma {:induction false} ShortsAppend(a: seq<Package>, b: seq<Package>)
    ensures ShortsOf(a + b) == ShortsOf(a) + ShortsOf(b)
  {
    if b == [] {
      assert a + b == a;
    } else {
      assert (a + b)[..|a + b| - 1] == a + b[..|b| - 1];
      ShortsAppend(a, b[..|b| - 1]);
    }
  }

  lemma RoundPlaced(packages: seq<Package>, leq: (Package, Package) -> bool, out: seq<Package>,
                    rounds: map<string, nat>, ready: seq<Package>, t: nat)
    requires Layered(leq, out, rounds, t) && StillWaiting(packages, rounds, t)
    requires DistinctShorts(ready) && IsSorted(leq, ready)
    requires forall p :: p in ready <==> p in packages && p.short !in rounds && DepsPlaced(p, rounds.Keys)
    ensures Layered(leq, out + ready, NextRounds(rounds, ready, t), t + 1)
    ensures StillWaiting(packages, NextRounds(rounds, ready, t), t + 1)
  {
    var next := NextRounds(rounds, ready, t);
    ShortsAppend(out, ready);
    forall s | s in rounds
      ensures rounds[s] < t
    {
      assert PlacedWell(PackageNamed(out, s), rounds, t);
    }
    forall p | p in out + ready
      ensures PlacedWell(p, next, t + 1)
    {
      NextPlacedWell(packages, rounds, ready, t, p);
    }
    RoundOrdered(leq, out, rounds, ready, t);
    forall p | p in packages && p.short !in next
      ensures DepMissing(p, next) || DepAt(p, next, t)
    {
      var d :| d in p.deps && d !in rounds;
    }
  }

  lemma RoundOrdered(leq: (Package, Package) -> bool, out: seq<Package>, rounds: map<string, nat>, ready: seq<Package>, t: nat)
    requires Layered(leq, out, rounds, t) && DistinctShorts(ready) && IsSorted(leq, ready)
    requires forall p :: p in ready ==> p.short !in rounds
    ensures DistinctShorts(out + ready)
    ensures forall i, j :: 0 <= i < j < |out + ready| ==>
      && (out + ready)[i].short in NextRounds(rounds, ready, t) && (out + ready)[j].short in NextRounds(rounds, ready, t)
      && Before(leq, NextRounds(rounds, ready, t), (out + ready)[i], (out + ready)[j])
  {
    var all, next := out + ready, NextRounds(rounds, ready, t);
    forall i, j | 0 <= i < j < |all|
      ensures all[i].short != all[j].short
      ensures all[i].short in next && all[j].short in next && Before(leq, next, all[i], all[j])
    {
      if i < |out| {
        assert out[i] in out && PlacedWell(out[i], rounds, t);
        if j < |out| {
          assert out[j] in out && Before(leq, rounds, out[i], out[j]);
        } else {
          assert ready[j - |out|] in ready;
        }
      } else {
        assert ready[i - |out|] in ready && ready[j - |out|] in ready;
        assert leq(ready[i - |out|], ready[j - |out|]);
      }
    }
  }

  // ---------------------------------------------------------------------
  // The sort
  // ---------------------------------------------------------------------

  /** `rounds` is each package's depth; the output is ordered by depth, within
      one depth by the package comparison, and dependencies come first. */
  ghost predicate IsLayeredOrder(packages: seq<Package>, leq: (Package, Package) -> bool,
                                 out: seq<Package>, rounds: map<string, nat>) {
    && multiset(out) == multiset(packages)
    && (forall p :: p in packages ==> p.short in rounds && IsDepth(Graph(packages), p.short, rounds[p.short]))
    && (forall p :: p in out ==> p.short in rounds)
    && (forall i, j :: 0 <= i < j < |out| ==> Before(leq, rounds, out[i], out[j]))
    && (forall i, d :: 0 <= i < |out| && d in out[i].deps ==> d in ShortsOf(out[..i]))
  }

  /** Two packages of one round stand as their groups and names say. */
  ghost predicate AreRoundsInOrder(
    out: seq<Package>, rounds: map<string, nat>, groupOrder: seq<string>, compare: (string, string) -> int)
  {
    && (forall p :: p in out ==> p.short in rounds)
    && forall i, j :: 0 <= i < j < |out| && rounds[out[i].short] == rounds[out[j].short] ==>
         StandsFirst(out[i], out[j], groupOrder, compare)
  }

  lemma RoundsInOrder(packages: seq<Package>, out: seq<Package>, rounds: map<string, nat>,
                      groupOrder: seq<string>, compare: (string, string) -> int)
    requires IsComparison(compare) && |groupOrder| <= MAX_SAFE_INTEGER
    requires IsLayeredOrder(packages, InOrder(groupOrder, compare), out, rounds)
    ensures AreRoundsInOrder(out, rounds, groupOrder, compare)
  {
    forall i, j | 0 <= i < j < |out| && rounds[out[i].short] == rounds[out[j].short]
      ensures StandsFirst(out[i], out[j], groupOrder, compare)
    {
      assert Before(InOrder(groupOrder, compare), rounds, out[i], out[j]);
      ComparisonMeaning(out[i], out[j], groupOrder, compare);
    }
  }

  method TopoSort(packages: seq<Package>, groupOrder: seq<string>, compare: (string, string) -> int)
    returns (r: Result<seq<Package>, seq<string>>, ghost rounds: map<string, nat>)
    requires DistinctShorts(packages) && IsComparison(compare)
    ensures r.Success? <==> forall p :: p in packages ==> !Unorderable(packages, p.short)
    ensures r.Success? ==> IsLayeredOrder(packages, InOrder(groupOrder, compare), r.value, rounds)
    ensures r.Success? && |groupOrder| <= MAX_SAFE_INTEGER ==> AreRoundsInOrder(r.value, rounds, groupOrder, compare)
    ensures r.Failure? ==> r.error != [] && Keeps(r.error, NamesOf(packages), UnorderableIn(packages))
  {
    var leq := InOrder(groupOrder, compare);
    ComparisonIsTotal(groupOrder, compare);
    var remaining := ShortsOf(packages);
    var placed: set<string> := {};
    var out: seq<Package> := [];
    rounds := map[];
    ghost var t: nat := 0;
    while remaining != {}
      invariant Sorting(packages, leq, out, rounds, t)
      invariant placed == rounds.Keys && remaining == ShortsOf(packages) - placed
      decreases remaining
    {
      var ready := Sorted(leq, ReadyOf(packages, remaining, placed));
      RoundStep(packages, leq, out, rounds, t, ready);
      if |ready| == 0 {
        r := Failure(RemainingIn(NamesOf(packages), remaining));
        UnorderableNamed(packages, remaining);
        return;
      }
      out, placed, remaining := Place(ready, out, placed, remaining);
      rounds, t := NextRounds(rounds, ready, t), t + 1;
    }
    OutputIsLayered(packages, leq, out, rounds, t);
    r := Success(out);
    if |groupOrder| <= MAX_SAFE_INTEGER { RoundsInOrder(packages, out, rounds, groupOrder, compare); }
  }

  /** Moves a round's packages from the remaining ones to the output. */
  method Place(ready: seq<Package>, out0: seq<Package>, placed0: set<string>, remaining0: set<string>)
    returns (out: seq<Package>, placed: set<string>, remaining: set<string>)
    ensures out == out0 + ready
    ensures placed == placed0 + ShortsOf(ready) && remaining == remaining0 - ShortsOf(ready)
  {
    out, placed, remaining := out0, placed0, remaining0;
    for k := 0 to |ready|
      invariant out == out0 + ready[..k]
      invariant placed == placed0 + ShortsOf(ready[..k]) && remaining == remaining0 - ShortsOf(ready[..k])
    {
      assert ready[..k + 1][..k] == ready[..k];
      out := out + [ready[k]];
      placed := placed + {ready[k].short};
      remaining := remaining - {ready[k].short};
    }
    assert ready[..|ready|] == ready;
  }

  ghost predicate Sorting(packages: seq<Package>, leq: (Package, Package) -> bool, out: seq<Package>,
                          rounds: map<string, nat>, t: nat) {
    && Layered(leq, out, rounds, t) && StillWaiting(packages, rounds, t)
    && forall p :: p in out ==> p in packages
  }

  ghost predicate AreTheUnorderable(packages: seq<Package>, shorts: set<string>) {
    && shorts <= ShortsOf(packages)
    && (forall p :: p in packages ==> (p.short in shorts <==> Unorderable(packages, p.short)))
    && (exists p :: p in packages && Unorderable(packages, p.short))
  }

  function NamesOf(packages: seq<Package>): (names: seq<string>)
    ensures |names| == |packages| && forall i :: 0 <= i < |packages| ==> names[i] == packages[i].short
  {
    seq(|packages|, i requires 0 <= i < |packages| => packages[i].short)
  }

  ghost function UnorderableIn(packages: seq<Package>): string -> bool {
    short => Unorderable(packages, short)
  }

  /** The names that remain, in the order of the list. */
  function RemainingIn(names: seq<string>, remaining: set<string>): seq<string> {
    if names == [] then []
    else if names[0] in remaining then [names[0]] + RemainingIn(names[1..], remaining)
    else RemainingIn(names[1..], remaining)
  }

  ghost function MemberOf(remaining: set<string>): string -> bool {
    short => short in remaining
  }

  lemma {:induction false} RemainingKept(names: seq<string>, remaining: set<string>)
    ensures Keeps(RemainingIn(names, remaining), names, MemberOf(remaining))
  {
    if names == [] {
      KeepsNone(MemberOf(remaining));
    } else {
      RemainingKept(names[1..], remaining);
      var rest := RemainingIn(names[1..], remaining);
      KeepsFirst(names[0], rest, names[1..], MemberOf(remaining));
      assert [names[0]] + names[1..] == names && [] + rest == rest;
    }
  }

  lemma UnorderableNamed(packages: seq<Package>, remaining: set<string>)
    requires AreTheUnorderable(packages, remaining)
    ensures RemainingIn(NamesOf(packages), remaining) != []
    ensures Keeps(RemainingIn(NamesOf(packages), remaining), NamesOf(packages), UnorderableIn(packages))
  {
    var names := NamesOf(packages);
    var kept := RemainingIn(names, remaining);
    RemainingKept(names, remaining);
    forall short | short in names
      ensures short in remaining <==> Unorderable(packages, short)
    {
      var i :| 0 <= i < |names| && names[i] == short;
      assert packages[i] in packages;
    }
    KeepsAlike(kept, names, MemberOf(remaining), UnorderableIn(packages));
    var p :| p in packages && Unorderable(packages, p.short);
    var i :| 0 <= i < |packages| && packages[i] == p;
    var at :| IsPicking(at, kept, names, MemberOf(remaining));
    assert i in at <==> 0 <= i < |names| && MemberOf(remaining)(names[i]);
  }

  /** What one round does: an empty one means that exactly the remaining
      packages cannot be ordered, another one adds a layer. */
  lemma {:induction false} RoundStep(packages: seq<Package>, leq: (Package, Package) -> bool, out: seq<Package>,
                  rounds: map<string, nat>, t: nat, ready: seq<Package>)
    requires DistinctShorts(packages) && IsTotal(leq) && Sorting(packages, leq, out, rounds, t)
    requires ready == Sorted(leq, ReadyOf(packages, ShortsOf(packages) - rounds.Keys, rounds.Keys))
    ensures Sorting(packages, leq, out + ready, NextRounds(rounds, ready, t), t + 1)
    ensures ready != [] ==> ready[0].short in ShortsOf(packages) && ready[0].short !in rounds && ready[0].short in ShortsOf(ready)
    ensures ready == [] && ShortsOf(packages) - rounds.Keys != {} ==> AreTheUnorderable(packages, ShortsOf(packages) - rounds.Keys)
  {
    var remaining := ShortsOf(packages) - rounds.Keys;
    SortedSorts(leq, ReadyOf(packages, remaining, rounds.Keys));
    ReadyFacts(packages, remaining, rounds.Keys, ready);
    RoundPlaced(packages, leq, out, rounds, ready, t);
    if ready == [] {
      StuckAreUnorderable(packages, leq, out, rounds, t, remaining);
      if short :| short in remaining {
        assert PackageNamed(packages, short) in packages;
      }
    } else {
      assert ready[0] in ready;
    }
  }

  lemma ReadyFacts(packages: seq<Package>, remaining: set<string>, placed: set<string>, ready: seq<Package>)
    requires DistinctShorts(packages) && remaining == ShortsOf(packages) - placed
    requires multiset(ready) == multiset(ReadyOf(packages, remaining, placed))
    ensures DistinctShorts(ready)
    ensures forall p :: p in ready <==> p in packages && p.short !in placed && DepsPlaced(p, placed)
  {
    var found := ReadyOf(packages, remaining, placed);
    ReadyDistinct(packages, remaining, placed);
    DistinctMeansNoDuplicates(found);
    PermutedNoDuplicates(found, ready);
    forall p
      ensures p in ready <==> p in packages && p.short !in placed && DepsPlaced(p, placed)
    {
      ReadyMember(packages, remaining, placed, p);
    }
    forall i, j | 0 <= i < j < |ready|
      ensures ready[i].short != ready[j].short
    {
      if ready[i].short == ready[j].short { SameShort(packages, ready[i], ready[j]); }
    }
  }

  lemma DistinctMeansNoDuplicates(packages: seq<Package>)
    requires DistinctShorts(packages)
    ensures NoDuplicates(packages)
  {
    forall i, j | 0 <= i < j < |packages|
      ensures packages[i] != packages[j]
    {
      assert packages[i].short != packages[j].short;
    }
  }

  /** Every dependency of a placed package is placed, in an earlier round. */
  lemma {:induction false} PlacedWalk(packages: seq<Package>, leq: (Package, Package) -> bool, out: seq<Package>,
                                      rounds: map<string, nat>, t: nat, w: seq<string>)
    requires DistinctShorts(packages) && Layered(leq, out, rounds, t) && forall p :: p in out ==> p in packages
    requires IsWalk(Graph(packages), w) && w[0] in rounds
    ensures w[|w| - 1] in rounds && rounds[w[|w| - 1]] + |w| - 1 <= rounds[w[0]]
  {
    var n := |w| - 1;
    if n > 0 {
      PlacedWalk(packages, leq, out, rounds, t, w[..n]);
      var p := PackageNamed(out, w[n - 1]);
      assert Edge(Graph(packages), w[n - 1], w[n]);
      GraphEdge(packages, p, w[n]);
      assert PlacedWell(p, rounds, t);
    }
  }

  lemma PlacedIsOrderable(packages: seq<Package>, leq: (Package, Package) -> bool, out: seq<Package>,
                          rounds: map<string, nat>, t: nat, short: string)
    requires DistinctShorts(packages) && Layered(leq, out, rounds, t) && forall p :: p in out ==> p in packages
    requires short in rounds
    ensures !Unorderable(packages, short)
  {
    forall b | Reaches(Graph(packages), short, b)
      ensures b in ShortsOf(packages) && forall c :: !(IsCycle(Graph(packages), c) && c[0] == b)
    {
      var w :| IsWalk(Graph(packages), w) && w[0] == short && w[|w| - 1] == b;
      PlacedWalk(packages, leq, out, rounds, t, w);
      var p := PackageNamed(out, b);
      assert p in packages;
      forall c | IsCycle(Graph(packages), c) && c[0] == b
        ensures false
      {
        PlacedWalk(packages, leq, out, rounds, t, c);
      }
    }
  }

  lemma PlacedAreOrderable(packages: seq<Package>, leq: (Package, Package) -> bool, out: seq<Package>,
                           rounds: map<string, nat>, t: nat)
    requires DistinctShorts(packages) && Layered(leq, out, rounds, t) && forall p :: p in out ==> p in packages
    ensures forall p :: p in packages && p.short in rounds ==> !Unorderable(packages, p.short)
  {
    forall p | p in packages && p.short in rounds
      ensures !Unorderable(packages, p.short)
    {
      PlacedIsOrderable(packages, leq, out, rounds, t, p.short);
    }
  }

  /** With nothing ready, each remaining package waits for an absent name or for
      another remaining one, so a long enough walk of dependencies leads to an
      absent name or comes back to itself. */
  lemma StuckAreUnorderable(packages: seq<Package>, leq: (Package, Package) -> bool, out: seq<Package>,
                            rounds: map<string, nat>, t: nat, remaining: set<string>)
    requires DistinctShorts(packages) && Layered(leq, out, rounds, t) && forall p :: p in out ==> p in packages
    requires remaining == ShortsOf(packages) - rounds.Keys
    requires forall p :: p in packages && p.short in remaining ==> !DepsPlaced(p, rounds.Keys)
    ensures forall p :: p in packages ==> (p.short in remaining <==> Unorderable(packages, p.short))
  {
    PlacedAreOrderable(packages, leq, out, rounds, t);
    forall p | p in packages && p.short in remaining
      ensures Unorderable(packages, p.short)
    {
      StuckWalk(packages, rounds.Keys, remaining, p.short);
    }
  }

  lemma StuckWalk(packages: seq<Package>, placed: set<string>, remaining: set<string>, short: string)
    requires DistinctShorts(packages) && short in remaining && remaining == ShortsOf(packages) - placed
    requires forall p :: p in packages && p.short in remaining ==> !DepsPlaced(p, placed)
    ensures Unorderable(packages, short)
  {
    var needs := Graph(packages);
    if !Unorderable(packages, short) {
      var reached := set a | a in remaining && Reaches(needs, short, a);
      forall a | a in reached
        ensures HasSuccessorIn(needs, a, reached)
      {
        var p := PackageNamed(packages, a);
        var d :| d in p.deps && d !in placed;
        GraphEdge(packages, p, d);
        ReachesAppend(needs, short, a, d);
        assert d in reached;
      }
      ReachesSelf(needs, short);
      assert short in reached;
      var c := EndlessHasCycle(needs, reached);
    }
  }

  lemma {:induction false} DepthWalk(packages: seq<Package>, leq: (Package, Package) -> bool, out: seq<Package>,
                                     rounds: map<string, nat>, t: nat, short: string, n: nat) returns (w: seq<string>)
    requires DistinctShorts(packages) && Layered(leq, out, rounds, t) && forall p :: p in out ==> p in packages
    requires short in rounds && rounds[short] == n
    ensures IsWalk(Graph(packages), w) && w[0] == short && |w| == n + 1
    decreases n
  {
    if n == 0 {
      w := [short];
    } else {
      var p := PackageNamed(out, short);
      assert PlacedWell(p, rounds, t);
      var d :| d in p.deps && d in rounds && rounds[d] == n - 1;
      var v := DepthWalk(packages, leq, out, rounds, t, d, n - 1);
      GraphEdge(packages, p, d);
      w := [short] + v;
      forall i | 0 <= i < |w| - 1
        ensures Edge(Graph(packages), w[i], w[i + 1])
      {
        if i > 0 { assert Edge(Graph(packages), v[i - 1], v[i]); }
      }
    }
  }

  lemma RoundIsDepth(packages: seq<Package>, leq: (Package, Package) -> bool, out: seq<Package>,
                     rounds: map<string, nat>, t: nat, short: string)
    requires DistinctShorts(packages) && Layered(leq, out, rounds, t) && forall p :: p in out ==> p in packages
    requires short in rounds
    ensures IsDepth(Graph(packages), short, rounds[short])
  {
    var w := DepthWalk(packages, leq, out, rounds, t, short, rounds[short]);
    forall v | IsWalk(Graph(packages), v) && v[0] == short
      ensures |v| <= rounds[short] + 1
    {
      PlacedWalk(packages, leq, out, rounds, t, v);
    }
  }

  lemma {:induction false} EarlierRoundEarlier(leq: (Package, Package) -> bool, out: seq<Package>,
                                               rounds: map<string, nat>, t: nat, i: nat, d: string)
    requires Layered(leq, out, rounds, t) && i < |out| && d in rounds && rounds[d] < rounds[out[i].short]
    ensures d in ShortsOf(out[..i])
  {
    var q := PackageNamed(out, d);
    var j :| 0 <= j < |out| && out[j] == q;
    assert i < j ==> Before(leq, rounds, out[i], out[j]);
    assert out[..i][j] == q && q in out[..i];
  }

  lemma {:induction false} OutputIsLayered(packages: seq<Package>, leq: (Package, Package) -> bool, out: seq<Package>,
                        rounds: map<string, nat>, t: nat)
    requires DistinctShorts(packages) && Layered(leq, out, rounds, t) && forall p :: p in out ==> p in packages
    requires ShortsOf(packages) <= rounds.Keys
    ensures IsLayeredOrder(packages, leq, out, rounds)
    ensures forall p :: p in packages ==> !Unorderable(packages, p.short)
  {
    forall p | p in packages
      ensures p in out && IsDepth(Graph(packages), p.short, rounds[p.short]) && !Unorderable(packages, p.short)
    {
      SameShort(packages, p, PackageNamed(out, p.short));
      RoundIsDepth(packages, leq, out, rounds, t, p.short);
      PlacedIsOrderable(packages, leq, out, rounds, t, p.short);
    }
    DistinctMeansNoDuplicates(out);
    DistinctMeansNoDuplicates(packages);
    SameMembers(out, packages);
    DependenciesFirst(leq, out, rounds, t);
  }

  lemma DependenciesFirst(leq: (Package, Package) -> bool, out: seq<Package>, rounds: map<string, nat>, t: nat)
    requires Layered(leq, out, rounds, t)
    ensures forall i, d :: 0 <= i < |out| && d in out[i].deps ==> d in ShortsOf(out[..i])
  {
    forall i, d | 0 <= i < |out| && d in out[i].deps
      ensures d in ShortsOf(out[..i])
    {
      assert out[i] in out && PlacedWell(out[i], rounds, t);
      EarlierRoundEarlier(leq, out, rounds, t, i, d);
    }
  }
}
