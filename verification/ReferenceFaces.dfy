/** Project References that enter the wrong leaf of a split Host/Client project:
    which face a config has, which split project a target lies in, and the
    worklist over everything the two aggregate configs reach. */
module ReferenceFaces {
  import opened Wrappers
  import opened Sequences
  import opened Strings

  datatype Face = Host | Client

  /** `parent` is the local config it extends, `references` the config paths its
      references resolve to, both as absolute paths. */
  datatype Config = Config(parent: Option<string>, references: seq<string>)

  /** The config files that exist, and the directories holding both leaves. */
  datatype Workspace = Workspace(root: string, configs: map<string, Config>, splitRoots: seq<string>)

  function Leaf(face: Face): string {
    if face == Host then "tsconfig.host.json" else "tsconfig.client.json"
  }

  function Basename(path: string): string {
    var parts := Split(path, '/');
    parts[|parts| - 1]
  }

  // ---------------------------------------------------------------------
  // Faces
  // ---------------------------------------------------------------------

  /** The face a path has by its own name. */
  function OwnFace(w: Workspace, path: string): Option<Face> {
    if Basename(path) == Leaf(Host) then Some(Host)
    else if Basename(path) == Leaf(Client) then Some(Client)
    else if path == w.root + "/tsconfig.base.json" then Some(Host)
    else if path == w.root + "/tsconfig.base.client.json" then Some(Client)
    else None
  }

  function Parent(w: Workspace, path: string): (parent: Option<string>)
    ensures parent.Some? ==> parent.value in w.configs
  {
    if path !in w.configs then None
    else
      var parent := w.configs[path].parent;
      if parent.Some? && parent.value in w.configs then parent else None
  }

  function ProjectFace(w: Workspace, path: string, seen: set<string>): Option<Face>
    requires path in w.configs
    decreases w.configs.Keys - seen
  {
    if OwnFace(w, path).Some? then OwnFace(w, path)
    else if path in seen then None
    else
      var parent := Parent(w, path);
      if parent.None? then None else ProjectFace(w, parent.value, seen + {path})
  }

  /** The config `n` extensions up. */
  ghost function Ancestor(w: Workspace, path: string, n: nat): Option<string> {
    if n == 0 then Some(path)
    else
      var below := Ancestor(w, path, n - 1);
      if below.None? then None else Parent(w, below.value)
  }

  ghost predicate Faceless(w: Workspace, path: string, n: nat) {
    forall m: nat :: m < n ==> Ancestor(w, path, m).Some? && OwnFace(w, Ancestor(w, path, m).value).None?
  }

  /** The nearest ancestor with a face of its own has this one. */
  ghost predicate InheritsFace(w: Workspace, path: string, face: Face) {
    exists n: nat :: Faceless(w, path, n) && Ancestor(w, path, n).Some? && OwnFace(w, Ancestor(w, path, n).value) == Some(face)
  }

  lemma {:induction false} AncestorOfAncestor(w: Workspace, path: string, m: nat, n: nat)
    requires Ancestor(w, path, m).Some?
    ensures Ancestor(w, Ancestor(w, path, m).value, n) == Ancestor(w, path, m + n)
  {
    if n > 0 { AncestorOfAncestor(w, path, m, n - 1); }
  }

  /** Ancestors below the first one with a face are all different, so the guard
      against cyclic extension never cuts a chain that has a face. */
  lemma {:induction false} ChainDistinct(w: Workspace, path: string, n: nat, i: nat, j: nat)
    requires Faceless(w, path, n) && Ancestor(w, path, n).Some? && OwnFace(w, Ancestor(w, path, n).value).Some?
    requires i < j <= n
    ensures Ancestor(w, path, i) != Ancestor(w, path, j)
  {
    if Ancestor(w, path, i) == Ancestor(w, path, j) {
      assert Ancestor(w, path, i).Some?;
      AncestorOfAncestor(w, path, i, n - j);
      AncestorOfAncestor(w, path, j, n - j);
    }
  }

  ghost predicate IsBelow(w: Workspace, path: string, a: string, k: nat) {
    exists m: nat :: m < k && Ancestor(w, path, m) == Some(a)
  }

  /** The walk, entered `k` extensions up, having seen those below. */
  lemma {:induction false} WalkFindsFace(w: Workspace, path: string, n: nat, k: nat, seen: set<string>)
    requires path in w.configs && k <= n
    requires Faceless(w, path, n) && Ancestor(w, path, n).Some? && OwnFace(w, Ancestor(w, path, n).value).Some?
    requires Ancestor(w, path, k).Some? && Ancestor(w, path, k).value in w.configs
    requires forall a :: a in seen ==> IsBelow(w, path, a, k)
    ensures ProjectFace(w, Ancestor(w, path, k).value, seen) == OwnFace(w, Ancestor(w, path, n).value)
    decreases n - k
  {
    if k < n {
      var here := Ancestor(w, path, k).value;
      if here in seen {
        var m: nat :| m < k && Ancestor(w, path, m) == Some(here);
        ChainDistinct(w, path, n, m, k);
      }
      NextAncestor(w, path, n, k);
      forall a | a in seen + {here}
        ensures IsBelow(w, path, a, k + 1)
      {
        var m: nat :| m < k + 1 && Ancestor(w, path, m) == Some(a);
      }
      WalkFindsFace(w, path, n, k + 1, seen + {here});
    }
  }

  lemma NextAncestor(w: Workspace, path: string, n: nat, k: nat)
    requires Faceless(w, path, n) && Ancestor(w, path, n).Some? && k < n
    ensures Ancestor(w, path, k + 1) == Parent(w, Ancestor(w, path, k).value) && Ancestor(w, path, k + 1).Some?
  {
    if k + 1 < n { assert Ancestor(w, path, k + 1).Some?; }
  }

  lemma {:induction false} FaceIsInherited(w: Workspace, path: string, k: nat, seen: set<string>)
    requires path in w.configs && Ancestor(w, path, k).Some? && Ancestor(w, path, k).value in w.configs
    requires Faceless(w, path, k)
    requires ProjectFace(w, Ancestor(w, path, k).value, seen).Some?
    ensures InheritsFace(w, path, ProjectFace(w, Ancestor(w, path, k).value, seen).value)
    decreases w.configs.Keys - seen
  {
    var here := Ancestor(w, path, k).value;
    if OwnFace(w, here).None? {
      assert Ancestor(w, path, k + 1) == Parent(w, here);
      FaceIsInherited(w, path, k + 1, seen + {here});
    }
  }

  /** A config's face is that of its nearest ancestor that has one. */
  lemma ProjectFaceMeaning(w: Workspace, path: string, face: Face)
    requires path in w.configs
    ensures ProjectFace(w, path, {}) == Some(face) <==> InheritsFace(w, path, face)
  {
    assert Ancestor(w, path, 0) == Some(path);
    if ProjectFace(w, path, {}) == Some(face) { FaceIsInherited(w, path, 0, {}); }
    if InheritsFace(w, path, face) {
      var n: nat :| Faceless(w, path, n) && Ancestor(w, path, n).Some? && OwnFace(w, Ancestor(w, path, n).value) == Some(face);
      WalkFindsFace(w, path, n, 0, {});
    }
  }

  // ---------------------------------------------------------------------
  // Split projects
  // ---------------------------------------------------------------------

  predicate Contains(dir: string, path: string) {
    path == dir || StartsWith(path, dir + "/")
  }

  predicate LongerFirst(a: string, b: string) {
    |a| >= |b|
  }

  /** The first root, in the order given, that contains the target. */
  function ContainingSplitRoot(splitRoots: seq<string>, target: string): (root: Option<string>)
    ensures root.Some? ==> root.value in splitRoots && Contains(root.value, target)
    ensures root.None? ==> forall r :: r in splitRoots ==> !Contains(r, target)
  {
    if splitRoots == [] then None
    else if Contains(splitRoots[0], target) then Some(splitRoots[0])
    else ContainingSplitRoot(splitRoots[1..], target)
  }

  /** With longer roots first, the root found is the deepest: it lies inside
      every other root that contains the target. */
  lemma {:induction false} DeepestRootFound(splitRoots: seq<string>, target: string, other: string)
    requires IsSorted(LongerFirst, splitRoots)
    requires other in splitRoots && Contains(other, target)
    ensures ContainingSplitRoot(splitRoots, target).Some?
    ensures Contains(other, ContainingSplitRoot(splitRoots, target).value)
  {
    if Contains(splitRoots[0], target) {
      var i :| 0 <= i < |splitRoots| && splitRoots[i] == other;
      assert i > 0 ==> LongerFirst(splitRoots[0], splitRoots[i]);
      NestedPrefixes(other, splitRoots[0], target);
    } else {
      DeepestRootFound(splitRoots[1..], target, other);
    }
  }

  lemma NestedPrefixes(a: string, b: string, target: string)
    requires |a| <= |b| && Contains(a, target) && Contains(b, target)
    ensures Contains(a, b)
  {
    assert b == target[..|b|] && a == target[..|a|];
    if |a| < |b| {
      assert target[..|a| + 1] == a + "/";
      assert b[..|a| + 1] == target[..|a| + 1];
    }
  }

  // ---------------------------------------------------------------------
  // The walk over references
  // ---------------------------------------------------------------------

  datatype Violation = NoFace(config: string, reference: nat) | WrongFace(config: string, reference: nat)

  /** What is wrong with a config's reference, if anything. */
  function Judge(w: Workspace, roots: seq<string>, config: string, i: nat): (v: Option<Violation>)
    requires config in w.configs && i < |w.configs[config].references|
    ensures v.Some? ==> v.value.config == config && v.value.reference == i
  {
    var target := w.configs[config].references[i];
    var splitRoot := ContainingSplitRoot(roots, target);
    if splitRoot.None? then None
    else
      match ProjectFace(w, config, {})
      case None => Some(NoFace(config, i))
      case Some(face) => if target == splitRoot.value + "/" + Leaf(face) then None else Some(WrongFace(config, i))
  }

  function SplitProjectRoots(w: Workspace): seq<string> {
    Sorted(LongerFirst, w.splitRoots)
  }

  /** Of the split projects holding the target, the one inside all others. */
  ghost predicate IsDeepest(w: Workspace, root: string, target: string) {
    && root in w.splitRoots && Contains(root, target)
    && forall other :: other in w.splitRoots && Contains(other, target) ==> Contains(other, root)
  }

  lemma SplitRootIsDeepest(w: Workspace, target: string)
    ensures var root := ContainingSplitRoot(SplitProjectRoots(w), target);
      if root.Some? then IsDeepest(w, root.value, target)
      else forall other :: other in w.splitRoots ==> !Contains(other, target)
  {
    var roots := SplitProjectRoots(w);
    SortedSorts(LongerFirst, w.splitRoots);
    forall other: string
      ensures other in roots <==> other in w.splitRoots
    {
      assert other in roots <==> other in multiset(roots);
      assert other in w.splitRoots <==> other in multiset(w.splitRoots);
    }
    forall other | other in w.splitRoots && Contains(other, target)
      ensures ContainingSplitRoot(roots, target).Some? && Contains(other, ContainingSplitRoot(roots, target).value)
    {
      DeepestRootFound(roots, target, other);
    }
  }

  /** A reference conforms exactly when no split project holds its target, or the
      target is the leaf of the config's face in the deepest one that does. */
  lemma ConformsIff(w: Workspace, config: string, i: nat)
    requires config in w.configs && i < |w.configs[config].references|
    ensures var target, face := w.configs[config].references[i], ProjectFace(w, config, {});
      Judge(w, SplitProjectRoots(w), config, i).None? <==>
        || (forall other :: other in w.splitRoots ==> !Contains(other, target))
        || (face.Some? && exists root :: IsDeepest(w, root, target) && target == root + "/" + Leaf(face.value))
    ensures var target, face := w.configs[config].references[i], ProjectFace(w, config, {});
      var v := Judge(w, SplitProjectRoots(w), config, i);
      v.Some? ==> v.value == if face.None? then NoFace(config, i) else WrongFace(config, i)
  {
    var target, face := w.configs[config].references[i], ProjectFace(w, config, {});
    SplitRootIsDeepest(w, target);
    var found := ContainingSplitRoot(SplitProjectRoots(w), target);
    if found.Some? {
      forall root | IsDeepest(w, root, target)
        ensures root == found.value
      {
        NestedAlike(root, found.value);
      }
    }
  }

  lemma NestedAlike(a: string, b: string)
    requires Contains(a, b) && Contains(b, a)
    ensures a == b
  {
  }

  function Aggregates(w: Workspace): seq<string> {
    [w.root + "/" + Leaf(Host), w.root + "/" + Leaf(Client)]
  }

  /** A reference that conforms leads from one config to another. */
  ghost predicate LeadsTo(w: Workspace, a: string, b: string) {
    a in w.configs && exists i: nat :: Follows(w, a, i) && w.configs[a].references[i] == b
  }

  ghost predicate Follows(w: Workspace, a: string, i: nat)
    requires a in w.configs
  {
    i < |w.configs[a].references| && Judge(w, SplitProjectRoots(w), a, i).None?
  }

  ghost predicate IsTrail(w: Workspace, t: seq<string>) {
    t != [] && t[0] in Aggregates(w) && forall k :: 0 <= k < |t| - 1 ==> LeadsTo(w, t[k], t[k + 1])
  }

  ghost predicate Reached(w: Workspace, path: string) {
    exists t :: IsTrail(w, t) && t[|t| - 1] == path
  }

  lemma {:induction false} TrailStays(w: Workspace, paths: set<string>, t: seq<string>)
    requires (forall a :: a in Aggregates(w) ==> a in paths) && forall a, b :: a in paths && LeadsTo(w, a, b) ==> b in paths
    requires IsTrail(w, t)
    ensures t[|t| - 1] in paths
  {
    if |t| > 1 {
      TrailStays(w, paths, t[..|t| - 1]);
      assert LeadsTo(w, t[|t| - 2], t[|t| - 1]);
    }
  }

  lemma AggregateReached(w: Workspace, a: string)
    requires a in Aggregates(w)
    ensures Reached(w, a)
  {
    assert IsTrail(w, [a]);
  }

  lemma NextReached(w: Workspace, a: string, i: nat)
    requires Reached(w, a) && a in w.configs && Follows(w, a, i)
    ensures Reached(w, w.configs[a].references[i])
  {
    var t :| IsTrail(w, t) && t[|t| - 1] == a;
    var b := w.configs[a].references[i];
    assert LeadsTo(w, a, b);
    assert IsTrail(w, t + [b]);
  }

  /** A violation of a reached config, and all there are of them. */
  ghost predicate IsViolation(w: Workspace, v: Violation) {
    && v.config in w.configs && Reached(w, v.config) && v.reference < |w.configs[v.config].references|
    && Judge(w, SplitProjectRoots(w), v.config, v.reference) == Some(v)
  }

  ghost predicate ConfigDone(w: Workspace, violations: seq<Violation>, waiting: set<string>, a: string, upTo: nat)
    requires a in w.configs && upTo <= |w.configs[a].references|
  {
    forall i: nat :: i < upTo ==>
      match Judge(w, SplitProjectRoots(w), a, i)
      case Some(v) => v in violations
      case None => w.configs[a].references[i] in waiting
  }

  ghost predicate AllDone(w: Workspace, violations: seq<Violation>, visited: set<string>, waiting: set<string>) {
    forall a :: a in visited ==> a in w.configs && ConfigDone(w, violations, waiting, a, |w.configs[a].references|)
  }

  ghost function MembersOf(paths: seq<string>): set<string> {
    set a | a in paths
  }

  ghost function Waiting(w: Workspace, visited: set<string>, pending: seq<string>): set<string> {
    visited + MembersOf(pending)
  }

  /** What holds after the first `i` references of a config. */
  ghost predicate Visiting(w: Workspace, config: string, violations0: seq<Violation>, pending0: seq<string>,
                           violations: seq<Violation>, pending: seq<string>, i: nat)
    requires config in w.configs && i <= |w.configs[config].references|
  {
    && violations0 <= violations && pending0 <= pending && NoDuplicates(violations)
    && (forall v :: v in violations && v.config == config ==> v.reference < i)
    && (forall v :: v in violations && v !in violations0 ==> v.config == config && IsViolation(w, v))
    && (forall a :: a in pending ==> Reached(w, a))
    && ConfigDone(w, violations, MembersOf(pending), config, i)
  }

  lemma AppendNew(violations: seq<Violation>, v: Violation)
    requires NoDuplicates(violations) && v !in violations
    ensures NoDuplicates(violations + [v])
    ensures forall u :: u in violations + [v] <==> u in violations || u == v
  {
    assert (violations + [v])[|violations|] == v;
  }

  lemma ReferenceReported(w: Workspace, config: string, violations0: seq<Violation>, pending0: seq<string>,
                          violations: seq<Violation>, pending: seq<string>, i: nat, v: Violation)
    requires config in w.configs && i < |w.configs[config].references| && Reached(w, config)
    requires Visiting(w, config, violations0, pending0, violations, pending, i)
    requires Judge(w, SplitProjectRoots(w), config, i) == Some(v)
    ensures Visiting(w, config, violations0, pending0, violations + [v], pending, i + 1)
  {
    assert v.config == config && v.reference == i && v !in violations;
    AppendNew(violations, v);
    assert violations0 <= violations + [v];
  }

  lemma ReferenceFollowed(w: Workspace, config: string, violations0: seq<Violation>, pending0: seq<string>,
                          violations: seq<Violation>, pending: seq<string>, i: nat)
    requires config in w.configs && i < |w.configs[config].references| && Reached(w, config)
    requires Visiting(w, config, violations0, pending0, violations, pending, i)
    requires Judge(w, SplitProjectRoots(w), config, i).None?
    ensures Visiting(w, config, violations0, pending0, violations, pending + [w.configs[config].references[i]], i + 1)
  {
    var target := w.configs[config].references[i];
    assert Follows(w, config, i);
    NextReached(w, config, i);
    assert (pending + [target])[|pending|] == target;
  }

  /** Goes through one config's references. */
  method Visit(w: Workspace, roots: seq<string>, config: string, violations0: seq<Violation>, pending0: seq<string>)
    returns (violations: seq<Violation>, pending: seq<string>)
    requires roots == SplitProjectRoots(w) && config in w.configs && Reached(w, config)
    requires NoDuplicates(violations0) && forall v :: v in violations0 ==> v.config != config
    requires forall a :: a in pending0 ==> Reached(w, a)
    ensures Visiting(w, config, violations0, pending0, violations, pending, |w.configs[config].references|)
  {
    violations, pending := violations0, pending0;
    var face := ProjectFace(w, config, {});
    var references := w.configs[config].references;
    for i := 0 to |references|
      invariant Visiting(w, config, violations0, pending0, violations, pending, i)
    {
      var targetConfig := references[i];
      var splitRoot := ContainingSplitRoot(roots, targetConfig);
      if splitRoot.Some? && face.None? {
        ReferenceReported(w, config, violations0, pending0, violations, pending, i, NoFace(config, i));
        violations := violations + [NoFace(config, i)];
      } else if splitRoot.Some? && targetConfig != splitRoot.value + "/" + Leaf(face.value) {
        ReferenceReported(w, config, violations0, pending0, violations, pending, i, WrongFace(config, i));
        violations := violations + [WrongFace(config, i)];
      } else {
        ReferenceFollowed(w, config, violations0, pending0, violations, pending, i);
        pending := pending + [targetConfig];
      }
    }
  }

  lemma AggregatesNotLost(w: Workspace, settled: set<string>, pending: seq<string>, more: seq<string>, config: string)
    requires pending != [] && config == pending[|pending| - 1] && pending[..|pending| - 1] <= more
    ensures Waiting(w, settled, pending) <= Waiting(w, settled + {config}, more)
  {
    forall a | a in pending
      ensures a == config || a in more
    {
      var i :| 0 <= i < |pending| && pending[i] == a;
      if i < |pending| - 1 { assert more[i] == a; }
    }
  }

  /** What holds of the tables between two turns of the walk. */
  ghost predicate Walking(w: Workspace, violations: seq<Violation>, visited: set<string>, settled: set<string>, pending: seq<string>) {
    && (forall a :: a in pending ==> Reached(w, a))
    && (forall a :: a in visited ==> a in settled && a in w.configs)
    && (forall a :: a in settled ==> a in visited || a !in w.configs)
    && (forall a :: a in Aggregates(w) ==> a in Waiting(w, settled, pending))
    && (forall v :: v in violations ==> v.config in visited && IsViolation(w, v))
    && AllDone(w, violations, visited, Waiting(w, settled, pending))
  }

  lemma StartWalking(w: Workspace)
    ensures Walking(w, [], {}, {}, Aggregates(w))
  {
    forall a | a in Aggregates(w)
      ensures Reached(w, a)
    {
      AggregateReached(w, a);
    }
  }

  lemma TurnSkipped(w: Workspace, violations: seq<Violation>, visited: set<string>, settled: set<string>, pending: seq<string>)
    requires pending != [] && Walking(w, violations, visited, settled, pending)
    requires var config := pending[|pending| - 1]; config in visited || config !in w.configs
    ensures Walking(w, violations, visited, settled + {pending[|pending| - 1]}, pending[..|pending| - 1])
  {
    var config, rest := pending[|pending| - 1], pending[..|pending| - 1];
    AggregatesNotLost(w, settled, pending, rest, config);
    forall a | a in visited
      ensures a in w.configs && ConfigDone(w, violations, Waiting(w, settled + {config}, rest), a, |w.configs[a].references|)
    {
    }
  }

  lemma LastReached(w: Workspace, violations: seq<Violation>, visited: set<string>, settled: set<string>, pending: seq<string>)
    requires pending != [] && Walking(w, violations, visited, settled, pending)
    ensures Reached(w, pending[|pending| - 1])
    ensures forall a :: a in pending[..|pending| - 1] ==> Reached(w, a)
    ensures pending[|pending| - 1] !in visited ==> forall v :: v in violations ==> v.config != pending[|pending| - 1]
  {
    assert pending[|pending| - 1] in pending;
  }

  lemma TurnVisited(w: Workspace, violations: seq<Violation>, visited: set<string>, settled: set<string>, pending: seq<string>,
                    violations': seq<Violation>, pending': seq<string>)
    requires pending != [] && Walking(w, violations, visited, settled, pending)
    requires var config := pending[|pending| - 1];
      && config !in visited && config in w.configs
      && Visiting(w, config, violations, pending[..|pending| - 1], violations', pending', |w.configs[config].references|)
    ensures var config := pending[|pending| - 1]; Walking(w, violations', visited + {config}, settled + {config}, pending')
  {
    var config := pending[|pending| - 1];
    var waiting, waiting' := Waiting(w, settled, pending), Waiting(w, settled + {config}, pending');
    AggregatesNotLost(w, settled, pending, pending', config);
    forall a | a in visited + {config}
      ensures a in w.configs && ConfigDone(w, violations', waiting', a, |w.configs[a].references|)
    {
    }
  }

  /** Reports each reference that enters a split project wrongly from a config
      reached through conforming references, once, and nothing else, in the order
      in which their messages sort. */
  method CollectViolations(w: Workspace, leq: (Violation, Violation) -> bool) returns (sorted: seq<Violation>)
    requires IsTotal(leq)
    ensures NoDuplicates(sorted) && IsSorted(leq, sorted)
    ensures forall v :: v in sorted <==> IsViolation(w, v)
  {
    var violations := CollectUnsorted(w);
    SortedSorts(leq, violations);
    sorted := Sorted(leq, violations);
    PermutedNoDuplicates(violations, sorted);
  }

  method CollectUnsorted(w: Workspace) returns (violations: seq<Violation>)
    ensures NoDuplicates(violations)
    ensures forall v :: v in violations <==> IsViolation(w, v)
  {
    var roots := SplitProjectRoots(w);
    violations := [];
    var pending := Aggregates(w);
    var visited: set<string> := {};
    ghost var settled: set<string> := {};  // visited, or found not to exist
    StartWalking(w);
    while |pending| > 0
      invariant Walking(w, violations, visited, settled, pending) && NoDuplicates(violations)
      decreases w.configs.Keys - visited, |pending|
    {
      var config := pending[|pending| - 1];
      LastReached(w, violations, visited, settled, pending);
      if config in visited || config !in w.configs {
        TurnSkipped(w, violations, visited, settled, pending);
        pending := pending[..|pending| - 1];
      } else {
        var violations', pending' := Visit(w, roots, config, violations, pending[..|pending| - 1]);
        TurnVisited(w, violations, visited, settled, pending, violations', pending');
        visited := visited + {config};
        violations, pending := violations', pending';
      }
      settled := settled + {config};
    }
    WalkComplete(w, violations, visited, settled);
  }

  lemma WalkComplete(w: Workspace, violations: seq<Violation>, visited: set<string>, settled: set<string>)
    requires Walking(w, violations, visited, settled, [])
    ensures forall v :: IsViolation(w, v) ==> v in violations
  {
    forall a, b | a in settled && LeadsTo(w, a, b)
      ensures b in settled
    {
      var i: nat :| Follows(w, a, i) && w.configs[a].references[i] == b;
      assert ConfigDone(w, violations, Waiting(w, settled, []), a, |w.configs[a].references|);
    }
    forall v | IsViolation(w, v)
      ensures v in violations
    {
      var t :| IsTrail(w, t) && t[|t| - 1] == v.config;
      TrailStays(w, settled, t);
      assert ConfigDone(w, violations, Waiting(w, settled, []), v.config, |w.configs[v.config].references|);
    }
  }

  // ---------------------------------------------------------------------
  // Names and paths as they are written
  // ---------------------------------------------------------------------

  lemma {:induction false} BasenameOf(dir: string, name: string)
    requires '/' !in name
    ensures Basename(dir + "/" + name) == name
  {
    SplitAt(dir, '/', name);
    SplitPlain(name, '/');
  }

  /** A leaf config has its own face wherever it lies. */
  lemma {:induction false} LeafFace(w: Workspace, dir: string)
    ensures OwnFace(w, dir + "/tsconfig.host.json") == Some(Host)
    ensures OwnFace(w, dir + "/tsconfig.client.json") == Some(Client)
  {
    assert dir + "/tsconfig.host.json" == dir + "/" + "tsconfig.host.json";
    assert dir + "/tsconfig.client.json" == dir + "/" + "tsconfig.client.json";
    BasenameOf(dir, "tsconfig.host.json");
    BasenameOf(dir, "tsconfig.client.json");
  }

  /** The base config of the workspace is the host's, the client base the client's. */
  lemma {:induction false} BaseFace(w: Workspace)
    ensures OwnFace(w, w.root + "/tsconfig.base.json") == Some(Host)
    ensures OwnFace(w, w.root + "/tsconfig.base.client.json") == Some(Client)
  {
    assert w.root + "/tsconfig.base.json" == w.root + "/" + "tsconfig.base.json";
    assert w.root + "/tsconfig.base.client.json" == w.root + "/" + "tsconfig.base.client.json";
    BasenameOf(w.root, "tsconfig.base.json");
    BasenameOf(w.root, "tsconfig.base.client.json");
    var host, client := w.root + "/tsconfig.base.json", w.root + "/tsconfig.base.client.json";
    assert |host| != |client|;
  }

  /** No other config has a face by its own name. */
  lemma {:induction false} OtherFace(w: Workspace, dir: string, name: string)
    requires '/' !in name && name != "tsconfig.host.json" && name != "tsconfig.client.json"
    requires !(dir == w.root && (name == "tsconfig.base.json" || name == "tsconfig.base.client.json"))
    ensures OwnFace(w, dir + "/" + name).None?
  {
    BasenameOf(dir, name);
    OtherFile(dir, name, w.root, "tsconfig.base.json");
    OtherFile(dir, name, w.root, "tsconfig.base.client.json");
    BaseNames();
  }

  lemma BaseNames()
    ensures "/tsconfig.base.json" == "/" + "tsconfig.base.json"
    ensures "/tsconfig.base.client.json" == "/" + "tsconfig.base.client.json"
  {
  }

  lemma {:induction false} OtherFile(dir: string, name: string, root: string, file: string)
    requires '/' !in name && ('/' !in file ==> !(dir == root && name == file))
    ensures '/' !in file ==> dir + "/" + name != root + ("/" + file)
  {
    if '/' !in file && dir + "/" + name == root + ("/" + file) { SameFile(dir, name, root, file); }
  }

  lemma {:induction false} SameFile(dir: string, name: string, root: string, file: string)
    requires '/' !in name && '/' !in file && dir + "/" + name == root + ("/" + file)
    ensures dir == root && name == file
  {
    assert root + ("/" + file) == root + "/" + file;
    BasenameOf(dir, name);
    BasenameOf(root, file);
    var path := dir + "/" + name;
    assert path[..|path| - |name| - 1] == dir && path[..|path| - |name| - 1] == root;
  }

  /** A directory holds itself and what lies below it, and nothing else. */
  lemma ContainsMeaning(dir: string, path: string)
    ensures Contains(dir, path) <==> path == dir || exists below: string :: path == dir + "/" + below
  {
    if StartsWith(path, dir + "/") { assert path == dir + "/" + path[|dir| + 1..]; }
    forall below: string | path == dir + "/" + below
      ensures Contains(dir, path)
    {
      assert path[..|dir| + 1] == dir + "/";
    }
  }

  lemma WalkStartsAtLeaves(w: Workspace)
    ensures Aggregates(w) == [w.root + "/tsconfig.host.json", w.root + "/tsconfig.client.json"]
  {
    assert "/" + Leaf(Host) == "/tsconfig.host.json" && "/" + Leaf(Client) == "/tsconfig.client.json";
    assert w.root + "/" + Leaf(Host) == w.root + ("/" + Leaf(Host));
    assert w.root + "/" + Leaf(Client) == w.root + ("/" + Leaf(Client));
  }
}
