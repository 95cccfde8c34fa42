/** Charts of the declarations on which every lookup ends and is exact: no
    circle of declarations leaves a path as long as it was, and no two branches
    lead to the same declaration. */
module PathCharts {
  import opened Wrappers
  import opened PathLookup
  import opened PathSoundness
  import opened PathTermination
  import opened PathPrecision

  /** `room` says how many steps a walk may still gain from here, `order` comes
      down where that leaves a path as long as it was, and `within` holds the
      declarations met from here. */
  datatype Place = Place(room: nat, order: nat, within: set<DeclId>)

  type Chart = map<DeclId, Place>

  // ---------------------------------------------------------------------
  // What lies below each node
  // ---------------------------------------------------------------------

  function NameReach(w: World, chart: Chart, file: string, name: string): set<DeclId> {
    var id := Resolve(w, file, name);
    if id.Some? && id.value in chart then {id.value} + chart[id.value].within else {}
  }

  function BasesReach(w: World, chart: Chart, file: string, bases: seq<Option<string>>): set<DeclId> {
    if bases == [] then {}
    else
      var first := if bases[0].None? then {} else NameReach(w, chart, file, bases[0].value);
      first + BasesReach(w, chart, file, bases[1..])
  }

  function MembersReach(w: World, chart: Chart, file: string, members: seq<Property>): set<DeclId> {
    if members == [] then {}
    else
      var first := if members[0].ty.None? then {} else NodeReach(w, chart, file, members[0].ty.value);
      first + MembersReach(w, chart, file, members[1..])
  }

  function PartsReach(w: World, chart: Chart, file: string, parts: seq<TypeNode>): set<DeclId> {
    if parts == [] then {} else NodeReach(w, chart, file, parts[0]) + PartsReach(w, chart, file, parts[1..])
  }

  function NodeReach(w: World, chart: Chart, file: string, node: TypeNode): set<DeclId> {
    match node
    case Literal(members, _) => MembersReach(w, chart, file, members)
    case Parenthesized(inner) => NodeReach(w, chart, file, inner)
    case Intersection(parts) => PartsReach(w, chart, file, parts)
    case Union(parts) => PartsReach(w, chart, file, parts)
    case ArrayOf(element) => NodeReach(w, chart, file, element)
    case Operator(_, inner) => NodeReach(w, chart, file, inner)
    case IndexedAccess(target, index) => if index.None? then {} else NodeReach(w, chart, file, target)
    case Reference(head, qualified, args) =>
      if head in PASSTHROUGH_WRAPPERS && args != [] then NodeReach(w, chart, file, args[0])
      else if head in ARRAY_TYPES && args != [] then NodeReach(w, chart, file, args[0])
      else if qualified then {} else NameReach(w, chart, file, head)
    case Unseeable => {}
  }

  // ---------------------------------------------------------------------
  // Charts
  // ---------------------------------------------------------------------

  predicate NameCharted(w: World, chart: Chart, file: string, name: string, spare: int, order: nat) {
    var id := Resolve(w, file, name);
    id.Some? ==>
      && id.value in chart
      && (chart[id.value].room < spare || (chart[id.value].room == spare && chart[id.value].order < order))
  }

  predicate BasesCharted(w: World, chart: Chart, file: string, bases: seq<Option<string>>, spare: int, order: nat) {
    bases != [] ==>
      && (bases[0].Some? ==>
            && NameCharted(w, chart, file, bases[0].value, spare, order)
            && NameReach(w, chart, file, bases[0].value) !! BasesReach(w, chart, file, bases[1..]))
      && BasesCharted(w, chart, file, bases[1..], spare, order)
  }

  predicate MembersCharted(w: World, chart: Chart, file: string, members: seq<Property>, spare: int, order: nat) {
    members != [] ==>
      && (members[0].ty.Some? ==> NodeCharted(w, chart, file, members[0].ty.value, spare, order))
      && MembersCharted(w, chart, file, members[1..], spare, order)
  }

  predicate PartsCharted(w: World, chart: Chart, file: string, parts: seq<TypeNode>, spare: int, order: nat) {
    parts != [] ==>
      && NodeCharted(w, chart, file, parts[0], spare, order)
      && NodeReach(w, chart, file, parts[0]) !! PartsReach(w, chart, file, parts[1..])
      && PartsCharted(w, chart, file, parts[1..], spare, order)
  }

  /** From a node with `spare` steps to spare, in a declaration of this order,
      every declaration below stands lower, and branches lead apart. */
  predicate NodeCharted(w: World, chart: Chart, file: string, node: TypeNode, spare: int, order: nat) {
    match node
    case Literal(members, _) => MembersCharted(w, chart, file, members, spare + 1, order)
    case Parenthesized(inner) => NodeCharted(w, chart, file, inner, spare, order)
    case Intersection(parts) => PartsCharted(w, chart, file, parts, spare, order)
    case Union(parts) => PartsCharted(w, chart, file, parts, spare, order)
    case ArrayOf(element) => NodeCharted(w, chart, file, element, spare + 1, order)
    case Operator(_, inner) => NodeCharted(w, chart, file, inner, spare, order)
    case IndexedAccess(target, index) => index.Some? ==> NodeCharted(w, chart, file, target, spare - 1, order)
    case Reference(head, qualified, args) =>
      if head in PASSTHROUGH_WRAPPERS && args != [] then NodeCharted(w, chart, file, args[0], spare, order)
      else if head in ARRAY_TYPES && args != [] then NodeCharted(w, chart, file, args[0], spare + 1, order)
      else !qualified ==> NameCharted(w, chart, file, head, spare, order)
    case Unseeable => true
  }

  predicate DeclCharted(w: World, chart: Chart, id: DeclId)
    requires id in w.decls && id in chart
  {
    var place := chart[id];
    match w.decls[id]
    case Interface(members, bases, _) =>
      && MembersCharted(w, chart, id.file, members, place.room + 1, place.order)
      && BasesCharted(w, chart, id.file, bases, place.room, place.order)
      && MembersReach(w, chart, id.file, members) + BasesReach(w, chart, id.file, bases) <= place.within
    case Alias(body) =>
      && NodeCharted(w, chart, id.file, body, place.room, place.order)
      && NodeReach(w, chart, id.file, body) <= place.within
    case Enum => true
  }

  predicate Charted(w: World, chart: Chart) {
    chart.Keys <= w.decls.Keys && forall id :: id in chart ==> DeclCharted(w, chart, id)
  }

  // ---------------------------------------------------------------------
  // A walk over a chart never meets a mark
  // ---------------------------------------------------------------------

  /** The marks on these declarations all stand at this height or above it. */
  ghost predicate Clear(chart: Chart, seen: set<Key>, ids: set<DeclId>, total: int, order: nat) {
    forall k :: k in seen && k.0 in ids && k.0 in chart ==>
      k.1 + chart[k.0].room > total || (k.1 + chart[k.0].room == total && chart[k.0].order >= order)
  }

  /** New marks are on these declarations only. */
  ghost predicate Marked(seen: set<Key>, seen': set<Key>, ids: set<DeclId>) {
    seen <= seen' && forall k :: k in seen' && k !in seen ==> k.0 in ids
  }

  lemma ClearEntered(chart: Chart, seen: set<Key>, id: DeclId, n: nat, ids: set<DeclId>)
    requires id in chart && ids <= chart[id].within
    requires Clear(chart, seen, {id} + chart[id].within, n + chart[id].room, chart[id].order + 1)
    ensures (id, n) !in seen && Clear(chart, seen + {(id, n)}, ids, n + chart[id].room, chart[id].order)
  {
  }

  lemma ClearBeside(chart: Chart, seen: set<Key>, seen': set<Key>, beside: set<DeclId>, ids: set<DeclId>, total: int, order: nat)
    requires Clear(chart, seen, beside + ids, total, order) && Marked(seen, seen', beside) && beside !! ids
    ensures Clear(chart, seen', ids, total, order)
  {
  }

  lemma ClearName(w: World, chart: Chart, file: string, name: string, seen: set<Key>, n: nat, spare: int, order: nat)
    requires NameCharted(w, chart, file, name, spare, order) && Resolve(w, file, name).Some?
    requires Clear(chart, seen, NameReach(w, chart, file, name), n + spare, order)
    ensures var id := Resolve(w, file, name).value;
      id in chart && Clear(chart, seen, {id} + chart[id].within, n + chart[id].room, chart[id].order + 1)
  {
  }

  lemma {:induction false} MemberCharted(
    w: World, chart: Chart, file: string, members: seq<Property>, name: string, spare: int, order: nat)
    requires MembersCharted(w, chart, file, members, spare, order)
    ensures var m := FindMember(members, name);
      m.Some? && m.value.ty.Some? ==>
        && NodeCharted(w, chart, file, m.value.ty.value, spare, order)
        && NodeReach(w, chart, file, m.value.ty.value) <= MembersReach(w, chart, file, members)
    decreases |members|
  {
    if members != [] && members[0].name != name { MemberCharted(w, chart, file, members[1..], name, spare, order); }
  }

  lemma {:induction false} ChartedDecl(w: World, chart: Chart, id: DeclId, steps: seq<Step>, seen: set<Key>, fuel: nat)
    requires Charted(w, chart) && id in chart
    requires Clear(chart, seen, {id} + chart[id].within, |steps| + chart[id].room, chart[id].order + 1)
    ensures FreshDecl(w, id, steps, seen, fuel)
    ensures var o := LookupDecl(w, id, steps, seen, fuel); o.Answer? ==> Marked(seen, o.seen, {id} + chart[id].within)
    decreases fuel, 0, 1
  {
    if steps != [] && fuel > 0 {
      assert DeclCharted(w, chart, id);
      match w.decls[id]
      case Enum =>
      case Alias(body) =>
        ClearEntered(chart, seen, id, |steps|, NodeReach(w, chart, id.file, body));
        ChartedType(
          w, chart, id.file, body, steps, seen + {(id, |steps|)}, fuel - 1, chart[id].room, chart[id].order);
      case Interface(_, _, _) => ChartedInterface(w, chart, id, steps, seen, fuel);
    }
  }

  lemma {:induction false} ChartedInterface(
    w: World, chart: Chart, id: DeclId, steps: seq<Step>, seen: set<Key>, fuel: nat)
    requires Charted(w, chart) && id in chart && w.decls[id].Interface? && steps != [] && fuel > 0
    requires Clear(chart, seen, {id} + chart[id].within, |steps| + chart[id].room, chart[id].order + 1)
    ensures FreshDecl(w, id, steps, seen, fuel)
    ensures var o := LookupDecl(w, id, steps, seen, fuel); o.Answer? ==> Marked(seen, o.seen, {id} + chart[id].within)
    decreases fuel, 0, 0
  {
    assert DeclCharted(w, chart, id);
    var place, seen' := chart[id], seen + {(id, |steps|)};
    var members, bases := w.decls[id].members, w.decls[id].bases;
    if steps[0].Member? {
      if FindMember(members, steps[0].name).Some? {
        ClearEntered(chart, seen, id, |steps|, MembersReach(w, chart, id.file, members));
        ChartedMember(w, chart, id.file, members, steps, seen', fuel - 1, place.room + 1, place.order);
      } else {
        ClearEntered(chart, seen, id, |steps|, BasesReach(w, chart, id.file, bases));
        ChartedBases(w, chart, id.file, bases, steps, seen', fuel - 1, place.room, place.order);
      }
    } else {
      ClearEntered(chart, seen, id, |steps|, {});
    }
  }

  lemma {:induction false} ChartedMember(
    w: World, chart: Chart, file: string, members: seq<Property>, steps: seq<Step>, seen: set<Key>, fuel: nat,
    spare: int, order: nat)
    requires Charted(w, chart) && MembersCharted(w, chart, file, members, spare, order)
    requires steps != [] && steps[0].Member? && FindMember(members, steps[0].name).Some?
    requires Clear(chart, seen, MembersReach(w, chart, file, members), |steps| - 1 + spare, order)
    ensures var member := FindMember(members, steps[0].name).value;
      && FreshMember(w, file, member, steps[1..], seen, fuel)
      && var o := LookupMember(w, file, member, steps[1..], seen, fuel);
         (o.Answer? ==> Marked(seen, o.seen, MembersReach(w, chart, file, members)))
    decreases fuel, 1, 0
  {
    var member := FindMember(members, steps[0].name).value;
    MemberCharted(w, chart, file, members, steps[0].name, spare, order);
    if |steps| > 1 && member.ty.Some? {
      ChartedType(w, chart, file, member.ty.value, steps[1..], seen, fuel, spare, order);
    }
  }

  lemma {:induction false} ChartedBases(
    w: World, chart: Chart, file: string, bases: seq<Option<string>>, steps: seq<Step>, seen: set<Key>, fuel: nat,
    spare: int, order: nat)
    requires Charted(w, chart) && BasesCharted(w, chart, file, bases, spare, order)
    requires Clear(chart, seen, BasesReach(w, chart, file, bases), |steps| + spare, order)
    ensures FreshBases(w, file, bases, steps, seen, fuel)
    ensures var o := LookupBases(w, file, bases, steps, seen, fuel);
      o.Answers? ==> Marked(seen, o.seen, BasesReach(w, chart, file, bases))
    decreases fuel, 1, |bases|
  {
    if bases != [] {
      var id := if bases[0].None? then None else Resolve(w, file, bases[0].value);
      var first := if id.None? then Answer(Unknown, seen) else LookupDecl(w, id.value, steps, seen, fuel);
      var reach := if bases[0].None? then {} else NameReach(w, chart, file, bases[0].value);
      if id.Some? {
        ClearName(w, chart, file, bases[0].value, seen, |steps|, spare, order);
        ChartedDecl(w, chart, id.value, steps, seen, fuel);
      }
      if first.Answer? {
        ClearBeside(chart, seen, first.seen, reach, BasesReach(w, chart, file, bases[1..]), |steps| + spare, order);
        ChartedBases(w, chart, file, bases[1..], steps, first.seen, fuel, spare, order);
      }
    }
  }

  lemma {:induction false} ChartedType(
    w: World, chart: Chart, file: string, node: TypeNode, steps: seq<Step>, seen: set<Key>, fuel: nat,
    spare: int, order: nat)
    requires Charted(w, chart) && NodeCharted(w, chart, file, node, spare, order)
    requires Clear(chart, seen, NodeReach(w, chart, file, node), |steps| + spare, order)
    ensures FreshType(w, file, node, steps, seen, fuel)
    ensures var o := LookupType(w, file, node, steps, seen, fuel);
      o.Answer? ==> Marked(seen, o.seen, NodeReach(w, chart, file, node))
    decreases fuel, 0, 1
  {
    if steps != [] && fuel > 0 {
      match node
      case Literal(members, _) =>
        if steps[0].Member? && FindMember(members, steps[0].name).Some? {
          ChartedMember(w, chart, file, members, steps, seen, fuel - 1, spare + 1, order);
        }
      case Parenthesized(inner) => ChartedType(w, chart, file, inner, steps, seen, fuel - 1, spare, order);
      case Intersection(parts) => ChartedParts(w, chart, file, parts, steps, seen, fuel - 1, spare, order);
      case Union(parts) => ChartedParts(w, chart, file, parts, steps, seen, fuel - 1, spare, order);
      case ArrayOf(element) =>
        if steps[0].Element? { ChartedType(w, chart, file, element, steps[1..], seen, fuel - 1, spare + 1, order); }
      case Operator(_, inner) => ChartedType(w, chart, file, inner, steps, seen, fuel - 1, spare, order);
      case IndexedAccess(target, index) =>
        if index.Some? {
          ChartedType(w, chart, file, target, [Member(index.value)] + steps, seen, fuel - 1, spare - 1, order);
        }
      case Reference(_, _, _) => ChartedReference(w, chart, file, node, steps, seen, fuel, spare, order);
      case Unseeable =>
    }
  }

  lemma {:induction false} ChartedReference(
    w: World, chart: Chart, file: string, node: TypeNode, steps: seq<Step>, seen: set<Key>, fuel: nat,
    spare: int, order: nat)
    requires node.Reference? && steps != [] && fuel > 0
    requires Charted(w, chart) && NodeCharted(w, chart, file, node, spare, order)
    requires Clear(chart, seen, NodeReach(w, chart, file, node), |steps| + spare, order)
    ensures FreshType(w, file, node, steps, seen, fuel)
    ensures var o := LookupType(w, file, node, steps, seen, fuel);
      o.Answer? ==> Marked(seen, o.seen, NodeReach(w, chart, file, node))
    decreases fuel, 0, 0
  {
    var head, args := node.head, node.args;
    if head in PASSTHROUGH_WRAPPERS && args != [] {
      ChartedType(w, chart, file, args[0], steps, seen, fuel - 1, spare, order);
    } else if head in ARRAY_TYPES && args != [] {
      if steps[0].Element? { ChartedType(w, chart, file, args[0], steps[1..], seen, fuel - 1, spare + 1, order); }
    } else if !node.qualified && Resolve(w, file, head).Some? {
      ClearName(w, chart, file, head, seen, |steps|, spare, order);
      ChartedDecl(w, chart, Resolve(w, file, head).value, steps, seen, fuel - 1);
    }
  }

  lemma {:induction false} ChartedParts(
    w: World, chart: Chart, file: string, parts: seq<TypeNode>, steps: seq<Step>, seen: set<Key>, fuel: nat,
    spare: int, order: nat)
    requires Charted(w, chart) && PartsCharted(w, chart, file, parts, spare, order)
    requires Clear(chart, seen, PartsReach(w, chart, file, parts), |steps| + spare, order)
    ensures FreshParts(w, file, parts, steps, seen, fuel)
    ensures var o := LookupParts(w, file, parts, steps, seen, fuel);
      o.Answers? ==> Marked(seen, o.seen, PartsReach(w, chart, file, parts))
    decreases fuel, 1, |parts|
  {
    if parts != [] {
      var first := LookupType(w, file, parts[0], steps, seen, fuel);
      var reach, others := NodeReach(w, chart, file, parts[0]), PartsReach(w, chart, file, parts[1..]);
      ChartedType(w, chart, file, parts[0], steps, seen, fuel, spare, order);
      if first.Answer? {
        ClearBeside(chart, seen, first.seen, reach, others, |steps| + spare, order);
        ChartedParts(w, chart, file, parts[1..], steps, first.seen, fuel, spare, order);
      }
    }
  }

  // ---------------------------------------------------------------------
  // A chart has room
  // ---------------------------------------------------------------------

  function Rooms(chart: Chart): Room {
    map id | id in chart :: chart[id].room
  }

  lemma {:induction false} ChartedFits(w: World, chart: Chart, file: string, node: TypeNode, spare: int, order: nat)
    requires NodeCharted(w, chart, file, node, spare, order)
    ensures NodeFits(w, Rooms(chart), file, node, spare)
    decreases node
  {
    match node
    case Literal(members, _) => ChartedMembersFit(w, chart, file, members, spare + 1, order);
    case Parenthesized(inner) => ChartedFits(w, chart, file, inner, spare, order);
    case Intersection(parts) => ChartedPartsFit(w, chart, file, parts, spare, order);
    case Union(parts) => ChartedPartsFit(w, chart, file, parts, spare, order);
    case ArrayOf(element) => ChartedFits(w, chart, file, element, spare + 1, order);
    case Operator(_, inner) => ChartedFits(w, chart, file, inner, spare, order);
    case IndexedAccess(target, index) => if index.Some? { ChartedFits(w, chart, file, target, spare - 1, order); }
    case Reference(head, _, args) =>
      if head in PASSTHROUGH_WRAPPERS && args != [] { ChartedFits(w, chart, file, args[0], spare, order); }
      else if head in ARRAY_TYPES && args != [] { ChartedFits(w, chart, file, args[0], spare + 1, order); }
    case Unseeable =>
  }

  lemma {:induction false} ChartedMembersFit(
    w: World, chart: Chart, file: string, members: seq<Property>, spare: int, order: nat)
    requires MembersCharted(w, chart, file, members, spare, order)
    ensures MembersFit(w, Rooms(chart), file, members, spare)
    decreases members
  {
    if members != [] {
      if members[0].ty.Some? { ChartedFits(w, chart, file, members[0].ty.value, spare, order); }
      ChartedMembersFit(w, chart, file, members[1..], spare, order);
      assert forall i :: 0 < i < |members| ==> members[i] == members[1..][i - 1];
    }
  }

  lemma {:induction false} ChartedPartsFit(
    w: World, chart: Chart, file: string, parts: seq<TypeNode>, spare: int, order: nat)
    requires PartsCharted(w, chart, file, parts, spare, order)
    ensures forall i :: 0 <= i < |parts| ==> NodeFits(w, Rooms(chart), file, parts[i], spare)
    decreases parts
  {
    if parts != [] {
      ChartedFits(w, chart, file, parts[0], spare, order);
      ChartedPartsFit(w, chart, file, parts[1..], spare, order);
      assert forall i :: 0 < i < |parts| ==> parts[i] == parts[1..][i - 1];
    }
  }

  lemma {:induction false} ChartedBasesFit(
    w: World, chart: Chart, file: string, bases: seq<Option<string>>, spare: int, order: nat)
    requires BasesCharted(w, chart, file, bases, spare, order)
    ensures forall base :: base in bases && base.Some? ==> NameFits(w, Rooms(chart), file, base.value, spare)
    decreases |bases|
  {
    if bases != [] {
      ChartedBasesFit(w, chart, file, bases[1..], spare, order);
      assert bases == [bases[0]] + bases[1..];
    }
  }

  lemma ChartHasRoom(w: World, chart: Chart)
    requires Charted(w, chart)
    ensures HasRoom(w, Rooms(chart))
  {
    forall id | id in chart
      ensures DeclFits(w, Rooms(chart), id)
    {
      assert DeclCharted(w, chart, id);
      var place := chart[id];
      match w.decls[id]
      case Enum =>
      case Alias(body) => ChartedFits(w, chart, id.file, body, place.room, place.order);
      case Interface(members, bases, _) =>
        ChartedMembersFit(w, chart, id.file, members, place.room + 1, place.order);
        ChartedBasesFit(w, chart, id.file, bases, place.room, place.order);
    }
  }

  /** On a chart every lookup has one answer.  It is `found` where the path is
      present under every reading and `missing` where it is under none; where the
      lookup passes through no operator, or over no member either, only there. */
  lemma ChartedLookupsAreExact(w: World, chart: Chart, id: DeclId, steps: seq<Step>) returns (verdict: Verdict)
    requires Charted(w, chart) && id in chart
    ensures forall v :: Answered(w, id, steps, v) <==> v == verdict
    ensures (forall r :: Present(w, r, id, steps)) ==> verdict == Found
    ensures (forall r :: !Present(w, r, id, steps)) ==> verdict == Missing
    ensures IsSeenThrough(w, id, steps) && verdict == Found ==> forall r :: Present(w, r, id, steps)
    ensures IsClear(w, id, steps) && verdict == Missing ==> forall r :: !Present(w, r, id, steps)
  {
    ChartHasRoom(w, chart);
    verdict := BoundedLookupsEnd(w, Rooms(chart), id, steps);
    var fuel: nat, seen :| LookupDecl(w, id, steps, {}, fuel) == Answer(verdict, seen);
    ChartedDecl(w, chart, id, steps, {}, fuel);
    VerdictsAreExact(w, id, steps, verdict);
  }

  const N := DeclId("a.ts", 0)

  /** `interface N { next: N; x }` */
  const CHAIN := World(
    map[N := Interface([Property("next", Some(Reference("N", false, []))), Property("x", None)], [], [])],
    map[("a.ts", "N") := N])

  /** Declarations may go round in circles: each turn takes a step off the path. */
  lemma RecursionIsCharted()
    ensures Charted(CHAIN, map[N := Place(0, 0, {N})])
  {
    var chart := map[N := Place(0, 0, {N})];
    var next := Reference("N", false, []);
    var members := [Property("next", Some(next)), Property("x", None)];
    assert Resolve(CHAIN, "a.ts", "N") == Some(N);
    assert NodeCharted(CHAIN, chart, "a.ts", next, 1, 0) && NodeReach(CHAIN, chart, "a.ts", next) == {N};
    assert members[1..] == [Property("x", None)] && members[1..][1..] == [];
    assert MembersReach(CHAIN, chart, "a.ts", members[1..]) == {};
    assert MembersReach(CHAIN, chart, "a.ts", members) == {N};
    assert MembersCharted(CHAIN, chart, "a.ts", members[1..], 1, 0);
    assert MembersCharted(CHAIN, chart, "a.ts", members, 1, 0);
    assert DeclCharted(CHAIN, chart, N);
  }
}
