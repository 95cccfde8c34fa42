/** When the walk gives no answer: where aliases come round to themselves, whatever
    the path is, with more steps than before. */
module PathDivergence {
  import opened Wrappers
  import opened PathLookup
  import opened PathTermination

  // ---------------------------------------------------------------------
  // What a walk comes to whatever its path
  // ---------------------------------------------------------------------

  /** Whatever the path, the walk comes from the node to this declaration, with
      `gain` more steps on the path. */
  predicate Leads(w: World, file: string, node: TypeNode, to: DeclId, gain: nat) {
    match node
    case Parenthesized(inner) => Leads(w, file, inner, to, gain)
    case Intersection(parts) => exists i | 0 <= i < |parts| :: Leads(w, file, parts[i], to, gain)
    case Union(parts) => exists i | 0 <= i < |parts| :: Leads(w, file, parts[i], to, gain)
    case Operator(_, inner) => Leads(w, file, inner, to, gain)
    case IndexedAccess(target, index) => index.Some? && gain > 0 && Leads(w, file, target, to, gain - 1)
    case Reference(head, qualified, args) =>
      if head in PASSTHROUGH_WRAPPERS && args != [] then Leads(w, file, args[0], to, gain)
      else !(head in ARRAY_TYPES && args != []) && !qualified && Resolve(w, file, head) == Some(to) && gain == 0
    case _ => false
  }

  predicate IsAlias(w: World, id: DeclId) {
    id in w.decls && w.decls[id].Alias?
  }

  predicate AliasLeads(w: World, from: DeclId, to: DeclId, gain: nat) {
    IsAlias(w, from) && IsAlias(w, to) && Leads(w, from.file, w.decls[from].body, to, gain)
  }

  /** With an alias everything it leads to is entered. */
  ghost predicate IsClosed(w: World, marks: set<Key>, all: set<Key>) {
    forall from, to, gain: nat, n: nat {:trigger (from, n) in marks, AliasLeads(w, from, to, gain)} ::
      (from, n) in marks && AliasLeads(w, from, to, gain) ==> (to, n + gain) in all
  }

  /** All aliases a node leads to have been entered from `n` steps on. */
  ghost predicate IsEntered(w: World, file: string, node: TypeNode, n: nat, all: set<Key>) {
    forall to, gain: nat {:trigger Leads(w, file, node, to, gain)} ::
      IsAlias(w, to) && Leads(w, file, node, to, gain) ==> (to, n + gain) in all
  }

  ghost predicate Grows(w: World, seen: set<Key>, seen': set<Key>) {
    seen <= seen' && IsClosed(w, seen' - seen, seen')
  }

  lemma GrowsOn(w: World, a: set<Key>, b: set<Key>, c: set<Key>)
    requires Grows(w, a, b) && Grows(w, b, c)
    ensures Grows(w, a, c)
  {
    forall from, to, gain: nat, n: nat | (from, n) in c - a && AliasLeads(w, from, to, gain)
      ensures (to, n + gain) in c
    {
      if (from, n) in b { assert (from, n) in b - a; } else { assert (from, n) in c - b; }
    }
  }

  /** An alias is closed once its body has been walked. */
  lemma AliasGrows(w: World, id: DeclId, n: nat, seen: set<Key>, all: set<Key>)
    requires IsAlias(w, id) && Grows(w, seen + {(id, n)}, all) && IsEntered(w, id.file, w.decls[id].body, n, all)
    ensures Grows(w, seen, all)
  {
    forall from, to, gain: nat, m: nat | (from, m) in all - seen && AliasLeads(w, from, to, gain)
      ensures (to, m + gain) in all
    {
      if (from, m) != (id, n) { assert (from, m) in all - (seen + {(id, n)}); }
    }
  }

  lemma OtherGrows(w: World, id: DeclId, n: nat, seen: set<Key>, all: set<Key>)
    requires !IsAlias(w, id) && Grows(w, seen + {(id, n)}, all)
    ensures Grows(w, seen, all)
  {
    forall from, to, gain: nat, m: nat | (from, m) in all - seen && AliasLeads(w, from, to, gain)
      ensures (to, m + gain) in all
    {
      assert (from, m) in all - (seen + {(id, n)});
    }
  }

  lemma {:induction false} EntersDecl(w: World, id: DeclId, steps: seq<Step>, seen: set<Key>, fuel: nat)
    requires id in w.decls && LookupDecl(w, id, steps, seen, fuel).Answer?
    ensures var o := LookupDecl(w, id, steps, seen, fuel);
      Grows(w, seen, o.seen) && (IsAlias(w, id) && steps != [] ==> (id, |steps|) in o.seen)
    decreases fuel, 0, 0
  {
    var o := LookupDecl(w, id, steps, seen, fuel);
    if steps != [] && (id, |steps|) !in seen && !w.decls[id].Enum? {
      var seen' := seen + {(id, |steps|)};
      match w.decls[id]
      case Alias(body) =>
        EntersType(w, id.file, body, steps, seen', fuel - 1);
        AliasGrows(w, id, |steps|, seen, o.seen);
      case Interface(members, bases, _) =>
        if steps[0].Member? {
          var member := FindMember(members, steps[0].name);
          if member.Some? { EntersMember(w, id.file, member.value, steps[1..], seen', fuel - 1); }
          else { EntersBases(w, id.file, bases, steps, seen', fuel - 1); }
        }
        OtherGrows(w, id, |steps|, seen, o.seen);
    }
  }

  lemma {:induction false} EntersMember(
    w: World, file: string, member: Property, rest: seq<Step>, seen: set<Key>, fuel: nat)
    requires LookupMember(w, file, member, rest, seen, fuel).Answer?
    ensures Grows(w, seen, LookupMember(w, file, member, rest, seen, fuel).seen)
    decreases fuel, 1, 0
  {
    if rest != [] && member.ty.Some? { EntersType(w, file, member.ty.value, rest, seen, fuel); }
  }

  lemma {:induction false} EntersBases(
    w: World, file: string, bases: seq<Option<string>>, steps: seq<Step>, seen: set<Key>, fuel: nat)
    requires LookupBases(w, file, bases, steps, seen, fuel).Answers?
    ensures Grows(w, seen, LookupBases(w, file, bases, steps, seen, fuel).seen)
    decreases fuel, 1, |bases|
  {
    if bases != [] {
      var id := if bases[0].None? then None else Resolve(w, file, bases[0].value);
      var first := if id.None? then Answer(Unknown, seen) else LookupDecl(w, id.value, steps, seen, fuel);
      if id.Some? { EntersDecl(w, id.value, steps, seen, fuel); }
      EntersBases(w, file, bases[1..], steps, first.seen, fuel);
      GrowsOn(w, seen, first.seen, LookupBases(w, file, bases[1..], steps, first.seen, fuel).seen);
    }
  }

  lemma {:induction false} EntersType(w: World, file: string, node: TypeNode, steps: seq<Step>, seen: set<Key>, fuel: nat)
    requires LookupType(w, file, node, steps, seen, fuel).Answer?
    ensures var o := LookupType(w, file, node, steps, seen, fuel);
      Grows(w, seen, o.seen) && (steps != [] ==> IsEntered(w, file, node, |steps|, o.seen))
    decreases fuel, 0, 0
  {
    if steps != [] {
      match node
      case Literal(members, _) =>
        if steps[0].Member? && FindMember(members, steps[0].name).Some? {
          EntersMember(w, file, FindMember(members, steps[0].name).value, steps[1..], seen, fuel - 1);
        }
      case Parenthesized(inner) => EntersType(w, file, inner, steps, seen, fuel - 1);
      case Intersection(parts) => EntersParts(w, file, parts, steps, seen, fuel - 1);
      case Union(parts) => EntersParts(w, file, parts, steps, seen, fuel - 1);
      case ArrayOf(element) => if steps[0].Element? { EntersType(w, file, element, steps[1..], seen, fuel - 1); }
      case Operator(_, inner) => EntersType(w, file, inner, steps, seen, fuel - 1);
      case IndexedAccess(target, index) =>
        if index.Some? { EntersType(w, file, target, [Member(index.value)] + steps, seen, fuel - 1); }
      case Reference(head, qualified, args) =>
        if head in PASSTHROUGH_WRAPPERS && args != [] { EntersType(w, file, args[0], steps, seen, fuel - 1); }
        else if head in ARRAY_TYPES && args != [] {
          if steps[0].Element? { EntersType(w, file, args[0], steps[1..], seen, fuel - 1); }
        } else if !qualified && Resolve(w, file, head).Some? {
          EntersDecl(w, Resolve(w, file, head).value, steps, seen, fuel - 1);
        }
      case Unseeable =>
    }
  }

  lemma {:induction false} EntersParts(
    w: World, file: string, parts: seq<TypeNode>, steps: seq<Step>, seen: set<Key>, fuel: nat)
    requires LookupParts(w, file, parts, steps, seen, fuel).Answers?
    ensures var o := LookupParts(w, file, parts, steps, seen, fuel);
      && Grows(w, seen, o.seen)
      && (steps != [] ==> forall i :: 0 <= i < |parts| ==> IsEntered(w, file, parts[i], |steps|, o.seen))
    decreases fuel, 1, |parts|
  {
    if parts != [] {
      var first := LookupType(w, file, parts[0], steps, seen, fuel);
      EntersType(w, file, parts[0], steps, seen, fuel);
      EntersParts(w, file, parts[1..], steps, first.seen, fuel);
      GrowsOn(w, seen, first.seen, LookupParts(w, file, parts[1..], steps, first.seen, fuel).seen);
      assert forall i :: 0 < i < |parts| ==> parts[i] == parts[1..][i - 1];
    }
  }

  // ---------------------------------------------------------------------
  // Circles that make the path longer
  // ---------------------------------------------------------------------

  datatype Hop = Hop(id: DeclId, gain: nat)

  /** From alias to alias, each leading to the next. */
  predicate IsTrail(w: World, from: DeclId, hops: seq<Hop>)
    decreases |hops|
  {
    hops == [] || (AliasLeads(w, from, hops[0].id, hops[0].gain) && IsTrail(w, hops[0].id, hops[1..]))
  }

  function End(from: DeclId, hops: seq<Hop>): DeclId
    decreases |hops|
  {
    if hops == [] then from else End(hops[0].id, hops[1..])
  }

  function Total(hops: seq<Hop>): nat {
    if hops == [] then 0 else hops[0].gain + Total(hops[1..])
  }

  lemma {:induction false} TrailEntered(w: World, all: set<Key>, from: DeclId, n: nat, hops: seq<Hop>)
    requires IsClosed(w, all, all) && (from, n) in all && IsTrail(w, from, hops)
    ensures (End(from, hops), n + Total(hops)) in all
    decreases |hops|
  {
    if hops != [] { TrailEntered(w, all, hops[0].id, n + hops[0].gain, hops[1..]); }
  }

  /** The most steps a declaration is entered with. */
  ghost function Top(keys: set<Key>, id: DeclId): (top: nat)
    ensures forall n: nat :: (id, n) in keys ==> n <= top && (id, top) in keys
  {
    if exists n: nat :: (id, n) in keys then
      var n: nat :| (id, n) in keys;
      var rest := Top(keys - {(id, n)}, id);
      if (id, rest) in keys && rest > n then rest else n
    else 0
  }

  lemma Entered(w: World, id: DeclId, steps: seq<Step>, verdict: Verdict) returns (all: set<Key>)
    requires IsAlias(w, id) && steps != [] && Answered(w, id, steps, verdict)
    ensures IsClosed(w, all, all) && (id, |steps|) in all
  {
    var fuel: nat, seen :| LookupDecl(w, id, steps, {}, fuel) == Answer(verdict, seen);
    EntersDecl(w, id, steps, {}, fuel);
    all := seen;
    assert all - {} == all;
  }

  /** An alias that leads to a circle of aliases on which the path grows, through
      any branches of unions and intersections, has no answer for any path. */
  lemma IndexedCirclesDiverge(
    w: World, id: DeclId, approach: seq<Hop>, circle: seq<Hop>, steps: seq<Step>, verdict: Verdict)
    requires IsAlias(w, id) && steps != [] && IsTrail(w, id, approach)
    requires var start := End(id, approach); IsTrail(w, start, circle) && End(start, circle) == start && Total(circle) > 0
    ensures !Answered(w, id, steps, verdict)
  {
    if Answered(w, id, steps, verdict) {
      var all := Entered(w, id, steps, verdict);
      var start := End(id, approach);
      TrailEntered(w, all, id, |steps|, approach);
      TrailEntered(w, all, start, Top(all, start), circle);
    }
  }

  // ---------------------------------------------------------------------
  // Aliases that keep the path
  // ---------------------------------------------------------------------

  /** What lies below does not depend on the path, and leads to these aliases. */
  predicate Stays(w: World, ids: set<DeclId>, file: string, node: TypeNode) {
    match node
    case Literal(_, _) => false
    case Parenthesized(inner) => Stays(w, ids, file, inner)
    case Intersection(parts) => forall i | 0 <= i < |parts| :: Stays(w, ids, file, parts[i])
    case Union(parts) => forall i | 0 <= i < |parts| :: Stays(w, ids, file, parts[i])
    case ArrayOf(_) => false
    case Operator(_, inner) => Stays(w, ids, file, inner)
    case IndexedAccess(target, index) => index.Some? ==> Stays(w, ids, file, target)
    case Reference(head, qualified, args) =>
      if head in PASSTHROUGH_WRAPPERS && args != [] then Stays(w, ids, file, args[0])
      else if head in ARRAY_TYPES && args != [] then false
      else
        var id := Resolve(w, file, head);
        qualified || id.None? || id.value in ids || w.decls[id.value].Enum?
    case Unseeable => true
  }

  ghost predicate AreKeeping(w: World, ids: set<DeclId>) {
    forall id :: id in ids ==> IsAlias(w, id) && Stays(w, ids, id.file, w.decls[id].body)
  }

  /** Room is what a declaration's entries leave of the highest. */
  ghost function RoomLeft(ids: set<DeclId>, all: set<Key>, top: nat): Room
    requires forall k :: k in all ==> k.1 <= top
  {
    map id | id in ids && (id, Top(all, id)) in all :: top - Top(all, id)
  }

  lemma {:induction false} StaysFits(
    w: World, ids: set<DeclId>, all: set<Key>, top: nat, file: string, node: TypeNode, n: nat)
    requires AreKeeping(w, ids) && Stays(w, ids, file, node) && forall k :: k in all ==> k.1 <= top
    requires IsEntered(w, file, node, n, all)
    ensures NodeFits(w, RoomLeft(ids, all, top), file, node, top - n)
    decreases node
  {
    match node
    case Parenthesized(inner) =>
      EnteredBelow(w, file, node, inner, n, all);
      StaysFits(w, ids, all, top, file, inner, n);
    case Intersection(parts) => PartsFit(w, ids, all, top, file, node, parts, n);
    case Union(parts) => PartsFit(w, ids, all, top, file, node, parts, n);
    case Operator(_, inner) =>
      EnteredBelow(w, file, node, inner, n, all);
      StaysFits(w, ids, all, top, file, inner, n);
    case IndexedAccess(target, index) =>
      if index.Some? {
        forall to, gain: nat | IsAlias(w, to) && Leads(w, file, target, to, gain)
          ensures (to, n + 1 + gain) in all
        {
          assert Leads(w, file, node, to, gain + 1);
        }
        StaysFits(w, ids, all, top, file, target, n + 1);
      }
    case Reference(head, qualified, args) =>
      if head in PASSTHROUGH_WRAPPERS && args != [] {
        EnteredBelow(w, file, node, args[0], n, all);
        StaysFits(w, ids, all, top, file, args[0], n);
      } else if !qualified && Resolve(w, file, head).Some? {
        assert Leads(w, file, node, Resolve(w, file, head).value, 0);
      }
    case Unseeable =>
  }

  lemma {:induction false} PartsFit(
    w: World, ids: set<DeclId>, all: set<Key>, top: nat, file: string, node: TypeNode, parts: seq<TypeNode>, n: nat)
    requires (node.Intersection? || node.Union?) && parts == node.parts
    requires AreKeeping(w, ids) && Stays(w, ids, file, node) && forall k :: k in all ==> k.1 <= top
    requires IsEntered(w, file, node, n, all)
    ensures NodeFits(w, RoomLeft(ids, all, top), file, node, top - n)
    decreases node, 0
  {
    forall i | 0 <= i < |parts|
      ensures NodeFits(w, RoomLeft(ids, all, top), file, parts[i], top - n)
    {
      EnteredBelow(w, file, node, parts[i], n, all);
      StaysFits(w, ids, all, top, file, parts[i], n);
    }
  }

  lemma EnteredBelow(w: World, file: string, node: TypeNode, part: TypeNode, n: nat, all: set<Key>)
    requires IsEntered(w, file, node, n, all)
    requires forall to, gain: nat :: Leads(w, file, part, to, gain) ==> Leads(w, file, node, to, gain)
    ensures IsEntered(w, file, part, n, all)
  {
  }

  lemma ClosedEnters(w: World, id: DeclId, n: nat, all: set<Key>)
    requires IsClosed(w, all, all) && IsAlias(w, id) && (id, n) in all
    ensures IsEntered(w, id.file, w.decls[id].body, n, all)
  {
    forall to, gain: nat | IsAlias(w, to) && Leads(w, id.file, w.decls[id].body, to, gain)
      ensures (to, n + gain) in all
    {
      assert AliasLeads(w, id, to, gain);
    }
  }

  lemma {:induction false} Highest(all: set<Key>) returns (top: nat)
    ensures forall k :: k in all ==> k.1 <= top
  {
    top := 0;
    if all != {} {
      var k :| k in all;
      top := Highest(all - {k});
      top := Max(top, k.1);
    }
  }

  /** Where nothing depends on the path, an alias has an answer for a path exactly
      if no circle it comes to makes the path longer. */
  lemma KeepingLookupsEndIff(w: World, ids: set<DeclId>, id: DeclId, steps: seq<Step>)
    requires AreKeeping(w, ids) && id in ids && steps != []
    ensures (exists verdict :: Answered(w, id, steps, verdict)) <==> exists room :: HasRoom(w, room) && id in room
  {
    if room :| HasRoom(w, room) && id in room {
      var verdict := BoundedLookupsEnd(w, room, id, steps);
    } else if verdict :| Answered(w, id, steps, verdict) {
      var all := Entered(w, id, steps, verdict);
      var top := Highest(all);
      var room := RoomLeft(ids, all, top);
      forall d | d in room
        ensures DeclFits(w, room, d)
      {
        ClosedEnters(w, d, Top(all, d), all);
        StaysFits(w, ids, all, top, d.file, w.decls[d].body, Top(all, d));
      }
      assert HasRoom(w, room) && id in room;
    }
  }

  // ---------------------------------------------------------------------
  // The shortest circle
  // ---------------------------------------------------------------------

  /** `type A = A['x'] | string` */
  const SELF_INDEXED := World(
    map[A := Alias(Union([IndexedAccess(Reference("A", false, []), Some("x")), Unseeable]))], map[("a.ts", "A") := A])

  lemma IndexedAccessCanDiverge(steps: seq<Step>, verdict: Verdict)
    requires steps != []
    ensures !Answered(SELF_INDEXED, A, steps, verdict)
  {
    var self := Reference("A", false, []);
    var parts := [IndexedAccess(self, Some("x")), Unseeable];
    assert Leads(SELF_INDEXED, "a.ts", self, A, 0);
    assert Leads(SELF_INDEXED, "a.ts", parts[0], A, 1);
    assert AliasLeads(SELF_INDEXED, A, A, 1);
    var circle := [Hop(A, 1)];
    assert circle[1..] == [] && IsTrail(SELF_INDEXED, A, circle) && Total(circle) == 1;
    IndexedCirclesDiverge(SELF_INDEXED, A, [], circle, steps, verdict);
  }
}
