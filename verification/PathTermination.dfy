/** When the walk gives an answer at all: always where indexed accesses make no
    path longer round a circle of declarations. */
module PathTermination {
  import opened Wrappers
  import opened PathLookup

  // ---------------------------------------------------------------------
  // Fuel only decides whether there is an answer, never which
  // ---------------------------------------------------------------------

  lemma {:induction false} MoreFuelDecl(w: World, id: DeclId, steps: seq<Step>, seen: set<Key>, f: nat, g: nat)
    requires id in w.decls && f <= g && LookupDecl(w, id, steps, seen, f).Answer?
    ensures LookupDecl(w, id, steps, seen, g) == LookupDecl(w, id, steps, seen, f)
    decreases f, 0, 0
  {
    if steps != [] {
      var seen' := seen + {(id, |steps|)};
      match w.decls[id]
      case Enum =>
      case Alias(body) =>
        if (id, |steps|) !in seen { MoreFuelType(w, id.file, body, steps, seen', f - 1, g - 1); }
      case Interface(members, bases, _) =>
        if (id, |steps|) !in seen && steps[0].Member? {
          var member := FindMember(members, steps[0].name);
          if member.Some? { MoreFuelMember(w, id.file, member.value, steps[1..], seen', f - 1, g - 1); }
          else { MoreFuelBases(w, id.file, bases, steps, seen', f - 1, g - 1); }
        }
    }
  }

  lemma {:induction false} MoreFuelMember(w: World, file: string, member: Property, rest: seq<Step>, seen: set<Key>, f: nat, g: nat)
    requires f <= g && LookupMember(w, file, member, rest, seen, f).Answer?
    ensures LookupMember(w, file, member, rest, seen, g) == LookupMember(w, file, member, rest, seen, f)
    decreases f, 1, 0
  {
    if rest != [] && member.ty.Some? { MoreFuelType(w, file, member.ty.value, rest, seen, f, g); }
  }

  lemma {:induction false} MoreFuelBases(w: World, file: string, bases: seq<Option<string>>, steps: seq<Step>, seen: set<Key>, f: nat, g: nat)
    requires f <= g && LookupBases(w, file, bases, steps, seen, f).Answers?
    ensures LookupBases(w, file, bases, steps, seen, g) == LookupBases(w, file, bases, steps, seen, f)
    decreases f, 1, |bases|
  {
    if bases != [] {
      var id := if bases[0].None? then None else Resolve(w, file, bases[0].value);
      if id.Some? { MoreFuelDecl(w, id.value, steps, seen, f, g); }
      var first := if id.None? then Answer(Unknown, seen) else LookupDecl(w, id.value, steps, seen, f);
      MoreFuelBases(w, file, bases[1..], steps, first.seen, f, g);
    }
  }

  lemma {:induction false} MoreFuelType(w: World, file: string, node: TypeNode, steps: seq<Step>, seen: set<Key>, f: nat, g: nat)
    requires f <= g && LookupType(w, file, node, steps, seen, f).Answer?
    ensures LookupType(w, file, node, steps, seen, g) == LookupType(w, file, node, steps, seen, f)
    decreases f, 0, 0
  {
    if steps != [] {
      match node
      case Literal(members, _) =>
        if steps[0].Member? && FindMember(members, steps[0].name).Some? {
          MoreFuelMember(w, file, FindMember(members, steps[0].name).value, steps[1..], seen, f - 1, g - 1);
        }
      case Parenthesized(inner) => MoreFuelType(w, file, inner, steps, seen, f - 1, g - 1);
      case Intersection(parts) => MoreFuelParts(w, file, parts, steps, seen, f - 1, g - 1);
      case Union(parts) => MoreFuelParts(w, file, parts, steps, seen, f - 1, g - 1);
      case ArrayOf(element) => if steps[0].Element? { MoreFuelType(w, file, element, steps[1..], seen, f - 1, g - 1); }
      case Operator(_, inner) => MoreFuelType(w, file, inner, steps, seen, f - 1, g - 1);
      case IndexedAccess(target, index) =>
        if index.Some? { MoreFuelType(w, file, target, [Member(index.value)] + steps, seen, f - 1, g - 1); }
      case Reference(head, qualified, args) =>
        if head in PASSTHROUGH_WRAPPERS && args != [] { MoreFuelType(w, file, args[0], steps, seen, f - 1, g - 1); }
        else if head in ARRAY_TYPES && args != [] {
          if steps[0].Element? { MoreFuelType(w, file, args[0], steps[1..], seen, f - 1, g - 1); }
        } else if !qualified && Resolve(w, file, head).Some? {
          MoreFuelDecl(w, Resolve(w, file, head).value, steps, seen, f - 1, g - 1);
        }
      case Unseeable =>
    }
  }

  lemma {:induction false} MoreFuelParts(w: World, file: string, parts: seq<TypeNode>, steps: seq<Step>, seen: set<Key>, f: nat, g: nat)
    requires f <= g && LookupParts(w, file, parts, steps, seen, f).Answers?
    ensures LookupParts(w, file, parts, steps, seen, g) == LookupParts(w, file, parts, steps, seen, f)
    decreases f, 1, |parts|
  {
    if parts != [] {
      MoreFuelType(w, file, parts[0], steps, seen, f, g);
      MoreFuelParts(w, file, parts[1..], steps, LookupType(w, file, parts[0], steps, seen, f).seen, f, g);
    }
  }

  /** A lookup has one answer. */
  lemma AnswerUnique(w: World, id: DeclId, steps: seq<Step>, v1: Verdict, v2: Verdict)
    requires id in w.decls && Answered(w, id, steps, v1) && Answered(w, id, steps, v2)
    ensures v1 == v2
  {
    var f1: nat, s1 :| LookupDecl(w, id, steps, {}, f1) == Answer(v1, s1);
    var f2: nat, s2 :| LookupDecl(w, id, steps, {}, f2) == Answer(v2, s2);
    if f1 <= f2 { MoreFuelDecl(w, id, steps, {}, f1, f2); } else { MoreFuelDecl(w, id, steps, {}, f2, f1); }
  }

  // ---------------------------------------------------------------------
  // Termination where indexed accesses are bounded
  // ---------------------------------------------------------------------

  /** How many steps a walk may still gain once it enters each declaration. */
  type Room = map<DeclId, nat>

  /** Below the node every declaration is entered with its room to spare, when
      `spare` steps are to spare at the node: a member or an element takes a
      step off the path, an indexed access puts one on it. */
  ghost predicate NodeFits(w: World, room: Room, file: string, node: TypeNode, spare: int) {
    match node
    case Literal(members, _) => MembersFit(w, room, file, members, spare + 1)
    case Parenthesized(inner) => NodeFits(w, room, file, inner, spare)
    case Intersection(parts) => forall i | 0 <= i < |parts| :: NodeFits(w, room, file, parts[i], spare)
    case Union(parts) => forall i | 0 <= i < |parts| :: NodeFits(w, room, file, parts[i], spare)
    case ArrayOf(element) => NodeFits(w, room, file, element, spare + 1)
    case Operator(_, inner) => NodeFits(w, room, file, inner, spare)
    case IndexedAccess(target, index) => index.Some? ==> NodeFits(w, room, file, target, spare - 1)
    case Reference(head, qualified, args) =>
      if head in PASSTHROUGH_WRAPPERS && args != [] then NodeFits(w, room, file, args[0], spare)
      else if head in ARRAY_TYPES && args != [] then NodeFits(w, room, file, args[0], spare + 1)
      else !qualified ==> NameFits(w, room, file, head, spare)
    case Unseeable => true
  }

  ghost predicate MembersFit(w: World, room: Room, file: string, members: seq<Property>, spare: int) {
    forall i | 0 <= i < |members| :: members[i].ty.Some? ==> NodeFits(w, room, file, members[i].ty.value, spare)
  }

  ghost predicate NameFits(w: World, room: Room, file: string, name: string, spare: int) {
    var id := Resolve(w, file, name);
    id.Some? && !w.decls[id.value].Enum? ==> id.value in room && room[id.value] <= spare
  }

  ghost predicate DeclFits(w: World, room: Room, id: DeclId)
    requires id in w.decls && id in room
  {
    match w.decls[id]
    case Interface(members, bases, _) =>
      && MembersFit(w, room, id.file, members, room[id] + 1)
      && forall base | base in bases :: base.Some? ==> NameFits(w, room, id.file, base.value, room[id])
    case Alias(body) => NodeFits(w, room, id.file, body, room[id])
    case Enum => true
  }

  /** The declarations with room lead only to each other, and round no circle
      of them does a path get longer. */
  ghost predicate HasRoom(w: World, room: Room) {
    room.Keys <= w.decls.Keys && forall id :: id in room ==> DeclFits(w, room, id)
  }

  function Max(a: nat, b: nat): nat {
    if a < b then b else a
  }

  function MembersHeight(members: seq<Property>): nat {
    if members == [] then 0
    else Max(if members[0].ty.None? then 0 else Height(members[0].ty.value), MembersHeight(members[1..]))
  }

  function PartsHeight(parts: seq<TypeNode>): nat {
    if parts == [] then 0 else Max(Height(parts[0]), PartsHeight(parts[1..]))
  }

  function Height(node: TypeNode): nat {
    1 + match node
        case Literal(members, _) => MembersHeight(members)
        case Parenthesized(inner) => Height(inner)
        case Intersection(parts) => PartsHeight(parts)
        case Union(parts) => PartsHeight(parts)
        case ArrayOf(element) => Height(element)
        case Operator(_, inner) => Height(inner)
        case IndexedAccess(target, _) => Height(target)
        case Reference(_, _, args) => PartsHeight(args)
        case Unseeable => 0
  }

  function DeclHeight(d: Declaration): nat {
    match d
    case Interface(members, _, _) => MembersHeight(members)
    case Alias(body) => Height(body)
    case Enum => 0
  }

  lemma {:induction false} MemberFits(w: World, room: Room, file: string, members: seq<Property>, name: string, spare: int)
    requires MembersFit(w, room, file, members, spare)
    ensures var m := FindMember(members, name);
      m.Some? && m.value.ty.Some? ==>
        Height(m.value.ty.value) <= MembersHeight(members) && NodeFits(w, room, file, m.value.ty.value, spare)
    decreases |members|
  {
    if members != [] {
      if members[0].name == name {
        assert members[0].ty.Some? ==> NodeFits(w, room, file, members[0].ty.value, spare);
      } else {
        MemberFits(w, room, file, members[1..], name, spare);
      }
    }
  }

  /** The keys a walk of at most `len` steps can enter. */
  function Keys(room: Room, len: nat): set<Key> {
    set id, n | id in room && 0 <= n <= len :: (id, n)
  }

  ghost predicate Ready(w: World, room: Room, height: nat) {
    HasRoom(w, room) && forall id :: id in room ==> DeclHeight(w.decls[id]) <= height
  }

  /** Fuel that suffices to enter so many declarations of a given height. */
  ghost function Cost(keys: nat, height: nat): nat {
    if keys == 0 then 0 else Cost(keys - 1, height) + height + 2
  }

  /** Fuel that suffices below a node of height `h` when `keys` are unentered. */
  ghost function Budget(keys: nat, height: nat, h: nat): nat {
    h + Cost(keys, height) + 1
  }

  lemma {:induction false} BudgetSpent(fewer: nat, keys: nat, height: nat)
    requires fewer <= keys
    ensures Cost(fewer, height) <= Cost(keys, height)
    ensures fewer < keys ==> Cost(fewer, height) + height + 2 <= Cost(keys, height)
    decreases keys
  {
    if fewer < keys { BudgetSpent(fewer, keys - 1, height); }
  }

  lemma FewerLeft(all: set<Key>, seen: set<Key>, seen': set<Key>)
    requires seen <= seen'
    ensures |all - seen'| <= |all - seen|
    ensures forall k :: k in all && k !in seen && k in seen' ==> |all - seen'| < |all - seen|
  {
    CardinalMonotone(all - seen', all - seen);
    forall k | k in all && k !in seen && k in seen'
      ensures |all - seen'| < |all - seen|
    {
      CardinalMonotone(all - seen', (all - seen) - {k});
    }
  }

  lemma {:induction false} BudgetLeft(all: set<Key>, seen: set<Key>, seen': set<Key>, height: nat, h: nat)
    requires seen <= seen'
    ensures Budget(|all - seen'|, height, h) <= Budget(|all - seen|, height, h)
  {
    FewerLeft(all, seen, seen');
    BudgetSpent(|all - seen'|, |all - seen|, height);
  }

  lemma {:induction false} CardinalMonotone(a: set<Key>, b: set<Key>)
    requires a <= b
    ensures |a| <= |b|
  {
    if a != {} {
      var k :| k in a;
      CardinalMonotone(a - {k}, b - {k});
    }
  }

  /** Entering a declaration pays for the height of what it declares. */
  lemma EnteringPays(room: Room, key: Key, seen: set<Key>, fuel: nat, len: nat, height: nat)
    requires key.0 in room && key.1 <= len && key !in seen
    requires fuel >= Budget(|Keys(room, len) - seen|, height, 0)
    ensures fuel >= 1 && fuel - 1 >= Budget(|Keys(room, len) - (seen + {key})|, height, height)
  {
    assert key in Keys(room, len);
    FewerLeft(Keys(room, len), seen, seen + {key});
    BudgetSpent(|Keys(room, len) - (seen + {key})|, |Keys(room, len) - seen|, height);
  }

  lemma {:induction false} EndsDecl(w: World, room: Room, id: DeclId, steps: seq<Step>, seen: set<Key>, fuel: nat, len: nat, height: nat)
    requires Ready(w, room, height) && id in w.decls
    requires w.decls[id].Enum? || (id in room && |steps| + room[id] <= len)
    requires fuel >= Budget(|Keys(room, len) - seen|, height, 0)
    ensures var o := LookupDecl(w, id, steps, seen, fuel); o.Answer? && seen <= o.seen
    decreases fuel, 0, 1
  {
    if steps != [] && (id, |steps|) !in seen && !w.decls[id].Enum? {
      EnteringPays(room, (id, |steps|), seen, fuel, len, height);
      assert DeclFits(w, room, id);
      match w.decls[id]
      case Enum =>
      case Alias(body) =>
        EndsType(w, room, id.file, body, steps, seen + {(id, |steps|)}, fuel - 1, len, height, room[id]);
      case Interface(_, _, _) => EndsInterface(w, room, id, steps, seen, fuel, len, height);
    }
  }

  lemma {:induction false} EndsInterface(w: World, room: Room, id: DeclId, steps: seq<Step>, seen: set<Key>, fuel: nat, len: nat, height: nat)
    requires Ready(w, room, height) && id in room && w.decls[id].Interface? && steps != [] && |steps| + room[id] <= len
    requires (id, |steps|) !in seen
    requires fuel >= 1 && fuel - 1 >= Budget(|Keys(room, len) - (seen + {(id, |steps|)})|, height, height)
    ensures var o := LookupDecl(w, id, steps, seen, fuel); o.Answer? && seen <= o.seen
    decreases fuel, 0, 0
  {
    assert DeclFits(w, room, id);
    if steps[0].Member? {
      var seen' := seen + {(id, |steps|)};
      var members := w.decls[id].members;
      var member := FindMember(members, steps[0].name);
      MemberFits(w, room, id.file, members, steps[0].name, room[id] + 1);
      if member.None? {
        EndsBases(w, room, id.file, w.decls[id].bases, steps, seen', fuel - 1, len, height, room[id]);
      } else if |steps| > 1 && member.value.ty.Some? {
        EndsType(w, room, id.file, member.value.ty.value, steps[1..], seen', fuel - 1, len, height, room[id] + 1);
      }
    }
  }

  lemma {:induction false} EndsName(
    w: World, room: Room, file: string, name: string, steps: seq<Step>, seen: set<Key>,
    fuel: nat, len: nat, height: nat, spare: int)
    requires Ready(w, room, height) && |steps| + spare <= len
    requires Resolve(w, file, name).Some? && NameFits(w, room, file, name, spare)
    requires fuel >= Budget(|Keys(room, len) - seen|, height, 0)
    ensures var o := LookupDecl(w, Resolve(w, file, name).value, steps, seen, fuel); o.Answer? && seen <= o.seen
    decreases fuel, 0, 2
  {
    EndsDecl(w, room, Resolve(w, file, name).value, steps, seen, fuel, len, height);
  }

  lemma {:induction false} EndsBases(
    w: World, room: Room, file: string, bases: seq<Option<string>>, steps: seq<Step>, seen: set<Key>,
    fuel: nat, len: nat, height: nat, spare: int)
    requires Ready(w, room, height) && |steps| + spare <= len
    requires forall base :: base in bases && base.Some? ==> NameFits(w, room, file, base.value, spare)
    requires fuel >= Budget(|Keys(room, len) - seen|, height, 0)
    ensures var o := LookupBases(w, file, bases, steps, seen, fuel); o.Answers? && seen <= o.seen
    decreases fuel, 1, |bases|
  {
    if bases != [] {
      var id := if bases[0].None? then None else Resolve(w, file, bases[0].value);
      if id.Some? {
        EndsName(w, room, file, bases[0].value, steps, seen, fuel, len, height, spare);
        var next := LookupDecl(w, id.value, steps, seen, fuel).seen;
        BudgetLeft(Keys(room, len), seen, next, height, 0);
        EndsBases(w, room, file, bases[1..], steps, next, fuel, len, height, spare);
      } else {
        EndsBases(w, room, file, bases[1..], steps, seen, fuel, len, height, spare);
      }
    }
  }

  lemma {:induction false} EndsType(
    w: World, room: Room, file: string, node: TypeNode, steps: seq<Step>, seen: set<Key>,
    fuel: nat, len: nat, height: nat, spare: int)
    requires Ready(w, room, height) && NodeFits(w, room, file, node, spare) && |steps| + spare <= len
    requires fuel >= Budget(|Keys(room, len) - seen|, height, Height(node))
    ensures var o := LookupType(w, file, node, steps, seen, fuel); o.Answer? && seen <= o.seen
    decreases fuel, 0, 1
  {
    if steps != [] {
      match node
      case Literal(_, _) => EndsLiteral(w, room, file, node, steps, seen, fuel, len, height, spare);
      case Parenthesized(inner) => EndsType(w, room, file, inner, steps, seen, fuel - 1, len, height, spare);
      case Intersection(_) => EndsCompound(w, room, file, node, steps, seen, fuel, len, height, spare);
      case Union(_) => EndsCompound(w, room, file, node, steps, seen, fuel, len, height, spare);
      case ArrayOf(_) => EndsShifted(w, room, file, node, steps, seen, fuel, len, height, spare);
      case Operator(_, inner) => EndsType(w, room, file, inner, steps, seen, fuel - 1, len, height, spare);
      case IndexedAccess(_, _) => EndsShifted(w, room, file, node, steps, seen, fuel, len, height, spare);
      case Reference(_, _, _) => EndsReference(w, room, file, node, steps, seen, fuel, len, height, spare);
      case Unseeable =>
    }
  }

  lemma {:induction false} EndsCompound(
    w: World, room: Room, file: string, node: TypeNode, steps: seq<Step>, seen: set<Key>,
    fuel: nat, len: nat, height: nat, spare: int)
    requires (node.Intersection? || node.Union?) && steps != []
    requires Ready(w, room, height) && NodeFits(w, room, file, node, spare) && |steps| + spare <= len
    requires fuel >= Budget(|Keys(room, len) - seen|, height, Height(node))
    ensures var o := LookupType(w, file, node, steps, seen, fuel); o.Answer? && seen <= o.seen
    decreases fuel, 0, 0
  {
    EndsParts(w, room, file, node.parts, steps, seen, fuel - 1, len, height, spare);
  }

  lemma {:induction false} EndsShifted(
    w: World, room: Room, file: string, node: TypeNode, steps: seq<Step>, seen: set<Key>,
    fuel: nat, len: nat, height: nat, spare: int)
    requires (node.ArrayOf? || node.IndexedAccess?) && steps != []
    requires Ready(w, room, height) && NodeFits(w, room, file, node, spare) && |steps| + spare <= len
    requires fuel >= Budget(|Keys(room, len) - seen|, height, Height(node))
    ensures var o := LookupType(w, file, node, steps, seen, fuel); o.Answer? && seen <= o.seen
    decreases fuel, 0, 0
  {
    if node.IndexedAccess? && node.index.Some? {
      var longer := [Member(node.index.value)] + steps;
      EndsType(w, room, file, node.target, longer, seen, fuel - 1, len, height, spare - 1);
    } else if node.ArrayOf? && steps[0].Element? {
      EndsType(w, room, file, node.element, steps[1..], seen, fuel - 1, len, height, spare + 1);
    }
  }

  lemma {:induction false} EndsLiteral(
    w: World, room: Room, file: string, node: TypeNode, steps: seq<Step>, seen: set<Key>,
    fuel: nat, len: nat, height: nat, spare: int)
    requires node.Literal? && steps != []
    requires Ready(w, room, height) && NodeFits(w, room, file, node, spare) && |steps| + spare <= len
    requires fuel >= Budget(|Keys(room, len) - seen|, height, Height(node))
    ensures var o := LookupType(w, file, node, steps, seen, fuel); o.Answer? && seen <= o.seen
    decreases fuel, 0, 0
  {
    if steps[0].Member? {
      var members := node.members;
      MemberFits(w, room, file, members, steps[0].name, spare + 1);
      var member := FindMember(members, steps[0].name);
      if member.Some? && |steps| > 1 && member.value.ty.Some? {
        EndsType(w, room, file, member.value.ty.value, steps[1..], seen, fuel - 1, len, height, spare + 1);
      }
    }
  }

  lemma {:induction false} EndsReference(
    w: World, room: Room, file: string, node: TypeNode, steps: seq<Step>, seen: set<Key>,
    fuel: nat, len: nat, height: nat, spare: int)
    requires node.Reference? && steps != []
    requires Ready(w, room, height) && NodeFits(w, room, file, node, spare) && |steps| + spare <= len
    requires fuel >= Budget(|Keys(room, len) - seen|, height, Height(node))
    ensures var o := LookupType(w, file, node, steps, seen, fuel); o.Answer? && seen <= o.seen
    decreases fuel, 0, 0
  {
    var head, args := node.head, node.args;
    if head in PASSTHROUGH_WRAPPERS && args != [] {
      EndsType(w, room, file, args[0], steps, seen, fuel - 1, len, height, spare);
    } else if head in ARRAY_TYPES && args != [] {
      if steps[0].Element? { EndsType(w, room, file, args[0], steps[1..], seen, fuel - 1, len, height, spare + 1); }
    } else if !node.qualified && Resolve(w, file, head).Some? {
      EndsName(w, room, file, head, steps, seen, fuel - 1, len, height, spare);
    }
  }

  lemma {:induction false} EndsParts(
    w: World, room: Room, file: string, parts: seq<TypeNode>, steps: seq<Step>, seen: set<Key>,
    fuel: nat, len: nat, height: nat, spare: int)
    requires Ready(w, room, height) && |steps| + spare <= len
    requires forall i :: 0 <= i < |parts| ==> NodeFits(w, room, file, parts[i], spare)
    requires fuel >= Budget(|Keys(room, len) - seen|, height, PartsHeight(parts))
    ensures var o := LookupParts(w, file, parts, steps, seen, fuel); o.Answers? && seen <= o.seen
    decreases fuel, 1, |parts|
  {
    if parts != [] {
      EndsType(w, room, file, parts[0], steps, seen, fuel, len, height, spare);
      var first := LookupType(w, file, parts[0], steps, seen, fuel);
      BudgetLeft(Keys(room, len), seen, first.seen, height, PartsHeight(parts[1..]));
      EndsParts(w, room, file, parts[1..], steps, first.seen, fuel, len, height, spare);
    }
  }

  lemma {:induction false} HeightBound(w: World, ids: set<DeclId>) returns (height: nat)
    requires ids <= w.decls.Keys
    ensures forall id :: id in ids ==> DeclHeight(w.decls[id]) <= height
  {
    height := 0;
    if ids != {} {
      var id :| id in ids;
      var rest := HeightBound(w, ids - {id});
      height := Max(DeclHeight(w.decls[id]), rest);
    }
  }

  /** Where no circle of the declarations a lookup can come to makes its path
      longer, the lookup has exactly one answer. */
  lemma BoundedLookupsEnd(w: World, room: Room, id: DeclId, steps: seq<Step>) returns (verdict: Verdict)
    requires HasRoom(w, room) && id in room
    ensures Answered(w, id, steps, verdict)
    ensures forall v :: Answered(w, id, steps, v) ==> v == verdict
  {
    var height := HeightBound(w, room.Keys);
    var len := |steps| + room[id];
    var fuel := Budget(|Keys(room, len) - {}|, height, 0);
    EndsDecl(w, room, id, steps, {}, fuel, len, height);
    verdict := LookupDecl(w, id, steps, {}, fuel).verdict;
    assert Answered(w, id, steps, verdict);
    forall v | Answered(w, id, steps, v)
      ensures v == verdict
    {
      AnswerUnique(w, id, steps, v, verdict);
    }
  }

  // ---------------------------------------------------------------------
  // No indexed access at all
  // ---------------------------------------------------------------------

  predicate PlainMembers(members: seq<Property>) {
    forall i | 0 <= i < |members| :: members[i].ty.Some? ==> Plain(members[i].ty.value)
  }

  /** No indexed access anywhere inside. */
  predicate Plain(node: TypeNode) {
    match node
    case Literal(members, _) => PlainMembers(members)
    case Parenthesized(inner) => Plain(inner)
    case Intersection(parts) => forall i | 0 <= i < |parts| :: Plain(parts[i])
    case Union(parts) => forall i | 0 <= i < |parts| :: Plain(parts[i])
    case ArrayOf(element) => Plain(element)
    case Operator(_, inner) => Plain(inner)
    case IndexedAccess(_, _) => false
    case Reference(_, _, args) => forall i | 0 <= i < |args| :: Plain(args[i])
    case Unseeable => true
  }

  predicate PlainDecl(d: Declaration) {
    match d
    case Interface(members, _, _) => PlainMembers(members)
    case Alias(body) => Plain(body)
    case Enum => true
  }

  function NoRoom(w: World): Room {
    map id | id in w.decls :: 0
  }

  lemma {:induction false} PlainFits(w: World, file: string, node: TypeNode, spare: nat)
    requires Plain(node)
    ensures NodeFits(w, NoRoom(w), file, node, spare)
    decreases node
  {
    match node
    case Literal(members, _) =>
      forall i | 0 <= i < |members| && members[i].ty.Some?
        ensures NodeFits(w, NoRoom(w), file, members[i].ty.value, spare + 1)
      {
        PlainFits(w, file, members[i].ty.value, spare + 1);
      }
    case Parenthesized(inner) => PlainFits(w, file, inner, spare);
    case Intersection(parts) =>
      forall i | 0 <= i < |parts|
        ensures NodeFits(w, NoRoom(w), file, parts[i], spare)
      {
        PlainFits(w, file, parts[i], spare);
      }
    case Union(parts) =>
      forall i | 0 <= i < |parts|
        ensures NodeFits(w, NoRoom(w), file, parts[i], spare)
      {
        PlainFits(w, file, parts[i], spare);
      }
    case ArrayOf(element) => PlainFits(w, file, element, spare + 1);
    case Operator(_, inner) => PlainFits(w, file, inner, spare);
    case Reference(_, _, args) =>
      if args != [] {
        PlainFits(w, file, args[0], spare);
        PlainFits(w, file, args[0], spare + 1);
      }
    case Unseeable =>
  }

  /** Without indexed access every lookup has exactly one answer, however the
      declarations refer to each other. */
  lemma PlainLookupsEnd(w: World, id: DeclId, steps: seq<Step>) returns (verdict: Verdict)
    requires id in w.decls && forall d :: d in w.decls ==> PlainDecl(w.decls[d])
    ensures Answered(w, id, steps, verdict)
    ensures forall v :: Answered(w, id, steps, v) ==> v == verdict
  {
    forall d | d in w.decls
      ensures DeclFits(w, NoRoom(w), d)
    {
      PlainDeclFits(w, d);
    }
    verdict := BoundedLookupsEnd(w, NoRoom(w), id, steps);
  }

  lemma PlainDeclFits(w: World, d: DeclId)
    requires d in w.decls && PlainDecl(w.decls[d])
    ensures DeclFits(w, NoRoom(w), d)
  {
    match w.decls[d]
    case Enum =>
    case Alias(body) => PlainFits(w, d.file, body, 0);
    case Interface(members, _, _) =>
      forall i | 0 <= i < |members| && members[i].ty.Some?
        ensures NodeFits(w, NoRoom(w), d.file, members[i].ty.value, 1)
      {
        PlainFits(w, d.file, members[i].ty.value, 1);
      }
  }

  const A := DeclId("a.ts", 0)
  const I := DeclId("a.ts", 1)

  /** `type A = I['x']  interface I { x }` */
  const INDEXED_ONCE := World(
    map[A := Alias(IndexedAccess(Reference("I", false, []), Some("x"))), I := Interface([Property("x", None)], [], [])],
    map[("a.ts", "I") := I])

  /** An indexed access that no circle comes back to does no harm. */
  lemma IndexedOnceEnds(steps: seq<Step>) returns (verdict: Verdict)
    ensures Answered(INDEXED_ONCE, A, steps, verdict)
  {
    var room := map[A := 1, I := 0];
    assert NodeFits(INDEXED_ONCE, room, "a.ts", Reference("I", false, []), 0);
    verdict := BoundedLookupsEnd(INDEXED_ONCE, room, A, steps);
  }
}
