/** The walk is right wherever it commits itself: `found` paths are present and
    `missing` paths are absent, for every reading of the unseen places. */
module PathSoundness {
  import opened Wrappers
  import opened PathLookup

  // ---------------------------------------------------------------------
  // What the walk passes over
  // ---------------------------------------------------------------------

  /** Down to this depth the lookup comes to no operator but `readonly` and,
      strictly, misses no property where another member may stand for it. */
  ghost predicate ClearDecl(w: World, strictly: bool, id: DeclId, steps: seq<Step>, depth: nat)
    requires id in w.decls
    decreases depth, 0, 0
  {
    || steps == [] || depth == 0
    || match w.decls[id]
       case Enum => true
       case Alias(body) => ClearType(w, strictly, id.file, body, steps, depth - 1)
       case Interface(members, bases, others) =>
         steps[0].Member? ==>
           var member := FindMember(members, steps[0].name);
           if member.Some? then ClearMember(w, strictly, id.file, member.value, steps[1..], depth - 1)
           else (strictly ==> !Declares(others, steps[0].name)) && ClearBases(w, strictly, id.file, bases, steps, depth - 1)
  }

  ghost predicate ClearMember(w: World, strictly: bool, file: string, member: Property, rest: seq<Step>, depth: nat)
    decreases depth, 1, 0
  {
    rest != [] && member.ty.Some? ==> ClearType(w, strictly, file, member.ty.value, rest, depth)
  }

  ghost predicate ClearBases(w: World, strictly: bool, file: string, bases: seq<Option<string>>, steps: seq<Step>, depth: nat)
    decreases depth, 1, |bases|
  {
    bases != [] ==>
      var id := if bases[0].None? then None else Resolve(w, file, bases[0].value);
      (id.Some? ==> ClearDecl(w, strictly, id.value, steps, depth)) && ClearBases(w, strictly, file, bases[1..], steps, depth)
  }

  ghost predicate ClearType(w: World, strictly: bool, file: string, node: TypeNode, steps: seq<Step>, depth: nat)
    decreases depth, 0, 0
  {
    || steps == [] || depth == 0
    || match node
       case Literal(members, others) =>
         steps[0].Member? ==>
           var member := FindMember(members, steps[0].name);
           if member.Some? then ClearMember(w, strictly, file, member.value, steps[1..], depth - 1)
           else strictly ==> !Declares(others, steps[0].name)
       case Parenthesized(inner) => ClearType(w, strictly, file, inner, steps, depth - 1)
       case Intersection(parts) => ClearParts(w, strictly, file, parts, steps, depth - 1)
       case Union(parts) => ClearParts(w, strictly, file, parts, steps, depth - 1)
       case ArrayOf(element) => steps[0].Element? ==> ClearType(w, strictly, file, element, steps[1..], depth - 1)
       case Operator(readonly, inner) => readonly && ClearType(w, strictly, file, inner, steps, depth - 1)
       case IndexedAccess(target, index) =>
         index.Some? ==> ClearType(w, strictly, file, target, [Member(index.value)] + steps, depth - 1)
       case Reference(head, qualified, args) =>
         if head in PASSTHROUGH_WRAPPERS && args != [] then ClearType(w, strictly, file, args[0], steps, depth - 1)
         else if head in ARRAY_TYPES && args != [] then
           steps[0].Element? ==> ClearType(w, strictly, file, args[0], steps[1..], depth - 1)
         else !qualified && Resolve(w, file, head).Some? ==>
           ClearDecl(w, strictly, Resolve(w, file, head).value, steps, depth - 1)
       case Unseeable => true
  }

  ghost predicate ClearParts(w: World, strictly: bool, file: string, parts: seq<TypeNode>, steps: seq<Step>, depth: nat)
    decreases depth, 1, |parts|
  {
    parts != [] ==> ClearType(w, strictly, file, parts[0], steps, depth) && ClearParts(w, strictly, file, parts[1..], steps, depth)
  }

  /** The lookup passes through no operator but `readonly`. */
  ghost predicate IsSeenThrough(w: World, id: DeclId, steps: seq<Step>)
    requires id in w.decls
  {
    forall depth: nat :: ClearDecl(w, false, id, steps, depth)
  }

  /** It also passes over no member that may stand for a property. */
  ghost predicate IsClear(w: World, id: DeclId, steps: seq<Step>)
    requires id in w.decls
  {
    forall depth: nat :: ClearDecl(w, true, id, steps, depth)
  }

  // ---------------------------------------------------------------------
  // Found means present, by a derivation no deeper than the fuel
  // ---------------------------------------------------------------------

  lemma {:induction false} FoundDecl(w: World, r: Reading, id: DeclId, steps: seq<Step>, seen: set<Key>, fuel: nat)
    requires id in w.decls
    requires var o := LookupDecl(w, id, steps, seen, fuel); o.Answer? && o.verdict == Found
    requires ClearDecl(w, false, id, steps, fuel)
    ensures InDecl(w, r, id, steps, fuel)
    decreases fuel, 0, 0
  {
    if steps != [] {
      var seen' := seen + {(id, |steps|)};
      match w.decls[id]
      case Enum =>
      case Alias(body) => FoundType(w, r, id.file, body, steps, seen', fuel - 1);
      case Interface(members, bases, _) =>
        var member := FindMember(members, steps[0].name);
        if member.Some? { FoundMember(w, r, id.file, member.value, steps[1..], seen', fuel - 1); }
        else { FoundBases(w, r, id.file, bases, steps, seen', fuel - 1); }
    }
  }

  lemma {:induction false} FoundMember(w: World, r: Reading, file: string, member: Property, rest: seq<Step>, seen: set<Key>, fuel: nat)
    requires var o := LookupMember(w, file, member, rest, seen, fuel); o.Answer? && o.verdict == Found
    requires ClearMember(w, false, file, member, rest, fuel)
    ensures InMember(w, r, file, member, rest, fuel)
    decreases fuel, 1, 0
  {
    if rest != [] { FoundType(w, r, file, member.ty.value, rest, seen, fuel); }
  }

  lemma {:induction false} FoundBases(w: World, r: Reading, file: string, bases: seq<Option<string>>, steps: seq<Step>, seen: set<Key>, fuel: nat)
    requires var o := LookupBases(w, file, bases, steps, seen, fuel); o.Answers? && Found in o.verdicts
    requires ClearBases(w, false, file, bases, steps, fuel)
    ensures InBases(w, r, file, bases, steps, fuel)
    decreases fuel, 1, |bases|
  {
    var id := if bases[0].None? then None else Resolve(w, file, bases[0].value);
    var first := if id.None? then Answer(Unknown, seen) else LookupDecl(w, id.value, steps, seen, fuel);
    if first.verdict == Found { FoundDecl(w, r, id.value, steps, seen, fuel); }
    else { FoundBases(w, r, file, bases[1..], steps, first.seen, fuel); }
  }

  lemma {:induction false} FoundType(w: World, r: Reading, file: string, node: TypeNode, steps: seq<Step>, seen: set<Key>, fuel: nat)
    requires var o := LookupType(w, file, node, steps, seen, fuel); o.Answer? && o.verdict == Found
    requires ClearType(w, false, file, node, steps, fuel)
    ensures InType(w, r, file, node, steps, fuel)
    decreases fuel, 0, 0
  {
    if steps != [] {
      match node
      case Literal(members, _) =>
        FoundMember(w, r, file, FindMember(members, steps[0].name).value, steps[1..], seen, fuel - 1);
      case Parenthesized(inner) => FoundType(w, r, file, inner, steps, seen, fuel - 1);
      case Intersection(parts) => FoundSome(w, r, file, parts, steps, seen, fuel - 1);
      case Union(parts) =>
        FoundEvery(w, r, file, parts, steps, seen, fuel - 1);
        if parts != [] { assert InSome(w, r, file, parts, steps, fuel - 1); }
      case ArrayOf(element) => FoundType(w, r, file, element, steps[1..], seen, fuel - 1);
      case Operator(_, inner) => FoundType(w, r, file, inner, steps, seen, fuel - 1);
      case IndexedAccess(target, index) =>
        FoundType(w, r, file, target, [Member(index.value)] + steps, seen, fuel - 1);
      case Reference(head, qualified, args) =>
        if head in PASSTHROUGH_WRAPPERS && args != [] { FoundType(w, r, file, args[0], steps, seen, fuel - 1); }
        else if head in ARRAY_TYPES && args != [] { FoundType(w, r, file, args[0], steps[1..], seen, fuel - 1); }
        else { FoundDecl(w, r, Resolve(w, file, head).value, steps, seen, fuel - 1); }
      case Unseeable =>
    }
  }

  lemma {:induction false} FoundSome(w: World, r: Reading, file: string, parts: seq<TypeNode>, steps: seq<Step>, seen: set<Key>, fuel: nat)
    requires var o := LookupParts(w, file, parts, steps, seen, fuel); o.Answers? && Found in o.verdicts
    requires ClearParts(w, false, file, parts, steps, fuel)
    ensures InSome(w, r, file, parts, steps, fuel)
    decreases fuel, 1, |parts|
  {
    var first := LookupType(w, file, parts[0], steps, seen, fuel);
    if first.verdict == Found { FoundType(w, r, file, parts[0], steps, seen, fuel); }
    else { FoundSome(w, r, file, parts[1..], steps, first.seen, fuel); }
  }

  lemma {:induction false} FoundEvery(w: World, r: Reading, file: string, parts: seq<TypeNode>, steps: seq<Step>, seen: set<Key>, fuel: nat)
    requires var o := LookupParts(w, file, parts, steps, seen, fuel); o.Answers? && Unanimous(o.verdicts) == Found
    requires ClearParts(w, false, file, parts, steps, fuel)
    ensures InEvery(w, r, file, parts, steps, fuel)
    decreases fuel, 1, |parts|
  {
    if parts != [] {
      var first := LookupType(w, file, parts[0], steps, seen, fuel);
      var o := LookupParts(w, file, parts, steps, seen, fuel);
      var tail := LookupParts(w, file, parts[1..], steps, first.seen, fuel);
      assert first.verdict == o.verdicts[0] && first.verdict in o.verdicts && forall v :: v in tail.verdicts ==> v in o.verdicts;
      FoundType(w, r, file, parts[0], steps, seen, fuel);
      FoundEvery(w, r, file, parts[1..], steps, first.seen, fuel);
    }
  }

  // ---------------------------------------------------------------------
  // Missing means absent, at every derivation depth
  // ---------------------------------------------------------------------

  lemma {:induction false} MissingDecl(w: World, r: Reading, id: DeclId, steps: seq<Step>, seen: set<Key>, fuel: nat, d: nat)
    requires id in w.decls
    requires var o := LookupDecl(w, id, steps, seen, fuel); o.Answer? && o.verdict == Missing
    requires ClearDecl(w, true, id, steps, d)
    ensures !InDecl(w, r, id, steps, d)
    decreases fuel, 0, 0
  {
    if d > 0 {
      var seen' := seen + {(id, |steps|)};
      match w.decls[id]
      case Enum =>
      case Alias(body) => MissingType(w, r, id.file, body, steps, seen', fuel - 1, d - 1);
      case Interface(members, bases, _) =>
        var member := FindMember(members, steps[0].name);
        if member.Some? { MissingMember(w, r, id.file, member.value, steps[1..], seen', fuel - 1, d - 1); }
        else { MissingBases(w, r, id.file, bases, steps, seen', fuel - 1, d - 1); }
    }
  }

  lemma {:induction false} MissingMember(w: World, r: Reading, file: string, member: Property, rest: seq<Step>, seen: set<Key>, fuel: nat, d: nat)
    requires var o := LookupMember(w, file, member, rest, seen, fuel); o.Answer? && o.verdict == Missing
    requires ClearMember(w, true, file, member, rest, d)
    ensures !InMember(w, r, file, member, rest, d)
    decreases fuel, 1, 0
  {
    MissingType(w, r, file, member.ty.value, rest, seen, fuel, d);
  }

  lemma {:induction false} MissingBases(w: World, r: Reading, file: string, bases: seq<Option<string>>, steps: seq<Step>, seen: set<Key>, fuel: nat, d: nat)
    requires var o := LookupBases(w, file, bases, steps, seen, fuel); o.Answers? && Combine(o.verdicts) == Missing
    requires ClearBases(w, true, file, bases, steps, d)
    ensures !InBases(w, r, file, bases, steps, d)
    decreases fuel, 1, |bases|
  {
    if bases != [] {
      var id := if bases[0].None? then None else Resolve(w, file, bases[0].value);
      var first := if id.None? then Answer(Unknown, seen) else LookupDecl(w, id.value, steps, seen, fuel);
      var o := LookupBases(w, file, bases, steps, seen, fuel);
      var tail := LookupBases(w, file, bases[1..], steps, first.seen, fuel);
      assert first.verdict == o.verdicts[0] && first.verdict in o.verdicts && forall v :: v in tail.verdicts ==> v in o.verdicts;
      MissingDecl(w, r, id.value, steps, seen, fuel, d);
      MissingBases(w, r, file, bases[1..], steps, first.seen, fuel, d);
    }
  }

  lemma {:induction false} MissingType(w: World, r: Reading, file: string, node: TypeNode, steps: seq<Step>, seen: set<Key>, fuel: nat, d: nat)
    requires var o := LookupType(w, file, node, steps, seen, fuel); o.Answer? && o.verdict == Missing
    requires ClearType(w, true, file, node, steps, d)
    ensures !InType(w, r, file, node, steps, d)
    decreases fuel, 0, 0
  {
    if d > 0 {
      match node
      case Literal(members, _) =>
        var member := FindMember(members, steps[0].name);
        if member.Some? { MissingMember(w, r, file, member.value, steps[1..], seen, fuel - 1, d - 1); }
      case Parenthesized(inner) => MissingType(w, r, file, inner, steps, seen, fuel - 1, d - 1);
      case Intersection(parts) => MissingParts(w, r, file, parts, steps, seen, fuel - 1, d - 1);
      case Union(parts) => MissingUnion(w, r, file, parts, steps, seen, fuel - 1, d - 1);
      case ArrayOf(element) => MissingType(w, r, file, element, steps[1..], seen, fuel - 1, d - 1);
      case Operator(_, inner) => MissingType(w, r, file, inner, steps, seen, fuel - 1, d - 1);
      case IndexedAccess(target, index) =>
        MissingType(w, r, file, target, [Member(index.value)] + steps, seen, fuel - 1, d - 1);
      case Reference(head, qualified, args) =>
        if head in PASSTHROUGH_WRAPPERS && args != [] { MissingType(w, r, file, args[0], steps, seen, fuel - 1, d - 1); }
        else if head in ARRAY_TYPES && args != [] { MissingType(w, r, file, args[0], steps[1..], seen, fuel - 1, d - 1); }
        else { MissingDecl(w, r, Resolve(w, file, head).value, steps, seen, fuel - 1, d - 1); }
      case Unseeable =>
    }
  }

  lemma {:induction false} MissingParts(w: World, r: Reading, file: string, parts: seq<TypeNode>, steps: seq<Step>, seen: set<Key>, fuel: nat, d: nat)
    requires var o := LookupParts(w, file, parts, steps, seen, fuel); o.Answers? && forall v :: v in o.verdicts ==> v == Missing
    requires ClearParts(w, true, file, parts, steps, d)
    ensures !InSome(w, r, file, parts, steps, d)
    decreases fuel, 1, |parts|
  {
    if parts != [] {
      var first := LookupType(w, file, parts[0], steps, seen, fuel);
      var o := LookupParts(w, file, parts, steps, seen, fuel);
      var tail := LookupParts(w, file, parts[1..], steps, first.seen, fuel);
      assert first.verdict == o.verdicts[0] && first.verdict in o.verdicts && forall v :: v in tail.verdicts ==> v in o.verdicts;
      MissingType(w, r, file, parts[0], steps, seen, fuel, d);
      MissingParts(w, r, file, parts[1..], steps, first.seen, fuel, d);
    }
  }

  lemma {:induction false} MissingUnion(w: World, r: Reading, file: string, parts: seq<TypeNode>, steps: seq<Step>, seen: set<Key>, fuel: nat, d: nat)
    requires var o := LookupParts(w, file, parts, steps, seen, fuel); o.Answers? && Unanimous(o.verdicts) == Missing
    requires ClearParts(w, true, file, parts, steps, d)
    ensures parts != [] && !InSome(w, r, file, parts, steps, d) && !InEvery(w, r, file, parts, steps, d)
    decreases fuel, 2, 0
  {
    MissingParts(w, r, file, parts, steps, seen, fuel, d);
  }

  /** The verdicts `found` and `missing` can be relied on, whatever the places
      that cannot be seen hold and whichever way unions are read, where the walk
      passes through no operator and, for `missing`, over no member. */
  lemma VerdictsAreSound(w: World, r: Reading, id: DeclId, steps: seq<Step>, verdict: Verdict)
    requires id in w.decls && Answered(w, id, steps, verdict)
    ensures verdict == Found && IsSeenThrough(w, id, steps) ==> Present(w, r, id, steps)
    ensures verdict == Missing && IsClear(w, id, steps) ==> !Present(w, r, id, steps)
  {
    var fuel: nat, seen :| LookupDecl(w, id, steps, {}, fuel) == Answer(verdict, seen);
    if verdict == Found && IsSeenThrough(w, id, steps) { FoundDecl(w, r, id, steps, {}, fuel); }
    if verdict == Missing && IsClear(w, id, steps) {
      forall d: nat
        ensures !InDecl(w, r, id, steps, d)
      {
        MissingDecl(w, r, id, steps, {}, fuel, d);
      }
    }
  }

  // ---------------------------------------------------------------------
  // Exactly when missing means absent
  // ---------------------------------------------------------------------

  /** Everything unseen is present, and one branch of a union will do. */
  const MOST := Reading((spot, path) => true, false)

  /** Nothing unseen is present, and a union needs every branch. */
  const LEAST := Reading((spot, path) => false, true)

  /** What is passed over may hold the path. */
  lemma {:induction false} PassedDecl(w: World, id: DeclId, steps: seq<Step>, depth: nat)
    requires id in w.decls && !ClearDecl(w, true, id, steps, depth)
    ensures InDecl(w, MOST, id, steps, depth)
    decreases depth, 0, 0
  {
    match w.decls[id]
    case Enum =>
    case Alias(body) => PassedType(w, id.file, body, steps, depth - 1);
    case Interface(members, bases, others) =>
      var member := FindMember(members, steps[0].name);
      if member.Some? { PassedMember(w, id.file, member.value, steps[1..], depth - 1); }
      else if !Declares(others, steps[0].name) { PassedBases(w, id.file, bases, steps, depth - 1); }
  }

  lemma {:induction false} PassedMember(w: World, file: string, member: Property, rest: seq<Step>, depth: nat)
    requires !ClearMember(w, true, file, member, rest, depth)
    ensures InMember(w, MOST, file, member, rest, depth)
    decreases depth, 1, 0
  {
    PassedType(w, file, member.ty.value, rest, depth);
  }

  lemma {:induction false} PassedBases(w: World, file: string, bases: seq<Option<string>>, steps: seq<Step>, depth: nat)
    requires !ClearBases(w, true, file, bases, steps, depth)
    ensures InBases(w, MOST, file, bases, steps, depth)
    decreases depth, 1, |bases|
  {
    var id := if bases[0].None? then None else Resolve(w, file, bases[0].value);
    if id.Some? && !ClearDecl(w, true, id.value, steps, depth) { PassedDecl(w, id.value, steps, depth); }
    else { PassedBases(w, file, bases[1..], steps, depth); }
  }

  lemma {:induction false} PassedType(w: World, file: string, node: TypeNode, steps: seq<Step>, depth: nat)
    requires !ClearType(w, true, file, node, steps, depth)
    ensures InType(w, MOST, file, node, steps, depth)
    decreases depth, 0, 0
  {
    match node
    case Literal(members, others) =>
      var member := FindMember(members, steps[0].name);
      if member.Some? { PassedMember(w, file, member.value, steps[1..], depth - 1); }
    case Parenthesized(inner) => PassedType(w, file, inner, steps, depth - 1);
    case Intersection(parts) => PassedParts(w, file, parts, steps, depth - 1);
    case Union(parts) => PassedParts(w, file, parts, steps, depth - 1);
    case ArrayOf(element) => PassedType(w, file, element, steps[1..], depth - 1);
    case Operator(readonly, inner) => if readonly { PassedType(w, file, inner, steps, depth - 1); }
    case IndexedAccess(target, index) => PassedType(w, file, target, [Member(index.value)] + steps, depth - 1);
    case Reference(head, qualified, args) =>
      if head in PASSTHROUGH_WRAPPERS && args != [] { PassedType(w, file, args[0], steps, depth - 1); }
      else if head in ARRAY_TYPES && args != [] { PassedType(w, file, args[0], steps[1..], depth - 1); }
      else { PassedDecl(w, Resolve(w, file, head).value, steps, depth - 1); }
    case Unseeable =>
  }

  lemma {:induction false} PassedParts(w: World, file: string, parts: seq<TypeNode>, steps: seq<Step>, depth: nat)
    requires !ClearParts(w, true, file, parts, steps, depth)
    ensures InSome(w, MOST, file, parts, steps, depth)
    decreases depth, 1, |parts|
  {
    if !ClearType(w, true, file, parts[0], steps, depth) { PassedType(w, file, parts[0], steps, depth); }
    else { PassedParts(w, file, parts[1..], steps, depth); }
  }

  /** A path answered `missing` is absent under every reading exactly when the
      lookup passes over nothing. */
  lemma MissingIsAbsentIff(w: World, id: DeclId, steps: seq<Step>)
    requires id in w.decls && Answered(w, id, steps, Missing)
    ensures (forall r :: !Present(w, r, id, steps)) <==> IsClear(w, id, steps)
  {
    if IsClear(w, id, steps) {
      forall r
        ensures !Present(w, r, id, steps)
      {
        VerdictsAreSound(w, r, id, steps, Missing);
      }
    } else {
      var depth: nat :| !ClearDecl(w, true, id, steps, depth);
      PassedDecl(w, id, steps, depth);
      assert Present(w, MOST, id, steps);
    }
  }

  /** A path found through `keyof` need not be there. */
  lemma KeysAreNotMembers(w: World, id: DeclId, steps: seq<Step>)
    requires id in w.decls && w.decls[id].Alias? && w.decls[id].body.Operator? && !w.decls[id].body.readonly
    requires steps != []
    ensures !Present(w, LEAST, id, steps)
  {
    forall depth: nat
      ensures !InDecl(w, LEAST, id, steps, depth)
    {
      if depth > 0 { assert !InType(w, LEAST, id.file, w.decls[id].body, steps, depth - 1); }
    }
  }
}
