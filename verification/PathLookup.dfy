/** The presence check of schema key paths against declared config types:
    type declarations, what it means for a path to be present in one, and the
    three-valued walk that answers `unknown` for whatever it cannot see. */
module PathLookup {
  import opened Wrappers

  datatype Step = Member(name: string) | Element

  datatype Property = Property(name: string, ty: Option<TypeNode>)

  /** Type syntax.  `others` are the members that are no property signatures,
      such as methods, by name, an index signature without one.  An indexed access
      has an index only when that is a string literal; `head` is the leftmost name
      of a reference; `Unseeable` is any other kind of node. */
  datatype TypeNode =
    | Literal(members: seq<Property>, others: seq<Option<string>>)
    | Parenthesized(inner: TypeNode)
    | Intersection(parts: seq<TypeNode>)
    | Union(parts: seq<TypeNode>)
    | ArrayOf(element: TypeNode)
    | Operator(readonly: bool, inner: TypeNode)
    | IndexedAccess(target: TypeNode, index: Option<string>)
    | Reference(head: string, qualified: bool, args: seq<TypeNode>)
    | Unseeable

  /** A base that is not a plain identifier has no name. */
  datatype Declaration =
    | Interface(members: seq<Property>, bases: seq<Option<string>>, others: seq<Option<string>>)
    | Alias(body: TypeNode)
    | Enum

  /** A declaration is known by its file and its position there. */
  datatype DeclId = DeclId(file: string, pos: nat)

  /** `names` is where a type name used in a file leads, if it can be followed. */
  datatype World = World(decls: map<DeclId, Declaration>, names: map<(string, string), DeclId>)

  function Resolve(w: World, file: string, name: string): (id: Option<DeclId>)
    ensures id.Some? ==> id.value in w.decls
  {
    if (file, name) in w.names && w.names[(file, name)] in w.decls then Some(w.names[(file, name)]) else None
  }

  const PASSTHROUGH_WRAPPERS := {"Partial", "Required", "Readonly", "NonNullable"}
  const ARRAY_TYPES := {"Array", "ReadonlyArray"}

  function FindMember(members: seq<Property>, name: string): (found: Option<Property>)
    ensures found.Some? ==> found.value in members
  {
    if members == [] then None
    else if members[0].name == name then Some(members[0])
    else FindMember(members[1..], name)
  }

  // ---------------------------------------------------------------------
  // The walk
  // ---------------------------------------------------------------------

  datatype Verdict = Found | Missing | Unknown

  /** A declaration together with the number of steps it is entered with. */
  type Key = (DeclId, nat)

  /** `seen` is the shared set as the walk leaves it.  `Diverged` means the
      fuel ran out. */
  datatype Outcome = Diverged | Answer(verdict: Verdict, seen: set<Key>)
  datatype Outcomes = DivergedAmong | Answers(verdicts: seq<Verdict>, seen: set<Key>)

  function Combine(verdicts: seq<Verdict>): Verdict {
    if Found in verdicts then Found else if Unknown in verdicts then Unknown else Missing
  }

  function Unanimous(verdicts: seq<Verdict>): Verdict {
    if forall v | v in verdicts :: v == Found then Found
    else if forall v | v in verdicts :: v == Missing then Missing
    else Unknown
  }

  function LookupDecl(w: World, id: DeclId, steps: seq<Step>, seen: set<Key>, fuel: nat): Outcome
    requires id in w.decls
    decreases fuel, 0, 0
  {
    if steps == [] then Answer(Found, seen)
    else if fuel == 0 then Diverged
    else
      match w.decls[id]
      case Enum => Answer(Unknown, seen)
      case Alias(body) =>
        if (id, |steps|) in seen then Answer(Unknown, seen)
        else LookupType(w, id.file, body, steps, seen + {(id, |steps|)}, fuel - 1)
      case Interface(members, bases, _) =>
        if (id, |steps|) in seen then Answer(Unknown, seen)
        else if steps[0].Element? then Answer(Unknown, seen + {(id, |steps|)})
        else
          var member := FindMember(members, steps[0].name);
          if member.Some? then LookupMember(w, id.file, member.value, steps[1..], seen + {(id, |steps|)}, fuel - 1)
          else
            match LookupBases(w, id.file, bases, steps, seen + {(id, |steps|)}, fuel - 1)
            case DivergedAmong => Diverged
            case Answers(verdicts, seen') => Answer(Combine(verdicts), seen')
  }

  function LookupMember(w: World, file: string, member: Property, rest: seq<Step>, seen: set<Key>, fuel: nat): Outcome
    decreases fuel, 1, 0
  {
    if rest == [] then Answer(Found, seen)
    else if member.ty.None? then Answer(Unknown, seen)
    else LookupType(w, file, member.ty.value, rest, seen, fuel)
  }

  function LookupBases(w: World, file: string, bases: seq<Option<string>>, steps: seq<Step>, seen: set<Key>, fuel: nat): Outcomes
    decreases fuel, 1, |bases|
  {
    if bases == [] then Answers([], seen)
    else
      var id := if bases[0].None? then None else Resolve(w, file, bases[0].value);
      var first := if id.None? then Answer(Unknown, seen) else LookupDecl(w, id.value, steps, seen, fuel);
      if first.Diverged? then DivergedAmong
      else
        match LookupBases(w, file, bases[1..], steps, first.seen, fuel)
        case DivergedAmong => DivergedAmong
        case Answers(verdicts, seen') => Answers([first.verdict] + verdicts, seen')
  }

  function LookupType(w: World, file: string, node: TypeNode, steps: seq<Step>, seen: set<Key>, fuel: nat): Outcome
    decreases fuel, 0, 0
  {
    if steps == [] then Answer(Found, seen)
    else if fuel == 0 then Diverged
    else
      match node
      case Literal(members, _) =>
        if steps[0].Element? then Answer(Unknown, seen)
        else
          var member := FindMember(members, steps[0].name);
          if member.Some? then LookupMember(w, file, member.value, steps[1..], seen, fuel - 1)
          else Answer(Missing, seen)
      case Parenthesized(inner) => LookupType(w, file, inner, steps, seen, fuel - 1)
      case Intersection(parts) =>
        (match LookupParts(w, file, parts, steps, seen, fuel - 1)
         case DivergedAmong => Diverged
         case Answers(verdicts, seen') => Answer(Combine(verdicts), seen'))
      case Union(parts) =>
        (match LookupParts(w, file, parts, steps, seen, fuel - 1)
         case DivergedAmong => Diverged
         case Answers(verdicts, seen') => Answer(Unanimous(verdicts), seen'))
      case ArrayOf(element) =>
        if steps[0].Element? then LookupType(w, file, element, steps[1..], seen, fuel - 1) else Answer(Unknown, seen)
      case Operator(_, inner) => LookupType(w, file, inner, steps, seen, fuel - 1)
      case IndexedAccess(target, index) =>
        if index.Some? then LookupType(w, file, target, [Member(index.value)] + steps, seen, fuel - 1)
        else Answer(Unknown, seen)
      case Reference(head, qualified, args) =>
        if head in PASSTHROUGH_WRAPPERS && args != [] then LookupType(w, file, args[0], steps, seen, fuel - 1)
        else if head in ARRAY_TYPES && args != [] then
          if steps[0].Element? then LookupType(w, file, args[0], steps[1..], seen, fuel - 1) else Answer(Unknown, seen)
        else if qualified || Resolve(w, file, head).None? then Answer(Unknown, seen)
        else LookupDecl(w, Resolve(w, file, head).value, steps, seen, fuel - 1)
      case Unseeable => Answer(Unknown, seen)
  }

  function LookupParts(w: World, file: string, parts: seq<TypeNode>, steps: seq<Step>, seen: set<Key>, fuel: nat): Outcomes
    decreases fuel, 1, |parts|
  {
    if parts == [] then Answers([], seen)
    else
      var first := LookupType(w, file, parts[0], steps, seen, fuel);
      if first.Diverged? then DivergedAmong
      else
        match LookupParts(w, file, parts[1..], steps, first.seen, fuel)
        case DivergedAmong => DivergedAmong
        case Answers(verdicts, seen') => Answers([first.verdict] + verdicts, seen')
  }

  // ---------------------------------------------------------------------
  // What it means for a path to be present
  // ---------------------------------------------------------------------

  /** A place the walk cannot look into. */
  datatype Spot =
    | TypeSpot(file: string, node: TypeNode)
    | MemberSpot(file: string, member: Property)
    | DeclSpot(id: DeclId)
    | BaseSpot(file: string, bases: seq<Option<string>>)

  /** A reading of types: what is present at the places nobody can see, and
      whether a union has a member when every branch has it or when some branch
      has it. */
  datatype Reading = Reading(unseen: (Spot, seq<Step>) -> bool, everyBranch: bool)

  /** A member that is no property signature may stand for this name. */
  predicate Declares(others: seq<Option<string>>, name: string) {
    Some(name) in others || None in others
  }

  /** Presence shown by a derivation of at most the given depth. */
  ghost predicate InDecl(w: World, r: Reading, id: DeclId, steps: seq<Step>, depth: nat)
    requires id in w.decls
    decreases depth, 0, 0
  {
    || steps == []
    || (depth > 0 &&
        match w.decls[id]
        case Enum => r.unseen(DeclSpot(id), steps)
        case Alias(body) => InType(w, r, id.file, body, steps, depth - 1)
        case Interface(members, bases, others) =>
          if steps[0].Element? then r.unseen(DeclSpot(id), steps)
          else
            var member := FindMember(members, steps[0].name);
            if member.Some? then InMember(w, r, id.file, member.value, steps[1..], depth - 1)
            else
              || InBases(w, r, id.file, bases, steps, depth - 1)
              || (Declares(others, steps[0].name) && r.unseen(DeclSpot(id), steps)))
  }

  ghost predicate InMember(w: World, r: Reading, file: string, member: Property, rest: seq<Step>, depth: nat)
    decreases depth, 1, 0
  {
    || rest == []
    || (if member.ty.None? then r.unseen(MemberSpot(file, member), rest)
        else InType(w, r, file, member.ty.value, rest, depth))
  }

  /** Present in at least one base. */
  ghost predicate InBases(w: World, r: Reading, file: string, bases: seq<Option<string>>, steps: seq<Step>, depth: nat)
    decreases depth, 1, |bases|
  {
    bases != [] &&
    var id := if bases[0].None? then None else Resolve(w, file, bases[0].value);
    || (if id.None? then r.unseen(BaseSpot(file, bases), steps) else InDecl(w, r, id.value, steps, depth))
    || InBases(w, r, file, bases[1..], steps, depth)
  }

  ghost predicate InType(w: World, r: Reading, file: string, node: TypeNode, steps: seq<Step>, depth: nat)
    decreases depth, 0, 0
  {
    || steps == []
    || (depth > 0 &&
        match node
        case Literal(members, others) =>
          if steps[0].Element? then r.unseen(TypeSpot(file, node), steps)
          else
            var member := FindMember(members, steps[0].name);
            if member.Some? then InMember(w, r, file, member.value, steps[1..], depth - 1)
            else Declares(others, steps[0].name) && r.unseen(TypeSpot(file, node), steps)
        case Parenthesized(inner) => InType(w, r, file, inner, steps, depth - 1)
        case Intersection(parts) => InSome(w, r, file, parts, steps, depth - 1)
        case Union(parts) =>
          if r.everyBranch then InEvery(w, r, file, parts, steps, depth - 1)
          else parts == [] || InSome(w, r, file, parts, steps, depth - 1)
        case ArrayOf(element) =>
          if steps[0].Element? then InType(w, r, file, element, steps[1..], depth - 1)
          else r.unseen(TypeSpot(file, node), steps)
        case Operator(readonly, inner) =>
          if readonly then InType(w, r, file, inner, steps, depth - 1) else r.unseen(TypeSpot(file, node), steps)
        case IndexedAccess(target, index) =>
          if index.Some? then InType(w, r, file, target, [Member(index.value)] + steps, depth - 1)
          else r.unseen(TypeSpot(file, node), steps)
        case Reference(head, qualified, args) =>
          if head in PASSTHROUGH_WRAPPERS && args != [] then InType(w, r, file, args[0], steps, depth - 1)
          else if head in ARRAY_TYPES && args != [] then
            if steps[0].Element? then InType(w, r, file, args[0], steps[1..], depth - 1)
            else r.unseen(TypeSpot(file, node), steps)
          else if qualified || Resolve(w, file, head).None? then r.unseen(TypeSpot(file, node), steps)
          else InDecl(w, r, Resolve(w, file, head).value, steps, depth - 1)
        case Unseeable => r.unseen(TypeSpot(file, node), steps))
  }

  ghost predicate InSome(w: World, r: Reading, file: string, parts: seq<TypeNode>, steps: seq<Step>, depth: nat)
    decreases depth, 1, |parts|
  {
    parts != [] && (InType(w, r, file, parts[0], steps, depth) || InSome(w, r, file, parts[1..], steps, depth))
  }

  ghost predicate InEvery(w: World, r: Reading, file: string, parts: seq<TypeNode>, steps: seq<Step>, depth: nat)
    decreases depth, 1, |parts|
  {
    parts == [] || (InType(w, r, file, parts[0], steps, depth) && InEvery(w, r, file, parts[1..], steps, depth))
  }

  /** The path is present in the declaration under this reading. */
  ghost predicate Present(w: World, r: Reading, id: DeclId, steps: seq<Step>)
    requires id in w.decls
  {
    exists depth: nat :: InDecl(w, r, id, steps, depth)
  }

  /** The walk's answer, whatever fuel it takes to get one. */
  ghost predicate Answered(w: World, id: DeclId, steps: seq<Step>, verdict: Verdict)
    requires id in w.decls
  {
    exists fuel: nat, seen :: LookupDecl(w, id, steps, {}, fuel) == Answer(verdict, seen)
  }
}
