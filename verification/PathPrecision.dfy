/** How much the walk commits itself to.  Where it never comes back to a
    declaration with the number of steps it has entered it with before, its
    verdict says exactly under which readings the path is present; and a chart of
    the declarations shows beforehand that it never will. */
module PathPrecision {
  import opened Wrappers
  import opened PathLookup
  import opened PathSoundness

  // ---------------------------------------------------------------------
  // Walks that never meet a mark
  // ---------------------------------------------------------------------

  /** The walk meets none of the marks it has made. */
  ghost predicate FreshDecl(w: World, id: DeclId, steps: seq<Step>, seen: set<Key>, fuel: nat)
    requires id in w.decls
    decreases fuel, 0, 0
  {
    || steps == [] || fuel == 0 || w.decls[id].Enum?
    || ((id, |steps|) !in seen &&
        var seen' := seen + {(id, |steps|)};
        match w.decls[id]
        case Enum => true
        case Alias(body) => FreshType(w, id.file, body, steps, seen', fuel - 1)
        case Interface(members, bases, _) =>
          steps[0].Member? ==>
            var member := FindMember(members, steps[0].name);
            if member.Some? then FreshMember(w, id.file, member.value, steps[1..], seen', fuel - 1)
            else FreshBases(w, id.file, bases, steps, seen', fuel - 1))
  }

  ghost predicate FreshMember(w: World, file: string, member: Property, rest: seq<Step>, seen: set<Key>, fuel: nat)
    decreases fuel, 1, 0
  {
    rest != [] && member.ty.Some? ==> FreshType(w, file, member.ty.value, rest, seen, fuel)
  }

  ghost predicate FreshBases(
    w: World, file: string, bases: seq<Option<string>>, steps: seq<Step>, seen: set<Key>, fuel: nat)
    decreases fuel, 1, |bases|
  {
    bases != [] ==>
      var id := if bases[0].None? then None else Resolve(w, file, bases[0].value);
      var first := if id.None? then Answer(Unknown, seen) else LookupDecl(w, id.value, steps, seen, fuel);
      && (id.Some? ==> FreshDecl(w, id.value, steps, seen, fuel))
      && (first.Answer? ==> FreshBases(w, file, bases[1..], steps, first.seen, fuel))
  }

  ghost predicate FreshType(w: World, file: string, node: TypeNode, steps: seq<Step>, seen: set<Key>, fuel: nat)
    decreases fuel, 0, 0
  {
    || steps == [] || fuel == 0
    || match node
       case Literal(members, _) =>
         steps[0].Member? ==>
           var member := FindMember(members, steps[0].name);
           member.Some? ==> FreshMember(w, file, member.value, steps[1..], seen, fuel - 1)
       case Parenthesized(inner) => FreshType(w, file, inner, steps, seen, fuel - 1)
       case Intersection(parts) => FreshParts(w, file, parts, steps, seen, fuel - 1)
       case Union(parts) => FreshParts(w, file, parts, steps, seen, fuel - 1)
       case ArrayOf(element) => steps[0].Element? ==> FreshType(w, file, element, steps[1..], seen, fuel - 1)
       case Operator(_, inner) => FreshType(w, file, inner, steps, seen, fuel - 1)
       case IndexedAccess(target, index) =>
         index.Some? ==> FreshType(w, file, target, [Member(index.value)] + steps, seen, fuel - 1)
       case Reference(head, qualified, args) =>
         if head in PASSTHROUGH_WRAPPERS && args != [] then FreshType(w, file, args[0], steps, seen, fuel - 1)
         else if head in ARRAY_TYPES && args != [] then
           steps[0].Element? ==> FreshType(w, file, args[0], steps[1..], seen, fuel - 1)
         else !qualified && Resolve(w, file, head).Some? ==>
           FreshDecl(w, Resolve(w, file, head).value, steps, seen, fuel - 1)
       case Unseeable => true
  }

  ghost predicate FreshParts(w: World, file: string, parts: seq<TypeNode>, steps: seq<Step>, seen: set<Key>, fuel: nat)
    decreases fuel, 1, |parts|
  {
    parts != [] ==>
      var first := LookupType(w, file, parts[0], steps, seen, fuel);
      && FreshType(w, file, parts[0], steps, seen, fuel)
      && (first.Answer? ==> FreshParts(w, file, parts[1..], steps, first.seen, fuel))
  }

  /** The walk gives this answer and on the way enters no declaration twice with
      the same number of steps. */
  ghost predicate AnsweredFresh(w: World, id: DeclId, steps: seq<Step>, verdict: Verdict)
    requires id in w.decls
  {
    exists fuel: nat, seen ::
      LookupDecl(w, id, steps, {}, fuel) == Answer(verdict, seen) && FreshDecl(w, id, steps, {}, fuel)
  }

  // ---------------------------------------------------------------------
  // The two readings at the ends
  // ---------------------------------------------------------------------

  lemma {:induction false} SettledDecl(w: World, id: DeclId, steps: seq<Step>, seen: set<Key>, fuel: nat, d: nat)
    requires id in w.decls && FreshDecl(w, id, steps, seen, fuel)
    requires LookupDecl(w, id, steps, seen, fuel).Answer?
    ensures var verdict := LookupDecl(w, id, steps, seen, fuel).verdict;
      && (verdict != Missing ==> InDecl(w, MOST, id, steps, fuel))
      && (verdict != Found ==> !InDecl(w, LEAST, id, steps, d))
    decreases fuel, 0, 0
  {
    if steps != [] {
      var seen' := seen + {(id, |steps|)};
      var e := if d == 0 then 0 else d - 1;
      match w.decls[id]
      case Enum =>
      case Alias(body) => SettledType(w, id.file, body, steps, seen', fuel - 1, e);
      case Interface(members, bases, _) =>
        if steps[0].Member? {
          var member := FindMember(members, steps[0].name);
          if member.Some? { SettledMember(w, id.file, member.value, steps[1..], seen', fuel - 1, e); }
          else { SettledBases(w, id.file, bases, steps, seen', fuel - 1, e); }
        }
    }
  }

  lemma {:induction false} SettledMember(
    w: World, file: string, member: Property, rest: seq<Step>, seen: set<Key>, fuel: nat, d: nat)
    requires FreshMember(w, file, member, rest, seen, fuel) && LookupMember(w, file, member, rest, seen, fuel).Answer?
    ensures var verdict := LookupMember(w, file, member, rest, seen, fuel).verdict;
      && (verdict != Missing ==> InMember(w, MOST, file, member, rest, fuel))
      && (verdict != Found ==> !InMember(w, LEAST, file, member, rest, d))
    decreases fuel, 1, 0
  {
    if rest != [] && member.ty.Some? { SettledType(w, file, member.ty.value, rest, seen, fuel, d); }
  }

  lemma {:induction false} SettledBases(
    w: World, file: string, bases: seq<Option<string>>, steps: seq<Step>, seen: set<Key>, fuel: nat, d: nat)
    requires FreshBases(w, file, bases, steps, seen, fuel) && LookupBases(w, file, bases, steps, seen, fuel).Answers?
    ensures var verdicts := LookupBases(w, file, bases, steps, seen, fuel).verdicts;
      && ((exists v :: v in verdicts && v != Missing) ==> InBases(w, MOST, file, bases, steps, fuel))
      && (Found !in verdicts ==> !InBases(w, LEAST, file, bases, steps, d))
    decreases fuel, 1, |bases|
  {
    if bases != [] {
      var id := if bases[0].None? then None else Resolve(w, file, bases[0].value);
      var first := if id.None? then Answer(Unknown, seen) else LookupDecl(w, id.value, steps, seen, fuel);
      var tail := LookupBases(w, file, bases[1..], steps, first.seen, fuel);
      assert LookupBases(w, file, bases, steps, seen, fuel).verdicts == [first.verdict] + tail.verdicts;
      if id.Some? { SettledDecl(w, id.value, steps, seen, fuel, d); }
      SettledBases(w, file, bases[1..], steps, first.seen, fuel, d);
    }
  }

  lemma {:induction false} SettledType(
    w: World, file: string, node: TypeNode, steps: seq<Step>, seen: set<Key>, fuel: nat, d: nat)
    requires FreshType(w, file, node, steps, seen, fuel) && LookupType(w, file, node, steps, seen, fuel).Answer?
    ensures var verdict := LookupType(w, file, node, steps, seen, fuel).verdict;
      && (verdict != Missing ==> InType(w, MOST, file, node, steps, fuel))
      && (verdict != Found ==> !InType(w, LEAST, file, node, steps, d))
    decreases fuel, 0, 0
  {
    if steps != [] {
      var e := if d == 0 then 0 else d - 1;
      match node
      case Literal(members, _) =>
        if steps[0].Member? && FindMember(members, steps[0].name).Some? {
          SettledMember(w, file, FindMember(members, steps[0].name).value, steps[1..], seen, fuel - 1, e);
        }
      case Parenthesized(inner) => SettledType(w, file, inner, steps, seen, fuel - 1, e);
      case Intersection(parts) => SettledParts(w, file, parts, steps, seen, fuel - 1, e);
      case Union(parts) =>
        SettledParts(w, file, parts, steps, seen, fuel - 1, e);
        var verdicts := LookupParts(w, file, parts, steps, seen, fuel - 1).verdicts;
        assert parts != [] ==> verdicts[0] in verdicts;
      case ArrayOf(element) => if steps[0].Element? { SettledType(w, file, element, steps[1..], seen, fuel - 1, e); }
      case Operator(_, inner) => SettledType(w, file, inner, steps, seen, fuel - 1, e);
      case IndexedAccess(target, index) =>
        if index.Some? { SettledType(w, file, target, [Member(index.value)] + steps, seen, fuel - 1, e); }
      case Reference(head, qualified, args) =>
        if head in PASSTHROUGH_WRAPPERS && args != [] { SettledType(w, file, args[0], steps, seen, fuel - 1, e); }
        else if head in ARRAY_TYPES && args != [] {
          if steps[0].Element? { SettledType(w, file, args[0], steps[1..], seen, fuel - 1, e); }
        } else if !qualified && Resolve(w, file, head).Some? {
          SettledDecl(w, Resolve(w, file, head).value, steps, seen, fuel - 1, e);
        }
      case Unseeable =>
    }
  }

  lemma {:induction false} SettledParts(
    w: World, file: string, parts: seq<TypeNode>, steps: seq<Step>, seen: set<Key>, fuel: nat, d: nat)
    requires FreshParts(w, file, parts, steps, seen, fuel) && LookupParts(w, file, parts, steps, seen, fuel).Answers?
    ensures var verdicts := LookupParts(w, file, parts, steps, seen, fuel).verdicts;
      && |verdicts| == |parts|
      && ((exists v :: v in verdicts && v != Missing) ==> InSome(w, MOST, file, parts, steps, fuel))
      && ((exists v :: v in verdicts && v != Found) ==> !InEvery(w, LEAST, file, parts, steps, d))
      && (Found !in verdicts ==> !InSome(w, LEAST, file, parts, steps, d))
    decreases fuel, 1, |parts|
  {
    if parts != [] {
      var first := LookupType(w, file, parts[0], steps, seen, fuel);
      var tail := LookupParts(w, file, parts[1..], steps, first.seen, fuel);
      assert LookupParts(w, file, parts, steps, seen, fuel).verdicts == [first.verdict] + tail.verdicts;
      SettledType(w, file, parts[0], steps, seen, fuel, d);
      SettledParts(w, file, parts[1..], steps, first.seen, fuel, d);
    }
  }

  /** A walk that enters no declaration twice with the same number of steps says
      `found` where the path is present whatever the unseen places hold, and
      `missing` where it is absent whatever they hold; where it passes through no
      operator, or over no member either, it says so only there. */
  lemma VerdictsAreExact(w: World, id: DeclId, steps: seq<Step>, verdict: Verdict)
    requires id in w.decls && AnsweredFresh(w, id, steps, verdict)
    ensures (forall r :: Present(w, r, id, steps)) ==> verdict == Found
    ensures (forall r :: !Present(w, r, id, steps)) ==> verdict == Missing
    ensures IsSeenThrough(w, id, steps) && verdict == Found ==> forall r :: Present(w, r, id, steps)
    ensures IsClear(w, id, steps) && verdict == Missing ==> forall r :: !Present(w, r, id, steps)
  {
    var fuel: nat, seen :|
      LookupDecl(w, id, steps, {}, fuel) == Answer(verdict, seen) && FreshDecl(w, id, steps, {}, fuel);
    assert Answered(w, id, steps, verdict);
    forall r
      ensures verdict == Found && IsSeenThrough(w, id, steps) ==> Present(w, r, id, steps)
      ensures verdict == Missing && IsClear(w, id, steps) ==> !Present(w, r, id, steps)
    {
      VerdictsAreSound(w, r, id, steps, verdict);
    }
    if verdict != Missing {
      SettledDecl(w, id, steps, {}, fuel, 0);
      assert Present(w, MOST, id, steps);
    }
    if verdict != Found {
      forall d: nat
        ensures !InDecl(w, LEAST, id, steps, d)
      {
        SettledDecl(w, id, steps, {}, fuel, d);
      }
      assert !Present(w, LEAST, id, steps);
    }
  }

  // ---------------------------------------------------------------------
  // Where a mark is met
  // ---------------------------------------------------------------------

  const A := DeclId("a.ts", 0)
  const I := DeclId("a.ts", 1)

  /** `interface I { x }  type A = I | I` */
  const TWICE := World(
    map[A := Alias(Union([Reference("I", false, []), Reference("I", false, [])])),
        I := Interface([Property("x", None)], [], [])],
    map[("a.ts", "I") := I])

  /** The second branch meets the first one's mark: a path present in both is
      answered `unknown`, though each branch alone is answered `found`. */
  lemma SharedSeenDegrades(r: Reading)
    ensures Answered(TWICE, A, [Member("x")], Unknown)
    ensures Answered(TWICE, I, [Member("x")], Found)
    ensures Present(TWICE, r, A, [Member("x")])
  {
    var path := [Member("x")];
    var i := Reference("I", false, []);
    assert path[1..] == [];
    assert Resolve(TWICE, "a.ts", "I") == Some(I);
    assert LookupDecl(TWICE, I, path, {}, 1) == Answer(Found, {(I, 1)});
    var seen := {(A, 1)};
    assert LookupDecl(TWICE, I, path, seen, 1) == Answer(Found, seen + {(I, 1)});
    assert LookupType(TWICE, "a.ts", i, path, seen, 2) == Answer(Found, seen + {(I, 1)});
    assert LookupType(TWICE, "a.ts", i, path, seen + {(I, 1)}, 2) == Answer(Unknown, seen + {(I, 1)});
    assert [i, i][1..] == [i] && [i][1..] == [];
    assert LookupParts(TWICE, "a.ts", [i], path, seen + {(I, 1)}, 2) == Answers([Unknown], seen + {(I, 1)});
    assert LookupParts(TWICE, "a.ts", [i, i], path, seen, 2) == Answers([Found, Unknown], seen + {(I, 1)});
    var mixed := [Found, Unknown];
    assert mixed[0] == Found && mixed[1] == Unknown && Found in mixed && Unknown in mixed;
    assert Unanimous(mixed) == Unknown;
    assert LookupType(TWICE, "a.ts", Union([i, i]), path, seen, 3) == Answer(Unknown, seen + {(I, 1)});
    assert LookupDecl(TWICE, A, path, {}, 4) == Answer(Unknown, seen + {(I, 1)});
    assert InDecl(TWICE, r, I, path, 1);
    assert InType(TWICE, r, "a.ts", i, path, 2);
    assert InEvery(TWICE, r, "a.ts", [i, i], path, 2) && InSome(TWICE, r, "a.ts", [i, i], path, 2);
    assert InDecl(TWICE, r, A, path, 4);
  }
}
