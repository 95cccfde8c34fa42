/** What the walk does at references and members as they are written: the names
    that pass a lookup through, the array types, and the first member of a name. */
module PathPlain {
  import opened Wrappers
  import opened PathLookup

  predicate IsPassing(head: string) {
    head == "Partial" || head == "Required" || head == "Readonly" || head == "NonNullable"
  }

  predicate IsArray(head: string) {
    head == "Array" || head == "ReadonlyArray"
  }

  /** A utility wrapper with an argument is looked up as its first argument. */
  lemma WrapperPassesThrough(
    w: World, file: string, head: string, qualified: bool, args: seq<TypeNode>, steps: seq<Step>, seen: set<Key>, fuel: nat)
    requires IsPassing(head) && args != [] && steps != [] && fuel > 0
    ensures LookupType(w, file, Reference(head, qualified, args), steps, seen, fuel) ==
            LookupType(w, file, args[0], steps, seen, fuel - 1)
  {
  }

  /** An array type with an argument takes an element step into it and knows of
      no member. */
  lemma ArrayTakesElement(
    w: World, file: string, head: string, qualified: bool, args: seq<TypeNode>, steps: seq<Step>, seen: set<Key>, fuel: nat)
    requires IsArray(head) && args != [] && steps != [] && fuel > 0
    ensures LookupType(w, file, Reference(head, qualified, args), steps, seen, fuel) ==
      if steps[0] == Element then LookupType(w, file, args[0], steps[1..], seen, fuel - 1) else Answer(Unknown, seen)
  {
  }

  /** Any other name leads to the declaration it means in this file, if it is not
      qualified and means one; so does one of those names without an argument. */
  lemma NameLeadsToDeclaration(
    w: World, file: string, head: string, qualified: bool, args: seq<TypeNode>, steps: seq<Step>, seen: set<Key>, fuel: nat)
    requires (!IsPassing(head) && !IsArray(head)) || args == []
    requires steps != [] && fuel > 0
    ensures LookupType(w, file, Reference(head, qualified, args), steps, seen, fuel) ==
      if !qualified && (file, head) in w.names && w.names[(file, head)] in w.decls then
        LookupDecl(w, w.names[(file, head)], steps, seen, fuel - 1)
      else Answer(Unknown, seen)
  {
  }

  /** Of several members of one name the first counts. */
  lemma {:induction false} FirstMemberCounts(members: seq<Property>, name: string)
    ensures FindMember(members, name).None? <==> forall i :: 0 <= i < |members| ==> members[i].name != name
    ensures forall i :: 0 <= i < |members| && members[i].name == name && (forall j :: 0 <= j < i ==> members[j].name != name) ==>
      FindMember(members, name) == Some(members[i])
  {
    if members != [] && members[0].name != name {
      FirstMemberCounts(members[1..], name);
      forall i | 0 <= i < |members| && members[i].name == name && (forall j :: 0 <= j < i ==> members[j].name != name)
        ensures FindMember(members, name) == Some(members[i])
      {
        assert members[1..][i - 1] == members[i];
      }
      assert forall i :: 0 < i < |members| ==> members[i] == members[1..][i - 1];
    }
  }
}
