/** The gate list and the checks made on it before anything runs: unique ids,
    known needs, no dependency cycle. */
module GateGraph {
  import opened Wrappers
  import opened DependencyGraph

  /** The fields scheduling depends on.  A missing `needs` list is the empty
      one; a missing `allowFailure` is false. */
  datatype Gate = Gate(id: string, needs: seq<string>, allowFailure: bool)

  datatype GraphError =
    | NoGates
    | DuplicateId(id: string)
    | UnknownNeed(gate: string, need: string)
    | CyclicNeeds(cycle: seq<string>)

  function Ids(gates: seq<Gate>): (ids: set<string>)
    ensures forall g :: g in gates ==> g.id in ids
  {
    if gates == [] then {} else
      assert gates == gates[..|gates| - 1] + [gates[|gates| - 1]];
      Ids(gates[..|gates| - 1]) + {gates[|gates| - 1].id}
  }

  /** What each id needs; of two gates with one id the later counts. */
  function NeedsById(gates: seq<Gate>): (needs: Needs)
    ensures needs.Keys == Ids(gates)
  {
    if gates == [] then map[]
    else
      var last := gates[|gates| - 1];
      assert gates == gates[..|gates| - 1] + [last];
      NeedsById(gates[..|gates| - 1])[last.id := last.needs]
  }

  lemma {:induction false} NeedsOfGate(gates: seq<Gate>, g: Gate)
    requires UniqueIds(gates) && g in gates
    ensures NeedsById(gates)[g.id] == g.needs
  {
    var last := gates[|gates| - 1];
    if g != last { NeedsOfGate(gates[..|gates| - 1], g); }
  }

  ghost predicate UniqueIds(gates: seq<Gate>) {
    forall i, j :: 0 <= i < j < |gates| ==> gates[i].id != gates[j].id
  }

  ghost predicate KnownNeeds(gates: seq<Gate>) {
    forall g, n :: g in gates && n in g.needs ==> n in Ids(gates)
  }

  ghost predicate Runnable(gates: seq<Gate>) {
    gates != [] && UniqueIds(gates) && KnownNeeds(gates) && Acyclic(NeedsById(gates))
  }

  ghost function GateOf(gates: seq<Gate>, id: string): (g: Gate)
    requires id in Ids(gates)
    ensures g in gates && g.id == id
  {
    var last := gates[|gates| - 1];
    if last.id == id then last else GateOf(gates[..|gates| - 1], id)
  }

  lemma NeedIsEdge(gates: seq<Gate>, g: Gate, n: string)
    requires UniqueIds(gates) && KnownNeeds(gates) && g in gates
    ensures n in g.needs <==> Edge(NeedsById(gates), g.id, n)
    ensures n in g.needs ==> n in Ids(gates)
  {
    NeedsOfGate(gates, g);
  }

  /** Among any named gates there is one that needs none of them. */
  lemma MinimalGate(gates: seq<Gate>, names: set<string>) returns (g: Gate)
    requires Runnable(gates) && names != {} && names <= Ids(gates)
    ensures g in gates && g.id in names
    ensures forall n :: n in g.needs ==> n !in names && n in Ids(gates)
  {
    var a := AcyclicHasMinimal(NeedsById(gates), names);
    g := GateOf(gates, a);
    forall n | n in g.needs
      ensures n !in names && n in Ids(gates)
    {
      NeedIsEdge(gates, g, n);
    }
  }

  /** `path` follows edges and `active` gives the position of each of its nodes. */
  ghost predicate IsPath(needs: Needs, path: seq<string>, active: map<string, nat>) {
    && (forall i :: 0 <= i < |path| - 1 ==> Edge(needs, path[i], path[i + 1]))
    && (forall i :: 0 <= i < |path| ==> path[i] in active && active[path[i]] == i)
    && (forall a :: a in active ==> active[a] < |path| && path[active[a]] == a)
  }

  ghost predicate IsFinished(needs: Needs, order: seq<string>, complete: set<string>) {
    IsFinishOrder(needs, order) && forall a :: a in complete <==> a in order
  }

  lemma PathExtends(needs: Needs, path: seq<string>, active: map<string, nat>, id: string)
    requires IsPath(needs, path, active) && id !in active
    requires path != [] ==> Edge(needs, path[|path| - 1], id)
    ensures IsPath(needs, path + [id], active[id := |path|])
    ensures (path + [id])[..|path + [id]| - 1] == path && active[id := |path|] - {id} == active
  {
  }

  lemma FewerUnvisited(all: set<string>, active: map<string, nat>, complete: set<string>, id: string, position: nat)
    requires id in all && id !in active && id !in complete
    ensures all - active[id := position].Keys - complete < all - active.Keys - complete
  {
    assert id in all - active.Keys - complete;
  }

  lemma FinishedGrows(needs: Needs, order: seq<string>, complete: set<string>, id: string)
    requires IsFinished(needs, order, complete) && id !in complete
    requires id in needs
    requires forall j :: 0 <= j < |needs[id]| && needs[id][j] in needs ==> needs[id][j] in complete
    ensures IsFinished(needs, order + [id], complete + {id})
  {
    FinishOne(needs, order, id);
  }

  /** The search, from the path and the node next visited, takes the first edges
      that lead to a cycle and closes it. */
  ghost predicate IsSearch(needs: Needs, path: seq<string>, id: string, w: seq<string>, c: seq<string>) {
    |w| > |path| && w[..|path|] == path && w[|path|] == id && IsGreedy(needs, w, |path|) && IsLoopOf(c, w)
  }

  ghost predicate IsFoundFrom(needs: Needs, path: seq<string>, id: string, c: seq<string>) {
    exists w :: IsSearch(needs, path, id, w, c)
  }

  lemma PathCloses(needs: Needs, path: seq<string>, active: map<string, nat>, id: string)
    requires IsPath(needs, path, active) && id in active
    ensures IsFoundFrom(needs, path, id, path[active[id]..] + [id])
  {
    var w := path + [id];
    assert w[..|w| - 1] == path && w[active[id]..] == path[active[id]..] + [id];
    assert IsSearch(needs, path, id, w, path[active[id]..] + [id]);
  }

  /** None of the first `k` needs leads to a cycle. */
  ghost predicate AreSafe(needs: Needs, id: string, k: nat)
    requires id in needs && k <= |needs[id]|
  {
    forall j :: 0 <= j < k ==> !LeadsToCycle(needs, needs[id][j])
  }

  lemma FinishedAreSafe(needs: Needs, order: seq<string>, complete: set<string>, id: string, k: nat)
    requires id in needs && k <= |needs[id]| && IsFinished(needs, order, complete)
    requires forall j :: 0 <= j < k && needs[id][j] in needs ==> needs[id][j] in complete
    ensures AreSafe(needs, id, k)
  {
    forall j | 0 <= j < k
      ensures !LeadsToCycle(needs, needs[id][j])
    {
      FinishedIsSafe(needs, order, needs[id][j]);
    }
  }

  /** A search from the next need is one from the node before, if nothing before
      that need leads to a cycle. */
  lemma {:induction false} SearchFromNeed(needs: Needs, path: seq<string>, id: string, k: nat, c: seq<string>)
    requires id in needs && k < |needs[id]| && AreSafe(needs, id, k)
    requires path != [] && path[|path| - 1] == id
    requires IsFoundFrom(needs, path, needs[id][k], c)
    ensures IsFoundFrom(needs, path[..|path| - 1], id, c)
  {
    var w :| IsSearch(needs, path, needs[id][k], w, c);
    var last := |path| - 1;
    assert w[..last] == w[..|path|][..last] == path[..last] && w[last] == w[..|path|][last] == id;
    assert TakesFirst(needs, w[last], w[last + 1]);
    assert IsSearch(needs, path[..last], id, w, c);
  }

  /** The depth-first search for a cycle: nodes finished, nodes on the current
      path with their positions, and the path. */
  class CycleFinder {
    const needs: Needs
    var complete: set<string>
    var active: map<string, nat>
    var path: seq<string>
    ghost var order: seq<string>  // the finished nodes, in the order they finished

    ghost predicate Valid()
      reads this
    {
      && IsPath(needs, path, active)
      && IsFinished(needs, order, complete)
      && complete !! active.Keys
    }

    constructor (needs: Needs)
      ensures Valid() && this.needs == needs && path == [] && complete == {}
    {
      this.needs := needs;
      complete, active, path, order := {}, map[], [], [];
    }

    method Visit(id: string) returns (cycle: Option<seq<string>>)
      requires Valid()
      requires path != [] ==> Edge(needs, path[|path| - 1], id)
      modifies this
      ensures cycle.Some? ==> IsCycle(needs, cycle.value) && IsFoundFrom(needs, old(path), id, cycle.value)
      ensures cycle.None? ==> Valid() && path == old(path) && active == old(active)
      ensures cycle.None? ==> old(complete) <= complete && (id in needs ==> id in complete)
      decreases needs.Keys - active.Keys - complete, 0
    {
      if id in complete { return None; }
      if id in active {
        PathCloses(needs, path, active, id);
        return Some(path[active[id]..] + [id]);
      }
      if id !in needs { return None; }

      FewerUnvisited(needs.Keys, active, complete, id, |path|);
      PathExtends(needs, path, active, id);
      active := active[id := |path|];
      path := path + [id];
      assert path[..|path| - 1] == old(path);
      cycle := VisitNeeds(id);
      if cycle.Some? { return; }
      Leave(id);
    }

    /** The node on top is done with: it leaves the path and is finished. */
    method Leave(id: string)
      requires Valid() && path != [] && path[|path| - 1] == id && id in needs
      requires forall j :: 0 <= j < |needs[id]| && needs[id][j] in needs ==> needs[id][j] in complete
      modifies this
      ensures Valid() && path == old(path[..|path| - 1]) && active == old(active) - {id}
      ensures complete == old(complete) + {id}
    {
      FinishedGrows(needs, order, complete, id);
      path := path[..|path| - 1];
      active := active - {id};
      complete := complete + {id};
      order := order + [id];
    }

    /** The loop of `Visit` over the needs of the node just put on the path. */
    method VisitNeeds(id: string) returns (cycle: Option<seq<string>>)
      requires Valid() && path != [] && path[|path| - 1] == id && id in needs
      modifies this
      ensures cycle.Some? ==>
        IsCycle(needs, cycle.value) && IsFoundFrom(needs, old(path[..|path| - 1]), id, cycle.value)
      ensures cycle.None? ==> Valid() && path == old(path) && active == old(active)
      ensures cycle.None? ==> old(complete) <= complete
      ensures cycle.None? ==>
        forall j :: 0 <= j < |needs[id]| && needs[id][j] in needs ==> needs[id][j] in complete
      decreases needs.Keys - active.Keys - complete, 1
    {
      cycle := None;
      for k := 0 to |needs[id]|
        invariant Valid() && path == old(path) && active == old(active)
        invariant old(complete) <= complete && cycle.None?
        invariant forall j :: 0 <= j < k && needs[id][j] in needs ==> needs[id][j] in complete
      {
        assert needs.Keys - active.Keys - complete <= old(needs.Keys - active.Keys - complete);
        FinishedAreSafe(needs, order, complete, id, k);
        cycle := Visit(needs[id][k]);
        if cycle.Some? {
          SearchFromNeed(needs, old(path), id, k, cycle.value);
          return;
        }
      }
    }
  }

  /** The search starts from the first gate that leads to a cycle. */
  ghost predicate IsFirstCycle(gates: seq<Gate>, c: seq<string>) {
    exists k :: 0 <= k < |gates| && IsFoundFrom(NeedsById(gates), [], gates[k].id, c)
      && forall j :: 0 <= j < k ==> !LeadsToCycle(NeedsById(gates), gates[j].id)
  }

  method FindDependencyCycle(gates: seq<Gate>) returns (cycle: Option<seq<string>>)
    ensures cycle.None? <==> Acyclic(NeedsById(gates))
    ensures cycle.Some? ==> IsCycle(NeedsById(gates), cycle.value) && IsFirstCycle(gates, cycle.value)
  {
    var finder := new CycleFinder(NeedsById(gates));
    for k := 0 to |gates|
      invariant finder.Valid() && finder.path == [] && finder.needs == NeedsById(gates)
      invariant fresh(finder)
      invariant forall j :: 0 <= j < k ==> gates[j].id in finder.complete
    {
      forall j | 0 <= j < k
        ensures !LeadsToCycle(finder.needs, gates[j].id)
      {
        FinishedIsSafe(finder.needs, finder.order, gates[j].id);
      }
      cycle := finder.Visit(gates[k].id);
      if cycle.Some? { return; }
    }
    forall a | a in finder.needs
      ensures a in finder.order
    {
      var g := GateOf(gates, a);
    }
    FinishOrderMeansAcyclic(finder.needs, finder.order);
    return None;
  }

  /** The gate at `k` is the first to repeat an id. */
  ghost predicate RepeatsFirst(gates: seq<Gate>, k: int) {
    0 <= k < |gates| && UniqueIds(gates[..k]) && exists i :: 0 <= i < k && gates[i].id == gates[k].id
  }

  /** The need at `m` of the gate at `k` is the first that no gate has as its id. */
  ghost predicate UnknownFirst(gates: seq<Gate>, k: int, m: int) {
    && 0 <= k < |gates| && 0 <= m < |gates[k].needs|
    && (forall g :: g in gates ==> g.id != gates[k].needs[m])
    && (forall i, n :: 0 <= i < k && n in gates[i].needs ==> n in Ids(gates))
    && (forall n :: n in gates[k].needs[..m] ==> n in Ids(gates))
  }

  /** The error is about the first defect in the order of the checks. */
  ghost predicate Justified(error: GraphError, gates: seq<Gate>) {
    match error
    case NoGates => gates == []
    case DuplicateId(id) => exists k :: RepeatsFirst(gates, k) && gates[k].id == id
    case UnknownNeed(gate, need) =>
      UniqueIds(gates) && exists k, m :: UnknownFirst(gates, k, m) && gates[k].id == gate && gates[k].needs[m] == need
    case CyclicNeeds(cycle) =>
      UniqueIds(gates) && KnownNeeds(gates) && IsCycle(NeedsById(gates), cycle) && IsFirstCycle(gates, cycle)
  }

  method ValidateGateGraph(gates: seq<Gate>) returns (error: Option<GraphError>)
    ensures error.None? <==> Runnable(gates)
    ensures error.Some? ==> Justified(error.value, gates)
  {
    if |gates| == 0 { return Some(NoGates); }
    var ids: set<string> := {};
    for k := 0 to |gates|
      invariant ids == Ids(gates[..k])
      invariant UniqueIds(gates[..k])
    {
      if gates[k].id in ids {
        ghost var g := GateOf(gates[..k], gates[k].id);
        ghost var i :| 0 <= i < k && gates[..k][i] == g;
        assert gates[i].id == gates[k].id && RepeatsFirst(gates, k);
        return Some(DuplicateId(gates[k].id));
      }
      assert gates[..k + 1] == gates[..k] + [gates[k]];
      ids := ids + {gates[k].id};
    }
    assert gates[..|gates|] == gates;
    for k := 0 to |gates|
      invariant forall i, n :: 0 <= i < k && n in gates[i].needs ==> n in ids
    {
      for m := 0 to |gates[k].needs|
        invariant forall n :: n in gates[k].needs[..m] ==> n in ids
      {
        if gates[k].needs[m] !in ids {
          assert UnknownFirst(gates, k, m);
          return Some(UnknownNeed(gates[k].id, gates[k].needs[m]));
        }
      }
    }
    var cycle := FindDependencyCycle(gates);
    if cycle.Some? { return Some(CyclicNeeds(cycle.value)); }
    return None;
  }
}
