/** What every run of the scheduler comes to: runs end, they never stall, and
    all complete runs of one gate list end with the same results. */
module GateConfluence {
  import opened DependencyGraph
  import opened GateGraph
  import opened GateScheduler

  // ---------------------------------------------------------------------
  // Runs end and do not stall
  // ---------------------------------------------------------------------

  function StepsLeft(state: GateState): nat {
    match state
    case Pending => 2
    case Running => 1
    case _ => 0
  }

  function Work(gates: seq<Gate>, states: States): nat
    requires forall g :: g in gates ==> g.id in states
  {
    if gates == [] then 0 else StepsLeft(states[gates[0].id]) + Work(gates[1..], states)
  }

  lemma {:induction false} WorkElsewhere(gates: seq<Gate>, states: States, id: string, x: GateState)
    requires forall g :: g in gates ==> g.id in states && g.id != id
    ensures Work(gates, states[id := x]) == Work(gates, states)
  {
    if gates != [] { WorkElsewhere(gates[1..], states, id, x); }
  }

  lemma {:induction false} WorkChange(gates: seq<Gate>, states: States, gate: Gate, x: GateState)
    requires UniqueIds(gates) && (forall g :: g in gates ==> g.id in states) && gate in gates
    ensures Work(gates, states[gate.id := x]) == Work(gates, states) - StepsLeft(states[gate.id]) + StepsLeft(x)
  {
    if gates[0] == gate {
      WorkElsewhere(gates[1..], states, gate.id, x);
    } else {
      WorkChange(gates[1..], states, gate, x);
    }
  }

  lemma {:induction false} WorkInitial(gates: seq<Gate>, states: States)
    requires forall g :: g in gates ==> g.id in states && states[g.id].Pending?
    ensures Work(gates, states) == 2 * |gates|
  {
    if gates != [] { WorkInitial(gates[1..], states); }
  }

  /** Every run is over after at most two steps for each gate. */
  lemma {:induction false} RunsEnd(gates: seq<Gate>, maxActive: int, passes: Gate -> bool, events: seq<Event>)
    requires UniqueIds(gates) && maxActive >= 1
    requires Run(gates, maxActive, passes, events).Some?
    ensures Kept(gates, maxActive, passes, Run(gates, maxActive, passes, events).value)
    ensures |events| + Work(gates, Run(gates, maxActive, passes, events).value.states) <= 2 * |gates|
  {
    EveryRunKeeps(gates, maxActive, passes, events);
    if events == [] {
      WorkInitial(gates, Initial(gates).states);
    } else {
      var earlier, e := events[..|events| - 1], events[|events| - 1];
      RunsEnd(gates, maxActive, passes, earlier);
      var s := Run(gates, maxActive, passes, earlier).value;
      match e
      case Start =>
        WorkChange(gates, s.states, FirstReady(gates, s.states).value, Running);
      case Settle(k) =>
        assert s.running[k] in s.running;
        WorkChange(gates, s.states, s.running[k], Outcome(passes, s.running[k]));
      case Skip =>
        WorkChange(gates, s.states, FirstBlocked(gates, s.states).value, Skipped);
    }
  }

  /** Where nothing runs and nothing is ready, a gate that is still pending
      leads, along pending needs, to one with an unsuccessful need. */
  lemma DrainedHasBlocked(gates: seq<Gate>, maxActive: int, passes: Gate -> bool, s: Scheduler)
    requires Runnable(gates) && Kept(gates, maxActive, passes, s)
    requires Drained(gates, s) && !Complete(s)
    ensures FirstBlocked(gates, s.states).Some?
  {
    var pending := set id | id in s.states && s.states[id].Pending?;
    var id :| id in s.states && !Decided(s.states[id]);
    var g := GateOf(gates, id);
    assert GateKept(passes, s, g);
    assert id in pending;
    var h := MinimalGate(gates, pending);
    assert !Ready(h, s.states);
    var n :| n in h.needs && !(n in s.states && s.states[n].Passed?);
    var k := GateOf(gates, n);
    assert GateKept(passes, s, k);
    assert IsBlocker(n, s.states);
  }

  lemma RunThenNext(gates: seq<Gate>, maxActive: int, passes: Gate -> bool, events: seq<Event>, e: Event)
    requires Run(gates, maxActive, passes, events).Some?
    ensures Run(gates, maxActive, passes, events + [e]) ==
            Next(gates, maxActive, passes, Run(gates, maxActive, passes, events).value, e)
  {
    assert (events + [e])[..|events|] == events;
  }

  lemma UndecidedCanStep(gates: seq<Gate>, maxActive: int, passes: Gate -> bool, s: Scheduler) returns (e: Event)
    requires Runnable(gates) && maxActive >= 1 && Kept(gates, maxActive, passes, s) && !Complete(s)
    ensures Next(gates, maxActive, passes, s, e).Some?
  {
    if CanStart(gates, maxActive, s) {
      e := Start;
    } else if s.running != [] {
      e := Settle(0);
    } else {
      DrainedHasBlocked(gates, maxActive, passes, s);
      e := Skip;
    }
  }

  /** No run stalls: from every state a run can reach some step is possible
      exactly as long as a gate is undecided. */
  lemma {:induction false} NoStall(gates: seq<Gate>, maxActive: int, passes: Gate -> bool, events: seq<Event>)
    requires Runnable(gates) && maxActive >= 1
    requires Run(gates, maxActive, passes, events).Some?
    ensures Complete(Run(gates, maxActive, passes, events).value) <==>
            forall e :: Run(gates, maxActive, passes, events + [e]).None?
  {
    EveryRunKeeps(gates, maxActive, passes, events);
    var s := Run(gates, maxActive, passes, events).value;
    if Complete(s) {
      CompleteIsDrained(gates, maxActive, passes, s);
      forall e
        ensures Run(gates, maxActive, passes, events + [e]).None?
      {
        RunThenNext(gates, maxActive, passes, events, e);
      }
    } else {
      var e := UndecidedCanStep(gates, maxActive, passes, s);
      RunThenNext(gates, maxActive, passes, events, e);
    }
  }

  lemma CompleteIsDrained(gates: seq<Gate>, maxActive: int, passes: Gate -> bool, s: Scheduler)
    requires Kept(gates, maxActive, passes, s) && Complete(s)
    ensures Drained(gates, s)
    ensures FirstBlocked(gates, s.states).None?
  {
    if s.running != [] { RunningIsUndecided(gates, maxActive, s); }
  }

  lemma RunningIsUndecided(gates: seq<Gate>, maxActive: int, s: Scheduler)
    requires RunningKept(gates, maxActive, s) && s.running != []
    ensures !Complete(s)
  {
    assert s.running[0] in s.running;
  }

  // ---------------------------------------------------------------------
  // The verdict on a gate list
  // ---------------------------------------------------------------------

  /** A gate is skipped exactly when some need did not pass, and otherwise has
      its own outcome. */
  ghost predicate IsVerdict(gates: seq<Gate>, passes: Gate -> bool, v: States) {
    && v.Keys == Ids(gates)
    && forall g :: g in gates ==> v[g.id] == if NeedsPassed(g, v) then Outcome(passes, g) else Skipped
  }

  lemma VerdictUnique(gates: seq<Gate>, passes: Gate -> bool, v: States, w: States)
    requires Runnable(gates) && IsVerdict(gates, passes, v) && IsVerdict(gates, passes, w)
    ensures v == w
  {
    var differing := set id | id in v && v[id] != w[id];
    if v != w {
      var id :| id in v && v[id] != w[id];
      assert id in differing;
      var g := MinimalGate(gates, differing);
      assert forall n :: n in g.needs ==> n in v && v[n] == w[n];
    }
  }

  lemma CompleteIsVerdict(gates: seq<Gate>, maxActive: int, passes: Gate -> bool, s: Scheduler)
    requires Kept(gates, maxActive, passes, s) && Complete(s)
    ensures IsVerdict(gates, passes, s.states)
  {
    forall g | g in gates
      ensures s.states[g.id] == if NeedsPassed(g, s.states) then Outcome(passes, g) else Skipped
    {
      assert GateKept(passes, s, g);
      if s.states[g.id].Skipped? {
        var n := s.results[g.id].blockedBy[0];
        assert n in s.results[g.id].blockedBy;
      }
    }
  }

  /** A gate passes exactly when it and every gate it needs, directly or
      through other gates, pass on their own. */
  lemma PassedMeansAllReachedPass(gates: seq<Gate>, passes: Gate -> bool, v: States, g: Gate)
    requires Runnable(gates) && IsVerdict(gates, passes, v) && g in gates
    ensures v[g.id].Passed? <==> AllReachedPass(gates, passes, g.id)
  {
    if v[g.id].Passed? {
      forall h | h in gates && Reaches(NeedsById(gates), g.id, h.id)
        ensures passes(h)
      {
        var w :| IsWalk(NeedsById(gates), w) && w[0] == g.id && w[|w| - 1] == h.id;
        PassedSpreads(gates, passes, v, w);
      }
    } else {
      UnpassedReachesFailure(gates, passes, v, g.id);
    }
  }

  lemma UnpassedReachesFailure(gates: seq<Gate>, passes: Gate -> bool, v: States, id: string)
    requires Runnable(gates) && IsVerdict(gates, passes, v) && id in v && !v[id].Passed?
    ensures !AllReachedPass(gates, passes, id)
  {
    if AllReachedPass(gates, passes, id) {
      var wrong := set a | a in v && !v[a].Passed? && AllReachedPass(gates, passes, a);
      assert id in wrong;
      var h := MinimalGate(gates, wrong);
      ReachesSelf(NeedsById(gates), h.id);
      assert passes(h);
      var n :| n in h.needs && !(n in v && v[n].Passed?);
      ReachedFromNeed(gates, passes, h, n);
      assert false;
    }
  }

  lemma ReachedFromNeed(gates: seq<Gate>, passes: Gate -> bool, g: Gate, n: string)
    requires UniqueIds(gates) && KnownNeeds(gates) && g in gates && n in g.needs
    requires AllReachedPass(gates, passes, g.id)
    ensures AllReachedPass(gates, passes, n)
  {
    NeedIsEdge(gates, g, n);
    forall k | k in gates && Reaches(NeedsById(gates), n, k.id)
      ensures passes(k)
    {
      ReachesPrepend(NeedsById(gates), g.id, n, k.id);
    }
  }

  ghost predicate AllReachedPass(gates: seq<Gate>, passes: Gate -> bool, id: string) {
    forall h :: h in gates && Reaches(NeedsById(gates), id, h.id) ==> passes(h)
  }

  lemma {:induction false} PassedSpreads(gates: seq<Gate>, passes: Gate -> bool, v: States, w: seq<string>)
    requires Runnable(gates) && IsVerdict(gates, passes, v)
    requires IsWalk(NeedsById(gates), w) && w[0] in v && v[w[0]].Passed?
    ensures w[|w| - 1] in v && v[w[|w| - 1]].Passed?
    ensures forall h :: h in gates && h.id == w[|w| - 1] ==> passes(h)
  {
    var last := |w| - 1;
    if last > 0 {
      assert Edge(NeedsById(gates), w[last - 1], w[last]);
      PassedSpreads(gates, passes, v, w[..last]);
      var g := GateOf(gates, w[last - 1]);
      NeedIsEdge(gates, g, w[last]);
    }
  }

  // ---------------------------------------------------------------------
  // Confluence
  // ---------------------------------------------------------------------

  /** The states when only skipping is left: what passed or failed has done so,
      the rest is pending. */
  ghost function BeforeSkips(v: States): States {
    map id | id in v :: if v[id].Skipped? then Pending else v[id]
  }

  ghost function ResultsBeforeSkips(gates: seq<Gate>, passes: Gate -> bool, v: States): Results
    requires v.Keys == Ids(gates)
  {
    map id | id in v && !v[id].Skipped? :: var g := GateOf(gates, id); GateResult(g, Outcome(passes, g), [])
  }

  /** The skipping loop on its own, from a given state on. */
  ghost function SkipAll(gates: seq<Gate>, states: States, results: Results): (States, Results)
    requires UniqueIds(gates) && states.Keys == Ids(gates)
    decreases Work(gates, states)
  {
    var gate := FirstBlocked(gates, states);
    if gate.None? then (states, results)
    else
      WorkChange(gates, states, gate.value, Skipped);
      SkipAll(gates, states[gate.value.id := Skipped],
        results[gate.value.id := GateResult(gate.value, Skipped, Blockers(gate.value.needs, states))])
  }

  /** In a drained state a gate that has run stands as in the verdict, and one
      that has not is skipped in the verdict. */
  lemma DrainedAgrees(gates: seq<Gate>, passes: Gate -> bool, s: Scheduler, v: States, id: string)
    requires Runnable(gates) && GatesKept(gates, passes, s) && s.running == []
    requires forall g :: g in gates ==> !Ready(g, s.states)
    requires IsVerdict(gates, passes, v) && id in v
    ensures Agrees(s.states, v, id)
  {
    if !Agrees(s.states, v, id) {
      var wrong := set a | a in v && !Agrees(s.states, v, a);
      assert id in wrong;
      var g := MinimalGate(gates, wrong);
      GateAgrees(passes, s, v, g);
    }
  }

  ghost predicate Agrees(states: States, v: States, id: string) {
    id in states && id in v && v[id] == if states[id].Pending? then Skipped else states[id]
  }

  lemma GateAgrees(passes: Gate -> bool, s: Scheduler, v: States, g: Gate)
    requires g.id in s.states && g.id in v && GateKept(passes, s, g) && s.running == []
    requires !Ready(g, s.states)
    requires v[g.id] == if NeedsPassed(g, v) then Outcome(passes, g) else Skipped
    requires forall n :: n in g.needs ==> Agrees(s.states, v, n)
    ensures Agrees(s.states, v, g.id)
  {
    if s.states[g.id].Skipped? {
      assert s.results[g.id].blockedBy[0] in s.results[g.id].blockedBy;
    }
  }

  lemma {:induction false} DrainedRunsAgree(
    gates: seq<Gate>, maxActive: int, passes: Gate -> bool, events: seq<Event>, v: States)
    requires Runnable(gates) && maxActive >= 1 && IsVerdict(gates, passes, v)
    requires Run(gates, maxActive, passes, events).Some?
    requires Drained(gates, Run(gates, maxActive, passes, events).value)
    ensures var s := Run(gates, maxActive, passes, events).value;
      && s.states.Keys == Ids(gates)
      && SkipAll(gates, s.states, s.results) ==
         SkipAll(gates, BeforeSkips(v), ResultsBeforeSkips(gates, passes, v))
  {
    EveryRunKeeps(gates, maxActive, passes, events);
    var s := Run(gates, maxActive, passes, events).value;
    if id :| id in s.states && s.states[id].Skipped? {
      var earlier, e := events[..|events| - 1], events[|events| - 1];
      EveryRunKeeps(gates, maxActive, passes, earlier);
      var s0 := Run(gates, maxActive, passes, earlier).value;
      SkippedAfterSkip(gates, maxActive, passes, s0, e, id);
      DrainedRunsAgree(gates, maxActive, passes, earlier, v);
    } else {
      NothingSkippedYet(gates, passes, s, v);
    }
  }

  lemma SkippedAfterSkip(gates: seq<Gate>, maxActive: int, passes: Gate -> bool, s0: Scheduler, e: Event, id: string)
    requires Kept(gates, maxActive, passes, s0) && maxActive >= 1 && id in s0.states
    requires Next(gates, maxActive, passes, s0, e).Some?
    requires id in Next(gates, maxActive, passes, s0, e).value.states
    requires Next(gates, maxActive, passes, s0, e).value.states[id].Skipped?
    ensures e == Skip && Drained(gates, s0)
  {
  }

  lemma NothingSkippedYet(gates: seq<Gate>, passes: Gate -> bool, s: Scheduler, v: States)
    requires Runnable(gates) && GatesKept(gates, passes, s) && s.running == []
    requires forall g :: g in gates ==> !Ready(g, s.states)
    requires forall id :: id in s.results <==> id in s.states && Decided(s.states[id])
    requires IsVerdict(gates, passes, v)
    requires forall id :: id in s.states ==> !s.states[id].Skipped?
    ensures s.states == BeforeSkips(v)
    ensures s.results == ResultsBeforeSkips(gates, passes, v)
  {
    var results := ResultsBeforeSkips(gates, passes, v);
    forall id | id in s.states
      ensures Agrees(s.states, v, id) && !s.states[id].Running?
      ensures id in s.results <==> id in results
      ensures id in s.results ==> s.results[id] == results[id]
    {
      var g := GateOf(gates, id);
      DrainedAgrees(gates, passes, s, v, id);
    }
    assert forall id :: id in s.states ==> s.states[id] == BeforeSkips(v)[id];
    SameResults(s.states, s.results, results);
  }

  lemma SameResults(states: States, r: Results, r': Results)
    requires r.Keys <= states.Keys && r'.Keys <= states.Keys
    requires forall id :: id in states ==> (id in r <==> id in r') && (id in r ==> r[id] == r'[id])
    ensures r == r'
  {
  }

  /** Confluence: two complete runs of one gate list, with any worker limits
      and any settling orders, end in the same states with the same results,
      messages included. */
  lemma Confluence(gates: seq<Gate>, passes: Gate -> bool,
    maxActive1: int, events1: seq<Event>, maxActive2: int, events2: seq<Event>)
    requires Runnable(gates) && maxActive1 >= 1 && maxActive2 >= 1
    requires Run(gates, maxActive1, passes, events1).Some? && Run(gates, maxActive2, passes, events2).Some?
    requires Complete(Run(gates, maxActive1, passes, events1).value)
    requires Complete(Run(gates, maxActive2, passes, events2).value)
    ensures Run(gates, maxActive1, passes, events1).value.states == Run(gates, maxActive2, passes, events2).value.states
    ensures Run(gates, maxActive1, passes, events1).value.results == Run(gates, maxActive2, passes, events2).value.results
  {
    EveryRunKeeps(gates, maxActive1, passes, events1);
    EveryRunKeeps(gates, maxActive2, passes, events2);
    var s, t := Run(gates, maxActive1, passes, events1).value, Run(gates, maxActive2, passes, events2).value;
    CompleteIsVerdict(gates, maxActive1, passes, s);
    CompleteIsVerdict(gates, maxActive2, passes, t);
    VerdictUnique(gates, passes, s.states, t.states);
    CompleteIsDrained(gates, maxActive1, passes, s);
    CompleteIsDrained(gates, maxActive2, passes, t);
    DrainedRunsAgree(gates, maxActive1, passes, events1, s.states);
    DrainedRunsAgree(gates, maxActive2, passes, events2, s.states);
  }

  // ---------------------------------------------------------------------
  // The exit code
  // ---------------------------------------------------------------------

  predicate Blocking(result: GateResult) {
    !result.gate.allowFailure && Unsuccessful(result.status)
  }

  function ExitCode(results: seq<GateResult>): int {
    if exists r :: r in results && Blocking(r) then 1 else 0
  }

  /** The results in gate order, as `runGates` returns them. */
  ghost predicate InGateOrder(gates: seq<Gate>, s: Scheduler, results: seq<GateResult>) {
    |results| == |gates| &&
    forall i :: 0 <= i < |gates| ==> gates[i].id in s.results && results[i] == s.results[gates[i].id]
  }

  lemma ResultMeaning(gates: seq<Gate>, maxActive: int, passes: Gate -> bool, s: Scheduler, g: Gate)
    requires Runnable(gates) && Kept(gates, maxActive, passes, s) && Complete(s) && g in gates
    ensures g.id in s.results && s.results[g.id].gate == g && s.results[g.id].status == s.states[g.id]
    ensures Unsuccessful(s.states[g.id]) <==> !AllReachedPass(gates, passes, g.id)
  {
    CompleteIsVerdict(gates, maxActive, passes, s);
    assert GateKept(passes, s, g);
    PassedMeansAllReachedPass(gates, passes, s.states, g);
  }

  /** The process fails exactly when a gate that may not fail, or something it
      needs directly or indirectly, does not pass on its own: no schedule
      enters into it. */
  lemma ExitCodeMeaning(gates: seq<Gate>, maxActive: int, passes: Gate -> bool, events: seq<Event>, results: seq<GateResult>)
    requires Runnable(gates) && maxActive >= 1
    requires Run(gates, maxActive, passes, events).Some?
    requires Complete(Run(gates, maxActive, passes, events).value)
    requires InGateOrder(gates, Run(gates, maxActive, passes, events).value, results)
    ensures ExitCode(results) ==
            if forall g :: g in gates && !g.allowFailure ==> AllReachedPass(gates, passes, g.id) then 0 else 1
  {
    EveryRunKeeps(gates, maxActive, passes, events);
    var s := Run(gates, maxActive, passes, events).value;
    forall i | 0 <= i < |gates|
      ensures Blocking(results[i]) <==> !gates[i].allowFailure && !AllReachedPass(gates, passes, gates[i].id)
    {
      assert gates[i] in gates;
      ResultMeaning(gates, maxActive, passes, s, gates[i]);
    }
    if ExitCode(results) != 0 {
      var r :| r in results && Blocking(r);
      var i :| 0 <= i < |results| && results[i] == r;
      assert gates[i] in gates;
    }
    forall g | g in gates && ExitCode(results) == 0 && !g.allowFailure
      ensures AllReachedPass(gates, passes, g.id)
    {
      var i :| 0 <= i < |gates| && gates[i] == g;
      assert results[i] in results;
    }
  }
}
