/** `runGates` itself: the loops that drive the scheduler.  The gate the race
    picks is an arbitrary running one; the recorded events show that each loop
    turn is a step of the machine. */
module RunGates {
  import opened Wrappers
  import opened Sequences
  import opened GateGraph
  import opened GateScheduler
  import opened GateOrder
  import opened GateConfluence

  const MAX_SAFE_INTEGER := 0x1F_FFFF_FFFF_FFFF

  datatype RunError = InvalidGraph(error: GraphError) | BadConcurrency(maxActive: int)

  /** The gates still pending, in list order. */
  function PendingOf(gates: seq<Gate>, states: States): seq<Gate> {
    if gates == [] then []
    else if IsPending(gates[0], states) then [gates[0]] + PendingOf(gates[1..], states)
    else PendingOf(gates[1..], states)
  }

  lemma {:induction false} PendingMember(gates: seq<Gate>, states: States, g: Gate)
    ensures g in PendingOf(gates, states) <==> g in gates && IsPending(g, states)
  {
    if gates != [] { PendingMember(gates[1..], states, g); }
  }

  /** Searching the pending gates for a blocked one is searching all gates for
      a pending blocked one. */
  lemma {:induction false} BlockedAmongPending(gates: seq<Gate>, states: States)
    ensures FirstBlocked(PendingOf(gates, states), states) == FirstBlocked(gates, states)
  {
    if gates != [] {
      BlockedAmongPending(gates[1..], states);
      if IsPending(gates[0], states) {
        var rest := PendingOf(gates[1..], states);
        assert ([gates[0]] + rest)[1..] == rest;
      }
    }
  }

  function WithoutGate(gates: seq<Gate>, gate: Gate): seq<Gate> {
    if gates == [] then []
    else if gates[0] != gate then [gates[0]] + WithoutGate(gates[1..], gate)
    else WithoutGate(gates[1..], gate)
  }

  lemma {:induction false} NoLongerPending(gates: seq<Gate>, states: States, gate: Gate, x: GateState)
    requires forall g :: g in gates && g.id == gate.id ==> g == gate
    requires !x.Pending?
    ensures PendingOf(gates, states[gate.id := x]) == WithoutGate(PendingOf(gates, states), gate)
  {
    if gates != [] {
      NoLongerPending(gates[1..], states, gate, x);
      assert gates[0].id == gate.id ==> gates[0] == gate;
      if IsPending(gates[0], states) {
        var rest := PendingOf(gates[1..], states);
        assert ([gates[0]] + rest)[1..] == rest;
      }
    }
  }

  lemma ObservedOnceEach(gates: seq<Gate>, maxActive: int, passes: Gate -> bool, s: Scheduler, results: seq<GateResult>)
    requires Runnable(gates) && Kept(gates, maxActive, passes, s) && Complete(s) && InGateOrder(gates, s, results)
    ensures multiset(s.observed) == multiset(results)
  {
    forall i | 0 <= i < |results|
      ensures results[i].gate == gates[i] && results[i] in s.observed
    {
      assert gates[i] in gates;
      ResultMeaning(gates, maxActive, passes, s, gates[i]);
    }
    forall r | r in s.observed
      ensures r in results
    {
      var g := GateOf(gates, r.gate.id);
      var i :| 0 <= i < |gates| && gates[i] == g;
      assert results[i] == r;
    }
    SameMembers(s.observed, results);
  }

  ghost predicate Reached(gates: seq<Gate>, maxActive: int, passes: Gate -> bool, events: seq<Event>, s: Scheduler) {
    Run(gates, maxActive, passes, events) == Some(s) && |events| <= 2 * |gates|
  }

  lemma ReachedNext(gates: seq<Gate>, maxActive: int, passes: Gate -> bool, events: seq<Event>, s: Scheduler, e: Event, s': Scheduler)
    requires UniqueIds(gates) && maxActive >= 1 && Reached(gates, maxActive, passes, events, s)
    requires Next(gates, maxActive, passes, s, e) == Some(s')
    ensures Reached(gates, maxActive, passes, events + [e], s')
  {
    RunThenNext(gates, maxActive, passes, events, e);
    RunsEnd(gates, maxActive, passes, events + [e]);
  }

  /** While a gate is pending the skipping loop finds one to skip: the stall
      it guards against cannot happen. */
  lemma {:induction false} SkipFindsGate(gates: seq<Gate>, maxActive: int, passes: Gate -> bool, events: seq<Event>, s: Scheduler)
    requires Runnable(gates) && maxActive >= 1 && Reached(gates, maxActive, passes, events, s)
    requires Drained(gates, s) && PendingOf(gates, s.states) != []
    ensures FirstBlocked(PendingOf(gates, s.states), s.states).Some?
    ensures var gate := FirstBlocked(PendingOf(gates, s.states), s.states).value; var s' := DoSkip(s, gate);
      && Reached(gates, maxActive, passes, events + [Skip], s') && Drained(gates, s')
      && PendingOf(gates, s'.states) == WithoutGate(PendingOf(gates, s.states), gate)
  {
    EveryRunKeeps(gates, maxActive, passes, events);
    PendingMember(gates, s.states, PendingOf(gates, s.states)[0]);
    DrainedHasBlocked(gates, maxActive, passes, s);
    BlockedAmongPending(gates, s.states);
    var gate := FirstBlocked(gates, s.states).value;
    ReachedNext(gates, maxActive, passes, events, s, Skip, DoSkip(s, gate));
    SkipKeepsDrained(gates, s, gate);
    forall g | g in gates && g.id == gate.id
      ensures g == gate
    {
      SameId(gates, g, gate);
    }
    NoLongerPending(gates, s.states, gate, Skipped);
  }

  lemma NonePendingIsComplete(gates: seq<Gate>, maxActive: int, passes: Gate -> bool, events: seq<Event>, s: Scheduler)
    requires Runnable(gates) && maxActive >= 1 && Reached(gates, maxActive, passes, events, s)
    requires Drained(gates, s) && PendingOf(gates, s.states) == []
    ensures Complete(s) && forall g :: g in gates ==> g.id in s.results
  {
    EveryRunKeeps(gates, maxActive, passes, events);
    forall id | id in s.states
      ensures Decided(s.states[id])
    {
      var g := GateOf(gates, id);
      assert GateKept(passes, s, g);
      PendingMember(gates, s.states, g);
    }
  }

  lemma EndedWell(gates: seq<Gate>, maxActive: int, passes: Gate -> bool, events: seq<Event>, end: Scheduler, ordered: seq<GateResult>)
    requires Runnable(gates) && maxActive >= 1 && Reached(gates, maxActive, passes, events, end)
    requires Complete(end) && InGateOrder(gates, end, ordered)
    ensures IsVerdict(gates, passes, end.states)
    ensures multiset(end.observed) == multiset(ordered)
  {
    EveryRunKeeps(gates, maxActive, passes, events);
    CompleteIsVerdict(gates, maxActive, passes, end);
    ObservedOnceEach(gates, maxActive, passes, end, ordered);
  }

  /** Runs a gate list.  `passes` gives each gate's outcome, `maxActive` the
      number of workers.  Results come back in gate order; `started` and
      `observed` are the orders in which gates started and were reported. */
  method Execute(gates: seq<Gate>, maxActive: int, passes: Gate -> bool)
    returns (r: Result<seq<GateResult>, RunError>, started: seq<string>, observed: seq<GateResult>, ghost events: seq<Event>)
    ensures r.Success? <==> Runnable(gates) && 1 <= maxActive <= MAX_SAFE_INTEGER
    ensures r.Failure? ==> started == [] && observed == [] && events == []
    ensures r.Failure? && r.error.InvalidGraph? ==> Justified(r.error.error, gates)
    ensures r.Failure? && r.error.BadConcurrency? ==> Runnable(gates) && r.error.maxActive == maxActive
    ensures r.Success? ==> Run(gates, maxActive, passes, events).Some?
    ensures r.Success? ==>
      var end := Run(gates, maxActive, passes, events).value;
      && Complete(end) && IsVerdict(gates, passes, end.states) && InGateOrder(gates, end, r.value)
      && started == end.started && observed == end.observed
    ensures r.Success? ==> StepsInOrder(gates, maxActive, passes, events)
    ensures r.Success? && maxActive == 1 ==> InTurn(gates, observed)
    ensures r.Success? ==> multiset(observed) == multiset(r.value)
  {
    started, observed, events := [], [], [];
    var invalid := ValidateGateGraph(gates);
    if invalid.Some? {
      r := Failure(InvalidGraph(invalid.value));
      return;
    }
    if maxActive < 1 || maxActive > MAX_SAFE_INTEGER {
      r := Failure(BadConcurrency(maxActive));
      return;
    }
    var states: States := map id | id in Ids(gates) :: Pending;
    var results: Results := map[];
    var running: seq<Gate> := [];
    while true
      invariant Reached(gates, maxActive, passes, events, Scheduler(states, running, results, started, observed))
      decreases 2 * |gates| - |events|
    {
      var madeProgress := false;
      ghost var eventsBefore := |events|;
      while |running| < maxActive
        invariant Reached(gates, maxActive, passes, events, Scheduler(states, running, results, started, observed))
        invariant if madeProgress then eventsBefore < |events| else eventsBefore == |events|
        decreases 2 * |gates| - |events|
      {
        var ready := FirstReady(gates, states);
        if ready.None? { break; }
        ghost var s := Scheduler(states, running, results, started, observed);
        ReachedNext(gates, maxActive, passes, events, s, Start, DoStart(s, ready.value));
        states := states[ready.value.id := Running];
        running := running + [ready.value];
        started := started + [ready.value.id];
        events := events + [Start];
        madeProgress := true;
      }
      if running == [] {
        states, results, observed, events :=
          SkipBlocked(gates, maxActive, passes, states, results, observed, started, events);
        break;
      }
      if !madeProgress {
        var k :| 0 <= k < |running|;
        var gate := running[k];
        var result := GateResult(gate, if passes(gate) then Passed else Failed, []);
        ghost var s := Scheduler(states, running, results, started, observed);
        ReachedNext(gates, maxActive, passes, events, s, Settle(k), DoSettle(s, k, passes));
        running := running[..k] + running[k + 1..];
        states := states[gate.id := result.status];
        results := results[gate.id := result];
        observed, events := observed + [result], events + [Settle(k)];
      }
    }
    var ordered := seq(|gates|, i requires 0 <= i < |gates| => results[gates[i].id]);
    EndedWell(gates, maxActive, passes, events, Scheduler(states, running, results, started, observed), ordered);
    RunsStepInOrder(gates, maxActive, passes, events);
    if maxActive == 1 { OneWorkerInTurn(gates, passes, events); }
    r := Success(ordered);
  }

  /** The skipping loop of `runGates`, entered once nothing is running and
      nothing is ready. */
  method SkipBlocked(gates: seq<Gate>, maxActive: int, passes: Gate -> bool,
                     states0: States, results0: Results, observed0: seq<GateResult>,
                     ghost started: seq<string>, ghost events0: seq<Event>)
    returns (states: States, results: Results, observed: seq<GateResult>, ghost events: seq<Event>)
    requires Runnable(gates) && maxActive >= 1
    requires Reached(gates, maxActive, passes, events0, Scheduler(states0, [], results0, started, observed0))
    requires FirstReady(gates, states0).None?
    ensures Reached(gates, maxActive, passes, events, Scheduler(states, [], results, started, observed))
    ensures Complete(Scheduler(states, [], results, started, observed))
    ensures forall g :: g in gates ==> g.id in results
  {
    states, results, observed, events := states0, results0, observed0, events0;
    var pending := PendingOf(gates, states);
    while |pending| > 0
      invariant Reached(gates, maxActive, passes, events, Scheduler(states, [], results, started, observed))
      invariant FirstReady(gates, states).None? && pending == PendingOf(gates, states)
      decreases 2 * |gates| - |events|
    {
      SkipFindsGate(gates, maxActive, passes, events, Scheduler(states, [], results, started, observed));
      var gate := FirstBlocked(pending, states).value;
      var result := GateResult(gate, Skipped, Blockers(gate.needs, states));
      states := states[gate.id := Skipped];
      results := results[gate.id := result];
      observed, events := observed + [result], events + [Skip];
      pending := WithoutGate(pending, gate);
    }
    NonePendingIsComplete(gates, maxActive, passes, events, Scheduler(states, [], results, started, observed));
  }
}
