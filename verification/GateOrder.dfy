/** In which order gates start and are reported, told by their places in the list
    alone: the first ready gate starts while a worker is free, a worker waits only
    when none is ready, and the first blocked gate is skipped. */
module GateOrder {
  import opened Wrappers
  import opened Sequences
  import opened GateGraph
  import opened GateScheduler

  // ---------------------------------------------------------------------
  // What one step does
  // ---------------------------------------------------------------------

  ghost predicate IsFirstReady(gates: seq<Gate>, states: States, k: int) {
    0 <= k < |gates| && Ready(gates[k], states) && forall j :: 0 <= j < k ==> !Ready(gates[j], states)
  }

  ghost predicate NoneReady(gates: seq<Gate>, states: States) {
    forall j :: 0 <= j < |gates| ==> !Ready(gates[j], states)
  }

  predicate IsSkippable(gate: Gate, states: States) {
    IsPending(gate, states) && exists n | n in gate.needs :: n in states && (states[n].Failed? || states[n].Skipped?)
  }

  ghost predicate IsFirstSkippable(gates: seq<Gate>, states: States, k: int) {
    && 0 <= k < |gates| && IsSkippable(gates[k], states)
    && forall j :: 0 <= j < k ==> !IsSkippable(gates[j], states)
  }

  function FailedOrSkipped(states: States): string -> bool {
    id => id in states && (states[id].Failed? || states[id].Skipped?)
  }

  ghost predicate IsStart(gates: seq<Gate>, s: Scheduler, k: int, t: Scheduler) {
    && IsFirstReady(gates, s.states, k)
    && t == Scheduler(s.states[gates[k].id := Running], s.running + [gates[k]], s.results,
                      s.started + [gates[k].id], s.observed)
  }

  ghost predicate IsSettle(passes: Gate -> bool, s: Scheduler, k: nat, t: Scheduler)
    requires k < |s.running|
  {
    var gate := s.running[k];
    var r := GateResult(gate, if passes(gate) then Passed else Failed, []);
    t == Scheduler(s.states[gate.id := r.status], s.running[..k] + s.running[k + 1..], s.results[gate.id := r],
                   s.started, s.observed + [r])
  }

  ghost predicate IsSkip(gates: seq<Gate>, s: Scheduler, k: int, blockers: seq<string>, t: Scheduler) {
    && IsFirstSkippable(gates, s.states, k) && Keeps(blockers, gates[k].needs, FailedOrSkipped(s.states))
    && var r := GateResult(gates[k], Skipped, blockers);
       t == Scheduler(s.states[gates[k].id := Skipped], s.running, s.results[gates[k].id := r],
                      s.started, s.observed + [r])
  }

  ghost predicate IsStep(gates: seq<Gate>, maxActive: int, passes: Gate -> bool, s: Scheduler, e: Event, t: Scheduler) {
    match e
    case Start => |s.running| < maxActive && exists k :: IsStart(gates, s, k, t)
    case Settle(k) =>
      k < |s.running| && (|s.running| >= maxActive || NoneReady(gates, s.states)) && IsSettle(passes, s, k, t)
    case Skip =>
      s.running == [] && NoneReady(gates, s.states) && exists k, blockers :: IsSkip(gates, s, k, blockers, t)
  }

  lemma {:induction false} FirstReadyPlace(gates: seq<Gate>, states: States) returns (k: int)
    ensures FirstReady(gates, states).Some? ==>
      IsFirstReady(gates, states, k) && gates[k] == FirstReady(gates, states).value
    ensures FirstReady(gates, states).None? ==> NoneReady(gates, states)
  {
    k := 0;
    if gates != [] && !Ready(gates[0], states) {
      k := FirstReadyPlace(gates[1..], states);
      k := k + 1;
      assert forall j :: 0 < j < |gates| ==> gates[j] == gates[1..][j - 1];
    }
  }

  lemma {:induction false} FirstBlockedPlace(gates: seq<Gate>, states: States) returns (k: int)
    requires FirstBlocked(gates, states).Some?
    ensures IsFirstSkippable(gates, states, k) && gates[k] == FirstBlocked(gates, states).value
  {
    k := 0;
    if !(IsPending(gates[0], states) && Blocked(gates[0], states)) {
      k := FirstBlockedPlace(gates[1..], states);
      k := k + 1;
      assert forall j :: 0 < j < |gates| ==> gates[j] == gates[1..][j - 1];
    }
  }

  lemma {:induction false} BlockersInOrder(needs: seq<string>, states: States)
    ensures Keeps(Blockers(needs, states), needs, FailedOrSkipped(states))
  {
    var keep := FailedOrSkipped(states);
    if needs == [] {
      KeepsNone(keep);
    } else {
      var rest := Blockers(needs[1..], states);
      BlockersInOrder(needs[1..], states);
      KeepsFirst(needs[0], rest, needs[1..], keep);
      OneMoreNeed(needs, states);
    }
  }

  lemma {:induction false} OneMoreNeed(needs: seq<string>, states: States)
    requires needs != []
    ensures needs == [needs[0]] + needs[1..]
    ensures Blockers(needs, states) == Picked(needs[0], FailedOrSkipped(states)) + Blockers(needs[1..], states)
  {
  }

  /** Each step of the machine, told without its own searches. */
  lemma StepMeaning(gates: seq<Gate>, maxActive: int, passes: Gate -> bool, s: Scheduler, e: Event, t: Scheduler)
    requires maxActive >= 1 && Next(gates, maxActive, passes, s, e) == Some(t)
    ensures IsStep(gates, maxActive, passes, s, e, t)
  {
    var ready := FirstReadyPlace(gates, s.states);
    match e
    case Start => assert IsStart(gates, s, ready, t);
    case Settle(k) =>
    case Skip =>
      var k := FirstBlockedPlace(gates, s.states);
      BlockersInOrder(gates[k].needs, s.states);
      assert IsSkip(gates, s, k, Blockers(gates[k].needs, s.states), t);
  }

  /** Every step of a run is such a step. */
  ghost predicate StepsInOrder(gates: seq<Gate>, maxActive: int, passes: Gate -> bool, events: seq<Event>) {
    forall i :: 0 <= i < |events| ==> IsStepOf(gates, maxActive, passes, events, i)
  }

  ghost predicate IsStepOf(gates: seq<Gate>, maxActive: int, passes: Gate -> bool, events: seq<Event>, i: int)
    requires 0 <= i < |events|
  {
    var before, after := Run(gates, maxActive, passes, events[..i]), Run(gates, maxActive, passes, events[..i + 1]);
    before.Some? && after.Some? && IsStep(gates, maxActive, passes, before.value, events[i], after.value)
  }

  lemma {:induction false} RunsStepInOrder(gates: seq<Gate>, maxActive: int, passes: Gate -> bool, events: seq<Event>)
    requires maxActive >= 1 && Run(gates, maxActive, passes, events).Some?
    ensures StepsInOrder(gates, maxActive, passes, events)
    decreases |events|
  {
    if events != [] {
      var earlier, last := events[..|events| - 1], |events| - 1;
      RunsStepInOrder(gates, maxActive, passes, earlier);
      var s, t := Run(gates, maxActive, passes, earlier).value, Run(gates, maxActive, passes, events).value;
      StepMeaning(gates, maxActive, passes, s, events[last], t);
      forall i | 0 <= i < |events|
        ensures IsStepOf(gates, maxActive, passes, events, i)
      {
        if i < last { StepOfEarlier(gates, maxActive, passes, events, i); } else { assert events[..i + 1] == events; }
      }
    }
  }

  lemma {:induction false} StepOfEarlier(gates: seq<Gate>, maxActive: int, passes: Gate -> bool, events: seq<Event>, i: int)
    requires 0 <= i < |events| - 1 && IsStepOf(gates, maxActive, passes, events[..|events| - 1], i)
    ensures IsStepOf(gates, maxActive, passes, events, i)
  {
    var earlier := events[..|events| - 1];
    assert earlier[..i] == events[..i] && earlier[..i + 1] == events[..i + 1];
  }

  // ---------------------------------------------------------------------
  // One worker
  // ---------------------------------------------------------------------

  ghost predicate SeenIn(observed: seq<GateResult>, id: string) {
    exists r :: r in observed && r.gate.id == id
  }

  ghost predicate PassedIn(observed: seq<GateResult>, id: string) {
    exists r :: r in observed && r.gate.id == id && r.status.Passed?
  }

  ghost predicate FailedIn(observed: seq<GateResult>, id: string) {
    exists r :: r in observed && r.gate.id == id && (r.status.Failed? || r.status.Skipped?)
  }

  ghost predicate CanRunAfter(gate: Gate, observed: seq<GateResult>) {
    !SeenIn(observed, gate.id) && forall n :: n in gate.needs ==> PassedIn(observed, n)
  }

  ghost predicate MustSkipAfter(gate: Gate, observed: seq<GateResult>) {
    !SeenIn(observed, gate.id) && exists n :: n in gate.needs && FailedIn(observed, n)
  }

  ghost predicate RunsNext(gates: seq<Gate>, observed: seq<GateResult>, k: int) {
    && 0 <= k < |gates| && CanRunAfter(gates[k], observed)
    && forall j :: 0 <= j < k ==> !CanRunAfter(gates[j], observed)
  }

  ghost predicate SkippedNext(gates: seq<Gate>, observed: seq<GateResult>, k: int) {
    && 0 <= k < |gates| && MustSkipAfter(gates[k], observed)
    && (forall j :: 0 <= j < k ==> !MustSkipAfter(gates[j], observed))
    && forall j :: 0 <= j < |gates| ==> !CanRunAfter(gates[j], observed)
  }

  /** The result is the one whose turn it is after those observed before. */
  ghost predicate IsNextResult(gates: seq<Gate>, observed: seq<GateResult>, r: GateResult) {
    exists k :: 0 <= k < |gates| && r.gate == gates[k] &&
      if r.status.Skipped? then SkippedNext(gates, observed, k) else RunsNext(gates, observed, k)
  }

  ghost predicate InTurn(gates: seq<Gate>, observed: seq<GateResult>) {
    forall p :: 0 <= p < |observed| ==> IsNextResult(gates, observed[..p], observed[p])
  }

  ghost predicate IsSerial(gates: seq<Gate>, s: Scheduler) {
    && InTurn(gates, s.observed)
    && (s.running != [] ==> |s.running| == 1 && exists k :: RunsNext(gates, s.observed, k) && gates[k] == s.running[0])
  }

  /** With nothing running, what is observed says where each gate stands. */
  lemma ObservedIsState(gates: seq<Gate>, maxActive: int, passes: Gate -> bool, s: Scheduler, id: string)
    requires UniqueIds(gates) && Kept(gates, maxActive, passes, s) && s.running == []
    ensures SeenIn(s.observed, id) <==> id in s.states && !s.states[id].Pending?
    ensures PassedIn(s.observed, id) <==> id in s.states && s.states[id].Passed?
    ensures FailedIn(s.observed, id) <==> id in s.states && Unsuccessful(s.states[id])
  {
    if id in s.states {
      var g := GateOf(gates, id);
      assert GateKept(passes, s, g);
      if Decided(s.states[id]) {
        assert s.results[id] in s.observed && s.results[id].gate.id == id && s.results[id].status == s.states[id];
      }
      forall r | r in s.observed && r.gate.id == id
        ensures Decided(s.states[id]) && r.status == s.states[id]
      {
        assert s.results[id] == r;
      }
    }
  }

  lemma ReadyIsRunnable(gates: seq<Gate>, maxActive: int, passes: Gate -> bool, s: Scheduler, g: Gate)
    requires UniqueIds(gates) && Kept(gates, maxActive, passes, s) && s.running == [] && g in gates
    ensures Ready(g, s.states) <==> CanRunAfter(g, s.observed)
    ensures IsSkippable(g, s.states) <==> MustSkipAfter(g, s.observed)
  {
    ObservedIsState(gates, maxActive, passes, s, g.id);
    forall n | n in g.needs
      ensures PassedIn(s.observed, n) <==> n in s.states && s.states[n].Passed?
      ensures FailedIn(s.observed, n) <==> n in s.states && Unsuccessful(s.states[n])
    {
      ObservedIsState(gates, maxActive, passes, s, n);
    }
  }

  lemma PlacesAgree(gates: seq<Gate>, maxActive: int, passes: Gate -> bool, s: Scheduler)
    requires UniqueIds(gates) && Kept(gates, maxActive, passes, s) && s.running == []
    ensures forall k :: IsFirstReady(gates, s.states, k) ==> RunsNext(gates, s.observed, k)
    ensures NoneReady(gates, s.states) ==>
      forall k :: IsFirstSkippable(gates, s.states, k) ==> SkippedNext(gates, s.observed, k)
  {
    forall j | 0 <= j < |gates|
      ensures Ready(gates[j], s.states) <==> CanRunAfter(gates[j], s.observed)
      ensures IsSkippable(gates[j], s.states) <==> MustSkipAfter(gates[j], s.observed)
    {
      ReadyIsRunnable(gates, maxActive, passes, s, gates[j]);
    }
  }

  lemma InTurnMore(gates: seq<Gate>, observed: seq<GateResult>, r: GateResult)
    requires InTurn(gates, observed) && IsNextResult(gates, observed, r)
    ensures InTurn(gates, observed + [r])
  {
    var all := observed + [r];
    forall p | 0 <= p < |all|
      ensures IsNextResult(gates, all[..p], all[p])
    {
      assert all[..p] == observed[..p];
      if p == |observed| { assert observed[..p] == observed; }
    }
  }

  lemma SerialNext(gates: seq<Gate>, passes: Gate -> bool, s: Scheduler, e: Event, t: Scheduler)
    requires UniqueIds(gates) && Kept(gates, 1, passes, s) && IsSerial(gates, s) && IsStep(gates, 1, passes, s, e, t)
    ensures IsSerial(gates, t)
  {
    match e
    case Start =>
      var k :| IsStart(gates, s, k, t);
      PlacesAgree(gates, 1, passes, s);
      assert RunsNext(gates, s.observed, k);
    case Settle(i) =>
      var k :| RunsNext(gates, s.observed, k) && gates[k] == s.running[0];
      var r := t.observed[|s.observed|];
      assert IsNextResult(gates, s.observed, r);
      InTurnMore(gates, s.observed, r);
    case Skip =>
      var k, blockers :| IsSkip(gates, s, k, blockers, t);
      PlacesAgree(gates, 1, passes, s);
      assert SkippedNext(gates, s.observed, k);
      InTurnMore(gates, s.observed, GateResult(gates[k], Skipped, blockers));
  }

  /** With one worker the results are observed in the one order that takes the
      first gate in the list that can run, and at the end the first that must be
      skipped. */
  lemma {:induction false} OneWorkerInTurn(gates: seq<Gate>, passes: Gate -> bool, events: seq<Event>)
    requires UniqueIds(gates) && Run(gates, 1, passes, events).Some?
    ensures IsSerial(gates, Run(gates, 1, passes, events).value)
    decreases |events|
  {
    if events != [] {
      var earlier, e := events[..|events| - 1], events[|events| - 1];
      OneWorkerInTurn(gates, passes, earlier);
      EveryRunKeeps(gates, 1, passes, earlier);
      var s, t := Run(gates, 1, passes, earlier).value, Run(gates, 1, passes, events).value;
      StepMeaning(gates, 1, passes, s, e, t);
      SerialNext(gates, passes, s, e, t);
    }
  }
}
