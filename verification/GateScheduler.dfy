/** The scheduler's steps as a machine: start the first ready gate while a
    worker is free, otherwise let some running gate settle, and once nothing
    runs and nothing is ready, skip blocked gates.  Which running gate settles
    is the only choice; a schedule records the choices. */
module GateScheduler {
  import opened Wrappers
  import opened Sequences
  import opened GateGraph

  datatype GateState = Pending | Running | Passed | Failed | Skipped

  predicate Unsuccessful(state: GateState) {
    state.Failed? || state.Skipped?
  }

  predicate Decided(state: GateState) {
    state.Passed? || Unsuccessful(state)
  }

  type States = map<string, GateState>

  /** `blockedBy` is the list of ids in a skipped gate's message. */
  datatype GateResult = GateResult(gate: Gate, status: GateState, blockedBy: seq<string>)

  type Results = map<string, GateResult>

  datatype Scheduler = Scheduler(
    states: States, running: seq<Gate>, results: Results,
    started: seq<string>, observed: seq<GateResult>)

  datatype Event = Start | Settle(worker: nat) | Skip

  function Outcome(passes: Gate -> bool, gate: Gate): GateState {
    if passes(gate) then Passed else Failed
  }

  predicate NeedsPassed(gate: Gate, states: States) {
    forall n | n in gate.needs :: n in states && states[n].Passed?
  }

  predicate IsPending(gate: Gate, states: States) {
    gate.id in states && states[gate.id].Pending?
  }

  predicate Ready(gate: Gate, states: States) {
    IsPending(gate, states) && NeedsPassed(gate, states)
  }

  predicate IsBlocker(id: string, states: States) {
    id in states && Unsuccessful(states[id])
  }

  function Blockers(needs: seq<string>, states: States): (ids: seq<string>)
    ensures forall n :: n in ids <==> n in needs && IsBlocker(n, states)
  {
    if needs == [] then []
    else (if IsBlocker(needs[0], states) then [needs[0]] else []) + Blockers(needs[1..], states)
  }

  predicate Blocked(gate: Gate, states: States) {
    exists n :: n in gate.needs && IsBlocker(n, states)
  }

  /** The first ready gate in list order. */
  function FirstReady(gates: seq<Gate>, states: States): (found: Option<Gate>)
    ensures found.Some? ==> found.value in gates && Ready(found.value, states)
    ensures found.None? ==> forall g :: g in gates ==> !Ready(g, states)
  {
    if gates == [] then None
    else if Ready(gates[0], states) then Some(gates[0])
    else FirstReady(gates[1..], states)
  }

  /** The first gate in list order that is pending and has an unsuccessful need. */
  function FirstBlocked(gates: seq<Gate>, states: States): (found: Option<Gate>)
    ensures found.Some? ==> found.value in gates && IsPending(found.value, states) && Blocked(found.value, states)
    ensures found.None? ==> forall g :: g in gates ==> !(IsPending(g, states) && Blocked(g, states))
  {
    if gates == [] then None
    else if IsPending(gates[0], states) && Blocked(gates[0], states) then Some(gates[0])
    else FirstBlocked(gates[1..], states)
  }

  function Initial(gates: seq<Gate>): Scheduler {
    Scheduler(map g | g in Ids(gates) :: Pending, [], map[], [], [])
  }

  function DoStart(s: Scheduler, gate: Gate): Scheduler {
    s.(states := s.states[gate.id := Running], running := s.running + [gate], started := s.started + [gate.id])
  }

  function Without<T>(xs: seq<T>, k: nat): seq<T>
    requires k < |xs|
  {
    xs[..k] + xs[k + 1..]
  }

  function Record(s: Scheduler, result: GateResult): Scheduler {
    s.(states := s.states[result.gate.id := result.status],
       results := s.results[result.gate.id := result],
       observed := s.observed + [result])
  }

  function DoSettle(s: Scheduler, k: nat, passes: Gate -> bool): Scheduler
    requires k < |s.running|
  {
    var gate := s.running[k];
    Record(s, GateResult(gate, Outcome(passes, gate), [])).(running := Without(s.running, k))
  }

  function DoSkip(s: Scheduler, gate: Gate): Scheduler {
    Record(s, GateResult(gate, Skipped, Blockers(gate.needs, s.states)))
  }

  predicate CanStart(gates: seq<Gate>, maxActive: int, s: Scheduler) {
    |s.running| < maxActive && FirstReady(gates, s.states).Some?
  }

  /** One step; `None` when the event is not possible.  Waiting for a gate to
      settle happens only when nothing can start, and skipping only when also
      nothing runs. */
  function Next(gates: seq<Gate>, maxActive: int, passes: Gate -> bool, s: Scheduler, e: Event): Option<Scheduler> {
    match e
    case Start =>
      if CanStart(gates, maxActive, s) then Some(DoStart(s, FirstReady(gates, s.states).value)) else None
    case Settle(k) =>
      if k < |s.running| && !CanStart(gates, maxActive, s) then Some(DoSettle(s, k, passes)) else None
    case Skip =>
      var gate := FirstBlocked(gates, s.states);
      if s.running == [] && !CanStart(gates, maxActive, s) && gate.Some? then Some(DoSkip(s, gate.value)) else None
  }

  /** Where a schedule leads from the initial state, if every event of it is
      possible in its turn. */
  function Run(gates: seq<Gate>, maxActive: int, passes: Gate -> bool, events: seq<Event>): Option<Scheduler> {
    if events == [] then Some(Initial(gates))
    else
      var before := Run(gates, maxActive, passes, events[..|events| - 1]);
      if before.None? then None else Next(gates, maxActive, passes, before.value, events[|events| - 1])
  }

  predicate Complete(s: Scheduler) {
    forall id | id in s.states :: Decided(s.states[id])
  }

  // ---------------------------------------------------------------------
  // What every reachable state keeps
  // ---------------------------------------------------------------------

  ghost predicate GateKept(passes: Gate -> bool, s: Scheduler, g: Gate)
    requires g.id in s.states
  {
    match s.states[g.id]
    case Pending => true
    case Running => g in s.running && NeedsPassed(g, s.states)
    case Skipped =>
      && g.id in s.results && s.results[g.id].gate == g && s.results[g.id].status == Skipped
      && s.results[g.id].blockedBy != []
      && forall n :: n in s.results[g.id].blockedBy ==> n in g.needs && IsBlocker(n, s.states)
    case _ =>
      && NeedsPassed(g, s.states) && s.states[g.id] == Outcome(passes, g)
      && g.id in s.results && s.results[g.id] == GateResult(g, Outcome(passes, g), [])
  }

  /** Nothing runs and nothing is ready: only skipping is left. */
  ghost predicate Drained(gates: seq<Gate>, s: Scheduler) {
    s.running == [] && FirstReady(gates, s.states).None?
  }

  ghost predicate RunningKept(gates: seq<Gate>, maxActive: int, s: Scheduler) {
    && |s.running| <= maxActive
    && NoDuplicates(s.running)
    && forall g :: g in s.running ==> g in gates && g.id in s.states && s.states[g.id].Running?
  }

  /** A gate starts at most once; the started ones are those running or run. */
  ghost predicate StartedKept(states: States, started: seq<string>) {
    && NoDuplicates(started)
    && forall id :: id in started <==>
         id in states && (states[id].Running? || states[id].Passed? || states[id].Failed?)
  }

  /** Exactly the decided gates have a result, and each result is observed
      exactly once. */
  ghost predicate ResultsKept(states: States, results: Results, observed: seq<GateResult>) {
    && (forall id :: id in results <==> id in states && Decided(states[id]))
    && (forall i, j :: 0 <= i < j < |observed| ==> observed[i].gate.id != observed[j].gate.id)
    && (forall r :: r in observed ==> r.gate.id in results && results[r.gate.id] == r)
    && (forall id :: id in results ==> results[id] in observed)
  }

  ghost predicate SkippingIsLast(gates: seq<Gate>, s: Scheduler) {
    (exists id :: id in s.states && s.states[id].Skipped?) ==> Drained(gates, s)
  }

  ghost predicate GatesKept(gates: seq<Gate>, passes: Gate -> bool, s: Scheduler) {
    && s.states.Keys == Ids(gates)
    && forall g :: g in gates ==> GateKept(passes, s, g)
  }

  ghost predicate Kept(gates: seq<Gate>, maxActive: int, passes: Gate -> bool, s: Scheduler) {
    && GatesKept(gates, passes, s)
    && RunningKept(gates, maxActive, s)
    && StartedKept(s.states, s.started)
    && ResultsKept(s.states, s.results, s.observed)
    && SkippingIsLast(gates, s)
  }

  lemma SameId(gates: seq<Gate>, g: Gate, h: Gate)
    requires UniqueIds(gates) && g in gates && h in gates && g.id == h.id
    ensures g == h
  {
  }

  lemma RecordKeepsResults(s: Scheduler, r: GateResult)
    requires ResultsKept(s.states, s.results, s.observed)
    requires r.gate.id in s.states && !Decided(s.states[r.gate.id]) && Decided(r.status)
    ensures var s' := Record(s, r); ResultsKept(s'.states, s'.results, s'.observed)
  {
    var s' := Record(s, r);
    forall id | id in s'.results
      ensures s'.results[id] in s'.observed
    {
      if id == r.gate.id { assert s'.observed[|s.observed|] == r; }
    }
  }

  lemma StartKeepsGates(gates: seq<Gate>, passes: Gate -> bool, s: Scheduler, gate: Gate)
    requires UniqueIds(gates) && GatesKept(gates, passes, s) && gate in gates && Ready(gate, s.states)
    ensures GatesKept(gates, passes, DoStart(s, gate))
  {
    var s' := DoStart(s, gate);
    forall g | g in gates
      ensures GateKept(passes, s', g)
    {
      assert GateKept(passes, s, g);
      if g.id == gate.id {
        SameId(gates, g, gate);
        assert s'.running[|s.running|] == gate;
      }
    }
  }

  lemma StartKeeps(gates: seq<Gate>, maxActive: int, passes: Gate -> bool, s: Scheduler, gate: Gate)
    requires UniqueIds(gates) && Kept(gates, maxActive, passes, s) && gate in gates
    requires |s.running| < maxActive && Ready(gate, s.states) && !Drained(gates, s)
    ensures Kept(gates, maxActive, passes, DoStart(s, gate))
  {
    StartKeepsGates(gates, passes, s, gate);
  }

  lemma WithoutKeeps(running: seq<Gate>, k: nat, g: Gate)
    requires k < |running| && NoDuplicates(running)
    ensures NoDuplicates(Without(running, k))
    ensures g in Without(running, k) <==> g in running && g != running[k]
  {
    if g in running && g != running[k] {
      var i :| 0 <= i < |running| && running[i] == g;
      assert Without(running, k)[if i < k then i else i - 1] == g;
    }
  }

  lemma SettleKeepsRunning(gates: seq<Gate>, maxActive: int, s: Scheduler, k: nat, passes: Gate -> bool)
    requires UniqueIds(gates) && RunningKept(gates, maxActive, s) && k < |s.running|
    ensures RunningKept(gates, maxActive, DoSettle(s, k, passes))
  {
    var gate, s' := s.running[k], DoSettle(s, k, passes);
    WithoutKeeps(s.running, k, gate);
    forall g | g in s'.running
      ensures g in gates && g.id in s'.states && s'.states[g.id].Running?
    {
      WithoutKeeps(s.running, k, g);
      if g.id == gate.id { SameId(gates, g, gate); }
    }
  }

  lemma SettleKeepsGates(gates: seq<Gate>, maxActive: int, passes: Gate -> bool, s: Scheduler, k: nat)
    requires UniqueIds(gates) && GatesKept(gates, passes, s) && RunningKept(gates, maxActive, s) && k < |s.running|
    ensures GatesKept(gates, passes, DoSettle(s, k, passes))
  {
    var gate, s' := s.running[k], DoSettle(s, k, passes);
    assert gate in s.running && gate in gates;
    forall g | g in gates
      ensures GateKept(passes, s', g)
    {
      assert GateKept(passes, s, g);
      WithoutKeeps(s.running, k, g);
      if g.id == gate.id { SameId(gates, g, gate); }
    }
  }

  lemma SettleKeeps(gates: seq<Gate>, maxActive: int, passes: Gate -> bool, s: Scheduler, k: nat)
    requires UniqueIds(gates) && Kept(gates, maxActive, passes, s)
    requires k < |s.running|
    ensures Kept(gates, maxActive, passes, DoSettle(s, k, passes))
  {
    var gate := s.running[k];
    assert gate in s.running && s.states[gate.id].Running?;
    SettleKeepsGates(gates, maxActive, passes, s, k);
    SettleKeepsRunning(gates, maxActive, s, k, passes);
    RecordKeepsResults(s, GateResult(gate, Outcome(passes, gate), []));
  }

  lemma SkipKeepsDrained(gates: seq<Gate>, s: Scheduler, gate: Gate)
    requires Drained(gates, s) && IsPending(gate, s.states)
    ensures Drained(gates, DoSkip(s, gate))
  {
    forall g | g in gates
      ensures !Ready(g, DoSkip(s, gate).states)
    {
    }
  }

  lemma SkipKeepsGates(gates: seq<Gate>, passes: Gate -> bool, s: Scheduler, gate: Gate)
    requires UniqueIds(gates) && GatesKept(gates, passes, s) && gate in gates
    requires IsPending(gate, s.states) && Blocked(gate, s.states)
    ensures GatesKept(gates, passes, DoSkip(s, gate))
  {
    var s' := DoSkip(s, gate);
    forall g | g in gates
      ensures GateKept(passes, s', g)
    {
      assert GateKept(passes, s, g);
      if g.id == gate.id {
        SameId(gates, g, gate);
        var n :| n in g.needs && IsBlocker(n, s.states);
        assert n in Blockers(g.needs, s.states);
      }
    }
  }

  lemma SkipKeepsStarted(states: States, started: seq<string>, id: string)
    requires StartedKept(states, started) && id in states && states[id].Pending?
    ensures StartedKept(states[id := Skipped], started)
  {
  }

  lemma SkipKeeps(gates: seq<Gate>, maxActive: int, passes: Gate -> bool, s: Scheduler, gate: Gate)
    requires UniqueIds(gates) && Kept(gates, maxActive, passes, s) && gate in gates
    requires Drained(gates, s) && IsPending(gate, s.states) && Blocked(gate, s.states)
    ensures Kept(gates, maxActive, passes, DoSkip(s, gate))
  {
    SkipKeepsGates(gates, passes, s, gate);
    SkipKeepsDrained(gates, s, gate);
    SkipKeepsStarted(s.states, s.started, gate.id);
    RecordKeepsResults(s, GateResult(gate, Skipped, Blockers(gate.needs, s.states)));
  }

  lemma NextKeeps(gates: seq<Gate>, maxActive: int, passes: Gate -> bool, s: Scheduler, e: Event)
    requires UniqueIds(gates) && maxActive >= 1 && Kept(gates, maxActive, passes, s)
    requires Next(gates, maxActive, passes, s, e).Some?
    ensures Kept(gates, maxActive, passes, Next(gates, maxActive, passes, s, e).value)
  {
    match e
    case Start => StartKeeps(gates, maxActive, passes, s, FirstReady(gates, s.states).value);
    case Settle(k) => SettleKeeps(gates, maxActive, passes, s, k);
    case Skip => SkipKeeps(gates, maxActive, passes, s, FirstBlocked(gates, s.states).value);
  }

  /** Safety over every run: never more than `maxActive` gates run, each gate
      starts at most once and only with all its needs passed, and each settled
      or skipped gate has one result, observed once. */
  lemma {:induction false} EveryRunKeeps(gates: seq<Gate>, maxActive: int, passes: Gate -> bool, events: seq<Event>)
    requires UniqueIds(gates) && maxActive >= 1
    requires Run(gates, maxActive, passes, events).Some?
    ensures Kept(gates, maxActive, passes, Run(gates, maxActive, passes, events).value)
  {
    if events != [] {
      var earlier, e := events[..|events| - 1], events[|events| - 1];
      EveryRunKeeps(gates, maxActive, passes, earlier);
      NextKeeps(gates, maxActive, passes, Run(gates, maxActive, passes, earlier).value, e);
    }
  }
}
