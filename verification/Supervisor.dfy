/**
 The launcher's process supervisor. `start` appends its child and reads the shutdown flag under
 one lock; `terminate_all` sets the flag outside the lock and then scans the list under it. Each
 lock region, each signal and each existence check is one event, so a run is any interleaving
 of start calls, shutdown requests, terminate_all calls and processes that exit on their own.
 */
module Supervisor {
  import opened Common

  /** A child's process group: whether it still exists, and which signals it was sent. */
  datatype Process = Process(alive: bool, terminated: bool, killed: bool)

  /** A call of `start`, named by the child it spawns. */
  datatype Start =
    | Spawned      // the process runs, the list does not hold it yet
    | Doomed       // appended, and the flag was already set
    | Started      // the call has returned

  /** A call of `terminate_all`; `done` are the children of its finished passes. */
  datatype Phase =
    | Called
    | Scanning(done: set<nat>)
    | Terminating(done: set<nat>, batch: seq<nat>, k: nat)
    | Waiting(done: set<nat>, batch: seq<nat>, k: nat, pending: seq<nat>)
    | Killing(done: set<nat>, batch: seq<nat>, pending: seq<nat>, k: nat)
    | Returned(done: set<nat>)

  /** `passes` and `steps` are history. */
  datatype Terminator = Terminator(phase: Phase, passes: nat, steps: nat)

  datatype State = State(
    shutdown: bool,
    processes: map<nat, Process>,
    children: seq<nat>,
    starts: map<nat, Start>,
    terminators: map<nat, Terminator>)

  datatype Event =
    | Spawn(child: nat)
    | Append(child: nat)
    | TerminateOwn(child: nat)
    | Exit(child: nat)
    | RequestShutdown
    | TerminateAll(t: nat)
    | SetFlag(t: nat)
    | Scan(t: nat)
    | TerminateOne(t: nat)
    | WaitOne(t: nat)
    | KillOne(t: nat)

  const IDLE := State(false, map[], [], map[], map[])

  /** The listed children that a pass has not seen, in list order. */
  function Unseen(children: seq<nat>, seen: set<nat>): (batch: seq<nat>)
    ensures forall c :: c in batch <==> c in children && c !in seen
  {
    if children == [] then []
    else
      var n := |children| - 1;
      var before := Unseen(children[..n], seen);
      assert children == children[..n] + [children[n]];
      if children[n] in seen then before else before + [children[n]]
  }

  predicate At(s: State, t: nat) {
    t in s.terminators
  }

  predicate Enabled(s: State, e: Event) {
    match e
    case Spawn(c) => c !in s.processes && c !in s.starts
    case Append(c) => c in s.starts && s.starts[c].Spawned?
    case TerminateOwn(c) => c in s.starts && s.starts[c].Doomed?
    case Exit(c) => c in s.processes
    case RequestShutdown => true
    case TerminateAll(t) => t !in s.terminators
    case SetFlag(t) => At(s, t) && s.terminators[t].phase.Called?
    case Scan(t) => At(s, t) && s.terminators[t].phase.Scanning?
    case TerminateOne(t) =>
      At(s, t) && s.terminators[t].phase.Terminating? && s.terminators[t].phase.k < |s.terminators[t].phase.batch|
    case WaitOne(t) =>
      At(s, t) && s.terminators[t].phase.Waiting? && s.terminators[t].phase.k < |s.terminators[t].phase.batch|
    case KillOne(t) =>
      At(s, t) && s.terminators[t].phase.Killing? && s.terminators[t].phase.k < |s.terminators[t].phase.pending|
  }

  /** SIGTERM; a process group that is gone raises ProcessLookupError, which is ignored. */
  function Terminate(s: State, c: nat): State {
    if c in s.processes && s.processes[c].alive
    then s.(processes := s.processes[c := s.processes[c].(terminated := true)]) else s
  }

  function Kill(s: State, c: nat): State {
    if c in s.processes && s.processes[c].alive
    then s.(processes := s.processes[c := s.processes[c].(killed := true)]) else s
  }

  function Go(s: State, t: nat, phase: Phase, newPass: bool): State
    requires At(s, t)
  {
    var before := s.terminators[t];
    s.(terminators := s.terminators[t := Terminator(phase, before.passes + (if newPass then 1 else 0), before.steps + 1)])
  }

  function Members(batch: seq<nat>): set<nat> {
    set c | c in batch
  }

  predicate Alive(s: State, c: nat) {
    c in s.processes && s.processes[c].alive
  }

  function AfterTerminating(done: set<nat>, batch: seq<nat>, k: nat): Phase {
    if k < |batch| then Terminating(done, batch, k) else Waiting(done, batch, 0, [])
  }

  function AfterWaiting(done: set<nat>, batch: seq<nat>, k: nat, pending: seq<nat>): Phase {
    if k < |batch| then Waiting(done, batch, k, pending) else AfterKilling(done, batch, pending, 0)
  }

  function AfterKilling(done: set<nat>, batch: seq<nat>, pending: seq<nat>, k: nat): Phase {
    if k < |pending| then Killing(done, batch, pending, k) else Scanning(done + Members(batch))
  }

  function Next(s: State, e: Event): State
    requires Enabled(s, e)
  {
    match e
    case Spawn(c) =>
      s.(processes := s.processes[c := Process(true, false, false)], starts := s.starts[c := Spawned])
    case Append(c) =>
      s.(children := s.children + [c], starts := s.starts[c := if s.shutdown then Doomed else Started])
    case TerminateOwn(c) => Terminate(s, c).(starts := s.starts[c := Started])
    case Exit(c) => s.(processes := s.processes[c := s.processes[c].(alive := false)])
    case RequestShutdown => s.(shutdown := true)
    case TerminateAll(t) => s.(terminators := s.terminators[t := Terminator(Called, 0, 0)])
    case SetFlag(t) => Go(s, t, Scanning({}), false).(shutdown := true)
    case Scan(t) =>
      var done := s.terminators[t].phase.done;
      var batch := Unseen(s.children, done);
      if batch == [] then Go(s, t, Returned(done), false) else Go(s, t, Terminating(done, batch, 0), true)
    case TerminateOne(t) =>
      var p := s.terminators[t].phase;
      Go(Terminate(s, p.batch[p.k]), t, AfterTerminating(p.done, p.batch, p.k + 1), false)
    case WaitOne(t) =>
      var p := s.terminators[t].phase;
      var pending := if Alive(s, p.batch[p.k]) then p.pending + [p.batch[p.k]] else p.pending;
      Go(s, t, AfterWaiting(p.done, p.batch, p.k + 1, pending), false)
    case KillOne(t) =>
      var p := s.terminators[t].phase;
      Go(Kill(s, p.pending[p.k]), t, AfterKilling(p.done, p.batch, p.pending, p.k + 1), false)
  }

  ghost predicate Feasible(s: State, run: seq<Event>)
    decreases |run|
  {
    run == [] || (Enabled(s, run[0]) && Feasible(Next(s, run[0]), run[1..]))
  }

  ghost function Final(s: State, run: seq<Event>): State
    requires Feasible(s, run)
    decreases |run|
  {
    if run == [] then s else Final(Next(s, run[0]), run[1..])
  }

  // ----- the invariant

  /** Sent SIGTERM, or already gone. */
  predicate Handled(s: State, c: nat) {
    c in s.processes && (s.processes[c].terminated || !s.processes[c].alive)
  }

  /** Gone, or sent SIGKILL. */
  predicate Finished(s: State, c: nat) {
    c in s.processes && (s.processes[c].killed || !s.processes[c].alive)
  }

  ghost predicate Distinct(xs: seq<nat>) {
    forall i, j | 0 <= i < j < |xs| :: xs[i] != xs[j]
  }

  ghost predicate ListInv(s: State) {
    && s.starts.Keys == s.processes.Keys
    && Distinct(s.children)
    && (forall c :: c in s.children <==> c in s.starts && !s.starts[c].Spawned?)
  }

  /** Which children a terminate_all call has signalled, and what it still owes the rest. */
  ghost predicate PhaseInv(s: State, phase: Phase) {
    match phase
    case Called => true
    case Scanning(done) => s.shutdown && forall c | c in done :: c in s.children && Handled(s, c) && Finished(s, c)
    case Returned(done) => s.shutdown && forall c | c in done :: c in s.children && Handled(s, c) && Finished(s, c)
    case Terminating(done, batch, k) =>
      && s.shutdown && k < |batch| && Distinct(batch)
      && (forall c | c in done :: c in s.children && Handled(s, c) && Finished(s, c))
      && (forall c | c in batch :: c in s.children && c !in done)
      && (forall i | 0 <= i < k :: Handled(s, batch[i]))
    case Waiting(done, batch, k, pending) =>
      && s.shutdown && k < |batch| && |pending| <= k && Distinct(batch)
      && (forall c | c in done :: c in s.children && Handled(s, c) && Finished(s, c))
      && (forall c | c in batch :: c in s.children && c !in done && Handled(s, c))
      && (forall i | 0 <= i < k :: Finished(s, batch[i]) || batch[i] in pending)
      && (forall c | c in pending :: c in batch)
    case Killing(done, batch, pending, k) =>
      && s.shutdown && k < |pending| <= |batch| && Distinct(batch)
      && (forall c | c in done :: c in s.children && Handled(s, c) && Finished(s, c))
      && (forall c | c in batch :: c in s.children && c !in done && Handled(s, c))
      && (forall c | c in batch :: Finished(s, c) || c in pending[k..])
      && (forall c | c in pending :: c in batch)
  }

  ghost predicate PhasesInv(s: State) {
    forall t | t in s.terminators :: PhaseInv(s, s.terminators[t].phase)
  }

  /** Once any terminate_all has returned, every listed child is handled or about to be. */
  ghost predicate ShutdownInv(s: State) {
    forall t, c | t in s.terminators && s.terminators[t].phase.Returned? && c in s.children ::
      Handled(s, c) || (c in s.starts && s.starts[c].Doomed?)
  }

  /** Own steps so far are paid for by the children seen so far. */
  predicate CostInv(terminator: Terminator) {
    match terminator.phase
    case Called => terminator.passes == 0 && terminator.steps == 0
    case Scanning(done) => terminator.passes <= |done| && terminator.steps <= 1 + 4 * |done|
    case Returned(done) => terminator.passes <= |done| && terminator.steps <= 2 + 4 * |done|
    case Terminating(done, batch, k) => terminator.passes <= |done| + 1 && terminator.steps <= 2 + 4 * |done| + k
    case Waiting(done, batch, k, _) =>
      terminator.passes <= |done| + 1 && terminator.steps <= 2 + 4 * |done| + |batch| + k
    case Killing(done, batch, _, k) =>
      terminator.passes <= |done| + 1 && terminator.steps <= 2 + 4 * |done| + 2 * |batch| + k
  }

  ghost predicate CostsInv(s: State) {
    forall t | t in s.terminators :: CostInv(s.terminators[t])
  }

  /** SIGKILL is sent only to a process that was sent SIGTERM. */
  ghost predicate KillInv(s: State) {
    forall c | c in s.processes :: s.processes[c].killed ==> s.processes[c].terminated
  }

  ghost predicate Inv(s: State) {
    ListInv(s) && PhasesInv(s) && ShutdownInv(s) && CostsInv(s) && KillInv(s)
  }

  /** Signals, exits and appends never undo what a phase has established. */
  ghost predicate Later(s: State, u: State) {
    && (s.shutdown ==> u.shutdown)
    && (forall c | c in s.children :: c in u.children)
    && (forall c | Handled(s, c) :: Handled(u, c))
    && (forall c | Finished(s, c) :: Finished(u, c))
  }

  /** A process that has exited or was signalled stays so. */
  lemma ProcessIsLater(s: State, e: Event, c: nat)
    requires Enabled(s, e) && c in s.processes
    ensures c in Next(s, e).processes
    ensures var (before, after) := (s.processes[c], Next(s, e).processes[c]);
            && (after.alive ==> before.alive)
            && (before.terminated ==> after.terminated)
            && (before.killed ==> after.killed)
  {}

  lemma ListIsLater(s: State, e: Event)
    requires Enabled(s, e)
    ensures s.shutdown ==> Next(s, e).shutdown
    ensures forall c | c in s.children :: c in Next(s, e).children
  {}

  lemma StepIsLater(s: State, e: Event)
    requires Enabled(s, e)
    ensures Later(s, Next(s, e))
  {
    hide Next, Enabled;
    ListIsLater(s, e);
    forall c | c in s.processes
      ensures Handled(s, c) ==> Handled(Next(s, e), c)
      ensures Finished(s, c) ==> Finished(Next(s, e), c)
    {
      ProcessIsLater(s, e, c);
    }
  }

  lemma PhaseSurvives(s: State, u: State, phase: Phase)
    requires Later(s, u) && PhaseInv(s, phase)
    ensures PhaseInv(u, phase)
  {}

  lemma {:induction false} UnseenIsDistinct(children: seq<nat>, seen: set<nat>)
    requires Distinct(children)
    ensures Distinct(Unseen(children, seen))
  {
    if children != [] {
      UnseenIsDistinct(children[..|children| - 1], seen);
    }
  }

  /** Only Spawn, Append and TerminateOwn touch the list or the start calls. */
  lemma ListUntouched(s: State, e: Event)
    requires Enabled(s, e) && !e.Spawn? && !e.Append? && !e.TerminateOwn?
    ensures Next(s, e).children == s.children && Next(s, e).starts == s.starts
    ensures Next(s, e).processes.Keys == s.processes.Keys
  {}

  lemma ListTouched(s: State, e: Event)
    requires ListInv(s) && Enabled(s, e) && (e.Spawn? || e.Append? || e.TerminateOwn?)
    ensures ListInv(Next(s, e))
  {}

  lemma ListStep(s: State, e: Event)
    requires ListInv(s) && Enabled(s, e)
    ensures ListInv(Next(s, e))
  {
    if e.Spawn? || e.Append? || e.TerminateOwn? {
      ListTouched(s, e);
    } else {
      ListUntouched(s, e);
      hide Next;
      assert ListInv(Next(s, e));
    }
  }

  predicate Acts(e: Event) {
    e.SetFlag? || e.Scan? || e.TerminateOne? || e.WaitOne? || e.KillOne?
  }

  lemma FlagPhase(s: State, t: nat)
    requires Enabled(s, SetFlag(t))
    ensures PhaseInv(Next(s, SetFlag(t)), Next(s, SetFlag(t)).terminators[t].phase)
  {}

  lemma ScanPhase(s: State, t: nat)
    requires ListInv(s) && Enabled(s, Scan(t)) && PhaseInv(s, s.terminators[t].phase)
    ensures PhaseInv(Next(s, Scan(t)), Next(s, Scan(t)).terminators[t].phase)
  {
    StepIsLater(s, Scan(t));
    UnseenIsDistinct(s.children, s.terminators[t].phase.done);
  }

  lemma TerminatePhase(s: State, t: nat)
    requires Enabled(s, TerminateOne(t)) && PhaseInv(s, s.terminators[t].phase)
    requires forall c | c in s.children :: c in s.processes
    ensures PhaseInv(Next(s, TerminateOne(t)), Next(s, TerminateOne(t)).terminators[t].phase)
  {
    var u, p := Next(s, TerminateOne(t)), s.terminators[t].phase;
    StepIsLater(s, TerminateOne(t));
    assert p.batch[p.k] in p.batch;
    assert Handled(u, p.batch[p.k]);
    assert forall i | 0 <= i < p.k + 1 :: Handled(u, p.batch[i]);
  }

  lemma WaitPhase(s: State, t: nat)
    requires Enabled(s, WaitOne(t)) && PhaseInv(s, s.terminators[t].phase)
    ensures PhaseInv(Next(s, WaitOne(t)), Next(s, WaitOne(t)).terminators[t].phase)
  {
    var u, p := Next(s, WaitOne(t)), s.terminators[t].phase;
    assert u.processes == s.processes && u.children == s.children;
    assert p.batch[p.k] in p.batch && Handled(s, p.batch[p.k]);
    var pending := if Alive(s, p.batch[p.k]) then p.pending + [p.batch[p.k]] else p.pending;
    assert pending[0..] == pending;
    PendingGrows(s, p.batch, p.k, p.pending, pending);
    hide Alive;
  }

  /** Every child waited for so far has finished or is pending. */
  lemma PendingGrows(s: State, batch: seq<nat>, k: nat, before: seq<nat>, after: seq<nat>)
    requires k < |batch| && batch[k] in s.processes
    requires forall i | 0 <= i < k :: Finished(s, batch[i]) || batch[i] in before
    requires forall c | c in before :: c in batch
    requires after == if Alive(s, batch[k]) then before + [batch[k]] else before
    ensures forall i | 0 <= i < k + 1 :: Finished(s, batch[i]) || batch[i] in after
    ensures forall c | c in after :: c in batch
  {}

  lemma KillPhase(s: State, t: nat)
    requires Enabled(s, KillOne(t)) && PhaseInv(s, s.terminators[t].phase)
    ensures PhaseInv(Next(s, KillOne(t)), Next(s, KillOne(t)).terminators[t].phase)
  {
    var u, p := Next(s, KillOne(t)), s.terminators[t].phase;
    StepIsLater(s, KillOne(t));
    assert p.pending[p.k..] == [p.pending[p.k]] + p.pending[p.k + 1..];
    forall c | c in p.batch ensures Finished(u, c) || c in p.pending[p.k + 1..] {
      assert Handled(s, c);
      assert Finished(s, c) || c in p.pending[p.k..];
    }
  }

  /** The call that acts establishes its next phase. */
  lemma ActingPhase(s: State, e: Event)
    requires ListInv(s) && PhasesInv(s) && Enabled(s, e) && Acts(e)
    ensures PhaseInv(Next(s, e), Next(s, e).terminators[e.t].phase)
  {
    assert forall c | c in s.children :: c in s.processes;
    assert PhaseInv(s, s.terminators[e.t].phase);
    hide PhaseInv;
    match e
    case SetFlag(t) => FlagPhase(s, t);
    case Scan(t) => ScanPhase(s, t);
    case TerminateOne(t) => TerminatePhase(s, t);
    case WaitOne(t) => WaitPhase(s, t);
    case KillOne(t) => KillPhase(s, t);
  }

  lemma PhasesStep(s: State, e: Event)
    requires ListInv(s) && PhasesInv(s) && Enabled(s, e)
    ensures PhasesInv(Next(s, e))
  {
    var u := Next(s, e);
    StepIsLater(s, e);
    forall t | t in u.terminators ensures PhaseInv(u, u.terminators[t].phase) {
      OneCallMoves(s, e, t);
      if Acts(e) && t == e.t {
        ActingPhase(s, e);
      } else if t in s.terminators && u.terminators[t] == s.terminators[t] {
        assert PhaseInv(s, s.terminators[t].phase);
        PhaseSurvives(s, u, s.terminators[t].phase);
      } else {
        assert u.terminators[t].phase == Called;
      }
    }
  }

  /** A start call that saw the flag stays due until it has terminated its own child. */
  lemma DoomedUntilHandled(s: State, e: Event, c: nat)
    requires ListInv(s) && Enabled(s, e) && c in s.starts && s.starts[c].Doomed?
    ensures var u := Next(s, e);
            Handled(u, c) || (c in u.starts && u.starts[c].Doomed?)
  {}

  /** A child appended once the flag is set is doomed. */
  lemma LateChildIsDoomed(s: State, e: Event, c: nat)
    requires Enabled(s, e) && s.shutdown && c in Next(s, e).children && c !in s.children
    ensures c in Next(s, e).starts && Next(s, e).starts[c].Doomed?
  {}

  /** A call returns by a scan that finds no child it has not seen. */
  lemma ReturnsHavingSeenAll(s: State, e: Event, t: nat)
    requires Enabled(s, e) && t in Next(s, e).terminators && Next(s, e).terminators[t].phase.Returned?
    requires t in s.terminators ==> !s.terminators[t].phase.Returned?
    ensures t in s.terminators && s.terminators[t].phase.Scanning?
    ensures forall c | c in Next(s, e).children :: c in s.terminators[t].phase.done
  {}

  /** A call that scans or has returned has handled every child it is done with. */
  lemma DoneAreHandled(s: State, t: nat)
    requires PhasesInv(s) && t in s.terminators
    requires s.terminators[t].phase.Scanning? || s.terminators[t].phase.Returned?
    ensures s.shutdown && forall c | c in s.terminators[t].phase.done :: Handled(s, c)
  {
    assert PhaseInv(s, s.terminators[t].phase);
  }

  lemma ShutdownStep(s: State, e: Event)
    requires ListInv(s) && PhasesInv(s) && ShutdownInv(s) && Enabled(s, e)
    ensures ShutdownInv(Next(s, e))
  {
    var u := Next(s, e);
    StepIsLater(s, e);
    hide Next, Enabled, Handled, Finished, ListInv, PhasesInv, PhaseInv;
    forall t, c | t in u.terminators && u.terminators[t].phase.Returned? && c in u.children
      ensures Handled(u, c) || (c in u.starts && u.starts[c].Doomed?)
    {
      if t !in s.terminators || !s.terminators[t].phase.Returned? {
        ReturnsHavingSeenAll(s, e, t);
        DoneAreHandled(s, t);
      } else if c !in s.children {
        DoneAreHandled(s, t);
        LateChildIsDoomed(s, e, c);
      } else if !Handled(s, c) {
        DoomedUntilHandled(s, e, c);
      }
    }
  }

  lemma {:induction false} DistinctCardinality(xs: seq<nat>)
    requires Distinct(xs)
    ensures |Members(xs)| == |xs|
  {
    if xs != [] {
      var n := |xs| - 1;
      DistinctCardinality(xs[..n]);
      assert Members(xs) == Members(xs[..n]) + {xs[n]};
    }
  }

  lemma EarlyCost(s: State, e: Event)
    requires Enabled(s, e) && (e.SetFlag? || e.Scan? || e.TerminateOne?) && CostInv(s.terminators[e.t])
    ensures CostInv(Next(s, e).terminators[e.t])
  {}

  lemma LateCost(s: State, e: Event)
    requires Enabled(s, e) && (e.WaitOne? || e.KillOne?) && CostInv(s.terminators[e.t])
    requires var p := s.terminators[e.t].phase;
             |p.done + Members(p.batch)| == |p.done| + |p.batch| && |p.pending| <= |p.batch| && p.batch != []
    ensures CostInv(Next(s, e).terminators[e.t])
  {}

  lemma DisjointUnion(done: set<nat>, batch: seq<nat>)
    requires Distinct(batch) && forall c | c in batch :: c !in done
    ensures |done + Members(batch)| == |done| + |batch|
  {
    DistinctCardinality(batch);
    assert done !! Members(batch);
  }

  lemma ActingCost(s: State, e: Event)
    requires Enabled(s, e) && Acts(e)
    requires CostInv(s.terminators[e.t]) && PhaseInv(s, s.terminators[e.t].phase)
    ensures CostInv(Next(s, e).terminators[e.t])
  {
    if e.WaitOne? || e.KillOne? {
      DisjointUnion(s.terminators[e.t].phase.done, s.terminators[e.t].phase.batch);
      hide Next, CostInv;
      LateCost(s, e);
    } else {
      hide Next, CostInv;
      EarlyCost(s, e);
    }
  }

  /** A step changes at most the terminate_all call that takes it. */
  lemma OneCallMoves(s: State, e: Event, t: nat)
    requires Enabled(s, e) && t in Next(s, e).terminators
    ensures || (Acts(e) && t == e.t)
            || Next(s, e).terminators[t] == Terminator(Called, 0, 0)
            || (t in s.terminators && Next(s, e).terminators[t] == s.terminators[t])
  {}

  lemma CostsStep(s: State, e: Event)
    requires PhasesInv(s) && CostsInv(s) && Enabled(s, e)
    ensures CostsInv(Next(s, e))
  {
    var u := Next(s, e);
    forall t | t in u.terminators ensures CostInv(u.terminators[t]) {
      OneCallMoves(s, e, t);
      hide Next, CostInv, PhaseInv, ShutdownInv, ListInv;
      if Acts(e) && t == e.t {
        ActingCost(s, e);
      } else if t in s.terminators {
        assert CostInv(s.terminators[t]);
      }
    }
  }

  lemma KillStep(s: State, e: Event)
    requires PhasesInv(s) && KillInv(s) && Enabled(s, e)
    ensures KillInv(Next(s, e))
  {
    if e.KillOne? {
      var p := s.terminators[e.t].phase;
      assert PhaseInv(s, p);
      assert p.pending[p.k] in p.pending;
      assert Handled(s, p.pending[p.k]);
    }
  }

  lemma InvStep(s: State, e: Event)
    requires Inv(s) && Enabled(s, e)
    ensures Inv(Next(s, e))
  {
    ListStep(s, e);
    PhasesStep(s, e);
    ShutdownStep(s, e);
    CostsStep(s, e);
    KillStep(s, e);
  }

  lemma {:induction false} InvRun(s: State, run: seq<Event>)
    requires Inv(s) && Feasible(s, run)
    ensures Inv(Final(s, run))
    decreases |run|
  {
    if run != [] {
      InvStep(s, run[0]);
      InvRun(Next(s, run[0]), run[1..]);
    }
  }

  ghost predicate Reachable(s: State) {
    exists run :: Feasible(IDLE, run) && s == Final(IDLE, run)
  }

  lemma ReachableInv(s: State)
    requires Reachable(s)
    ensures Inv(s)
  {
    var run :| Feasible(IDLE, run) && s == Final(IDLE, run);
    InvRun(IDLE, run);
  }

  // ----- the guarantees

  /**
   No child escapes shutdown: once some terminate_all has returned, every child whose start call has
   returned was sent SIGTERM or was already gone, whatever other start calls are still in progress; so
   once none is in progress, this holds of every process ever spawned.
   */
  lemma NoChildEscapes(s: State, t: nat)
    requires Reachable(s) && t in s.terminators && s.terminators[t].phase.Returned?
    ensures forall c | c in s.starts && s.starts[c].Started? :: Handled(s, c)
    ensures (forall c | c in s.starts :: s.starts[c].Started?) ==> forall c | c in s.processes :: Handled(s, c)
  {
    ReachableInv(s);
    forall c | c in s.starts && s.starts[c].Started? ensures Handled(s, c) {
      assert c in s.children;
    }
  }

  /** Every child that a returned terminate_all handled was gone, or was sent SIGKILL after its wait. */
  lemma HandledChildrenAreFinished(s: State, t: nat, c: nat)
    requires Reachable(s) && t in s.terminators && s.terminators[t].phase.Returned?
    requires c in s.terminators[t].phase.done
    ensures Handled(s, c) && Finished(s, c)
  {
    ReachableInv(s);
    assert PhaseInv(s, s.terminators[t].phase);
  }

  /** In every interleaving, no process is killed before it was asked to terminate. */
  lemma NoKillBeforeTerminate(s: State, c: nat)
    requires Reachable(s) && c in s.processes && s.processes[c].killed
    ensures s.processes[c].terminated
  {
    ReachableInv(s);
  }

  lemma SeenAreChildren(s: State, seen: set<nat>)
    requires ListInv(s) && forall c | c in seen :: c in s.children
    ensures |seen| <= |s.children|
  {
    DistinctCardinality(s.children);
    SubsetCardinality(seen, Members(s.children));
  }

  /**
   The scan loop terminates: in every run a terminate_all call takes at most one pass per child
   and at most 4n + 2 steps for n children, and until it returns it can always take its next step.
   */
  lemma TerminateAllTerminates(s: State, t: nat)
    requires Reachable(s) && t in s.terminators
    ensures s.terminators[t].passes <= |s.children|
    ensures s.terminators[t].steps <= 4 * |s.children| + 2
    ensures s.terminators[t].phase.Returned?
            || exists e :: e in {SetFlag(t), Scan(t), TerminateOne(t), WaitOne(t), KillOne(t)} && Enabled(s, e)
  {
    ReachableInv(s);
    var p := s.terminators[t].phase;
    assert PhaseInv(s, p) && CostInv(s.terminators[t]);
    match p
    case Called => assert Enabled(s, SetFlag(t));
    case Scanning(done) => SeenAreChildren(s, done); assert Enabled(s, Scan(t));
    case Returned(done) => SeenAreChildren(s, done);
    case Terminating(done, batch, _) => BatchFits(s, done, batch); assert Enabled(s, TerminateOne(t));
    case Waiting(done, batch, _, _) => BatchFits(s, done, batch); assert Enabled(s, WaitOne(t));
    case Killing(done, batch, _, _) => BatchFits(s, done, batch); assert Enabled(s, KillOne(t));
  }

  lemma BatchFits(s: State, done: set<nat>, batch: seq<nat>)
    requires ListInv(s) && Distinct(batch)
    requires forall c | c in done :: c in s.children
    requires forall c | c in batch :: c in s.children && c !in done
    ensures |done| + |batch| <= |s.children|
  {
    DisjointUnion(done, batch);
    SeenAreChildren(s, done + Members(batch));
  }
}
