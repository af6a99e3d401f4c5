/** Who is signalled, and why: nobody without a shutdown, and after a request only what the request is for. */
module SupervisorSignals {
  import opened Common
  import opened Supervisor

  /** A step signals at most the living process it is aimed at, and a process ends only by itself. */
  lemma OnlyTheTargetIsSignalled(s: State, e: Event, c: nat)
    requires Enabled(s, e) && c in s.processes
    ensures c in Next(s, e).processes
    ensures var (before, after) := (s.processes[c], Next(s, e).processes[c]);
            && (after.alive <==> before.alive && e != Exit(c))
            && (after.terminated <==> before.terminated || (before.alive && Terminates(s, e, c)))
            && (after.killed <==> before.killed || (before.alive && Kills(s, e, c)))
  {
    NextProcesses(s, e);
    hide Next;
  }

  /** What one step does to the processes. */
  lemma NextProcesses(s: State, e: Event)
    requires Enabled(s, e)
    ensures Next(s, e).processes ==
              match e
              case Spawn(d) => s.processes[d := Process(true, false, false)]
              case Exit(d) => s.processes[d := s.processes[d].(alive := false)]
              case TerminateOwn(d) => Terminate(s, d).processes
              case TerminateOne(t) => Terminate(s, s.terminators[t].phase.batch[s.terminators[t].phase.k]).processes
              case KillOne(t) => Kill(s, s.terminators[t].phase.pending[s.terminators[t].phase.k]).processes
              case _ => s.processes
  {
    hide Terminate, Kill, AfterTerminating, AfterWaiting, AfterKilling, Unseen, Members;
  }

  /** A start call that terminates its own child, or a terminate_all call whose turn it is for that child. */
  ghost predicate Terminates(s: State, e: Event, c: nat)
    requires Enabled(s, e)
  {
    e == TerminateOwn(c)
    || (e.TerminateOne? && s.terminators[e.t].phase.batch[s.terminators[e.t].phase.k] == c)
  }

  ghost predicate Kills(s: State, e: Event, c: nat)
    requires Enabled(s, e)
  {
    e.KillOne? && s.terminators[e.t].phase.pending[s.terminators[e.t].phase.k] == c
  }

  /** Children spawned are new and alive, and untouched. */
  lemma SpawnedUntouched(s: State, c: nat)
    requires Enabled(s, Spawn(c))
    ensures Next(s, Spawn(c)).processes == s.processes[c := Process(true, false, false)]
  {}

  /** The list grows only at its end, by the child appended. */
  lemma ListGrowsAtItsEnd(s: State, e: Event)
    requires Enabled(s, e)
    ensures Next(s, e).children == if e.Append? then s.children + [e.child] else s.children
  {
    hide AfterTerminating, AfterWaiting, AfterKilling, Unseen, Members;
  }

  // ----- no shutdown, no signal

  /** Signals and doomed starts have a cause. */
  ghost predicate CauseInv(s: State) {
    !s.shutdown ==>
      && (forall c | c in s.processes :: !s.processes[c].terminated && !s.processes[c].killed)
      && (forall c | c in s.starts :: !s.starts[c].Doomed?)
  }

  /** Whoever signals has seen the flag. */
  lemma SignalsFollowShutdown(s: State, e: Event, c: nat)
    requires PhasesInv(s) && CauseInv(s) && Enabled(s, e) && (Terminates(s, e, c) || Kills(s, e, c))
    ensures s.shutdown
  {
    if e.TerminateOne? || e.KillOne? {
      assert PhaseInv(s, s.terminators[e.t].phase);
    }
  }

  /** Without the flag, a step dooms nobody and spawns children untouched. */
  lemma NewcomersUntouched(s: State, e: Event, c: nat)
    requires Enabled(s, e)
    ensures c in Next(s, e).starts && Next(s, e).starts[c].Doomed? ==>
              s.shutdown || (c in s.starts && s.starts[c].Doomed?)
    ensures c in Next(s, e).processes && c !in s.processes ==> Next(s, e).processes[c] == Process(true, false, false)
  {}

  lemma CauseStep(s: State, e: Event)
    requires PhasesInv(s) && CauseInv(s) && Enabled(s, e)
    ensures CauseInv(Next(s, e))
  {
    var u := Next(s, e);
    ShutdownExactlyWhen(s, e);
    hide Next, Enabled, PhasesInv, Terminates, Kills;
    forall c | c in u.processes ensures u.shutdown || (!u.processes[c].terminated && !u.processes[c].killed) {
      NewcomersUntouched(s, e, c);
      if c in s.processes {
        OnlyTheTargetIsSignalled(s, e, c);
        if Terminates(s, e, c) || Kills(s, e, c) {
          SignalsFollowShutdown(s, e, c);
        }
      }
    }
    forall c | c in u.starts ensures u.shutdown || !u.starts[c].Doomed? {
      NewcomersUntouched(s, e, c);
    }
  }

  lemma {:induction false} CauseRun(s: State, run: seq<Event>)
    requires Inv(s) && CauseInv(s) && Feasible(s, run)
    ensures CauseInv(Final(s, run))
    decreases |run|
  {
    if run != [] {
      CauseStep(s, run[0]);
      InvStep(s, run[0]);
      CauseRun(Next(s, run[0]), run[1..]);
    }
  }

  /** In every interleaving, as long as no shutdown was requested no process is signalled and no start call is doomed. */
  lemma NoSignalWithoutShutdown(s: State)
    requires Reachable(s) && !s.shutdown
    ensures forall c | c in s.processes :: !s.processes[c].terminated && !s.processes[c].killed
    ensures forall c | c in s.starts :: !s.starts[c].Doomed?
  {
    var run :| Feasible(IDLE, run) && s == Final(IDLE, run);
    CauseRun(IDLE, run);
  }

  /** The flag is set exactly by a request or by a terminate_all call, and stays set. */
  lemma ShutdownExactlyWhen(s: State, e: Event)
    requires Enabled(s, e)
    ensures Next(s, e).shutdown <==> s.shutdown || e.RequestShutdown? || e.SetFlag?
  {}

  // ----- what a request alone does

  /** A start call that was not past its append when the flag was set has not returned, or has handled its child. */
  ghost predicate Late(s: State, c: nat) {
    s.shutdown && (c in s.starts && s.starts[c].Started? ==> Handled(s, c))
  }

  lemma LateStep(s: State, e: Event, c: nat)
    requires ListInv(s) && Late(s, c) && Enabled(s, e)
    ensures Late(Next(s, e), c)
  {
    StepIsLater(s, e);
    hide ListInv;
    assert c in s.starts && s.starts[c].Started? ==> Handled(Next(s, e), c);
    if e == TerminateOwn(c) || e == Append(c) || e == Spawn(c) {
      LateStart(s, e, c);
    }
  }

  lemma LateStart(s: State, e: Event, c: nat)
    requires s.starts.Keys == s.processes.Keys && Enabled(s, e) && s.shutdown
    requires e == TerminateOwn(c) || e == Append(c) || e == Spawn(c)
    ensures c in Next(s, e).starts && Next(s, e).starts[c].Started? ==> Handled(Next(s, e), c)
  {}

  lemma {:induction false} LateRun(s: State, run: seq<Event>, c: nat)
    requires Inv(s) && Late(s, c) && Feasible(s, run)
    ensures Late(Final(s, run), c)
    decreases |run|
  {
    if run != [] {
      LateStep(s, run[0], c);
      InvStep(s, run[0]);
      hide Inv, Late, Next, Enabled;
      LateRun(Next(s, run[0]), run[1..], c);
    }
  }

  /**
   A request alone dooms later starts: once the flag is set, a start call that has not yet appended its child
   returns only with the child terminated or gone, whether or not anybody ever calls terminate_all.
   */
  lemma LateStartsAreHandled(s: State, run: seq<Event>, c: nat)
    requires Reachable(s) && s.shutdown && (c !in s.starts || !s.starts[c].Started?)
    requires Feasible(s, run) && c in Final(s, run).starts && Final(s, run).starts[c].Started?
    ensures Handled(Final(s, run), c)
  {
    ReachableInv(s);
    LateRun(s, run, c);
  }

  /** A request alone leaves running children alone: without terminate_all, a child whose start has returned is never signalled again. */
  lemma {:induction false} RequestSparesRunningChildren(s: State, run: seq<Event>, c: nat)
    requires Feasible(s, run) && s.terminators == map[] && forall k | 0 <= k < |run| :: !run[k].TerminateAll?
    requires c in s.starts && s.starts[c].Started? && c in s.processes
    ensures var t := Final(s, run);
            && c in t.processes
            && t.processes[c].terminated == s.processes[c].terminated && t.processes[c].killed == s.processes[c].killed
    decreases |run|
  {
    if run != [] {
      SparedStep(s, run[0], c);
      RequestSparesRunningChildren(Next(s, run[0]), run[1..], c);
    }
  }

  lemma SparedStep(s: State, e: Event, c: nat)
    requires Enabled(s, e) && s.terminators == map[] && !e.TerminateAll?
    requires c in s.starts && s.starts[c].Started? && c in s.processes
    ensures var u := Next(s, e);
            && u.terminators == map[] && c in u.starts && u.starts[c].Started? && c in u.processes
            && u.processes[c].terminated == s.processes[c].terminated && u.processes[c].killed == s.processes[c].killed
  {}

  // ----- start calls return

  /** What is left for a start call to do. */
  function RestOfStart(s: State, c: nat): seq<Event>
    requires c in s.starts
  {
    match s.starts[c]
    case Spawned => if s.shutdown then [Append(c), TerminateOwn(c)] else [Append(c)]
    case Doomed => [TerminateOwn(c)]
    case Started => []
  }

  /** Every start call can return by its own steps, with its child listed. */
  lemma StartsCanReturn(s: State, c: nat)
    requires Reachable(s) && c in s.starts
    ensures Feasible(s, RestOfStart(s, c))
    ensures var t := Final(s, RestOfStart(s, c)); c in t.starts && t.starts[c] == Started && c in t.children
  {
    ReachableInv(s);
    var run := RestOfStart(s, c);
    if |run| == 1 {
      assert run[1..] == [];
      assert Final(Next(s, run[0]), []) == Next(s, run[0]);
    } else if |run| == 2 {
      var u := Next(s, run[0]);
      assert run[1..] == [run[1]] && [run[1]][1..] == [];
      assert Final(Next(u, run[1]), []) == Next(u, run[1]);
      assert Final(u, [run[1]]) == Next(u, run[1]);
    }
  }

  /** Anyone may ask for a shutdown at any time, call terminate_all anew, spawn a new child, or exit. */
  lemma AlwaysPossible(s: State, c: nat, t: nat)
    ensures Enabled(s, RequestShutdown) && (Enabled(s, TerminateAll(t)) <==> t !in s.terminators)
    ensures Enabled(s, Spawn(c)) <==> c !in s.processes && c !in s.starts
    ensures Enabled(s, Exit(c)) <==> c in s.processes
  {}

  // ----- a pass takes its children in list order

  lemma UnseenOneMore(children: seq<nat>, c: nat, seen: set<nat>)
    ensures Unseen([], seen) == []
    ensures Unseen(children + [c], seen) == if c in seen then Unseen(children, seen) else Unseen(children, seen) + [c]
  {
    assert (children + [c])[..|children|] == children;
  }

  /** The batch of a list is that of its front followed by that of its back. */
  lemma {:induction false} UnseenInOrder(left: seq<nat>, right: seq<nat>, seen: set<nat>)
    ensures Unseen(left + right, seen) == Unseen(left, seen) + Unseen(right, seen)
  {
    hide *;
    if right == [] {
      UnseenOneMore([], 0, seen);
      assert left + right == left && Unseen(left, seen) + [] == Unseen(left, seen);
    } else {
      var n := |right| - 1;
      var front, c := right[..n], right[n];
      UnseenInOrder(left, front, seen);
      UnseenOneMore(front, c, seen);
      UnseenOneMore(left + front, c, seen);
      assert right == front + [c] && left + right == left + front + [c];
      assert Unseen(left, seen) + (Unseen(front, seen) + [c]) == Unseen(left, seen) + Unseen(front, seen) + [c];
    }
  }

  /** A single child is taken exactly when it has not been seen. */
  lemma UnseenOne(c: nat, seen: set<nat>)
    ensures Unseen([c], seen) == if c in seen then [] else [c]
  {
    assert [] + [c] == [c];
    UnseenOneMore([], c, seen);
  }
}
