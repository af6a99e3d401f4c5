/** What each caller of the refresh protocol is told, exactly, in terms of the key sets installed and the fetches made. */
module JwksReplies {
  import opened Common
  import opened JwksRefresh
  import opened JwksRefreshProofs

  /** Before the gate: a caller is answered exactly from an unexpired newest set that has its key. */
  lemma FastReadExactlyWhen(s: State, c: nat)
    requires Reachable(s) && Enabled(s, FastRead(c))
    ensures s.installs != []
    ensures var newest, kid := Newest(s).jwks, s.callers[c].kid;
            ReplyTo(s, FastRead(c))
            == if kid in newest.keys && s.clock < newest.expiresAt then Answer(newest.keys[kid]) else NoReply
  {
    ReachableInv(s);
  }

  /** The newest set came from a refresh that was completed less than a second ago. */
  ghost predicate JustCompleted(s: State) {
    && |s.installs| > 1 && Newest(s).completed.Some?
    && s.clock < Newest(s).completed.value + 1_000_000_000
  }

  /** A fetch that began less than 30 s ago has failed. */
  ghost predicate FailedLately(s: State) {
    exists i | 0 <= i < |s.log| :: s.log[i].status.Failed? && s.clock < s.log[i].begun + 30_000_000_000
  }

  /**
   At the gate, the whole decision: the newest set answers while it is fresh or just completed; without the key
   it settles the matter for 30 s while fresh and for 1 s in any case; otherwise a failure within 30 s
   refuses the caller, and only without one does it refresh.
   */
  lemma DecisionExactlyWhen(s: State, c: nat)
    requires Reachable(s) && Enabled(s, Decide(c))
    ensures s.installs != [] && Newest(s).completed.Some?
    ensures var newest, kid := Newest(s).jwks, s.callers[c].kid;
            var unexpired, known := s.clock < newest.expiresAt, kid in newest.keys;
            ReplyTo(s, Decide(c))
            == if known && (unexpired || JustCompleted(s)) then Answer(newest.keys[kid])
               else if !known && (JustCompleted(s) || (unexpired && s.clock < Newest(s).completed.value + 30_000_000_000))
               then Refused(Unknown)
               else if FailedLately(s) then Refused(BackingOff)
               else NoReply
    ensures ReplyTo(s, Decide(c)) == NoReply <==>
              c in Next(s, Decide(c)).callers && Next(s, Decide(c)).callers[c].phase == Committed
  {
    ReachableInv(s);
    BackoffExactlyWhen(s, c);
    hide SpacingInv, LogInv, FlightInv, AttemptInv, BackoffInv, FailedLately;
  }

  /** For a gated caller the backoff stands exactly when a recent fetch has failed. */
  lemma BackoffExactlyWhen(s: State, c: nat)
    requires Inv(s) && c in s.callers && s.callers[c].phase.Gated?
    ensures Pending(s.refresh.retryAfter, s.clock) <==> FailedLately(s)
  {
    hide LogInv, FlightInv, CacheInv;
    if FailedLately(s) {
      var i :| 0 <= i < |s.log| && s.log[i].status.Failed? && s.clock < s.log[i].begun + 30_000_000_000;
      assert Passed(s.log[i], s.clock) || Enforced(s, s.log[i]);
    }
  }

  /** The caller whose fetch succeeded is told what the newest set, its own, says of its key. */
  lemma CompletionExactlyWhen(s: State, c: nat)
    requires Reachable(s) && Enabled(s, Complete(c))
    ensures s.installs != [] && s.callers[c].phase.fetched == Newest(s).jwks
    ensures var newest, kid := Newest(s).jwks, s.callers[c].kid;
            ReplyTo(s, Complete(c)) == if kid in newest.keys then Answer(newest.keys[kid]) else Refused(Unknown)
  {
    ReachableInv(s);
    assert AttemptOk(s, s.callers[c].phase);
  }

  /** A failed fetch, and a second of waiting for the gate, are refused as such. */
  lemma OtherRefusals(s: State, c: nat)
    ensures Enabled(s, FetchFails(c)) ==> ReplyTo(s, FetchFails(c)) == Refused(FetchError)
    ensures Enabled(s, TimeOut(c)) ==> ReplyTo(s, TimeOut(c)) == Refused(BackingOff)
    ensures Enabled(s, FastRead(c)) && ReplyTo(s, FastRead(c)) == NoReply ==>
              && c in Next(s, FastRead(c)).callers
              && Next(s, FastRead(c)).callers[c].phase == Queued(s.clock + 1_000_000_000)
    ensures c in s.callers && s.callers[c].phase.Queued? ==>
              (Enabled(s, TimeOut(c)) <==> s.callers[c].phase.deadline <= s.clock)
  {}

  /** A caller leaves exactly by the step of its own that replies to it, or by its cancellation. */
  lemma RepliesOnceOnLeaving(s: State, e: Event, c: nat)
    requires Enabled(s, e) && c in s.callers
    ensures c !in Next(s, e).callers <==> IsStepOf(e, c) && (e.Cancel? || ReplyTo(s, e) != NoReply)
  {}

  /**
   Nobody waits but for the gate: a caller takes its next step at any time, the gate whenever it is free, and
   a fetch may fail or bring any keys; a future can be dropped exactly where it awaits.
   */
  lemma StepsPossible(s: State, c: nat, keys: map<string, Key>, ttl: nat)
    requires c in s.callers
    ensures var phase := s.callers[c].phase;
            && (Enabled(s, FastRead(c)) <==> phase == Arrived)
            && (Enabled(s, Acquire(c)) <==> phase.Queued? && s.gate == None)
            && (Enabled(s, Decide(c)) <==> phase == Gated)
            && (Enabled(s, JwksRefresh.Begin(c)) <==> phase == Committed)
            && (Enabled(s, FetchFails(c)) <==> phase.Fetching?)
            && (Enabled(s, FetchSucceeds(c, keys, ttl)) <==> phase.Fetching?)
            && (Enabled(s, Install(c)) <==> phase.Storing?)
            && (Enabled(s, Complete(c)) <==> phase.Stored?)
            && (Enabled(s, Cancel(c)) <==> phase != Committed && !phase.Stored?)
  {}

  // ----- the set fetched is the set installed

  lemma {:induction false} FetchedSetWaits(s: State, c: nat, others: seq<Event>)
    requires GateInv(s) && c in s.callers && s.callers[c].phase.Storing?
    requires Feasible(s, others + [Install(c)]) && forall k | 0 <= k < |others| :: !IsStepOf(others[k], c)
    ensures var t := Final(s, others + [Install(c)]);
            t.installs != [] && Newest(t) == Installation(s.callers[c].phase.fetched, t.clock, None) && t.jwks == Newest(t).jwks
    decreases |others|
  {
    var run := others + [Install(c)];
    if others == [] {
      assert run == [Install(c)] && run[1..] == [];
    } else {
      assert run[0] == others[0] && run[1..] == others[1..] + [Install(c)];
      GateStep(s, run[0]);
      StaysPut(s, run[0], c);
      FetchedSetWaits(Next(s, run[0]), c, others[1..]);
    }
  }

  lemma StaysPut(s: State, e: Event, c: nat)
    requires Enabled(s, e) && c in s.callers && !IsStepOf(e, c)
    ensures c in Next(s, e).callers && Next(s, e).callers[c] == s.callers[c]
  {}

  /** Whatever the other callers do meanwhile, a successful fetch installs its keys, to expire `ttl` after the fetch. */
  lemma FetchedSetIsInstalled(s: State, c: nat, keys: map<string, Key>, ttl: nat, others: seq<Event>)
    requires Reachable(s) && Enabled(s, FetchSucceeds(c, keys, ttl))
    requires Feasible(Next(s, FetchSucceeds(c, keys, ttl)), others + [Install(c)])
    requires forall k | 0 <= k < |others| :: !IsStepOf(others[k], c)
    ensures var t := Final(Next(s, FetchSucceeds(c, keys, ttl)), others + [Install(c)]);
            t.installs != [] && Newest(t).jwks == t.jwks == Jwks(keys, s.clock + ttl) && Newest(t).at == t.clock
  {
    ReachableInv(s);
    GateStep(s, FetchSucceeds(c, keys, ttl));
    FetchedSetWaits(Next(s, FetchSucceeds(c, keys, ttl)), c, others);
  }

  // ----- nobody is stuck

  /** How a caller can return by itself, waiting for nobody but the clock. */
  function WayOut(s: State, c: nat): seq<Event>
    requires c in s.callers
  {
    var kid := s.callers[c].kid;
    match s.callers[c].phase
    case Arrived =>
      if FastLookup(s.jwks, kid, s.clock).Some? then [FastRead(c)] else [FastRead(c), Tick(WAIT_TIMEOUT), TimeOut(c)]
    case Queued(deadline) => if s.clock < deadline then [Tick(deadline - s.clock), TimeOut(c)] else [TimeOut(c)]
    case Gated =>
      if GatedLookup(s.jwks, s.refresh, kid, s.clock).MustRefresh? then [Decide(c), JwksRefresh.Begin(c), FetchFails(c)]
      else [Decide(c)]
    case Committed => [JwksRefresh.Begin(c), FetchFails(c)]
    case Fetching(_) => [FetchFails(c)]
    case Storing(_, _) => [Install(c), Complete(c)]
    case Stored(_, _) => [Complete(c)]
  }

  /** The way out can be taken, and what is left of it after a step is the way out from there. */
  lemma FirstStepOut(s: State, c: nat)
    requires c in s.callers
    ensures var run := WayOut(s, c);
            && 1 <= |run| <= 3 && Enabled(s, run[0])
            && (IsStepOf(run[0], c) || run[0].Tick?)
            && (if |run| == 1 then c !in Next(s, run[0]).callers
                else c in Next(s, run[0]).callers && WayOut(Next(s, run[0]), c) == run[1..])
  {
    hide GatedLookup, FastLookup;
  }

  /** In any state every caller can return within three steps, all its own but for the passing of time. */
  lemma {:induction false} EveryCallerCanReturn(s: State, c: nat)
    requires c in s.callers
    ensures |WayOut(s, c)| <= 3 && forall k | 0 <= k < |WayOut(s, c)| :: IsStepOf(WayOut(s, c)[k], c) || WayOut(s, c)[k].Tick?
    ensures Feasible(s, WayOut(s, c)) && c !in Final(s, WayOut(s, c)).callers
    decreases |WayOut(s, c)|
  {
    var run := WayOut(s, c);
    FirstStepOut(s, c);
    hide WayOut, Enabled, Next, IsStepOf;
    if |run| == 1 {
      assert run[1..] == [];
      assert Final(Next(s, run[0]), []) == Next(s, run[0]);
    } else {
      EveryCallerCanReturn(Next(s, run[0]), c);
      assert forall k | 1 <= k < |run| :: run[k] == run[1..][k - 1];
    }
  }
}
