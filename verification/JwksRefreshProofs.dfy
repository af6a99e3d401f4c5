/** What every interleaving of the refresh protocol keeps. */
module JwksRefreshProofs {
  import opened Common
  import opened JwksRefresh
  import Gcra

  /** The phase of the caller holding the permit. */
  predicate Holding(s: State, c: nat) {
    c in s.callers && s.gate == Some(c)
  }

  /** Some caller has decided to refresh and has not finished. */
  ghost predicate Busy(s: State) {
    s.gate.Some? && s.gate.value in s.callers
    && (s.callers[s.gate.value].phase.Committed? || s.callers[s.gate.value].phase.Attempting())
  }

  /** The permit is held by exactly the caller whose phase says so. */
  ghost predicate GateInv(s: State) {
    && (s.gate.Some? ==> s.gate.value in s.callers)
    && (forall c | c in s.callers :: s.callers[c].phase.HoldsGate() <==> s.gate == Some(c))
  }

  /** The attempt in progress owns the newest log entry and the current backoff. */
  ghost predicate AttemptOk(s: State, phase: Phase) {
    && (phase.Attempting() ==>
          && s.log != [] && s.log[|s.log| - 1] == Fetch(phase.begun, InFlight)
          && s.refresh.retryAfter == Some(phase.begun + COOLDOWN))
    && (phase.Stored? ==> s.jwks == phase.fetched)
    && (phase.Committed? ==> !Pending(s.refresh.retryAfter, s.clock))
  }

  ghost predicate AttemptInv(s: State) {
    forall c | c in s.callers :: AttemptOk(s, s.callers[c].phase)
  }

  /** Only the newest fetch can be in flight, and only while its caller holds the gate. */
  ghost predicate FlightInv(s: State) {
    forall i | 0 <= i < |s.log| && s.log[i].status.InFlight? ::
      i == |s.log| - 1 && s.gate.Some? && s.gate.value in s.callers && s.callers[s.gate.value].phase.Attempting()
  }

  /** At `now`, this fetch no longer forbids a new one. */
  predicate Passed(fetch: Fetch, now: nat) {
    match fetch.status
    case InFlight => true
    case Cancelled => true
    case Failed => fetch.begun + COOLDOWN <= now
    case Succeeded(at, expiresAt) =>
      && fetch.begun <= at
      && at + COALESCE_WINDOW <= now
      && (at + COOLDOWN <= now || expiresAt <= now)
  }

  /** The refresh state still enforces this fetch's spacing. */
  predicate Enforced(s: State, fetch: Fetch) {
    match fetch.status
    case InFlight => false
    case Cancelled => false
    case Failed => s.refresh.retryAfter.Some? && fetch.begun + COOLDOWN <= s.refresh.retryAfter.value
    case Succeeded(at, expiresAt) =>
      && fetch.begun <= at
      && s.refresh.lastCompleted == at
      && s.refresh.coalesceUntil == Some(at + COALESCE_WINDOW)
      && s.jwks.expiresAt == expiresAt
  }

  ghost predicate SpacingInv(s: State) {
    && (forall i | 0 <= i < |s.log| :: Passed(s.log[i], s.clock) || Enforced(s, s.log[i]))
    && (Busy(s) ==> forall i | 0 <= i < |s.log| :: Passed(s.log[i], s.clock))
  }

  /** Every fetch began after all earlier ones stopped forbidding it. */
  ghost predicate LogInv(s: State) {
    && (forall i | 0 <= i < |s.log| :: s.log[i].begun <= s.clock)
    && (forall i, j | 0 <= i < j < |s.log| :: s.log[i].begun <= s.log[j].begun && Passed(s.log[i], s.log[j].begun))
  }

  function Newest(s: State): Installation
    requires s.installs != []
  {
    s.installs[|s.installs| - 1]
  }

  /** Some caller has installed its keys and has not stamped the refresh complete yet. */
  predicate Stamping(s: State) {
    s.gate.Some? && s.gate.value in s.callers && s.callers[s.gate.value].phase.Stored?
  }

  /** The cache is the newest installation, and the refresh state carries that installation's stamp. */
  ghost predicate CacheInv(s: State) {
    && s.installs != [] && s.jwks == Newest(s).jwks && Newest(s).at <= s.clock
    && (if Stamping(s) then Newest(s).completed.None? && |s.installs| > 1
        else
          && Newest(s).completed == Some(s.refresh.lastCompleted) && Newest(s).at <= s.refresh.lastCompleted <= s.clock
          && s.refresh.coalesceUntil == if |s.installs| == 1 then None else Some(s.refresh.lastCompleted + COALESCE_WINDOW))
  }

  /** A backoff belongs to the attempt in progress or to a fetch that failed. */
  ghost predicate BackoffInv(s: State) {
    s.refresh.retryAfter.Some? ==>
      || (exists c | c in s.callers :: s.callers[c].phase.Attempting())
      || (exists i | 0 <= i < |s.log| :: s.log[i].status.Failed? && s.log[i].begun + COOLDOWN == s.refresh.retryAfter.value)
  }

  ghost predicate Inv(s: State) {
    GateInv(s) && AttemptInv(s) && FlightInv(s) && SpacingInv(s) && LogInv(s) && CacheInv(s) && BackoffInv(s)
  }

  lemma GateStep(s: State, e: Event)
    requires GateInv(s) && Enabled(s, e)
    ensures GateInv(Next(s, e))
  {}

  /** The event is a step of caller `c`. */
  predicate IsStepOf(e: Event, c: nat) {
    !e.Tick? && e.caller == c
  }

  /** A caller that does not act keeps its phase; while it refreshes, so does all that its attempt relies on. */
  lemma BystanderUntouched(s: State, e: Event, c: nat)
    requires GateInv(s) && Enabled(s, e) && c in Next(s, e).callers && !IsStepOf(e, c)
    ensures c in s.callers && Next(s, e).callers[c] == s.callers[c]
    ensures s.callers[c].phase.HoldsGate() ==>
              Next(s, e).log == s.log && Next(s, e).refresh == s.refresh && Next(s, e).jwks == s.jwks
    ensures s.clock <= Next(s, e).clock
  {}

  lemma BystanderAttempt(s: State, e: Event, c: nat)
    requires GateInv(s) && AttemptInv(s) && Enabled(s, e) && c in Next(s, e).callers && !IsStepOf(e, c)
    ensures AttemptOk(Next(s, e), Next(s, e).callers[c].phase)
  {
    BystanderUntouched(s, e, c);
    hide Next, Enabled, GateInv;
    assert AttemptOk(s, s.callers[c].phase);
  }

  /** The acting caller, by what its step does. */
  lemma ActorAttempt(s: State, e: Event, c: nat)
    requires Enabled(s, e) && c in Next(s, e).callers && IsStepOf(e, c)
    requires c in s.callers ==> AttemptOk(s, s.callers[c].phase)
    ensures AttemptOk(Next(s, e), Next(s, e).callers[c].phase)
  {}

  lemma AttemptStep(s: State, e: Event)
    requires GateInv(s) && AttemptInv(s) && Enabled(s, e)
    ensures AttemptInv(Next(s, e))
  {
    forall c | c in Next(s, e).callers ensures AttemptOk(Next(s, e), Next(s, e).callers[c].phase) {
      hide Next, Enabled, GateInv, AttemptOk;
      if IsStepOf(e, c) {
        ActorAttempt(s, e, c);
      } else {
        BystanderAttempt(s, e, c);
      }
    }
  }

  lemma FlightStep(s: State, e: Event)
    requires GateInv(s) && AttemptInv(s) && FlightInv(s) && Enabled(s, e)
    ensures FlightInv(Next(s, e))
  {}

  /** A decision to refresh is made only when every earlier fetch has stopped forbidding one. */
  lemma RefreshOnlyWhenPassed(s: State, kid: string)
    requires SpacingInv(s) && GatedLookup(s.jwks, s.refresh, kid, s.clock).MustRefresh?
    ensures forall i | 0 <= i < |s.log| :: Passed(s.log[i], s.clock)
  {}

  predicate Quiet(e: Event) {
    e.Tick? || e.Arrive? || e.FastRead? || e.Acquire? || e.TimeOut? || e.FetchSucceeds?
  }

  lemma SpacingQuiet(s: State, e: Event)
    requires GateInv(s) && SpacingInv(s) && Enabled(s, e) && Quiet(e)
    ensures SpacingInv(Next(s, e))
  {
    var t := Next(s, e);
    assert t.log == s.log && t.refresh == s.refresh && t.jwks == s.jwks && s.clock <= t.clock;
    assert Busy(t) ==> Busy(s);
    forall i | 0 <= i < |t.log|
      ensures Passed(s.log[i], s.clock) ==> Passed(t.log[i], t.clock)
      ensures Enforced(s, s.log[i]) ==> Enforced(t, t.log[i])
    {}
  }

  lemma SpacingBusy(s: State, e: Event)
    requires GateInv(s) && AttemptInv(s) && SpacingInv(s) && LogInv(s) && Enabled(s, e)
    requires e.Begin? || e.FetchFails? || e.Install? || e.Complete?
             || (e.Cancel? && s.callers[e.caller].phase.Attempting())
    ensures SpacingInv(Next(s, e))
  {
    var t := Next(s, e);
    assert Busy(s) && s.gate == Some(e.caller);
    var last := |t.log| - 1;
    assert t.clock == s.clock;
    forall i | 0 <= i < |t.log|
      ensures Passed(t.log[i], t.clock) || (Enforced(t, t.log[i]) && !Busy(t))
    {
      if i < last || e.Install? {
        assert t.log[i] == s.log[i];
      } else if e.Complete? {
        assert s.log[last].begun <= s.clock;
        assert t.log[last] == s.log[last].(status := Succeeded(s.clock, s.jwks.expiresAt));
      }
    }
  }

  lemma SpacingStep(s: State, e: Event)
    requires Inv(s) && Enabled(s, e)
    ensures SpacingInv(Next(s, e))
  {
    hide LogInv, FlightInv, CacheInv;
    if Quiet(e) {
      SpacingQuiet(s, e);
    } else if e.Decide? {
      if GatedLookup(s.jwks, s.refresh, s.callers[e.caller].kid, s.clock).MustRefresh? {
        RefreshOnlyWhenPassed(s, s.callers[e.caller].kid);
      }
    } else if e.Cancel? && !s.callers[e.caller].phase.Attempting() {
    } else {
      SpacingBusy(s, e);
    }
  }

  lemma LogStep(s: State, e: Event)
    requires GateInv(s) && AttemptInv(s) && SpacingInv(s) && LogInv(s) && Enabled(s, e)
    ensures LogInv(Next(s, e))
  {
    if !e.Begin? {
      LogKeeps(s, e);
      hide Next, Enabled, GateInv, SpacingInv, AttemptInv, Passed;
      assert LogInv(Next(s, e));
    }
  }

  /** A step that begins no fetch keeps the log, up to the status of its last entry. */
  lemma LogKeeps(s: State, e: Event)
    requires Enabled(s, e) && !e.Begin?
    ensures var u := Next(s, e);
            && s.clock <= u.clock && |u.log| == |s.log|
            && (forall i | 0 <= i < |s.log| :: u.log[i].begun == s.log[i].begun && (i < |s.log| - 1 ==> u.log[i] == s.log[i]))
  {}

  /** Only an installation and its stamp touch the cache, its history and the stamps. */
  lemma CacheUntouched(s: State, e: Event)
    requires GateInv(s) && Enabled(s, e) && !e.Install? && !e.Complete?
    ensures var u := Next(s, e);
            && u.installs == s.installs && u.jwks == s.jwks && s.clock <= u.clock
            && u.refresh.lastCompleted == s.refresh.lastCompleted && u.refresh.coalesceUntil == s.refresh.coalesceUntil
            && Stamping(u) == Stamping(s)
  {}

  lemma CacheStep(s: State, e: Event)
    requires GateInv(s) && CacheInv(s) && Enabled(s, e)
    ensures CacheInv(Next(s, e))
  {
    if !e.Install? && !e.Complete? {
      CacheUntouched(s, e);
      hide Next, Enabled, GateInv, Stamping;
      assert CacheInv(Next(s, e));
    }
  }

  predicate EndsFetch(e: Event) {
    e.FetchFails? || e.Complete? || e.Cancel?
  }

  lemma AttemptGoesOn(s: State, e: Event, c: nat)
    requires Enabled(s, e) && c in s.callers && s.callers[c].phase.Attempting()
    requires EndsFetch(e) ==> e.caller != c
    ensures c in Next(s, e).callers && Next(s, e).callers[c].phase.Attempting()
  {}

  /** The log of failures is never rewritten. */
  lemma FailureStays(s: State, e: Event, i: nat)
    requires AttemptInv(s) && Enabled(s, e) && i < |s.log| && s.log[i].status.Failed?
    ensures i < |Next(s, e).log| && Next(s, e).log[i] == s.log[i]
  {
    if EndsFetch(e) {
      assert AttemptOk(s, s.callers[e.caller].phase);
    }
  }

  /** A step that ends an attempt leaves no backoff but that of a failure; one that does not may only begin one. */
  lemma BackoffMoves(s: State, e: Event)
    requires GateInv(s) && AttemptInv(s) && Enabled(s, e) && Next(s, e).refresh.retryAfter.Some?
    ensures EndsFetch(e) && s.callers[e.caller].phase.Attempting() ==>
              e.FetchFails? && BackoffInv(Next(s, e))
    ensures !EndsFetch(e) || !s.callers[e.caller].phase.Attempting() ==>
              e.Begin? || Next(s, e).refresh == s.refresh
  {
    if EndsFetch(e) {
      assert AttemptOk(s, s.callers[e.caller].phase);
      var u := Next(s, e);
      if e.FetchFails? {
        assert u.log[|u.log| - 1].status.Failed?;
      }
    }
  }

  lemma BackoffStep(s: State, e: Event)
    requires GateInv(s) && AttemptInv(s) && BackoffInv(s) && Enabled(s, e)
    ensures BackoffInv(Next(s, e))
  {
    var u := Next(s, e);
    if e.Begin? {
      assert e.caller in u.callers && u.callers[e.caller].phase.Attempting();
    } else if u.refresh.retryAfter.Some? && !(EndsFetch(e) && s.callers[e.caller].phase.Attempting()) {
      BackoffMoves(s, e);
      hide Next, Enabled, GateInv, AttemptInv;
      if c :| c in s.callers && s.callers[c].phase.Attempting() {
        AttemptGoesOn(s, e, c);
      } else {
        var i :| 0 <= i < |s.log| && s.log[i].status.Failed? && s.log[i].begun + COOLDOWN == s.refresh.retryAfter.value;
        FailureStays(s, e, i);
      }
    } else if u.refresh.retryAfter.Some? {
      BackoffMoves(s, e);
    }
  }

  lemma InvStep(s: State, e: Event)
    requires Inv(s) && Enabled(s, e)
    ensures Inv(Next(s, e))
  {
    GateStep(s, e);
    AttemptStep(s, e);
    FlightStep(s, e);
    SpacingStep(s, e);
    LogStep(s, e);
    CacheStep(s, e);
    BackoffStep(s, e);
  }

  lemma {:induction false} InvRun(s: State, run: seq<Event>)
    requires Inv(s) && Feasible(s, run)
    ensures Inv(Final(s, run))
    decreases |run|
  {
    if run != [] {
      InvStep(s, run[0]);
      InvRun(Next(s, run[0]), run[1..]);
    }
  }

  /** Every state that the authenticator can reach from discovery. */
  ghost predicate Reachable(s: State) {
    exists jwks, now, run :: Feasible(Discovered(jwks, now), run) && s == Final(Discovered(jwks, now), run)
  }

  lemma ReachableInv(s: State)
    requires Reachable(s)
    ensures Inv(s)
  {
    var jwks, now, run :| Feasible(Discovered(jwks, now), run) && s == Final(Discovered(jwks, now), run);
    InvRun(Discovered(jwks, now), run);
  }

  // ----- fetch spacing

  /** At most one caller has a fetch in flight, and it is the newest fetch. */
  lemma OneFetchInFlight(s: State, c: nat, d: nat)
    requires Reachable(s) && c in s.callers && d in s.callers
    requires s.callers[c].phase.Attempting() && s.callers[d].phase.Attempting()
    ensures c == d
    ensures forall i | 0 <= i < |s.log| :: s.log[i].status.InFlight? <==> i == |s.log| - 1
  {
    ReachableInv(s);
  }

  /**
   After a failure begun at b, no fetch begins before b + 30 s; after a success completed at s,
   none begins before s + 1 s, nor before s + 30 s unless the installed set has expired.
   */
  lemma FetchSpacing(s: State, i: nat, j: nat)
    requires Reachable(s) && i < j < |s.log|
    ensures s.log[i].begun <= s.log[j].begun
    ensures s.log[i].status.Failed? ==> s.log[i].begun + 30 * SECOND <= s.log[j].begun
    ensures s.log[i].status.Succeeded? ==>
              && s.log[i].begun <= s.log[i].status.at
              && s.log[i].status.at + SECOND <= s.log[j].begun
              && (s.log[j].begun < s.log[i].status.at + 30 * SECOND ==> s.log[i].status.expiresAt <= s.log[j].begun)
  {
    ReachableInv(s);
    assert Passed(s.log[i], s.log[j].begun);
  }

  /** When the fetches that were not cancelled began. */
  function Kept(log: seq<Fetch>): seq<nat> {
    if log == [] then []
    else
      var n := |log| - 1;
      if log[n].status.Cancelled? then Kept(log[..n]) else Kept(log[..n]) + [log[n].begun]
  }

  ghost predicate KeptAreSpaced(log: seq<Fetch>) {
    forall i, j | 0 <= i < j < |log| && !log[i].status.Cancelled? :: log[i].begun + COALESCE_WINDOW <= log[j].begun
  }

  lemma {:induction false} KeptSpaced(log: seq<Fetch>)
    requires KeptAreSpaced(log)
    ensures Gcra.Spaced(Kept(log), COALESCE_WINDOW)
    ensures forall t | t in Kept(log) :: exists i :: 0 <= i < |log| && log[i].begun == t && !log[i].status.Cancelled?
  {
    if log != [] {
      var n := |log| - 1;
      KeptSpaced(log[..n]);
      var before := Kept(log[..n]);
      forall t | t in before
        ensures t + COALESCE_WINDOW <= log[n].begun
        ensures exists i :: 0 <= i < |log| && log[i].begun == t && !log[i].status.Cancelled?
      {
        var i :| 0 <= i < n && log[..n][i].begun == t && !log[..n][i].status.Cancelled?;
        assert log[..n][i] == log[i];
      }
      assert forall k | 0 <= k < |before| :: before[k] in before;
    }
  }

  /** Any window of `width` holds at most floor(width / 1 s) + 1 fetches that were not cancelled. */
  lemma FetchWindow(s: State, start: nat, width: nat)
    requires Reachable(s)
    ensures CountIn(Kept(s.log), start, width) <= width / SECOND + 1
  {
    ReachableInv(s);
    forall i, j | 0 <= i < j < |s.log| && !s.log[i].status.Cancelled?
      ensures s.log[i].begun + COALESCE_WINDOW <= s.log[j].begun
    {
      assert Passed(s.log[i], s.log[j].begun);
      assert !s.log[i].status.InFlight?;
    }
    KeptSpaced(s.log);
    Gcra.SpacedWindow(Kept(s.log), COALESCE_WINDOW, start, width);
  }

  // ----- refusals are justified

  /**
   A gated caller is told to back off only within 30 s of the beginning of a fetch that failed, and
   is told that a key is unknown only while the newest installed set lacks it, and either that set is
   fresh and the refresh that installed it was completed within 30 s, or it was completed within 1 s.
   */
  lemma RefusalsAreJustified(s: State, c: nat)
    requires Reachable(s) && c in s.callers && s.callers[c].phase.Gated?
    ensures var kid := s.callers[c].kid;
            match GatedLookup(s.jwks, s.refresh, kid, s.clock)
            case Backoff =>
              exists i | 0 <= i < |s.log| :: s.log[i].status.Failed? && s.clock < s.log[i].begun + 30 * SECOND
            case UnknownKeyId =>
              && s.installs != [] && kid !in Newest(s).jwks.keys
              && Newest(s).completed.Some? && Newest(s).at <= Newest(s).completed.value <= s.clock
              && (|| (s.clock < Newest(s).jwks.expiresAt && s.clock < Newest(s).completed.value + 30 * SECOND)
                  || s.clock < Newest(s).completed.value + SECOND)
            case MustRefresh => forall i | 0 <= i < |s.log| :: Passed(s.log[i], s.clock)
            case Found(_) => true
  {
    ReachableInv(s);
    var kid := s.callers[c].kid;
    if GatedLookup(s.jwks, s.refresh, kid, s.clock).MustRefresh? {
      RefreshOnlyWhenPassed(s, kid);
    }
  }

  // ----- bounded staleness

  /**
   Every key returned is the newest installed set's key for that id, and is returned before that
   set expires, within 1 s of the completion of the very refresh that installed it, or, before that
   completion, to the caller that fetched it.
   */
  lemma BoundedStaleness(s: State, e: Event)
    requires Reachable(s) && Enabled(s, e) && ReplyTo(s, e).Answer?
    ensures e.FastRead? || e.Decide? || e.Complete?
    ensures s.installs != []
    ensures var newest := Newest(s);
            var kid := s.callers[e.caller].kid;
            && kid in newest.jwks.keys && newest.jwks.keys[kid] == ReplyTo(s, e).key
            && newest.at <= s.clock
            && (|| s.clock < newest.jwks.expiresAt
                || (&& e.Decide? && newest.completed.Some?
                    && newest.at <= newest.completed.value <= s.clock < newest.completed.value + SECOND)
                || (e.Complete? && newest.completed.None? && s.callers[e.caller].phase.fetched == newest.jwks))
  {
    ReachableInv(s);
  }

  /**
   A gated caller is answered if and only if the newest set has its key and either has not expired or,
   unless it is the one from discovery, was completed less than 1 s ago.
   */
  lemma AnsweredExactlyWhen(s: State, c: nat)
    requires Reachable(s) && c in s.callers && s.callers[c].phase.Gated?
    ensures s.installs != [] && Newest(s).completed.Some?
    ensures ReplyTo(s, Decide(c)).Answer? <==>
            && s.callers[c].kid in Newest(s).jwks.keys
            && (|| s.clock < Newest(s).jwks.expiresAt
                || (|s.installs| > 1 && s.clock < Newest(s).completed.value + SECOND))
  {
    ReachableInv(s);
  }

  // ----- cancellation

  /** The refresh states answer alike from `now` on: they differ at most in a backoff that has passed. */
  predicate Alike(a: RefreshState, b: RefreshState, now: nat) {
    && a.(retryAfter := None) == b.(retryAfter := None)
    && (a == b || (!Pending(a.retryAfter, now) && !Pending(b.retryAfter, now)))
  }

  /** `c` decided to refresh in `s0` and is still refreshing in `s`. */
  ghost predicate StillRefreshing(s0: State, s: State, c: nat) {
    && Holding(s, c)
    && s.jwks == s0.jwks && s0.clock <= s.clock
    && s.refresh.(retryAfter := None) == s0.refresh.(retryAfter := None)
    && (s.callers[c].phase.Committed? || s.callers[c].phase.Fetching? || s.callers[c].phase.Storing?)
    && (s.callers[c].phase.Committed? ==> s.refresh == s0.refresh)
  }

  predicate EndsAttempt(e: Event, c: nat) {
    e in {FetchFails(c), Install(c), Complete(c), Cancel(c)}
  }

  /** Nothing but the refreshing caller's own steps can touch the cache or the refresh state. */
  lemma OthersAreLockedOut(s0: State, s: State, c: nat, e: Event)
    requires GateInv(s) && AttemptInv(s) && StillRefreshing(s0, s, c) && Enabled(s, e)
    requires !EndsAttempt(e, c)
    ensures StillRefreshing(s0, Next(s, e), c)
  {}

  lemma CancelClearsOwnBackoff(s0: State, s: State, c: nat)
    requires Inv(s) && StillRefreshing(s0, s, c) && Enabled(s, Cancel(c))
    requires !Pending(s0.refresh.retryAfter, s0.clock)
    ensures var t := Next(s, Cancel(c));
            t.gate == None && c !in t.callers && t.jwks == s0.jwks && Alike(t.refresh, s0.refresh, s0.clock)
  {}

  /** A caller that has committed to a refresh, any interleaving after that, and then its cancellation. */
  ghost predicate CancelledAttempt(s0: State, c: nat, run: seq<Event>) {
    && Holding(s0, c) && s0.callers[c].phase.Committed?
    && Feasible(s0, run + [Cancel(c)])
    && (forall k | 0 <= k < |run| :: !EndsAttempt(run[k], c))
  }

  lemma {:induction false} CancelRestores(s0: State, s: State, c: nat, run: seq<Event>)
    requires Inv(s) && StillRefreshing(s0, s, c) && Feasible(s, run + [Cancel(c)])
    requires !Pending(s0.refresh.retryAfter, s0.clock)
    requires forall k | 0 <= k < |run| :: !EndsAttempt(run[k], c)
    ensures var t := Final(s, run + [Cancel(c)]);
            Inv(t) && s0.clock <= t.clock && t.gate == None && t.jwks == s0.jwks && Alike(t.refresh, s0.refresh, s0.clock)
    decreases |run|
  {
    var whole := run + [Cancel(c)];
    if run == [] {
      assert whole == [Cancel(c)] && whole[1..] == [];
      CancelClearsOwnBackoff(s0, s, c);
      InvRun(s, whole);
    } else {
      assert whole[0] == run[0] && whole[1..] == run[1..] + [Cancel(c)];
      OthersAreLockedOut(s0, s, c, run[0]);
      InvStep(s, run[0]);
      CancelRestores(s0, Next(s, run[0]), c, run[1..]);
    }
  }

  /** Two states that differ at most in a backoff that no longer matters. */
  ghost predicate Twins(s: State, t: State) {
    && t == s.(refresh := t.refresh)
    && Alike(s.refresh, t.refresh, s.clock)
    && ((exists c | c in s.callers :: s.callers[c].phase.Attempting()) ==> s.refresh == t.refresh)
  }

  lemma TwinStep(s: State, t: State, e: Event)
    requires GateInv(s) && Twins(s, t) && Enabled(s, e)
    ensures Enabled(t, e) && ReplyTo(s, e) == ReplyTo(t, e) && Twins(Next(s, e), Next(t, e))
  {}

  lemma {:induction false} TwinsAnswerAlike(s: State, t: State, run: seq<Event>)
    requires Inv(s) && Twins(s, t) && Feasible(s, run)
    ensures Feasible(t, run) && Replies(s, run) == Replies(t, run)
    decreases |run|
  {
    if run != [] {
      TwinStep(s, t, run[0]);
      InvStep(s, run[0]);
      hide Inv, Twins, Enabled, Next, ReplyTo;
      TwinsAnswerAlike(Next(s, run[0]), Next(t, run[0]), run[1..]);
    }
  }

  /**
   A cancelled refresh is invisible: after the cancellation, every later run of lookups is possible
   with exactly the same replies if the refresh state is put back to what it was before the attempt.
   */
  lemma CancellationIsInvisible(s0: State, c: nat, run: seq<Event>, later: seq<Event>)
    requires Reachable(s0) && CancelledAttempt(s0, c, run)
    requires Feasible(Final(s0, run + [Cancel(c)]), later)
    ensures var t := Final(s0, run + [Cancel(c)]);
            var untouched := t.(jwks := s0.jwks, refresh := s0.refresh);
            && t.gate == None
            && Feasible(untouched, later) && Replies(untouched, later) == Replies(t, later)
  {
    ReachableInv(s0);
    CancelRestores(s0, s0, c, run);
    var t := Final(s0, run + [Cancel(c)]);
    TwinsAnswerAlike(t, t.(refresh := s0.refresh), later);
  }
}
