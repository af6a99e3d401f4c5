/** What holds over every run of the limiter, in whatever order the lock was taken. */
module RateLimiterRuns {
  import opened Common
  import opened Gcra
  import opened RateLimiter

  /** One call of `check`: who is calling, and the clock as read before the lock. */
  datatype Request = Request(key: Key, now: nat)

  function StateAfter(limiter: Limiter, run: seq<Request>): State
    requires limiter.limits.Valid()
  {
    if run == [] then EMPTY
    else
      var n := |run| - 1;
      Check(limiter, StateAfter(limiter, run[..n]), run[n].key, run[n].now).state
  }

  /** What happened to request `k` of the run. */
  function At(limiter: Limiter, run: seq<Request>, k: nat): Outcome
    requires limiter.limits.Valid() && k < |run|
  {
    Check(limiter, StateAfter(limiter, run[..k]), run[k].key, run[k].now)
  }

  predicate SweptAt(limiter: Limiter, run: seq<Request>, k: nat)
    requires limiter.limits.Valid() && k < |run|
  {
    Sweeps(limiter, StateAfter(limiter, run[..k]), run[k].key, run[k].now)
  }

  ghost predicate InTimeOrder(run: seq<Request>) {
    forall i, j | 0 <= i < j < |run| :: run[i].now <= run[j].now
  }

  /** The run followed by `count` requests of one caller, all stamped `at`. */
  function Then(run: seq<Request>, key: Key, count: nat, at: nat): seq<Request> {
    run + seq(count, i => Request(key, at))
  }

  lemma ThenGrows(run: seq<Request>, key: Key, count: nat, at: nat)
    ensures Then(run, key, 0, at) == run
    ensures count > 0 ==> Then(run, key, count, at) == Then(run, key, count - 1, at) + [Request(key, at)]
  {}

  lemma ThenPrefix(run: seq<Request>, key: Key, count: nat, at: nat, i: nat)
    requires i < count
    ensures |Then(run, key, count, at)| == |run| + count
    ensures Then(run, key, count, at)[..|run| + i] == Then(run, key, i, at)
    ensures Then(run, key, count, at)[|run| + i] == Request(key, at)
  {}

  // ----- memory and scan bounds, in any lock order

  function TrackedCallers(state: State): set<Key> {
    state.arrivals.Keys - {Overflow}
  }

  /** Admission only forgets keys, and a new caller's own key is charged only when there is room. */
  lemma AdmitLeavesRoom(limiter: Limiter, state: State, key: Key, now: nat)
    ensures var (admitted, charged) := Admit(limiter, state, key, now);
            && admitted.arrivals.Keys <= state.arrivals.Keys
            && (charged == Overflow || charged in admitted.arrivals || |admitted.arrivals| < limiter.maxKeys)
  {}

  lemma CheckKeepsMemoryBound(limiter: Limiter, state: State, key: Key, now: nat)
    requires limiter.limits.Valid() && |TrackedCallers(state)| <= limiter.maxKeys
    ensures |TrackedCallers(Check(limiter, state, key, now).state)| <= limiter.maxKeys
  {
    var (admitted, charged) := Admit(limiter, state, key, now);
    var after := Check(limiter, state, key, now).state;
    assert after.arrivals.Keys <= admitted.arrivals.Keys + {charged};
    AdmitLeavesRoom(limiter, state, key, now);
    hide Check, Admit, Charge;
    if charged == Overflow || charged in admitted.arrivals {
      SubsetCardinality(TrackedCallers(after), TrackedCallers(state));
    } else {
      SubsetCardinality(TrackedCallers(after), admitted.arrivals.Keys + {charged});
      assert |admitted.arrivals.Keys| == |admitted.arrivals|;
    }
  }

  /** At most maxKeys callers are tracked, plus the one overflow bucket. */
  lemma {:induction false} MemoryIsBounded(limiter: Limiter, run: seq<Request>)
    requires limiter.limits.Valid()
    ensures |TrackedCallers(StateAfter(limiter, run))| <= limiter.maxKeys
    ensures |StateAfter(limiter, run).arrivals| <= limiter.maxKeys + 1
  {
    if run != [] {
      var n := |run| - 1;
      MemoryIsBounded(limiter, run[..n]);
      CheckKeepsMemoryBound(limiter, StateAfter(limiter, run[..n]), run[n].key, run[n].now);
    }
    var state := StateAfter(limiter, run);
    SubsetCardinality(state.arrivals.Keys, TrackedCallers(state) + {Overflow});
  }

  // ----- one request, on the fields of the state

  /** The callers whose bucket is not full again yet. */
  ghost function ActiveKeys(state: State, now: nat): set<Key> {
    set key | key in state.arrivals && state.arrivals[key] > now
  }

  /**
   A caller is charged to its own bucket or to the shared overflow bucket: to the latter exactly when it is
   new, the map is full, and either no sweep is due or the active callers alone fill the map.
   */
  lemma OverflowExactlyWhen(limiter: Limiter, state: State, key: Key, now: nat)
    requires limiter.limits.Valid() && key != Overflow
    ensures Check(limiter, state, key, now).charged in {key, Overflow}
    ensures Check(limiter, state, key, now).charged == Overflow
            <==> && key !in state.arrivals && |state.arrivals| >= limiter.maxKeys
                 && (state.nextSweep.None? || state.nextSweep.value <= now ==> |ActiveKeys(state, now)| >= limiter.maxKeys)
  {
    assert Sweep(state, now).arrivals.Keys == ActiveKeys(state, now);
  }

  /**
   A due sweep happens, and nothing else does: for a new caller of a full map it forgets exactly the idle
   callers and sets the next sweep one second ahead; otherwise every bucket but the one charged, and the
   deadline, stay as they were.
   */
  lemma SweepExactlyWhen(limiter: Limiter, state: State, key: Key, now: nat, other: Key)
    requires limiter.limits.Valid()
    ensures var sweeps := && key !in state.arrivals && |state.arrivals| >= limiter.maxKeys
                          && (state.nextSweep.None? || state.nextSweep.value <= now);
            var outcome := Check(limiter, state, key, now);
            && sweeps == Sweeps(limiter, state, key, now)
            && outcome.state.nextSweep == (if sweeps then Some(now + 1_000_000_000) else state.nextSweep)
            && (other != outcome.charged ==>
                  Lookup(outcome.state.arrivals, other)
                  == if sweeps && other !in ActiveKeys(state, now) then None else Lookup(state.arrivals, other))
  {}

  /**
   Whether a request is allowed depends only on the bucket charged, swept or not: it is allowed exactly when
   the bucket's arrival time is at most `burst - 1` intervals ahead, and moves that bucket one interval on.
   */
  lemma AllowedExactlyWhen(limiter: Limiter, state: State, key: Key, now: nat)
    requires limiter.limits.Valid()
    ensures var outcome := Check(limiter, state, key, now);
            var limits, bucket := limiter.limits, Lookup(state.arrivals, outcome.charged);
            var ahead := if bucket.Some? && bucket.value > now then bucket.value - now else 0;
            && (outcome.decision.Allowed? <==> ahead <= (limits.burst - 1) * limits.interval)
            && (if outcome.decision.Allowed?
                then Lookup(outcome.state.arrivals, outcome.charged) == Some(now + ahead + limits.interval)
                else && outcome.decision == Limited(ahead - (limits.burst - 1) * limits.interval, ahead)
                     && Lookup(outcome.state.arrivals, outcome.charged) == bucket)
  {
    assert limiter.limits.Tolerance() == (limiter.limits.burst - 1) * limiter.limits.interval;
    hide Limits.Tolerance;
    MulMonotone(0, limiter.limits.burst - 1, limiter.limits.interval);
  }

  /** The overflow warning is due when a caller is charged to the overflow bucket a minute or more after the last one. */
  lemma WarnsExactlyWhen(limiter: Limiter, state: State, key: Key, now: nat)
    requires limiter.limits.Valid() && key != Overflow
    ensures var last, outcome := state.lastOverflowWarning, Check(limiter, state, key, now);
            outcome.state.lastOverflowWarning
            == if outcome.charged == Overflow && (last.Some? ==> last.value + 60_000_000_000 <= now)
               then Some(now) else last
  {}

  /** A key that leaves the map was swept, and its arrival time was not later than the sweep's time. */
  lemma OnlyIdleKeysAreForgotten(limiter: Limiter, state: State, key: Key, now: nat, gone: Key)
    requires limiter.limits.Valid()
    requires gone in state.arrivals && gone !in Check(limiter, state, key, now).state.arrivals
    ensures Sweeps(limiter, state, key, now) && state.arrivals[gone] <= now
  {}

  /** A sweep postpones the next one by a second, and nothing else moves it. */
  lemma SweepMovesDeadline(limiter: Limiter, state: State, key: Key, now: nat)
    requires limiter.limits.Valid()
    ensures Check(limiter, state, key, now).state.nextSweep
            == if Sweeps(limiter, state, key, now) then Some(now + SWEEP_INTERVAL) else state.nextSweep
  {}

  lemma SweptInPrefix(limiter: Limiter, run: seq<Request>, n: nat, i: nat)
    requires limiter.limits.Valid() && i < n <= |run|
    ensures SweptAt(limiter, run[..n], i) == SweptAt(limiter, run, i)
  {
    assert run[..n][..i] == run[..i];
  }

  /** The deadline after a run, from the one before its last request. */
  lemma LastDeadline(limiter: Limiter, run: seq<Request>)
    requires limiter.limits.Valid() && run != []
    ensures var n := |run| - 1;
            StateAfter(limiter, run).nextSweep
            == if SweptAt(limiter, run, n) then Some(run[n].now + SWEEP_INTERVAL)
               else StateAfter(limiter, run[..n]).nextSweep
    ensures SweptAt(limiter, run, |run| - 1) ==> SweepDue(StateAfter(limiter, run[..|run| - 1]), run[|run| - 1].now)
  {
    var n := |run| - 1;
    SweepMovesDeadline(limiter, StateAfter(limiter, run[..n]), run[n].key, run[n].now);
    hide Check, Full;
  }

  lemma {:induction false} DeadlineCoversEarlierSweeps(limiter: Limiter, run: seq<Request>, i: nat)
    requires limiter.limits.Valid() && i < |run| && SweptAt(limiter, run, i)
    ensures StateAfter(limiter, run).nextSweep.Some?
    ensures run[i].now + SWEEP_INTERVAL <= StateAfter(limiter, run).nextSweep.value
  {
    hide StateAfter, SweptAt;
    var n := |run| - 1;
    LastDeadline(limiter, run);
    if i < n {
      SweptInPrefix(limiter, run, n, i);
      DeadlineCoversEarlierSweeps(limiter, run[..n], i);
    }
  }

  /** In any lock order, a later full-map sweep carries a timestamp at least a second later. */
  lemma SweepsAreSpaced(limiter: Limiter, run: seq<Request>, i: nat, j: nat)
    requires limiter.limits.Valid() && i < j < |run|
    requires SweptAt(limiter, run, i) && SweptAt(limiter, run, j)
    ensures run[i].now + SWEEP_INTERVAL <= run[j].now
  {
    assert run[..j][..i] == run[..i];
    DeadlineCoversEarlierSweeps(limiter, run[..j], i);
  }

  lemma {:induction false} DeadlineIsSomeSweep(limiter: Limiter, run: seq<Request>)
    requires limiter.limits.Valid()
    ensures StateAfter(limiter, run).nextSweep.Some?
            ==> exists i :: 0 <= i < |run| && SweptAt(limiter, run, i)
                            && StateAfter(limiter, run).nextSweep.value == run[i].now + SWEEP_INTERVAL
  {
    if run != [] && StateAfter(limiter, run).nextSweep.Some? {
      hide StateAfter, SweptAt;
      var n := |run| - 1;
      LastDeadline(limiter, run);
      if !SweptAt(limiter, run, n) {
        DeadlineIsSomeSweep(limiter, run[..n]);
        var i :| 0 <= i < n && SweptAt(limiter, run[..n], i)
                 && StateAfter(limiter, run[..n]).nextSweep.value == run[..n][i].now + SWEEP_INTERVAL;
        SweptInPrefix(limiter, run, n, i);
      }
    }
  }

  /** A new caller with room in the map gets a fresh bucket of its own. */
  lemma NewCallerWithRoom(limiter: Limiter, state: State, key: Key, now: nat)
    requires limiter.limits.Valid() && key !in state.arrivals && |state.arrivals| < limiter.maxKeys
    ensures Check(limiter, state, key, now)
            == Outcome(state.(arrivals := state.arrivals[key := now + limiter.limits.interval]), key, Allowed)
  {}

  // ----- refusals

  /** A refusal changes no bucket: every key still tracked keeps its arrival time. */
  lemma RefusalChangesNoBucket(limiter: Limiter, state: State, key: Key, now: nat)
    requires limiter.limits.Valid() && Check(limiter, state, key, now).decision.Limited?
    ensures var after := Check(limiter, state, key, now).state;
            forall k | k in after.arrivals :: k in state.arrivals && after.arrivals[k] == state.arrivals[k]
  {}

  /** A caller refused by its own bucket that comes back after `wait` is allowed if and only if it waited long enough. */
  lemma RetryIsExactInPlace(limiter: Limiter, state: State, key: Key, now: nat, wait: nat)
    requires limiter.limits.Valid()
    requires Check(limiter, state, key, now).decision.Limited? && Check(limiter, state, key, now).charged == key
    ensures var refusal := Check(limiter, state, key, now);
            var again := Check(limiter, refusal.state, key, now + wait);
            again.charged == key && (again.decision.Allowed? <==> wait >= refusal.decision.retryAfter)
  {
    var (admitted, charged) := Admit(limiter, state, key, now);
    RetryIsExact(limiter.limits, Lookup(admitted.arrivals, key), now, wait);
  }
}
