/**
 Forgetting idle callers: the capped, swept map against an unbounded, unswept one fed the same charges,
 in whatever order the lock was taken.
 */
module RateLimiterPruning {
  import opened Common
  import opened Gcra
  import opened RateLimiter
  import opened RateLimiterRuns

  /** The map that a limiter without a cap and without sweeps would hold after the same charges. */
  function Unpruned(limiter: Limiter, run: seq<Request>): map<Key, nat>
    requires limiter.limits.Valid()
  {
    if run == [] then map[]
    else
      var n := |run| - 1;
      var before := Unpruned(limiter, run[..n]);
      var charged := At(limiter, run, n).charged;
      var bucket := Charge(limiter.limits, Lookup(before, charged), run[n].now).0;
      if bucket.Some? then before[charged := bucket.value] else before
  }

  /** The unpruned limiter's answer to charge `k`. */
  function UnprunedDecision(limiter: Limiter, run: seq<Request>, k: nat): Decision
    requires limiter.limits.Valid() && k < |run|
  {
    Charge(limiter.limits, Lookup(Unpruned(limiter, run[..k]), At(limiter, run, k).charged), run[k].now).1
  }

  /** The request's timestamp is not earlier than the last sweep's. */
  predicate NotBeforeSweep(state: State, now: nat) {
    state.nextSweep.Some? ==> state.nextSweep.value <= now + SWEEP_INTERVAL
  }

  ghost predicate SweepSafe(limiter: Limiter, run: seq<Request>)
    requires limiter.limits.Valid()
  {
    forall k | 0 <= k < |run| :: NotBeforeSweep(StateAfter(limiter, run[..k]), run[k].now)
  }

  /** Every tracked key agrees with the unpruned map; a key missing here was idle at the last sweep. */
  ghost predicate Prunes(unpruned: map<Key, nat>, state: State) {
    && (forall key | key in state.arrivals :: key in unpruned && unpruned[key] == state.arrivals[key])
    && (forall key | key in unpruned && key !in state.arrivals ::
          state.nextSweep.Some? && unpruned[key] + SWEEP_INTERVAL <= state.nextSweep.value)
  }

  lemma AdmitKeepsPruning(limiter: Limiter, unpruned: map<Key, nat>, state: State, key: Key, now: nat)
    requires Prunes(unpruned, state)
    ensures Prunes(unpruned, Admit(limiter, state, key, now).0)
    ensures NotBeforeSweep(state, now) ==> NotBeforeSweep(Admit(limiter, state, key, now).0, now)
  {}

  /** The bucket charged was forgotten while it was still ahead of the request's timestamp. */
  predicate Forgotten(unpruned: map<Key, nat>, state: State, key: Key, now: nat) {
    key !in state.arrivals && key in unpruned && unpruned[key] > now
  }

  /** Charge `k` of the run goes to a bucket forgotten too early. */
  predicate Exposed(limiter: Limiter, run: seq<Request>, k: nat)
    requires limiter.limits.Valid() && k < |run|
  {
    var (admitted, charged) := Admit(limiter, StateAfter(limiter, run[..k]), run[k].key, run[k].now);
    Forgotten(Unpruned(limiter, run[..k]), admitted, charged, run[k].now)
  }

  ghost predicate NeverExposed(limiter: Limiter, run: seq<Request>)
    requires limiter.limits.Valid()
  {
    forall k | 0 <= k < |run| :: !Exposed(limiter, run, k)
  }

  predicate Agree(limiter: Limiter, run: seq<Request>, k: nat)
    requires limiter.limits.Valid() && k < |run|
  {
    At(limiter, run, k).decision == UnprunedDecision(limiter, run, k)
  }

  /** A charge to a forgotten bucket that both maps allow leaves the pruned bucket behind. */
  lemma ForgottenLag(limits: Limits, unpruned: map<Key, nat>, state: State, key: Key, now: nat)
    requires limits.Valid() && Forgotten(unpruned, state, key, now)
    requires Charge(limits, Lookup(state.arrivals, key), now).1 == Charge(limits, Lookup(unpruned, key), now).1
    ensures Charge(limits, Lookup(state.arrivals, key), now).0 == Some(now + limits.interval)
    ensures Charge(limits, Lookup(unpruned, key), now).0 == Some(unpruned[key] + limits.interval)
  {}

  /** One charge: the answers are equal and the maps stay related exactly when nothing was forgotten too early. */
  lemma ChargeKeepsPruning(limits: Limits, unpruned: map<Key, nat>, state: State, key: Key, now: nat)
    requires limits.Valid() && Prunes(unpruned, state)
    ensures var (mine, answer) := Charge(limits, Lookup(state.arrivals, key), now);
            var (theirs, expected) := Charge(limits, Lookup(unpruned, key), now);
            && (answer == expected
                && Prunes(if theirs.Some? then unpruned[key := theirs.value] else unpruned, Store(state, key, mine))
                <==> !Forgotten(unpruned, state, key, now))
            && (answer != expected
                <==> Forgotten(unpruned, state, key, now) && unpruned[key] > now + limits.Tolerance())
  {
    var (mine, answer) := Charge(limits, Lookup(state.arrivals, key), now);
    var (theirs, expected) := Charge(limits, Lookup(unpruned, key), now);
    if Forgotten(unpruned, state, key, now) && answer == expected {
      ForgottenLag(limits, unpruned, state, key, now);
      var after := Store(state, key, mine);
      assert key in after.arrivals && after.arrivals[key] != unpruned[key := theirs.value][key];
    }
  }

  /** The step of the invariant: the last request of a run. */
  lemma PruningStep(limiter: Limiter, run: seq<Request>)
    requires limiter.limits.Valid() && run != []
    requires Prunes(Unpruned(limiter, run[..|run| - 1]), StateAfter(limiter, run[..|run| - 1]))
    ensures var n := |run| - 1;
            && (Agree(limiter, run, n) && Prunes(Unpruned(limiter, run), StateAfter(limiter, run))
                <==> !Exposed(limiter, run, n))
            && (!Agree(limiter, run, n)
                <==> Exposed(limiter, run, n)
                     && Unpruned(limiter, run[..n])[At(limiter, run, n).charged] > run[n].now + limiter.limits.Tolerance())
  {
    hide Admit, Charge, Prunes, Limits.Tolerance;
    var n := |run| - 1;
    var state, unpruned := StateAfter(limiter, run[..n]), Unpruned(limiter, run[..n]);
    AdmitKeepsPruning(limiter, unpruned, state, run[n].key, run[n].now);
    var (admitted, charged) := Admit(limiter, state, run[n].key, run[n].now);
    ChargeKeepsPruning(limiter.limits, unpruned, admitted, charged, run[n].now);
  }

  lemma NeverExposedPrefix(limiter: Limiter, run: seq<Request>, n: nat)
    requires limiter.limits.Valid() && n <= |run| && NeverExposed(limiter, run)
    ensures NeverExposed(limiter, run[..n])
  {
    forall k | 0 <= k < n ensures !Exposed(limiter, run[..n], k) {
      ExposedInPrefix(limiter, run, n, k);
    }
  }

  lemma ExposedInPrefix(limiter: Limiter, run: seq<Request>, n: nat, k: nat)
    requires limiter.limits.Valid() && k < n <= |run|
    ensures Exposed(limiter, run[..n], k) == Exposed(limiter, run, k)
    ensures Agree(limiter, run[..n], k) == Agree(limiter, run, k)
    ensures run[..n][..k] == run[..k]
  {
    assert run[..n][..k] == run[..k];
  }

  lemma NeverExposedExtends(limiter: Limiter, run: seq<Request>)
    requires limiter.limits.Valid() && run != []
    requires NeverExposed(limiter, run[..|run| - 1]) && !Exposed(limiter, run, |run| - 1)
    ensures NeverExposed(limiter, run)
  {
    hide Exposed;
    forall k | 0 <= k < |run| - 1 ensures !Exposed(limiter, run, k) {
      ExposedInPrefix(limiter, run, |run| - 1, k);
    }
  }

  lemma {:induction false} PruningInvariant(limiter: Limiter, run: seq<Request>)
    requires limiter.limits.Valid() && NeverExposed(limiter, run)
    ensures Prunes(Unpruned(limiter, run), StateAfter(limiter, run))
  {
    if run != [] {
      var n := |run| - 1;
      NeverExposedPrefix(limiter, run, n);
      assert !Exposed(limiter, run, n);
      hide *;
      PruningInvariant(limiter, run[..n]);
      PruningStep(limiter, run);
    }
  }

  /** Under the invariant, one request gets the unpruned answer. */
  lemma PrunedDecision(limiter: Limiter, run: seq<Request>, k: nat)
    requires limiter.limits.Valid() && k < |run| && NeverExposed(limiter, run)
    ensures Agree(limiter, run, k)
  {
    var upto := run[..k + 1];
    assert upto[..k] == run[..k];
    assert !Exposed(limiter, run, k);
    NeverExposedPrefix(limiter, run, k);
    hide *;
    ExposedInPrefix(limiter, run, k + 1, k);
    PruningInvariant(limiter, run[..k]);
    PruningStep(limiter, upto);
  }

  /**
   Over every run, in any lock order: the map stays a pruned copy of the unbounded one and every answer
   is the unbounded limiter's if and only if no charge goes to a bucket forgotten too early.
   */
  lemma PrunedCopyExactlyWhen(limiter: Limiter, run: seq<Request>)
    requires limiter.limits.Valid()
    ensures NeverExposed(limiter, run) <==>
            && (forall k | 0 <= k <= |run| :: Prunes(Unpruned(limiter, run[..k]), StateAfter(limiter, run[..k])))
            && (forall k | 0 <= k < |run| :: Agree(limiter, run, k))
  {
    hide Prunes, Agree, Exposed, Unpruned, StateAfter;
    if NeverExposed(limiter, run) {
      forall k | 0 <= k <= |run| ensures Prunes(Unpruned(limiter, run[..k]), StateAfter(limiter, run[..k])) {
        NeverExposedPrefix(limiter, run, k);
        PruningInvariant(limiter, run[..k]);
      }
      forall k | 0 <= k < |run| ensures Agree(limiter, run, k) {
        PrunedDecision(limiter, run, k);
      }
    }
    if && (forall k | 0 <= k <= |run| :: Prunes(Unpruned(limiter, run[..k]), StateAfter(limiter, run[..k])))
       && (forall k | 0 <= k < |run| :: Agree(limiter, run, k)) {
      forall k | 0 <= k < |run| ensures !Exposed(limiter, run, k) {
        var upto := run[..k + 1];
        assert upto[..k] == run[..k];
        ExposedInPrefix(limiter, run, k + 1, k);
        PruningStep(limiter, upto);
      }
    }
  }

  /** An exposed charge is answered differently if and only if the forgotten bucket would have refused. */
  lemma ExposedAnswerDiffers(limiter: Limiter, run: seq<Request>, k: nat)
    requires limiter.limits.Valid() && k < |run| && Exposed(limiter, run, k)
    ensures !Agree(limiter, run, k)
            <==> Unpruned(limiter, run[..k])[At(limiter, run, k).charged] > run[k].now + limiter.limits.Tolerance()
  {}

  /** A charge that does not predate the last sweep is never exposed. */
  lemma SweepSafeIsNeverExposed(limiter: Limiter, run: seq<Request>)
    requires limiter.limits.Valid() && SweepSafe(limiter, run)
    ensures NeverExposed(limiter, run)
  {
    if run != [] {
      var n := |run| - 1;
      SweepSafePrefix(limiter, run, n);
      assert NotBeforeSweep(StateAfter(limiter, run[..n]), run[n].now);
      hide *;
      SweepSafeIsNeverExposed(limiter, run[..n]);
      PruningInvariant(limiter, run[..n]);
      NotBeforeSweepIsNotExposed(limiter, run);
      NeverExposedExtends(limiter, run);
    }
  }

  lemma NotBeforeSweepIsNotExposed(limiter: Limiter, run: seq<Request>)
    requires limiter.limits.Valid() && run != []
    requires Prunes(Unpruned(limiter, run[..|run| - 1]), StateAfter(limiter, run[..|run| - 1]))
    requires NotBeforeSweep(StateAfter(limiter, run[..|run| - 1]), run[|run| - 1].now)
    ensures !Exposed(limiter, run, |run| - 1)
  {
    var n := |run| - 1;
    AdmitKeepsPruning(limiter, Unpruned(limiter, run[..n]), StateAfter(limiter, run[..n]), run[n].key, run[n].now);
  }

  lemma SweepSafePrefix(limiter: Limiter, run: seq<Request>, n: nat)
    requires limiter.limits.Valid() && n <= |run| && SweepSafe(limiter, run)
    ensures SweepSafe(limiter, run[..n])
  {
    assert forall k | 0 <= k < n :: run[..n][..k] == run[..k] && run[..n][k] == run[k];
  }

  // ----- an exposure can always be seen

  /** The run up to charge `k`, then a full burst on the same bucket one interval later. */
  function Probed(limiter: Limiter, run: seq<Request>, k: nat): seq<Request>
    requires limiter.limits.Valid() && k < |run|
  {
    Then(run[..k + 1], At(limiter, run, k).charged, limiter.limits.burst, run[k].now + limiter.limits.interval)
  }

  /** A tracked key is charged to its own bucket and stays tracked. */
  lemma TrackedStaysTracked(limiter: Limiter, state: State, key: Key, now: nat)
    requires limiter.limits.Valid() && key in state.arrivals
    ensures var outcome := Check(limiter, state, key, now);
            var (bucket, decision) := Charge(limiter.limits, Lookup(state.arrivals, key), now);
            && outcome.charged == key && outcome.decision == decision
            && key in outcome.state.arrivals && Lookup(outcome.state.arrivals, key) == bucket
  {}

  /** Whatever the answer, the bucket charged is tracked afterwards. */
  lemma ChargedIsTracked(limiter: Limiter, state: State, key: Key, now: nat)
    requires limiter.limits.Valid()
    ensures var outcome := Check(limiter, state, key, now);
            outcome.charged in outcome.state.arrivals
  {}

  lemma RunExtends(limiter: Limiter, run: seq<Request>, request: Request, outcome: Outcome, key: Key)
    requires limiter.limits.Valid()
    requires outcome == Check(limiter, StateAfter(limiter, run), request.key, request.now)
    ensures var longer := run + [request];
            var charged := Lookup(Unpruned(limiter, run), outcome.charged);
            && At(limiter, longer, |run|) == outcome
            && StateAfter(limiter, longer) == outcome.state
            && UnprunedDecision(limiter, longer, |run|) == Charge(limiter.limits, charged, request.now).1
            && Lookup(Unpruned(limiter, longer), key)
               == if key == outcome.charged then Charge(limiter.limits, charged, request.now).0
                  else Lookup(Unpruned(limiter, run), key)
  {}

  /** Repeated charges to a tracked key move both maps as charges to a single bucket. */
  lemma {:induction false} RepeatedCharges(limiter: Limiter, run: seq<Request>, key: Key, count: nat, at: nat)
    requires limiter.limits.Valid() && key in StateAfter(limiter, run).arrivals
    ensures var longer, times := Then(run, key, count, at), Together(count, at);
            && key in StateAfter(limiter, longer).arrivals
            && Lookup(StateAfter(limiter, longer).arrivals, key)
               == After(limiter.limits, Lookup(StateAfter(limiter, run).arrivals, key), times)
            && Lookup(Unpruned(limiter, longer), key) == After(limiter.limits, Lookup(Unpruned(limiter, run), key), times)
  {
    ThenGrows(run, key, count, at);
    if count > 0 {
      assert Together(count, at)[..count - 1] == Together(count - 1, at) && Together(count, at)[count - 1] == at;
      hide Charge, StateAfter, Unpruned, Check, Lookup, Then, Together;
      RepeatedCharges(limiter, run, key, count - 1, at);
      var before := Then(run, key, count - 1, at);
      var state := StateAfter(limiter, before);
      TrackedStaysTracked(limiter, state, key, at);
      RunExtends(limiter, before, Request(key, at), Check(limiter, state, key, at), key);
    }
  }

  /** Charge `i` of a repeated burst is answered as by a single bucket, in both maps, and is never exposed. */
  lemma RepeatedAnswers(limiter: Limiter, run: seq<Request>, key: Key, count: nat, at: nat, i: nat)
    requires limiter.limits.Valid() && key in StateAfter(limiter, run).arrivals && i < count
    ensures var longer, k, times := Then(run, key, count, at), |run| + i, Together(i, at);
            && !Exposed(limiter, longer, k)
            && At(limiter, longer, k).decision
               == Charge(limiter.limits, After(limiter.limits, Lookup(StateAfter(limiter, run).arrivals, key), times), at).1
            && UnprunedDecision(limiter, longer, k)
               == Charge(limiter.limits, After(limiter.limits, Lookup(Unpruned(limiter, run), key), times), at).1
  {
    var longer, k := Then(run, key, count, at), |run| + i;
    ThenPrefix(run, key, count, at, i);
    hide Charge, StateAfter, Unpruned, Check, Then, Together, After;
    RepeatedCharges(limiter, run, key, i, at);
    TrackedStaysTracked(limiter, StateAfter(limiter, longer[..k]), key, at);
  }

  lemma RepeatedDiffers(limiter: Limiter, run: seq<Request>, key: Key, count: nat, at: nat, i: nat)
    requires limiter.limits.Valid() && key in StateAfter(limiter, run).arrivals && i < count
    requires var tracked, unpruned := Lookup(StateAfter(limiter, run).arrivals, key), Lookup(Unpruned(limiter, run), key);
             && Admits(limiter.limits, After(limiter.limits, tracked, Together(i, at)), at)
             && !Admits(limiter.limits, After(limiter.limits, unpruned, Together(i, at)), at)
    ensures !Agree(limiter, Then(run, key, count, at), |run| + i)
  {
    RepeatedAnswers(limiter, run, key, count, at, i);
    hide Charge, StateAfter, Unpruned, Then, Together, After, At, UnprunedDecision;
  }

  /** What a probe is made of: the run up to charge `k`, which left its bucket tracked, and the burst. */
  lemma ProbeParts(limiter: Limiter, run: seq<Request>, k: nat)
    requires limiter.limits.Valid() && k < |run|
    ensures var key, at := At(limiter, run, k).charged, run[k].now + limiter.limits.interval;
            && Probed(limiter, run, k) == Then(run[..k + 1], key, limiter.limits.burst, at)
            && |Probed(limiter, run, k)| == k + 1 + limiter.limits.burst
            && Probed(limiter, run, k)[..k + 1] == run[..k + 1]
            && key in StateAfter(limiter, run[..k + 1]).arrivals
  {
    assert run[..k + 1][..k] == run[..k];
    ChargedIsTracked(limiter, StateAfter(limiter, run[..k]), run[k].key, run[k].now);
    hide Check;
  }

  /** If no charge of the run is exposed, none of a probed prefix of it is. */
  lemma ProbeIsNeverExposed(limiter: Limiter, run: seq<Request>, k: nat)
    requires limiter.limits.Valid() && k < |run| && NeverExposed(limiter, run)
    ensures NeverExposed(limiter, Probed(limiter, run, k))
  {
    hide Exposed, Probed, Then, At, StateAfter;
    ProbeParts(limiter, run, k);
    var probed := Probed(limiter, run, k);
    forall i | 0 <= i < |probed| ensures !Exposed(limiter, probed, i) {
      if i <= k {
        ExposedInPrefix(limiter, probed, k + 1, i);
        ExposedInPrefix(limiter, run, k + 1, i);
      } else {
        RepeatedAnswers(limiter, run[..k + 1], At(limiter, run, k).charged, limiter.limits.burst,
                        run[k].now + limiter.limits.interval, i - k - 1);
      }
    }
  }

  lemma ExposureLag(limiter: Limiter, run: seq<Request>, k: nat) returns (low: nat, high: nat)
    requires limiter.limits.Valid() && k < |run| && Exposed(limiter, run, k) && Agree(limiter, run, k)
    ensures var upto, key := run[..k + 1], At(limiter, run, k).charged;
            && Lookup(StateAfter(limiter, upto).arrivals, key) == Some(low)
            && Lookup(Unpruned(limiter, upto), key) == Some(high)
            && low == run[k].now + limiter.limits.interval < high
  {
    var upto, state, unpruned := run[..k + 1], StateAfter(limiter, run[..k]), Unpruned(limiter, run[..k]);
    assert upto[..k] == run[..k];
    var (admitted, charged) := Admit(limiter, state, run[k].key, run[k].now);
    ForgottenLag(limiter.limits, unpruned, admitted, charged, run[k].now);
    hide Admit, Charge;
    low, high := run[k].now + limiter.limits.interval, unpruned[charged] + limiter.limits.interval;
  }

  /** A first exposure is answered differently, or leaves a bucket that a full burst tells from the unpruned one. */
  lemma ExposureShows(limiter: Limiter, run: seq<Request>, k: nat)
    requires limiter.limits.Valid() && k < |run| && NeverExposed(limiter, run[..k]) && Exposed(limiter, run, k)
    ensures exists i :: 0 <= i < |Probed(limiter, run, k)| && !Agree(limiter, Probed(limiter, run, k), i)
  {
    hide *;
    var limits, upto, probed := limiter.limits, run[..k + 1], Probed(limiter, run, k);
    var key, at := At(limiter, run, k).charged, run[k].now + limits.interval;
    ProbeParts(limiter, run, k);
    if Agree(limiter, run, k) {
      var low, high := ExposureLag(limiter, run, k);
      BurstTellsApart(limits, low, high);
      var j :| 0 <= j < limits.burst
               && Admits(limits, After(limits, Some(low), Together(j, low)), low)
               && !Admits(limits, After(limits, Some(high), Together(j, low)), low);
      RepeatedDiffers(limiter, upto, key, limits.burst, at, j);
      assert !Agree(limiter, probed, k + 1 + j);
    } else {
      ExposedInPrefix(limiter, probed, k + 1, k);
      ExposedInPrefix(limiter, run, k + 1, k);
    }
  }

  lemma {:induction false} FirstExposed(limiter: Limiter, run: seq<Request>) returns (k: nat)
    requires limiter.limits.Valid() && !NeverExposed(limiter, run)
    ensures k < |run| && NeverExposed(limiter, run[..k]) && Exposed(limiter, run, k)
  {
    assert run != [];
    hide *;
    var n := |run| - 1;
    if NeverExposed(limiter, run[..n]) {
      k := n;
      if !Exposed(limiter, run, n) {
        NeverExposedExtends(limiter, run);
      }
    } else {
      k := FirstExposed(limiter, run[..n]);
      ExposedInPrefix(limiter, run, n, k);
    }
  }

  /**
   Pruning stays invisible exactly as long as nothing is forgotten too early: in any lock order, no charge
   of a run is exposed if and only if every prefix of it, followed by a full burst on the bucket charged
   last, is answered throughout as by the unbounded limiter.
   */
  lemma PruningShowsExactlyWhen(limiter: Limiter, run: seq<Request>)
    requires limiter.limits.Valid()
    ensures NeverExposed(limiter, run) <==>
            forall k, i | 0 <= k < |run| && 0 <= i < |Probed(limiter, run, k)| :: Agree(limiter, Probed(limiter, run, k), i)
  {
    hide Agree, Exposed, Probed;
    if NeverExposed(limiter, run) {
      forall k, i | 0 <= k < |run| && 0 <= i < |Probed(limiter, run, k)| ensures Agree(limiter, Probed(limiter, run, k), i) {
        ProbeIsNeverExposed(limiter, run, k);
        PrunedDecision(limiter, Probed(limiter, run, k), i);
      }
    } else {
      var k := FirstExposed(limiter, run);
      ExposureShows(limiter, run, k);
    }
  }

  /** A run is sweep-safe exactly when no request's timestamp precedes an earlier sweep's. */
  lemma SweepSafeMeans(limiter: Limiter, run: seq<Request>)
    requires limiter.limits.Valid()
    ensures SweepSafe(limiter, run) <==>
            forall i, j | 0 <= i < j < |run| && SweptAt(limiter, run, i) :: run[i].now <= run[j].now
  {
    forall j | 0 <= j < |run|
      ensures NotBeforeSweep(StateAfter(limiter, run[..j]), run[j].now)
              <==> forall i | 0 <= i < j && SweptAt(limiter, run, i) :: run[i].now <= run[j].now
    {
      var before := run[..j];
      assert forall i | 0 <= i < j :: before[..i] == run[..i] && before[i] == run[i];
      assert forall i | 0 <= i < j :: SweptAt(limiter, before, i) == SweptAt(limiter, run, i);
      DeadlineIsSomeSweep(limiter, before);
      forall i | 0 <= i < j && SweptAt(limiter, run, i)
        ensures StateAfter(limiter, before).nextSweep.Some?
        ensures run[i].now + SWEEP_INTERVAL <= StateAfter(limiter, before).nextSweep.value
      {
        DeadlineCoversEarlierSweeps(limiter, before, i);
      }
    }
  }

  /**
   The capped, swept map refines an unpruned one: in every run in time order each charge gets the
   same decision, retryAfter and reset as from an unbounded map fed the same charges.
   */
  lemma PruningIsInvisible(limiter: Limiter, run: seq<Request>)
    requires limiter.limits.Valid()
    requires InTimeOrder(run) || forall k | 0 <= k < |run| :: !SweptAt(limiter, run, k)
    ensures SweepSafe(limiter, run) && NeverExposed(limiter, run)
    ensures forall k | 0 <= k < |run| :: At(limiter, run, k).decision == UnprunedDecision(limiter, run, k)
  {
    SweepSafeMeans(limiter, run);
    SweepSafeIsNeverExposed(limiter, run);
    forall k | 0 <= k < |run| ensures At(limiter, run, k).decision == UnprunedDecision(limiter, run, k) {
      PrunedDecision(limiter, run, k);
    }
  }

  /** A due sweep of a full map of idle callers leaves only the new caller. */
  lemma NewCallerAfterSweep(limiter: Limiter, state: State, key: Key, now: nat)
    requires limiter.limits.Valid() && limiter.maxKeys > 0 && Sweeps(limiter, state, key, now)
    requires forall k | k in state.arrivals :: state.arrivals[k] <= now
    ensures Check(limiter, state, key, now)
            == Outcome(State(map[key := now + limiter.limits.interval], Some(now + SWEEP_INTERVAL), state.lastOverflowWarning),
                       key, Allowed)
  {}

  /**
   Such a run exists, for any three callers and a map of two: a sweep stamped 2 s forgets a caller
   whose delayed request, stamped 0.5 s, the unpruned limiter refuses.
   */
  lemma OutOfOrderPruningShows(a: Key, b: Key, c: Key)
    requires a != b && b != c && a != c
    ensures var limiter := Limiter(Limits(SECOND, 1), 2);
            var run := [] + [Request(a, 0)] + [Request(b, 0)] + [Request(c, 2 * SECOND)] + [Request(a, SECOND / 2)];
            && At(limiter, run, 3).charged == a
            && At(limiter, run, 3).decision == Allowed
            && UnprunedDecision(limiter, run, 3) == Limited(SECOND / 2, SECOND / 2)
  {
    hide *;
    var limiter := Limiter(Limits(SECOND, 1), 2);
    OutOfOrderStart(limiter, a);
    var one, two, three := OutOfOrderStates(limiter, a, b, c);
    var run := [] + [Request(a, 0)];
    RunExtends(limiter, [], Request(a, 0), one, a);
    RunExtends(limiter, run, Request(b, 0), two, a);
    RunExtends(limiter, run + [Request(b, 0)], Request(c, 2 * SECOND), three, a);
    var last := Check(limiter, three.state, a, SECOND / 2);
    NewCallerWithRoom(limiter, three.state, a, SECOND / 2);
    RunExtends(limiter, run + [Request(b, 0)] + [Request(c, 2 * SECOND)], Request(a, SECOND / 2), last, a);
  }

  lemma OutOfOrderStart(limiter: Limiter, a: Key)
    requires limiter == Limiter(Limits(SECOND, 1), 2)
    ensures limiter.limits.Valid()
    ensures StateAfter(limiter, []) == EMPTY && Lookup(Unpruned(limiter, []), a) == None
    ensures Charge(limiter.limits, None, 0).0 == Some(SECOND)
    ensures Charge(limiter.limits, Some(SECOND), SECOND / 2).1 == Limited(SECOND / 2, SECOND / 2)
  {
    assert limiter.limits.Tolerance() == 0;
    hide Limits.Tolerance, Check;
  }

  lemma OutOfOrderStates(limiter: Limiter, a: Key, b: Key, c: Key) returns (one: Outcome, two: Outcome, three: Outcome)
    requires limiter == Limiter(Limits(SECOND, 1), 2) && a != b && b != c && a != c
    ensures one == Check(limiter, EMPTY, a, 0) && one.charged == a && one.decision.Allowed?
    ensures two == Check(limiter, one.state, b, 0) && two.charged == b
    ensures three == Check(limiter, two.state, c, 2 * SECOND) && three.charged == c
    ensures a !in three.state.arrivals && |three.state.arrivals| < 2
  {
    hide Check;
    NewCallerWithRoom(limiter, EMPTY, a, 0);
    one := Check(limiter, EMPTY, a, 0);
    assert one.state.arrivals == map[a := SECOND];
    NewCallerWithRoom(limiter, one.state, b, 0);
    two := Check(limiter, one.state, b, 0);
    assert two.state.arrivals.Keys == {a, b} && |two.state.arrivals| == |{a, b}| == 2;
    NewCallerAfterSweep(limiter, two.state, c, 2 * SECOND);
    three := Check(limiter, two.state, c, 2 * SECOND);
    assert three.state.arrivals.Keys == {c};
  }
}
