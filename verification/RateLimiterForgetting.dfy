/**
 What forgetting costs when it does show: in every run, in whatever order the lock was taken, a bucket
 starts afresh only at the charges that find it forgotten too early, and is a plain GCRA bucket in between.
 */
module RateLimiterForgetting {
  import opened Common
  import opened Gcra
  import opened RateLimiter
  import opened RateLimiterRuns
  import opened RateLimiterPruning
  import opened RateLimiterWindows

  /** What each bucket last held, whether or not it is still tracked. */
  function Remembered(limiter: Limiter, run: seq<Request>): map<Key, nat>
    requires limiter.limits.Valid()
  {
    if run == [] then map[]
    else
      var n := |run| - 1;
      var before, outcome := Remembered(limiter, run[..n]), At(limiter, run, n);
      if outcome.charged in outcome.state.arrivals
      then before[outcome.charged := outcome.state.arrivals[outcome.charged]] else before
  }

  /** Charge `k` finds its bucket forgotten although what it last held is later than the request's timestamp. */
  predicate Resets(limiter: Limiter, run: seq<Request>, k: nat)
    requires limiter.limits.Valid() && k < |run|
  {
    var (admitted, charged) := Admit(limiter, StateAfter(limiter, run[..k]), run[k].key, run[k].now);
    Forgotten(Remembered(limiter, run[..k]), admitted, charged, run[k].now)
  }

  /** How often one bucket was reset. */
  function ResetsOn(limiter: Limiter, run: seq<Request>, key: Key): nat
    requires limiter.limits.Valid()
  {
    if run == [] then 0
    else
      var n := |run| - 1;
      ResetsOn(limiter, run[..n], key) + if At(limiter, run, n).charged == key && Resets(limiter, run, n) then 1 else 0
  }

  /** The timestamps charged to one bucket from its last reset on. */
  function SinceReset(limiter: Limiter, run: seq<Request>, key: Key): seq<nat>
    requires limiter.limits.Valid()
  {
    if run == [] then []
    else
      var n := |run| - 1;
      var rest := SinceReset(limiter, run[..n], key);
      if At(limiter, run, n).charged != key then rest
      else if Resets(limiter, run, n) then [run[n].now]
      else rest + [run[n].now]
  }

  /** A tracked bucket holds what it last held. */
  ghost predicate Remembers(remembered: map<Key, nat>, state: State) {
    forall key | key in state.arrivals :: key in remembered && remembered[key] == state.arrivals[key]
  }

  /** One charge, against the bucket it last held: as a continued bucket, or as a fresh one after a reset. */
  lemma ChargeContinues(limits: Limits, remembered: map<Key, nat>, state: State, key: Key, now: nat)
    requires limits.Valid() && Remembers(remembered, state)
    ensures var (bucket, decision) := Charge(limits, Lookup(state.arrivals, key), now);
            var from := if Forgotten(remembered, state, key, now) then None else Lookup(remembered, key);
            && bucket.Some?
            && (bucket, decision) == Charge(limits, from, now)
            && Remembers(remembered[key := bucket.value], Store(state, key, bucket))
  {
    assert limits.Tolerance() >= 0;
    hide Limits.Tolerance;
  }

  lemma AdmitRemembers(limiter: Limiter, remembered: map<Key, nat>, state: State, key: Key, now: nat)
    requires Remembers(remembered, state)
    ensures Remembers(remembered, Admit(limiter, state, key, now).0)
  {}

  /** The last charge of a run, in terms of what was remembered before it. */
  lemma LastCharge(limiter: Limiter, run: seq<Request>)
    requires limiter.limits.Valid() && run != []
    requires Remembers(Remembered(limiter, run[..|run| - 1]), StateAfter(limiter, run[..|run| - 1]))
    ensures Remembers(Remembered(limiter, run), StateAfter(limiter, run))
    ensures var n := |run| - 1;
            var before, charged := Remembered(limiter, run[..n]), At(limiter, run, n).charged;
            var from := if Resets(limiter, run, n) then None else Lookup(before, charged);
            var (bucket, decision) := Charge(limiter.limits, from, run[n].now);
            && bucket.Some?
            && At(limiter, run, n).decision == decision
            && Remembered(limiter, run) == before[charged := bucket.value]
  {
    hide Admit, Charge, Remembers;
    var n := |run| - 1;
    var state, remembered := StateAfter(limiter, run[..n]), Remembered(limiter, run[..n]);
    AdmitRemembers(limiter, remembered, state, run[n].key, run[n].now);
    var (admitted, charged) := Admit(limiter, state, run[n].key, run[n].now);
    ChargeContinues(limiter.limits, remembered, admitted, charged, run[n].now);
  }

  lemma {:induction false} RememberedInvariant(limiter: Limiter, run: seq<Request>)
    requires limiter.limits.Valid()
    ensures Remembers(Remembered(limiter, run), StateAfter(limiter, run))
  {
    if run != [] {
      hide *;
      RememberedInvariant(limiter, run[..|run| - 1]);
      LastCharge(limiter, run);
    }
  }

  /** What the last charge does to the history of one bucket. */
  lemma HistoryStep(limiter: Limiter, run: seq<Request>, key: Key)
    requires limiter.limits.Valid() && run != []
    ensures var n := |run| - 1;
            if At(limiter, run, n).charged == key
            then && ResetsOn(limiter, run, key)
                    == ResetsOn(limiter, run[..n], key) + (if Resets(limiter, run, n) then 1 else 0)
                 && SinceReset(limiter, run, key)
                    == (if Resets(limiter, run, n) then [] else SinceReset(limiter, run[..n], key)) + [run[n].now]
            else && ResetsOn(limiter, run, key) == ResetsOn(limiter, run[..n], key)
                 && SinceReset(limiter, run, key) == SinceReset(limiter, run[..n], key)
                 && AllowedOn(limiter, run, key) == AllowedOn(limiter, run[..n], key)
  {
    hide Resets, At;
  }

  /** Between resets, what a bucket holds is that of one GCRA bucket charged in turn. */
  lemma {:induction false} BucketSinceReset(limiter: Limiter, run: seq<Request>, key: Key)
    requires limiter.limits.Valid()
    ensures Lookup(Remembered(limiter, run), key) == After(limiter.limits, None, SinceReset(limiter, run, key))
  {
    if run != [] {
      var n := |run| - 1;
      BucketSinceReset(limiter, run[..n], key);
      RememberedInvariant(limiter, run[..n]);
      LastCharge(limiter, run);
      hide Charge, At, Resets, Remembered, Remembers, StateAfter, SinceReset, After;
      HistoryStep(limiter, run, key);
      AfterOneMore(limiter.limits, SinceReset(limiter, run[..n], key), run[n].now);
      AfterOneMore(limiter.limits, [], run[n].now);
    }
  }

  lemma AfterOneMore(limits: Limits, times: seq<nat>, now: nat)
    requires limits.Valid()
    ensures After(limits, None, []) == None
    ensures After(limits, None, times + [now]) == Charge(limits, After(limits, None, times), now).0
    ensures Admitted(limits, None, times + [now])
            == Admitted(limits, None, times)
               + if Charge(limits, After(limits, None, times), now).1.Allowed? then [now] else []
  {
    hide Charge;
    assert (times + [now])[..|times|] == times;
  }

  /** The most that one bucket allows in a window between resets. */
  function WindowCapacity(limits: Limits, width: nat): nat
    requires limits.Valid()
  {
    limits.burst + width / limits.interval
  }

  lemma SinceResetFits(limiter: Limiter, run: seq<Request>, key: Key, start: nat, width: nat)
    requires limiter.limits.Valid()
    ensures CountIn(Admitted(limiter.limits, None, SinceReset(limiter, run, key)), start, width)
            <= WindowCapacity(limiter.limits, width)
  {
    var times := SinceReset(limiter, run, key);
    AdmittedConform(limiter.limits, times);
    WindowBound(limiter.limits, Admitted(limiter.limits, None, times), start, width);
  }

  /** What one more charge adds to the count of a bucket: to that since its last reset, or to a new one. */
  lemma CountStep(limiter: Limiter, run: seq<Request>, key: Key, start: nat, width: nat)
    requires limiter.limits.Valid() && run != [] && At(limiter, run, |run| - 1).charged == key
    ensures var n := |run| - 1;
            var more := if Resets(limiter, run, n) then 0
                        else CountIn(Admitted(limiter.limits, None, SinceReset(limiter, run[..n], key)), start, width);
            CountIn(AllowedOn(limiter, run, key), start, width) + more
            == CountIn(AllowedOn(limiter, run[..n], key), start, width)
               + CountIn(Admitted(limiter.limits, None, SinceReset(limiter, run, key)), start, width)
  {
    var n := |run| - 1;
    RememberedInvariant(limiter, run[..n]);
    LastCharge(limiter, run);
    BucketSinceReset(limiter, run[..n], key);
    HistoryStep(limiter, run, key);
    hide Charge, At, Resets, Remembered, Remembers, StateAfter, CountIn, SinceReset;
    var limits, now := limiter.limits, run[n].now;
    var rest := if Resets(limiter, run, n) then [] else SinceReset(limiter, run[..n], key);
    AfterOneMore(limits, rest, now);
    CountOneMore(AllowedOn(limiter, run[..n], key), now, start, width);
    CountOneMore(Admitted(limits, None, rest), now, start, width);
    CountNone(start, width);
  }

  lemma CountOneMore(times: seq<nat>, now: nat, start: nat, width: nat)
    ensures CountIn(times + [now], start, width) - CountIn(times, start, width)
            == if start <= now <= start + width then 1 else 0
    ensures times + [] == times
  {
    CountInAppend(times, now, start, width);
  }

  lemma CountNone(start: nat, width: nat)
    ensures CountIn([], start, width) == 0
  {}

  lemma NoHistory(limiter: Limiter, key: Key, start: nat, width: nat)
    requires limiter.limits.Valid()
    ensures CountIn(AllowedOn(limiter, [], key), start, width) == 0
    ensures ResetsOn(limiter, [], key) * WindowCapacity(limiter.limits, width) == 0
  {}

  lemma {:induction false} CountBetweenResets(limiter: Limiter, run: seq<Request>, key: Key, start: nat, width: nat)
    requires limiter.limits.Valid()
    ensures CountIn(AllowedOn(limiter, run, key), start, width)
            <= ResetsOn(limiter, run, key) * WindowCapacity(limiter.limits, width)
               + CountIn(Admitted(limiter.limits, None, SinceReset(limiter, run, key)), start, width)
  {
    hide *;
    if run == [] {
      NoHistory(limiter, key, start, width);
    } else {
      var n := |run| - 1;
      CountBetweenResets(limiter, run[..n], key, start, width);
      HistoryStep(limiter, run, key);
      if At(limiter, run, n).charged == key {
        CountStep(limiter, run, key, start, width);
        SinceResetFits(limiter, run[..n], key, start, width);
        MulSum(ResetsOn(limiter, run[..n], key), 1, WindowCapacity(limiter.limits, width));
      }
    }
  }

  /** In every run, in any lock order, one bucket allows at most resets + 1 times the capacity of a window. */
  lemma BucketWindowAlways(limiter: Limiter, run: seq<Request>, key: Key, start: nat, width: nat)
    requires limiter.limits.Valid()
    ensures CountIn(AllowedOn(limiter, run, key), start, width)
            <= (ResetsOn(limiter, run, key) + 1) * WindowCapacity(limiter.limits, width)
  {
    hide *;
    CountBetweenResets(limiter, run, key, start, width);
    SinceResetFits(limiter, run, key, start, width);
    MulSum(ResetsOn(limiter, run, key), 1, WindowCapacity(limiter.limits, width));
  }

  /** In every run one caller is allowed what its own bucket and the overflow bucket allow. */
  lemma CallerWindowAlways(limiter: Limiter, run: seq<Request>, caller: Key, start: nat, width: nat)
    requires limiter.limits.Valid() && caller != Overflow
    ensures CallerCount(limiter, run, caller, start, width)
            <= (ResetsOn(limiter, run, caller) + 1 + (ResetsOn(limiter, run, Overflow) + 1))
               * WindowCapacity(limiter.limits, width)
  {
    hide *;
    CallerPaysFromTwoBuckets(limiter, run, caller, start, width);
    BucketWindowAlways(limiter, run, caller, start, width);
    BucketWindowAlways(limiter, run, Overflow, start, width);
    MulSum(ResetsOn(limiter, run, caller) + 1, ResetsOn(limiter, run, Overflow) + 1, WindowCapacity(limiter.limits, width));
  }

  // ----- resets are where pruning begins to show

  /** Until a charge is exposed, the unpruned map is what each bucket last held. */
  lemma {:induction false} RememberedIsUnpruned(limiter: Limiter, run: seq<Request>)
    requires limiter.limits.Valid() && NeverExposed(limiter, run)
    ensures Remembered(limiter, run) == Unpruned(limiter, run)
  {
    if run != [] {
      var n := |run| - 1;
      NeverExposedPrefix(limiter, run, n);
      PruningInvariant(limiter, run);
      ChargedIsTracked(limiter, StateAfter(limiter, run[..n]), run[n].key, run[n].now);
      hide NeverExposed, Check, Charge;
      RememberedIsUnpruned(limiter, run[..n]);
    }
  }

  lemma ResetsInPrefix(limiter: Limiter, run: seq<Request>, n: nat, k: nat)
    requires limiter.limits.Valid() && k < n <= |run|
    ensures Resets(limiter, run[..n], k) == Resets(limiter, run, k)
  {
    assert run[..n][..k] == run[..k];
  }

  lemma FirstResetIsExposed(limiter: Limiter, run: seq<Request>, k: nat)
    requires limiter.limits.Valid() && k < |run| && NeverExposed(limiter, run[..k])
    ensures Resets(limiter, run, k) == Exposed(limiter, run, k)
  {
    RememberedIsUnpruned(limiter, run[..k]);
  }

  ghost predicate NeverResets(limiter: Limiter, run: seq<Request>)
    requires limiter.limits.Valid()
  {
    forall k | 0 <= k < |run| :: !Resets(limiter, run, k)
  }

  /** A run resets no bucket if and only if no charge of it is exposed, so if and only if pruning never shows. */
  lemma {:induction false} NeverResetsExactlyWhen(limiter: Limiter, run: seq<Request>)
    requires limiter.limits.Valid()
    ensures NeverResets(limiter, run) <==> NeverExposed(limiter, run)
  {
    hide Resets, Exposed;
    if NeverExposed(limiter, run) {
      forall k | 0 <= k < |run| ensures !Resets(limiter, run, k) {
        NeverExposedPrefix(limiter, run, k);
        FirstResetIsExposed(limiter, run, k);
      }
    } else {
      var k := FirstExposed(limiter, run);
      FirstResetIsExposed(limiter, run, k);
    }
  }

  /** With no reset the bound is the one for runs in which pruning never shows. */
  lemma {:induction false} NoResetsToCount(limiter: Limiter, run: seq<Request>, key: Key)
    requires limiter.limits.Valid() && NeverResets(limiter, run)
    ensures ResetsOn(limiter, run, key) == 0
  {
    if run != [] {
      var n := |run| - 1;
      hide Resets;
      forall k | 0 <= k < n ensures !Resets(limiter, run[..n], k) {
        ResetsInPrefix(limiter, run, n, k);
      }
      NoResetsToCount(limiter, run[..n], key);
    }
  }

  // ----- the bound is reached

  /** One more request, by its outcome. */
  lemma HistoryExtends(limiter: Limiter, run: seq<Request>, request: Request, outcome: Outcome, key: Key)
    requires limiter.limits.Valid()
    requires outcome == Check(limiter, StateAfter(limiter, run), request.key, request.now)
    ensures var longer := run + [request];
            && StateAfter(limiter, longer) == outcome.state
            && AllowedOn(limiter, longer, key)
               == AllowedOn(limiter, run, key)
                  + (if outcome.charged == key && outcome.decision.Allowed? then [request.now] else [])
            && ResetsOn(limiter, longer, key)
               <= ResetsOn(limiter, run, key) + (if outcome.charged == key && run != [] then 1 else 0)
  {
    var longer := run + [request];
    assert longer[..|run|] == run && longer[|run|] == request;
    assert At(limiter, longer, |run|) == outcome;
    assert run == [] ==> !Resets(limiter, longer, 0);
    hide Check, Resets, Remembered, Admit;
  }

  lemma TwoInWindow()
    ensures CountIn([0, SECOND / 2], 0, SECOND / 2) == 2
    ensures WindowCapacity(Limits(SECOND, 1), SECOND / 2) == 1
  {
    CountInAll([0, SECOND / 2], 0, SECOND / 2);
  }

  /**
   The bound is reached: a run out of time order in which the bucket of `a` is reset once allows twice the
   capacity of a window of half a second.
   */
  lemma ForgettingBoundAttained(a: Key, b: Key, c: Key)
    requires a != b && b != c && a != c
    ensures var limiter := Limiter(Limits(SECOND, 1), 2);
            var run := [] + [Request(a, 0)] + [Request(b, 0)] + [Request(c, 2 * SECOND)] + [Request(a, SECOND / 2)];
            && ResetsOn(limiter, run, a) == 1
            && CountIn(AllowedOn(limiter, run, a), 0, SECOND / 2)
               == (ResetsOn(limiter, run, a) + 1) * WindowCapacity(limiter.limits, SECOND / 2) == 2
  {
    hide *;
    var limiter := Limiter(Limits(SECOND, 1), 2);
    OutOfOrderStart(limiter, a);
    var one, two, three := OutOfOrderStates(limiter, a, b, c);
    NewCallerWithRoom(limiter, three.state, a, SECOND / 2);
    var last := Check(limiter, three.state, a, SECOND / 2);
    var run1 := [] + [Request(a, 0)];
    var run2 := run1 + [Request(b, 0)];
    var run3 := run2 + [Request(c, 2 * SECOND)];
    NothingYet(limiter, a);
    HistoryExtends(limiter, [], Request(a, 0), one, a);
    HistoryExtends(limiter, run1, Request(b, 0), two, a);
    HistoryExtends(limiter, run2, Request(c, 2 * SECOND), three, a);
    HistoryExtends(limiter, run3, Request(a, SECOND / 2), last, a);
    var run := run3 + [Request(a, SECOND / 2)];
    assert AllowedOn(limiter, run, a) == [0, SECOND / 2];
    TwoInWindow();
    BucketWindowAlways(limiter, run, a, 0, SECOND / 2);
  }

  lemma NothingYet(limiter: Limiter, key: Key)
    requires limiter.limits.Valid()
    ensures AllowedOn(limiter, [], key) == [] && ResetsOn(limiter, [], key) == 0
  {}
}
