/** How much one bucket, and one caller, is allowed in a window. */
module RateLimiterWindows {
  import opened Common
  import opened Gcra
  import opened RateLimiter
  import opened RateLimiterRuns
  import opened RateLimiterPruning
  import RateLimitConfig

  /** The timestamps charged to one bucket. */
  function ChargedTo(limiter: Limiter, run: seq<Request>, key: Key): seq<nat>
    requires limiter.limits.Valid()
  {
    if run == [] then []
    else
      var n := |run| - 1;
      var rest := ChargedTo(limiter, run[..n], key);
      if At(limiter, run, n).charged == key then rest + [run[n].now] else rest
  }

  /** The timestamps the limiter allowed on one bucket. */
  function AllowedOn(limiter: Limiter, run: seq<Request>, key: Key): seq<nat>
    requires limiter.limits.Valid()
  {
    if run == [] then []
    else
      var n := |run| - 1;
      var rest := AllowedOn(limiter, run[..n], key);
      var outcome := At(limiter, run, n);
      if outcome.charged == key && outcome.decision.Allowed? then rest + [run[n].now] else rest
  }

  /** How many of a caller's requests in a window were allowed, whichever bucket paid. */
  function CallerCount(limiter: Limiter, run: seq<Request>, caller: Key, start: nat, width: nat): nat
    requires limiter.limits.Valid()
  {
    if run == [] then 0
    else
      var n := |run| - 1;
      CallerCount(limiter, run[..n], caller, start, width)
      + if run[n].key == caller && At(limiter, run, n).decision.Allowed? && start <= run[n].now <= start + width
        then 1 else 0
  }

  /** The unpruned map is one independent GCRA bucket per key. */
  lemma {:induction false} UnprunedIsPerKey(limiter: Limiter, run: seq<Request>, key: Key)
    requires limiter.limits.Valid()
    ensures Lookup(Unpruned(limiter, run), key) == After(limiter.limits, None, ChargedTo(limiter, run, key))
  {
    if run != [] {
      var n := |run| - 1;
      UnprunedIsPerKey(limiter, run[..n], key);
      var times := ChargedTo(limiter, run[..n], key);
      assert (times + [run[n].now])[..|times|] == times;
    }
  }

  lemma {:induction false} AllowedIsAdmitted(limiter: Limiter, run: seq<Request>, key: Key)
    requires limiter.limits.Valid() && NeverExposed(limiter, run)
    ensures AllowedOn(limiter, run, key) == Admitted(limiter.limits, None, ChargedTo(limiter, run, key))
  {
    if run != [] {
      var n := |run| - 1;
      var before := run[..n];
      NeverExposedPrefix(limiter, run, n);
      AllowedIsAdmitted(limiter, before, key);
      UnprunedIsPerKey(limiter, before, key);
      PrunedDecision(limiter, run, n);
      hide Check, StateAfter, Unpruned, Charge, NeverExposed, Lookup;
      var times := ChargedTo(limiter, before, key);
      assert (times + [run[n].now])[..|times|] == times;
    }
  }

  /** One bucket allows at most burst + floor(width / interval) requests in any window. */
  lemma BucketWindowBound(limiter: Limiter, run: seq<Request>, key: Key, start: nat, width: nat)
    requires limiter.limits.Valid() && NeverExposed(limiter, run)
    ensures Conforms(limiter.limits, AllowedOn(limiter, run, key))
    ensures CountIn(AllowedOn(limiter, run, key), start, width)
            <= limiter.limits.burst + width / limiter.limits.interval
  {
    AllowedIsAdmitted(limiter, run, key);
    AdmittedConform(limiter.limits, ChargedTo(limiter, run, key));
    WindowBound(limiter.limits, AllowedOn(limiter, run, key), start, width);
  }

  lemma ChargedToOwnOrOverflow(limiter: Limiter, state: State, key: Key, now: nat)
    requires limiter.limits.Valid()
    ensures Check(limiter, state, key, now).charged in {key, Overflow}
  {}

  lemma {:induction false} CallerPaysFromTwoBuckets(limiter: Limiter, run: seq<Request>, caller: Key, start: nat, width: nat)
    requires limiter.limits.Valid() && caller != Overflow
    ensures CallerCount(limiter, run, caller, start, width)
            <= CountIn(AllowedOn(limiter, run, caller), start, width)
               + CountIn(AllowedOn(limiter, run, Overflow), start, width)
  {
    if run != [] {
      var n := |run| - 1;
      ChargedToOwnOrOverflow(limiter, StateAfter(limiter, run[..n]), run[n].key, run[n].now);
      hide Check, StateAfter;
      CallerPaysFromTwoBuckets(limiter, run[..n], caller, start, width);
      CountInAppend(AllowedOn(limiter, run[..n], caller), run[n].now, start, width);
      CountInAppend(AllowedOn(limiter, run[..n], Overflow), run[n].now, start, width);
      hide CountIn;
    }
  }

  lemma CountInAppend(times: seq<nat>, now: nat, start: nat, width: nat)
    ensures CountIn(times + [now], start, width)
            == CountIn(times, start, width) + if start <= now <= start + width then 1 else 0
  {}

  /** One caller, counting what the overflow bucket paid, gets at most twice one bucket's window. */
  lemma CallerWindowBound(limiter: Limiter, run: seq<Request>, caller: Key, start: nat, width: nat)
    requires limiter.limits.Valid() && caller != Overflow && NeverExposed(limiter, run)
    ensures CallerCount(limiter, run, caller, start, width)
            <= 2 * (limiter.limits.burst + width / limiter.limits.interval)
  {
    CallerPaysFromTwoBuckets(limiter, run, caller, start, width);
    BucketWindowBound(limiter, run, caller, start, width);
    BucketWindowBound(limiter, run, Overflow, start, width);
  }

  /** When the division loses less than an interval, a minute allows one caller at most 2 * (burst + requestsPerMinute). */
  lemma CallerMinuteBound(config: RateLimitConfig.Config, maxKeys: nat, run: seq<Request>, caller: Key, start: nat)
    requires caller != Overflow
    requires RateLimitConfig.MINUTE % config.requestsPerMinute < RateLimitConfig.Interval(config)
    requires NeverExposed(Limiter(RateLimitConfig.LimitsOf(config), maxKeys), run)
    ensures CallerCount(Limiter(RateLimitConfig.LimitsOf(config), maxKeys), run, caller, start, RateLimitConfig.MINUTE)
            <= 2 * (config.burst + config.requestsPerMinute)
  {
    RateLimitConfig.MinuteCapacity(config);
    var limiter := Limiter(RateLimitConfig.LimitsOf(config), maxKeys);
    CallerWindowBound(limiter, run, caller, start, RateLimitConfig.MINUTE);
  }

  // ----- the factor two is reached

  const SLOW_INTERVAL: nat := 2 * SECOND

  /** A map of two callers, `burst` requests each. */
  function SmallLimiter(burst: nat): (limiter: Limiter)
    requires burst > 0
    ensures limiter.limits.Valid()
  {
    Limiter(Limits(SLOW_INTERVAL, burst), 2)
  }

  /** Two other callers fill the map; `caller` sends a burst at 1 s, and another at 2 s. */
  function TwoBursts(x: Key, y: Key, caller: Key, burst: nat): seq<Request> {
    Then(Then(Fillers(x, y), caller, burst, SECOND), caller, burst, 2 * SECOND)
  }

  function Fillers(x: Key, y: Key): seq<Request> {
    [Request(x, 0), Request(y, 0)]
  }

  function Intervals(count: nat): nat {
    SLOW_INTERVAL * count
  }

  lemma IntervalsAdd(count: nat, burst: nat)
    requires 0 < count <= burst
    ensures Intervals(0) == 0 && Intervals(count) == Intervals(count - 1) + SLOW_INTERVAL
    ensures 0 <= Intervals(count - 1) <= Intervals(burst - 1)
    ensures SECOND + Intervals(burst) > 2 * SECOND
  {}

  predicate Different(x: Key, y: Key, caller: Key) {
    x != y && x != caller && y != caller && Overflow !in {x, y, caller}
  }

  lemma AfterFillers(x: Key, y: Key, caller: Key, burst: nat)
    requires burst > 0 && Different(x, y, caller)
    ensures StateAfter(SmallLimiter(burst), Fillers(x, y)) == Filled(x, y)
  {
    var limiter, run := SmallLimiter(burst), Fillers(x, y);
    hide Check;
    assert run[..1][..0] == [] && run[..1][0] == run[0];
    NewCallerWithRoom(limiter, EMPTY, x, 0);
    NewCallerWithRoom(limiter, State(map[x := SLOW_INTERVAL], None, None), y, 0);
    assert StateAfter(limiter, run[..1]) == Check(limiter, EMPTY, x, 0).state;
  }

  /** The state while the overflow bucket pays: full since 0 s, swept in vain at 1 s. */
  function Crowded(x: Key, y: Key, shared: nat): State {
    State(map[x := SLOW_INTERVAL, y := SLOW_INTERVAL, Overflow := shared], Some(2 * SECOND), Some(SECOND))
  }

  /** The state while the caller's own bucket pays: the two others were swept at 2 s. */
  function Cleared(caller: Key, shared: nat, own: nat): State {
    State(map[Overflow := shared, caller := own], Some(3 * SECOND), Some(SECOND))
  }

  /** The state once two other callers have filled the map. */
  function Filled(x: Key, y: Key): State {
    State(map[x := SLOW_INTERVAL, y := SLOW_INTERVAL], None, None)
  }

  lemma FilledIsFull(x: Key, y: Key, caller: Key, burst: nat)
    requires burst > 0 && Different(x, y, caller)
    ensures Full(SmallLimiter(burst), Filled(x, y), caller) && |Filled(x, y).arrivals| == 2
  {
    assert Filled(x, y).arrivals.Keys == {x, y} && |Filled(x, y).arrivals| == |{x, y}|;
  }

  lemma FilledIsSweptInVain(x: Key, y: Key)
    ensures Sweep(Filled(x, y), SECOND) == Filled(x, y).(nextSweep := Some(2 * SECOND))
  {
    assert Sweep(Filled(x, y), SECOND).arrivals == Filled(x, y).arrivals;
  }

  lemma FirstOverflow(x: Key, y: Key, caller: Key, burst: nat)
    requires burst > 0 && Different(x, y, caller)
    ensures Check(SmallLimiter(burst), Filled(x, y), caller, SECOND)
            == Outcome(Crowded(x, y, SECOND + SLOW_INTERVAL), Overflow, Allowed)
  {
    FilledIsFull(x, y, caller, burst);
    FilledIsSweptInVain(x, y);
    hide Full, Sweep;
    var warned := Filled(x, y).(nextSweep := Some(2 * SECOND), lastOverflowWarning := Some(SECOND));
    assert Admit(SmallLimiter(burst), Filled(x, y), caller, SECOND) == (warned, Overflow);
  }

  /** A new caller finds three tracked keys in a map of two. */
  lemma CrowdedIsFull(x: Key, y: Key, caller: Key, burst: nat, shared: nat)
    requires burst > 0 && Different(x, y, caller)
    ensures Full(SmallLimiter(burst), Crowded(x, y, shared), caller)
  {
    var arrivals := Crowded(x, y, shared).arrivals;
    assert arrivals.Keys == {x, y, Overflow} && |arrivals| == |{x, y, Overflow}| == 3;
  }

  lemma NextOverflow(x: Key, y: Key, caller: Key, burst: nat, shared: nat)
    requires burst > 0 && Different(x, y, caller)
    requires SECOND <= shared <= SECOND + Intervals(burst - 1)
    ensures Check(SmallLimiter(burst), Crowded(x, y, shared), caller, SECOND)
            == Outcome(Crowded(x, y, shared + SLOW_INTERVAL), Overflow, Allowed)
  {
    CrowdedIsFull(x, y, caller, burst, shared);
    hide Full;
    assert Admit(SmallLimiter(burst), Crowded(x, y, shared), caller, SECOND) == (Crowded(x, y, shared), Overflow);
  }

  lemma CrowdedIsSwept(x: Key, y: Key, caller: Key, shared: nat)
    requires Different(x, y, caller) && shared > 2 * SECOND
    ensures Sweep(Crowded(x, y, shared), 2 * SECOND) == State(map[Overflow := shared], Some(3 * SECOND), Some(SECOND))
  {
    assert Sweep(Crowded(x, y, shared), 2 * SECOND).arrivals == map[Overflow := shared];
  }

  lemma FirstOwn(x: Key, y: Key, caller: Key, burst: nat, shared: nat)
    requires burst > 0 && Different(x, y, caller) && shared > 2 * SECOND
    ensures Check(SmallLimiter(burst), Crowded(x, y, shared), caller, 2 * SECOND)
            == Outcome(Cleared(caller, shared, 2 * SECOND + SLOW_INTERVAL), caller, Allowed)
  {
    var swept := State(map[Overflow := shared], Some(3 * SECOND), Some(SECOND));
    CrowdedIsFull(x, y, caller, burst, shared);
    CrowdedIsSwept(x, y, caller, shared);
    hide Full, Sweep;
    assert Admit(SmallLimiter(burst), Crowded(x, y, shared), caller, 2 * SECOND) == (swept, caller);
  }

  lemma NextOwn(x: Key, y: Key, caller: Key, burst: nat, shared: nat, own: nat)
    requires burst > 0 && Different(x, y, caller)
    requires 2 * SECOND <= own <= 2 * SECOND + Intervals(burst - 1)
    ensures Check(SmallLimiter(burst), Cleared(caller, shared, own), caller, 2 * SECOND)
            == Outcome(Cleared(caller, shared, own + SLOW_INTERVAL), caller, Allowed)
  {}

  /** An allowed request inside the window counts. */
  lemma CountOneMore(limiter: Limiter, run: seq<Request>, caller: Key, at: nat, start: nat, width: nat, after: State, charged: Key)
    requires limiter.limits.Valid() && start <= at <= start + width
    requires Check(limiter, StateAfter(limiter, run), caller, at) == Outcome(after, charged, Allowed)
    ensures var longer := run + [Request(caller, at)];
            && StateAfter(limiter, longer) == after
            && CallerCount(limiter, longer, caller, start, width) == CallerCount(limiter, run, caller, start, width) + 1
  {
    var longer := run + [Request(caller, at)];
    assert longer[..|run|] == run;
    hide Check;
  }

  lemma {:induction false} OverflowPays(x: Key, y: Key, caller: Key, burst: nat, count: nat)
    requires Different(x, y, caller) && 0 < count <= burst
    ensures var limiter, run := SmallLimiter(burst), Then(Fillers(x, y), caller, count, SECOND);
            && StateAfter(limiter, run) == Crowded(x, y, SECOND + Intervals(count))
            && CallerCount(limiter, run, caller, SECOND, SECOND) == count
  {
    hide *;
    var limiter, before := SmallLimiter(burst), Then(Fillers(x, y), caller, count - 1, SECOND);
    var shared := SECOND + Intervals(count - 1);
    IntervalsAdd(count, burst);
    ThenGrows(Fillers(x, y), caller, count, SECOND);
    if count == 1 {
      AfterFillers(x, y, caller, burst);
      FillersDoNotCount(x, y, caller, burst);
      FirstOverflow(x, y, caller, burst);
    } else {
      OverflowPays(x, y, caller, burst, count - 1);
      NextOverflow(x, y, caller, burst, shared);
    }
    CountOneMore(limiter, before, caller, SECOND, SECOND, SECOND, Crowded(x, y, shared + SLOW_INTERVAL), Overflow);
  }

  lemma FillersDoNotCount(x: Key, y: Key, caller: Key, burst: nat)
    requires burst > 0 && Different(x, y, caller)
    ensures CallerCount(SmallLimiter(burst), Fillers(x, y), caller, SECOND, SECOND) == 0
  {
    var limiter, run := SmallLimiter(burst), Fillers(x, y);
    assert run[..1][..0] == [] && run[..1][0].key == x && run[1].key == y;
    hide At;
    assert CallerCount(limiter, run[..1], caller, SECOND, SECOND) == 0;
  }

  lemma {:induction false} OwnBucketPays(x: Key, y: Key, caller: Key, burst: nat, count: nat)
    requires Different(x, y, caller) && 0 < count <= burst
    ensures var limiter := SmallLimiter(burst);
            var run := Then(Then(Fillers(x, y), caller, burst, SECOND), caller, count, 2 * SECOND);
            && StateAfter(limiter, run)
               == Cleared(caller, SECOND + Intervals(burst), 2 * SECOND + Intervals(count))
            && CallerCount(limiter, run, caller, SECOND, SECOND) == burst + count
  {
    hide *;
    var limiter, first := SmallLimiter(burst), Then(Fillers(x, y), caller, burst, SECOND);
    var before := Then(first, caller, count - 1, 2 * SECOND);
    var shared, own := SECOND + Intervals(burst), 2 * SECOND + Intervals(count - 1);
    IntervalsAdd(count, burst);
    ThenGrows(first, caller, count, 2 * SECOND);
    if count == 1 {
      OverflowPays(x, y, caller, burst, burst);
      FirstOwn(x, y, caller, burst, shared);
    } else {
      OwnBucketPays(x, y, caller, burst, count - 1);
      NextOwn(x, y, caller, burst, shared, own);
    }
    CountOneMore(limiter, before, caller, 2 * SECOND, SECOND, SECOND, Cleared(caller, shared, own + SLOW_INTERVAL), caller);
  }

  lemma TwoBurstsInOrder(x: Key, y: Key, caller: Key, burst: nat)
    ensures InTimeOrder(TwoBursts(x, y, caller, burst))
  {
    var run := TwoBursts(x, y, caller, burst);
    assert forall i | 0 <= i < |run| :: run[i].now == if i < 2 then 0 else if i < 2 + burst then SECOND else 2 * SECOND;
  }

  /**
   The bound is reached, for any burst and any three callers, by a run in time order: within one second
   the overflow bucket pays a full burst of the caller and then its own new bucket pays another.
   */
  lemma CallerWindowBoundAttained(x: Key, y: Key, caller: Key, burst: nat)
    requires burst > 0 && Different(x, y, caller)
    ensures var limiter, run := SmallLimiter(burst), TwoBursts(x, y, caller, burst);
            && InTimeOrder(run) && NeverExposed(limiter, run)
            && CallerCount(limiter, run, caller, SECOND, SECOND) == 2 * (limiter.limits.burst + SECOND / limiter.limits.interval)
  {
    var limiter, run := SmallLimiter(burst), TwoBursts(x, y, caller, burst);
    assert limiter.limits.burst == burst && SECOND / limiter.limits.interval == 0;
    assert run == Then(Then(Fillers(x, y), caller, burst, SECOND), caller, burst, 2 * SECOND);
    TwoBurstsInOrder(x, y, caller, burst);
    hide *;
    PruningIsInvisible(limiter, run);
    OwnBucketPays(x, y, caller, burst, burst);
  }
}
