/** The token bucket that the limiter's documentation says GCRA is equivalent to. */
module TokenBucket {
  import opened Common
  import opened Gcra

  /** `tokens` as of the instant `at`; one token drips in per nanosecond. */
  datatype Tokens = Tokens(tokens: nat, at: nat)

  function Capacity(limits: Limits): nat {
    limits.burst * limits.interval
  }

  function Full(limits: Limits): Tokens {
    Tokens(Capacity(limits), 0)
  }

  function Refill(limits: Limits, bucket: Tokens, now: nat): Tokens
    requires bucket.at <= now
  {
    var dripped := bucket.tokens + (now - bucket.at);
    Tokens(if dripped < Capacity(limits) then dripped else Capacity(limits), now)
  }

  /** Spend one interval's worth of tokens, or nothing when there are too few. */
  function Spend(limits: Limits, bucket: Tokens, now: nat): (Tokens, bool)
    requires bucket.at <= now
  {
    var filled := Refill(limits, bucket, now);
    if filled.tokens >= limits.interval then (filled.(tokens := filled.tokens - limits.interval), true)
    else (filled, false)
  }

  function TokensAfter(limits: Limits, times: seq<nat>): (bucket: Tokens)
    requires Nondecreasing(times)
    ensures bucket.at == if times == [] then 0 else times[|times| - 1]
  {
    if times == [] then Full(limits)
    else
      var n := |times| - 1;
      Spend(limits, TokensAfter(limits, times[..n]), times[n]).0
  }

  /** Tokens are the part of the capacity that the theoretical arrival time has not claimed. */
  ghost predicate Represents(limits: Limits, tokens: Tokens, bucket: Bucket) {
    tokens.tokens == Capacity(limits) - (Arrival(bucket, tokens.at) - tokens.at)
  }

  lemma SpendStep(limits: Limits, tokens: Tokens, bucket: Bucket, now: nat)
    requires limits.Valid() && Represents(limits, tokens, bucket) && tokens.at <= now
    ensures Spend(limits, tokens, now).1 == Admits(limits, bucket, now)
    ensures Represents(limits, Spend(limits, tokens, now).0, Charge(limits, bucket, now).0)
  {}

  lemma {:induction false} RepresentsRun(limits: Limits, times: seq<nat>)
    requires limits.Valid() && Nondecreasing(times)
    ensures Represents(limits, TokensAfter(limits, times), After(limits, None, times))
  {
    if times != [] {
      var n := |times| - 1;
      RepresentsRun(limits, times[..n]);
      SpendStep(limits, TokensAfter(limits, times[..n]), After(limits, None, times[..n]), times[n]);
    }
  }

  /**
   Over every run in time order the two limiters answer every request alike, and their
   states correspond after every prefix of the run.
   */
  lemma TokenBucketEquivalence(limits: Limits, times: seq<nat>)
    requires limits.Valid() && Nondecreasing(times)
    ensures forall k | 0 <= k <= |times| ::
              Represents(limits, TokensAfter(limits, times[..k]), After(limits, None, times[..k]))
    ensures forall k | 0 <= k < |times| ::
              Spend(limits, TokensAfter(limits, times[..k]), times[k]).1
              == Admits(limits, After(limits, None, times[..k]), times[k])
  {
    forall k | 0 <= k <= |times|
      ensures Represents(limits, TokensAfter(limits, times[..k]), After(limits, None, times[..k]))
    {
      RepresentsRun(limits, times[..k]);
    }
    forall k | 0 <= k < |times|
      ensures Spend(limits, TokensAfter(limits, times[..k]), times[k]).1
              == Admits(limits, After(limits, None, times[..k]), times[k])
    {
      SpendStep(limits, TokensAfter(limits, times[..k]), After(limits, None, times[..k]), times[k]);
    }
  }
}
