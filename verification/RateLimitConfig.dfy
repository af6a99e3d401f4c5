/** The validated rate, and the integer arithmetic that turns it into nanoseconds. */
module RateLimitConfig {
  import opened Common
  import opened Gcra

  const U32_LIMIT: nat := 0x1_0000_0000
  const MINUTE: nat := 60 * SECOND
  const HOUR: nat := 60 * MINUTE

  type NonZeroU32 = n: nat | 0 < n < U32_LIMIT witness 1

  datatype Config = Config(requestsPerMinute: NonZeroU32, burst: NonZeroU32)

  datatype ConfigError = BurstTooLarge(burst: nat, max: nat)

  /** A burst defaults to one minute of requests and may be at most one hour of them. */
  function New(requestsPerMinute: NonZeroU32, burst: Option<NonZeroU32>): (r: Result<Config, ConfigError>)
    ensures r.Ok? <==> (burst.Some? ==> burst.value <= 60 * requestsPerMinute)
    ensures r.Ok? ==> Accepted(r.value) && r.value.requestsPerMinute == requestsPerMinute
    ensures r.Ok? ==> r.value.burst == if burst.Some? then burst.value else requestsPerMinute
    ensures r.Err? ==> burst.Some? && r.error == BurstTooLarge(burst.value, 60 * requestsPerMinute)
  {
    var chosen := if burst.Some? then burst.value else requestsPerMinute;
    var max := requestsPerMinute * 60;
    if chosen > max then Err(BurstTooLarge(chosen, max)) else Ok(Config(requestsPerMinute, chosen))
  }

  ghost predicate Accepted(config: Config) {
    config.burst <= 60 * config.requestsPerMinute
  }

  /** Duration division as it is computed: whole seconds first, then the nanoseconds of the remainder. */
  function DivideSeconds(seconds: nat, divisor: NonZeroU32): nat {
    Quotient(seconds, divisor) * SECOND + Quotient(seconds % divisor * SECOND, divisor)
  }

  function Quotient(total: nat, divisor: nat): nat
    requires divisor > 0
  {
    total / divisor
  }

  lemma DivideSecondsIsFloor(seconds: nat, divisor: NonZeroU32)
    ensures DivideSeconds(seconds, divisor) == seconds * SECOND / divisor
  {
    var whole, carried := Quotient(seconds, divisor), seconds % divisor * SECOND;
    SplitDivision(seconds, divisor);
    SplitDivision(carried, divisor);
    var low := Quotient(carried, divisor);
    Regroup(whole, divisor, low, SECOND);
    DivisionIsUnique(seconds * SECOND, divisor, whole * SECOND + low, carried % divisor);
  }

  lemma SplitDivision(total: nat, divisor: nat)
    requires divisor > 0
    ensures total == (total / divisor) * divisor + total % divisor
  {}

  lemma Regroup(whole: nat, divisor: nat, low: nat, unit: nat)
    ensures (whole * divisor) * unit + low * divisor == (whole * unit + low) * divisor
  {}

  lemma DivisionIsUnique(total: nat, divisor: nat, quotient: nat, remainder: nat)
    requires 0 <= remainder < divisor && total == quotient * divisor + remainder
    ensures total / divisor == quotient && total % divisor == remainder
  {
    FloorIsLargest(quotient, divisor, total);
    FloorIsLargest(quotient + 1, divisor, total);
  }

  function Interval(config: Config): nat {
    DivideSeconds(60, config.requestsPerMinute)
  }

  /** The interval is the quotient of a minute by the rate. */
  lemma IntervalIsQuotient(config: Config)
    ensures Interval(config) == 60_000_000_000 / config.requestsPerMinute
    ensures var rpm, interval := config.requestsPerMinute, Interval(config);
            && MINUTE == interval * rpm + MINUTE % rpm
            && 13 <= interval <= MINUTE
  {
    var rpm := config.requestsPerMinute;
    DivideSecondsIsFloor(60, rpm);
    hide DivideSeconds;
    SplitDivision(MINUTE, rpm);
    FloorIsLargest(13, rpm, MINUTE);
    FloorIsLargest(MINUTE + 1, rpm, MINUTE);
  }

  function LimitsOf(config: Config): (limits: Limits)
    ensures limits.Valid() && limits.burst == config.burst && limits.interval == Interval(config)
  {
    IntervalIsQuotient(config);
    Limits(Interval(config), config.burst)
  }

  /** No 32-bit rate rounds the interval to zero, and no accepted burst reaches an hour of tolerance. */
  lemma ArithmeticIsBounded(config: Config)
    requires Accepted(config)
    ensures LimitsOf(config).Valid()
    ensures 13 <= Interval(config) <= 60_000_000_000
    ensures LimitsOf(config).Tolerance() < 3_600_000_000_000
  {
    IntervalIsQuotient(config);
    hide Interval;
    ToleranceBound(Interval(config), config.requestsPerMinute, config.burst);
  }

  lemma ToleranceBound(interval: nat, rpm: nat, burst: nat)
    requires 0 < interval && interval * rpm <= MINUTE && 0 < burst <= 60 * rpm
    ensures interval * (burst - 1) < HOUR
  {}

  /**
   A minute holds requestsPerMinute intervals and no more if and only if the remainder lost by the
   floor division is smaller than one interval.
   */
  lemma MinuteCapacity(config: Config)
    ensures Interval(config) > 0
    ensures MINUTE / Interval(config) >= config.requestsPerMinute
    ensures MINUTE / Interval(config) == config.requestsPerMinute
            <==> MINUTE % config.requestsPerMinute < Interval(config)
    ensures config.requestsPerMinute * (config.requestsPerMinute + 1) <= MINUTE
            ==> MINUTE / Interval(config) == config.requestsPerMinute
  {
    IntervalIsQuotient(config);
    hide Interval;
    QuotientTwice(config.requestsPerMinute, Interval(config), MINUTE % config.requestsPerMinute);
  }

  /** Dividing a minute by its own quotient gives the divisor back, plus what the remainder still holds. */
  lemma QuotientTwice(rpm: nat, interval: nat, lost: nat)
    requires 0 < interval && MINUTE == interval * rpm + lost && lost < rpm
    ensures MINUTE / interval >= rpm
    ensures MINUTE / interval == rpm <==> lost < interval
    ensures rpm * (rpm + 1) <= MINUTE ==> lost < interval
  {
    FloorIsLargest(rpm, interval, MINUTE);
    FloorIsLargest(rpm + 1, interval, MINUTE);
    assert (rpm + 1) * interval == interval * rpm + interval;
    if interval <= lost {
      MulMonotone(interval, rpm - 1, rpm);
      assert (rpm - 1) * rpm + rpm == rpm * rpm;
      assert rpm * (rpm + 1) == rpm * rpm + rpm;
    }
  }

  /**
   Some schedule, sent in order to a fresh bucket and admitted in full, exceeds burst + requestsPerMinute
   in the minute from `start` if and only if the lost remainder reaches one interval.
   */
  lemma MinuteIsExceededExactlyWhen(config: Config, start: nat)
    ensures (exists times ::
               && Nondecreasing(times)
               && AllAdmitted(LimitsOf(config), None, times)
               && CountIn(times, start, MINUTE) > config.burst + config.requestsPerMinute)
            <==> MINUTE % config.requestsPerMinute >= Interval(config)
  {
    var limits := LimitsOf(config);
    MinuteCapacity(config);
    assert limits == Limits(Interval(config), config.burst);
    hide *;
    WindowBoundAttained(limits, start, MINUTE);
    forall times | AllAdmitted(limits, None, times)
      ensures CountIn(times, start, MINUTE) <= config.burst + MINUTE / Interval(config)
    {
      ExactAdmission(limits, times);
      WindowBound(limits, times, start, MINUTE);
    }
  }

  /** At the largest 32-bit rate a fresh bucket admits 4,615,384,616 requests in a minute, over 320 million too many. */
  lemma LargestRateIsExceeded()
    ensures var config := Config(U32_LIMIT - 1, 1);
            var times := FullestSchedule(LimitsOf(config), 0, MINUTE);
            && Accepted(config)
            && AllAdmitted(LimitsOf(config), None, times)
            && CountIn(times, 0, MINUTE) == 4_615_384_616 > config.burst + config.requestsPerMinute
  {
    var config := Config(U32_LIMIT - 1, 1);
    assert LimitsOf(config) == Limits(13, 1);
    WindowBoundAttained(LimitsOf(config), 0, MINUTE);
  }
}
