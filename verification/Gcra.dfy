/**
 The generic cell rate algorithm: one bucket is a single theoretical arrival time.
 Everything here is about one bucket and any sequence of timestamps charged to it;
 nothing assumes that the timestamps are in order, because the limiter reads its
 clock before it takes its lock.
 */
module Gcra {
  import opened Common

  /** The spacing and burst of a limiter, both positive once the configuration is accepted. */
  datatype Limits = Limits(interval: nat, burst: nat) {
    predicate Valid() {
      interval > 0 && burst > 0
    }

    function Tolerance(): nat
      requires Valid()
    {
      interval * (burst - 1)
    }
  }

  /** The next theoretical arrival time, or nothing for a caller without a bucket. */
  type Bucket = Option<nat>

  datatype Decision = Allowed | Limited(retryAfter: nat, reset: nat)

  /** When the next request would arrive if it were sent now. */
  function Arrival(bucket: Bucket, now: nat): nat {
    if bucket.Some? && bucket.value > now then bucket.value else now
  }

  /** Charge one request: the new bucket and the answer. */
  function Charge(limits: Limits, bucket: Bucket, now: nat): (Bucket, Decision)
    requires limits.Valid()
  {
    var arrival := Arrival(bucket, now);
    if arrival > now + limits.Tolerance() then
      (bucket, Limited(arrival - limits.Tolerance() - now, arrival - now))
    else
      (Some(arrival + limits.interval), Allowed)
  }

  predicate Admits(limits: Limits, bucket: Bucket, now: nat)
    requires limits.Valid()
  {
    Charge(limits, bucket, now).1.Allowed?
  }

  /** The bucket after charging every timestamp in turn. */
  function After(limits: Limits, bucket: Bucket, times: seq<nat>): Bucket
    requires limits.Valid()
  {
    if times == [] then bucket
    else
      var n := |times| - 1;
      Charge(limits, After(limits, bucket, times[..n]), times[n]).0
  }

  /** The timestamps that were allowed, in the order they were charged. */
  function Admitted(limits: Limits, bucket: Bucket, times: seq<nat>): seq<nat>
    requires limits.Valid()
  {
    if times == [] then []
    else
      var n := |times| - 1;
      var rest := Admitted(limits, bucket, times[..n]);
      if Admits(limits, After(limits, bucket, times[..n]), times[n]) then rest + [times[n]] else rest
  }

  predicate AllAdmitted(limits: Limits, bucket: Bucket, times: seq<nat>)
    requires limits.Valid()
  {
    forall k | 0 <= k < |times| :: Admits(limits, After(limits, bucket, times[..k]), times[k])
  }

  /** Any run of m requests beyond the burst spans at least (m - burst) intervals. */
  ghost predicate Conforms(limits: Limits, times: seq<nat>) {
    forall i, j | 0 <= i <= j < |times| ::
      times[i] + (j - i + 1 - limits.burst) * limits.interval <= times[j]
  }

  /** The latest time to which request `i` of `n` pushes the bucket. */
  function Push(limits: Limits, times: seq<nat>, i: nat): int
    requires i < |times|
  {
    times[i] + (|times| - i) * limits.interval
  }

  /** The bucket holds the greatest push of the requests admitted so far. */
  ghost predicate IsFrontier(limits: Limits, times: seq<nat>, bucket: Bucket) {
    if times == [] then bucket.None?
    else
      && bucket.Some?
      && (forall i | 0 <= i < |times| :: Push(limits, times, i) <= bucket.value)
      && (exists i :: 0 <= i < |times| && Push(limits, times, i) == bucket.value)
  }

  lemma PushGrows(limits: Limits, times: seq<nat>, now: nat, i: nat)
    requires i < |times|
    ensures Push(limits, times + [now], i) == Push(limits, times, i) + limits.interval
  {}

  /** A pair that ends at `now` conforms exactly when the earlier push is within tolerance. */
  lemma PairConforms(limits: Limits, times: seq<nat>, now: nat, i: nat)
    requires limits.Valid() && i < |times|
    ensures times[i] + (|times| - i + 1 - limits.burst) * limits.interval <= now
            <==> Push(limits, times, i) <= now + limits.Tolerance()
  {}

  lemma ConformsExtend(limits: Limits, times: seq<nat>, now: nat)
    requires limits.Valid() && Conforms(limits, times)
    ensures Conforms(limits, times + [now])
            <==> forall i | 0 <= i < |times| :: Push(limits, times, i) <= now + limits.Tolerance()
  {
    var n, longer := |times|, times + [now];
    if Conforms(limits, longer) {
      forall i | 0 <= i < n ensures Push(limits, times, i) <= now + limits.Tolerance() {
        PairConforms(limits, times, now, i);
        assert longer[n] == now && longer[i] == times[i];
      }
    }
    if forall i | 0 <= i < n :: Push(limits, times, i) <= now + limits.Tolerance() {
      forall i, j | 0 <= i <= j < n + 1
        ensures longer[i] + (j - i + 1 - limits.burst) * limits.interval <= longer[j]
      {
        if j < n {
          assert longer[j] == times[j] && longer[i] == times[i];
        } else if i < n {
          PairConforms(limits, times, now, i);
        } else {
          MulMonotone(1 - limits.burst, 0, limits.interval);
        }
      }
    }
  }

  /** One charge: admitted exactly when the admitted timestamps still conform. */
  lemma ChargeStep(limits: Limits, times: seq<nat>, bucket: Bucket, now: nat)
    requires limits.Valid() && Conforms(limits, times) && IsFrontier(limits, times, bucket)
    ensures Admits(limits, bucket, now) <==> Conforms(limits, times + [now])
    ensures Admits(limits, bucket, now)
            ==> IsFrontier(limits, times + [now], Charge(limits, bucket, now).0)
  {
    var longer := times + [now];
    ConformsExtend(limits, times, now);
    assert limits.Tolerance() >= 0;
    if times != [] {
      var top :| 0 <= top < |times| && Push(limits, times, top) == bucket.value;
      assert Admits(limits, bucket, now) <==> bucket.value <= now + limits.Tolerance();
      PushGrows(limits, times, now, top);
    }
    if Admits(limits, bucket, now) {
      var after := Charge(limits, bucket, now).0.value;
      assert after == Arrival(bucket, now) + limits.interval;
      assert Push(limits, longer, |times|) == now + limits.interval by {
        assert (|longer| - |times|) * limits.interval == limits.interval;
      }
      forall i | 0 <= i < |longer| ensures Push(limits, longer, i) <= after {
        if i < |times| {
          PushGrows(limits, times, now, i);
        }
      }
    }
  }

  /** Whatever is charged, in whatever order, the admitted timestamps conform. */
  lemma {:induction false} AdmittedConform(limits: Limits, times: seq<nat>)
    requires limits.Valid()
    ensures Conforms(limits, Admitted(limits, None, times))
    ensures IsFrontier(limits, Admitted(limits, None, times), After(limits, None, times))
  {
    if times != [] {
      var n := |times| - 1;
      AdmittedConform(limits, times[..n]);
      ChargeStep(limits, Admitted(limits, None, times[..n]), After(limits, None, times[..n]), times[n]);
    }
  }

  /** The limiter is greedy: a request is refused only when admitting it would not conform. */
  lemma AdmittedIsGreedy(limits: Limits, times: seq<nat>, now: nat)
    requires limits.Valid()
    ensures Admits(limits, After(limits, None, times), now)
            <==> Conforms(limits, Admitted(limits, None, times) + [now])
  {
    AdmittedConform(limits, times);
    ChargeStep(limits, Admitted(limits, None, times), After(limits, None, times), now);
  }

  lemma AllAdmittedPrefix(limits: Limits, bucket: Bucket, times: seq<nat>)
    requires limits.Valid() && times != []
    ensures AllAdmitted(limits, bucket, times)
            <==> AllAdmitted(limits, bucket, times[..|times| - 1])
                 && Admits(limits, After(limits, bucket, times[..|times| - 1]), times[|times| - 1])
  {
    var n := |times| - 1;
    var before := times[..n];
    assert forall k | 0 <= k < n :: before[..k] == times[..k] && before[k] == times[k];
    if AllAdmitted(limits, bucket, before) && Admits(limits, After(limits, bucket, before), times[n]) {
      forall k | 0 <= k < |times| ensures Admits(limits, After(limits, bucket, times[..k]), times[k]) {
        if k < n {
          assert Admits(limits, After(limits, bucket, before[..k]), before[k]);
        }
      }
    }
    if AllAdmitted(limits, bucket, times) {
      forall k | 0 <= k < n ensures Admits(limits, After(limits, bucket, before[..k]), before[k]) {
        assert Admits(limits, After(limits, bucket, times[..k]), times[k]);
      }
      assert Admits(limits, After(limits, bucket, times[..n]), times[n]);
    }
  }

  lemma {:induction false} AllAdmittedKeepsEvery(limits: Limits, bucket: Bucket, times: seq<nat>)
    requires limits.Valid() && AllAdmitted(limits, bucket, times)
    ensures Admitted(limits, bucket, times) == times
  {
    if times != [] {
      AllAdmittedPrefix(limits, bucket, times);
      hide AllAdmitted, Admits, After;
      AllAdmittedKeepsEvery(limits, bucket, times[..|times| - 1]);
    }
  }

  lemma ConformsPrefix(limits: Limits, times: seq<nat>, n: nat)
    requires n <= |times| && Conforms(limits, times)
    ensures Conforms(limits, times[..n])
  {}

  /** Exact admission: a schedule on a fresh bucket is admitted in full if and only if it conforms. */
  lemma {:induction false} ExactAdmission(limits: Limits, times: seq<nat>)
    requires limits.Valid()
    ensures AllAdmitted(limits, None, times) <==> Conforms(limits, times)
  {
    if times != [] {
      hide Conforms, Admits, After;
      var n := |times| - 1;
      var before := times[..n];
      assert before + [times[n]] == times;
      ExactAdmission(limits, before);
      AllAdmittedPrefix(limits, None, times);
      AdmittedIsGreedy(limits, before, times[n]);
      if Conforms(limits, times) {
        ConformsPrefix(limits, times, n);
      }
      if AllAdmitted(limits, None, before) {
        AllAdmittedKeepsEvery(limits, None, before);
      }
    }
  }

  /** No window of length `width` holds more than burst + floor(width / interval) conforming requests. */
  lemma WindowBound(limits: Limits, times: seq<nat>, start: nat, width: nat)
    requires limits.Valid() && Conforms(limits, times)
    ensures CountIn(times, start, width) <= limits.burst + width / limits.interval
  {
    if CountIn(times, start, width) > 0 {
      var first, last := CountInSpan(times, start, width);
      FloorIsLargest(last - first + 1 - limits.burst, limits.interval, width);
    }
  }

  /** How many intervals after the first request the fullest schedule sends request `k`. */
  function Slot(limits: Limits, k: nat): nat {
    if k < limits.burst then 0 else k - limits.burst + 1
  }

  /** The burst at once, then one request per interval. */
  function FullestSchedule(limits: Limits, start: nat, width: nat): (times: seq<nat>)
    requires limits.Valid()
    ensures |times| == limits.burst + width / limits.interval
    ensures forall k | 0 <= k < |times| :: times[k] == start + Slot(limits, k) * limits.interval
  {
    seq(limits.burst + width / limits.interval, k requires 0 <= k => start + Slot(limits, k) * limits.interval)
  }

  lemma FullestConforms(limits: Limits, start: nat, width: nat)
    requires limits.Valid()
    ensures Conforms(limits, FullestSchedule(limits, start, width))
  {
    var times := FullestSchedule(limits, start, width);
    hide FullestSchedule;
    forall i, j | 0 <= i <= j < |times|
      ensures times[i] + (j - i + 1 - limits.burst) * limits.interval <= times[j]
    {
      FullestPair(limits, i, j);
    }
  }

  /** The spacing of two requests of the fullest schedule. */
  lemma FullestPair(limits: Limits, i: nat, j: nat)
    requires limits.Valid() && i <= j
    ensures Slot(limits, i) * limits.interval + (j - i + 1 - limits.burst) * limits.interval
            <= Slot(limits, j) * limits.interval
  {
    var slots := Slot(limits, i) + (j - i + 1 - limits.burst);
    assert slots <= Slot(limits, j);
    MulMonotone(slots, Slot(limits, j), limits.interval);
  }

  lemma FullestFitsWindow(limits: Limits, start: nat, width: nat)
    requires limits.Valid()
    ensures forall k | 0 <= k < |FullestSchedule(limits, start, width)| ::
              start <= FullestSchedule(limits, start, width)[k] <= start + width
  {
    var times := FullestSchedule(limits, start, width);
    hide FullestSchedule;
    forall k | 0 <= k < |times| ensures start <= times[k] <= start + width {
      FloorIsLargest(Slot(limits, k), limits.interval, width);
      MulMonotone(0, Slot(limits, k), limits.interval);
    }
  }

  lemma FullestIsOrdered(limits: Limits, start: nat, width: nat)
    requires limits.Valid()
    ensures Nondecreasing(FullestSchedule(limits, start, width))
  {
    var times := FullestSchedule(limits, start, width);
    hide FullestSchedule;
    forall i, j | 0 <= i < j < |times| ensures times[i] <= times[j] {
      MulMonotone(Slot(limits, i), Slot(limits, j), limits.interval);
    }
  }

  /** The window bound is attained, so it is the exact capacity of a window. */
  lemma WindowBoundAttained(limits: Limits, start: nat, width: nat)
    requires limits.Valid()
    ensures var times := FullestSchedule(limits, start, width);
            && Nondecreasing(times)
            && AllAdmitted(limits, None, times)
            && CountIn(times, start, width) == limits.burst + width / limits.interval
  {
    var times := FullestSchedule(limits, start, width);
    hide *;
    FullestConforms(limits, start, width);
    ExactAdmission(limits, times);
    FullestFitsWindow(limits, start, width);
    CountInAll(times, start, width);
    FullestIsOrdered(limits, start, width);
  }

  /** A run of `count` requests sent together. */
  function Together(count: nat, at: nat): seq<nat> {
    seq(count, k => at)
  }

  /** A bucket whose arrival time is not past admits within tolerance and moves on by one interval. */
  lemma ChargeLate(limits: Limits, value: nat, at: nat)
    requires limits.Valid() && at <= value
    ensures Admits(limits, Some(value), at) <==> value <= at + limits.Tolerance()
    ensures Admits(limits, Some(value), at) ==> Charge(limits, Some(value), at).0 == Some(value + limits.interval)
  {}

  lemma {:induction false} TogetherStep(limits: Limits, bucket: Bucket, count: nat, at: nat)
    requires limits.Valid() && count > 0
    ensures AllAdmitted(limits, bucket, Together(count, at))
            <==> Arrival(bucket, at) + (count - 1) * limits.interval <= at + limits.Tolerance()
    ensures AllAdmitted(limits, bucket, Together(count, at))
            ==> After(limits, bucket, Together(count, at)) == Some(Arrival(bucket, at) + count * limits.interval)
  {
    hide Limits.Tolerance, AllAdmitted;
    var times, unit, first := Together(count, at), limits.interval, Arrival(bucket, at);
    assert times[..count - 1] == Together(count - 1, at) && times[count - 1] == at;
    AllAdmittedPrefix(limits, bucket, times);
    var reached := first + (count - 1) * unit;
    assert reached + unit == first + count * unit;
    if count == 1 {
      assert times[..0] == [] && AllAdmitted(limits, bucket, []) by {
        NoneToAdmit(limits, bucket);
      }
    } else {
      TogetherStep(limits, bucket, count - 1, at);
      assert reached == first + (count - 2) * unit + unit;
      MulMonotone(0, count - 1, unit);
      hide Charge, Admits, Arrival;
      if AllAdmitted(limits, bucket, Together(count - 1, at)) {
        ArrivalIsNotPast(bucket, at);
        ChargeLate(limits, reached, at);
      }
    }
  }

  lemma NoneToAdmit(limits: Limits, bucket: Bucket)
    requires limits.Valid()
    ensures AllAdmitted(limits, bucket, [])
  {}

  lemma ArrivalIsNotPast(bucket: Bucket, at: nat)
    ensures at <= Arrival(bucket, at)
  {}

  /**
   A refusal is exact: it leaves the bucket as it was, its `retryAfter` is the least wait
   after which one request is allowed, and its `reset` the least after which a full burst is.
   */
  lemma RetryIsExact(limits: Limits, bucket: Bucket, now: nat, wait: nat)
    requires limits.Valid() && !Admits(limits, bucket, now)
    ensures var (after, refusal) := Charge(limits, bucket, now);
            && after == bucket
            && 0 < refusal.retryAfter <= refusal.reset
            && (Admits(limits, after, now + wait) <==> wait >= refusal.retryAfter)
            && (AllAdmitted(limits, after, Together(limits.burst, now + wait)) <==> wait >= refusal.reset)
  {
    assert limits.Tolerance() == (limits.burst - 1) * limits.interval;
    hide Limits.Tolerance, AllAdmitted, Together, After;
    TogetherStep(limits, bucket, limits.burst, now + wait);
  }

  /** A bucket admits a full burst at its own arrival time, and a bucket that is further ahead refuses part of it. */
  lemma BurstTellsApart(limits: Limits, low: nat, high: nat)
    requires limits.Valid() && low < high
    ensures exists j :: 0 <= j < limits.burst
                        && Admits(limits, After(limits, Some(low), Together(j, low)), low)
                        && !Admits(limits, After(limits, Some(high), Together(j, low)), low)
  {
    var burst := Together(limits.burst, low);
    assert limits.Tolerance() == (limits.burst - 1) * limits.interval;
    TogetherStep(limits, Some(low), limits.burst, low);
    TogetherStep(limits, Some(high), limits.burst, low);
    var j :| 0 <= j < |burst| && !Admits(limits, After(limits, Some(high), burst[..j]), burst[j]);
    assert burst[..j] == Together(j, low);
    assert Admits(limits, After(limits, Some(low), burst[..j]), burst[j]);
  }

  // ----- a burst of one is plain spacing, which the window bound also serves elsewhere

  ghost predicate Spaced(times: seq<nat>, gap: nat) {
    forall i, j | 0 <= i < j < |times| :: times[i] + gap <= times[j]
  }

  lemma {:induction false} SpacedStretch(times: seq<nat>, gap: nat, i: nat, j: nat)
    requires Spaced(times, gap) && i <= j < |times|
    ensures times[i] + (j - i) * gap <= times[j]
    decreases j
  {
    if i < j {
      SpacedStretch(times, gap, i, j - 1);
      assert (j - i) * gap == (j - 1 - i) * gap + gap;
    }
  }

  /** Events at least `gap` apart: a window of length `width` holds at most floor(width / gap) + 1. */
  lemma SpacedWindow(times: seq<nat>, gap: nat, start: nat, width: nat)
    requires gap > 0 && Spaced(times, gap)
    ensures CountIn(times, start, width) <= width / gap + 1
  {
    var limits := Limits(gap, 1);
    forall i, j | 0 <= i <= j < |times|
      ensures times[i] + (j - i + 1 - limits.burst) * limits.interval <= times[j]
    {
      SpacedStretch(times, gap, i, j);
    }
    WindowBound(limits, times, start, width);
  }
}
