/** Types and small facts shared by the other modules. */
module Common {

  datatype Option<+T> = None | Some(value: T)

  datatype Result<+T, +E> = Ok(value: T) | Err(error: E)

  /** Nanoseconds in one second; every Instant and Duration is a count of nanoseconds. */
  const SECOND: nat := 1_000_000_000

  const U64_MAX: nat := 0xffff_ffff_ffff_ffff

  /** Timestamps taken in the order in which a lock was acquired. */
  ghost predicate Nondecreasing(times: seq<nat>) {
    forall i, j | 0 <= i < j < |times| :: times[i] <= times[j]
  }

  /** How many of `times` lie in the closed window of length `width` starting at `start`. */
  function CountIn(times: seq<nat>, start: nat, width: nat): (count: nat)
    ensures count <= |times|
  {
    if times == [] then 0
    else
      CountIn(times[..|times| - 1], start, width)
      + (if start <= times[|times| - 1] <= start + width then 1 else 0)
  }

  lemma {:induction false} CountInAll(times: seq<nat>, start: nat, width: nat)
    requires forall k | 0 <= k < |times| :: start <= times[k] <= start + width
    ensures CountIn(times, start, width) == |times|
  {
    if times != [] {
      CountInAll(times[..|times| - 1], start, width);
    }
  }

  /** The window's members are no more than the indices from the first of them to the last. */
  lemma {:induction false} CountInSpan(times: seq<nat>, start: nat, width: nat)
    returns (first: nat, last: nat)
    requires CountIn(times, start, width) > 0
    ensures first <= last < |times|
    ensures start <= times[first] <= start + width
    ensures start <= times[last] <= start + width
    ensures CountIn(times, start, width) <= last - first + 1
  {
    var n := |times| - 1;
    var before := times[..n];
    if start <= times[n] <= start + width {
      last := n;
      if CountIn(before, start, width) == 0 {
        first := n;
      } else {
        var earlier;
        first, earlier := CountInSpan(before, start, width);
        assert before[first] == times[first];
      }
    } else {
      first, last := CountInSpan(before, start, width);
      assert before[first] == times[first] && before[last] == times[last];
    }
  }

  lemma SubsetCardinality<T>(small: set<T>, large: set<T>)
    requires small <= large
    ensures |small| <= |large|
  {
    if small != {} {
      var x :| x in small;
      SubsetCardinality(small - {x}, large - {x});
    }
  }

  lemma MulMonotone(x: int, y: int, unit: nat)
    requires x <= y
    ensures x * unit <= y * unit
  {}

  lemma MulSum(x: int, y: int, unit: nat)
    ensures (x + y) * unit == x * unit + y * unit
  {}

  /** The largest multiple of `unit` within `total`. */
  lemma FloorIsLargest(count: int, unit: nat, total: nat)
    requires unit > 0
    ensures count * unit <= total <==> count <= total / unit
  {
    var q := total / unit;
    assert total == q * unit + total % unit;
    if count <= q {
      MulMonotone(count, q, unit);
    } else {
      MulMonotone(q + 1, count, unit);
      assert (q + 1) * unit == q * unit + unit;
    }
  }
}
