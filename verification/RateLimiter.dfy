/** The capped, swept map of buckets that one process keeps, and the lock-protected operation on it. */
module RateLimiter {
  import opened Common
  import opened Gcra

  const SWEEP_INTERVAL: nat := SECOND
  const OVERFLOW_WARNING_INTERVAL: nat := 60 * SECOND

  const V4_LIMIT: nat := 0x1_0000_0000
  const NETWORK_SIZE: nat := 0x1_0000_0000_0000_0000

  type V4Bits = n: nat | n < V4_LIMIT
  type V6Bits = n: nat | n < NETWORK_SIZE * NETWORK_SIZE

  datatype IpAddr = V4(v4: V4Bits) | V6(v6: V6Bits)

  /** Whose bucket a request is charged to. */
  datatype Key =
    | Principal(issuer: string, subject: string)
    | Peer(network: IpAddr)
    | Anonymous
    | Overflow

  /** An IPv4-mapped IPv6 address (::ffff:a.b.c.d) is its IPv4 address. */
  function ToCanonical(ip: IpAddr): IpAddr {
    if ip.V6? && ip.v6 / V4_LIMIT == 0xffff then V4(ip.v6 % V4_LIMIT) else ip
  }

  /** An IPv4 caller is one address, an IPv6 caller a whole /64. */
  function CallerNetwork(ip: IpAddr): IpAddr {
    match ToCanonical(ip)
    case V4(bits) => V4(bits)
    case V6(bits) => V6(bits - bits % NETWORK_SIZE)
  }

  function ForCaller(principal: Option<(string, string)>, peer: Option<IpAddr>): (key: Key)
    ensures key != Overflow
    ensures principal.Some? ==> key == Principal(principal.value.0, principal.value.1)
    ensures key == Anonymous <==> principal.None? && peer.None?
  {
    match principal
    case Some((issuer, subject)) => Principal(issuer, subject)
    case None => if peer.Some? then Peer(CallerNetwork(peer.value)) else Anonymous
  }

  /** An address is an IPv4 caller as it stands, or when its upper 96 bits are those of ::ffff:0:0/96. */
  ghost predicate IsIpv4Caller(ip: IpAddr, address: nat) {
    || (ip.V4? && ip.v4 == address)
    || (ip.V6? && address < 0x1_0000_0000 && ip.v6 == 0xffff_0000_0000 + address)
  }

  /** Callers without a principal: an IPv4 one, mapped or not, is its address; any other is its upper 64 bits. */
  lemma PeerIsItsNetwork(ip: IpAddr, address: nat, network: nat, host: nat)
    requires address < 0x1_0000_0000 && host < 0x1_0000_0000_0000_0000
    ensures IsIpv4Caller(ip, address) <==> ForCaller(None, Some(ip)) == Peer(V4(address))
    ensures ip.V6? && ip.v6 == network * 0x1_0000_0000_0000_0000 + host && (forall a :: !IsIpv4Caller(ip, a))
            ==> ForCaller(None, Some(ip)) == Peer(V6(network * 0x1_0000_0000_0000_0000))
  {
    if ip.V6? && ip.v6 / V4_LIMIT == 0xffff {
      assert IsIpv4Caller(ip, ip.v6 % V4_LIMIT);
    }
  }

  /** Two unauthenticated peers share a bucket exactly when they are one IPv4 address or one IPv6 /64. */
  lemma PeersShareANetwork(a: IpAddr, b: IpAddr)
    ensures ForCaller(None, Some(a)) == ForCaller(None, Some(b)) <==>
              || (exists address :: IsIpv4Caller(a, address) && IsIpv4Caller(b, address))
              || (&& (forall address :: !IsIpv4Caller(a, address) && !IsIpv4Caller(b, address))
                  && a.V6? && b.V6? && a.v6 / 0x1_0000_0000_0000_0000 == b.v6 / 0x1_0000_0000_0000_0000)
  {
    CanonicalIsIpv4(a);
    CanonicalIsIpv4(b);
    var x, y := ToCanonical(a), ToCanonical(b);
    hide IsIpv4Caller, ToCanonical;
    if x.V4? {
      assert IsIpv4Caller(a, x.v4);
    }
    if y.V4? {
      assert IsIpv4Caller(b, y.v4);
    }
    if x.V6? && y.V6? {
      SameNetwork(x.v6, y.v6);
    }
  }

  lemma SameNetwork(x: nat, y: nat)
    ensures x - x % NETWORK_SIZE == y - y % NETWORK_SIZE <==> x / 0x1_0000_0000_0000_0000 == y / 0x1_0000_0000_0000_0000
  {}

  lemma CanonicalIsIpv4(ip: IpAddr)
    ensures ToCanonical(ip).V4? ==> forall address :: IsIpv4Caller(ip, address) <==> address == ToCanonical(ip).v4
    ensures ToCanonical(ip).V6? ==> ToCanonical(ip) == ip && forall address :: !IsIpv4Caller(ip, address)
  {}

  datatype State = State(arrivals: map<Key, nat>, nextSweep: Option<nat>, lastOverflowWarning: Option<nat>)

  const EMPTY := State(map[], None, None)

  datatype Limiter = Limiter(limits: Limits, maxKeys: nat)

  function Lookup(arrivals: map<Key, nat>, key: Key): Bucket {
    if key in arrivals then Some(arrivals[key]) else None
  }

  /** `key` is new and the map is full. */
  predicate Full(limiter: Limiter, state: State, key: Key) {
    |state.arrivals| >= limiter.maxKeys && key !in state.arrivals
  }

  predicate SweepDue(state: State, now: nat) {
    state.nextSweep.None? || now >= state.nextSweep.value
  }

  /** Forget the callers whose bucket is full again. */
  function Sweep(state: State, now: nat): State {
    State(map key | key in state.arrivals && state.arrivals[key] > now :: state.arrivals[key],
          Some(now + SWEEP_INTERVAL),
          state.lastOverflowWarning)
  }

  function Warn(state: State, now: nat): State {
    var due := state.lastOverflowWarning.None?
               || (now >= state.lastOverflowWarning.value
                   && now - state.lastOverflowWarning.value >= OVERFLOW_WARNING_INTERVAL);
    if due then state.(lastOverflowWarning := Some(now)) else state
  }

  predicate Sweeps(limiter: Limiter, state: State, key: Key, now: nat) {
    Full(limiter, state, key) && SweepDue(state, now)
  }

  /** The key to charge, and the state after any sweep and warning. */
  function Admit(limiter: Limiter, state: State, key: Key, now: nat): (State, Key) {
    if !Full(limiter, state, key) then (state, key)
    else
      var swept := if SweepDue(state, now) then Sweep(state, now) else state;
      if SweepDue(state, now) && |swept.arrivals| < limiter.maxKeys then (swept, key)
      else (Warn(swept, now), Overflow)
  }

  function Store(state: State, key: Key, bucket: Bucket): State {
    if bucket.Some? then state.(arrivals := state.arrivals[key := bucket.value]) else state
  }

  datatype Outcome = Outcome(state: State, charged: Key, decision: Decision)

  /** One request, as the lock serialises it. */
  function Check(limiter: Limiter, state: State, key: Key, now: nat): Outcome
    requires limiter.limits.Valid()
  {
    var (admitted, charged) := Admit(limiter, state, key, now);
    var (bucket, decision) := Charge(limiter.limits, Lookup(admitted.arrivals, charged), now);
    Outcome(Store(admitted, charged, bucket), charged, decision)
  }

  /** The limiter itself: its fields change in place while it holds its lock. */
  class RateLimiter {
    const limits: Limits
    const maxKeys: nat
    var arrivals: map<Key, nat>
    var nextSweep: Option<nat>
    var lastOverflowWarning: Option<nat>

    ghost function Contents(): State
      reads this
    {
      State(arrivals, nextSweep, lastOverflowWarning)
    }

    ghost function Config(): Limiter {
      Limiter(limits, maxKeys)
    }

    constructor (limits: Limits, maxKeys: nat)
      ensures this.limits == limits && this.maxKeys == maxKeys
      ensures Contents() == EMPTY
    {
      this.limits, this.maxKeys := limits, maxKeys;
      arrivals, nextSweep, lastOverflowWarning := map[], None, None;
    }

    method AdmitKey(key: Key, now: nat) returns (charged: Key)
      modifies this
      ensures (Contents(), charged) == Admit(Config(), old(Contents()), key, now)
    {
      if |arrivals| < maxKeys || key in arrivals {
        return key;
      }
      if nextSweep.None? || now >= nextSweep.value {
        nextSweep := Some(now + SWEEP_INTERVAL);
        arrivals := map k | k in arrivals && arrivals[k] > now :: arrivals[k];
        if |arrivals| < maxKeys {
          return key;
        }
      }
      if lastOverflowWarning.None?
         || (now >= lastOverflowWarning.value && now - lastOverflowWarning.value >= OVERFLOW_WARNING_INTERVAL) {
        lastOverflowWarning := Some(now);
      }
      return Overflow;
    }

    /** A refusal changes no bucket; an allowed request changes only the bucket it is charged to. */
    method CheckRequest(key: Key, now: nat) returns (decision: Decision)
      requires limits.Valid()
      modifies this
      ensures var outcome := Check(Config(), old(Contents()), key, now);
              Contents() == outcome.state && decision == outcome.decision
    {
      var charged := AdmitKey(key, now);
      var arrival := if charged in arrivals && arrivals[charged] > now then arrivals[charged] else now;
      if arrival > now + limits.Tolerance() {
        return Limited(arrival - limits.Tolerance() - now, arrival - now);
      }
      arrivals := arrivals[charged := arrival + limits.interval];
      return Allowed;
    }
  }
}
