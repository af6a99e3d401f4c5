/**
 The key-set cache of the OIDC authenticator and the protocol by which concurrent callers
 refresh it. Each caller is a future with a phase; every step between two await points is one
 event, so a run is any interleaving of callers, fetch outcomes, cancellations and time.
 */
module JwksRefresh {
  import opened Common

  const COOLDOWN: nat := 30 * SECOND
  const COALESCE_WINDOW: nat := SECOND
  const WAIT_TIMEOUT: nat := SECOND

  /** A verification key, by identity. */
  datatype Key = Key(id: nat)

  datatype Jwks = Jwks(keys: map<string, Key>, expiresAt: nat)

  datatype RefreshState = RefreshState(lastCompleted: nat, retryAfter: Option<nat>, coalesceUntil: Option<nat>)

  predicate Pending(deadline: Option<nat>, now: nat) {
    deadline.Some? && now < deadline.value
  }

  // ----- one attempt and its drop guard

  function BeginAttempt(refresh: RefreshState, now: nat): RefreshState {
    refresh.(retryAfter := Some(now + COOLDOWN))
  }

  /** Dropping an armed attempt clears the backoff it set, and no other. */
  function DropAttempt(refresh: RefreshState, retryAfter: nat): RefreshState {
    if refresh.retryAfter == Some(retryAfter) then refresh.(retryAfter := None) else refresh
  }

  function CompleteRefresh(now: nat): RefreshState {
    RefreshState(now, None, Some(now + COALESCE_WINDOW))
  }

  /** The refresh state shared by all callers. */
  class RefreshCell {
    var state: RefreshState

    constructor (state: RefreshState)
      ensures this.state == state
    {
      this.state := state;
    }
  }

  /** A refresh in progress; dropping it undoes its backoff unless it was disarmed. */
  class RefreshAttempt {
    const cell: RefreshCell
    const retryAfter: nat
    var clearOnDrop: bool

    constructor Begin(cell: RefreshCell, now: nat)
      modifies cell
      ensures this.cell == cell && retryAfter == now + 30 * SECOND && clearOnDrop
      ensures cell.state == BeginAttempt(old(cell.state), now)
    {
      this.cell, retryAfter, clearOnDrop := cell, now + COOLDOWN, true;
      new;
      cell.state := cell.state.(retryAfter := Some(now + COOLDOWN));
    }

    /** `retain_backoff` and `complete` both only disarm the guard. */
    method Disarm()
      modifies this
      ensures !clearOnDrop
    {
      clearOnDrop := false;
    }

    method Drop()
      modifies cell
      ensures cell.state
              == if clearOnDrop then DropAttempt(old(cell.state), retryAfter) else old(cell.state)
    {
      if !clearOnDrop {
        return;
      }
      if cell.state.retryAfter == Some(retryAfter) {
        cell.state := cell.state.(retryAfter := None);
      }
    }
  }

  /** A lookup dropped while it fetches leaves no backoff behind. */
  method CancelledRefresh(cell: RefreshCell, now: nat)
    modifies cell
    ensures cell.state == old(cell.state).(retryAfter := None)
  {
    var attempt := new RefreshAttempt.Begin(cell, now);
    attempt.Drop();
  }

  /** A lookup whose fetch fails leaves its backoff standing, although its attempt is dropped on return. */
  method FailedRefresh(cell: RefreshCell, now: nat)
    modifies cell
    ensures cell.state == old(cell.state).(retryAfter := Some(now + 30 * SECOND))
  {
    var attempt := new RefreshAttempt.Begin(cell, now);
    attempt.Disarm();
    attempt.Drop();
  }

  /** Dropping an attempt leaves a backoff set after its own, unless both were set at the same instant. */
  method SupersededRefresh(cell: RefreshCell, first: nat, second: nat)
    modifies cell
    ensures cell.state
            == old(cell.state).(retryAfter := if first == second then None else Some(second + 30 * SECOND))
  {
    var dropped := new RefreshAttempt.Begin(cell, first);
    var kept := new RefreshAttempt.Begin(cell, second);
    dropped.Drop();
  }

  /** A completed refresh leaves only its own stamps, whether or not its attempt was disarmed before the drop. */
  method CompletedRefresh(cell: RefreshCell, begun: nat, completed: nat, disarm: bool)
    modifies cell
    ensures cell.state == RefreshState(completed, None, Some(completed + SECOND))
  {
    var attempt := new RefreshAttempt.Begin(cell, begun);
    cell.state := RefreshState(completed, None, Some(completed + COALESCE_WINDOW));
    if disarm {
      attempt.Disarm();
    }
    attempt.Drop();
  }

  // ----- the two lookups

  /** The first, ungated read: a key only from a fresh set. */
  function FastLookup(jwks: Jwks, kid: string, now: nat): Option<Key> {
    if now < jwks.expiresAt && kid in jwks.keys then Some(jwks.keys[kid]) else None
  }

  datatype Verdict = Found(key: Key) | UnknownKeyId | Backoff | MustRefresh

  /** The decision of a caller that holds the gate. */
  function GatedLookup(jwks: Jwks, refresh: RefreshState, kid: string, now: nat): Verdict {
    var cached := if kid in jwks.keys then Found(jwks.keys[kid]) else UnknownKeyId;
    if now < jwks.expiresAt && cached.Found? then cached
    else if now < jwks.expiresAt && now < refresh.lastCompleted + COOLDOWN then UnknownKeyId
    else if Pending(refresh.coalesceUntil, now) then cached
    else if Pending(refresh.retryAfter, now) then Backoff
    else MustRefresh
  }

  // ----- the transition system

  datatype Phase =
    | Arrived                                            // about to read the cache
    | Queued(deadline: nat)                              // waiting for the gate
    | Gated                                              // holds the permit, about to decide
    | Committed                                          // decided to refresh
    | Fetching(begun: nat)                               // the request is in flight
    | Storing(begun: nat, fetched: Jwks)                 // waiting for the write lock
    | Stored(begun: nat, fetched: Jwks)                  // keys installed, refresh state not yet updated
  {
    predicate HoldsGate() {
      !Arrived? && !Queued?
    }

    /** An armed RefreshAttempt is alive. */
    predicate Attempting() {
      Fetching? || Storing? || Stored?
    }

    /** Suspended at an await, so the caller's future may be dropped here. */
    predicate Cancellable() {
      !Committed? && !Stored?
    }
  }

  datatype Caller = Caller(kid: string, phase: Phase)

  datatype Status = InFlight | Failed | Cancelled | Succeeded(at: nat, expiresAt: nat)

  /** One fetch of the key set: when it began and how it ended. */
  datatype Fetch = Fetch(begun: nat, status: Status)

  /** One key set put into the cache: when, and when the refresh that fetched it was stamped complete. */
  datatype Installation = Installation(jwks: Jwks, at: nat, completed: Option<nat>)

  /** `log` and `installs` are history: they are written and never read by the protocol. */
  datatype State = State(
    clock: nat,
    jwks: Jwks,
    refresh: RefreshState,
    gate: Option<nat>,
    callers: map<nat, Caller>,
    log: seq<Fetch>,
    installs: seq<Installation>)

  datatype Event =
    | Tick(elapsed: nat)
    | Arrive(caller: nat, kid: string)
    | FastRead(caller: nat)
    | Acquire(caller: nat)
    | TimeOut(caller: nat)
    | Decide(caller: nat)
    | Begin(caller: nat)
    | FetchFails(caller: nat)
    | FetchSucceeds(caller: nat, keys: map<string, Key>, ttl: nat)
    | Install(caller: nat)
    | Complete(caller: nat)
    | Cancel(caller: nat)

  datatype Reply = NoReply | Answer(key: Key) | Refused(reason: Refusal)

  datatype Refusal = Unknown | BackingOff | FetchError

  predicate In(s: State, caller: nat) {
    caller in s.callers
  }

  predicate Enabled(s: State, e: Event) {
    match e
    case Tick(_) => true
    case Arrive(c, _) => c !in s.callers
    case FastRead(c) => In(s, c) && s.callers[c].phase.Arrived?
    case Acquire(c) => In(s, c) && s.callers[c].phase.Queued? && s.gate.None?
    case TimeOut(c) => In(s, c) && s.callers[c].phase.Queued? && s.callers[c].phase.deadline <= s.clock
    case Decide(c) => In(s, c) && s.callers[c].phase.Gated?
    case Begin(c) => In(s, c) && s.callers[c].phase.Committed?
    case FetchFails(c) => In(s, c) && s.callers[c].phase.Fetching?
    case FetchSucceeds(c, _, _) => In(s, c) && s.callers[c].phase.Fetching?
    case Install(c) => In(s, c) && s.callers[c].phase.Storing?
    case Complete(c) => In(s, c) && s.callers[c].phase.Stored?
    case Cancel(c) => In(s, c) && s.callers[c].phase.Cancellable()
  }

  function Move(s: State, c: nat, phase: Phase): State
    requires In(s, c)
  {
    s.(callers := s.callers[c := s.callers[c].(phase := phase)])
  }

  /** The caller returns or is dropped: its permit, if any, is released. */
  function Leave(s: State, c: nat): State
    requires In(s, c)
  {
    s.(callers := s.callers - {c},
       gate := if s.callers[c].phase.HoldsGate() then None else s.gate)
  }

  function EndFetch(s: State, status: Status): State {
    if s.log == [] then s
    else s.(log := s.log[|s.log| - 1 := s.log[|s.log| - 1].(status := status)])
  }

  /** The newest installation is complete. */
  function Stamp(installs: seq<Installation>, now: nat): seq<Installation> {
    if installs == [] then installs
    else
      var last := |installs| - 1;
      installs[last := installs[last].(completed := Some(now))]
  }

  function Next(s: State, e: Event): State
    requires Enabled(s, e)
  {
    match e
    case Tick(elapsed) => s.(clock := s.clock + elapsed)
    case Arrive(c, kid) => s.(callers := s.callers[c := Caller(kid, Arrived)])
    case FastRead(c) =>
      if FastLookup(s.jwks, s.callers[c].kid, s.clock).Some? then Leave(s, c)
      else Move(s, c, Queued(s.clock + WAIT_TIMEOUT))
    case Acquire(c) => Move(s, c, Gated).(gate := Some(c))
    case TimeOut(c) => Leave(s, c)
    case Decide(c) =>
      if GatedLookup(s.jwks, s.refresh, s.callers[c].kid, s.clock).MustRefresh? then Move(s, c, Committed)
      else Leave(s, c)
    case Begin(c) =>
      Move(s, c, Fetching(s.clock)).(
        refresh := BeginAttempt(s.refresh, s.clock),
        log := s.log + [Fetch(s.clock, InFlight)])
    case FetchFails(c) => EndFetch(Leave(s, c), Failed)
    case FetchSucceeds(c, keys, ttl) => Move(s, c, Storing(s.callers[c].phase.begun, Jwks(keys, s.clock + ttl)))
    case Install(c) =>
      var phase := s.callers[c].phase;
      Move(s, c, Stored(phase.begun, phase.fetched)).(
        jwks := phase.fetched,
        installs := s.installs + [Installation(phase.fetched, s.clock, None)])
    case Complete(c) =>
      EndFetch(Leave(s, c), Succeeded(s.clock, s.jwks.expiresAt)).(
        refresh := CompleteRefresh(s.clock),
        installs := Stamp(s.installs, s.clock))
    case Cancel(c) =>
      var phase := s.callers[c].phase;
      if phase.Attempting() then
        EndFetch(Leave(s, c), Cancelled).(refresh := DropAttempt(s.refresh, phase.begun + COOLDOWN))
      else Leave(s, c)
  }

  /** What the caller of this step is told, if it returns. */
  function ReplyTo(s: State, e: Event): Reply
    requires Enabled(s, e)
  {
    match e
    case FastRead(c) =>
      (match FastLookup(s.jwks, s.callers[c].kid, s.clock) case Some(key) => Answer(key) case None => NoReply)
    case TimeOut(_) => Refused(BackingOff)
    case Decide(c) =>
      (match GatedLookup(s.jwks, s.refresh, s.callers[c].kid, s.clock)
       case Found(key) => Answer(key)
       case UnknownKeyId => Refused(Unknown)
       case Backoff => Refused(BackingOff)
       case MustRefresh => NoReply)
    case FetchFails(_) => Refused(FetchError)
    case Complete(c) =>
      var kid, fetched := s.callers[c].kid, s.callers[c].phase.fetched;
      if kid in fetched.keys then Answer(fetched.keys[kid]) else Refused(Unknown)
    case _ => NoReply
  }

  /** After discovery: one key set, completed now, nobody waiting. */
  function Discovered(jwks: Jwks, now: nat): State {
    State(now, jwks, RefreshState(now, None, None), None, map[], [],
          [Installation(jwks, now, Some(now))])
  }

  ghost predicate Feasible(s: State, run: seq<Event>)
    decreases |run|
  {
    run == [] || (Enabled(s, run[0]) && Feasible(Next(s, run[0]), run[1..]))
  }

  ghost function Final(s: State, run: seq<Event>): State
    requires Feasible(s, run)
    decreases |run|
  {
    if run == [] then s else Final(Next(s, run[0]), run[1..])
  }

  ghost function Replies(s: State, run: seq<Event>): seq<Reply>
    requires Feasible(s, run)
    decreases |run|
  {
    if run == [] then [] else [ReplyTo(s, run[0])] + Replies(Next(s, run[0]), run[1..])
  }
}
