/**
 The WebSocket drain tracker: an atomic counter of live connections and a notification that a
 waiter registers for before it reads the counter. Dropping a guard decrements and notifies in
 two separate steps, so every interleaving of guards and waiters is a run of the events below.
 */
module DrainTracker {
  import opened Common

  datatype Waiter =
    | Looping                       // about to create and enable its notification
    | Registered(notified: bool)    // enabled, counter not yet read
    | Sleeping(notified: bool)      // read a nonzero counter, awaiting the notification
    | Returned

  /** `tracked`, `notifies` and `rounds` are history. */
  datatype State = State(
    active: nat,
    live: set<nat>,
    closing: set<nat>,
    waiters: map<nat, Waiter>,
    tracked: nat,
    notifies: nat,
    rounds: map<nat, nat>)

  datatype Event =
    | Track(guard: nat)
    | Decrement(guard: nat)
    | NotifyWaiters(guard: nat)
    | WaitUntilIdle(waiter: nat)
    | Register(waiter: nat)
    | Load(waiter: nat)
    | Wake(waiter: nat)

  const START := State(0, {}, {}, map[], 0, 0, map[])

  predicate Enabled(s: State, e: Event) {
    match e
    case Track(g) => g !in s.live && g !in s.closing
    case Decrement(g) => g in s.live
    case NotifyWaiters(g) => g in s.closing
    case WaitUntilIdle(w) => w !in s.waiters
    case Register(w) => w in s.waiters && s.waiters[w].Looping?
    case Load(w) => w in s.waiters && s.waiters[w].Registered?
    case Wake(w) => w in s.waiters && s.waiters[w].Sleeping? && s.waiters[w].notified
  }

  /** `notify_waiters` wakes every notification that exists when it is called. */
  function Notified(waiter: Waiter): Waiter {
    match waiter
    case Registered(_) => Registered(true)
    case Sleeping(_) => Sleeping(true)
    case _ => waiter
  }

  /** `fetch_sub` on the counter; it would wrap around at zero. */
  function FetchSub(active: nat): nat {
    if active == 0 then U64_MAX else active - 1
  }

  function Next(s: State, e: Event): State
    requires Enabled(s, e)
  {
    match e
    case Track(g) => s.(active := s.active + 1, live := s.live + {g}, tracked := s.tracked + 1)
    case Decrement(g) =>
      s.(active := FetchSub(s.active),
         live := s.live - {g},
         closing := if s.active == 1 then s.closing + {g} else s.closing)
    case NotifyWaiters(g) =>
      s.(closing := s.closing - {g},
         waiters := map w | w in s.waiters :: Notified(s.waiters[w]),
         notifies := s.notifies + 1)
    case WaitUntilIdle(w) => s.(waiters := s.waiters[w := Looping], rounds := s.rounds[w := 0])
    case Register(w) =>
      s.(waiters := s.waiters[w := Registered(false)],
         rounds := if w in s.rounds then s.rounds[w := s.rounds[w] + 1] else s.rounds)
    case Load(w) =>
      s.(waiters := s.waiters[w := if s.active == 0 then Returned else Sleeping(s.waiters[w].notified)])
    case Wake(w) => s.(waiters := s.waiters[w := Looping])
  }

  ghost predicate Feasible(s: State, run: seq<Event>)
    decreases |run|
  {
    run == [] || (Enabled(s, run[0]) && Feasible(Next(s, run[0]), run[1..]))
  }

  ghost function Final(s: State, run: seq<Event>): State
    requires Feasible(s, run)
    decreases |run|
  {
    if run == [] then s else Final(Next(s, run[0]), run[1..])
  }

  // ----- the invariant

  /** The counter is the number of live guards. */
  ghost predicate CounterInv(s: State) {
    s.active == |s.live| && s.live !! s.closing
  }

  /** A waiter asleep without a notification still has one coming. */
  ghost predicate WakeupInv(s: State) {
    forall w | w in s.waiters && s.waiters[w] == Sleeping(false) :: s.active > 0 || s.closing != {}
  }

  /** A waiter goes round again only for a notification, and there are no more of those than guards. */
  ghost predicate RoundsInv(s: State) {
    && s.rounds.Keys == s.waiters.Keys
    && |s.live| + |s.closing| + s.notifies <= s.tracked
    && (forall w | w in s.waiters ::
          s.rounds[w] <= s.notifies + (if s.waiters[w] in {Registered(false), Sleeping(false), Returned} then 1 else 0))
  }

  ghost predicate Inv(s: State) {
    CounterInv(s) && WakeupInv(s) && RoundsInv(s)
  }

  lemma CounterStep(s: State, e: Event)
    requires CounterInv(s) && Enabled(s, e)
    ensures CounterInv(Next(s, e))
  {}

  lemma WakeupStep(s: State, e: Event)
    requires CounterInv(s) && WakeupInv(s) && Enabled(s, e)
    ensures WakeupInv(Next(s, e))
  {}

  lemma RoundsStep(s: State, e: Event)
    requires CounterInv(s) && RoundsInv(s) && Enabled(s, e)
    ensures RoundsInv(Next(s, e))
  {}

  lemma {:induction false} InvRun(s: State, run: seq<Event>)
    requires Inv(s) && Feasible(s, run)
    ensures Inv(Final(s, run))
    decreases |run|
  {
    if run != [] {
      CounterStep(s, run[0]);
      WakeupStep(s, run[0]);
      RoundsStep(s, run[0]);
      InvRun(Next(s, run[0]), run[1..]);
    }
  }

  ghost predicate Reachable(s: State) {
    exists run :: Feasible(START, run) && s == Final(START, run)
  }

  lemma ReachableInv(s: State)
    requires Reachable(s)
    ensures Inv(s)
  {
    var run :| Feasible(START, run) && s == Final(START, run);
    InvRun(START, run);
  }

  // ----- the guarantees

  /** The counter is exact in every reachable state, so it never wraps around. */
  lemma CounterIsExact(s: State)
    requires Reachable(s)
    ensures s.active == |s.live|
  {
    ReachableInv(s);
  }

  /** No wakeup is lost: a sleeper without a notification still has one coming. */
  lemma NoLostWakeup(s: State, w: nat)
    requires Reachable(s) && w in s.waiters && s.waiters[w] == Sleeping(false)
    ensures s.active == |s.live|
    ensures s.live != {} || s.closing != {}
  {
    ReachableInv(s);
  }

  /** `wait_until_idle` returns only in a state in which every tracked connection has been dropped. */
  lemma ReturnsOnlyWhenIdle(s: State, e: Event, w: nat)
    requires Reachable(s) && Enabled(s, e)
    requires w in Next(s, e).waiters && Next(s, e).waiters[w].Returned?
    requires w in s.waiters ==> !s.waiters[w].Returned?
    ensures e == Load(w) && s.live == {}
  {
    ReachableInv(s);
  }

  /** What is left for a waiter to do by itself. */
  function Remaining(w: nat, waiter: Waiter): seq<Event> {
    match waiter
    case Returned => []
    case Registered(_) => [Load(w)]
    case Looping => [Register(w), Load(w)]
    case Sleeping(_) => [Wake(w), Register(w), Load(w)]
  }

  lemma TwoSteps(s: State, a: Event, b: Event)
    requires Enabled(s, a) && Enabled(Next(s, a), b)
    ensures Feasible(s, [a, b]) && Final(s, [a, b]) == Next(Next(s, a), b)
  {
    var mid := Next(s, a);
    assert [a, b][1..] == [b] && [b][1..] == [];
    assert Final(mid, [b]) == Final(Next(mid, b), []);
  }

  /** Once the last guard has notified, every waiter can return by its own steps alone. */
  lemma IdleWaitersReturn(s: State, w: nat)
    requires Reachable(s) && w in s.waiters && s.live == {} && s.closing == {}
    ensures Feasible(s, Remaining(w, s.waiters[w]))
    ensures var end := Final(s, Remaining(w, s.waiters[w])); w in end.waiters && end.waiters[w].Returned?
  {
    ReachableInv(s);
    match s.waiters[w]
    case Returned =>
    case Registered(_) => assert [Load(w)][1..] == [];
    case Looping => TwoSteps(s, Register(w), Load(w));
    case Sleeping(notified) =>
      var awake := Next(s, Wake(w));
      TwoSteps(awake, Register(w), Load(w));
      assert Remaining(w, s.waiters[w])[1..] == [Register(w), Load(w)];
  }

  /** In every run a waiter goes round its loop at most once more than there were connections. */
  lemma WaiterLoopsAreBounded(s: State, w: nat)
    requires Reachable(s) && w in s.waiters
    ensures w in s.rounds && s.rounds[w] <= s.tracked + 1
  {
    ReachableInv(s);
  }

  /** A waiter that reads the counter returns exactly when no connection is live, and otherwise sleeps with any notification it has. */
  lemma LoadDecides(s: State, w: nat)
    requires Reachable(s) && Enabled(s, Load(w))
    ensures w in Next(s, Load(w)).waiters
    ensures Next(s, Load(w)).waiters[w] == if s.live == {} then Returned else Sleeping(s.waiters[w].notified)
  {
    ReachableInv(s);
  }

  /** The guard whose drop empties the tracker, and no other, goes on to notify. */
  lemma LastGuardNotifies(s: State, g: nat)
    requires Reachable(s) && Enabled(s, Decrement(g))
    ensures g !in s.closing
    ensures g in Next(s, Decrement(g)).closing <==> s.live == {g}
  {
    ReachableInv(s);
    if s.active == 1 {
      assert |s.live - {g}| == 0;
    }
  }

  /** A notification reaches every waiter registered or asleep at that moment, and no other. */
  lemma NotificationReachesAll(s: State, g: nat, w: nat)
    requires Enabled(s, NotifyWaiters(g)) && w in s.waiters
    ensures var u := Next(s, NotifyWaiters(g));
            && w in u.waiters
            && (s.waiters[w].Registered? ==> u.waiters[w] == Registered(true))
            && (s.waiters[w].Sleeping? ==> u.waiters[w] == Sleeping(true) && Enabled(u, Wake(w)))
            && (s.waiters[w].Looping? || s.waiters[w].Returned? ==> u.waiters[w] == s.waiters[w])
            && g !in u.closing
  {}

  /** From every state, dropping the live connections and sending their notifications empties the tracker. */
  lemma {:induction false} EveryStateCanDrain(s: State) returns (run: seq<Event>)
    requires CounterInv(s)
    ensures Feasible(s, run) && Final(s, run).live == {} && Final(s, run).closing == {}
    ensures forall k | 0 <= k < |run| :: run[k].Decrement? || run[k].NotifyWaiters?
    decreases |s.live|, |s.closing|, 1
  {
    if g :| g in s.closing {
      run := DrainBy(s, NotifyWaiters(g));
    } else if g :| g in s.live {
      run := DrainBy(s, Decrement(g));
    } else {
      run := [];
    }
  }

  lemma {:induction false} DrainBy(s: State, e: Event) returns (run: seq<Event>)
    requires CounterInv(s) && Enabled(s, e) && (e.Decrement? || (e.NotifyWaiters? && s.closing != {}))
    ensures Feasible(s, run) && Final(s, run).live == {} && Final(s, run).closing == {}
    ensures forall k | 0 <= k < |run| :: run[k].Decrement? || run[k].NotifyWaiters?
    decreases |s.live|, |s.closing|, 0
  {
    CounterStep(s, e);
    var rest := EveryStateCanDrain(Next(s, e));
    run := [e] + rest;
    assert run[1..] == rest;
  }

  /** Connections and waiters come, and connections go, at any time; a waiter waits only for a notification. */
  lemma AlwaysPossible(s: State, g: nat, w: nat)
    ensures Enabled(s, Track(g)) <==> g !in s.live && g !in s.closing
    ensures Enabled(s, WaitUntilIdle(w)) <==> w !in s.waiters
    ensures Enabled(s, Decrement(g)) <==> g in s.live
    ensures Enabled(s, NotifyWaiters(g)) <==> g in s.closing
    ensures w in s.waiters ==>
              && (Enabled(s, Register(w)) <==> s.waiters[w] == Looping)
              && (Enabled(s, Load(w)) <==> s.waiters[w].Registered?)
              && (Enabled(s, Wake(w)) <==> s.waiters[w] == Sleeping(true))
  {}
}
