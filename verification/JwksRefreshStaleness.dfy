/**
 How late an expired key set is still served. The window of one second opens when a refresh is stamped
 complete, so counted from the installation it grows by the time between the installation and the stamp.
 */
module JwksRefreshStaleness {
  import opened Common
  import opened JwksRefresh
  import opened JwksRefreshProofs

  /**
   A second or more after its installation, an expired set is still answered if and only if it came from a
   refresh whose completion was stamped less than a second ago, so only if the stamp came after the installation.
   */
  lemma LateAnswerExactlyWhen(s: State, c: nat)
    requires Reachable(s) && c in s.callers && s.callers[c].phase.Gated?
    ensures s.installs != [] && Newest(s).completed.Some?
    ensures var newest := Newest(s);
            var late := newest.at + SECOND <= s.clock && newest.jwks.expiresAt <= s.clock;
            late ==>
              && (ReplyTo(s, Decide(c)).Answer? <==>
                  && |s.installs| > 1 && s.callers[c].kid in newest.jwks.keys
                  && s.clock < newest.completed.value + SECOND)
              && (ReplyTo(s, Decide(c)).Answer? ==> newest.at < newest.completed.value)
  {
    AnsweredExactlyWhen(s, c);
  }

  // ----- no bound from the installation holds

  lemma {:induction false} RunExtends(s: State, run: seq<Event>, e: Event)
    requires Feasible(s, run) && Enabled(Final(s, run), e)
    ensures Feasible(s, run + [e]) && Final(s, run + [e]) == Next(Final(s, run), e)
    decreases |run|
  {
    var longer := run + [e];
    if run == [] {
      assert longer == [e] && longer[1..] == [];
      assert Final(Next(s, e), []) == Next(s, e);
    } else {
      assert longer[0] == run[0] && longer[1..] == run[1..] + [e];
      hide Next, Enabled;
      RunExtends(Next(s, run[0]), run[1..], e);
    }
  }

  lemma ReachableNext(s: State, e: Event)
    requires Reachable(s) && Enabled(s, e)
    ensures Reachable(Next(s, e))
  {
    hide Next, Enabled, Feasible, Final;
    var jwks, now, run :| Feasible(Discovered(jwks, now), run) && s == Final(Discovered(jwks, now), run);
    RunExtends(Discovered(jwks, now), run, e);
  }

  /** A caller that finds the set expired queues for the gate and takes it. */
  function Waiting(s: State, c: nat, kid: string): State {
    s.(gate := Some(c), callers := s.callers[c := Caller(kid, Gated)])
  }

  lemma ReachesGate(s: State, c: nat, kid: string)
    requires Reachable(s) && c !in s.callers && s.gate.None? && s.jwks.expiresAt <= s.clock
    ensures Reachable(Waiting(s, c, kid))
  {
    hide Reachable;
    var arrived := Next(s, Arrive(c, kid));
    ReachableNext(s, Arrive(c, kid));
    var queued := Next(arrived, FastRead(c));
    ReachableNext(arrived, FastRead(c));
    assert queued.callers[c] == Caller(kid, Queued(s.clock + WAIT_TIMEOUT));
    ReachableNext(queued, Acquire(c));
    assert Next(queued, Acquire(c)).callers == Waiting(s, c, kid).callers;
    assert Next(queued, Acquire(c)) == Waiting(s, c, kid);
  }

  /** A set that was expired when it was fetched. */
  function Expired(keys: map<string, Key>): Jwks {
    Jwks(keys, 0)
  }

  /** A refresh that begins and installs at once, at time zero, and has not been stamped complete. */
  function Unstamped(kid: string, keys: map<string, Key>): State {
    State(0, Expired(keys), RefreshState(0, Some(COOLDOWN), None), Some(0),
          map[0 := Caller(kid, Stored(0, Expired(keys)))],
          [Fetch(0, InFlight)],
          [Installation(Expired(map[]), 0, Some(0)), Installation(Expired(keys), 0, None)])
  }

  lemma DiscoveredIsReachable(jwks: Jwks, now: nat)
    ensures Reachable(Discovered(jwks, now))
  {
    assert Feasible(Discovered(jwks, now), []) && Final(Discovered(jwks, now), []) == Discovered(jwks, now);
  }

  lemma ReachesInstallation(kid: string, keys: map<string, Key>)
    ensures Reachable(Unstamped(kid, keys))
  {
    hide Reachable;
    var start := Discovered(Expired(map[]), 0);
    DiscoveredIsReachable(Expired(map[]), 0);
    ReachesGate(start, 0, kid);
    var gated := Waiting(start, 0, kid);
    ReachableNext(gated, Decide(0));
    var committed := Next(gated, Decide(0));
    assert committed == start.(gate := Some(0), callers := map[0 := Caller(kid, Committed)]);
    ReachableNext(committed, JwksRefresh.Begin(0));
    var fetching := Next(committed, JwksRefresh.Begin(0));
    InstallsAtOnce(kid, keys, fetching);
  }

  lemma InstallsAtOnce(kid: string, keys: map<string, Key>, fetching: State)
    requires Reachable(fetching)
    requires fetching == State(0, Expired(map[]), RefreshState(0, Some(COOLDOWN), None), Some(0),
                               map[0 := Caller(kid, Fetching(0))], [Fetch(0, InFlight)],
                               [Installation(Expired(map[]), 0, Some(0))])
    ensures Reachable(Unstamped(kid, keys))
  {
    hide Reachable;
    ReachableNext(fetching, FetchSucceeds(0, keys, 0));
    var storing := Next(fetching, FetchSucceeds(0, keys, 0));
    assert storing == fetching.(callers := map[0 := Caller(kid, Storing(0, Expired(keys)))]);
    ReachableNext(storing, Install(0));
    assert Next(storing, Install(0)) == Unstamped(kid, keys);
  }

  /** The same refresh, stamped complete after `delay`, and a second caller at the gate. */
  function Stamped(kid: string, keys: map<string, Key>, delay: nat): State {
    State(delay, Expired(keys), CompleteRefresh(delay), Some(1),
          map[1 := Caller(kid, Gated)],
          [Fetch(0, Succeeded(delay, 0))],
          [Installation(Expired(map[]), 0, Some(0)), Installation(Expired(keys), 0, Some(delay))])
  }

  lemma ReachesStamp(kid: string, keys: map<string, Key>, delay: nat)
    ensures Reachable(Stamped(kid, keys, delay))
  {
    hide Reachable;
    ReachesInstallation(kid, keys);
    var stored := Unstamped(kid, keys);
    ReachableNext(stored, Tick(delay));
    var later := stored.(clock := delay);
    ReachableNext(later, Complete(0));
    var done := Next(later, Complete(0));
    assert done == Stamped(kid, keys, delay).(gate := None, callers := map[]);
    ReachesGate(done, 1, kid);
    assert Waiting(done, 1, kid) == Stamped(kid, keys, delay);
  }

  /**
   However long the delay, some reachable state answers an expired set that long after its installation:
   no bound counted from the installation holds.
   */
  lemma NoBoundFromInstallation(kid: string, key: Key, delay: nat)
    ensures var s := Stamped(kid, map[kid := key], delay);
            && Reachable(s) && Enabled(s, Decide(1))
            && ReplyTo(s, Decide(1)) == Answer(key)
            && Newest(s).jwks.expiresAt <= Newest(s).at && s.clock == Newest(s).at + delay
  {
    ReachesStamp(kid, map[kid := key], delay);
    hide Reachable;
  }
}
