# agentic-api: a verified model of its limiter, key cache, shutdown and text tools

This project models six parts of the agentic-api gateway and proves what they promise over every
input, every run or every reachable state.

| part | modules |
|---|---|
| Per-caller rate limiter (GCRA buckets in a capped, swept map) | `Gcra`, `TokenBucket`, `RateLimitConfig`, `RateLimiter`, `RateLimiterRuns`, `RateLimiterPruning`, `RateLimiterWindows`, `RateLimiterForgetting`, `RetryHints` |
| OIDC key-set cache: the refresh protocol and the cache lifetime | `JwksRefresh`, `JwksRefreshProofs`, `JwksRefreshStaleness`, `JwksReplies`, `JwksTtl` |
| WebSocket drain tracker | `DrainTracker` |
| Process supervisor of the Python launcher | `Supervisor`, `SupervisorSignals` |
| Rust file-size check: `cfg` evaluation and line counting | `CfgPredicate`, `CfgCompleteness`, `CfgSyntax`, `CfgComments`, `CfgAttributes`, `LineCounts`, `LineTexts` |
| URL redaction in diagnostics | `RedactUrls`, `RedactLeftovers`, `RedactedText` |

`Common` and `Text` hold shared types, counting lemmas and standard-library text operations.

Times and durations are natural numbers of nanoseconds, except in `JwksTtl`, where they are whole
seconds. Clocks, fetch outcomes, parser output, process exits and scheduling are inputs: a clock
reading is a parameter or a `Tick`, a fetch is an arbitrary success or failure, and a run is any
sequence of enabled events. In `JwksRefresh`, `DrainTracker` and `Supervisor` every step between
two points at which another caller can act is one event of a state machine. Fields whose comment
calls them history are written and never read.

`dafny verify dfyconfig.toml` checks everything.

## Where the code and its description part

- The limiter's comment says that forgetting an idle caller changes nothing. The clock is read before
  the lock, so lock order need not be time order. `PruningIsInvisible` proves the comment for runs in time order and
  for runs without a sweep; `OutOfOrderPruningShows` gives a run outside both in which a forgotten caller is
  allowed although its bucket would have refused. A charge is exposed when its bucket is missing from the map while the
  unbounded limiter's bucket is still ahead of the request's timestamp. Over every run, in any lock order,
  `PrunedCopyExactlyWhen` and `PruningShowsExactlyWhen` prove that pruning stays invisible if and only if no charge is
  exposed, and `ExposedAnswerDiffers` says when the exposed charge itself is answered differently. Where it does show,
  `BucketWindowAlways` bounds what it costs: one more window's capacity for each time the bucket was reset.
- The interval is a floor division, so a minute can hold more than the burst plus the configured rate.
  `MinuteIsExceededExactlyWhen` says exactly for which rates; `LargestRateIsExceeded` is a schedule that does.
- `redact_urls` slices at `index + 1` after the character in front of a scheme. When that character is
  longer than one byte the slice falls inside it and the call panics. `Redact` models this as an absent result
  and states the exact texts on which it happens; `AccentBeforeSchemePanics` is one of them.
- `redact_urls` looks only at the first "://" of each stretch between delimiters. `LeavesUserInfoExactlyWhen` says, on
  every text, exactly when user information is left: when a stretch has some behind a "://" that is not its first, be
  that in a path, in a query or straddling the end of the first authority. `SecondUrlIsKept` is a family of such texts.
- Three-valued `cfg` evaluation is sound on every predicate. It does not know when two atoms are the same, so it
  misses tautologies such as `any(x, not(x))` (`RepeatedAtomsStayUnknown`). `DefiniteIffConstant` says exactly what it
  decides, on every token list: the predicates on which every assignment to the occurrences of atoms agrees. With no
  atom repeated these assignments are the builds (`DefiniteIffAllBuildsAgree`).
- A stale key set is served for one second from the completion of the refresh that installed it. The completion
  is stamped after the installation, so the second runs from the stamp: `NoBoundFromInstallation` serves an expired set
  any given time after its installation, and `LateAnswerExactlyWhen` says exactly when that happens.

## Model

| member | source | states |
|---|---|---|
| Gcra.AdmittedConform | crates/agentic-server/src/rate_limit.rs:180-195 | Whatever is charged to a fresh bucket, in any lock order, the admitted timestamps conform: any m of them in a row span at least (m - burst) intervals, and the stored arrival time is the greatest push of an admitted request. |
| Gcra.AdmittedIsGreedy | crates/agentic-server/src/rate_limit.rs:186-194 | A request is refused if and only if admitting it would make the admitted timestamps stop conforming. |
| Gcra.ExactAdmission | crates/agentic-server/src/rate_limit.rs:168-195 | A schedule, in any order, is admitted in full by a fresh bucket if and only if (j - i + 1 - burst) * interval <= t_j - t_i for all i <= j. |
| Gcra.WindowBound | crates/agentic-server/src/rate_limit.rs:168-195 | Conforming requests number at most burst + floor(W / interval) in any window of length W. |
| Gcra.WindowBoundAttained | crates/agentic-server/src/rate_limit.rs:3-7 | For every window some schedule in time order is admitted in full and meets that bound with equality, so it is the exact capacity. |
| Gcra.RetryIsExact | crates/agentic-server/src/rate_limit.rs:131-141 | A refusal leaves the bucket as it was; a request after d is allowed if and only if d >= retry_after; a full burst after d is allowed if and only if d >= reset. |
| TokenBucket.SpendStep | crates/agentic-server/src/rate_limit.rs:180-195 | One request: the token bucket and GCRA give the same answer and stay related by tokens = burst * interval - max(0, arrival - now). |
| TokenBucket.TokenBucketEquivalence | crates/agentic-server/src/rate_limit.rs:3-7 | Over every run in time order the two algorithms answer every request alike and correspond after every prefix. |
| RateLimitConfig.New | crates/agentic-server/src/rate_limit.rs:59-72 | A configuration is accepted if and only if its burst, when given, is at most one hour of requests; it then has the given rate and the given burst, or the rate as its burst; a refusal names the burst and that bound. |
| RateLimitConfig.DivideSecondsIsFloor | crates/agentic-server/src/rate_limit.rs:85-87 | Duration division by seconds and carried nanoseconds is the floor of the nanosecond quotient. |
| RateLimitConfig.ArithmeticIsBounded | crates/agentic-server/src/rate_limit.rs:168-177 | For every accepted 32-bit configuration the interval is at least 13 ns and at most a minute, and the tolerance is below an hour. |
| RateLimitConfig.MinuteCapacity | crates/agentic-server/src/rate_limit.rs:84-87 | floor(60 s / interval) is at least the rate, and equals it if and only if the remainder lost to the division is smaller than the interval, in particular whenever rpm * (rpm + 1) <= 60 * 10^9. |
| RateLimitConfig.MinuteIsExceededExactlyWhen | crates/agentic-server/src/rate_limit.rs:84-87 | Some schedule in time order, admitted in full by a fresh bucket, puts more than burst + rpm requests into a given minute if and only if the remainder lost to the division reaches one interval. |
| RateLimitConfig.LargestRateIsExceeded | crates/agentic-server/src/rate_limit.rs:84-87 | At the largest 32-bit rate and a burst of 1, a schedule admitted in full puts 4615384616 requests into a minute, more than burst + rpm. |
| RateLimiter.ForCaller | crates/agentic-server/src/rate_limit.rs:109-120 | A caller's key is its verified principal when there is one, is anonymous exactly without principal and peer, and is never the overflow key. |
| RateLimiter.PeerIsItsNetwork | crates/agentic-server/src/rate_limit.rs:122-129 | A peer is keyed by an IPv4 address if and only if it is that address or its ::ffff:0:0/96 mapping; any other IPv6 peer is keyed by its upper 64 bits. |
| RateLimiter.PeersShareANetwork | crates/agentic-server/src/rate_limit.rs:122-129 | Two unauthenticated peers share a bucket if and only if they are one IPv4 address, mapped or not, or lie in one IPv6 /64. |
| RateLimiter.RateLimiter.constructor | crates/agentic-server/src/rate_limit.rs:168-177 | A new limiter tracks nobody and has no sweep deadline. |
| RateLimiter.RateLimiter.AdmitKey | crates/agentic-server/src/rate_limit.rs:202-225 | In place: the key to charge, the swept map, the sweep deadline and the warning time are those of the specification step. |
| RateLimiter.RateLimiter.CheckRequest | crates/agentic-server/src/rate_limit.rs:180-195 | In place: the decision and the whole new state are those of the specification step that the run theorems are about. |
| RateLimiterRuns.MemoryIsBounded | crates/agentic-server/src/rate_limit.rs:202-225 | In every reachable state, in any lock order, at most max_keys callers are tracked, plus the one overflow bucket. |
| RateLimiterRuns.OverflowExactlyWhen | crates/agentic-server/src/rate_limit.rs:202-225 | A caller is charged to the overflow bucket, and otherwise to its own, if and only if it is new, the map holds max_keys, and the deadline has not come or max_keys arrival times are later than now. |
| RateLimiterRuns.SweepExactlyWhen | crates/agentic-server/src/rate_limit.rs:202-213 | A due sweep of a full map for a new caller happens: it forgets exactly the callers whose arrival time is not later than now and sets the deadline one second ahead; without one no bucket but the charged one, and no deadline, changes. |
| RateLimiterRuns.AllowedExactlyWhen | crates/agentic-server/src/rate_limit.rs:185-194 | Swept or not, a request is allowed if and only if the charged bucket's arrival time is at most burst - 1 intervals ahead, and then moves it one interval on; otherwise the bucket stays and the two waits are the excess and the whole lead. |
| RateLimiterRuns.WarnsExactlyWhen | crates/agentic-server/src/rate_limit.rs:214-224 | The warning time moves exactly when a caller is charged to the overflow bucket 60 s or more after the last warning. |
| RateLimiterRuns.OnlyIdleKeysAreForgotten | crates/agentic-server/src/rate_limit.rs:206-209 | A key leaves the map only in a sweep, and only if its arrival time is not later than the sweep's time. |
| RateLimiterRuns.SweepsAreSpaced | crates/agentic-server/src/rate_limit.rs:197-209 | In any lock order, two full-map sweeps have timestamps at least one second apart. |
| RateLimiterPruning.SweepSafeMeans | crates/agentic-server/src/rate_limit.rs:181-184 | The state condition that keeps pruning invisible, that a request is not stamped before the last sweep, holds throughout a run if and only if no request's timestamp precedes an earlier sweep's. |
| RateLimiterPruning.PruningIsInvisible | crates/agentic-server/src/rate_limit.rs:180-225 | In every run in time order, and in every run without a sweep in any order, no charge is exposed and each gets the same decision, retry_after and reset as from an unbounded, unswept map fed the same charges. |
| RateLimiterPruning.PrunedCopyExactlyWhen | crates/agentic-server/src/rate_limit.rs:202-225 | Over every run in any lock order: the map is a pruned copy of the unbounded one after every prefix and all answers agree if and only if no charge goes to a bucket forgotten while still ahead of the request's timestamp. |
| RateLimiterPruning.PruningShowsExactlyWhen | crates/agentic-server/src/rate_limit.rs:180-225 | Over every run in any lock order, in terms of answers alone: no charge is exposed if and only if every prefix, followed by a full burst on the bucket charged last, is answered throughout as by the unbounded limiter. |
| RateLimiterPruning.ExposedAnswerDiffers | crates/agentic-server/src/rate_limit.rs:185-209 | Any exposed charge of a run is answered differently if and only if the forgotten arrival time is beyond now plus the tolerance. |
| RateLimiterPruning.OutOfOrderPruningShows | crates/agentic-server/src/rate_limit.rs:181-209 | For any three callers a four-request run, out of time order, in which the limiter allows what the unbounded one refuses. |
| RateLimiterRuns.RefusalChangesNoBucket | crates/agentic-server/src/rate_limit.rs:185-192 | A refusal changes no bucket of the map, even when it swept. |
| RateLimiterRuns.RetryIsExactInPlace | crates/agentic-server/src/rate_limit.rs:180-195 | A caller refused by its own bucket and returning after d, with nothing charged in between, is charged to that bucket again and allowed if and only if d >= retry_after. |
| RateLimiterWindows.BucketWindowBound | crates/agentic-server/src/rate_limit.rs:168-225 | In every run without an exposed charge, in any lock order, one bucket of the limiter allows at most burst + floor(W / interval) requests in any window. |
| RateLimiterWindows.CallerWindowBound | crates/agentic-server/src/rate_limit.rs:168-225 | In such a run one caller, counting what the overflow bucket paid, is allowed at most twice that. |
| RateLimiterWindows.CallerWindowBoundAttained | crates/agentic-server/src/rate_limit.rs:180-225 | For every burst and any three callers a run in time order reaches that bound: within a second the overflow bucket pays a full burst of the caller and its own new bucket pays another. |
| RateLimiterWindows.CallerMinuteBound | crates/agentic-server/src/rate_limit.rs:59-87 | For a configuration whose division loses less than an interval, a run without an exposed charge allows one caller at most 2 * (burst + rpm) requests in any minute. |
| RateLimiterForgetting.BucketSinceReset | crates/agentic-server/src/rate_limit.rs:185-209 | In every run, in any lock order, what a bucket last held is what one GCRA bucket holds after the charges since its last reset, that is since it was last found forgotten while what it held was later than the request's timestamp. |
| RateLimiterForgetting.BucketWindowAlways | crates/agentic-server/src/rate_limit.rs:168-225 | In every run, in any lock order, one bucket allows at most (resets + 1) * (burst + floor(W / interval)) requests in any window. |
| RateLimiterForgetting.CallerWindowAlways | crates/agentic-server/src/rate_limit.rs:168-225 | In every run one caller is allowed at most what its own bucket and the overflow bucket are by that bound. |
| RateLimiterForgetting.NeverResetsExactlyWhen | crates/agentic-server/src/rate_limit.rs:202-225 | A run resets no bucket if and only if no charge of it is exposed, that is if and only if pruning never shows. |
| RateLimiterForgetting.ForgettingBoundAttained | crates/agentic-server/src/rate_limit.rs:181-209 | For any three callers a run out of time order resets one bucket once and reaches the bound, twice the capacity of a window. |
| RetryHints.CeilingIsExact | crates/agentic-server/src/rate_limit.rs:312-320 | The rounded-up hint is never zero, covers the wait if and only if it does not saturate at 64 bits, and one unit less never covers it when the hint exceeds 1. |
| RetryHints.HintIsEnoughAndTight | crates/agentic-server/src/rate_limit.rs:302-320 | Waiting out the second or millisecond header gets the request allowed (unless the hint saturated), and waiting one unit less does not. |
| RetryHints.ResetRoundTrip | crates/agentic-server/src/rate_limit.rs:322-336 | The printed reset text decodes to exactly the rounded-up milliseconds of the wait, for every wait. |
| RetryHints.ResetForm | crates/agentic-server/src/rate_limit.rs:322-336 | The text is whole milliseconds below a second; from then on minutes if there are any, seconds below sixty, and as few decimals as denote the rest, without a point when there are none. |
| RetryHints.ResetIsInjective | crates/agentic-server/src/rate_limit.rs:322-336 | Two waits print alike if and only if they round up to the same millisecond. |
| JwksRefresh.RefreshAttempt.Begin | crates/agentic-server/src/auth.rs:128-139 | Beginning an attempt sets the shared backoff to 30 s from now and arms the guard. |
| JwksRefresh.RefreshAttempt.Drop | crates/agentic-server/src/auth.rs:150-161 | Dropping an armed attempt clears the backoff only if it is its own; dropping a disarmed one changes nothing. |
| JwksRefresh.CancelledRefresh | crates/agentic-server/src/auth.rs:128-161 | Begin, then drop: whatever the state was, no backoff is left and nothing else changed. |
| JwksRefresh.FailedRefresh | crates/agentic-server/src/auth.rs:128-161 | Begin, retain the backoff, then drop: the 30 s backoff stands. |
| JwksRefresh.SupersededRefresh | crates/agentic-server/src/auth.rs:128-161 | Two attempts begun, the first dropped: the second's backoff stands unless both began at the same instant. |
| JwksRefresh.CompletedRefresh | crates/agentic-server/src/auth.rs:297-309 | After a completed refresh only its own stamps are left, whether or not the attempt is disarmed before it is dropped. |
| JwksRefreshProofs.InvRun | crates/agentic-server/src/auth.rs:252-310 | Every interleaving keeps the protocol invariant: gate ownership, the attempt's backoff and log entry, spacing, the cache being the newest installed set, and the completion stamp being that installation's own. |
| JwksRefreshProofs.OneFetchInFlight | crates/agentic-server/src/auth.rs:262-308 | In every reachable state at most one caller is fetching, and only the newest fetch can be in flight. |
| JwksRefreshProofs.FetchSpacing | crates/agentic-server/src/auth.rs:266-308 | After a failure begun at b no fetch begins before b + 30 s; after a success completed at s none begins before s + 1 s, nor before s + 30 s unless the installed set has expired. |
| JwksRefreshProofs.FetchWindow | crates/agentic-server/src/auth.rs:252-310 | Any window of W holds at most floor(W / 1 s) + 1 fetches that were not cancelled. |
| JwksRefreshProofs.RefusalsAreJustified | crates/agentic-server/src/auth.rs:266-287 | A gated caller is told to back off only within 30 s of the beginning of a failed fetch; it is told a key is unknown only while the newest installed set lacks it and either is fresh and was completed under 30 s ago or was completed under 1 s ago, by the refresh that installed it; it refreshes only when no earlier fetch forbids it. |
| JwksRefreshProofs.BoundedStaleness | crates/agentic-server/src/auth.rs:252-310 | Every key returned is the newest installed set's key for that id, returned before that set expires, or within 1 s of the completion of the very refresh that installed it, or, before that completion, to the caller that fetched it. |
| JwksRefreshProofs.AnsweredExactlyWhen | crates/agentic-server/src/auth.rs:266-287 | A gated caller gets a key if and only if the newest set has it and is unexpired or, unless it is the set from discovery, was completed less than 1 s ago. |
| JwksRefreshStaleness.LateAnswerExactlyWhen | crates/agentic-server/src/auth.rs:266-310 | A second or more after its installation, an expired set is still answered if and only if it has the key and came from a refresh stamped complete less than a second ago, so only if the stamp came after the installation. |
| JwksRefreshStaleness.NoBoundFromInstallation | crates/agentic-server/src/auth.rs:297-310 | For every delay a reachable state answers an already expired set exactly that long after its installation. |
| JwksReplies.FastReadExactlyWhen | crates/agentic-server/src/auth.rs:253-260 | In every reachable state the ungated read answers if and only if the newest installed set has the key and has not expired. |
| JwksReplies.DecisionExactlyWhen | crates/agentic-server/src/auth.rs:266-287 | In every reachable state, the whole gated decision in terms of installations and fetches: the key, unknown, back off, or refresh, each exactly when; a caller is told to back off if and only if a fetch begun within 30 s failed and the newest set does not settle the matter. |
| JwksReplies.CompletionExactlyWhen | crates/agentic-server/src/auth.rs:297-309 | In every reachable state a caller whose fetch succeeded gets the newest installed set's key if and only if that set, its own, has it, and is refused as unknown otherwise. |
| JwksReplies.OtherRefusals | crates/agentic-server/src/auth.rs:262-296 | A failed fetch is refused as such; a caller that finds no fresh key queues for exactly one second, after which it may be told to back off. |
| JwksReplies.RepliesOnceOnLeaving | crates/agentic-server/src/auth.rs:252-310 | A caller leaves exactly by the step of its own that replies to it, or by its cancellation. |
| JwksReplies.StepsPossible | crates/agentic-server/src/auth.rs:252-310 | A caller waits for nothing but the gate, a fetch may fail or bring any keys, and a lookup can be dropped exactly where it awaits. |
| JwksReplies.FetchedSetIsInstalled | crates/agentic-server/src/auth.rs:289-298 | Whatever other callers do meanwhile, a successful fetch installs its own keys, to expire its lifetime after the fetch. |
| JwksReplies.EveryCallerCanReturn | crates/agentic-server/src/auth.rs:252-310 | In any state every caller can return within three steps, all its own but for the passing of time. |
| JwksRefreshProofs.OthersAreLockedOut | crates/agentic-server/src/auth.rs:262-308 | While a caller refreshes, no step of any other caller touches the cache or the refresh state. |
| JwksRefreshProofs.CancelClearsOwnBackoff | crates/agentic-server/src/auth.rs:150-161 | Cancelling a refresh at either of its awaits frees the gate, keeps the cache, and leaves a refresh state that answers like the one before the attempt. |
| JwksRefreshProofs.CancellationIsInvisible | crates/agentic-server/src/auth.rs:121-161 | After any interleaving that ends with a refresh cancelled, every later run of events gives exactly the replies it would give had the refresh state stayed as it was before the attempt. |
| JwksTtl.MaxAgeOf | crates/agentic-server/src/auth.rs:598-612 | One header line stops the computation if and only if it forbids caching; otherwise the least parsed max-age so far is kept. |
| JwksTtl.GreatestAge | crates/agentic-server/src/auth.rs:614-619 | The age is the greatest parsed Age line, zero if there is none. |
| JwksTtl.Ttl | crates/agentic-server/src/auth.rs:592-624 | The loop's result is the lifetime that the lines describe; sections 5.1 and 5.2.2 of RFC 9111. |
| JwksTtl.LifetimeInNumbers | crates/agentic-server/src/auth.rs:614-623 | Unless a directive forbids caching, with least max-age m and greatest age a the lifetime is the least of 3600 and max(0, m - a), and without a max-age max(0, 300 - a). |
| JwksTtl.ForbiddenLineGivesZero | crates/agentic-server/src/auth.rs:598-601 | A line that is no-cache or no-store, in any letter case and with any blanks around it, among any other lines, gives zero. |
| JwksTtl.HeadersInNumbers | crates/agentic-server/src/auth.rs:592-624 | From header text to seconds: max-age=m and Age: a, for all 64-bit numbers, give the least of 3600 and max(0, m - a). |
| JwksTtl.TtlIsUnique | crates/agentic-server/src/auth.rs:592-624 | That description determines one lifetime. |
| JwksTtl.OrderDoesNotMatter | crates/agentic-server/src/auth.rs:592-624 | Two responses with the same directives and the same ages, in any order and number, have the same lifetime. |
| JwksTtl.SameLines | crates/agentic-server/src/auth.rs:594-613 | The directives found depend only on which Cache-Control lines there are, not on their order or number. |
| JwksTtl.LinesCommute | crates/agentic-server/src/auth.rs:592-624 | Two responses with the same Cache-Control lines and the same Age lines, in any order and number, have the same lifetime. |
| JwksTtl.LinesCombine | crates/agentic-server/src/auth.rs:594-598 | One comma-joined line holds the directives of its two halves as separate lines. |
| JwksTtl.TtlIsBounded | crates/agentic-server/src/auth.rs:614-623 | No lifetime exceeds an hour. |
| JwksTtl.MaxAgeIsRead | crates/agentic-server/src/auth.rs:602-605 | A max-age directive in any letter case, with any blanks around its name, its number and the whole, quoted or not, is read as its number, for every 64-bit number. |
| JwksTtl.DirectiveWithValue | crates/agentic-server/src/auth.rs:602-605 | A directive with a value is a max-age if and only if its trimmed name spells max-age in any letter case, and is ignored otherwise. |
| JwksTtl.DirectiveWithoutValue | crates/agentic-server/src/auth.rs:598-601 | A directive without a value forbids caching if and only if it spells no-cache or no-store in any letter case, and is ignored otherwise. |
| JwksTtl.AgeIsRead | crates/agentic-server/src/auth.rs:614-619 | An Age line with blanks around its number is read as the number. |
| JwksTtl.NumbersRead | crates/agentic-server/src/auth.rs:605-619 | A 64-bit number may carry a plus sign; a greater one, and text with any other character, is no number. |
| JwksTtl.UnreadableLinesArePassedOver | crates/agentic-server/src/auth.rs:594-619 | A header line that is not visible ASCII changes neither the directives nor the greatest age. |
| DrainTracker.CounterIsExact | crates/agentic-server/src/app.rs:157-220 | In every reachable state the counter is the number of live guards. |
| DrainTracker.NoLostWakeup | crates/agentic-server/src/app.rs:157-176 | In every reachable state a waiter asleep without a notification implies a live guard or a guard that has decremented to zero and not yet notified. |
| DrainTracker.ReturnsOnlyWhenIdle | crates/agentic-server/src/app.rs:166-175 | `wait_until_idle` returns only by reading zero in a state in which every tracked connection has been dropped. |
| DrainTracker.IdleWaitersReturn | crates/agentic-server/src/app.rs:166-175 | Once no guard is live or about to notify, every waiter returns by at most three steps of its own. |
| DrainTracker.WaiterLoopsAreBounded | crates/agentic-server/src/app.rs:166-220 | In every run a waiter registers at most once more than the number of connections tracked. |
| DrainTracker.LoadDecides | crates/agentic-server/src/app.rs:166-175 | In every reachable state a waiter that reads the counter returns if and only if no guard is live, and otherwise sleeps with any notification it already has. |
| DrainTracker.LastGuardNotifies | crates/agentic-server/src/app.rs:213-220 | In every reachable state a dropped guard goes on to notify if and only if it was the only live one. |
| DrainTracker.NotificationReachesAll | crates/agentic-server/src/app.rs:213-220 | A notification reaches every waiter registered or asleep at that moment, and no other. |
| DrainTracker.EveryStateCanDrain | crates/agentic-server/src/app.rs:157-220 | From every state with an exact counter, drops and notifications alone empty the tracker. |
| Supervisor.Unseen | python/agentic_api/process.py:87-88 | A pass takes exactly the listed children it has not seen. |
| SupervisorSignals.UnseenInOrder | python/agentic_api/process.py:87-88 | It takes them in list order: the batch of a list is the batch of its front followed by that of its back. |
| Supervisor.NoChildEscapes | python/agentic_api/process.py:47-108 | In every interleaving, once some terminate_all has returned, every child whose start call has returned was sent SIGTERM or was already gone, whatever other starts are in progress; with none in progress, so was every process ever spawned. |
| Supervisor.HandledChildrenAreFinished | python/agentic_api/process.py:93-108 | Every child a returned terminate_all handled was gone or was sent SIGKILL. |
| Supervisor.NoKillBeforeTerminate | python/agentic_api/process.py:93-104 | In every interleaving a process that was sent SIGKILL was sent SIGTERM. |
| Supervisor.TerminateAllTerminates | python/agentic_api/process.py:81-108 | For n listed children a terminate_all call makes at most n passes and 4n + 2 steps, and until it returns it can always take its next step. |
| SupervisorSignals.OnlyTheTargetIsSignalled | python/agentic_api/process.py:73-104 | A step sends SIGTERM or SIGKILL to exactly the living process it is aimed at, and a process ends only by itself. |
| SupervisorSignals.NoSignalWithoutShutdown | python/agentic_api/process.py:47-79 | In every interleaving, as long as no shutdown was requested no process is signalled and no start call terminates its child. |
| SupervisorSignals.ShutdownExactlyWhen | python/agentic_api/process.py:47-50 | The flag is set exactly by a request or by terminate_all, and stays set. |
| SupervisorSignals.LateStartsAreHandled | python/agentic_api/process.py:73-79 | A request alone dooms later starts: once the flag is set, a start call that had not returned returns only with its child sent SIGTERM or gone. |
| SupervisorSignals.RequestSparesRunningChildren | python/agentic_api/process.py:47-79 | A request alone leaves running children alone: without terminate_all a child whose start has returned is never signalled again. |
| SupervisorSignals.StartsCanReturn | python/agentic_api/process.py:73-79 | In every reachable state every start call can return by its own steps, with its child listed. |
| SupervisorSignals.ListGrowsAtItsEnd | python/agentic_api/process.py:73-75 | The list of children grows only at its end, by the child appended. |
| CfgPredicate.SplitArguments | scripts/check_rust_file_sizes.py:37-44 | The loop's groups are the comma-separated, comment-free token lists, without an empty last one. |
| CfgPredicate.EvaluatesTheParse | scripts/check_rust_file_sizes.py:29-52 | Evaluating a token list is three-valued evaluation of the predicate it parses to. |
| CfgPredicate.CfgValueIsSound | scripts/check_rust_file_sizes.py:29-52 | A definite answer is the Boolean value of the predicate under every assignment to the other atoms. |
| CfgCompleteness.BuildsAreAssignments | scripts/check_rust_file_sizes.py:29-52 | Every build is one assignment to the occurrences of a predicate's atoms, with the same Boolean value. |
| CfgCompleteness.DefiniteIffConstant | scripts/check_rust_file_sizes.py:29-52 | On every token list the answer is definite if and only if every assignment to the occurrences of its atoms agrees on it. |
| CfgCompleteness.DefiniteIffAllBuildsAgree | scripts/check_rust_file_sizes.py:29-52 | For predicates that repeat no atom, the answer is definite if and only if every build agrees on it. |
| CfgCompleteness.MissedExactlyWhen | scripts/check_rust_file_sizes.py:29-52 | A predicate that all builds decide alike is answered unknown if and only if some assignment to occurrences disagrees. |
| CfgSyntax.RepeatedAtomsStayUnknown | scripts/check_rust_file_sizes.py:46-52 | The tokens of any(x, not(x)), for every atom x that can be written, hold in every build and are answered unknown. |
| CfgSyntax.ParseRender | scripts/check_rust_file_sizes.py:31-52 | A predicate of any nesting, written with or without trailing commas, parses back to itself. |
| CfgSyntax.CallIsWorth | scripts/check_rust_file_sizes.py:45-52 | A call as written: all is false if an argument is and true if all are, any dually, not takes exactly one argument, and any other call is unknown. |
| CfgComments.CommentsDoNotMatter | scripts/check_rust_file_sizes.py:31-44 | Comments inside a predicate, at any depth, never change its value. |
| CfgPredicate.TestOnlyMeansDisabled | scripts/check_rust_file_sizes.py:55-65 | A cfg attribute classed as test-only is disabled in every build that is not a test build. |
| CfgCompleteness.TestOnlyIff | scripts/check_rust_file_sizes.py:55-65 | Every cfg attribute is classed as test-only if and only if it is disabled under every assignment to the occurrences of its atoms outside tests and enabled under some assignment in tests. |
| CfgCompleteness.TestOnlyIffDisabled | scripts/check_rust_file_sizes.py:55-65 | For predicates that repeat no atom, an attribute is classed as test-only if and only if it is disabled in every non-test build and enabled in some test build. |
| CfgAttributes.OtherAttributesExactlyWhen | scripts/check_rust_file_sizes.py:55-63 | An attribute that is not a cfg call is test-only if and only if, amid any comments, it is the single word test or bench; an absent one never is. |
| CfgAttributes.CommentedCfgIsCfg | scripts/check_rust_file_sizes.py:59-63 | A cfg attribute is classed alike with comments between and around its two parts. |
| CfgAttributes.CfgIsTestOnlyExactlyWhen | scripts/check_rust_file_sizes.py:62-65 | cfg(p) as written, for every predicate, is test-only if and only if p fails under every assignment outside tests and holds under some in tests. |
| CfgAttributes.OrdinaryCfgs | scripts/check_rust_file_sizes.py:55-65 | cfg(test) and cfg(all(test, x)) are test-only; cfg(x), cfg(not(test)) and cfg(any(test, x)) are not. |
| LineCounts.LineIsRow | scripts/check_rust_file_sizes.py:115-118 | Line r of the split holds text if and only if some byte of row r is not blank. |
| LineCounts.BlankTests | scripts/check_rust_file_sizes.py:108-114 | Overwriting the buffer range by range leaves exactly the bytes outside the union of the ranges and every newline; the collected rows are exactly the rows of covered bytes. |
| LineCounts.CountSource | scripts/check_rust_file_sizes.py:103-119 | The three counts are the specified function of the source and the set of covered bytes. |
| LineCounts.OrderDoesNotMatter | scripts/check_rust_file_sizes.py:110-119 | Ranges in any order, repeated or overlapping, give the same counts. |
| LineCounts.CountsAddUp | scripts/check_rust_file_sizes.py:115-119 | Production plus tests is the total plus the rows holding both; production and tests are each at most the total. |
| LineCounts.Extremes | scripts/check_rust_file_sizes.py:103-119 | A wholly test-only source has no production lines and only test lines; a source without ranges has only production lines. |
| LineTexts.BytesAre | scripts/check_rust_file_sizes.py:108-118 | Byte 10 ends a line; 9 to 13 and 32 are blank; a covered byte becomes 32 unless it is 10. |
| LineTexts.SplitsBack | scripts/check_rust_file_sizes.py:115 | Splitting a text gives back its lines and what follows the last line feed. |
| LineTexts.TotalIsLines | scripts/check_rust_file_sizes.py:115-119 | Every line counts, and an unterminated last one unless it is empty. |
| LineTexts.RowIsLine | scripts/check_rust_file_sizes.py:111-113 | Byte k of line r, its line feed included, lies in row r. |
| RedactUrls.Redact | crates/agentic-server/src/agentic_output.rs:140-160 | The scanning loop terminates; it panics exactly on the texts in which a scanned URL directly follows a character longer than one byte; otherwise its result is the segment-by-segment redaction. |
| RedactUrls.EverySegmentIsClean | crates/agentic-server/src/agentic_output.rs:127-160 | Redaction moves no delimiter, and the first URL of every stretch between delimiters has no user information in the result but the placeholder. |
| RedactLeftovers.SegmentLeaksExactlyWhen | crates/agentic-server/src/agentic_output.rs:127-138 | A redacted stretch between delimiters holds a "://" with user information other than the placeholder if and only if the stretch held one after its first "://". |
| RedactLeftovers.LeavesUserInfoExactlyWhen | crates/agentic-server/src/agentic_output.rs:140-160 | On every text, some URL of the result still shows user information if and only if, before redaction, some stretch between delimiters held such a URL behind a "://" that is not its first. |
| RedactLeftovers.OnlyUserInfoIsReplaced | crates/agentic-server/src/agentic_output.rs:127-138 | Redaction replaces the user information of a stretch's first URL by the placeholder and changes nothing else; it changes nothing when there is none. |
| RedactLeftovers.SecondUrlIsKept | crates/agentic-server/src/agentic_output.rs:140-160 | A URL with user information inside the path of another URL is left unchanged, for every delimiter-free user information. |
| RedactUrls.RedactionIsIdempotent | crates/agentic-server/src/agentic_output.rs:140-160 | Redacting twice is redacting once on every text, and the second pass panics if and only if the first does. |
| RedactUrls.UnchangedIffClean | crates/agentic-server/src/agentic_output.rs:127-160 | A text is left alone if and only if every scanned URL has no '@' in its authority or has exactly the placeholder as its user information. |
| RedactUrls.AsciiNeverPanics | crates/agentic-server/src/agentic_output.rs:145-152 | ASCII text never panics. |
| RedactUrls.AccentBeforeSchemePanics | crates/agentic-server/src/agentic_output.rs:145-152 | A concrete text with an accented letter before the scheme panics. |
| RedactedText.RedactsPieceByPiece | crates/agentic-server/src/agentic_output.rs:145-156 | Redaction, and panicking, go piece by piece at each of the 25 white-space characters of Unicode, the three quotes and the angle brackets. |
| RedactedText.HidesUserInfo | crates/agentic-server/src/agentic_output.rs:127-138 | On text without those characters, and for one URL given alone: what stands between the first "://" and the last '@' before '/', '?' or '#' becomes the placeholder, and all else is kept. |
| RedactedText.KeepsPlainUrl | crates/agentic-server/src/agentic_output.rs:127-138 | A URL without '@' in its authority is kept as it is. |
| RedactedText.KeepsPlainText | crates/agentic-server/src/agentic_output.rs:145-160 | Text without "://" neither changes nor panics. |
| RedactedText.PanicsExactlyWhen | crates/agentic-server/src/agentic_output.rs:145-153 | A piece panics if and only if the character in front of its first URL's scheme, in the piece or just before it, takes more than one byte; schemes are ASCII letters, digits, '+', '-' and '.'. |

## Left out

- Update in place for the drain tracker, the supervisor and `verification_key`: they are state machines over values, one transition per atomic action, because their promises are about interleavings; what a single call does to an object it shares with no other is not stated separately.
- HTTP serving, middleware, response building and TLS: a fetch is an arbitrary success or failure.
- JWT and JWK decoding, `compile_jwks`, `verification_algorithm`, `audience_allows`: filters and library calls with easy facts only.
- `last_overflow_warning` and metrics: the warning time is part of the state, but only its effect on the state is modelled.
- Mutex poisoning and a closed semaphore: the lock-failure errors of `auth.rs` never occur in the model.
- `PermissionError` from `killpg`, and process-group ids that the system reuses: a signal either finds the group or finds it gone.
- The time that waits take: a wait for a child or for the gate is one step that may happen at any time its condition allows.
- `shutdown_signal`, `wait_for_failure`, `ReadinessTracker`, the baseline ratchet of the size check, `strip_ansi_codes`, `render_box`: they would add only easy members.
- Tree-sitter parsing and `test_ranges`: token trees and nonempty byte ranges inside the source are inputs.
- Atomic memory orderings: every atomic action takes effect at once.
- JwksTtl.Ttl: blanks are spaces and tabs, the only white space a header value converted to text can hold.
- JwksRefreshProofs.BoundedStaleness: the 1 s window runs from the completion of the refresh that installed the set, because a window from the installation is false of the code, as JwksRefreshStaleness.NoBoundFromInstallation shows.
- RateLimiterPruning.PruningShowsExactlyWhen: the probing burst is charged straight to the bucket charged last; when that is the overflow bucket, which no caller's own key names, the burst stands for requests of new callers while the map stays full.
