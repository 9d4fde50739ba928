# Verified models of synapse-go's stateful protocols

This project models the parts of synapse-go whose guarantees cover whole runs and many
clients, and proves those guarantees in Dafny 4.11. `dafny verify dfyconfig.toml` checks
all of it. The other packages of the library are listed under "Left out".

| file | models |
|---|---|
| `Recency.dfy`, `Cache.dfy`, `TenantStatus.dfy` | the LRU cache with ttl: its meaning on recency lists, the list-and-map object itself, and the read-through tenant status lookup |
| `RateLimitScripts.dfy`, `RateLimit.dfy`, `RateLimitHolds.dfy` | the two-phase Redis rate limiter: keys, scripts and calls, any number of interleaved clients, and how long slots and corrections may take |
| `FixedWindow.dfy` | the in-memory and the Redis fixed-window limiter |
| `IdempotencyTable.dfy`, `IdempotencyRaces.dfy`, `Idempotency.dfy`, `StorageKeys.dfy` | idempotency records: the table, calls racing on it, calls one at a time, and the hashed keys |
| `Lock.dfy` | the Redis locks with owner tokens |
| `CircuitBreaker.dfy` | the circuit breaker |
| `Rbac.dfy`, `Webhook.dfy`, `CronGuard.dfy` | permission matching, the webhook header, the cron guard |
| `Text.dfy`, `Decimal.dfy`, `Redis.dfy`, `Wrappers.dfy` | trimming, splitting and fields; decimal text and the digit loop of `obs`; Redis commands on a keyspace; results |

Conventions. Time is an explicit integer argument. A mutex-protected method, a Redis script
or command and a SQL statement are one atomic step each. A Redis key is dead from its
deadline onward. A `char` is one byte. SHA-256, HMAC (section 2 of RFC 2104) and URL escaping
are function arguments, lock tokens are values not used before. Objects the source updates in
place are classes; their methods are proved against functions, and the theorems about runs are
about those functions. Protocols with many clients are state machines
whose runs are arbitrary sequences of steps.

## Findings

Where a property one might expect does not hold, the model follows the code, a lemma gives the
inputs, and the exact condition is proved beside it.

- Two overlapping Begin calls can both be started on one stale idempotency row, and a call can
  be started on a row completed after it was read, because Restart checks only the status and
  ignores the rows it affected (`RacingRestartsBothStart`, `StartedAfterCompletion`). Starts are
  more than 60 seconds apart and none follows a completion exactly when every restart finds its
  row in progress with the running deadline passed (`StartsAreOrderlyIff`); a restart that finds
  the row as it read it does (`AsReadKeepsOrder`).
- The request limit of a minute holds exactly while reservations run within 120 seconds of the
  start of their minute (`MinuteIsSafeIff`, `LateReservationOvershoots`).
- There are never more holders than slots exactly while every slot is held for less than 120
  seconds: then its counter expires and the slots are given out again (`SlotsAreSafeIff`,
  `LongHoldsOvershoot`).
- Every counter key has a deadline exactly while rollbacks and corrections come within 120 seconds
  of their reservation; a later one leaves a key that never expires (`KeysExpireIff`,
  `LateCorrectionLeavesKey`).
- The token counter can pass its limit when a response uses more than its estimate; a rule for
  settlements excludes this exactly when it never allows that (`CorrectionOvershoots`,
  `RuleKeepsTokensIff`).
- A grant such as `a.*.*` matches the text of `a.*` without allowing what `a.*` allows; this is
  the only such case (`MatchMeansInclusionIff`).
- The skew test of the webhook holds for differences that fit a `time.Duration`; a timestamp
  2^63 nanoseconds or more ahead passes, since the least duration is its own negation
  (`SkewTest`, `FarFutureIsAccepted`).
- The Redis limiter is the memory limiter under a millisecond clock. The two agree on all runs
  exactly when each key has one window of whole milliseconds and calls come at whole milliseconds
  (`AgreementIff`, with `ChangingWindowDiffers`, `PartialWindowDiffers` and `FractionsDiffer`).
- The comment on `IsAvailable` promises that callers do not probe at the same time. One check
  makes the transition to half-open, but every check after it is let through, in any number
  (`AnyNumberProbes`, `OneTransitionManyProbes`, `ProbesNeedFailures`).

## Model

| member | source | states |
|---|---|---|
| `Recency.RunWf` | cache/lru.go:68-124 | after every run keys are unique and the length is within capacity |
| `Recency.RunsIncluded` | cache/lru.go:47-124 | under the same calls, clock and ttl the list of a cache of capacity k stays a subsequence, entries and expiries included, of that of any cache of capacity m >= k |
| `Recency.BiggerCacheKeepsHits` | cache/lru.go:47-65 | every hit of the smaller cache is the same hit of the larger one |
| `Recency.RecentlyUsedKeyHits` | cache/lru.go:47-91 | after a Set of a key or a Get of it that hits, a Get returns the value of its latest Set until that is more than ttl ago, if the key is not named or purged in between and fewer than capacity distinct other keys are set or hit |
| `Recency.HitsIffFewUsed` | cache/lru.go:47-91 | without expiry and deletions that is exact: the Get hits if and only if fewer than capacity distinct other keys were set or hit since |
| `Recency.CallPlacesItsKey` | cache/lru.go:47-103 | a Set and a Get that hits leave their key in front with its value; after a Get that misses and after a Delete the key is gone |
| `Recency.CallKeepsTheOthers` | cache/lru.go:47-103 | all other entries keep their order; exactly a Set of a new key on a full list drops one, the last |
| `Recency.HitIsLatestSet` | cache/lru.go:47-91 | a hit returns the value of the key's latest Set, made at most ttl earlier, with no Delete or Purge since |
| `Recency.AgreesWithExpiringMap` | cache/lru.go:47-111 | with room for every key ever set, each Get answers as a map whose entries expire |
| `Cache.LRU.constructor` | cache/lru.go:36-44 | a new cache is empty and coherent |
| `Cache.LRU.Get` | cache/lru.go:47-65 | list and map stay coherent; the new list and the hit are those of the recency step, and a hit leaves its key in front |
| `Cache.LRU.Set` | cache/lru.go:68-91 | the same for Set, with update in place, insertion and eviction |
| `Cache.LRU.Delete` | cache/lru.go:94-103 | the same for Delete |
| `Cache.LRU.Purge` | cache/lru.go:106-111 | list and map are emptied |
| `Cache.LRU.Len` | cache/lru.go:114-118 | the length of the list is the size of the map |
| `Cache.LRU.RemoveElement` | cache/lru.go:120-124 | exactly one element leaves list and map |
| `TenantStatus.LookupStatus` | middleware/platform.go:292-306 | the answer, and the cache operations performed |
| `TenantStatus.AloneIsLookup` | middleware/platform.go:292-306 | the steps of a call of the runs below, with nothing between them, give that answer and perform those operations |
| `TenantStatus.StatusComesFromLookup` | middleware/platform.go:292-306 | however calls overlap between their cache read, lookup and cache write, a returned status was given for that tenant by this call's lookup or by one stored at most ttl before the read |
| `TenantStatus.ErrorsAreNotCached` | middleware/platform.go:298-305 | however calls overlap, a returned error is the call's own and no write to the cache carries a failed lookup |
| `RateLimitScripts.RenderInjective` | ratelimit/limiter.go:41-43 | different counters have different Redis keys |
| `RateLimitScripts.PrefixIdentifiesOwner` | ratelimit/limiter.go:171-179 | two identities share counters exactly for one API key, without API keys for one tenant, and else for one user |
| `RateLimitScripts.IncrementAllCounts` | ratelimit/scripts.go:28-37 | an admitted call adds each increment to its counter and touches no other key |
| `RateLimitScripts.DistinctKeysStayWithin` | ratelimit/scripts.go:14-37 | on distinct keys an admitted call leaves every counter within its limit |
| `RateLimitScripts.RepeatedKeyOvershoots` | ratelimit/scripts.go:14-37 | a key given twice can pass its limit, so distinct keys are needed |
| `RateLimitScripts.Limiter.CheckAndIncrement` | ratelimit/scripts.go:8-47 | all or nothing: admitted exactly when every counter fits, else nothing changes and the index is that of the first that does not fit; what remains |
| `RateLimitScripts.Limiter.CheckPreRequest` | ratelimit/limiter.go:38-134 | the verdict, its reason, what remains and the retry time from the counters before and the clocks, and the change of every counter, whatever other clients do between the two scripts and between the two decrements of the rollback |
| `RateLimitScripts.MinuteContains` | ratelimit/limiter.go:38 | the minute of a clock reading is the one it falls into, and before 1970 the next one |
| `RateLimitScripts.UndisturbedCheck` | ratelimit/limiter.go:95-116 | without interference a refused slot leaves every count as it was |
| `RateLimitScripts.Limiter.TakeSlot` | ratelimit/scripts.go:54-63 | a slot is taken exactly when the counter is below the limit |
| `RateLimitScripts.Limiter.ReleaseConcurrency` | ratelimit/limiter.go:161-168 | one slot is given back unless the counter is zero |
| `RateLimitScripts.Limiter.TrackPostResponse` | ratelimit/limiter.go:138-157 | the token counter moves by the correction, and a slot is released if asked |
| `RateLimit.CheckIsFourSteps` | ratelimit/limiter.go:38-134 | the steps of a check in the runs below, with nothing between them, have its verdict and its effect on every counter |
| `RateLimit.RpmIsExact` | ratelimit/limiter.go:38-134 | in every interleaving the request counter is within its limit, and is the admitted requests plus those between reservation and verdict or rollback unless it expired with a count |
| `RateLimit.TpmIsExact` | ratelimit/limiter.go:95-157 | unless it expired with a count, the token counter is the estimates of pending and unsettled requests plus the actual tokens of settled ones |
| `RateLimit.CountersAreExactInTime` | ratelimit/limiter.go:22-52 | with reservations within 120 seconds of their minute, request and token counters are exact until 60 seconds after its end |
| `RateLimit.SlotsAreBounded` | ratelimit/scripts.go:54-74 | the slot counter is between 0 and the limit in every run, and is the number of holders without surplus releases and expiry under held slots |
| `RateLimit.AdmittedPerMinute` | ratelimit/limiter.go:22-52 | when reservations run within 120 seconds of the start of their minute, the requests admitted for a minute never exceed the limit |
| `RateLimit.AdmittedWhenPrompt` | ratelimit/limiter.go:38-52 | the same when every reservation runs at most 60 seconds after its caller read the clock for the minute |
| `RateLimit.LateReservationOvershoots` | ratelimit/limiter.go:22-52 | for all limits that admit anything, a reservation 120 seconds after the start of its minute can be one too many |
| `RateLimit.MinuteIsSafeIff` | ratelimit/limiter.go:22-52 | the limit per minute holds in every run exactly when that delay is at most 120 seconds |
| `RateLimit.TokensStayWithin` | ratelimit/limiter.go:151-156 | under a rule that never allows more than the estimate the token counters stay within their limits |
| `RateLimit.CorrectionOvershoots` | ratelimit/limiter.go:151-156 | any settlement above its estimate can take the counter over the limit, by exactly the difference |
| `RateLimit.RuleKeepsTokensIff` | ratelimit/limiter.go:151-156 | a rule for settlements keeps the token counters within their limits in all runs exactly when it never allows more than the estimate |
| `RateLimitHolds.BriefHoldersAreCounted` | ratelimit/scripts.go:54-74 | with slots held for less than 120 seconds and no surplus releases the slot counter is the number of holders, within the limit |
| `RateLimitHolds.LongHoldsOvershoot` | ratelimit/limiter.go:95-96 | for all limits that admit anything, slots held for exactly 120 seconds are given out again, so that there is one holder more than slots |
| `RateLimitHolds.SlotsAreSafeIff` | ratelimit/scripts.go:54-74 | without surplus releases there are never more holders than slots, in every run, exactly when every hold is shorter than 120 seconds |
| `RateLimitHolds.LateCorrectionLeavesKey` | ratelimit/limiter.go:151-156 | any settlement that differs from its estimate and comes 120 seconds after the reservation leaves a key with the difference and no deadline |
| `RateLimitHolds.KeysExpireIff` | ratelimit/limiter.go:99-156 | every counter key has a deadline, in every run, exactly when rollbacks and corrections come within 120 seconds of their reservation |
| `FixedWindow.MemoryLimiter.Allow` | runtimeguard/limiter.go:48-72 | decision and buckets as the step function gives them, invalid input refused |
| `FixedWindow.RedisLimiter.Script` | runtimeguard/redis.go:15-33 | the script's commands amount to the counter step |
| `FixedWindow.RedisLimiter.Allow` | runtimeguard/redis.go:123-143 | decision and counters as the step function gives them |
| `FixedWindow.InvalidIsRefused` | runtimeguard/limiter.go:48-52 | a blank key, or a limit or window that is not positive, is refused for the length of the window and changes no bucket or counter, in both limiters |
| `FixedWindow.KeysAgreeIff` | runtimeguard/limiter.go:49 | calls are counted together exactly when their keys differ in blank text at the ends only |
| `FixedWindow.PrefixForm` | runtimeguard/redis.go:245-254 | the key prefix ends in a colon; a blank one is the default, and only a missing colon is added |
| `FixedWindow.ScriptLeavesDeadline` | runtimeguard/redis.go:15-33 | whatever it finds, the script leaves a live counter with a deadline |
| `FixedWindow.LimitersAgree` | runtimeguard/redis.go:226-243 | with a fixed whole-millisecond window per key, every Redis decision is that of the memory limiter under a millisecond clock |
| `FixedWindow.LimitersAgreeAtMillis` | runtimeguard/limiter.go:48-72 | when calls come at whole milliseconds the two limiters return the same decisions |
| `FixedWindow.ChangingWindowDiffers` | runtimeguard/redis.go:15-33 | any two different windows of a key give opposite verdicts when the shorter is over |
| `FixedWindow.FractionsDiffer` | runtimeguard/redis.go:15-33 | any first call between two milliseconds makes Redis admit and memory refuse a later call |
| `FixedWindow.PartialWindowDiffers` | runtimeguard/redis.go:256-262 | any window that is not whole milliseconds gives different waits, and from one millisecond up different verdicts |
| `FixedWindow.AgreementIff` | runtimeguard/redis.go:123-143 | for all permitted windows and all permitted call times that include, with any time, every later whole millisecond: the limiters agree on every run exactly when each key has at most one window, in whole milliseconds, and calls come at whole milliseconds |
| `FixedWindow.AdmissionsPerInterval` | runtimeguard/limiter.go:48-72 | a half-open interval as long as the window holds at most 2 * limit - 1 admissions of a key |
| `FixedWindow.RemainingIsExact` | runtimeguard/limiter.go:55-71 | Remaining is the limit less the admissions of the call's window, which begins with an admission; a call is refused exactly when that window is full |
| `FixedWindow.BoundIsReached` | runtimeguard/limiter.go:48-72 | for every limit and every window of two ticks or more some run reaches that bound |
| `FixedWindow.RetryAfterIsExact` | runtimeguard/limiter.go:61-68 | after a refusal a further call on the key is admitted exactly when it comes after RetryAfter, whatever is called meanwhile |
| `IdempotencyRaces.OneCreateWins` | idempotency/repo.go:22-28 | of the calls that created a row for one scope at most one has its row in the table |
| `IdempotencyRaces.RowsKeepTheirOrigin` | idempotency/repo.go:42-84 | in every interleaving a row keeps its scope, hash, creation time and expiry, and sensitive rows have an empty body |
| `IdempotencyRaces.ReplayWasStored` | idempotency/service.go:121-139 | a replay returns what a completion of that row stored, and the request hash is the row's |
| `IdempotencyRaces.CompletedStaysCompleted` | idempotency/repo.go:61-73 | a completed row never returns to in-progress |
| `IdempotencyRaces.StartsAreOrderlyIff` | idempotency/repo.go:61-73 | in every interleaving each start finds its row, is more than 60 seconds after any earlier start of it and before any completion of it, exactly when every restart finds its row in progress with the running deadline passed |
| `IdempotencyRaces.AsReadKeepsOrder` | idempotency/service.go:142-152 | that is so when every restart finds its row as it read it |
| `IdempotencyRaces.AsReadIff` | idempotency/service.go:121-152 | among such restarts, a call finds the row as read exactly when no other call restarted, completed or collected it since |
| `IdempotencyRaces.RepeatedRestartIsInvisible` | idempotency/repo.go:61-73 | a second restart with the same clock reading leaves the row equal, so the restriction there is needed |
| `IdempotencyRaces.RacingRestartsBothStart` | idempotency/service.go:142-152 | two overlapping calls can both be started on one row |
| `IdempotencyRaces.StartedAfterCompletion` | idempotency/service.go:142-152 | a call can be started on a row completed after it was read |
| `Idempotency.Repo.Find` | idempotency/repo.go:30-40 | the row of the scope, or none |
| `Idempotency.Repo.Create` | idempotency/repo.go:22-28 | a new id and row, or a duplicate and no change, keeping scopes unique |
| `Idempotency.Repo.RestartRow` | idempotency/repo.go:61-73 | changes only a row that is in progress |
| `Idempotency.Repo.CompleteRow` | idempotency/repo.go:42-58 | the row gets status and response and loses its running deadline, whatever its status was |
| `Idempotency.Repo.DeleteExpired` | idempotency/repo.go:75-84 | removes expired rows only, all of them or as many as the limit |
| `Idempotency.Service.Begin` | idempotency/service.go:53-101 | outcome and table for every input and whatever other calls do before the insert or restart, before the second read after a duplicate and before the restart that may follow it |
| `Idempotency.InvalidInputIff` | idempotency/service.go:58-63 | invalid exactly for a missing tenant or principal, a key, method or path that is empty or longer than 128, 16 or 255 bytes, or a malformed hash; nothing changes then |
| `Idempotency.ValidHashIff` | idempotency/service.go:169-181 | a hash is valid exactly when it is 64 hexadecimal digits, with or without "sha256:" |
| `Idempotency.ScopesAgreeIff` | idempotency/service.go:53-67 | two inputs have one row exactly when tenant and principal are equal, key and path up to blanks at the ends, the method also up to case |
| `Idempotency.AloneIsBegin` | idempotency/service.go:53-157 | a call of the race model with nothing between its statements is this Begin |
| `Idempotency.AmidIsBegin` | idempotency/service.go:53-157 | with other calls between its statements, the duplicate branch included, it is Begin with the same calls in between |
| `Idempotency.BeginUndisturbed` | idempotency/service.go:53-101 | without other calls it is the step of the runs below |
| `Idempotency.Service.DecisionForExisting` | idempotency/service.go:121-157 | the verdict on a row that was read, and the restart of a stale one |
| `Idempotency.Service.CompleteRequest` | idempotency/service.go:105-119 | valid completions are stored, without the body when sensitive |
| `Idempotency.Service.GcJob` | idempotency/service.go:160-167 | deletes a permitted choice of expired rows |
| `Idempotency.YoungRowsStay` | idempotency/service.go:87 | garbage collection never removes a row within ttl of its creation |
| `Idempotency.StartsAreSpaced` | idempotency/service.go:142-152 | one at a time, two starts on one row are more than 60 seconds apart |
| `Idempotency.SameScopeSameRow` | idempotency/service.go:67-100 | two starts of one scope are on one row exactly when the row was not removed in between |
| `Idempotency.OneRowOneCaller` | idempotency/service.go:67-100 | two calls started or replayed on one row come from one tenant and principal, with one key, path and method |
| `Idempotency.StartsWithinTtl` | idempotency/service.go:67-157 | within ttl of a row's creation every further start of its scope is a restart of it, more than 60 seconds after any earlier one |
| `Idempotency.NoStartAfterCompletion` | idempotency/service.go:129-141 | while its row lives a completed scope is never started again |
| `Idempotency.LatestStartAnswers` | idempotency/service.go:121-157 | while a row is in progress a Begin is answered by its latest start: mismatch for another hash, in process for 60 seconds, started again after that |
| `Idempotency.LatestCompletionAnswers` | idempotency/service.go:121-141 | a Begin is answered by the latest completion: replayed, or refused as sensitive or mismatched |
| `StorageKeys.WriteParts` | idempotency/idempotency.go:109-115 | the loop writes the framed parts in order |
| `StorageKeys.StreamInjective` | idempotency/idempotency.go:107-117 | different lists of parts never give the same byte stream |
| `StorageKeys.FrameForm` | idempotency/idempotency.go:111-115 | a part is its decimal length up to the first colon, its bytes and a zero byte |
| `StorageKeys.NormalizeKeyAccepts` | idempotency/idempotency.go:36-47 | accepted exactly when, white space around it aside, the key is 1 to 255 bytes above the space character and none is DEL; normalising again changes nothing |
| `StorageKeys.NormalizedPath` | idempotency/idempotency.go:123-136 | empty exactly for a blank path, else the escaped path behind a slash |
| `StorageKeys.ScopeAcceptedIff` | idempotency/idempotency.go:86-97 | accepted exactly when the key is and no other part is blank; a bad key is reported first |
| `StorageKeys.ScopesNormaliseAlikeIff` | idempotency/idempotency.go:86-105 | field by field, when two accepted scopes normalise alike |
| `StorageKeys.StorageKeyForm` | idempotency/idempotency.go:71-83 | the key is "idem:v1:" and the digest of the five framed parts in order |
| `StorageKeys.StorageKeysSeparateScopes` | idempotency/idempotency.go:71-105 | storage keys agree exactly when the normalised scopes are equal or their streams collide |
| `StorageKeys.RequestHashSeparates` | idempotency/idempotency.go:66-68 | equal request hashes mean equal method, path and body, or a named collision |
| `StorageKeys.RequestHashesAgree` | idempotency/idempotency.go:66-68 | the same method up to blanks and case, paths that normalise alike and one body give one hash |
| `StorageKeys.RequestHashForm` | idempotency/idempotency.go:66-68 | the hash is over method, path and body hash, framed in that order |
| `Lock.Acquire` | lock/distributed.go:108-136 | result and locks for every case, a missing client, a token that could not be made and a lost connection included; a handle is given exactly for a valid request on a free key, and its token is live exactly for the ttl in nanoseconds, rounded down to milliseconds, at least one |
| `Lock.LockHandle.Release` | lock/distributed.go:149-165 | errors, flag and lock for every case, a lost connection and other clients between flag check and script included; once the script has run the token is dead |
| `Lock.LockHandle.Renew` | lock/distributed.go:167-189 | errors and lock for every case, a lost connection and other clients between flag check and script included; a success leaves the token live exactly for the given time, rounded in the same way |
| `Lock.Server.SetNX` | lock/lock.go:33-39 | sets only a free key; the token is live for the ttl, without one forever |
| `Lock.Server.RunUnlock` | lock/distributed.go:91-97 | deletes only the caller's own live token |
| `Lock.Server.RunRenew` | lock/distributed.go:99-105 | moves the deadline of only the caller's own live token |
| `Lock.ExecuteWithLock` | lock/lock.go:30-58 | the function runs exactly once with the lock and not at all without it; once the unlock has run the token is not live, whatever others did and whatever the function returned |
| `Lock.AcquireIsOneStep` | lock/distributed.go:108-136 | in the runs below a handle comes exactly from a free key and an answer that arrived; the token is live for the ttl |
| `Lock.ReleaseIsTwoSteps` | lock/distributed.go:149-165 | a release in the runs below, with nothing between flag check and script, has the flag, the locks and the answer of the method |
| `Lock.RenewIsTwoSteps` | lock/distributed.go:167-189 | the same for a renewal |
| `Lock.OneHolder` | lock/distributed.go:108-136 | in every run at most one handle's token is live per key |
| `Lock.OneSuccessfulRelease` | lock/distributed.go:149-165 | at most one release per handle reports success, and then its token is dead |
| `Lock.DeadTokensStayDead` | lock/distributed.go:90-106 | a released or expired token never becomes live again |
| `Lock.ScriptTouchesOnlyItsOwn` | runtimeguard/redis.go:35-40 | a release or renew with a stale token changes no entry |
| `Lock.HolderKeepsLock` | lock/lock.go:60-66 | whatever others do, a holder keeps its entry, deadline included, until that deadline or a script of its own |
| `Lock.RenewAfterReleaseIsHarmless` | lock/distributed.go:149-189 | a renewal whose handle was released since its flag check changes nothing, whatever happens in between |
| `CircuitBreaker.Breaker.constructor` | circuitbreaker/breaker.go:42-56 | zero settings become 5 failures, 30 seconds and 3 requests, and every circuit is new |
| `CircuitBreaker.Breaker.IsAvailable` | circuitbreaker/breaker.go:61-84 | the answer, and the circuit of this key and no other moves by the step |
| `CircuitBreaker.Breaker.RecordSuccess` | circuitbreaker/breaker.go:87-99 | the circuit of this key and no other moves by the step |
| `CircuitBreaker.Breaker.RecordFailure` | circuitbreaker/breaker.go:102-122 | the circuit of this key and no other moves by the step |
| `CircuitBreaker.Breaker.GetOrCreate` | circuitbreaker/breaker.go:124-131 | the key has its own cell and no circuit changes |
| `CircuitBreaker.KeysAreIndependent` | circuitbreaker/breaker.go:34-39 | a key's circuit depends on the calls on that key only |
| `CircuitBreaker.FailuresAreTrailing` | circuitbreaker/breaker.go:102-117 | the failure count is the trailing run of failures; in a closed circuit it is zero or below the threshold |
| `CircuitBreaker.OpensIff` | circuitbreaker/breaker.go:102-122 | a closed circuit opens exactly with the failure that brings the failures since the latest success to the threshold |
| `CircuitBreaker.HalfOpensIff` | circuitbreaker/breaker.go:61-84 | an open circuit changes exactly by a check when its last failure is more than the open duration ago, to half-open |
| `CircuitBreaker.LeavesHalfOpenIff` | circuitbreaker/breaker.go:87-122 | a half-open circuit opens with any failure, closes exactly with the HalfOpenMaxRequests-th success since its probe, and else stays |
| `CircuitBreaker.AnswersIff` | circuitbreaker/breaker.go:61-84 | a check is refused exactly when the circuit is open and its last failure at most the open duration ago |
| `CircuitBreaker.ClosedIsBelowIff` | circuitbreaker/breaker.go:110-115 | closed means below the threshold in every history exactly when the threshold is positive |
| `CircuitBreaker.OpenBlocks` | circuitbreaker/breaker.go:73-79 | an open circuit blocks exactly until its last failure is more than the open duration ago |
| `CircuitBreaker.OpenStaysOpen` | circuitbreaker/breaker.go:87-99 | until then it stays open whatever successes arrive |
| `CircuitBreaker.HalfOpenHistory` | circuitbreaker/breaker.go:73-99 | a half-open circuit was probed when due, and has had no failure and fewer than the required successes since |
| `CircuitBreaker.ClosesOnlyThroughProbes` | circuitbreaker/breaker.go:70-99 | an open circuit closes only by a due probe and then exactly the HalfOpenMaxRequests-th success with no failure between |
| `CircuitBreaker.ProbesClose` | circuitbreaker/breaker.go:95-98 | that success does close it, and no earlier one |
| `CircuitBreaker.AnyNumberProbes` | circuitbreaker/breaker.go:58-82 | for every positive setting and every n, n callers are let through after one opening before any outcome is recorded |
| `CircuitBreaker.OneTransitionManyProbes` | circuitbreaker/breaker.go:73-82 | from a probe until the next failure or the closing success every check is let through and none finds the circuit open |
| `CircuitBreaker.ProbesNeedFailures` | circuitbreaker/breaker.go:73-82 | two transitions to half-open are separated by a failure |
| `Rbac.PrefixIsSegmentPrefix` | rbac/rbac.go:30-33 | the string tests of a wildcard are the prefix order of segment lists |
| `Rbac.MatchesBySegments` | rbac/rbac.go:21-35 | on star-free codes a grant allows exactly what its segment meaning covers |
| `Rbac.MatchMeansInclusionIff` | rbac/rbac.go:21-35 | a grant that matches another's text allows all the other allows, exactly when it does not merely quote the other's wildcard |
| `Rbac.MatchingIsTransitive` | rbac/rbac.go:21-35 | matching is transitive on well-formed grants |
| `Rbac.MatchingIsInclusion` | rbac/rbac.go:18-35 | a well-formed grant matches another's text exactly when it allows every star-free code the other allows |
| `Rbac.SubsumedGrantIsRedundant` | rbac/rbac.go:38-45 | dropping a grant that another matches, and does not only quote, changes no decision |
| `Webhook.ParseHeader` | webhook/webhook.go:64-87 | the loop computes the last timestamp and signature, or the error |
| `Webhook.ParsesExactly` | webhook/webhook.go:64-87 | the exact headers that parse to a given timestamp and signature |
| `Webhook.ClassifiesExactly` | webhook/webhook.go:67-80 | what makes a part a signature, a timestamp or a bad timestamp |
| `Webhook.ParseOfSigned` | webhook/webhook.go:31-37 | a signed header parses back to its timestamp and signature exactly for positive int64 timestamps |
| `Webhook.MacInputInjective` | webhook/webhook.go:39-44 | the MAC input determines timestamp and payload |
| `Webhook.MacInputForm` | webhook/webhook.go:41-42 | the text under the MAC is the decimal timestamp up to the first full stop, then the payload |
| `Webhook.HexDigits` | webhook/webhook.go:43 | each byte is two lower-case digits, high half first |
| `Webhook.SkewTest` | webhook/webhook.go:89-94 | the outcome of the skew test for every difference, saturation and overflow included |
| `Webhook.UnixWraps` | webhook/webhook.go:54 | timestamps near the greatest int64 count as 2^64 seconds earlier |
| `Webhook.VerifiesExactly` | webhook/webhook.go:46-62 | for every header: accepted exactly when the secret is not blank, the header names a timestamp in time and the signature it names is the MAC of that timestamp and the payload; when each error comes |
| `Webhook.SignedVerifies` | webhook/webhook.go:46-62 | the outcome of verifying a signed header for every positive int64 timestamp, clock and tolerance |
| `Webhook.SignedVerifiesIff` | webhook/webhook.go:46-62 | when the difference fits a Duration: accepted exactly when tolerance <= 0 or the skew is within it |
| `Webhook.FarFutureIsAccepted` | webhook/webhook.go:54 | an input outside that range that is accepted under any tolerance |
| `Webhook.OnlySignedPayloadVerifies` | webhook/webhook.go:57-60 | another payload verifies exactly when its MAC equals that of the signed one, for different messages |
| `CronGuard.AcceptsExactlyTheForm` | job/cronguard.go:79-140 | accepted exactly when of the form CRON_TZ=zone and five fields free of ? L W #, answered with the same zone and fields, single-spaced |
| `CronGuard.ErrorsInOrder` | job/cronguard.go:91-131 | for every expression with a schedule, when each error comes: blank zone, then Quartz characters whatever the field count, then the field count, then a missing prefix |
| `CronGuard.NoScheduleIff` | job/cronguard.go:87-100 | an expression has a schedule unless nothing follows its zone, and then the zone counts as missing |
| `CronGuard.NormalizeIsIdempotent` | job/cronguard.go:62-79 | normalising an accepted expression again changes nothing |
| `CronGuard.AnswerDeterminesParts` | job/cronguard.go:133-139 | two accepted expressions get one answer exactly when zone and fields agree |
| `Decimal.Uint64ToString` | obs/context.go:94-107 | for every uint64 the loop stays inside its 20 bytes and yields the canonical decimal, which reads back as the input |
| `Decimal.PrintOfValue` | obs/context.go:94-107 | canonical digits are the print of their value |
| `Decimal.ParsesExactly` | webhook/webhook.go:70 | a text parses to an integer exactly when it is digits of its magnitude after an optional sign, within int64 |
| `Decimal.ParseOfPrintInt` | webhook/webhook.go:36-71 | parsing the %d form gives the integer back exactly within int64 |

## Left out

- Gin handlers, middleware glue, response envelopes, logging, audit, health checks, shutdown: input and output only.
- GORM, MySQL, the Redis client, OSS, SMTP, SMS and HTTP clients: only the atomic effect of the cited statements and scripts is kept.
- SHA-256, HMAC, bcrypt, JWT and random numbers: function arguments and fresh values.
- Degraded paths of the rate limiter on a nil client or a Redis error: each is one branch.
- `imaging`, `timeutil`, `utils` and `job` backoff: floating point.
- `pii`: rests on regular expression semantics.
- `files`, `storage`, `validate`, `notification`, `config`, `sequence`, `notify`, `event`, `scheduler`, `outbox`, `reliableevents`, `runtimeguard/lock.go`, `job` leases: thin, or single-cell machines.
- Non-ASCII white space, control characters and letter case: text is bytes, with the ASCII part of `unicode.IsSpace`, `unicode.IsControl` and `strings.ToUpper`.
- `rbac.CheckPermission`: joins resource and action and calls `IsAllowed`.
- The updated_at column: it is written and never read.
- ExecuteWithLock: a panic of the guarded function is not modelled.
- `hmac.Equal`: plain equality, timing is not modelled.
