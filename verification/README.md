# A verified model of a security-operations backend

The repository is the backend of a security-operations platform (FastAPI services over
PostgreSQL and Redis) with its maintenance scripts. This project models its small stateful
services and its recursive transformations in Dafny and proves what they promise: of whole
runs where they keep state, of all inputs where they do not. Time is an integer number of
microseconds, a Redis key is a value with an expiry, a table is a sequence of rows, and every
statement or script sent to either is one atomic step.

`dafny verify dfyconfig.toml` checks everything. Each file is one module.

| file | models |
|---|---|
| `ServiceGraph.dfy`, `Lifecycle.dfy` | start-up order, ordered start with rollback, reverse shutdown |
| `DynamicConfig.dfy`, `DynamicConfigLimits.dfy` | settings replicated by a shared hash and publish/subscribe, as interleaved steps |
| `RateLimiter.dfy` | fixed-window rate limiter, in memory and in Redis |
| `TriggerInvocations.dfy` | webhook idempotency: check, record, clean up |
| `TranslationTrees.dfy`, `TranslationKeys.dfy`, `TranslationFill.dfy`, `TranslationFits.dfy`, `TranslationRepairs.dfy`, `TranslationStore.dfy` | merging, flattening and filling translation files |
| `Redaction.dfy`, `SensitiveFields.dfy` | depth-bounded redaction of JSON values |
| `Metrics.dfy` | running statistics of the WebSocket service |
| `TemplateReplacement.dfy`, `SiemQueries.dfy` | filling SIEM query templates |
| `TokenBlacklist.dfy`, `UserUpdates.dfy` | the two ways a token is revoked |
| `Cookies.dfy` | finding a token in a Cookie header |
| `Options.dfy` | an optional value |

The pattern is the same everywhere. Code that changes state is a class or a method with the
source's fields, loops and branches, proved equal to a specification function of the old
state; lemmas then say what that function means, over all inputs or all runs.

## What the code does not meet

Some properties one would expect fail for some inputs. Each entry names a lemma with a failing
run or input, and the lemma with the exact condition.

- Dynamic configuration. A policy says which instances may write a key, split a read of it,
  or read it inside an operation of their own. All runs within it converge exactly when
  nobody writes the key; or nobody may split a read, at most one instance writes, without
  careless reads of its own, and the key is not the empty one, which the listener ignores, or
  there is no other instance (`PolicyConvergesExactly`). The failing runs are
  `TwoWritersDiverge`, `EmptyKeyDiverges`, `PeerSplitSticks`, `OwnSplitSticks` and
  `CarelessReadSticks`. In a given state a `get` leaves something that lasts exactly when
  `Harmless` says so (`GetKeepsExactly`). Between its local update (line 163) and its hash
  write (line 170) the writer's own cache is ahead of the hash (`WriterIsAhead`); `Target`
  states this exception. From the hash write to the delivery of its message `get_all` lists
  the new value everywhere (`GetAllShowsTheSet`) and `get` elsewhere the old one
  (`GetIsStillOld`).
- The rate limiter. Its two back ends answer a run alike exactly when no call sees its window
  end in one of them and not in the other (`CallAgrees`, `BackendsAgree`); so they do if no
  call is made at the end of a window (`BackendsAgreeOffTheEnds`). At exactly
  `first_seen + window` they answer alike exactly if both treat the instant as over, Redis by
  its expiry and the store because it is being purged, or neither does (`VerdictsAtTheEnd`).
  The purge and the reset differ at that instant (`PurgeAtTheBoundary`), and
  `PurgeChangesNoAnswer` says exactly when a purge can be told. The purge uses the caller's
  window: a call on another key opens a used-up key exactly when the store is over its limit
  and that call's window is shorter than the age of the record (`MixedWindowsEvade`). So the
  sliding bound holds on all runs exactly when no other key may have a shorter window
  (`BoundedExactlyWithoutShorterWindows`; the failing runs are `ShorterWindowBreaksTheBound`).
  A retry after a refusal is allowed exactly after the end of the window, or at its very end
  while the store is being purged; waiting for the `reset` is not enough below the store
  limit, one second more always is (`RetryAfter`).
- A webhook key is unique across triggers and outlives its 24 hours until a cleanup, and an
  empty key is unique but never looked up, so a request that passed the check is refused by
  the table exactly when such a row holds its key (`PassedButRefused`). A cleanup can then
  change later answers (`CleanupUnblocksAKey`). Over whole runs cleanups change nothing that
  is recorded exactly when no call uses a key that was cleaned up, that is when no key is
  recorded twice (`CleanupsChangeNothingRecorded`), and then, and only then, every answer is
  what it would be without them (`CleanupsAreInvisible`). Two interleaved requests make a
  later lookup raise (`InterleavedRequestsBreakTheLookup`); over any interleaving none raises
  exactly when no record is stale (`LookupsRaiseExactly`).
- `deep_merge` is associative exactly when no leaf of the middle tree stands between two
  dictionaries of which the last lacks something of the first (`MergeAssociates`).
- Filling missing keys gives both files their own leaves and those they lacked, in every order
  of the keys, exactly when the files fit together, a condition on the written paths of any
  two files (`SynchronisesExactly`). A name with a dot (`DotsMakeTheOrderMatter`) and a
  dictionary under an empty name at the root (`EmptyNamesLoseKeys`) are inputs that do not
  fit. For files without either it comes to no key of one file lying above a key of the other
  (`FitMeansNoOverhang`), and otherwise the fill raises (`FillSynchronises`). The one-way
  repair keeps a locale's leaves and adds what it lacks, in every order, exactly when a like
  condition holds (`RepairsExactly`, `RepairMeansNoOverhang`); otherwise it can drop keys
  without an error, for files without such names exactly as `FixKeys` says.
- A cap of 0 on recent errors keeps them all (`ErrorMeaning`, exactly).
- An indicator that is itself a placeholder is filled in turn (`PlaceholderInIndicator`). All
  templates come out as if filled at once exactly when no value holds a placeholder that is
  filled after it, and no two values make one, the first ending and the second beginning with
  a part of it; the latter can only happen to Splunk hosts, which stand in no quotes
  (`FormatExactly`).
- A revocation can end almost a second before the token does, and is reported exactly until
  its entry ends (`OneSecondIsLost`, `ReportedExactlyUntil`). A token issued before its user's
  update survives it exactly if the update falls in the same second (`SameSecondSurvives`).

## Model

| member | source | states |
|---|---|---|
| ServiceGraph.SortIsStable | backend/core/lifecycle.py:274-276 | the sort ascends by priority and keeps services of equal priority in registration order |
| ServiceGraph.DfsSound | backend/core/lifecycle.py:283-305 | a visit that does not raise extends the finished order by services below the visited one, none of them on the stack, each after its dependencies |
| ServiceGraph.DfsCircular | backend/core/lifecycle.py:284-287 | a visit raises only at a service that lies on a cycle |
| ServiceGraph.PathDescends | backend/core/lifecycle.py:264-310 | along any dependency path the position in a complete topological order falls, so a cyclic graph has none |
| ServiceGraph.ResolveMeaning | backend/core/lifecycle.py:264-310 | the order is refused exactly when the dependencies over registered services have a cycle, naming a service on one; otherwise every registered service occurs once, after its registered dependencies |
| ServiceGraph.RoundsComplete | backend/core/lifecycle.py:307-310 | every service enters the order in the round of a root it is or is below, after all earlier roots |
| ServiceGraph.InversionsAreForced | backend/core/lifecycle.py:273-310 | a service ahead of one with a smaller priority value is a transitive dependency of a service with at most that value |
| ServiceGraph.AscendsWhenUnforced | backend/core/lifecycle.py:273-310 | when no service depends on one with a larger priority value the order ascends by priority |
| ServiceGraph.RankedIsSorted | backend/core/lifecycle.py:274-276 | the sorted list is the one and only list of the services in the order of their rank: priority, then registration |
| ServiceGraph.OrderFollowsRoutes | backend/core/lifecycle.py:273-310 | the exact order: a service stands before another only if every way from the ranked services to the other, through the dependencies as listed, has a sooner way to it |
| ServiceGraph.RankInversionsAreForced | backend/core/lifecycle.py:273-310 | a service ahead of one that ranks before it is a transitive dependency of a service that ranks no later than that one |
| ServiceGraph.StartsInRegistrationOrder | backend/core/lifecycle.py:273-310 | when no service depends on one that ranks after it there is an order, it is that of the ranks, and services of one priority come as they were registered |
| ServiceGraph.OrderResolver.Visit | backend/core/lifecycle.py:279-305 | the recursion on the mutable sets and list ends, leaves the stack as it was and produces what the functional search does |
| ServiceGraph.ResolveStartupOrder | backend/core/lifecycle.py:264-310 | the loop over the sorted services returns the resolved order or the circular dependency |
| Lifecycle.RunIsSafe | backend/core/lifecycle.py:216-433 | over any run, whichever starts and stops raise: starts and stop attempts of a service alternate, it starts only over running dependencies, and none is stopped under a running dependent |
| Lifecycle.LifelineAlternates | backend/core/lifecycle.py:312-433 | in a safe trace the successful starts and stop attempts of a service alternate, beginning with a start |
| Lifecycle.RegisterKeepsValid | backend/core/lifecycle.py:216-232 | registering keeps the invariant, also while the manager is started |
| Lifecycle.StartAllKeepsValid | backend/core/lifecycle.py:312-362 | starting keeps the invariant in every outcome: refused order, failed start with rollback, success |
| Lifecycle.StopAllKeepsValid | backend/core/lifecycle.py:364-410 | stopping keeps the invariant though stops raise |
| Lifecycle.FailedStartTrace | backend/core/lifecycle.py:334-356 | if start k raises, the calls are exactly the starts 0 to k and the stops k-1 down to 0, and nothing runs |
| Lifecycle.FailedStartStates | backend/core/lifecycle.py:334-433 | then of the services 0 to k-1 exactly those whose stop raised are still marked started, service k is marked failed, and nothing else changed |
| Lifecycle.StartedStates | backend/core/lifecycle.py:334-362 | after a successful start every service is marked started, the order is kept, and nothing else changed |
| Lifecycle.StoppedStates | backend/core/lifecycle.py:380-410 | after a stop the services of the order are marked stopped, those whose stop raised started and failed, and nothing else changed |
| Lifecycle.StatesFollowCalls | backend/core/lifecycle.py:216-433 | over any run, the services are listed in the order they were registered, and one is marked started exactly when the last of its calls that did not raise was a start |
| Lifecycle.StartAllOutcome | backend/core/lifecycle.py:312-362 | a start ends with a circular dependency exactly if there is one, else with a service whose start raises if there is one, else with all services started |
| Lifecycle.StartThenStopTrace | backend/core/lifecycle.py:312-410 | a successful start and a stop call every service in order and then in reverse, also when stops raise, and report those stopped |
| Lifecycle.StoppedNames | backend/core/lifecycle.py:380-410 | the names reported as stopped are those whose stop did not raise, the last started first |
| Lifecycle.LifecycleManager.Register | backend/core/lifecycle.py:216-232 | a duplicate name is refused and changes nothing; else the service and a fresh state are added |
| Lifecycle.LifecycleManager.StartInOrder | backend/core/lifecycle.py:334-352 | the loop starts services up to the first that raises and marks exactly those |
| Lifecycle.LifecycleManager.StartAll | backend/core/lifecycle.py:312-362 | the new state and result in all four outcomes |
| Lifecycle.LifecycleManager.Rollback | backend/core/lifecycle.py:412-433 | stops are attempted in reverse, and those that raise stay marked started |
| Lifecycle.LifecycleManager.StopInReverse | backend/core/lifecycle.py:383-405 | the loop attempts every stop in reverse order, marks successes and failures and lists the successes |
| Lifecycle.LifecycleManager.StopAll | backend/core/lifecycle.py:364-410 | the new state and the reported names |
| DynamicConfig.EveryStateIsConverging | backend/core/dynamic_config.py:115-213 | of each key with one writer and harmless atomic reads, not empty unless the writer is alone, whatever happens to other keys: in every reachable state the messages pending and about to be published bring each instance to nothing or to the hash value, or on the writer before its hash write to the value it is about to write |
| DynamicConfig.QuiescentInstancesAgree | backend/core/dynamic_config.py:115-267 | once nothing is in flight, `get` of such a key returns the hash value or the default everywhere, and `get_all` lists that same value |
| DynamicConfig.StepKeeps | backend/core/dynamic_config.py:115-347 | every step of any instance keeps the convergence invariant of a key that others hear of |
| DynamicConfig.BeginSetKeeps | backend/core/dynamic_config.py:163-163 | the local update of `set` keeps it |
| DynamicConfig.BeginDeleteKeeps | backend/core/dynamic_config.py:192-192 | the local removal of `delete` keeps it |
| DynamicConfig.WriteHashKeeps | backend/core/dynamic_config.py:170-197 | the hash write or removal keeps it, of a key that is not empty, or on the writer itself, or with nothing in flight |
| DynamicConfig.PublishKeeps | backend/core/dynamic_config.py:171-205 | the publish to all queues keeps it |
| DynamicConfig.DeliverKeeps | backend/core/dynamic_config.py:326-347 | handling a queued message, own ones dropped, keeps it |
| DynamicConfig.GetKeepsExactly | backend/core/dynamic_config.py:115-140 | a `get` keeps its instance converging exactly when the key is cached, the hash has nothing or the value to converge to, or a peer's reload is queued |
| DynamicConfig.GetKeeps | backend/core/dynamic_config.py:115-140 | a harmless `get`, or one of another key, keeps the invariant |
| DynamicConfig.FetchReadKeeps | backend/core/dynamic_config.py:122-127 | a `get` that has read the hash and not yet cached the value keeps it |
| DynamicConfig.FetchStoreKeeps | backend/core/dynamic_config.py:128-129 | storing what such a `get` of another key has read keeps it |
| DynamicConfig.RequestReloadKeeps | backend/core/dynamic_config.py:343-344 | a reload request keeps it |
| DynamicConfig.RunKeeps | backend/core/dynamic_config.py:115-347 | any run keeps it |
| DynamicConfig.EventuallyAppend | backend/core/dynamic_config.py:313-347 | draining a queue in two parts leads where draining it at once does |
| DynamicConfig.EventuallyFromNothing | backend/core/dynamic_config.py:326-347 | an instance that has nothing cached drains its queue to the same value as one that has, or to nothing |
| DynamicConfig.UndisturbedSet | backend/core/dynamic_config.py:142-187 | what the three steps of a `set` with nothing between them come to |
| DynamicConfig.UndisturbedDelete | backend/core/dynamic_config.py:189-213 | what the three steps of a `delete` with nothing between them come to |
| DynamicConfig.GetAllShowsTheSet | backend/core/dynamic_config.py:163-241 | from the hash write of a `set` on, up to the next hash write of the key and whatever else any instance does, `get_all` lists the written value on every instance |
| DynamicConfig.GetAllShowsTheDelete | backend/core/dynamic_config.py:192-241 | and from that of a `delete` on what the instance still has cached, or the default where that is nothing |
| DynamicConfig.GetIsStillOld | backend/core/dynamic_config.py:115-205 | meanwhile `get` on another instance that had the key cached, and to which nothing was delivered, returns the old value |
| DynamicConfig.DynamicConfigService.GetValue | backend/core/dynamic_config.py:115-140 | cache, then hash (cached on the way), then default |
| DynamicConfig.DynamicConfigService.SetValue | backend/core/dynamic_config.py:142-187 | the new cache, hash and queues, and success |
| DynamicConfig.DynamicConfigService.DeleteValue | backend/core/dynamic_config.py:189-213 | the new cache, hash and queues, and success |
| DynamicConfig.DynamicConfigService.Listen | backend/core/dynamic_config.py:313-347 | after the loop every key holds what the messages in order lead to |
| DynamicConfig.DynamicConfigService.GetAll | backend/core/dynamic_config.py:215-267 | one row for each supported key in order and each other key of the hash, none twice; each lists the value of the hash if there is one, else the cached one, else the default, and whether it is overridden |
| DynamicConfigLimits.TwoWritersDiverge | backend/core/dynamic_config.py:328-336 | on any set of instances, a run of two writers of different values after which, all queues drained, one instance reads a value other than that of the hash |
| DynamicConfigLimits.GetInsideOwnDelete | backend/core/dynamic_config.py:115-213 | a run in which a `get` inside the instance's own `delete` reads the deleted value for good |
| DynamicConfigLimits.GetAcrossPeerDelete | backend/core/dynamic_config.py:124-129 | a run in which a `get` that is not atomic reads a value a peer deleted for good |
| DynamicConfigLimits.EmptyKeyDiverges | backend/core/dynamic_config.py:334-340 | whatever the hash held, a run on the empty key, of one writer and a harmless read, after which a peer reads an old value for good |
| DynamicConfigLimits.EmptyKeyRunObeys | backend/core/dynamic_config.py:334-340 | that run needs one writer and atomic, harmless reads |
| DynamicConfigLimits.WriterIsAhead | backend/core/dynamic_config.py:163-170 | after its local update the writer reads a value that neither the hash nor any queued message holds |
| DynamicConfigLimits.PeerSplitSticks | backend/core/dynamic_config.py:124-129 | whatever the hash held, a run in which a peer's split read leaves it with a deleted value for good |
| DynamicConfigLimits.OwnSplitSticks | backend/core/dynamic_config.py:124-129 | the same for a read split around the instance's own `delete` |
| DynamicConfigLimits.CarelessReadSticks | backend/core/dynamic_config.py:115-213 | the same for an atomic read inside the instance's own `delete` |
| DynamicConfigLimits.UnwrittenRun | backend/core/dynamic_config.py:115-347 | of a key that nobody writes, any reads find only what the hash holds |
| DynamicConfigLimits.PolicyConvergesExactly | backend/core/dynamic_config.py:115-347 | for every key, all runs within a policy of who may write it, split reads of it and read it carelessly end with every instance reading the hash value exactly when nobody writes it; or nobody splits reads, at most one instance writes it and not carelessly, and it is not empty or there is no other instance |
| RateLimiter.SlidingBound | backend/middleware/rate_limiter.py:310-363 | over any run, across resets and purges, an interval as long as the window holds at most 2 * max_requests - 1 allowed requests of a key |
| RateLimiter.BookKept | backend/middleware/rate_limiter.py:310-363 | windows of a key start at least a window apart and each allows at most max_requests, the first at its start |
| RateLimiter.SlidingBoundIsTight | backend/middleware/rate_limiter.py:334-346 | for every limit and window there is a run that meets the bound |
| RateLimiter.ShorterWindowBreaksTheBound | backend/middleware/rate_limiter.py:317-322 | for every store limit, key, limit and window, and every shorter window on other keys, a run that breaks the bound |
| RateLimiter.BoundedExactlyWithoutShorterWindows | backend/middleware/rate_limiter.py:310-363 | the bound holds on all runs of a key's calls among calls with given windows exactly when none of these is shorter |
| RateLimiter.RefusedOnlyOverLimit | backend/middleware/rate_limiter.py:334-356 | over any run a request is refused only if at least max_requests earlier calls of its key came within the window |
| RateLimiter.RepliesTally | backend/middleware/rate_limiter.py:310-363 | every reply of any run, in full: with n the calls of the key since its window opened, refused exactly if n is over the limit and the call not the first, the remaining requests the limit less n, the limit always that of the call, and the reset the window or what is left of it |
| RateLimiter.BackendsAgree | backend/middleware/rate_limiter.py:240-363 | the Redis counter and the in-memory record give every request of a run the same allowed flag and remaining count exactly when no call sees its window end in only one of them |
| RateLimiter.BackendsAgreeOffTheEnds | backend/middleware/rate_limiter.py:240-363 | with one clock reading per call and no call at the end of a window, all answers are alike |
| RateLimiter.CallAgrees | backend/middleware/rate_limiter.py:240-363 | one call on agreeing states gives equal verdicts exactly when it does not see its window end in only one of them, and then agreeing states |
| RateLimiter.VerdictsAtTheEnd | backend/middleware/rate_limiter.py:240-363 | at exactly first_seen + window the verdicts are equal exactly if both back ends treat the window as over, Redis by its expiry and the store because it is being purged, or neither does |
| RateLimiter.PurgeChangesNoAnswer | backend/middleware/rate_limiter.py:316-322 | purging at one store size or another changes no answer of a run exactly when no call can tell the two stores apart |
| RateLimiter.TwinsAgree | backend/middleware/rate_limiter.py:310-363 | one call tells them apart exactly when one has a record still counted that the other lacks, or only one is being purged at the very end of the window |
| RateLimiter.PurgeAtTheBoundary | backend/middleware/rate_limiter.py:321-335 | at exactly first_seen + window the purge drops the record and the reset keeps it |
| RateLimiter.MixedWindowsEvade | backend/middleware/rate_limiter.py:317-322 | after a call on another key a used-up key still in its window passes exactly when the store was over its limit and that call's window is shorter than the age of the record |
| RateLimiter.RetryAfter | backend/middleware/rate_limiter.py:347-356 | when exactly a retry after a refusal is allowed, at any store size, and in terms of the `reset` it was given |
| RateLimiter.AsyncRateLimiter.CheckInMemory | backend/middleware/rate_limiter.py:310-363 | the new store and the reply, field by field |
| RateLimiter.AsyncRateLimiter.Reset | backend/middleware/rate_limiter.py:365-376 | the key's counter goes if Redis is connected, its record else, and no other |
| RateLimiter.RedisServer.IncrScript | backend/middleware/rate_limiter.py:31-37 | the script counts up and keeps the expiry of a live counter, and starts a dead one at 1 with a new expiry |
| RateLimiter.RedisServer.CheckCall | backend/middleware/rate_limiter.py:240-275 | the new counters and the verdict: allowed up to the limit, with what then remains |
| TriggerInvocations.AtMostOncePerDay | backend/repositories/trigger_repository.py:197-267 | over any serial run, recorded invocations of one trigger with the same key or payload are at least 24 hours apart, whatever was cleaned up |
| TriggerInvocations.NoLookupSeesTwo | backend/repositories/trigger_repository.py:210-234 | neither lookup ever finds two rows |
| TriggerInvocations.CleanupIsInvisible | backend/repositories/trigger_repository.py:292-313 | a cleanup with any hours changes the answer of no check of the same table, then or later |
| TriggerInvocations.CleanupLeavesExactly | backend/repositories/trigger_repository.py:292-313 | with hours in range, a cleanup leaves exactly the rows that expired no longer than that ago, each in its place; otherwise all |
| TriggerInvocations.RowsStayUntilRemoved | backend/repositories/trigger_repository.py:241-313 | over any serial run, a recorded row is in the table exactly until a cleanup is made more than its hours after the row expired |
| TriggerInvocations.KeyRefusedUntilRemoved | backend/repositories/trigger_repository.py:241-313 | so over any serial run a key is refused exactly while a row recorded with it has not been removed so |
| TriggerInvocations.CleanupsChangeNothingRecorded | backend/repositories/trigger_repository.py:197-313 | over any serial run, the same is recorded with and without cleanups exactly when no call uses a key that was cleaned up, that is when no key is recorded twice |
| TriggerInvocations.CleanupsAreInvisible | backend/repositories/trigger_repository.py:197-313 | then every check at any point of the run and later has the answer it would have without cleanups, and only then |
| TriggerInvocations.KeysReusedInTimeNeverRefused | backend/models/trigger.py:26-31 | a run whose requests use no key under two triggers or again after its day has no refusal and no use of a cleaned key |
| TriggerInvocations.CleanupsAreInvisibleToFreshKeys | backend/repositories/trigger_repository.py:197-313 | so cleanups change no answer and nothing recorded in such a run |
| TriggerInvocations.CleanupsAreOneCutoff | backend/repositories/trigger_repository.py:292-313 | as long as no call uses a cleaned key again, the table is what one cutoff leaves of the table without cleanups |
| TriggerInvocations.CleanupUnblocksAKey | backend/models/trigger.py:26-31 | an expired row refuses its key until a cleanup removes it, and then a later check differs |
| TriggerInvocations.RunKeeps | backend/repositories/trigger_repository.py:197-313 | every serial run keeps the table spaced, its keys unique and everything unexpired in it |
| TriggerInvocations.RecordedIsNew | backend/repositories/trigger_repository.py:210-239 | a row that passed check and constraint duplicates nothing recorded in the last day |
| TriggerInvocations.CheckFindsExactly | backend/repositories/trigger_repository.py:197-239 | the check finds nothing exactly when no unexpired row has the key and none of the last 24 hours the payload; it raises exactly when two have the key, or none and two the payload; and it finds a row with the key if there is one, else one with the payload |
| TriggerInvocations.PassedButRefused | backend/models/trigger.py:26-31 | a request that passed the check is refused exactly when its key, if there is one, is held by any row if it is empty, else by a row of another trigger or an expired one |
| TriggerInvocations.InterleavedRequestsBreakTheLookup | backend/repositories/trigger_repository.py:225-234 | two requests that both check before either records make the next check raise |
| TriggerInvocations.LookupsRaiseExactly | backend/repositories/trigger_repository.py:210-267 | however requests interleave, no check ever raises exactly when no row is recorded whose payload the lookup would by then find |
| TriggerInvocations.SelectTwo | backend/repositories/trigger_repository.py:219-234 | two selected rows stand at two places of the table |
| TriggerInvocations.SelectTwice | backend/repositories/trigger_repository.py:305-308 | selecting from a selection that keeps all matches finds the same rows in the same order |
| TriggerInvocations.TriggerRepository.CheckIdempotency | backend/repositories/trigger_repository.py:197-239 | by key if there is one, then by payload of the last 24 hours |
| TriggerInvocations.TriggerRepository.RecordInvocation | backend/repositories/trigger_repository.py:241-267 | one row is appended, or the unique constraint refuses and nothing changes |
| TriggerInvocations.TriggerRepository.CleanupOldInvocations | backend/repositories/trigger_repository.py:292-313 | exactly the rows that expired no more than `hours` ago are left, and the number of the others is reported; hours out of range raise and change nothing |
| TriggerInvocations.TriggerRepository.Handle | backend/services/trigger_service.py:177-203 | a call is recorded only after a check that found nothing |
| TranslationTrees.DeepMerge | Scripts/merge_and_split_translations.py:19-27 | the loop, in any order of the keys, computes the merge |
| TranslationTrees.MergeSelf | Scripts/merge_and_split_translations.py:19-27 | merging a tree into itself gives the tree |
| TranslationTrees.MergeLookup | Scripts/merge_and_split_translations.py:19-27 | the leaf of the merged tree at every path, for all trees |
| TranslationTrees.MergeDicts | Scripts/merge_and_split_translations.py:19-27 | and where it has dictionaries, empty ones too |
| TranslationTrees.TreesAreTheirPaths | Scripts/merge_and_split_translations.py:19-27 | leaves and dictionaries at every path determine a tree |
| TranslationTrees.MergeWithoutClash | Scripts/merge_and_split_translations.py:19-27 | without clashes a leaf of the merged tree is the update's if it has one, else the base's |
| TranslationTrees.MergeAssociates | Scripts/merge_and_split_translations.py:19-27 | exactly when merging three trees is associative |
| TranslationTrees.AbsorbsMeaning | Scripts/merge_and_split_translations.py:19-27 | merging one tree under another adds nothing exactly when every entry is covered |
| TranslationTrees.ClashFreeIsSmooth | Scripts/merge_and_split_translations.py:19-27 | pairwise clash-free trees meet that condition |
| TranslationTrees.MergeAssociatesWithoutClash | Scripts/merge_and_split_translations.py:19-27 | merging pairwise clash-free trees is associative |
| TranslationKeys.CollectKeys | Scripts/merge_and_split_translations.py:46-55 | the loop over the entries, in any order, collects the flattened keys |
| TranslationKeys.KeysArePaths | Scripts/check_i18n_sync.py:35-44 | the keys are exactly the dotted leaf paths, with any prefix |
| TranslationKeys.SplitDotted | Scripts/check_i18n_sync.py:49-61 | splitting a dotted path of names without dots gives the path, less the empty names it starts with |
| TranslationKeys.DottedSplit | Scripts/check_i18n_sync.py:49-61 | dotting a split key gives the key exactly when it does not begin with a dot |
| TranslationKeys.KeysAreNormalLeaves | Scripts/check_i18n_sync.py:35-56 | in a file with names without dots, a key is listed exactly when it does not begin with a dot and its path, with any number of empty names before it, leads to a leaf |
| TranslationKeys.KeysAreLeaves | Scripts/check_i18n_sync.py:35-56 | in a regular file, whose names have no dots and whose root has no leaf below an empty name, a key is listed exactly when its path leads to a leaf |
| TranslationKeys.GetNestedValue | Scripts/check_i18n_sync.py:47-56 | the loop finds what stands at the path, or nothing |
| TranslationKeys.GetLeaf | Scripts/check_i18n_sync.py:47-56 | reading a path finds a leaf exactly where there is one |
| TranslationKeys.GetBelow | Scripts/check_i18n_sync.py:47-56 | what is found at a path is all of the tree below it, and something is found exactly where a leaf or a dictionary is |
| TranslationKeys.SetPathRaises | Scripts/check_i18n_sync.py:59-67 | a write raises exactly when a leaf lies strictly above its path |
| TranslationKeys.SetPathLeaves | Scripts/check_i18n_sync.py:59-67 | every leaf after a write: what was written at and below the path, what was there elsewhere |
| TranslationKeys.SetPathDicts | Scripts/check_i18n_sync.py:59-67 | and every dictionary: those on the way, those written, and those that were there |
| TranslationKeys.LeavesAreIncomparable | Scripts/check_i18n_sync.py:35-44 | no leaf of a tree lies above another |
| TranslationFill.PassLeaf | Scripts/merge_and_split_translations.py:145-162 | every leaf after a pass, in any order of the keys: what was picked, nothing below a written key, what was there elsewhere |
| TranslationFill.FallbackWrites | Scripts/merge_and_split_translations.py:145-162 | one write of the merge leaves at its key all that the other file has there, or the key as its own text |
| TranslationFill.TodoWrites | Scripts/check_i18n_sync.py:180-194 | one write of the repair leaves a note of the text there, one for each entry of a dictionary, or one of the key |
| TranslationFill.PassRaisesExactly | Scripts/merge_and_split_translations.py:145-162 | of regular files: a pass over the missing keys fails exactly when a leaf of the target lies above one of the source |
| TranslationFill.PassLeaves | Scripts/check_i18n_sync.py:181-194 | of regular files: what a pass over the missing keys leaves at every path |
| TranslationFill.FillBothRaisesExactly | Scripts/merge_and_split_translations.py:115-162 | of regular files: both passes succeed exactly when no leaf of one file lies above one of the other |
| TranslationFill.FillBothLeaves | Scripts/merge_and_split_translations.py:115-162 | of regular files: then each file has its own leaves and the other's where it had none |
| TranslationFill.FillSynchronises | Scripts/merge_and_split_translations.py:115-162 | of regular files: the fill raises exactly when a key of one lies above a key of the other, and otherwise, whatever the order, both have exactly the union of the keys, and every leaf that was there keeps its value |
| TranslationFill.ClashFreeDoesNotOverhang | Scripts/merge_and_split_translations.py:115-162 | files without a clash always meet the condition |
| TranslationFill.FixKeys | Scripts/check_i18n_sync.py:152-202 | of regular files: when the one-way repair raises, and exactly which keys it leaves |
| TranslationRepairs.PassMakesExactly | Scripts/check_i18n_sync.py:180-194 | for any files, keys and picks, a pass gives wanted leaves in every order of its keys exactly if: no leaf of the target and no written leaf lies above a written path, every write puts the wanted leaves at and below its path, and they are there elsewhere |
| TranslationRepairs.RepairsExactly | Scripts/check_i18n_sync.py:152-202 | for any two files, the repair keeps every leaf of the locale and adds a note for each it lacks, in every order, exactly under that condition |
| TranslationRepairs.RepairedKeys | Scripts/check_i18n_sync.py:152-202 | the locale then has exactly the union of the keys, and every leaf that was there keeps its value |
| TranslationRepairs.RepairMeansNoOverhang | Scripts/check_i18n_sync.py:152-202 | regular files are repairable exactly when no key of one lies above a key of the other |
| TranslationFill.EmptyNamesLoseKeys | Scripts/merge_and_split_translations.py:50-50 | with a dictionary under an empty name at the root the filled file lacks a key |
| TranslationFill.DotsMakeTheOrderMatter | Scripts/merge_and_split_translations.py:145-162 | with a dot in a name the order of the keys decides between an error and a lost key |
| TranslationFits.PassJoinsExactly | Scripts/merge_and_split_translations.py:145-162 | for any two files and any keys, one pass gives the target its own leaves and those it lacked in every order of the keys exactly if: no leaf of it lies above a written path, each path leads to something in the source, no written leaf differs from its own, and all it lacks is written |
| TranslationFits.SynchronisesExactly | Scripts/merge_and_split_translations.py:115-162 | for any two files, the two passes do so for both in every order exactly if the first fits the second, and the second what the first becomes |
| TranslationFits.SynchronisedKeys | Scripts/merge_and_split_translations.py:115-162 | both files then have exactly the union of the keys, and every leaf that was there keeps its value |
| TranslationFits.FilledShows | Scripts/merge_and_split_translations.py:145-162 | everything that a pass over a fitting file leaves to be found, whatever the order |
| TranslationFits.FitMeansNoOverhang | Scripts/merge_and_split_translations.py:115-162 | regular files fit together exactly when no key of one lies above a key of the other |
| TranslationStore.NestedDict.SetNested | Scripts/check_i18n_sync.py:59-67 | the write into nested dictionaries in place has the tree of the functional write, and changes nothing when it raises |
| TranslationStore.NestedDict.SetBelow | Scripts/check_i18n_sync.py:63-67 | the walk changes only what is below the entry it goes through |
| TranslationStore.FillInPlace | Scripts/merge_and_split_translations.py:145-162 | the fill loop on mutable dictionaries stops at the first key that raises, with the keys before it written |
| Redaction.RedactDict | backend/core/sensitive_data.py:114-146 | the loop over the entries, in any order, computes the redacted dictionary |
| Redaction.RedactList | backend/core/sensitive_data.py:149-176 | the loop over the first 50 items and the note of the rest |
| Redaction.ValuesRevealed | backend/core/sensitive_data.py:72-97 | two values come out alike exactly when both are masked, are the same text, or share the 100 characters shown |
| Redaction.RedactionRevealsExactly | backend/core/sensitive_data.py:72-176 | two JSON values come out alike exactly when they agree in all that is shown |
| Redaction.Noninterference | backend/core/sensitive_data.py:114-176 | values that differ only below sensitive fields, at any depth, come out alike |
| Redaction.RedactionMasksAndBounds | backend/core/sensitive_data.py:114-176 | every sensitive field of the output holds the placeholder, nesting is bounded by the depth and lists by 51 entries |
| Redaction.ShownWhereItStood | backend/core/sensitive_data.py:126-176 | what a path through no sensitive field and no cut item leads to, within the depth, comes out where it stood |
| Redaction.ShownAsItWas | backend/core/sensitive_data.py:72-176 | and how: an ordinary text as itself or by its first 100 characters, a suspicious one and every sensitive field as the placeholder, a list by its first 50 items and the number of the others, what is too deep by its mark |
| SensitiveFields.SensitiveIsSpelling | backend/core/sensitive_data.py:100-111 | a field is sensitive exactly when it spells a listed name in either case, with `-` or a space for `_` |
| SensitiveFields.CutMarkIsNotSensitive | backend/core/sensitive_data.py:126-127 | the field added for what is too deep is not itself sensitive |
| Metrics.PerformanceMetrics.RecordLatency | backend/models/websocket_metrics.py:291-304 | the incremental fields equal a recomputation from the whole run |
| Metrics.PerformanceMetrics.RecalculateStatistics | backend/models/websocket_metrics.py:306-320 | the statistics are those of the samples, and stay when there are none |
| Metrics.LatencyMeaning | backend/models/websocket_metrics.py:291-320 | the window is the last min(n, cap) samples, the average their mean and between their extremes, the percentiles samples of the right rank, in order below the maximum |
| Metrics.SortedIsPermutation | backend/models/websocket_metrics.py:315-315 | sorting ascends and keeps every count |
| Metrics.SortedHasRank | backend/models/websocket_metrics.py:315-320 | the k-th sorted sample has at least k + 1 samples at most it and n - k at least it |
| Metrics.ConnectionMetrics.IncrementDisconnection | backend/models/websocket_metrics.py:87-108 | average times count stays the sum of the durations, and the extremes those of the run |
| Metrics.AverageBetweenExtremes | backend/models/websocket_metrics.py:87-108 | the average lies between the minimum and the maximum |
| Metrics.MessageMetrics.RecordSent | backend/models/websocket_metrics.py:147-173 | sizes, types and audiences recorded, each with its running statistics equal to a recomputation |
| Metrics.MessageMetrics.RecordReceived | backend/models/websocket_metrics.py:175-181 | the type is counted and nothing of what was sent changes |
| Metrics.MessageMeaning | backend/models/websocket_metrics.py:147-165 | the floored mean size is at most the largest, and the counts by type add up to the messages |
| Metrics.LargestIsMaximum | backend/models/websocket_metrics.py:147-165 | the maximum size is one of the sizes, and none is larger |
| Metrics.TallyCounts | backend/models/websocket_metrics.py:229-233 | a tally has an entry for exactly the kinds that occurred, with their counts, and adds up to the events |
| Metrics.ErrorMetrics.RecordError | backend/models/websocket_metrics.py:216-247 | totals, tally and recent errors equal a recomputation from the whole run, for every cap |
| Metrics.ErrorMeaning | backend/models/websocket_metrics.py:216-247 | the tally adds up to the total, and the recent errors are the last min(total, cap) exactly when the cap is not 0 or there are none |
| TemplateReplacement.ReplaceFillsHole | backend/playbooks/playbook_engine.py:91-96 | one replacement fills one placeholder of the template and nothing else, if no text of it holds the placeholder and no two make it |
| TemplateReplacement.SequentialIsSimultaneous | backend/playbooks/playbook_engine.py:88-152 | the chain of replacements fills all placeholders as if at once, if no value holds a placeholder filled after it and no two values filled before make one, unless it is filled with itself |
| TemplateReplacement.NoOpenBraceSettles | backend/playbooks/playbook_engine.py:88-152 | it is enough that no value but the last has an opening brace |
| TemplateReplacement.SequentialExactly | backend/playbooks/playbook_engine.py:88-152 | all templates come out as if filled at once exactly under that condition, where a step that fills something else is not undone by later ones |
| TemplateReplacement.MildExactly | backend/playbooks/playbook_engine.py:88-152 | for values that end in a quote or have no opening brace, all templates come out as if filled at once exactly when no value contains a placeholder filled after it |
| TemplateReplacement.SurvivesExactly | backend/playbooks/playbook_engine.py:88-152 | such a chain leaves a text as it is exactly if it contains none of the placeholders |
| SiemQueries.FormatQueryTemplate | backend/playbooks/playbook_engine.py:69-152 | the branches make exactly the chain of replacements with the values of the indicators |
| SiemQueries.ReplaceUrls | backend/playbooks/playbook_engine.py:119-141 | both URL placeholders get the hosts of the first five URLs, or their fallbacks |
| SiemQueries.UrlPatterns | backend/playbooks/playbook_engine.py:124-128 | the loop collects the hosts of the URLs that have one |
| SiemQueries.HostIsLeftmost | backend/playbooks/playbook_engine.py:126-128 | the host is that of the leftmost match of the pattern |
| SiemQueries.HostHereExactly | backend/playbooks/playbook_engine.py:126-128 | the pattern matches at a place exactly if either scheme stands there before a host that is not empty, and the host goes up to a slash or the end |
| SiemQueries.HostsAre | backend/playbooks/playbook_engine.py:124-128 | the hosts are those of the URLs that have one, in their order |
| SiemQueries.TimesShown | backend/playbooks/playbook_engine.py:90-96 | the time range is filled in on every platform, and the time value of its key on Sentinel alone |
| SiemQueries.IndicatorsShown | backend/playbooks/playbook_engine.py:98-152 | each placeholder shows the indicators of its own kind, and its own text where there are none; hosts stand between bars for Splunk and in quotes elsewhere |
| SiemQueries.StepsListed | backend/playbooks/playbook_engine.py:88-152 | the placeholders in the order in which they are filled |
| SiemQueries.ListShowsFirstTen | backend/playbooks/playbook_engine.py:99-117 | the list in a query reads back as the first ten indicators in order |
| TemplateReplacement.ReplaceAbsent | backend/playbooks/playbook_engine.py:100-150 | replacing an absent placeholder changes nothing, so the guards do not matter |
| SiemQueries.FormatMeaning | backend/playbooks/playbook_engine.py:69-152 | the query is the template's text in order with each placeholder filled, and no brace is left when each has a value and no input has a brace |
| SiemQueries.InputsSettle | backend/playbooks/playbook_engine.py:69-152 | it is enough that the time range, addresses, domains and URLs have no opening brace, whatever the hashes have |
| SiemQueries.FormatExactly | backend/playbooks/playbook_engine.py:69-152 | on every platform and for all indicators, every template comes out as if filled at once exactly if no value holds a placeholder that is filled after it and no two make one; in quotes, or without opening braces, only the former can happen |
| TemplateReplacement.NothingLeft | backend/playbooks/playbook_engine.py:69-152 | a template whose placeholders all have values has no brace left |
| TemplateReplacement.ParsePrints | backend/playbooks/playbook_engine.py:88-96 | a template whose braces only delimit placeholders is the print of its pieces |
| TemplateReplacement.PrintParses | backend/playbooks/playbook_engine.py:88-96 | and every print of pieces is such a template |
| SiemQueries.PlaceholderInIndicator | backend/playbooks/playbook_engine.py:99-117 | an address that is itself a later placeholder is filled in turn, on every platform |
| TokenBlacklist.RevocationLasts | backend/core/token_blacklist.py:66-110 | under any interleaving of re-adds, lookups, purges and other tokens' operations, a token blacklisted with the default time to live is reported at every time up to exp minus one second |
| TokenBlacklist.EntryLasts | backend/core/token_blacklist.py:259-266 | an entry ends less than a second before exp, and after it when fewer than 60 seconds were left |
| TokenBlacklist.EntryEnds | backend/core/token_blacklist.py:258-266 | when exactly an entry with the default time to live ends: by whole seconds at exp or less than one before, after 60 seconds when fewer are left, after a day when the token does not decode |
| TokenBlacklist.ReportedExactlyUntil | backend/core/token_blacklist.py:66-110 | until it is touched again a token is reported exactly up to the end of its entry |
| TokenBlacklist.ReportedAtExp | backend/core/token_blacklist.py:259-266 | a token with fewer than 60 seconds left is still reported at exp |
| TokenBlacklist.OneSecondIsLost | backend/core/token_blacklist.py:263-264 | an entry that ends a microsecond after the bound |
| TokenBlacklist.InMemoryBackend.Add | backend/core/token_blacklist.py:66-72 | the entry ends ttl seconds after the clock reading |
| TokenBlacklist.InMemoryBackend.Contains | backend/core/token_blacklist.py:74-85 | the answer, and the lazy removal of an entry that ended |
| TokenBlacklist.InMemoryBackend.RemoveToken | backend/core/token_blacklist.py:87-93 | the entry goes, and whether there was one |
| TokenBlacklist.InMemoryBackend.GetInfo | backend/core/token_blacklist.py:95-109 | the purge keeps exactly the entries that have not ended, and counts them |
| TokenBlacklist.InMemoryBackend.AddToBlacklist | backend/core/token_blacklist.py:242-293 | without Redis: exactly this entry, with the time to live given or else the default from the decoded token, and success |
| UserUpdates.RejectedExactly | backend/core/security.py:156-231 | over any run a token is rejected exactly when it has no usable iat or was issued in an earlier second than the latest update |
| UserUpdates.UpdatedAtIsLatest | backend/repositories/user_repository.py:107-184 | updated_at is the time of the latest operation that moves it |
| UserUpdates.StatusIsLatest | backend/repositories/user_repository.py:107-184 | over any run a user is active, and has the role, that the latest operation said, and no user comes or goes |
| UserUpdates.RejectionLasts | backend/core/security.py:208-231 | once rejected, a token stays rejected |
| UserUpdates.FreshTokensPass | backend/core/security.py:68-83 | a token issued at or after the latest update passes |
| UserUpdates.SameSecondSurvives | backend/core/security.py:217-222 | a token issued before an update is rejected after it exactly if the update falls in a later second |
| UserUpdates.HistoryKeepsFive | backend/repositories/user_repository.py:148-163 | the history holds the last five passwords that were replaced |
| UserUpdates.UserRepository.Update | backend/repositories/user_repository.py:107-128 | the new record, and None for an unknown user |
| UserUpdates.UserRepository.UpdatePassword | backend/repositories/user_repository.py:138-173 | the new record: hash, the history with the time each password was saved, time of the change, flag and updated_at |
| UserUpdates.UserRepository.Delete | backend/repositories/user_repository.py:175-184 | the user is disabled and updated_at moves |
| UserUpdates.UserRepository.UpdateLastLogin | backend/repositories/user_repository.py:130-136 | updated_at does not move |
| Cookies.GetTokenFromCookie | backend/core/cookie_auth.py:76-87 | the loop returns the value of the first part with the name |
| Cookies.SplitParts | backend/core/cookie_auth.py:79-81 | the parts of any header joined by semicolons give it back, and none has one |
| Cookies.StripCuts | backend/core/cookie_auth.py:82-85 | stripping takes off exactly the white space at both ends |
| Cookies.ValueIs | backend/core/cookie_auth.py:82-85 | any part has a value for the name exactly if, stripped, it is the name, `=` and a text, and the value is that text stripped |
| Cookies.FirstValueIs | backend/core/cookie_auth.py:79-87 | the value is that of the first part that has one |
| Cookies.PairValue | backend/core/cookie_auth.py:83-85 | a printed pair has a value under its own name and under no other |
| Cookies.CookieRoundTrip | backend/core/cookie_auth.py:76-87 | from a printed header the value of the first pair with the name is found, or None, also when values hold `=` |

## Left out

- The playbook graph engine, the correlation rules, HTTP routes, authentication middleware, logging and monitoring: the model covers the services above only.
- Redis outages: every claim about Redis assumes it answers; the branches that fall back, fail open or fail closed are not modelled.
- Lifecycle.LifecycleManager.StartAll: the start time of a service and the exception kept in its state are left out; that a start failed is a flag, and which starts and stops raise is a parameter.
- Lifecycle.LifecycleManager.StopAll: the stop time of a service is left out, and the exception of a failed stop is a flag.
- DynamicConfig.EveryStateIsConverging: instances that subscribe late and the synchronous reader are left out; a key is taken as already stripped and lower-cased.
- DynamicConfig.DynamicConfigService.SetValue: the conversion of a value by the declared type of its key is left out, and a value is its JSON text.
- DynamicConfig.DynamicConfigService.GetAll: the type and description columns are left out; both are copied from the table of supported keys.
- RateLimiter.RedisServer.CheckCall: the `reset` of a refusal is left out, because it is the remaining time to live as Redis rounds it; likewise the sub-second behaviour of its expiry: whether a key is gone at the very instant its time ends is a parameter.
- TriggerInvocations.TriggerRepository.RecordInvocation: the columns for run id, status and error message are left out; no lookup or cleanup reads them.
- TriggerInvocations.TriggerRepository.Handle: the signature, whether the trigger is enabled, and the execution that follows are left out.
- TriggerInvocations.CleanupsAreInvisible: the direction from equal answers needs that no call with an empty key takes a day between the two clock readings of its row, which no lookup would then find.
- TranslationStore.FillInPlace: in place only picks that are not dictionaries are written; a picked dictionary would be shared with the source file, and the functional fill copies it.
- TranslationStore.NestedDict.SetNested: the walk of `set_nested_value` is written as its tail recursion, because the ghost footprint of every dictionary on the way has to grow with it.
- TranslationFill.FixKeys: which keys a repair drops, for regular files only; for others the order of the keys decides, and `TranslationRepairs.RepairsExactly` says when none is dropped in any order.
- Reading and writing translation files.
- SiemQueries.FormatExactly: for a time range without an opening brace, as all those of `backend/playbooks/query_templates.py:6-27` are, and templates whose braces only delimit placeholders, as all of that file do.
- TokenBlacklist.InMemoryBackend.AddToBlacklist: the branch that writes to Redis is left out.
- TokenBlacklist.RevocationLasts: claims nothing for a token whose signature is bad or that has no `exp`, because its entry lasts 24 hours whatever the token says.
- UserUpdates.HistoryKeepsFive: `backend/repositories/user_repository.py:150-161` inserts into the loaded list in place before it assigns a slice, and `password_history` is a plain JSON column (`backend/models/user.py:69`), so a session that compares values may find no change and not store it; the model takes every assignment as stored.
- UserUpdates.RejectedExactly: `iat` values that are not whole numbers are left out.
- Metrics.ErrorMetrics.RecordError: the time stamp and context of an entry are left out, and so are the counters and rates of the service that are only added to, or are never updated.
- Floating point: averages are exact reals, and `int(n * 0.95)` is taken as `n * 95 / 100`; a rounded product may give a smaller index for some n.
- Concurrent calls into one lifecycle manager, rate limiter or repository: their operations run one after another, except where interleaving is the subject (dynamic configuration, `InterleavedRequestsBreakTheLookup`).
- The payload hash of a webhook, password hashes, signatures and JWT encoding: uninterpreted; a signed token is known by its claims.
- The regular expressions that find suspicious text: a parameter of the redaction, which is proved for every such test; `Redaction.Policy` also takes the test of field names as a parameter, with `SensitiveFields.IsSensitiveField` the one the source uses.
- Lower-casing and stripping beyond ASCII.
