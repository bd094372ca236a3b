# ACM cluster service provider: a verified model

This Dafny project models the parts of the ACM cluster service provider whose correctness is
not visible from one function, and proves what they promise for every input, every event
history and every interleaving:

- **Status monitoring.** `History.dfy` says what must be reported by recomputing it from the
  whole event history of an instance. `Reconcile.dfy` is the monitor as written: mutable
  per-instance fields, a map of instances, early returns, a message that is deliberately not
  refreshed. Each handler is proved to report exactly what `History` recomputes.
  `Debounce.dfy` is the debouncer as a transition system over all interleavings of Submit,
  timer expiry, callbacks and Stop, including the race in which `timer.Stop()` loses to a timer
  that has already fired. `Debouncer.dfy` is the object itself, each critical section proved to
  be one step of that system. `Pipeline.dfy` joins monitor and debouncer and compares what is
  delivered with what the history calls for. `PublishRetry.dfy` is the retry loop under it.
- **Cluster lifecycle.** `Lifecycle.dfy` creates and deletes clusters over a store whose every
  call may fail, and records every intermediate state. `Convert.dfy` and `Listing.dfy` read
  clusters back, `Tokens.dfy` is the page token (base64, section 4 of RFC 4648, over decimal).
- **Versions and registration.** `Versions.dfy` relates discovery, resolution and the reverse
  mapping of release images. `Registration.dfy` holds one registration attempt, the capped
  backoff, and the version watcher.

`Wrappers.dfy`, `Ordering.dfy` and `Int64.dfy` hold shared shapes: options and errors, string
order and sorting, 64-bit doubling.

## How to read the model

- Code that updates fields or variables is a class or a method with loops; its contract ties
  the new state to a specification function of the old one, and the lemmas are about that
  function. Code made of expressions is functions.
- The store's answers, the order of lists and maps, failures, cancellation and the replies of
  DCM and NATS are parameters, quantified over in every result. Time is a number of
  nanoseconds in 64 bits; waits are added up, not slept.
- Instance IDs that are missing make the handlers do nothing, as in the source; all other
  events enter the history.

## What the proofs found

- The comment on `Submit` (internal/monitoring/debouncer.go:27-28) says that only the last
  submitted event per key fires. The code does not guarantee it: a timer that has fired cannot
  be stopped, its callback publishes the older event, possibly after the newer one, and it
  removes the newer timer's map entry on the way. `StaleDeliveryExists` is such a run. Over any
  run the comment holds for a key exactly when no Submit of that key found the timer it
  replaced already fired, that is, when its `t.Stop()` never returned false
  (`OnlyNewestFiresIff`). A timer that the race has taken out of the map, at first or second
  hand, can never be stopped again (`StrayIff`, `StraysCannotBeStopped`, `OrphanDeliveryExists`).
- End-to-end order therefore holds for runs in which a key gets no new notice while one of its
  callbacks is under way (`Pipeline.Serial`). This is exact: submitting a notice that is news
  under such a callback lets some continuation, with every publish succeeding, settle on the
  older notice (`SerialIsExact`). Runs made of whole handlers and whole callbacks meet the
  condition by themselves (`AtomicDelivery`).
- A PROVISIONING node pool's message depends on the order of its conditions unless at most one
  of the two updating conditions is present or both carry one text
  (`UpdatingMessageIgnoresOrderIff`).
- With several conditions of one type the API and the monitor can show different texts
  (`TextsCanDiffer`); `ApiAgreesWithMonitorIff` says when. With one condition per type they
  always agree, and the statuses always do.
- Advertised and creatable versions coincide for every catalogue exactly when no Kubernetes
  version is shared by an OCP version that an image tag can carry and another one
  (`AdvertisedIsCreatableIff`). The empty key does no harm there; it does harm the way back
  (`MapsBackIff`).
- An empty configured matrix is replaced by the default one for creation, but not for discovery
  or for reporting. As wired, advertised and creatable agree exactly for a non-empty unambiguous
  matrix (`WiredAgreesIff`), and every version is reported as requested exactly for a non-empty
  one that gives none to the empty key (`WiredMapsBackIff`).
- The times in the answer to a create are the service's own clock, the times read back later are
  the creation timestamp of the API server. They are equal only if the two clocks agree
  (`CreatedIsReadBack`).
- The watcher registers whatever the catalogue shows at the attempt, but remembers what it
  showed at the check. It is in step with DCM exactly when the last check that registered and
  its accepted attempt saw the same versions (`InSyncIff`). Out of step, it stays so while the
  catalogue stands still (`DriftIsReachable`, `DriftIsNotRepaired`).
- The backoff formula min(initial * 2^n, max) holds for all n exactly when max < 2^62, and the
  total publish wait interval * (2^n - 1) exactly while the last wait fits in 64 bits.

## Model

| member | source | states |
|---|---|---|
| Status.MapperFollowsPrecedence | internal/service/status/mapper.go:9-41 | The HC status is the first line of the documented table that applies, with each line stated on its own, in terms of the first condition of a type wherever it stands in the list |
| Status.NodePoolFollowsPrecedence | internal/service/status/nodepool_mapper.go:8-35 | When each NP status results, exclusion exactly for an empty list, and that no NP status is worse than UNAVAILABLE |
| Status.CompositeTable | internal/service/status/composite.go:13-33 | The composite, status by status: which one results from which two, from DELETED down to READY, which needs both resources READY |
| Status.HostedClusterMapperIgnoresOrder | internal/service/status/mapper.go:19-61 | On conditions of distinct types, every permutation gives the same HC status and message |
| Status.NodePoolMapperIgnoresOrder | internal/service/status/nodepool_mapper.go:17-35 | The same for the NP status and its UNAVAILABLE message |
| Status.UpdatingMessageIgnoresOrderIff | internal/monitoring/reconcile.go:249-254 | The exact condition under which the PROVISIONING message survives reordering |
| History.HcViewMeaning | internal/monitoring/reconcile.go:86-93 | The HC view is the observation at the last position not followed by another HC observation or an HC deletion |
| History.NpViewMeaning | internal/monitoring/reconcile.go:95-110 | The NP view is the last non-empty NP observation that no HC deletion, and no NP deletion with the HC seen, has cleared |
| History.DueIff | internal/monitoring/reconcile.go:112-125 | A notice is due exactly when the HC is deleted, or the worst status shown by the latest observations becomes another one |
| History.NoticeMeaning | internal/monitoring/reconcile.go:24-30 | Every notice carries the status shown and its text: the first Degraded or Available message when the control plane's status stands, else `NodePool: ` and the first Ready or updating message; nothing for other statuses and for DELETED |
| History.ReportsAreCalledFor | internal/monitoring/reconcile.go:117-125 | Every report of a mixed history is one that some event calls for, given the events of its instance before it |
| History.LastNoticeIsCurrent | internal/monitoring/reconcile.go:117-125 | After every history the last notice is the current composite, or DELETED (or nothing) while the HC is unseen |
| History.NeighboursDiffer | internal/monitoring/reconcile.go:119-122 | Neighbouring notices of an instance differ in status unless both are DELETED |
| History.OnlyObservedClustersAreReported | internal/monitoring/reconcile.go:105-110 | No status is reported before an HC observation, at the start or after a deletion |
| History.NodePoolIsSilentUnderBadHc | internal/service/status/composite.go:25-33 | NP events report nothing while the HC is UNAVAILABLE, FAILED or DELETING |
| History.AfterDeletingOnlyDeleted | internal/service/status/mapper.go:19-22 | If deletion timestamps are never cleared, only DELETED follows DELETING |
| History.CachedMessageIsStaleOnlyWhenBad | internal/monitoring/reconcile.go:87-93 | The cached HC text equals the latest one unless the HC is FAILED or UNAVAILABLE |
| History.InterleavingsAgree | internal/monitoring/reconcile.go:52-125 | Any two order-preserving interleavings of the same HC and NP events end in the same statuses, messages and last published status |
| History.InstancesAreIndependent | internal/monitoring/reconcile.go:42-49 | What is reported for an instance in a mixed history is what its own events alone call for |
| Reconcile.ExtractConditions | internal/monitoring/reconcile.go:189-219 | Conditions are read in order, elements that are not maps are skipped, missing fields are empty |
| Reconcile.ParsesElement | internal/monitoring/reconcile.go:202-217 | What one element of the list gives, field by field |
| Reconcile.ParsesInOrder | internal/monitoring/reconcile.go:200-218 | Elements are read one by one, in order |
| Reconcile.Instance.Observe | internal/monitoring/reconcile.go:85-125 | The cached fields stay what the history determines, and the notice returned is exactly the one due, with its message recomputed from the latest observations (what that notice is: `DueIff`, `NoticeMeaning`) |
| Reconcile.Instance.ForgetNodePool | internal/monitoring/reconcile.go:173-186 | The same for an NP deletion, which is ignored while the HC is unseen |
| Reconcile.MessageIsFreshOnChange | internal/monitoring/reconcile.go:24-30 | Whenever the composite changes, the cached HC text is the latest one, so no stale message is ever emitted |
| Reconcile.ReconcileState.GetOrCreate | internal/monitoring/reconcile.go:42-49 | Returns the instance's own object, a new one only if it had none, and leaves every other instance alone |
| Reconcile.ReconcileState.ReconcileResource | internal/monitoring/reconcile.go:52-126 | For any object, the history grows by its event and the result is what recomputation calls for; objects without an ID change nothing |
| Reconcile.ReconcileState.HandleDeleteHostedCluster | internal/monitoring/reconcile.go:128-152 | Forgets the instance and reports DELETED, for an object or one tombstone around it; anything else changes nothing |
| Reconcile.ReconcileState.HandleDeleteNodePool | internal/monitoring/reconcile.go:154-187 | Reports what recomputation calls for after an NP deletion, never DELETED |
| Reconcile.UnwrapIff | internal/monitoring/reconcile.go:129-142 | Which delete payloads count: an object with an ID, or one tombstone around such an object |
| Reconcile.DeliveryMeaning | internal/monitoring/monitor.go:80-124 | Which event each informer callback stands for, and which callbacks stand for none |
| Reconcile.Monitor | internal/monitoring/monitor.go:80-124 | Over every sequence of informer callbacks the emitted stream equals the recomputed one |
| Debounce.EveryRunIsCoalesced | internal/monitoring/debouncer.go:27-50 | In every reachable state: a map entry is its key's newest submission, not yet run; before Stop the newest submission of a key is never dropped; the WaitGroup counts the callbacks in flight; nothing is published twice |
| Debounce.StepKeepsInv | internal/monitoring/debouncer.go:29-62 | Each single step, from any state satisfying the invariant, keeps it |
| Debounce.WaitGroupOnlyFalls | internal/monitoring/debouncer.go:52-62 | Once stopped, the WaitGroup count never rises again and no submission is accepted |
| Debounce.QuietAfterStop | internal/monitoring/debouncer.go:52-62 | Once Stop has returned no publish is running and, whatever happens next, none starts |
| Debounce.StopCancels | internal/monitoring/debouncer.go:53-60 | Stop's critical section cancels exactly the armed timers the race has left in the map, touches no other, and no submission is accepted after it |
| Debounce.StopCanReturn | internal/monitoring/debouncer.go:61-61 | From every state with a waiting Stop call, ending the publishes in flight is enough to let it return |
| Debounce.CallbackClearsKey | internal/monitoring/debouncer.go:38-46 | A callback that publishes deletes its key's entry, whoever's it is, and no other; the key's next Submit stops nothing |
| Debounce.OnlyNewestFiresIff | internal/monitoring/debouncer.go:27-49 | Over any run, every callback of a key that fires carries the key's newest submission exactly when no Submit of the key found the timer it replaced already fired |
| Debounce.SupersededOnlyAfterRace | internal/monitoring/debouncer.go:35-44 | A callback publishing anything but the newest submission of its key comes from a timer that had expired before a Submit tried to stop it, or whose map entry was deleted by the callback of an older such timer, at any remove |
| Debounce.StrayIff | internal/monitoring/debouncer.go:32-44 | Before Stop, a timer that can still run is missing from the map exactly when that happened to it |
| Debounce.StraysCannotBeStopped | internal/monitoring/debouncer.go:35-60 | Conversely, over any continuation, neither Submit nor Stop stops such a timer before its callback runs |
| Debounce.RaceFreeKeysHaveOneTimer | internal/monitoring/debouncer.go:32-49 | Without such a race a key has at most one live timer, in the map, and it is the newest submission's |
| Debounce.StaleDeliveryExists | internal/monitoring/debouncer.go:29-50 | A run that delivers the newer event first and the superseded one last |
| Debounce.OrphanDeliveryExists | internal/monitoring/debouncer.go:35-44 | A run in which the second event is delivered after the third, because the first one's callback deleted its entry |
| DebouncerObject.Debouncer.Submit | internal/monitoring/debouncer.go:29-50 | The critical section, updating the fields in place, is the Submit step |
| DebouncerObject.Debouncer.Callback | internal/monitoring/debouncer.go:38-46 | The callback's critical section is the CallbackLock step, and goes on to publish exactly when not stopped |
| DebouncerObject.Debouncer.StopTimers | internal/monitoring/debouncer.go:56-59 | The loop stops exactly the armed timers in the map and empties it |
| DebouncerObject.Debouncer.Stop | internal/monitoring/debouncer.go:53-60 | The critical section of Stop is the StopLock step |
| DebouncerObject.Debouncer.WaitReturns | internal/monitoring/debouncer.go:61-61 | Stop returns only with no callback in flight |
| Pipeline.DeliveryKeepsOrder | internal/monitoring/monitor.go:76-124 | In every serial run, dropped publishes and Stop included, what is delivered for an instance is a subsequence of what its history reports |
| Pipeline.DeliveryCatchesUp | internal/monitoring/monitor.go:76-124 | In every serial run whose publishes succeed, a quiescent instance was last told the composite of its current HC/NP view, or DELETED |
| Pipeline.SerialIsExact | internal/monitoring/monitor.go:86-88 | In every state that a serial run without drops can reach, a notice that is news can be submitted so that every way to settle informs the instance, exactly when no callback of its key is under way |
| Pipeline.NewsIff | internal/monitoring/reconcile.go:117-125 | A notice is news, of another status than the one before, unless it repeats a deletion |
| Pipeline.AtomicDelivery | internal/monitoring/monitor.go:76-124 | Over every run in which each handler and each expired callback is one step: deliveries keep the order of the reports due and, if all publishes succeed, a quiescent instance was last told its current composite, or DELETED |
| PublishRetry.PublishWithRetry | internal/monitoring/monitor.go:144-169 | The loop's outcome, number of calls and total wait, for every retry limit, publisher and cancellation |
| PublishRetry.DeliveredIff | internal/monitoring/monitor.go:147-165 | Delivered exactly when some attempt k within the limit succeeds before any cancelled wait; then there are k + 1 calls and k waits |
| PublishRetry.LastCall | internal/monitoring/monitor.go:147-169 | What each outcome says about every attempt made, and that calls never exceed the limit plus one |
| PublishRetry.ExhaustionDrops | internal/monitoring/monitor.go:166-168 | Exhaustion takes retryMax + 1 calls and retryMax waits and drops the event |
| PublishRetry.CancellationNeverAddsACall | internal/monitoring/monitor.go:155-159 | Cancellation can only save calls |
| PublishRetry.TotalWaitIff | internal/monitoring/monitor.go:146-161 | The total wait is interval * (2^n - 1) exactly while the last wait fits in 64 bits |
| Lifecycle.Hub.CreateCluster | internal/cluster/create.go:37-96 | Result, final store and every written state, for any store and any failures |
| Lifecycle.CreateOutcome | internal/cluster/create.go:37-83 | The exact condition of success and of every error, in terms of the request, the configuration, the store and the failing calls |
| Lifecycle.CreatedAsAsked | internal/cluster/create.go:60-93 | A successful create answers and stores what was asked for: one HC with the hinted or resolved image and its NodePool, and changes nothing else |
| Lifecycle.Hub.DeleteNodePools | internal/cluster/operations.go:36-54 | Deletes the listed node pools up to the first failure, ignoring those already gone |
| Lifecycle.Hub.DeleteCluster | internal/cluster/operations.go:125-140 | Error, final store and every written state, for any store and any failures |
| Lifecycle.DeleteOutcome | internal/cluster/operations.go:20-34 | The exact condition of success, NotFound and Internal |
| Lifecycle.DeletedExactly | internal/cluster/operations.go:38-54 | A delete takes away the listed node pools up to the first failure, the HC found if it succeeds, and nothing else |
| Lifecycle.RunsStayConsistent | internal/cluster/create.go:50-83 | Over every run of creates and deletes with any failures, every intermediate state has at most one HC per ID and no node pool without its HC |
| Lifecycle.FailedCreateIsUndone | internal/cluster/create.go:74-83 | A failed create changes the store exactly when its rollback failed too, and then leaves only its own HC |
| Lifecycle.FailedDeleteKeepsHc | internal/cluster/operations.go:125-137 | A failed delete keeps every HC and every node pool of other instances |
| Lifecycle.DeleteIsResumable | internal/cluster/operations.go:20-54 | After any number of failed deletes, one fault-free delete removes the HC and all node pools of the ID and nothing else |
| Lifecycle.DeleteUndoesCreate | internal/cluster/operations.go:124-140 | Deleting what a create made, or what its failed rollback left, restores the store |
| Lifecycle.GetOutcome | internal/cluster/operations.go:57-65 | A cluster is returned, as the API shows it, exactly if the listing succeeds and an HC has the ID; NotFound or Internal otherwise |
| Lifecycle.CreatedIsReadBack | internal/cluster/create.go:85-93 | A created cluster is read back with the ID, name, status and message of the create's answer and the requested version, and with the HC's creation timestamp as both times, hence as the same answer exactly when the service's clock showed that time |
| Convert.HostedClusterToCluster | internal/cluster/convert.go:42-93 | The API cluster, field by field in place; ways into the cluster are shown only when READY or UNAVAILABLE |
| Convert.ClusterShows | internal/cluster/convert.go:42-93 | Every field of the result read off the object: first applicable status, first text of the type that speaks, creation time, latest transition or else creation as update time, ways in only when READY or UNAVAILABLE |
| Convert.ClusterShowsVersion | internal/cluster/convert.go:65-65 | A version is shown exactly if the matrix has it for the OCP version the image is tagged with |
| Convert.LatestTransition | internal/cluster/convert.go:75-81 | The update time is the maximum of the transition times and one of them |
| Convert.ApiAgreesWithMonitorIff | internal/cluster/convert.go:45-53 | For any object, API and monitor report the same status, and the same message exactly when the type that gives it speaks first or not at all |
| Convert.ApiAgreesWithMonitor | internal/cluster/convert.go:45-53 | With one condition per type, the API and the monitor show the same status and message for the same object |
| Convert.TextsCanDiffer | internal/monitoring/reconcile.go:222-238 | An object for which the API shows a text and the monitor none |
| Convert.TextsAgreeIff | internal/cluster/convert.go:142-150 | For any condition list, exactly when the two texts agree |
| Listing.ListClusters | internal/cluster/operations.go:68-122 | The page a token is entitled to, its next token, and the errors for a failed listing and a bad token |
| Listing.PageMeaning | internal/cluster/operations.go:97-104 | Which elements a page holds, also at and past the end, and when another follows |
| Listing.WalkIsComplete | internal/cluster/operations.go:80-119 | Following tokens never fails, ends after max(1, ceil(n / size)) pages, and the pages are the list in ascending order of names, whatever order the store lists items in on each call |
| Listing.CollectAll | internal/cluster/operations.go:68-122 | A client that follows next tokens until there is none gets every cluster once, converted and sorted by name, in max(1, ceil(n / size)) calls |
| Tokens.TokenRoundTripIff | internal/cluster/operations.go:85-95 | A token decodes to the offset it was made for, exactly for offsets that fit in 64 bits |
| Tokens.Base64RoundTrip | internal/cluster/operations.go:86-89 | Decoding undoes encoding for every byte string |
| Tokens.ParseTokenIff | internal/cluster/operations.go:84-95 | Exactly which tokens are accepted, as which offset, and which are refused: undecodable, not a number, negative or out of range |
| Tokens.DecodableIff | internal/cluster/operations.go:86-89 | Exactly which texts decode: whole groups of four in the alphabet, with up to two final padding characters |
| Tokens.DecimalMeaning | internal/cluster/operations.go:116-117 | A token's text is the offset in decimal without leading zeros |
| Tokens.GroupKeepsNumber | internal/cluster/operations.go:116-117 | Four characters hold the number of their three bytes, as section 4 of RFC 4648 has it |
| Ordering.LessIff | internal/cluster/operations.go:80-82 | The order of names: at the first difference the smaller character, or the end |
| Ordering.SortIgnoresOrder | internal/cluster/operations.go:80-82 | Sorting by distinct names gives one strictly ascending list, whatever the input order |
| Versions.ExtractTag | internal/registration/version.go:63-76 | Any tag major.minor, alone or with a suffix, yields major.minor, whatever stands before the last colon |
| Versions.ExtractedIsMinor | internal/registration/version.go:65-76 | Whatever is extracted is empty or has the form major.minor |
| Versions.ExtractedIff | internal/registration/version.go:63-76 | Exactly which images yield which version |
| Versions.NoMinorNoVersion | internal/registration/version.go:65-74 | Without a colon, or a dot after the last one, such as in a digest, nothing is extracted |
| Versions.DiscoverVersions | internal/registration/version.go:80-106 | The advertised list is strictly ascending and holds exactly the versions the catalogue offers |
| Versions.ListsEqualIffSameVersions | internal/registration/registration.go:216-218 | Comparing lists is comparing sets of versions |
| Versions.ResolveIff | internal/cluster/version.go:28-65 | What a version resolves to: the first catalogue image of the first OCP version in map order; and the exact condition of each error |
| Versions.AdvertisedIsCreatableIff | internal/cluster/version.go:28-65 | Advertised equals resolvable, for every catalogue and map order, exactly for unambiguous matrices |
| Versions.DiscoveredIsCreatable | internal/cluster/create_helpers.go:20-31 | As wired: with a non-empty injective matrix and one catalogue, a version is discovered iff creation resolves it |
| Versions.ReportedIff | internal/cluster/version.go:67-78 | Exactly which images are reported with which version |
| Versions.MapsBackIff | internal/cluster/version.go:67-78 | Every resolved image is reported as the requested version, unless the matrix gives that version to the empty key |
| Versions.WiredAgreesIff | internal/cluster/create_helpers.go:25-30 | As wired, over all catalogues and map orders, advertised equals creatable exactly for a non-empty unambiguous configured matrix |
| Versions.WiredMapsBackIff | internal/cluster/convert.go:65-65 | As wired, every cluster created without an image override is reported with the requested version exactly for a non-empty matrix that gives no version to the empty key |
| Versions.EmptyMatrixDisagrees | internal/cluster/create_helpers.go:25-28 | With an empty configured matrix nothing that resolves is advertised, or reported as that version |
| Versions.DefaultIsInjective | internal/registration/version.go:19-29 | The default matrix meets the hypotheses above |
| Versions.DefaultSkew | internal/registration/version.go:19-29 | The default matrix pairs 4.x with 1.(x + 13), for x from 14 to 21 |
| Registration.RegisterWithRetry | internal/registration/registration.go:158-189 | The versions accepted, if any, and the wait before every retry |
| Registration.RetriesMeaning | internal/registration/registration.go:161-183 | How many waits are begun, in terms of the replies, listings and cancellations |
| Registration.RegisteredIff | internal/registration/registration.go:90-171 | DCM ends up with given versions exactly when some attempt is answered 200 or 201, they are what its own catalogue offers, and every earlier attempt listed its catalogue, got no answer or one outside 200, 201 and 400 to 499, and waited its backoff out |
| Registration.BackoffFormulaIff | internal/registration/registration.go:159-187 | All waits follow min(initial * 2^n, max) exactly when max < 2^62 |
| Registration.WaitsGrowToTheCap | internal/registration/registration.go:184-187 | Waits never shrink and equal the cap from some retry on |
| Registration.WatchVersions | internal/registration/registration.go:205-229 | Over any run each check re-registers exactly if its listing succeeds and offers other versions than those remembered; if DCM then accepts, the versions found are remembered and those of the accepted attempt held; otherwise nothing changes |
| Registration.Startup | internal/registration/registration.go:191-200 | The watcher starts exactly if the first registration and the baseline listing succeed, and from what they saw |
| Registration.Run | internal/registration/registration.go:191-230 | The goroutine from first registration and baseline through any sequence of checks |
| Registration.InSyncIff | internal/registration/registration.go:216-227 | Over any run, what is remembered is what DCM holds exactly when, at the last check that registered, the accepted attempt's catalogue offered the same versions as the check's |
| Registration.WatcherIsInSync | internal/registration/registration.go:191-230 | If within the startup and within each check every listing shows the same images, the two never differ |
| Registration.FailureIsRetried | internal/registration/registration.go:222-226 | While DCM accepts no attempt, every check whose listing succeeds tries again, unless it offers the versions remembered |
| Registration.DriftIsNotRepaired | internal/registration/registration.go:216-218 | Once out of step, the watcher does nothing while the catalogue stands still |

## Left out

- Ordered delivery under fully concurrent handlers: the code does not give it; the runs of `Pipeline` are serial per key, and `StaleDeliveryExists` shows what happens otherwise.
- Overlapping creates of one ID: the duplicate check and the write are separate calls, so requests run one after the other here.
- Names of the resources seen first (internal/monitoring/reconcile.go:67-83): they only feed a log warning.
- Informer caches, watches, resync and label selectors: they appear as sequences of events; a resync is a repeated observation.
- NATS, CloudEvents, UUIDs, HTTP, JSON, logging and wall-clock time: a publish or a DCM call is an answer that succeeds or fails.
- Finalizers and garbage collection in Kubernetes: a successful delete removes the object; a node pool that vanished between listing and deletion is modelled.
- Failures that report an error although the write happened.
- Platform builders, resource overrides, memory quantities and pull secrets: field copying.
- Convert.HostedClusterToCluster: does not say how API endpoint, console URI and kubeconfig are built (internal/cluster/convert.go:95-141), only when they are shown.
- Lifecycle.CreatedIsReadBack: does not cover spec fields other than name and version, which reading back does not restore.
- The table from errors to HTTP statuses and request validation: finite case tables. The page size is at least 1, as the handler checks.
- Overflow of the attempt counter in publishWithRetry: it would take 2^63 calls.
- The sorting and base64 libraries: insertion sort and a decoder with the documented tolerance for line breaks and unused bits stand in for them; they are not part of this model.
- Registrar.Start and Done (internal/registration/registration.go:74-88): a once-only launch.
- TrueLists: the store's listings are exact except that a listed node pool may be gone; stale caches that miss an object are not modelled.
