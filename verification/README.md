# Verification of the gateway's core

A model in Dafny of the hard part of the gateway: the concurrent state machines that own backend
processes and connections, and the encodings and merges that decide which backend a name, a URI or a
configuration stands for. `dafny verify dfyconfig.toml` checks all of it.

## What is modelled

The concurrent parts are state machines. Each locked section of the program is one step, each thing a
goroutine does outside the lock is another, and the theorems are about every interleaving. Beside each
machine stands a class whose methods are the locked sections as the program runs them, proved to take
exactly the machine's steps, whatever order a map is ranged over in.

- `PoolSpec`, `PoolInvariant`, `PoolRuns`, `PoolHistory`, `PoolReleases`, `PoolBounds`, `PoolLimit` and the class in `Pool.dfy`: the process pool.
  Requests, evictions, idle scans, subscriptions and closing interleave freely; entries are named by the
  order of their creation, so that a pointer outlives its place in the pool. `PoolBounds` adds the timing
  of the reaper and counts the backends still running.
- `Backend.dfy`: one backend and the process it restarts. `Stop.dfy`: stopping a process, on virtual time.
- `ChangeStream.dfy`: the coalescing change stream between many backends and one client.
- `EraProbe.dfy`, `EraProbeRuns.dfy`, `EraProbeTraffic.dfy`, `Interpose.dfy`: the era probe, a race of writer, reader,
  watcher and timer.
- `Name.dfy`, `Uri.dfy`, `UriForm.dfy`, `UriTemplate.dfy`, `UriExpansion.dfy`, `Surface.dfy`, `SurfaceLaws.dfy`, `SurfaceOrder.dfy`:
  names and URIs as clients see them, and the surface assembled from what backends list. It is ordered by backend and
  then by original name, or URI for resources, which are not checked for duplicates (`PublishedExactly`, `SucceedsExactly`).
- `Config.dfy`, `Resolve.dfy`, `Limits.dfy`, `Policy.dfy`, `Admission.dfy`: a request's configuration header, what
  it becomes laid over the deployment's, and what it may change. `Config` is the merge on values, `Resolve` the
  same merge on shared maps and arrays.
- `EnvKeys.dfy`, `Fingerprint.dfy`: the bytes fed to the digest that, with the subject, keys a process. `Isolation.dfy`
  joins them with the pool: no process serves two subjects or two configurations.
- `Prelude.dfy` and `Text.dfy` hold what the others share: strings as bytes with the library's order, and sorting.

Time, the scheduler's choices, process exits, whether a spawn or a connection succeeds, and which actions the
operating system refuses are inputs of a step: the theorems hold for all of them.

## Where the code does less than it says

Each is a theorem, with the exact condition under which the code does what its comments say.

- A late answer to the era probe is forwarded. `onProbeExpired` clears `probing`, so the branch of `onProbeAnswer`
  that would suppress it is dead (`NothingIsWithheld`, `LateAnswerIsForwarded`); each probe has one verdict all the
  same, and the late answer changes nothing.
- `initialize` as the last handshake written does not make the era legacy if the client falls back while a good answer
  to its probe may still come: from every such point a run leads on to the modern era, and from no other
  (`FallbackSettlesExactly`, `ImpatienceIsPossible`). A client that waits for its probe's answer is safe (`PatienceSuffices`).
- Releasing a subscription reaches only the backend that serves the key. A victim or an expired backend keeps the
  callback until it is closed, and exactly those the pool had let go of before do (`ReleasedLingersExactly`,
  `VictimStillCalls`).
- An identifier that is no host, which configuration accepts, makes gateway URIs that do not lead back (`UnwrapWrap`);
  with a slash in it they lead to another backend or nowhere (`SlashLeadsElsewhere`, `SlashFirst`).
- The backends that did not answer are named in the order of their identifiers, and in that of the configuration
  exactly if the two agree (`ConfigurationOrderExactly`, `NamedTheOtherWayRound`).
- The order of the result is not fixed by identifier and name alone: different resources of one backend under one URI
  come out as they were listed, and exactly then the order of the listings shows (`OrderIgnoredExactly`).
- `MaxProcesses` bounds the pool's entries. A victim is closed after its replacement is inserted, so more backends
  may be running (`LimitExceededByVictim`), and are exactly if an entry is started while as many are running as may be
  (`LimitHeldExactly`).
- A listed name need not route back to its producer; every one does exactly when no identifier with the separator
  is the beginning of another's (`AllNamesRouteBack`, `ShadowedIdentifiers`).
- Unwrapping the expansion of a wrapped template gives the raw values, not the encoded ones the backend's own
  template would have; the two agree exactly for unreserved values and literals that need no encoding, given an
  identifier that is a host once expanded (`CommutesExactlyWhenPlain`, `RawValueAppears`, `HostsDiffer`).
- Subject keys are distinct for issuers without a NUL byte; with one they can collide, and exactly then
  (`SubjectKeysCollide`, `SubjectsThatCollide`).

## Model

| member | source | states |
|---|---|---|
| PoolRuns.NoUseAfterClose | internal/pool/pool.go:217-268 | in every interleaving, until the pool is closed, the entry an unfinished request holds is still filed under its key, nobody is to close it, and its backend has not been closed |
| PoolRuns.ClosedAtMostOnce | internal/pool/pool.go:326-415 | over every run, closing the pool included, no entry is closed twice, and an entry has not been closed exactly while it is in the pool or still to be closed |
| PoolRuns.GoneForGood | internal/pool/pool.go:352-360 | an entry that has left the pool never comes back |
| PoolRuns.NeverReacquired | internal/pool/pool.go:240-268 | no acquire is given an entry that had left the pool: a victim or an expired entry is never reused |
| PoolRuns.ServedUnderItsKey | internal/pool/pool.go:80-85 | from its acquire to its release a request holds one entry, and that entry was started for the subject and configuration the request asked for |
| PoolRuns.Bookkeeping | internal/pool/pool.go:240-360 | in every reachable state entries are within `MaxProcesses`, each subject's row is the number of its entries, within its quota and never zero, in-flight counts are the unfinished requests, and until `Close` Created = Size + Evicted + IdleExpired |
| PoolRuns.OneEvictionWhenFull | internal/pool/pool.go:251-267 | an acquire removes at most one entry, only from a full pool and for an unknown key, and then an unused one with the least `lastUsed`; every other entry stays |
| PoolRuns.RefusedOnlyWhenExhausted | internal/pool/pool.go:240-268 | an acquire is refused exactly when the pool is closed, the subject's quota is used up, or the pool is full of busy entries |
| PoolRuns.RefusalIsTrue | internal/pool/pool.go:243-262 | an acquire gives each of the three refusals exactly when it is so: the pool closed, the subject at its quota, or a full pool in which every entry is serving a request |
| PoolRuns.SubscriptionSurvives | internal/pool/pool.go:277-306 | from `subscribe` to its own release a subscription stays registered through evictions, expiries and new starts, and whatever backend serves the key runs its callback |
| PoolRuns.ExactlyTheListenersHear | internal/pool/pool.go:277-323 | in every reachable state the backend of each entry is subscribed by exactly the identifiers registered for its key; no empty listener row is kept |
| PoolRuns.ReleasedIsUnregistered | internal/pool/pool.go:308-323 | once released, however often, a subscription is registered nowhere again and runs on no backend serving its key, because identifiers are not reused |
| PoolReleases.ReleasedLingersExactly | internal/pool/pool.go:308-323 | a backend started for the key carries the released callback exactly if the pool had let it go, carrying it, before the release: releasing reaches only the entry filed under the key |
| PoolReleases.VictimStillCalls | internal/pool/pool.go:317-322 | a run in which a victim not yet closed carries a callback whose subscription has been released, the pool being open |
| PoolRuns.ListeningStep | internal/pool/pool.go:293-323 | only a subscribe under the next identifier and an unsubscribe of that very one change who listens to a key |
| PoolRuns.EveryCallHasAStep | internal/pool/pool.go:240-452 | in every reachable state, at any later time, a new request for any key, the end of any request, a scan and the closing of any entry let go of each have a step: the scans for a victim and for stale entries always have an answer |
| PoolInvariant.StepKeeps | internal/pool/pool.go:240-452 | every step by any thread keeps the pool's invariant: quotas and rows, limits, in-flight counts, who is to close what, held entries in the pool, conservation, subscriptions, no empty listener row |
| PoolInvariant.EvictThenInsertKeeps | internal/pool/pool.go:256-266 | freeing a slot and taking it in one step keeps the invariant |
| PoolInvariant.ExpireKeeps | internal/pool/pool.go:399-415 | detaching any set of stale entries keeps the invariant |
| PoolInvariant.ShutKeeps | internal/pool/pool.go:427-440 | closing forgets every entry at once and keeps the invariant; each is then to be closed once |
| PoolHistory.LastUsedIsLastUse | internal/pool/pool.go:92-93 | an entry's `lastUsed` is always the time a request on it last began or ended |
| PoolHistory.CountersCount | internal/pool/pool.go:104-116 | over every run the counters are the backends started, the entries lost to an acquire, the entries lost to a scan, and the requests an open pool refused |
| PoolBounds.ScanRemovesExactly | internal/pool/pool.go:399-415 | a scan leaves exactly the entries that are not stale |
| PoolBounds.RunStaysSwept | internal/pool/pool.go:378-415 | with the reaper running, no entry that is idle now had been idle for `IdleTTL` at the last scan |
| PoolBounds.IdleTimeBounded | internal/pool/pool.go:373-395 | when no scan is late, an entry a scan detaches had been unused for at least `IdleTTL` and for less than `IdleTTL` + `IdleTTL`/2 |
| PoolBounds.RunningBackends | internal/pool/pool.go:222-228 | the backends not yet closed are as many as the entries and those let go of together |
| PoolLimit.LimitBrokenExactly | internal/pool/pool.go:256-268 | a step takes the backends running past `MaxProcesses` exactly if it is an acquire that starts an entry while as many are running as may be |
| PoolLimit.LimitHeldExactly | internal/pool/pool.go:256-268 | over a whole run `MaxProcesses` bounds the backends running exactly if no entry is started while as many are running |
| PoolBounds.LimitExceededByVictim | internal/pool/pool.go:263-265 | a run with `MaxProcesses` of one in which two backends are running: the victim is closed after its replacement is inserted |
| Pools.Pool.TryAcquire | internal/pool/pool.go:240-268 | the locked section as it runs, ranging over the entries in any order, is exactly one acquire step of the state machine, and hands out the entry and victim that step names |
| Pools.Pool.LeastRecentlyUsedLocked | internal/pool/pool.go:339-350 | the scan returns an idle entry unused for longest, or none exactly when every entry is busy, whatever order it scans in |
| Pools.Pool.InsertLocked | internal/pool/pool.go:272-287 | a new entry, busy, subscribed for everybody listening to its key |
| Pools.Pool.DetachLocked | internal/pool/pool.go:354-360 | the entry and its subject's count leave the bookkeeping, a count that falls to zero with its row |
| Pools.Pool.HeldIsOpen | internal/pool/pool.go:217-229 | the backend object behind an entry that a request holds is open for as long as the pool is |
| Pools.Pool.Release | internal/pool/pool.go:326-331 | one release step: one request fewer in flight, used now |
| Pools.Pool.Expired | internal/pool/pool.go:399-415 | the scan as it runs detaches and returns exactly the stale entries, whatever order it ranges in: one expiry step |
| Pools.Pool.Subscribe | internal/pool/pool.go:293-306 | one subscribe step: the callback is registered and the backend serving the key, if any, is subscribed to |
| Pools.Pool.Unsubscribe | internal/pool/pool.go:310-323 | one unsubscribe step: the callback and, if empty, its row are dropped, and the serving backend released |
| Pools.Pool.CloseEntry | internal/pool/pool.go:363-371 | one step that closes a backend the pool has let go of |
| Pools.Pool.Close | internal/pool/pool.go:427-452 | one closing step, which returns the entries still to be closed; a second does nothing |
| BackendSpec.AtMostOneAlive | internal/pool/backend.go:123-198 | over every run, with processes exiting and calls failing at any moment, at most one process is alive, it is the current one, and a connection is never paired with a missing process |
| BackendSpec.SessionIsLive | internal/pool/backend.go:123-157 | a session handed out runs over the current process, the only one that can be alive, and alive unless it exited during the call; a process is started only when there is no session over a running one |
| BackendSpec.RefusedSessionLeavesNothing | internal/pool/backend.go:126-154 | a session that is refused leaves no live process, and only a closed backend, a failed spawn or a failed connection refuses one |
| BackendSpec.SessionErrorIsTrue | internal/pool/backend.go:126-154 | of the three errors a refused session gives the true one, and exactly then; a process is spawned exactly when there is no running one with a connection |
| BackendSpec.FailedProcessIsReplaced | internal/pool/backend.go:159-177 | once a call has reported its process gone, no later call is given a session over it |
| BackendSpec.LateFailureIsHarmless | internal/pool/backend.go:168-174 | a late report about an old process leaves its replacement and the session over it alone |
| BackendSpec.ClosedForGood | internal/pool/backend.go:180-185 | after `Close` no process is alive, none is started and no session is given out |
| BackendSpec.StepKeeps | internal/pool/backend.go:123-198 | every step keeps: all processes but the current have exited, and a connection runs over the current one |
| Backends.Backend.Session | internal/pool/backend.go:123-157 | the locked section as it runs takes the session step: reuse, or discard and start, or the error it gives |
| Backends.Backend.Classify | internal/pool/backend.go:162-167 | a failed call is retryable exactly if its connection was lost or its process has exited, and then it is the call that reports the loss |
| Backends.Backend.Forget | internal/pool/backend.go:168-174 | the locked part of `classify` drops the connection only if the process is still the failed one |
| Backends.Backend.DiscardLocked | internal/pool/backend.go:187-198 | connection and process are given up, the process having exited |
| Backends.Backend.Subscribe | internal/pool/backend.go:45-53 | the callback is registered under an identifier never used before |
| Backends.Backend.Publish | internal/pool/backend.go:62-72 | every listener registered when the lock was held is called exactly once, in no particular order |
| Stop.StopProcess | internal/pool/stop.go:40-96 | the loop over the escalation steps, with its waits and its collected errors, is the escalation the lemmas below speak of |
| Stop.EscalatesInOrder | internal/pool/stop.go:40-64 | what is done is a prefix of closing stdin, SIGTERM, SIGKILL; each comes exactly when the wait before it was given up, to a process that had not exited before, and at once after a refused signal |
| Stop.StoppedMeansExited | internal/pool/stop.go:47-69 | nil is returned only if the exit was observed, and at the moment it came or, had it come before, of the last step |
| Stop.GoneIsSeen | internal/pool/stop.go:76-87 | without a grace, a process that has exited by the time of a step is seen to have, and sent nothing more |
| Stop.FailedMeansCutShort | internal/pool/stop.go:67-72 | an error means that SIGKILL was tried, that the context ended no later, and that the exit was not seen before unless SIGKILL was refused, and joins exactly the refusals |
| Stop.StuckMeansUnkillable | internal/pool/stop.go:65-73 | it fails to return exactly when the context never ends and the process survives everything |
| Stop.ReturnsByCancellation | internal/pool/stop.go:77-95 | whatever the graces, it returns no later than its context ends |
| Stop.KillsOnTime | internal/pool/stop.go:47-64 | with no refusals and a context that does not end before, SIGKILL is sent at exactly AfterStdin + AfterTerm to a process still running when each grace ends, and to none that had exited before |
| ChangeStreamSpec.StepKeeps | internal/aggregate/listen.go:40-74 | every step of any number of deliveries and receives keeps: a kind is pending exactly when one token for it is with a sender, queued, or with a receiver |
| ChangeStreamSpec.OneToken | internal/aggregate/listen.go:40-74 | in every reachable state a pending kind has exactly one token and any other has none |
| ChangeStreamSpec.NeverBlocks | internal/aggregate/listen.go:65-85 | a delivery that has marked its kind always finds a free slot in the channel |
| ChangeStreamSpec.NothingLost | internal/aggregate/listen.go:57-74 | after a delivery, coalesced or not, some receive has since told of its kind, or the kind is still pending |
| ChangeStreamSpec.ToldIsMarked | internal/aggregate/listen.go:40-74 | how often a kind was told of and how often it was newly marked differ by exactly what is pending |
| ChangeStreamSpec.Drains | internal/aggregate/listen.go:40-74 | between deliveries at most nine steps are left to take |
| ChangeStreamSpec.SomeStepIsEnabled | internal/aggregate/listen.go:40-74 | while something is pending and the client receives, some step is possible |
| ChangeStreamSpec.SendsWhatWasAnnounced | internal/aggregate/listen.go:65-73 | a delivery under way sends the kind its caller announced |
| ChangeStreamSpec.FirstInFirstOut | internal/aggregate/listen.go:40-74 | over every run the kinds received and then those queued are the kinds sent, in the order they were sent |
| ChangeStreamSpec.ReceivedInTurn | internal/aggregate/listen.go:40-74 | a queued kind is received after those queued before it, at most two, and before any sent later |
| ChangeStreams.Listener.MarkPending | internal/aggregate/listen.go:66-72 | the locked part of `deliver`: coalesced, or marked and to be sent |
| ChangeStreams.Listener.SendChange | internal/aggregate/listen.go:73 | the send, which finds room and comes last in the channel |
| ChangeStreams.Listener.ReceiveChange | internal/aggregate/listen.go:44 | the receive takes the first of the channel and leaves the rest |
| ChangeStreams.Listener.Unpend | internal/aggregate/listen.go:45-48 | the locked part of `Next`: the kind is no longer pending |
| EraProbeRuns.StepKeeps | internal/backend/interpose.go:189-371 | every step of writer, reader, watcher and timer keeps the probe machine's invariant |
| EraProbeRuns.OneVerdictPerProbe | internal/backend/interpose.go:242-277 | each probe is settled at most once, by answer or by deadline, never both |
| EraProbeRuns.VerdictHasItsCause | internal/backend/interpose.go:178-277 | every verdict was caused by an answer under its probe's identifier, or by the deadline of its own generation, while that probe was waited for: a stale timer never expires a later probe |
| EraProbeRuns.LateAnswerChangesNothing | internal/backend/interpose.go:242-261 | an answer after its probe's deadline changes neither era nor mismatch, however many probes have been sent since |
| EraProbeRuns.EveryVerdictIsReplied | internal/backend/interpose.go:210-221 | every settled probe has its answer, the backend's own or an error for a deadline, delivered, in the channel, or with the watcher about to put it there, unless the connection is closing |
| EraProbeRuns.NoProbeForgotten | internal/backend/interpose.go:354-363 | while a probe is waited for, its own deadline is with the writer, in the channel, running or being judged, until the connection is closed |
| EraProbeRuns.NothingIsWithheld | internal/backend/interpose.go:248-250 | the branch that suppresses a late answer is never taken: in every reachable state every response is delivered |
| EraProbeRuns.LateAnswerIsForwarded | internal/backend/interpose.go:265-277 | a run in which one probe gets two responses: the policy's, and the backend's late one |
| EraProbeRuns.PinnedModern | internal/backend/interpose.go:279-352 | pinned modern, `initialize` is never written, the era is never legacy, and a mismatch is on record exactly when a fallback was attempted, a probe was refused or its deadline passed |
| EraProbeRuns.PinnedLegacy | internal/backend/interpose.go:313-322 | pinned legacy, `server/discover` is never written, yet each probe is answered with an error, unless the client gave the write up |
| EraProbeRuns.LegacyStays | internal/backend/interpose.go:313-331 | pinned legacy, the era is legacy from the first handshake on |
| EraProbeRuns.ModernWasAnswered | internal/backend/interpose.go:251-260 | the era is modern only after an answer without error that beat its deadline |
| EraProbeRuns.LastHandshakeDecides | internal/backend/interpose.go:325-332 | for a client that falls back only while no answer to a probe is open, the era is legacy whenever `initialize` was the last handshake written |
| EraProbeRuns.PatienceSuffices | internal/backend/interpose.go:325-332 | a client that falls back only once it has been given an answer to its last probe is one |
| EraProbeRuns.FallbackSettlesExactly | internal/backend/interpose.go:242-261 | from a run so far, falling back makes the era legacy however the run goes on to the next handshake, exactly if no answer is open: no probe is waited for, or the reader already holds an error in answer to it |
| EraProbeRuns.ImpatientClientMisled | internal/backend/interpose.go:242-261 | whenever an answer is open at the fallback, the run so far goes on to one in which `initialize` was written last and the era is modern |
| EraProbeRuns.ImpatienceIsPossible | internal/backend/interpose.go:242-261 | a run of one probe and a fallback at whose end `initialize` is the last handshake written and the era is modern |
| EraProbeTraffic.WrittenAsAsked | internal/backend/interpose.go:307-339 | the backend is sent exactly the handshakes the client asked for and the pin allows, each once and in order, but for one still with the writer |
| EraProbeTraffic.BackendIsHeard | internal/backend/interpose.go:151-175 | the client is given all that the backend answered, each response once, unaltered and in order, but for one the reader still holds |
| EraProbeTraffic.SilenceIsAnswered | internal/backend/interpose.go:206-221 | unless pinned legacy, the policy gives the client one error for each probe that timed out, in that order, and nothing else, but for those still on their way and at most one that closing drops |
| EraProbeTraffic.RefusalsAreGiven | internal/backend/interpose.go:313-322 | pinned legacy, it gives one error for each probe, in order and nothing else, but for those still on their way or given up |
| EraProbeTraffic.EraIsLastConcluded | internal/backend/interpose.go:242-333 | the era is what was concluded last: legacy from a probe refused unsent or a handshake begun, modern from an answer without error to the probe waited for |
| EraProbeTraffic.OnlyModernMismatches | internal/backend/interpose.go:279-287 | no mismatch is recorded but under the modern pin |
| Interpose.InterposedConn.WriteDiscover | internal/backend/interpose.go:313-324 | writing a probe: refused unsent when pinned legacy, otherwise a new generation is being waited for |
| Interpose.InterposedConn.SendArm | internal/backend/interpose.go:362 | the deadline handed over is the one of the probe just armed |
| Interpose.InterposedConn.RefuseFallback | internal/backend/interpose.go:341-352 | the fallback is refused exactly when pinned modern, and leaves a mismatch then |
| Interpose.InterposedConn.CommitLegacy | internal/backend/interpose.go:329-331 | the era is settled before `initialize` is written |
| Interpose.InterposedConn.OnProbeAnswer | internal/backend/interpose.go:242-261 | the locked section as it runs is one inspecting step, and always delivers |
| Interpose.InterposedConn.OnProbeExpired | internal/backend/interpose.go:265-277 | the locked section as it runs is one judging step, and answers exactly for a probe still waited for under that generation |
| Interpose.InterposedConn.InjectAnswer | internal/backend/interpose.go:365-372 | an answer in the backend's place goes into the one slot |
| Interpose.InterposedConn.ReadInjected | internal/backend/interpose.go:153-157 | what is read from the slot is an error under the identifier put there |
| Names.Route | internal/aggregate/name.go:72-82 | the scan as it runs finds the first identifier that owns the name, and what follows it |
| Names.RouteIsLongest | internal/aggregate/name.go:57-82 | routing yields an identifier and name exactly when that identifier is the longest that owns the qualified name and qualifying them gives it back |
| Names.RouteFails | internal/aggregate/name.go:77-82 | a name is refused exactly when no identifier owns it |
| Names.RouteIgnoresOrder | internal/aggregate/name.go:59-68 | the order the identifiers were given in does not matter |
| Names.RoutesBackUnlessShadowed | internal/aggregate/name.go:39-82 | one name routes back to its producer exactly when no longer identifier owns it too |
| Names.AllNamesRouteBack | internal/aggregate/name.go:49-82 | every non-empty name of every backend routes back exactly when the identifiers with their separator are prefix-free |
| Names.ShadowedIdentifiers | internal/aggregate/name.go:10-14 | `a` beside `a__b`, and `a` beside `a_`, are not prefix-free, each with a name that goes astray |
| Surfaces.Assemble | internal/aggregate/surface.go:52-123 | the nested loops with their growing map of owners compute the surface, or the refusal of the first claim that does not fit or is taken, with its first owner |
| Surfaces.ClaimAll | internal/aggregate/surface.go:61-93 | one kind of one listing: every name is claimed in turn up to the first refusal, and every entry published |
| SurfaceLaws.SucceedsExactly | internal/aggregate/surface.go:61-75 | assembly succeeds exactly when the qualified tools, prompts and templates of the backends that answered fit 128 bytes and are distinct per kind |
| SurfaceLaws.RefusalIsFirst | internal/aggregate/surface.go:61-75 | a refusal is of the first claim that is too long or taken, and names the backend that claimed the name first |
| SurfaceLaws.PublishedExactly | internal/aggregate/surface.go:77-117 | given distinct backends, each kind holds exactly what was offered, under names and URIs written out, by backend and then by original name, or URI for resources |
| SurfaceLaws.PublishKeeps | internal/aggregate/surface.go:87-116 | publishing puts an entry's name behind its backend's and two underscores, wraps the URI of a resource and a template, and changes nothing else |
| SurfaceLaws.InOrderSorts | internal/aggregate/surface.go:128-132 | a backend's entries in order are the entries it listed |
| SurfaceOrder.AssemblyIgnoresOrder | internal/aggregate/surface.go:47-54 | given distinct backends, any order of listings and of entries within them gives the same surface or the same refusal, if the surface is refused or each backend that answered tells its resources apart by URI |
| SurfaceOrder.OrderIgnoredExactly | internal/aggregate/surface.go:47-54 | and only then: two different resources of one backend under one URI come out in the order in which they were listed, so that some other order gives another surface |
| SurfaceOrder.LifetimeIsLeastOffer | internal/aggregate/surface.go:53-121 | the lifetime is the degraded one if some backend is away and otherwise the least positive offer, or zero; each listing that failed has its backend named once, no other is, and the names are in order of identifier |
| SurfaceOrder.ConfigurationOrderExactly | internal/aggregate/surface.go:42-54 | the backends that did not answer are named in the order of the configuration exactly if that is the order of their identifiers |
| SurfaceOrder.NamedTheOtherWayRound | internal/aggregate/surface.go:42-54 | two backends that are away, configured as `b` and `a`, are named as `a` and `b` |
| SurfaceOrder.ListedNamesRouteBack | internal/aggregate/surface.go:87-108 | for prefix-free identifiers every listed tool, prompt and template with a name routes back to the backend that offered it |
| SurfaceOrder.ListedResourcesUnwrap | internal/aggregate/surface.go:109-116 | a listed resource unwraps to its backend and its own URI exactly if that is not empty and the identifier is fit to be a host |
| SurfaceOrder.ListedTemplatesExpand | internal/aggregate/surface.go:101-108 | an expansion of a listed template unwraps to its backend and its own template with the raw values exactly if that is not empty and the identifier is a host once expanded; it never unwraps to that backend and anything else |
| Sorting.SortSorts | internal/aggregate/surface.go:128-132 | sorting yields the elements it was given, in order |
| Sorting.SortIgnoresOrder | internal/aggregate/surface.go:53-54 | sorting forgets the order elements came in, if the comparison tells them apart |
| Uris.EscapeBytes | internal/aggregate/uri.go:84-95 | the loop that fills the builder computes the encoding, byte for byte |
| Uris.UnescapeEscape | internal/aggregate/uri.go:79-95 | decoding undoes encoding for every string of bytes |
| Uris.EscapedBytes | internal/aggregate/uri.go:84-105 | encoding writes only unreserved bytes and percent signs, never shortens, and leaves a string alone exactly when all its bytes are unreserved |
| Uris.ReservedExactly | internal/aggregate/uri.go:97-105 | the bytes encoded, one by one: all outside the visible range and each delimiter within it |
| Uris.EncodingsAreUpperCase | internal/aggregate/uri.go:92 | every percent sign written is followed by two hexadecimal digits in capitals |
| UriForms.UnwrapsExactly | internal/aggregate/uri.go:27-47 | a text is unwrapped exactly if it is `mcp-proxy` in either case, `://`, an authority that leads to a host, a slash and something encoded, then a query, a fragment, both or neither; and to that host and what is encoded |
| UriForms.OtherSchemesAreRefused | internal/aggregate/uri.go:32-34 | what is unwrapped starts with that scheme |
| Uris.UnwrapWrap | internal/aggregate/uri.go:22-47 | for any identifier and URI, unwrapping undoes wrapping exactly if there is a URI and the identifier is a host as it stands: bytes a host may hold, a colon only before a port, and a bracket in front only if one closes it with at most a port behind |
| Uris.UnwrapBase | internal/aggregate/uri.go:27-47 | behind the base of such an identifier anything encoded that is not empty unwraps to the identifier and its decoding |
| Uris.SlashLeadsElsewhere | internal/aggregate/uri.go:22-47 | the URIs of an identifier with a slash unwrap to the backend named by what comes before the slash, if that is a host, and to a URI that starts with what comes after it decoded, if that may stand in a path |
| Uris.SlashFirst | internal/aggregate/uri.go:27-34 | with nothing before the slash they are refused |
| Uris.WrapIsInjective | internal/aggregate/uri.go:22-24 | two pairs of identifier and URI never share a gateway URI, whatever bytes they are made of |
| UriTemplates.WrapURITemplate | internal/aggregate/uri.go:56-77 | the loop that advances through the template computes its wrapping |
| UriTemplates.ExpressionsKept | internal/aggregate/uri.go:56-77 | the wrapped template has exactly the original's expressions, in order |
| UriExpansions.UnwrapExpansion | internal/aggregate/uri.go:49-77 | for simple expansion and any identifier, unwrapping the expanded wrapped template gives the backend and the original literals with each expression replaced by its raw values exactly if that is not empty and the identifier is a host once expanded; otherwise it does not give that backend, and gives nothing for an identifier that is a host as it stands |
| UriExpansions.HostOfExpanded | internal/aggregate/uri.go:27-34 | an identifier as expansion leaves it is parsed as that very host exactly if it satisfies a scan of its bytes: a lone percent sign survives, an encoding does not, nor do a quote and angle brackets outside a zone |
| UriExpansions.HostsDiffer | internal/aggregate/uri.go:58 | expansion repairs the identifier `a%`, which is no host as it stands, and spoils `a<`, which is one |
| UriExpansions.CommutesExactlyWhenPlain | internal/aggregate/uri.go:51-55 | it gives the backend and the original's own expansion exactly when that is not empty, every value is unreserved, every literal is copied unchanged and the identifier is a host once expanded |
| UriExpansions.RawValueAppears | internal/aggregate/uri.go:53-55 | a space as a value reaches the backend as a space, where the original expands to `%20` |
| Config.ValidateServers | internal/config/config.go:292-315 | the loop with its growing map finds the first problem, in the order the checks are made |
| Config.AcceptedExactlyWhenValid | internal/config/config.go:292-315 | a server set is accepted exactly when each server is complete, of era `auto`, `modern` or `legacy`, with no empty variable name, and no two share an identifier |
| Config.ProblemIsReal | internal/config/config.go:294-313 | the problem named is the first server's at fault and the first of its own, among identifier, command, era, uniqueness and environment |
| Config.MergedIds | internal/config/header.go:94-112 | the merge has the base's servers in order, then the header's new ones in the order of first mention |
| Config.MergedFields | internal/config/header.go:119-139 | each field of each merged server is what the last patch that sets it says, and each variable likewise; otherwise as the base has it or, for a new server, empty and of era `auto` |
| Config.DeclaredServers | internal/config/header.go:107-110 | a server only the header knows has the command, arguments and era last set for it, or none, none and `auto`, and exactly the variables set for it |
| Config.LastIsLast | internal/config/header.go:119-139 | the value the fold yields is that of the last patch for the server that sets the field |
| Config.ResolvesToOverlay | internal/config/header.go:89-117 | resolution fails exactly when the merged set is invalid, with a problem it has, and otherwise yields it |
| Resolving.Resolve | internal/config/header.go:94-117 | the merge as it runs on shared arrays and maps yields that result, leaves the base as it was, and shares nothing with it |
| Resolving.ApplyPatch | internal/config/header.go:123-139 | one patch written through the server: fields replaced, variables merged in place |
| Resolving.CloneServer | internal/config/header.go:141-145 | a copy that shares neither arguments nor environment |
| DeploymentLimits.File.ApplyDefaults | internal/config/config.go:242-258 | each limit left out is filled in; a subject's share follows the total |
| DeploymentLimits.WrittenIsKept | internal/config/config.go:73-86 | a limit the file sets is kept; one it does not is 64, 8192, five minutes, two seconds, and for a subject 8 or all there may be |
| DeploymentLimits.Validate | internal/config/config.go:267-285 | the first negative limit, or else a share that exceeds the total |
| DeploymentLimits.AcceptedExactly | internal/config/config.go:235-287 | limits are accepted exactly when none is negative and a share that is set does not exceed the total as filled in |
| DeploymentLimits.AcceptedLimitsAreUsable | internal/config/config.go:242-286 | accepted limits are positive, a share is within the total, and reaping is off only for an `IdleTTL` of one nanosecond |
| Policies.Demands | internal/policy/policy.go:208-225 | the loop lists what each patch demands |
| Policies.DemandsExactly | internal/policy/policy.go:205-225 | every privilege some patch exercises is demanded, and no other |
| Policies.Decide | internal/policy/policy.go:175-203 | the decision as it runs, with its loops over the demands |
| Policies.AcceptedExactly | internal/policy/policy.go:175-203 | a header is accepted exactly when the mode is not off and every privilege it exercises is within the mode and covered by a scope held |
| Policies.ExceedsExactly | internal/policy/policy.go:176-190 | a header is refused as disabled exactly when the mode is off, and as exceeding exactly when it exercises a privilege beyond the mode, the highest of which is named |
| Policies.ReportsExactlyWhatIsMissing | internal/policy/policy.go:192-201 | the scopes reported are sorted, distinct, and exactly those demanded and not held |
| Policies.StepUpSuffices | internal/policy/policy.go:79-86 | granted the scopes reported, the same header is accepted |
| Policies.ModeIsACeiling | internal/policy/policy.go:59-69 | what the mode refuses no scope obtains |
| Policies.AcceptanceIsMonotone | internal/policy/policy.go:18-36 | acceptance persists under any higher mode and any larger set of scopes |
| Policies.Scopes | internal/policy/policy.go:132-142 | the scopes advertised are, by name, those of the modes up to the deployment's, in order of privilege |
| Policies.StepUpsAreAdvertised | internal/policy/policy.go:125-142 | every scope a client may be asked for is advertised |
| Admission.CheckResolved | internal/policy/policy.go:227-248 | the scan finds the first command off the allowlist, or else the first denied variable of the first patch that supplies one |
| Admission.CheckedExactly | internal/policy/policy.go:227-248 | the result passes exactly when every command is on the allowlist, if there is one, and the header supplies no denied variable |
| Admission.BreachIsTrue | internal/policy/policy.go:227-248 | what is named is the first resolved server whose command is off the allowlist or, if there is none, the first patch that supplies a denied variable and the least of those |
| Admission.PolicyIsBuilt | internal/policy/policy.go:104-120 | the four modes are known by name and none stands for off; define-new needs an allowlist; the lists are kept |
| Admission.AdmittedExactly | internal/frontend/policy.go:44-62 | a request is admitted exactly if it has no header, or mode and scopes, by name, allow all that its header does; the merge is valid, its commands are listed and no denied variable is supplied; and then it is given the merge |
| Admission.RefusedInOrder | internal/frontend/policy.go:44-52 | a refusal is for what the header does, though the merge be invalid too; else for the first problem of the merge; else for its commands and variables |
| Admission.ChangesArePermitted | internal/frontend/policy.go:50-57 | what an admitted header changed, mode and token allow: new servers take define-new, a changed command, argument list or era override-known, a changed environment env-only; all else is as in the base |
| Admission.EnvOnlyKeepsProcesses | internal/policy/policy.go:26-29 | under env-only every server keeps its place, command, arguments and era |
| Admission.OverrideKnownKeepsServers | internal/policy/policy.go:30-31 | under override-known the identifiers are those of the base |
| Admission.ListsHold | internal/policy/policy.go:227-248 | whatever the mode, every admitted command is allowlisted if there is a list, and every denied variable has its base value or is absent |
| Admission.DeclaredCommandsAreListed | internal/policy/policy.go:104-120 | a server the deployment never described can only run a command it listed |
| EnvKeys.Keys | internal/config/secret.go:63-70 | the names of the variables, in whatever order the map is read, come out in one order |
| EnvKeys.SortedKeysExactly | internal/config/secret.go:61-70 | they are in order, each once, and exactly those of the map |
| Fingerprints.Feed | internal/config/fingerprint.go:45-63 | the loops that feed the hash write the encoding of the configuration |
| Fingerprints.Mac.WriteField | internal/config/fingerprint.go:65-69 | a field is its length and its bytes |
| Fingerprints.Mac.WriteCount | internal/config/fingerprint.go:71-77 | a count is eight bytes, most significant first |
| Fingerprints.CountIsRead | internal/config/fingerprint.go:71-77 | read with the first byte counting most, the eight bytes are the count |
| Fingerprints.EncodeIsInjective | internal/config/fingerprint.go:45-63 | equal bytes are fed for equal id, command, arguments, variables and era only |
| Fingerprints.SubjectKeyIsInjective | internal/auth/auth.go:57-61 | subjects with issuers free of NUL have different keys |
| Fingerprints.SubjectKeysCollide | internal/auth/auth.go:57-61 | two subjects share a key exactly when they are the same or the boundary between issuer and subject may be moved to a NUL |
| Fingerprints.SubjectsThatCollide | internal/auth/auth.go:57-61 | two different subjects, one with a NUL in its issuer and one with a NUL behind it, have one key |
| Fingerprints.PoolKeyIsInjective | internal/pool/pool.go:149-155 | with issuers free of NUL one pool key means one subject and one configuration, unless the digest itself collides on the two |
| Isolation.OneEntryOneSubject | internal/pool/pool.go:147-155 | over every run, two requests that one entry serves, at whatever times, come from one subject and ask for one configuration, unless the digest collides on the two; issuers free of NUL |
| Isolation.OneKeyOneEntry | internal/pool/pool.go:240-250 | while the pool is open, unfinished requests for one key are served by one entry |

## Left out

- Process spawning, pipes, signals and stderr draining (`internal/pool/process*.go`): a process is an object that may exit at any moment; `Process.Stop` is taken to return only once it has exited, as the goroutines it waits for make it.
- `Pool.Stats` and `Handle.PID` read fields the invariant already speaks of, and `Handle`'s calls are an acquire, the request and a release, which are steps of their own.
- The pool's counters are unbounded integers; the program's wrap at 2^64. `time.Now` is taken never to go backwards, which its monotonic clock provides.
- Which backend a callback belongs to and what it does: a callback is a number that is passed on.
- `backend.Close` inside `Pool.Close` is one closing step per entry; that the reaper has ended before then is not used and not proved.
- `Listener.Close` and `Gateway.Listen`'s subscriptions: registering and releasing are modelled where the pool and the backend do them.
- The era probe: one write at a time, as the client's handshake is sequential; a write the connection fails, messages that are no part of the handshake, and masked requests are not modelled. A read's preference for an injected answer over one from the backend is left to the scheduler.
- Uris.UnwrapWrap: rests on a model of the library's URL parser, for URLs with an authority, as it is in Go 1.25.0, the version in `go.mod`'s `go` line; the releases since then, the `toolchain` line's among them, also refuse a host in brackets that is no IPv6 literal. The same holds of the other theorems about unwrapping, for identifiers that start with a bracket.
- EraProbeRuns.LateAnswerChangesNothing: takes for granted, as the protocol demands, that a client never uses a request identifier twice on a connection.
- EraProbeRuns.OneVerdictPerProbe: likewise, where it tells verdicts apart by identifier and not by probe.
- A callback that is being called while its subscription is released: the backend calls those it found registered, and when each call ends is not modelled.
- Template operators other than simple expansion: with `{+var}` reserved characters would leave the wrapped path. The values an expression names are given as a list; lists, maps and prefixes of section 2.4 of RFC 6570 are not modelled.
- Listings: of a tool, prompt, resource or template only its name, its URI or template and an opaque rest are modelled; a failure is a flag.
- Sorting stands for the library's: a stable insertion sort with the same comparison. Where the program's sort is not stable its result is unique in the theorems that use it.
- Resolution does not tell a nil environment from an empty one on values; the version on shared maps does.
- Parsing: YAML, JSON, durations, the header's size limit and its own syntax checks. The model starts from the parsed header, whose patches may have any identifier.
- DeploymentLimits.File.ApplyDefaults: fills in the limits only; that a server naming no era gets `auto` (`internal/config/config.go:237-241`) is not modelled, because the merge starts from servers that have one.
- Error texts, logging and redaction.
- The digest and its random key: any function of the bytes it is fed; a collision of it is named where one would matter.
- Token verification, metadata and challenges (`internal/auth` but for the subject's key), HTTP handlers, SDK adapters and result shaping (`internal/frontend`, `internal/backend` but for the era probe).
