# Verified model of OAAM's stateful core

This project models, in Dafny, the parts of OAAM that keep state under interleaving and its strict
byte formats, and proves what they promise.

- **Restricted processes.** The bounded process pool and the per-Environment probe slots are
  transition systems with one step per run to the next `await`; invariants hold over every run, and
  classes with the source's fields implement the steps.
- **Private pipe.** The byte-frame decoder, the stdio service, the host-side dispatcher, and the
  one-shot reply cell shared by two threads.
- **Bounded stores.** The review-record store, the long-operation manager, and the rotating
  ordinary log with the support bundle's test of its snapshot.
- **Strict formats.** The review-record codec (base64 of RFC 4648), the ustar archive check
  (IEEE Std 1003.1-2017, `pax`), the code inventory, and the frontmatter parser.
- **Coordinators.** Render analysis and materialization over untrusted handlers, and the source
  traversal with its disposition rows.

Each protocol is a `State`, an `Event`, a `Step` function and an invariant; its class has one method
per event, and `Perform` (`Handle` for the stdio service) takes any event to exactly the step of the
run lemmas, so every run lemma is about the object. Beside each protocol a second module
(`PoolHistory`, `SlotHistory`, `StdioHistory`, `ReplyProgress`, `PipeHistory`, `ManagerHistory`,
`LogHistory`) tells a run from its events, says for each effect exactly which events have it, and
shows that what is asked for can be reached. Each algorithm with a loop is a method proved against a
function, and what the source promises is proved about that function, where possible against an
independent description of the accepted input (`AnalysisKept`, `MaterializationKept`,
`ArchiveMeaning`, `InventoryMeaning`, `SourceOutcome`) or as a round trip (`ReviewRoundTrip`,
`FrontmatterRoundTrip`).

## Findings

Statements one might expect that are false of the code. Each is proved exactly: when it holds, when
it fails, and an input at which it fails.

With the parts the product is built from:

- **Orphaned record.** `put` requires a live parent and then makes room, which may take that very
  parent; the child is stored all the same, and a later teardown of the parent's tree cannot reach
  it. Every other operation leaves each live record with its parent; `put` does if and only if, before
  the call, the parent is outside the tree to be replaced and there is room once that tree and
  everything older than the oldest of the parent and its ancestors is gone
  (`HostReviewRecordStore.Put`, `ReviewStore.SparesParentIsExact`; the smallest failing store is
  `ReviewStore.OrphanWitness`). The store holds 16 records for all connections
  (`packages/app-server/host/src/review-record-store.ts:57`).
- **Too many segments.** A start, a settings change, clearing and a snapshot read the directory with a
  limit of 1,024 names and suspend the log beyond it. Every start is followed by a new segment, and
  nothing but bytes and age bounds their number, so restarts alone reach the limit far below the
  aggregate maximum; from then on not even clearing works (`OperationalLog.ReloadRestores`,
  `OperationalLog.RecordAfterReloadOpensSegment`, `OperationalRuns.RestartsOverflow`,
  `OperationalRuns.FullDirectoryIsStuck`).
- **Byte order mark.** A log segment that starts with a byte order mark reloads by itself, but makes
  the snapshot fail the bundle's check when another segment precedes it
  (`StructuredLog.MarkedSegmentBreaksSnapshot`, `OperationalLog.SnapshotIsAccepted`). The log itself
  never writes such a segment (`OperationalLog.RecordKeepsUnmarked`).
- **One rejection.** An inexact answer of a handler blocks its own group only, but a handler whose
  promise rejects takes the answers of all groups with it (`TargetCoordinator.RejectionIsExact`,
  `TargetCoordinator.InexactAnswerBlocksItsGroup`; `TargetCoordinator.RejectionWitness` has one cell
  answered exactly and another rejected).

Only with an injected dependency or a caller that skips a check:

- **Token reuse.** A token handed out again can make parent links cyclic
  (`ReviewForest.ReuseMakesACycle`, `ReviewForest.ReusedTokenWitness`). This needs a `createToken` that
  repeats, where the product uses random UUIDs (`packages/app-server/host/src/host-runtime.ts:76`), and
  an orphaned record that still names the token.
- **Materialized twice.** A fingerprint selected under two output contracts is materialized twice and
  the result is still complete (`TargetMaterialization.MaterializedUnits`,
  `TargetMaterialization.TwoContractsWitness`). This needs a caller that skips the registry's check of
  distinct units (`packages/core/src/orchestration/adapter-registry.ts:666`), with which each unit is
  materialized once (`TargetMaterialization.DistinctUnitsOnce`).
- **Settled twice.** A request whose `complete` throws, or invalidates the dispatcher that is calling
  it, is settled again as failed (`PipeDispatch.EveryRequestSettlesOnce`,
  `PipeDispatch.BrokenIsSettledTwice`). This needs a reply body smaller than the frame bound, which the
  client does not allocate (`packages/app-server/host/src/restricted-process-client.ts:202`), or a
  callback that throws; otherwise each request is settled once (`PipeDispatch.NothingBroken`).
- **Small maximum.** A later change of settings does not repeat the constructor's check of the segment
  bound, so an active log can exceed its maximum (`OperationalRuns.SmallMaximumWitness`). This needs an
  injected segment bound above 64 KiB; with the default bound every run stays within the maximum
  (`OperationalRuns.RunKeeps`).

Line numbers in comments of a module refer to the source file the module names.

## Model

| member | source | states |
|---|---|---|
| ProcessPool.StepKeeps | packages/app-server/host/src/restricted-process-pool.ts:31-109 | Every run-to-next-await step (admission, start completion, peer death, close) keeps the pool invariant: bounded entries, one per key, every unreleased start owned by an entry |
| ProcessPool.RunKeepsInvariant | packages/app-server/host/src/restricted-process-pool.ts:25-109 | The invariant holds after every prefix of every interleaving |
| ProcessPool.OwnershipIsBounded | packages/app-server/host/src/restricted-process-pool.ts:53-72 | In every run at most maximumProcesses processes are possibly alive, each owned by the entry under its key, never two for one key |
| ProcessPool.CloseVerdictIsExact | packages/app-server/host/src/restricted-process-pool.ts:82-109 | close() fulfils if and only if no process is possibly alive when the owned peers have settled; a rejection keeps the entries |
| ProcessPool.CloseReleasesEverything | packages/app-server/host/src/restricted-process-pool.ts:82-109 | Once close() has fulfilled, every process ever started is released and nothing is launched or started afterwards |
| ProcessPool.RefusalIsJustified | packages/app-server/host/src/restricted-process-pool.ts:53-72 | An admission that leaves a key without an entry happens only on shutdown, an invalid key, or a full pool (with an inactive entry being closed, or none inactive) |
| ProcessPool.ReleasedIsFinal | packages/app-server/host/src/restricted-process-pool.ts:82-109 | A step after the fulfilled close keeps it fulfilled and launches and starts nothing |
| ProcessPool.RestrictedProcessPool.Perform | packages/app-server/host/src/restricted-process-pool.ts:25-109 | Whatever event comes next, the object takes exactly the step of the run lemmas and keeps the invariant |
| PoolHistory.LaunchesAsTold | packages/app-server/host/src/restricted-process-pool.ts:31-51 | In every run the phase of a launch is what the last event about it tells, and its process was started if and only if its start ran with a configuration before close() |
| PoolHistory.ReleasedWhenConfirmed | packages/app-server/host/src/restricted-process-pool.ts:29-49 | In every run a process is released if and only if some event confirmed that it is gone |
| PoolHistory.QueueIsInOrder | packages/app-server/host/src/restricted-process-pool.ts:53-76 | Admissions settle one by one in the order in which they were asked for |
| PoolHistory.LaunchIsExact | packages/app-server/host/src/restricted-process-pool.ts:53-72 | A step launches an entry exactly when the running admission may: the pool is open, the key has 1 to 512 units without NUL and no owner left, and there is room; no other step adds one |
| PoolHistory.ClosingIsExact | packages/app-server/host/src/restricted-process-pool.ts:58-69 | An admission first has a peer closed exactly when its own one, or in a full pool the first one, is no longer available |
| PoolHistory.CloseSettles | packages/app-server/host/src/restricted-process-pool.ts:61-68 | Whatever that close comes to, the admission settles; a failed close changes nothing else |
| PoolHistory.OwnershipLossIsExact | packages/app-server/host/src/restricted-process-pool.ts:47-68 | A key loses its owner exactly when the close of that owner is confirmed for an admission, when its start fails with cleanup confirmed, or at the end of close() |
| PoolHistory.AdmittedKeyGetsPeer | packages/app-server/host/src/restricted-process-pool.ts:31-72 | While the pool is open, an admissible key with room and a good configuration gets an available peer from a start that succeeds |
| PoolHistory.AvailableWhileAlive | packages/app-server/host/src/restricted-process-pool.ts:47-72 | Over any events a key with an available peer keeps it until the peer dies or close() is called |
| PoolHistory.OwnedKeyIsReused | packages/app-server/host/src/restricted-process-pool.ts:58-60 | An admission of a key whose owner is not known to be unavailable settles with that owner and changes nothing else |
| PoolHistory.DrainTakesTheOwned | packages/app-server/host/src/restricted-process-pool.ts:84-98 | Draining awaits every owned entry and nothing else |
| PoolHistory.CloseComesToAnEnd | packages/app-server/host/src/restricted-process-pool.ts:82-109 | From every state in which close() drains, returning awaits lead to its verdict |
| ProbeSlot.StepKeeps | packages/app-server/bootstrap/src/production-selected-wsl-probes.ts:71-176 | Every step of reserve, createPeer and the lease keeps the slot invariant |
| ProbeSlot.RunKeepsInvariant | packages/app-server/bootstrap/src/production-selected-wsl-probes.ts:71-176 | The invariant holds in every run of a slot |
| ProbeSlot.GrantIsSafe | packages/app-server/bootstrap/src/production-selected-wsl-probes.ts:113-156 | A step grants a lease only on the current peer of an open, certain slot, and on an old peer only if it is available, not retired and below 128 admissions and 16 leases |
| ProbeSlot.CloseIsSafe | packages/app-server/bootstrap/src/production-selected-wsl-probes.ts:118-128 | reserve asks a transport to close only when the peer is retired and its lease set is empty |
| ProbeSlot.StepWithdraws | packages/app-server/bootstrap/src/production-selected-wsl-probes.ts:113-176 | No step revives a retired or closed peer, an uncertain slot or a closed owner |
| ProbeSlot.LeasesAreBounded | packages/app-server/bootstrap/src/production-selected-wsl-probes.ts:113-156 | In every run a peer carries at most 16 leases and 128 admissions, its admissions are exactly the leases granted on it, and only the current peer is not confirmed closed |
| ProbeSlot.WithdrawalIsPermanent | packages/app-server/bootstrap/src/production-selected-wsl-probes.ts:113-176 | Retirement, confirmed closing, uncertainty and shutdown last for the rest of the run |
| ProbeSlot.NoLeaseAfterClose | packages/app-server/bootstrap/src/production-selected-wsl-probes.ts:125-134 | After reserve asked a transport to close, no lease is ever held on that peer again |
| ProbeSlot.EnvironmentSlot.Perform | packages/app-server/bootstrap/src/production-selected-wsl-probes.ts:63-193 | Whatever event comes next, the object takes exactly the step of the run lemmas and keeps the invariant |
| SlotHistory.GrantIsExact | packages/app-server/bootstrap/src/production-selected-wsl-probes.ts:113-156 | A step grants a lease if and only if the owner is open and a new peer was created, or a current peer of a certain slot that is available, not retired, below 128 admissions and 16 leases and not about to expire is looked at |
| SlotHistory.ReservationsAreCounted | packages/app-server/bootstrap/src/production-selected-wsl-probes.ts:113-156 | A reservation stops waiting exactly when it is granted or refused |
| SlotHistory.WaitsForTheRightThing | packages/app-server/bootstrap/src/production-selected-wsl-probes.ts:118-140 | What a reservation that goes on waits for: the leases, then the close of a withdrawn peer, the release of one lease of a full peer, or a new peer |
| SlotHistory.OwnerAsTold | packages/app-server/bootstrap/src/production-selected-wsl-probes.ts:107-132 | In every run the owner is closing if and only if it was closed, and the slot uncertain if and only if the end of a transport was not confirmed |
| SlotHistory.LeaseIsHeldUntilReleased | packages/app-server/bootstrap/src/production-selected-wsl-probes.ts:143-175 | In every run a lease is held on the peer it was granted on from the grant until its release, and not after |
| SlotHistory.RetirementIsExact | packages/app-server/bootstrap/src/production-selected-wsl-probes.ts:117-172 | A peer withdraws exactly when a run on one of its leases failed, or a reservation found it unavailable, used up or about to expire |
| SlotHistory.EveryReservationCanBeGranted | packages/app-server/bootstrap/src/production-selected-wsl-probes.ts:113-156 | From every state of an open, certain slot in which a reservation waits, cooperating events lead to a grant |
| JsonFrames.DecodeStream | packages/app-server/host/src/restricted-target-stdio.ts:7-32 | However a byte stream is cut into chunks, pushing them until the first error and finishing delivers the frames and reaches the verdict that the stream alone determines |
| JsonFrames.NothingIsLost | packages/app-server/host/src/restricted-target-stdio.ts:13-27 | Without an error the delivered frames joined by newlines plus the pending bytes are the stream, and pending holds no newline and never exceeds the limit |
| JsonFrames.StreamVerdict | packages/app-server/host/src/restricted-target-stdio.ts:7-32 | A stream is accepted if and only if it is a sequence of acceptable frames each ended by a newline, and those are what is delivered |
| JsonFrames.AcceptableIsDelivered | packages/app-server/host/src/restricted-target-stdio.ts:13-27 | Feeding acceptable frames delivers exactly them |
| JsonFrames.FeedAppend | packages/app-server/host/src/restricted-target-stdio.ts:13-27 | Consuming two stretches one after the other is consuming their concatenation |
| JsonFrames.ErrorIsFinal | packages/app-server/host/src/restricted-target-stdio.ts:13-27 | After an error nothing more is delivered and the error stays |
| JsonFrames.RestrictedJsonFrames.Push | packages/app-server/host/src/restricted-target-stdio.ts:13-27 | The chunk loop consumes a chunk as the byte-wise reference does |
| TargetStdio.StepKeeps | packages/app-server/host/src/restricted-target-stdio.ts:65-215 | Every event of the service (data, handler result, drain, timers, close) keeps its invariant |
| TargetStdio.ServiceAccounts | packages/app-server/host/src/restricted-target-stdio.ts:65-215 | In every run pending counts exactly the outstanding requests and stays within the limit, each frame is written at most once, and the result is resolved once, with the reason of the close, exactly when the service is closed and nothing is pending |
| TargetStdio.NothingAfterClose | packages/app-server/host/src/restricted-target-stdio.ts:73-94 | After a close nothing is written and no request admitted; once resolved the result never changes |
| TargetStdio.PausedInputIsResumed | packages/app-server/host/src/restricted-target-stdio.ts:108-140 | From every state of every run in which an open service is paused, at most three cooperating events (a drain, an answer, an accepted write) lead to an open service that reads again, unless a writer whose write threw is about to close it |
| TargetStdio.ReleasingResumes | packages/app-server/host/src/restricted-target-stdio.ts:136-140 | Whichever request finishes first, an open service that owes no drain reads again once its count is released |
| TargetStdio.StepIsLater | packages/app-server/host/src/restricted-target-stdio.ts:65-215 | No step takes back a written frame, a close, a reason or a released request |
| TargetStdio.RunIsLater | packages/app-server/host/src/restricted-target-stdio.ts:65-215 | The same over whole runs |
| TargetStdio.RestrictedTargetStdio.Handle | packages/app-server/host/src/restricted-target-stdio.ts:178-214 | One event of the loop, invariant kept |
| StdioHistory.EveryAnswerIsWritten | packages/app-server/host/src/restricted-target-stdio.ts:108-162 | In every run, while the service is open, the frame of every request that is finished, concludes or waits for its drain was given to stdout |
| StdioHistory.WriteIsExact | packages/app-server/host/src/restricted-target-stdio.ts:108-119 | A frame goes to the end of what was written if and only if its answer fits, the service is open and owes no drain, and stdout accepts or queues it; nothing else is written |
| StdioHistory.BlockedIsExact | packages/app-server/host/src/restricted-target-stdio.ts:99-118 | stdout owes a drain from the frame it queued until the drain, and only then |
| StdioHistory.CloseIsExact | packages/app-server/host/src/restricted-target-stdio.ts:73-94 | An open service ends exactly by a shutdown frame, the end of a stream or timer, or a failure, for the reason named unless closing the service throws, and stops reading |
| StdioHistory.AdmissionIsExact | packages/app-server/host/src/restricted-target-stdio.ts:134-135 | Exactly an open service with room admits a request |
| StdioHistory.OwnPhaseIsExact | packages/app-server/host/src/restricted-target-stdio.ts:108-176 | What becomes of the request an event belongs to: when it waits, and for what, when it has only to conclude, when its write threw, and otherwise that it is finished |
| StdioHistory.OthersOnlyStopWaiting | packages/app-server/host/src/restricted-target-stdio.ts:90-103 | Every other request only stops waiting, when stdout drained or the service ended, and keeps what it waited for |
| StdioHistory.ReadingIsExact | packages/app-server/host/src/restricted-target-stdio.ts:92-140 | Reading stops exactly with a frame that stdout queues or the end of the service, and resumes exactly with a request that finishes while no drain is owed, or the ready frame when nothing is pending |
| StdioHistory.BlockedIsPaused | packages/app-server/host/src/restricted-target-stdio.ts:92-140 | In every state of every run an open service does not read while stdout owes a drain |
| StdioHistory.AnswerIsInReach | packages/app-server/host/src/restricted-target-stdio.ts:99-162 | From every state of every run in which the service is open, at most three cooperating events put the answer of any request whose write has not thrown on stdout |
| StdioHistory.OneRequestLife | packages/app-server/host/src/restricted-target-stdio.ts:65-215 | From start-up, whether or not the ready frame is queued, one request is answered after it and a shutdown resolves the promise once |
| ReplyCell.StepKeeps | packages/app-server/host/src/restricted-process-client.ts:197-222 | Every atomic operation or byte access of either thread keeps the cell invariant |
| ReplyCell.HeaderLeavesZeroOnce | packages/app-server/host/src/restricted-process-client.ts:201-212 | Under every interleaving of timeout and reply the header word leaves 0 at most once |
| ReplyCell.ExchangeReturnsTheReply | packages/app-server/host/src/restricted-process-client.ts:205-217 | An exchange that returns a value returns exactly the bytes and length of one complete notify, the only one published |
| ReplyCell.GiveUpIsFinal | packages/app-server/host/src/restricted-process-client.ts:206-209 | After the host gave up no reply is published; a reply published before is not revoked |
| ReplyCell.WorkerRepliesWereNotified | packages/app-server/host/src/restricted-process-worker.ts:194-211 | What the worker publishes are the bytes passed to notify |
| ReplyCell.SharedReply.HostStep | packages/app-server/host/src/restricted-process-client.ts:205-217 | The steps of the waiting thread |
| ReplyCell.SharedReply.WorkerStep | packages/app-server/host/src/restricted-process-worker.ts:197-209 | The steps of notify in the worker thread, bytes written one at a time |
| ReplyProgress.HostReturnsTheReply | packages/app-server/host/src/restricted-process-client.ts:205-217 | Once a reply is published, a host that has not given up ends with exactly this reply if it decodes, and with a failure if it does not or is empty |
| ReplyProgress.HostGivesUp | packages/app-server/host/src/restricted-process-client.ts:206-209 | A host that finds no reply fails and leaves a mark that no later reply replaces |
| ReplyProgress.WorkerPublishesTheReply | packages/app-server/host/src/restricted-process-worker.ts:197-207 | From every state of an open exchange a reply that fits is published by the steps of one notify |
| ReplyProgress.WorkerDropsTheReply | packages/app-server/host/src/restricted-process-worker.ts:197-207 | A reply that does not fit is not written, and one that comes too late is dropped |
| ReplyProgress.WorkerRejects | packages/app-server/host/src/restricted-process-worker.ts:208-213 | A failure of the worker settles an open exchange as failed |
| ReplyProgress.ExchangeRoundTrip | packages/app-server/host/src/restricted-process-client.ts:197-222 | Every reply of one up to as many bytes as the body holds is returned as it was given |
| PipeDispatch.StepKeeps | packages/app-server/host/src/restricted-pipe-dispatch.ts:34-114 | submit, receive, close and fail keep the dispatcher invariant |
| PipeDispatch.EveryRequestSettlesOnce | packages/app-server/host/src/restricted-pipe-dispatch.ts:34-114 | In every run each submitted request is pending or settled, never both, and settled once the dispatcher has stopped; it is settled twice exactly when its own complete was broken off, and pending stays within the bound |
| PipeDispatch.NothingBroken | packages/app-server/host/src/restricted-pipe-dispatch.ts:90-104 | While every complete returns and leaves the dispatcher alone, no request is settled twice |
| PipeDispatch.BrokenIsSettledTwice | packages/app-server/host/src/restricted-pipe-dispatch.ts:90-104 | A complete that throws or invalidates settles its request twice, first as completed, then failed with all others, and stops the dispatcher |
| PipeDispatch.StopIsFinal | packages/app-server/host/src/restricted-pipe-dispatch.ts:38-52 | After a stop nothing is accepted or pending again and earlier settlements stay |
| PipeDispatch.ResponseCompletesItsRequest | packages/app-server/host/src/restricted-pipe-dispatch.ts:90-104 | A response in bounds completes exactly the pending request with its operation id |
| PipeDispatch.ExchangeRoundTrip | packages/app-server/host/src/restricted-pipe-dispatch.ts:63-104 | Submitting an admissible request and receiving its response completes it once and changes nothing else |
| PipeDispatch.RestrictedPipeDispatch.Perform | packages/app-server/host/src/restricted-pipe-dispatch.ts:34-114 | Whatever event comes next, the object takes exactly the step of the run lemmas and keeps the invariant |
| PipeHistory.SubmitIsExact | packages/app-server/host/src/restricted-pipe-dispatch.ts:63-89 | A submitted request is in flight from then on if and only if its text names this session and its own well-formed id, the id is not in flight, there is room, the frame is within the limit and writing returns; every other one fails and takes everything in flight with it |
| PipeHistory.ForeignResponseStops | packages/app-server/host/src/restricted-pipe-dispatch.ts:90-104 | A response that answers nothing in flight, or is too large, fails everything in flight and stops the dispatcher |
| PipeHistory.StopIsExact | packages/app-server/host/src/restricted-pipe-dispatch.ts:38-52 | Closing and failing both fail what is in flight, only a failure is reported as invalid, and after a stop nothing changes |
| PipeHistory.FirstExchange | packages/app-server/host/src/restricted-pipe-dispatch.ts:34-104 | A new dispatcher with room sends a well-formed request and completes it with its response |
| ReviewForest.SiblingsAreApart | packages/app-server/host/src/review-record-store.ts:228-235 | The trees of two children of one record do not meet |
| ReviewForest.TeardownTransitive | packages/app-server/host/src/review-record-store.ts:228-247 | Removals, each child-first with one notice per record, compose |
| ReviewForest.ForestIsAcyclic | packages/app-server/host/src/review-record-store.ts:228-235 | Parent links can be climbed only finitely often, so that the recursive teardown ends, if and only if they hold no cycle |
| ReviewForest.ReuseMakesACycle | packages/app-server/host/src/review-record-store.ts:106-151 | Storing a record makes parent links cyclic if and only if its token is still named as parent by its own parent or a live ancestor of it |
| ReviewForest.FewerChains | packages/app-server/host/src/review-record-store.ts:115-132 | Removals on the way never make a token close a cycle that it did not close before |
| ReviewForest.ReusedTokenWitness | packages/app-server/host/src/review-record-store.ts:220-226 | Two records, each naming the other as parent: the smallest store that a reused token makes cyclic |
| ReviewForest.TeardownStaysRooted | packages/app-server/host/src/review-record-store.ts:228-247 | Removing whole trees never leaves a live record whose parent is gone |
| ReviewStore.ChildIsStillLive | packages/app-server/host/src/review-record-store.ts:228-235 | In the walk over the snapshot every child is still live when its turn comes |
| ReviewStore.NoneLeftExpired | packages/app-server/host/src/review-record-store.ts:204-210 | After expire() no expired record is left |
| ReviewStore.StoredForest | packages/app-server/host/src/review-record-store.ts:106-151 | After any teardown a stored record makes a cycle if and only if it closes a chain, and only if it closed one before the teardown |
| ReviewStore.StoredIsRooted | packages/app-server/host/src/review-record-store.ts:108-151 | A record is stored with a live parent if and only if making room for it has not taken that parent |
| ReviewStore.SparesParentIsExact | packages/app-server/host/src/review-record-store.ts:108-132 | Replacement and eviction spare a live parent if and only if it is outside the replaced tree and there is room once that tree and everything older than the oldest of it and its ancestors is gone |
| ReviewStore.ParentSurvives | packages/app-server/host/src/review-record-store.ts:124-132 | Eviction spares a live record if and only if there is room once everything older than the oldest of it and its live ancestors is gone |
| ReviewStore.OldestParentIsLost | packages/app-server/host/src/review-record-store.ts:124-132 | A parent that is the oldest live record survives if and only if nothing has to be evicted |
| ReviewStore.OrphanWitness | packages/app-server/host/src/review-record-store.ts:106-151 | The smallest such store: one record, a limit of one, and a child whose publication evicts its parent |
| ReviewStore.PutRemovals | packages/app-server/host/src/review-record-store.ts:108-132 | Expiry, replacement and eviction together are one child-first removal, each notice with a reason that held |
| ReviewStore.LiveWithParent | packages/app-server/host/src/review-record-store.ts:204-247 | A record is live until it expires and no longer than its live parent |
| ReviewStore.EvictedIsEarliest | packages/app-server/host/src/review-record-store.ts:124-132 | An evicted record, or an ancestor of it, was created before every record that stays, ties broken by token |
| ReviewStore.HostReviewRecordStore.WithinLimits | packages/app-server/host/src/review-record-store.ts:100-149 | Between any two operations the record count and the summed bytes are those of the live records and within their limits |
| ReviewStore.HostReviewRecordStore.InvalidateTree | packages/app-server/host/src/review-record-store.ts:228-235 | Removes exactly the record and its live descendants, children first, one notice each |
| ReviewStore.HostReviewRecordStore.Expire | packages/app-server/host/src/review-record-store.ts:204-210 | Removes exactly the expired records and their descendants |
| ReviewStore.HostReviewRecordStore.NewToken | packages/app-server/host/src/review-record-store.ts:220-226 | The first usable of eight candidates; none only if all eight are unusable |
| ReviewStore.HostReviewRecordStore.FindOldest | packages/app-server/host/src/review-record-store.ts:128-130 | The live record created first, ties by token |
| ReviewStore.HostReviewRecordStore.EvictFor | packages/app-server/host/src/review-record-store.ts:124-132 | The eviction loop ends with exactly the records that removing oldest trees, only as long as there is no room, leaves |
| ReviewStore.HostReviewRecordStore.FindReplacement | packages/app-server/host/src/review-record-store.ts:115-121 | The live record with the same owner, kind and replacement key |
| ReviewStore.HostReviewRecordStore.Replace | packages/app-server/host/src/review-record-store.ts:115-123 | The tree of the record in the same place goes |
| ReviewStore.HostReviewRecordStore.MakeRoom | packages/app-server/host/src/review-record-store.ts:115-132 | After replacement and eviction the record fits both limits, every removal justified |
| ReviewStore.HostReviewRecordStore.Store | packages/app-server/host/src/review-record-store.ts:136-149 | Adds the record with everything as given, created at the clock reading and expiring the maximum age later, and its bytes; both limits hold |
| ReviewStore.HostReviewRecordStore.Put | packages/app-server/host/src/review-record-store.ts:106-151 | Succeeds exactly when the parent is live, the encoding fits, a token was found and the file was written, and otherwise reports which of these failed first and what is left of the store; the live records are then exactly those that making room leaves, with the new one, which has the kind, owner, key and parent given, the length and hash of the encoding, and is created at the second clock reading and expires the maximum age later; both limits always hold; links stay acyclic if and only if the token closes no cycle; every live record keeps its parent if and only if, before the call, the parent of the new one is outside the tree that is replaced and there is room once that tree and everything older than the oldest of the parent and its ancestors is gone; every removal is child-first and justified |
| ReviewStore.HostReviewRecordStore.Get | packages/app-server/host/src/review-record-store.ts:166-195 | Returns the decoded payload exactly when the record is live, of the kind and owner asked for, and its file has the recorded length and hash, decodes and is accepted; a damaged record is evicted with its descendants; notices tell expired records apart from evicted ones |
| ReviewStore.HostReviewRecordStore.PublishedIsIntact | packages/app-server/host/src/review-record-store.ts:133-195 | An unchanged file of a published encoding is intact for every caller that accepts its value |
| ReviewStore.HostReviewRecordStore.Remove | packages/app-server/host/src/review-record-store.ts:197-202 | Removes exactly the tree of a live token |
| ReviewStore.HostReviewRecordStore.Close | packages/app-server/host/src/review-record-store.ts:212-218 | Empties the store for good |
| ReviewRoundTrip.PutThenGet | packages/app-server/host/src/review-record-store.ts:106-195 | Over the store object: a record published with a second clock reading is read back at every time before that reading plus the maximum age while its parent lives, and at no time from then on |
| ReviewRoundTrip.GetAsAnother | packages/app-server/host/src/review-record-store.ts:158-175 | Another kind or another owner gets nothing, and the record stays |
| OperationManager.PollingRebuildsTheLog | packages/app-server/host/src/operation-manager.ts:108-116 | However often and whenever a client polls an operation that is kept, with the last sequence it has, the answers put together are the log as of the last poll |
| OperationManager.RetainedLogGrows | packages/app-server/host/src/operation-manager.ts:170-253 | Over any calls of the manager the log of an operation that is kept only grows |
| OperationManager.AppendProgress | packages/app-server/host/src/operation-manager.ts:202-221 | Comparing with the latest event of the stage suffices for the whole log to stay monotonic |
| OperationManager.LatestOfStage | packages/app-server/host/src/operation-manager.ts:202-221 | The backward search finds the latest event of the stage |
| OperationManager.AssertMonotonicProgress | packages/app-server/host/src/operation-manager.ts:202-221 | Progress is accepted exactly when the extended log is still numbered 1..n with constant totals and non-decreasing completed units per stage |
| OperationManager.CompleteKeeps | packages/app-server/host/src/operation-manager.ts:223-253 | Completing an operation keeps the completed order exact and lowers the active count by exactly its share |
| OperationManager.EvictKeeps | packages/app-server/host/src/operation-manager.ts:279-283 | Forgetting the oldest completed operation keeps everything else |
| OperationManager.ResolveOne | packages/app-server/host/src/operation-manager.ts:271-277 | A resolved waiter leaves the waiting list for good |
| OperationManager.HostOperationManager.NextOperationId | packages/app-server/host/src/operation-manager.ts:285-290 | The first of four ids that is usable: trimmed and new; fails only if none is |
| OperationManager.HostOperationManager.Reserve | packages/app-server/host/src/operation-manager.ts:68-86 | Stores a reservation under the first usable of four ids, counted exactly when there is room; changes nothing when none is usable |
| OperationManager.HostOperationManager.Abandon | packages/app-server/host/src/operation-manager.ts:88-93 | Drops a reservation and releases its count |
| OperationManager.HostOperationManager.Start | packages/app-server/host/src/operation-manager.ts:95-106 | Turns a reservation into a running operation |
| OperationManager.HostOperationManager.BeginRun | packages/app-server/host/src/operation-manager.ts:99-105 | A counted operation runs; an uncounted one is completed with exactly the capacity failure as its terminal event |
| OperationManager.HostOperationManager.ReportProgress | packages/app-server/host/src/operation-manager.ts:170-200 | Appends one numbered event exactly when the operation runs and the log stays monotonic |
| OperationManager.HostOperationManager.Complete | packages/app-server/host/src/operation-manager.ts:223-253 | Appends the only terminal event, releases the count, wakes waiters, keeps the newest completed operations |
| OperationManager.HostOperationManager.EvictCompleted | packages/app-server/host/src/operation-manager.ts:279-283 | Forgets exactly the excess of oldest completed operations |
| OperationManager.HostOperationManager.ActiveCountExcluding | packages/app-server/host/src/operation-manager.ts:260-269 | The kept count, or a recount without one operation |
| OperationManager.HostOperationManager.ReleaseActive | packages/app-server/host/src/operation-manager.ts:255-258 | One less active; no waiter is left with a zero count |
| OperationManager.HostOperationManager.ResolveIdleWaiters | packages/app-server/host/src/operation-manager.ts:271-277 | Resolves every waiter whose count is zero and no other |
| OperationManager.HostOperationManager.Observe | packages/app-server/host/src/operation-manager.ts:108-116 | The events above a sequence number, or unavailable |
| OperationManager.HostOperationManager.RequestCancellation | packages/app-server/host/src/operation-manager.ts:118-124 | Marks the operation, and tells whether that can have an effect |
| OperationManager.HostOperationManager.WaitForIdle | packages/app-server/host/src/operation-manager.ts:134-142 | Waits, as a new waiter, exactly when something other than the excluded operation is active |
| ManagerHistory.OperationsAsTold | packages/app-server/host/src/operation-manager.ts:68-283 | In every history the manager keeps exactly the operations that were reserved and neither abandoned nor forgotten, each as the calls that named it say: log, state, share of the count, requested cancellation |
| ManagerHistory.AcceptedProgressIs | packages/app-server/host/src/operation-manager.ts:202-221 | Progress is accepted exactly when it is within its total and agrees with everything its stage reported before |
| ManagerHistory.OneOperationLife | packages/app-server/host/src/operation-manager.ts:68-253 | Whoever reserved an id may start it, report on it and complete it, once each, and gets exactly that log |
| ManagerHistory.NewerJoins | packages/app-server/host/src/operation-manager.ts:108-116 | A poll keeps the order of the log |
| Base64.ReadEncode | packages/app-server/host/src/review-record-codec.ts:86-93 | Reading standard base64 (RFC 4648, section 4) gives the bytes back |
| Base64.CanonicalIsEncode | packages/app-server/host/src/review-record-codec.ts:86-93 | A canonical text (RFC 4648, section 3.5) is the encoding of what it reads as |
| Base64.CanonicalDecides | packages/app-server/host/src/review-record-codec.ts:86-93 | Re-encoding the lenient reading and comparing accepts exactly the canonical texts |
| ReviewCodec.EncodeSucceeds | packages/app-server/host/src/review-record-codec.ts:40-63 | Encoding succeeds exactly on values without non-finite numbers and unsupported values |
| ReviewCodec.DecodeEncode | packages/app-server/host/src/review-record-codec.ts:40-125 | Decoding an encoded value returns it |
| ReviewCodec.EncodeDecode | packages/app-server/host/src/review-record-codec.ts:65-125 | Re-encoding any accepted node returns that node |
| ReviewCodec.OneEncodingPerValue | packages/app-server/host/src/review-record-codec.ts:40-125 | A node decodes to a value if and only if it is what encoding that value makes |
| ReviewCodec.AcceptedKeys | packages/app-server/host/src/review-record-codec.ts:99-121 | Accepted object entries have strictly increasing keys, exactly those of the decoded record |
| ReviewCodec.DecodeNode | packages/app-server/host/src/review-record-codec.ts:65-125 | The recursive decoder with its loops computes the decoding function |
| ReviewCodec.DecodeArray | packages/app-server/host/src/review-record-codec.ts:94-98 | The array loop |
| ReviewCodec.DecodeObject | packages/app-server/host/src/review-record-codec.ts:99-121 | The entry loop with previousKey and result |
| Text.LessIsFirstDifference | packages/adapter/framework/src/source-text.ts:5-7 | compareCodeUnitText: at the first difference the smaller character, or the shorter text, comes first |
| Text.LessTotal | packages/adapter/framework/src/source-text.ts:5-7 | Code-unit comparison is a strict total order |
| Text.StrictlySortedUnique | packages/adapter/framework/src/source-text.ts:5-7 | A strictly sorted list is determined by its members |
| Text.SortDecides | packages/adapter/framework/src/target-coordinator.ts:505-507 | Comparing sorted copies with sameStrings compares members with multiplicity |
| Text.SortByMembers | packages/adapter/framework/src/target-coordinator.ts:388-395 | Sorting by a key keeps the rows |
| Text.SortByOrders | packages/adapter/framework/src/target-coordinator.ts:388-395 | Sorting by a key orders the rows |
| Text.SortDistinct | packages/adapter/framework/src/target-coordinator.ts:149 | Sorting the distinct entries of a map gives its keys in order |
| TargetCoordinator.EverySemanticClassified | packages/adapter/framework/src/target-coordinator.ts:120-168 | Whatever the handlers answer, the merged analysis classifies every required semantic as often as it is required, repeats no output unit, and its status tells which rows it has (except for a host without handlers asked for nothing) |
| TargetCoordinator.CellResultClassifies | packages/adapter/framework/src/target-coordinator.ts:150-166 | The result kept for one cell classifies exactly the semantics of that cell |
| TargetCoordinator.CellsPartition | packages/adapter/framework/src/target-coordinator.ts:130-146 | The groups partition the required semantics |
| TargetCoordinator.CellsClassify | packages/adapter/framework/src/target-coordinator.ts:148-168 | All rows of all cells together classify each required semantic as often as it is required |
| TargetCoordinator.MergeFailsOnlyBySharedUnits | packages/adapter/framework/src/target-coordinator.ts:361-403 | For distinct fingerprints the merge blocks everything if and only if two cells put out the same unit |
| TargetCoordinator.OwnHandlerDecides | packages/adapter/framework/src/target-coordinator.ts:120-168 | The rows naming a semantic are exactly those kept for its own cell |
| TargetCoordinator.HandlersAreIsolated | packages/adapter/framework/src/target-coordinator.ts:149-167 | Replacing one handler changes no row of a semantic outside its cell |
| TargetCoordinator.InexactAnswerBlocksItsGroup | packages/adapter/framework/src/target-coordinator.ts:156-166 | A foreign or incomplete answer blocks each semantic of its own group, with no option left for it |
| TargetCoordinator.RejectionIsExact | packages/adapter/framework/src/target-coordinator.ts:148-167 | The dispatch rejects if and only if some handler it calls rejects, with the rejection of the least such cell, and the answers of all other groups are lost; otherwise it is the dispatch of the answers |
| TargetCoordinator.RejectionWitness | packages/adapter/framework/src/target-coordinator.ts:148-156 | Two cells, one answered exactly and the other rejected: the dispatch rejects |
| TargetCoordinator.LaterHandlersDoNotMatter | packages/adapter/framework/src/target-coordinator.ts:149-156 | Nothing a handler of a later cell answers changes a rejection |
| TargetCoordinator.AnalysedClassifies | packages/adapter/framework/src/target-coordinator.ts:120-168 | An analysis that is not rejected classifies every required semantic as often as it is required |
| TargetCoordinator.CoordinateAnalysis | packages/adapter/framework/src/target-coordinator.ts:120-168 | The grouping loop and the dispatch loop compute the dispatch; the handlers called are those of the placed cells in order, up to the one that rejects |
| AnalysisKept.ProperAnswerReachesResult | packages/adapter/framework/src/target-coordinator.ts:148-168 | When no two proper answers put out one unit, the rows and units of an answer reach the result unchanged if its rows name each fingerprint of the group once and nothing else, no unit repeats and its status tells its rows; otherwise each semantic of its group is blocked |
| AnalysisKept.ProperIsKept | packages/adapter/framework/src/target-coordinator.ts:155-166 | The result kept for a cell is the answer of its handler if and only if the answer is proper |
| AnalysisKept.ProperIsExact | packages/adapter/framework/src/target-coordinator.ts:405-420 | The test of an answer accepts exactly the proper ones of groups without a repeated fingerprint |
| AnalysisKept.SharingIsExact | packages/adapter/framework/src/target-coordinator.ts:380-387 | The merge is refused exactly when two proper answers put out one unit |
| AnalysisKept.SharingBlocksEverything | packages/adapter/framework/src/target-coordinator.ts:380-387 | When two proper answers put out one unit, nothing of any answer is kept |
| AnalysisKept.MissingHandlerBlocks | packages/adapter/framework/src/target-coordinator.ts:127-153 | Without a handler the semantics of a cell are blocked for the reason of the capability found for the first of them; without any handler, or with a semantic that has no asset, all are |
| AnalysisKept.ReasonIsOfFirstCapability | packages/adapter/framework/src/target-coordinator.ts:136-153 | The reason is the first diagnostic of the first capability for the consumer and kind, where there is one |
| AnalysisKept.PlacedByFirstAsset | packages/adapter/framework/src/target-coordinator.ts:422-427 | The kind of a semantic is that of the first asset with its reference |
| AnalysisKept.ResultStatusIsHonest | packages/adapter/framework/src/target-coordinator.ts:396-402 | The status of the result tells which rows it has |
| AnalysisKept.ResultIsInOrder | packages/adapter/framework/src/target-coordinator.ts:388-395 | The rows and units of a merged result come in the order of their texts |
| TargetMaterialization.MaterializedUnits | packages/adapter/framework/src/target-coordinator.ts:173-207 | A materialization that succeeds holds exactly the selected fingerprints, each once if and only if none is selected under two output contracts |
| TargetMaterialization.GroupsCount | packages/adapter/framework/src/target-coordinator.ts:189-204 | A fingerprint occurs once per contract it is selected under |
| TargetMaterialization.DistinctUnitsOnce | packages/adapter/framework/src/target-coordinator.ts:173-207 | Distinct selected fingerprints, as the registry checks, are each materialized exactly once, in order, and nothing else is |
| TargetMaterialization.TwoContractsWitness | packages/adapter/framework/src/target-coordinator.ts:173-207 | One fingerprint selected under two contracts, both answered exactly, is materialized twice |
| TargetMaterialization.RejectionIsExact | packages/adapter/framework/src/target-coordinator.ts:190-204 | The dispatch rejects if and only if some handler rejects and every handler before it in order answered exactly; otherwise it is the materialization of the answers |
| TargetMaterialization.CoordinateMaterialization | packages/adapter/framework/src/target-coordinator.ts:173-207 | The grouping loop and the dispatch loop compute the dispatch |
| MaterializationKept.DispatchSucceeds | packages/adapter/framework/src/target-coordinator.ts:173-207 | Materialization succeeds if and only if there is a handler for every selected unit and each one asked answers, claims completion, and names each fingerprint it was asked for once and nothing else |
| MaterializationKept.SuccessIsExact | packages/adapter/framework/src/target-coordinator.ts:173-207 | Of handlers that all answer, materialization succeeds if and only if there is one for every selected unit and each one asked names each fingerprint it was asked for once and nothing else |
| Ustar.OctalRoundTrip | packages/app-server/host/src/restricted-artifact-package.ts:157-163 | A number printed in octal with leading zeros and ended by NUL or space reads back |
| Ustar.DecodeFinds | packages/app-server/host/src/restricted-artifact-package.ts:119-123 | The name field decodes to the name it holds |
| Ustar.NameUnique | packages/app-server/host/src/restricted-artifact-package.ts:119-123 | A name field holds one name |
| ArtifactManifest.RequireManifest | packages/app-server/host/src/restricted-artifact-package.ts:62-105 | Accepts exactly the manifests with a supported target, 2 to 128 distinct well-formed files within the byte bounds, and the required runtime files; a wrong target is reported first, then what is wrong with the first bad file of the list, and a missing runtime only when every file is well formed |
| ArtifactManifest.FindsTheFile | packages/app-server/host/src/restricted-artifact-package.ts:102 | A path names at most one file of the inventory |
| ArtifactTar.ValidateRegularTar | packages/app-server/host/src/restricted-artifact-package.ts:107-155 | Terminates and accepts an archive if and only if it is one valid entry per manifest file, in some order, followed by exactly 1024 zero bytes |
| ArtifactTar.EntrySizeIsWholeBlocks | packages/app-server/host/src/restricted-artifact-package.ts:145-146 | An entry takes its header and its content rounded up to whole 512-byte blocks |
| ArtifactTar.AfterEntry | packages/app-server/host/src/restricted-artifact-package.ts:145-152 | After one accepted entry the rest of the archive must hold exactly the remaining files |
| ArtifactTar.AtZeroBlock | packages/app-server/host/src/restricted-artifact-package.ts:113-117 | At a zero block the archive is valid exactly when no file is missing and 1024 zero bytes end it |
| ArtifactTar.OnlyNamedFile | packages/app-server/host/src/restricted-artifact-package.ts:119-126 | Away from a zero block only the file the header names can come next |
| ArtifactWriter.WriterIsAccepted | packages/app-server/host/src/restricted-artifact-package.ts:107-155 | Whatever a canonical ustar writer produces for the manifest, in any order, is accepted |
| ArtifactWriter.AcceptedSize | packages/app-server/host/src/restricted-artifact-package.ts:145-152 | An accepted archive is 1024 bytes plus, per file, 512 and its length rounded up to 512 |
| ArtifactWriter.ChecksumReads | packages/app-server/host/src/restricted-artifact-package.ts:127-129 | The written checksum field reads as the sum the check computes |
| ArchiveMeaning.ArchiveIsExact | packages/app-server/host/src/restricted-artifact-package.ts:107-155 | An archive is accepted if and only if it is one entry for each file of the manifest, in some order, end to end, and 1024 zero bytes |
| ArchiveMeaning.EntryIsExact | packages/app-server/host/src/restricted-artifact-package.ts:119-153 | An entry is accepted if and only if it is, byte by byte: name, mode 0700 or 0600, owner 0, size and checksum printed in octal, a regular file of ustar format without link or prefix, the content with the right digest, and zeros up to a whole block |
| ArchiveMeaning.HeaderIsExact | packages/app-server/host/src/restricted-artifact-package.ts:119-144 | A header is accepted if and only if it says the name, permissions, owner, size, checksum, type and format of its file |
| ArchiveMeaning.OctalIsExact | packages/app-server/host/src/restricted-artifact-package.ts:157-163 | A number is read if and only if the field is its octal digits and then NULs or spaces |
| ArchiveMeaning.ManifestIsExact | packages/app-server/host/src/restricted-artifact-package.ts:61-105 | A manifest is accepted exactly when its numbers, names and files are in these bounds and the runtime is among them |
| ArchiveMeaning.CanonicalPathIs | packages/app-server/host/src/restricted-artifact-package.ts:165-172 | A path is one to a hundred plain characters, names joined by slashes of which none is empty or climbs |
| ArchiveMeaning.DigestIsHex | packages/app-server/host/src/restricted-artifact-package.ts:174-176 | A digest is the lower-case hexadecimal of 32 bytes |
| CodeInventory.VerifyRestrictedCodeInventory | packages/app-server/host/src/restricted-code-inventory.ts:32-96 | Listing only the ancestor directories accepts a tree if and only if a full recursive walk finds exactly the described files, their directories and nothing else; each error names a fault that the tree really has |
| CodeInventory.WalkIsEverything | packages/app-server/host/src/restricted-code-inventory.ts:55-82 | The recursive walk meets exactly the paths that lead somewhere |
| CodeInventory.NothingElse | packages/app-server/host/src/restricted-code-inventory.ts:55-82 | If every ancestor directory is good, every entry at any depth is an ancestor directory or a verified file |
| CodeInventory.GoodIsExact | packages/app-server/host/src/restricted-code-inventory.ts:46-87 | Good ancestor directories and all files present is the same as the full walk agreeing |
| CodeInventory.ListingFits | packages/app-server/host/src/restricted-code-inventory.ts:58 | The limit of 256 listed entries never turns away a matching tree |
| CodeInventory.CompleteByCount | packages/app-server/host/src/restricted-code-inventory.ts:86 | Comparing the number of files seen with the number expected decides completeness |
| CodeInventory.CheckDirectory | packages/app-server/host/src/restricted-code-inventory.ts:56-82 | One listed directory is accepted exactly when each child is an ancestor directory or a verified file; each error names a fault that the directory really has |
| CodeInventory.CollectDirectories | packages/app-server/host/src/restricted-code-inventory.ts:47-54 | Collects exactly the root and the ancestors of manifest files, each once |
| InventoryMeaning.TreeIsExact | packages/app-server/host/src/restricted-code-inventory.ts:46-87 | The accepted tree is the one the manifest describes: the directories enclose its files, each file is there with its length, digest and, where it matters, permission to run, and there is nothing else |
| InventoryMeaning.VerifiedIsExact | packages/app-server/host/src/restricted-code-inventory.ts:63-80 | A file path is verified exactly when it holds its file as described |
| ManagedEntry.OverlapIsExact | packages/adapter/framework/src/source-managed-entry.ts:10-25 | For every guard and entry: the text comparison finds an overlap exactly when some path belongs to both, if and only if neither is the source root by an empty path against an unseen relative path of the other |
| ManagedEntry.SkippedMeetsOnlyMissed | packages/adapter/framework/src/source-managed-entry.ts:4-8 | An entry that may be skipped shares a path with a use in flight exactly where the comparison misses it |
| ManagedEntry.SkippedIsNotInFlight | packages/adapter/framework/src/source-managed-entry.ts:4-8 | With guards that name a canonical path or the entire root, no part of a named entry that may be skipped is in flight |
| ManagedEntry.SkippedIsExact | packages/adapter/framework/src/source-managed-entry.ts:4-25 | With decoded guards a named entry may be skipped if and only if a guard that is not in use holds it and nothing in flight under its root is part of it |
| SourceTraversal.TraverseAccounts | packages/adapter/framework/src/source-traversal.ts:98-238 | On any finite tree with any failures every handle issued has exactly one row and no other row exists; rows skipped as managed are allowed by the guards |
| SourceTraversal.NothingInFlightIsSkipped | packages/adapter/framework/src/source-traversal.ts:124-180 | In the whole read no path in flight is skipped: every row skipped as managed stands for a listed entry none of whose paths belongs to a use in flight |
| SourceTraversal.VisitAccounts | packages/adapter/framework/src/source-traversal.ts:124-210 | Visiting an entry adds rows for exactly the handles issued meanwhile |
| SourceTraversal.RowsInOrder | packages/adapter/framework/src/source-traversal.ts:124-180 | When ids are distinct, the rows are the issued handles in traversal order |
| SourceTraversal.DisposeAccounts | packages/adapter/framework/src/source-traversal.ts:228-237 | Setting a disposition keeps one row per handle |
| SourceTraversal.VisitSkips | packages/adapter/framework/src/source-traversal.ts:158-176 | Only entries of a listing that the guards allow are skipped as managed |
| SourceTraversal.AttachEffect | packages/adapter/framework/src/source-traversal.ts:63-72 | Attaching a candidate reaches exactly the rows of the given records that are not ignored, and keeps every row |
| SourceTraversal.AttachSorted | packages/adapter/framework/src/source-traversal.ts:67-70 | Candidates of a row stay sorted and distinct |
| SourceTraversal.IgnoreAccounts | packages/adapter/framework/src/source-traversal.ts:73-78 | Ignoring keeps one row per handle, now ignored |
| SourceTraversal.ReferencedAccounts | packages/adapter/framework/src/source-traversal.ts:79-95 | A referenced entry that resolves gets its one row |
| SourceScan.TraverseSourceRead | packages/adapter/framework/src/source-traversal.ts:41-122 | The whole read computes the traversal function |
| SourceScan.SourceScanResult.Finds | packages/adapter/framework/src/source-traversal.ts:228-236 | Map and list hold the same row object under an id |
| SourceScan.SourceScanResult.SetDisposition | packages/adapter/framework/src/source-traversal.ts:228-237 | Appends or replaces the row of a handle, in list and map |
| SourceScan.SourceScanResult.ReplaceWithIgnored | packages/adapter/framework/src/source-traversal.ts:222-226 | An ignored row keeps its first reason |
| SourceScan.SourceScanResult.Read | packages/adapter/framework/src/source-traversal.ts:182-210 | One file: parsed with its record, or ignored as unreadable |
| SourceScan.SourceScanResult.VisitEntry | packages/adapter/framework/src/source-traversal.ts:124-180 | The recursive visit with its loop over sorted children |
| SourceScan.SourceScanResult.AttachTo | packages/adapter/framework/src/source-traversal.ts:64-71 | One record: the shared row object is updated in place |
| SourceScan.SourceScanResult.AttachCandidate | packages/adapter/framework/src/source-traversal.ts:63-72 | The loop over records |
| SourceScan.SourceScanResult.ReadReferencedFile | packages/adapter/framework/src/source-traversal.ts:79-95 | A file already read, a failure, an ignored directory, or a read file |
| SourceOutcome.EveryEntryHasItsRow | packages/adapter/framework/src/source-traversal.ts:124-210 | With distinct handle ids the root and every entry listed in a traversed directory have one row, and its kind is decided, case by case and both ways, by the two callbacks, the guards, the independence callback and the answer of the port |
| SourceOutcome.RowsAreExact | packages/adapter/framework/src/source-traversal.ts:124-210 | A row is reported if and only if an entry met on the way earns it |
| SourceOutcome.RecordsAreExact | packages/adapter/framework/src/source-traversal.ts:131-198 | The result holds exactly the files read and the directories listed on the way, with their observed ids |
| SourceOutcome.ObservedIsExact | packages/adapter/framework/src/source-traversal.ts:136-199 | An id was observed exactly when a file read or a directory listed has it |
| SourceOutcome.ListsFollowRows | packages/adapter/framework/src/source-traversal.ts:136-237 | With distinct ids files and directories are those of the parsed and traversed rows, in their order, and sources were ignored exactly when a row says so |
| SourceOutcome.VisitReports | packages/adapter/framework/src/source-traversal.ts:124-210 | Any visit adds exactly what the entries met from it on earn to what was reported before |
| SourceOutcome.NotStartedIsExact | packages/adapter/framework/src/source-traversal.ts:98-116 | A read that does not start reports nothing but that sources were ignored, or the row of a root of the wrong kind |
| SourceOutcome.FileHandlesJoin | packages/adapter/framework/src/source-traversal.ts:148 | The callback sees the file handles of each listing on the way, in the order of the port |
| SourceOutcome.ChildrenInOrder | packages/adapter/framework/src/source-traversal.ts:149 | Children are taken in the order of their paths |
| SourceOutcome.ReferencedIsExact | packages/adapter/framework/src/source-traversal.ts:79-95 | A referenced file is read at most once, and one that cannot be read changes nothing but its row |
| SourceOutcome.ReferencedRow | packages/adapter/framework/src/source-traversal.ts:79-95 | The row a referenced entry ends up with |
| StructuredLog.ConcatenationIsValid | packages/app-server/host/src/support-bundle.ts:249-257 | Valid segments in a row form a valid structured log if and only if none but the first begins with a byte order mark |
| StructuredLog.MarkedSegmentBreaksSnapshot | packages/app-server/host/src/support-bundle.ts:249-257 | Two segments that reload but whose concatenation the bundle rejects |
| StructuredLog.SegmentInside | packages/app-server/host/src/operational-diagnostics.ts:195-206 | A valid segment reads the same inside a log exactly when it has no byte order mark |
| StructuredLog.RecordsAppend | packages/app-server/host/src/support-bundle.ts:249-257 | After whole records, more bytes are whole records exactly when they are so by themselves |
| SegmentNames.NameIsOwned | packages/app-server/host/src/operational-diagnostics.ts:179-193 | A name given to a new segment is recognised, with its time |
| SegmentNames.OwnedIsName | packages/app-server/host/src/operational-diagnostics.ts:179-193 | Only such names are recognised |
| OperationalLog.RecordKeeps | packages/app-server/host/src/operational-diagnostics.ts:366-383 | Every record keeps retained bytes equal to the summed sizes and segments sorted; one that stays active leaves nothing past the cutoff, and is within the maximum if and only if its line is |
| OperationalLog.ActiveLogIsBounded | packages/app-server/host/src/operational-diagnostics.ts:366-383 | With the segment bound at most the maximum an active log never exceeds it |
| OperationalLog.RetentionTrims | packages/app-server/host/src/operational-diagnostics.ts:646-658 | Retention removes a run of oldest segments and, when it succeeds, leaves nothing expired and room for the line |
| OperationalLog.RecordAppends | packages/app-server/host/src/operational-diagnostics.ts:366-383 | After a record the current segment is the last one if and only if the line went to it or the segment opened for it comes after all others; then the log is a run of its newest segments with the line at the end |
| OperationalLog.ReloadKeeps | packages/app-server/host/src/operational-diagnostics.ts:586-617 | Whatever a reload accepts satisfies the invariant |
| OperationalLog.ReloadRestores | packages/app-server/host/src/operational-diagnostics.ts:586-617 | Reading the directory again restores what was written if and only if there are at most 1,024 segments, and throws otherwise |
| OperationalLog.RecordAfterReloadOpensSegment | packages/app-server/host/src/operational-diagnostics.ts:366-383 | The first record after reading the directory always opens a segment of its own |
| OperationalLog.SnapshotIsAccepted | packages/app-server/host/src/support-bundle.ts:229-257 | The bundle accepts the snapshot of a well-kept log if and only if no included segment but the first begins with a byte order mark |
| OperationalLog.RecordKeepsUnmarked | packages/app-server/host/src/operational-diagnostics.ts:366-383 | Segments the log writes itself never begin with a byte order mark |
| OperationalRuns.RunKeeps | packages/app-server/host/src/operational-diagnostics.ts:366-553 | Over any run of records, starts, settings changes, clearings and snapshots the accounts hold and an active log is within its aggregate maximum, when the segment bound fits every accepted setting |
| OperationalRuns.SmallMaximumWitness | packages/app-server/host/src/operational-diagnostics.ts:425-474 | Otherwise a new log, the smallest accepted maximum and one record longer than it leave an active log over its maximum |
| OperationalRuns.OpenKeeps | packages/app-server/host/src/operational-diagnostics.ts:446-474 | Reading the directory and retention keep the accounts and leave an active log within its maximum |
| OperationalRuns.RemovesAll | packages/app-server/host/src/operational-diagnostics.ts:489-505 | Clearing succeeds if and only if every file can be removed, and otherwise stops at the first that cannot |
| OperationalRuns.RestartsOverflow | packages/app-server/host/src/operational-diagnostics.ts:586-587 | After 1,025 starts within the retention window, on any clock that moves on between records, with one short record each, a well-kept active log far below its maximum is suspended by its next start, settings change, clearing or snapshot |
| OperationalRuns.FullDirectoryIsStuck | packages/app-server/host/src/operational-diagnostics.ts:476-587 | As long as the directory holds more than 1,024 names, no run of calls leaves the suspension or removes a file |
| OperationalDiagnostics.HostOperationalDiagnostics.ApplyRetentionTo | packages/app-server/host/src/operational-diagnostics.ts:646-658 | The two removal loops |
| OperationalDiagnostics.HostOperationalDiagnostics.RecordDiagnostic | packages/app-server/host/src/operational-diagnostics.ts:366-383 | One record call on the object |
| OperationalDiagnostics.HostOperationalDiagnostics.ReloadSegments | packages/app-server/host/src/operational-diagnostics.ts:586-617 | The directory loop; an error changes nothing |
| OperationalDiagnostics.HostOperationalDiagnostics.OpenDirectory | packages/app-server/host/src/operational-diagnostics.ts:555-574 | A start takes the stored settings, reads the directory and applies retention, or suspends |
| OperationalDiagnostics.HostOperationalDiagnostics.ReplaceSettings | packages/app-server/host/src/operational-diagnostics.ts:425-474 | Stored settings take effect as a new start does, and are reported complete exactly when the log ends up configured |
| OperationalDiagnostics.HostOperationalDiagnostics.ClearOrdinaryLog | packages/app-server/host/src/operational-diagnostics.ts:476-514 | Clears everything exactly when every file can be removed, otherwise reports what was removed and suspends |
| OperationalDiagnostics.HostOperationalDiagnostics.CaptureSupportLogSnapshot | packages/app-server/host/src/operational-diagnostics.ts:516-553 | The snapshot is the longest run of newest whole segments that fits, with matching counts |
| OperationalDiagnostics.JoinBytes | packages/app-server/host/src/operational-diagnostics.ts:534-539 | The selected segments copied one after the other |
| LogHistory.RecordIsExact | packages/app-server/host/src/operational-diagnostics.ts:366-383 | A fit record of an active log: retention removes exactly the segments that are due, then the line goes to the end of the current segment if that was kept and has room, and else into a new segment named after the clock; every failure suspends the log and leaves its segments as they are |
| LogHistory.UnfitIsExact | packages/app-server/host/src/operational-diagnostics.ts:366-371 | A record out of bounds suspends an active log and changes no segment; an inactive log ignores it |
| LogHistory.RetentionIsExact | packages/app-server/host/src/operational-diagnostics.ts:646-673 | Retention removes exactly the segments that are past their time or for which the line does not fit, oldest first, up to the first that cannot be removed |
| LogHistory.CutIsUnique | packages/app-server/host/src/operational-diagnostics.ts:646-673 | Which segments are removed is determined |
| LogHistory.WriteIsExact | packages/app-server/host/src/operational-diagnostics.ts:373-382 | When retention succeeded the line is appended to the current segment if that has room, and otherwise opens a segment |
| LogHistory.ReadIsExact | packages/app-server/host/src/operational-diagnostics.ts:586-617 | The directory is read exactly when it has at most 1,024 names and each is of a loadable file; the log then holds one segment for each |
| LogHistory.OpenIsExact | packages/app-server/host/src/operational-diagnostics.ts:555-575 | A start leaves the log as the directory is, less what retention removes, in the state the settings ask for, or suspended |
| LogHistory.ClearIsExact | packages/app-server/host/src/operational-diagnostics.ts:476-514 | Clearing removes segments in order up to the first that cannot be removed |
| LogHistory.CaptureIsExact | packages/app-server/host/src/operational-diagnostics.ts:516-524 | A snapshot reads the directory and otherwise changes the log only when that fails |
| LogHistory.SegmentIsLines | packages/app-server/host/src/operational-diagnostics.ts:195-207 | A valid segment is one or more lines that parse, each ended by a line feed, after at most one byte order mark, the first with the time in the name |
| LogHistory.BundleIsExact | packages/app-server/host/src/support-bundle.ts:229-257 | What the bundle asks of a snapshot, in numbers |
| FrontmatterTokens.StripCommentIdempotent | packages/adapter/framework/src/source-frontmatter.ts:331-345 | Stripping a comment keeps a prefix, and stripping again changes nothing |
| FrontmatterTokens.SplitJoinSplit | packages/adapter/framework/src/source-frontmatter.ts:276-316 | Splitting, joining with commas and splitting again gives the same tokens, for every text and both nestings |
| FrontmatterTokens.ChunksWellCut | packages/adapter/framework/src/source-frontmatter.ts:282-312 | Every cut piece but the last ends outside quotes and brackets |
| FrontmatterTokens.StripTrailingComment | packages/adapter/framework/src/source-frontmatter.ts:331-345 | The scanner loop computes the stripping function |
| FrontmatterTokens.SplitDelimitedTokens | packages/adapter/framework/src/source-frontmatter.ts:276-316 | The scanner loop computes the splitting function |
| Frontmatter.ParseIsConsistent | packages/adapter/framework/src/source-frontmatter.ts:28-158 | For every content the body is a suffix, present keys are exactly the value keys, unsafe keys are absent and maps hold only accepted entries |
| Frontmatter.LineKeeps | packages/adapter/framework/src/source-frontmatter.ts:48-148 | After every line the kind of the active container is the kind of the stored value, so the casts are safe |
| Frontmatter.LinesCover | packages/adapter/framework/src/source-frontmatter.ts:378-396 | The lines with their offsets cover the content without gap or overlap, each text being its stretch without the line feed and one carriage return before it |
| Frontmatter.LinesHoldNoFeed | packages/adapter/framework/src/source-frontmatter.ts:378-396 | No line text holds a line feed |
| Frontmatter.SplitLinesWithOffsets | packages/adapter/framework/src/source-frontmatter.ts:378-396 | The loop computes the lines |
| Frontmatter.CountLeadingSpaces | packages/adapter/framework/src/source-frontmatter.ts:372-376 | The loop counts the leading spaces |
| Frontmatter.ParseTopLine | packages/adapter/framework/src/source-frontmatter.ts:57-90 | One line without indentation |
| Frontmatter.ParseNestedLine | packages/adapter/framework/src/source-frontmatter.ts:96-147 | One nested list item or map entry |
| Frontmatter.ParseLine | packages/adapter/framework/src/source-frontmatter.ts:48-147 | The body of the loop over lines |
| Frontmatter.ParseBoundedFrontmatter | packages/adapter/framework/src/source-frontmatter.ts:28-158 | The loop over lines computes the parsing function |
| FrontmatterRoundTrip.DocumentRoundTrip | packages/adapter/framework/src/source-frontmatter.ts:28-158 | A document of distinct keys with scalars, lists and maps, written plainly between two fences, and any body after it, parse into exactly its values, its keys in order and the body, without a diagnostic |
| FrontmatterRoundTrip.BlockParses | packages/adapter/framework/src/source-frontmatter.ts:48-147 | The lines of one key and what is below it add exactly its value |
| FrontmatterRoundTrip.TextReads | packages/adapter/framework/src/source-frontmatter.ts:250-274 | What a text that is none of the words reads as: a number, a quoted text, a plain text, or nothing |
| FrontmatterRoundTrip.WordsRead | packages/adapter/framework/src/source-frontmatter.ts:250-274 | How the empty text, the two truth values and the two spellings of null read |
| FrontmatterRoundTrip.QuotedReads | packages/adapter/framework/src/source-frontmatter.ts:250-274 | Text in apostrophes, each apostrophe in it doubled, reads as the text |
| FrontmatterRoundTrip.QuotedKeyReads | packages/adapter/framework/src/source-frontmatter.ts:355-363 | Where keys may be quoted, a key in apostrophes is the text in them, and is refused exactly when that text is empty |
| FrontmatterRoundTrip.JsonKeyReads | packages/adapter/framework/src/source-frontmatter.ts:355-363 | A key between quotation marks is the text that JSON reads there, and is refused exactly when that fails or is empty |
| FrontmatterRoundTrip.TokensReadEach | packages/adapter/framework/src/source-frontmatter.ts:235-248 | A list in brackets reads as its tokens, each by itself, and as nothing when one cannot be read |
| FrontmatterRoundTrip.CommentIsStripped | packages/adapter/framework/src/source-frontmatter.ts:331-345 | A comment goes together with the white space before it |
| FrontmatterReports.TopIsExact | packages/adapter/framework/src/source-frontmatter.ts:50-74 | A line that should start a key and is refused costs exactly its diagnostic and ends the container |
| FrontmatterReports.NewKeyIsExact | packages/adapter/framework/src/source-frontmatter.ts:75-90 | What a new key stores, what may follow below it, and the report of a value that cannot be read |
| FrontmatterReports.RefusedNestedLine | packages/adapter/framework/src/source-frontmatter.ts:92-127 | An indented line that is refused costs exactly its diagnostic |
| FrontmatterReports.ItemIsExact | packages/adapter/framework/src/source-frontmatter.ts:106-116 | An item is appended, or reported when it cannot be read |
| FrontmatterReports.EntryIsExact | packages/adapter/framework/src/source-frontmatter.ts:128-147 | An entry is stored unless its name is forbidden, its value is of the wrong kind, or the name was given, in this order |
| FrontmatterReports.MissingFence | packages/adapter/framework/src/source-frontmatter.ts:28-41 | Without an opening fence there is no frontmatter, and without a closing one it is reported |
| FrontmatterReports.HashInsideWord | packages/adapter/framework/src/source-frontmatter.ts:331-345 | A number sign inside a word begins no comment |

## Left out

- ReviewStore.HostReviewRecordStore.Put: a record has at most one parent, as every caller passes; the file that a replacement takes over is not modelled.
- TargetStdio.RestrictedTargetStdio.Handle: timers, streams and the service are events; lines cut from one chunk are separate events.
- ReplyCell.SharedReply.HostStep: atomics are sequentially consistent; JSON text and UTF-8 decoding of the reply are a parameter.
- PipeDispatch.RestrictedPipeDispatch.Perform: `fail` neither throws nor re-enters the dispatcher, and `complete` does nothing to it but invalidate it.
- ProbeSlot.EnvironmentSlot.Perform: closes made by the pool itself, which may hit a peer with leases, appear only as loss of availability.
- OperationManager.HostOperationManager.ReportProgress: the protocol parsers accept what they are given; cancellation signals and listeners are not modelled.
- CodeInventory.VerifyRestrictedCodeInventory: the tree does not change during the check, paths are sequences of segments, and timing and byte counters are dropped.
- ArtifactManifest.RequireManifest: starts from a parsed record with exactly its own keys.
- ArtifactTar.ValidateRegularTar: SHA-256 is any function of the bytes; gunzip is not part of this model.
- TargetCoordinator.CoordinateAnalysis: stated before option fingerprints are rebound; of a diagnostic only the reason code is kept.
- TargetMaterialization.CoordinateMaterialization: a unit is its fingerprint; diagnostics are dropped.
- SourceScan.TraverseSourceRead: the read-access port is a finite tree of answers; file contents, outcome ids, diagnostics and the extension fields are dropped.
- SourceTraversal.NothingInFlightIsSkipped: guards are decoded and listed names are not empty, as `packages/core/src/source-import/restricted-source-request.ts:224` and `packages/core/src/adapters/adapter-read-access.ts:288` check.
- OperationalRuns.RunKeeps: writing and reading the settings file, file identities, and a clock outside the safe integers while settings change are not modelled; filesystem answers are parameters.
- Frontmatter.ParseBoundedFrontmatter: number recognition and JSON string decoding are parameters; the typed accessors are not modelled.
- Inspection of rendered targets, handler registration checks, and candidate coalescing.
- Text with characters beyond U+FFFF: `char` has no surrogates, so such strings, which the sources order by their code units, are not represented.
- The rest of the worker, process launching, WSL, the ZIP writer, protocol schemas and projections.
