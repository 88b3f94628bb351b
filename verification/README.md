# turna: verified models of the stateful core

This project models the parts of the turna TURN server whose correctness depends on whole runs rather
than on single calls, and proves what those runs keep. Values, events and steps are functions; every
object the server updates in place is a class whose methods are proved equal to those functions.

* **Audit log.** `AuditChain` is the hash chain and its replay, `AuditLog` the recorder with its bounded
  tail, rotation and pruning, `AuditRotation` when it rotates and prunes and how large files get,
  `AuditRuns` its history and memory, `AuditRetention` what runs keep while the log calls itself healthy,
  `AuditSink` what they keep whatever fails, `AuditDegraded` when the files are
  still readable after failures, `TamperEvidence` what an accepted chain proves.
* **Management.** `Management` interleaves privileged handlers over that log: intent, effect, outcome.
  `ManagementStory` tells what is seen of each handler, record by record, and `ManagementRecords` where their
  records end up and how many there are.
* **Credential webhook.** `WebhookCache` is the bounded, coalescing, expiring cache; `WebhookRuns` runs it
  against a fetcher that completes each job it took once.
* **Cluster.** `Nodes` holds node lists, `HashRing` rendezvous placement and redirects, `Gossip` the
  membership loop, `GossipRuns` its invariants, `AntiEntropy` the merging of peer entries,
  `ClusterRouting` what members that agree on the living agree on, and `Convergence` when they do.
* **Authentication.** `Credentials`, `OAuthToken`, `Validation`, `RestCredential`, `UserIndex`, `Registry`
  and `Rotation`: checking a request, the token codec, time-limited credentials, the USERHASH index, many
  realms, and rotating a shared secret. `Acceptance` says who is let in without the validator, which is
  proved to accept exactly those requests.
* **Configuration.** `EnvExpand` is the one-pass `${VAR}` scanner, `RuntimeConfig` the versioned limits.
* `Wrappers`, `Binary` and `Sequences` hold shared vocabulary.

Hashes, MACs, ciphers, scores and message integrity are arbitrary functions. Where a result needs them to
be collision-free or authentic, the lemma asks for that only on the finite set of inputs in play. File
and queue operations succeed or fail as an input says. Clocks are inputs.

## What turned out not to hold

Each of these follows the code and states the exact condition.

* Pruning skips a segment it cannot unlink and goes on with newer ones, and the log stays healthy. The
  next open then refuses the gap. `HealthyRuns` gives the condition over whole runs: no segment is missing
  above one that is still there; `PruneReadableIff` gives it for one prune, `StuckSegmentRefused` a run.
* A write that fails can leave a line without its end, and the next text continues that line. A record
  written then is reported durable and is no line on disk: `DurableIsReadableIff`. It takes a handler that
  was already past its health check (`IntentCanBeSwallowed`), or a restart, which accepts a file that only
  lacks its last newline and is healthy again (`UnfinishedLineSwallowsNext`, `RestartSwallowsIntent`).
  `EffectIntentIsOnDisk` says that an effect's intent is lost in no other way.
* A failed write still advances the number. Once one has left nothing behind, the next text skips a number
  and the next open refuses the files. `AcceptedIff` and `WriteAcceptedIff` give the condition, for degraded
  logs as well.
* The chained pre-image joins actor, action and detail with a byte those texts may contain.
  `AmbiguousIff`: another record has the same pre-image exactly when one of the three holds that byte.
  `SplittableGoesUnseen` builds the other chain.
* The module documentation of `audit.rs` speaks of exactly one entry per operation. `FinishedRecords`: a
  finished handler has left exactly one iff it was refused permission or its intent was not durable, two
  iff it acted, none otherwise.
* A fetcher that goes away takes the queued jobs with it. New lookups fail closed, but the users of those
  jobs are told to wait for ever: `StrandedForEver`. In-flight users are those with an outstanding job iff
  no job was lost: `ReachableStates`.
* A cache lifetime is cut to 64 bits before it is added to the clock: `ExpiryExactIff`.
* The previous-secret counter moves before the password-algorithm check, so it also counts requests that
  are then refused. `DroppingUnnoticedIff` says what dropping the secret changes; an unmoved counter is
  still enough.
* User management looks at the base realm first and validation at tenants first. Configuration refuses
  two tenants with one realm but not a tenant with the base realm. `ManagementReachesIff` and
  `ShadowedBaseIsInert` say what happens then.
* A token's issue time is shifted left by 16 in 64 bits: `RoundTripIff` holds below 2^48 seconds only.
* The gossip documentation promises that crashed nodes go away after the timeout. Expiry plants no
  tombstone. `CrashedNodeStaysGoneIff`: once expired a node stays out exactly when nothing names it any
  more. Two survivors whose frames list what they believe keep naming it to each other for ever:
  `SilentNodeSurvives`.
* Hearing one frame from each other makes two members agree on a third node exactly when neither suppresses
  a node the other counts as alive and equal numbers come with equal addresses: `ExchangeConvergesIff`.
* Merging peer entries depends on their order exactly when two newest entries for a node disagree:
  `OrderIrrelevantIff`.
* While the target of a drain redirect still has the draining node in its ring, it sends the client back
  exactly when that node owns the key: `StaleRingReturnsIff`.

## Model

| member | source | states |
|---|---|---|
| `AuditChain.PreimageLayout` | crates/control/src/audit.rs:111-138 | where each field of a record sits in the hashed bytes, and that the byte between them is 0x1f |
| `AuditChain.SamePreimageIff` | crates/control/src/audit.rs:111-138 | two records hash the same bytes iff all fixed-width fields and the joined text agree |
| `AuditChain.PreimageInjective` | crates/control/src/audit.rs:111-138 | with separator-free actor and action the pre-image determines the record, for any detail |
| `AuditChain.UnsplittableIsUnique` | crates/control/src/audit.rs:111-138 | a record with no separator in its texts shares its pre-image with no other record at all |
| `AuditChain.AmbiguousIff` | crates/control/src/audit.rs:111-138 | some other record has the same pre-image iff one of the texts holds a separator |
| `AuditChain.ShiftedTwin` | crates/control/src/audit.rs:111-138 | constructs that other record |
| `AuditChain.ReplayLine` | crates/control/src/audit.rs:648-722 | one line either extends the verified summary or is the fault reported |
| `AuditChain.Replay` | crates/control/src/audit.rs:639-732 | replay succeeds iff the concatenated files are an unbroken chain, returns its head and newest entries, and otherwise names a line after a verified prefix that breaks it |
| `AuditChain.FaultInFiles` | crates/control/src/audit.rs:639-732 | a reported fault means the contents are not an acceptable chain |
| `AuditLog.RemoveFiles` | crates/control/src/audit.rs:213-244 | unlinking one by one removes exactly the victims that can be removed |
| `AuditLog.AppendLands` | crates/control/src/audit.rs:160-211 | a durable append of a record above all segment names leaves it on disk |
| `AuditLog.Recorder.OpenWithRotation` | crates/control/src/audit.rs:362-396 | opening succeeds iff the files on disk are an acceptable chain and the live file opens, and resumes from its head |
| `AuditLog.Recorder.Prune` | crates/control/src/audit.rs:213-244 | prunes the oldest segments beyond the limit |
| `AuditLog.Recorder.Rotate` | crates/control/src/audit.rs:179-211 | renames a full live file to a segment and reopens, with every failure outcome |
| `AuditLog.Recorder.AppendLine` | crates/control/src/audit.rs:160-177 | reports success only for a written and synced line, keeps the descriptor on a file, and leaves a durable record that starts a line of its own as a line on disk, through any rotation and prune it causes |
| `AuditLog.Recorder.RecordChecked` | crates/control/src/audit.rs:410-483 | seals the next entry onto the chain, keeps the bounded tail, and reports durability; a failed append still advances the chain |
| `AuditLog.Recorder.Verify` | crates/control/src/audit.rs:487-513 | the retained tail's length iff every link checks, else the number of the first entry that does not |
| `AuditRotation.AppendClosesIff` | crates/control/src/audit.rs:160-211 | an append closes a segment iff write, sync and rename succeed, there is a live file and with this line it has reached its limit; the segment is that file with the line at its end, and otherwise the segments stay |
| `AuditRotation.AppendDurableIff` | crates/control/src/audit.rs:160-211 | durable iff written and synced and no rename was left without a new live file |
| `AuditRotation.AppendCounts` | crates/control/src/audit.rs:160-211 | the byte count moves with written and synced lines only, and starts over with a new live file |
| `AuditRotation.PruneKeepsIff` | crates/control/src/audit.rs:213-244 | a prune leaves a segment iff it cannot be unlinked, there is no limit, or fewer than the limit are newer |
| `AuditRotation.SegmentsAreFull` | crates/control/src/audit.rs:160-211 | over every undegraded run with one size limit, every segment ever closed has reached it, and unless a rename failed the live file is below it |
| `AuditRotation.FreshSegmentsAreFull` | crates/control/src/audit.rs:362-396 | in particular from an empty directory |
| `AuditRotation.EntryShows` | crates/control/src/audit.rs:414-451 | an entry carries the request as it stands, the clock and the next number, and continues the chain |
| `AuditRotation.FirstEntryLinksToZero` | crates/control/src/audit.rs:38-41 | the first entry is number 1 and links to 32 zero bytes |
| `AuditRotation.OpenCounts` | crates/control/src/audit.rs:362-396 | opening counts the live file's bytes and takes the limits as given, the size limit at least 1 |
| `AuditRotation.RecordShows` | crates/control/src/audit.rs:452-483 | a record advances number and head, keeps the newest entries in the tail, and degrades the log iff it was not durable |
| `AuditRuns.SegFilesInKeyOrder` | crates/control/src/audit.rs:603-633 | segments are listed in ascending key order, each once |
| `AuditRuns.SegFilesDropOldest` | crates/control/src/audit.rs:213-244 | dropping the lowest keys drops the first files |
| `AuditRuns.RestartResumes` | crates/control/src/audit.rs:362-396 | the files of a healthy log are accepted and reopening resumes exactly its number, head hash and newest entries |
| `AuditRuns.MemoryFollowsHistory` | crates/control/src/audit.rs:414-483 | over any run of records, failed ones included, number, head hash and tail agree with everything recorded |
| `AuditRuns.FirstOpenHealthy` | crates/control/src/audit.rs:362-396 | an empty directory starts such a run |
| `AuditRuns.TailAlwaysVerifies` | crates/control/src/audit.rs:414-513 | the in-memory tail chains and ends at the head in every run, failures included |
| `AuditRetention.PruneReadableIff` | crates/control/src/audit.rs:213-244 | the files left by a prune are accepted at the next open iff no older segment outlives a removed newer one |
| `AuditRetention.WriteKeepsHealthyIff` | crates/control/src/audit.rs:160-244 | a record that leaves a healthy log undegraded leaves its files the newest part of the history iff the prune it caused went oldest first |
| `AuditRetention.ReadableIff` | crates/control/src/audit.rs:213-244 | the files of an undegraded log are accepted, and are the newest part of the history, iff no segment is missing above one still there |
| `AuditRetention.HealthyRuns` | crates/control/src/audit.rs:160-483 | over every run of records, rotations, failed renames, prunes with any failing unlinks and reopenings that stays undegraded, memory and the segments ever closed plus the live file are a contiguous newest part of the history ending at the head, and the directory is readable iff it has no gap |
| `AuditRetention.StuckSegmentRefused` | crates/control/src/audit.rs:213-244 | a run from an empty directory that is healthy throughout and whose files the next open refuses, until one more prune succeeds |
| `AuditSink.SoundRuns` | crates/control/src/audit.rs:160-396 | over every run with any failures and restarts, the descriptor is on the live file or on a segment with no live file beside it, and no segment is named above the head |
| `AuditSink.RunsAreSound` | crates/control/src/audit.rs:362-396 | every run from an empty directory is such a run |
| `AuditSink.NeverOverwrites` | crates/control/src/audit.rs:179-211 | in every such state a rotation lands on a free name, and no segment still there changes except the one the descriptor was left on, which grows |
| `AuditSink.DurableIsReadableIff` | crates/control/src/audit.rs:410-483 | a record reported durable, by a log healthy or degraded, is a line on disk iff the file did not end in an unfinished line |
| `AuditSink.AppendKeepsFiled` | crates/control/src/audit.rs:160-244 | a line written in full stays in its file, or in a segment pruned since, whatever happens next |
| `AuditSink.UnfinishedLineSwallowsNext` | crates/control/src/audit.rs:362-396 | after a line that lacks its newline a restart is healthy, its next record is reported durable, is no line on disk, and the next open refuses the file |
| `AuditDegraded.FaithfulRuns` | crates/control/src/audit.rs:160-483 | over every run, whatever fails and however often it restarts, memory is in step with one chained history, of which a restart keeps the part up to the last line, and every line on disk is a record of it or does not parse |
| `AuditDegraded.AcceptedIff` | crates/control/src/audit.rs:639-732 | the files of such a log, degraded or not, are accepted iff every line parses and no number is skipped |
| `AuditDegraded.RunAcceptedIff` | crates/control/src/audit.rs:362-396 | in particular after any run from an empty directory |
| `AuditDegraded.ReopenInStep` | crates/control/src/audit.rs:362-396 | opening accepted files of a history resumes it at their last record, with the newest entries up to there |
| `AuditDegraded.WriteAcceptedIff` | crates/control/src/audit.rs:160-211 | a write that prunes nothing, failed or not, leaves acceptable files iff they were acceptable and it left no text, or a whole record on a line of its own while no earlier one is missing |
| `AuditDegraded.SkippedNumberIsRefused` | crates/control/src/audit.rs:160-167 | a record that left nothing, then any that leaves text: the next open refuses the files, if they held a record |
| `TamperEvidence.TamperEvident` | crates/control/src/audit.rs:639-732 | accepted contents with the true head hash are exactly a newest part of the history, if no recorded text holds a separator |
| `TamperEvidence.TamperEvidentAnyDetail` | crates/control/src/audit.rs:639-732 | the same for any detail text when actors and actions on both sides hold no separator |
| `TamperEvidence.SplittableGoesUnseen` | crates/control/src/audit.rs:111-138 | otherwise a different chain of the same length verifies to the same head |
| `Management.RunsKeepLocal` | crates/control/src/grpc.rs:468-509 | each handler's trace stays guarded under every interleaving of all handlers |
| `Management.EffectNeedsDurableIntent` | crates/control/src/grpc.rs:792-1086 | every effect is preceded by its own handler's durable intent, and no handler acts twice |
| `Management.DegradedMeansNoEffect` | crates/control/src/audit.rs:517-519 | a handler that began while the log was degraded never has an effect |
| `Management.HandlersDriveTheLog` | crates/control/src/grpc.rs:578-684 | any interleaving drives the log through an ordinary run whose history is what the trace notes |
| `Management.EffectsAreOnRecord` | crates/control/src/grpc.rs:578-684 | while the log is undegraded the intent behind every effect is in the history, of which the segments ever closed plus the live file are the newest part |
| `Management.Service.Audit` | crates/control/src/audit.rs:410-413 | writes one record and notes it |
| `Management.AcceptableIff` | crates/control/src/grpc.rs:578-606 | which requests pass the early checks, condition by condition |
| `Management.NotesShow` | crates/control/src/grpc.rs:1047-1081 | what intent, denial and outcome records say: actor, operation, detail, and success iff the core call succeeded and settings were applied |
| `Management.Service.Authorize` | crates/control/src/grpc.rs:1200-1233 | passes iff permitted and not revoked; otherwise leaves one record with the caller and which of the two it was |
| `Management.Service.Perform` | crates/control/src/grpc.rs:1055-1086 | records the intent; acts and records the true outcome iff that was durable |
| `Management.Service.Handle` | crates/control/src/grpc.rs:1034-1086 | which status is returned when, in terms of the request; acts only when acceptable, undegraded and with a durable intent, leaving intent, effect and outcome in that order; exactly one record for a denial or an intent that was not durable, and none for the other refusals |
| `ManagementStory.HandlersTellTheirStory` | crates/control/src/grpc.rs:468-509 | under every interleaving and any failures, what is seen of a handler is a denial, or nothing, or its intent and then, iff that was durable, its one effect and the true outcome |
| `ManagementStory.FinishedStory` | crates/control/src/grpc.rs:468-509 | so for every finished handler; one of which nothing is seen was unacceptable or met a degraded log |
| `ManagementRecords.EffectIntentIsOnDisk` | crates/control/src/grpc.rs:578-684 | under any interleaving and any failures, the durable intent before an effect is a line of a file still there or pruned since, iff it continued no unfinished line; it can do so only if the record before it failed, or as the first record on a file that was opened without its last newline |
| `ManagementRecords.FinishedRecords` | crates/control/src/grpc.rs:468-509 | a finished handler left two records iff it acted, one iff it was refused permission or its intent was not durable, none otherwise |
| `ManagementRecords.IntentCanBeSwallowed` | crates/control/src/audit.rs:160-169 | two handlers past their checks: one intent stops in mid-line, the other is reported durable, acts, and is no line of any file |
| `ManagementRecords.RestartSwallowsIntent` | crates/control/src/audit.rs:362-396 | a restarted, healthy service on a file without its last newline: nothing fails, the first intent is reported durable, its handler acts, and it is no line of any file |
| `WebhookCache.VictimBounds` | crates/auth/src/webhook.rs:436-464 | what the eviction scan has established after any stretch of its sample |
| `WebhookCache.VictimIs` | crates/auth/src/webhook.rs:436-464 | the victim is never in flight, is expired if the sample holds an expired entry, else expires soonest; none iff the whole sample is in flight |
| `WebhookCache.StoredWhileWithin` | crates/auth/src/webhook.rs:391-413 | an answer is stored until exactly the end of its first second or of the time its kind of answer is kept, the endpoint's hint only shortening that |
| `WebhookCache.CredentialCache.Evict` | crates/auth/src/webhook.rs:436-464 | the scanning loop removes that victim |
| `WebhookCache.CredentialCache.Lookup` | crates/auth/src/webhook.rs:297-388 | answers, coalesces, throttles, evicts or starts a fetch, with its counters |
| `WebhookCache.CredentialCache.Fetch` | crates/auth/src/webhook.rs:343-388 | queues the job and marks the user in flight iff the queue takes it, else leaves no entry and wakes the waiters; other users are untouched |
| `WebhookCache.CredentialCache.Finish` | crates/auth/src/webhook.rs:391-424 | the answer given is the outcome's, exactly while it holds; the waiters are woken, other users are untouched, and an unknown user changes nothing |
| `WebhookCache.CredentialCache.DropExpired` | crates/auth/src/webhook.rs:427-431 | no lookup now or later can tell: whatever could answer still does, nothing that cannot is left, in-flight entries are untouched |
| `WebhookRuns.RunsKeepInv` | crates/auth/src/webhook.rs:316-431 | every lookup, take, completion, sweep and loss of the fetcher keeps the invariant |
| `WebhookRuns.ReachableStates` | crates/auth/src/webhook.rs:316-431 | in every reachable state table and queue are bounded, each job is in flight once, the in-flight users are those with an outstanding job iff none was lost with the fetcher, every waiter's fetch is unfinished or released, jobs queued = fetches started = misses minus lookups the queue refused, and rejections are those plus lookups that found no room |
| `WebhookRuns.LookupCounts` | crates/auth/src/webhook.rs:316-388 | a lookup is a miss iff it queued a job or met a full or closed queue after finding room, and rejected iff that queue refused it or the scan met only in-flight entries |
| `WebhookRuns.CompletionFindsItsSlot` | crates/auth/src/webhook.rs:391-424 | a completion always finds its slot in flight |
| `WebhookRuns.StrandedIsPending` | crates/auth/src/webhook.rs:316-388 | a lookup that may fetch joins a lost job and queues nothing |
| `WebhookRuns.StrandedForEver` | crates/auth/src/webhook.rs:316-464 | in every continuation a user whose job was lost stays in flight on a channel that is never released |
| `WebhookRuns.StepIsNoted` | crates/auth/src/webhook.rs:316-431 | what each event adds to a run: waiters handed out, jobs taken in queue order, the latest completion, the time |
| `WebhookRuns.WhoWaitsIsServed` | crates/auth/src/webhook.rs:343-424 | whoever is told to wait is woken, or still waits on that channel for an unfinished or lost job of that user, in every later state |
| `WebhookRuns.QueuedJobIsLost` | crates/auth/src/webhook.rs:373-386 | one lookup and a fetcher that goes away before taking the job are enough |
| `WebhookRuns.HitIsLatestCompletion` | crates/auth/src/webhook.rs:267-291 | a positive answer is the latest completion verbatim, given only while that holds |
| `WebhookRuns.NoUserIsLatestCompletion` | crates/auth/src/webhook.rs:267-291 | a fetching lookup says "no such user" only on a latest, unexpired negative completion |
| `WebhookRuns.UnavailableIsLatestCompletion` | crates/auth/src/webhook.rs:267-291 | "unavailable" without a refusal rests on a latest, unexpired failure |
| `WebhookRuns.AnsweredExactlyWithin` | crates/auth/src/webhook.rs:297-413 | after a completion that is kept, every lookup is answered with it exactly while it holds and touches nothing but a counter; from then on lookups fetch anew, are throttled or refused, or if they may not fetch are told there is no such user |
| `WebhookRuns.CountersTell` | crates/auth/src/webhook.rs:267-388 | which counter a lookup moves, by its result |
| `WebhookRuns.EvictionsTell` | crates/auth/src/webhook.rs:436-464 | an eviction is counted iff one other user left the table, who was not in flight |
| `WebhookRuns.PeekTells` | crates/auth/src/webhook.rs:297-309 | a lookup that must not fetch tells what the table holds, never waits and changes nothing but a counter |
| `WebhookRuns.SweepIsInvisible` | crates/auth/src/webhook.rs:427-431 | a sweep takes exactly the settled answers that are over, and no later lookup can tell |
| `WebhookRuns.UnusableNames` | crates/auth/src/webhook.rs:322-324 | names that are empty or above 512 bytes are unknown and fetch nothing |
| `WebhookRuns.ThrottledIff` | crates/auth/src/webhook.rs:331-338 | throttled iff it would have had to fetch without budget |
| `WebhookRuns.ExpiryExactIff` | crates/auth/src/webhook.rs:391-413 | the stored expiry is the promised one iff the lifetime fits 64 bits or the clock saturates |
| `WebhookRuns.FreshStays` | crates/auth/src/webhook.rs:316-431 | only eviction takes an unexpired answer away or changes it |
| `WebhookRuns.FreshOverRuns` | crates/auth/src/webhook.rs:316-431 | so it stays over any run that does not evict it |
| `WebhookRuns.AnsweredUntilExpiry` | crates/auth/src/webhook.rs:391-413 | until the expiry stored with it, an answer that is not evicted is what lookups get, and no job for the user is queued; that expiry is the promised one, at least a second away, if the lifetime fits 64 bits |
| `WebhookRuns.LookupCountedOnce` | crates/auth/src/webhook.rs:316-388 | a lookup moves exactly one counter or queues one job |
| `Nodes.LessIff` | crates/cluster/src/hash_ring.rs:22-45 | ids are ordered as in a dictionary |
| `Nodes.SortedUnique` | crates/cluster/src/hash_ring.rs:22-26 | a strictly id-sorted list is determined by its nodes |
| `Nodes.NormalizeDistinct` | crates/cluster/src/hash_ring.rs:22-26 | for distinct ids sort and dedup keep every node and dedup changes nothing |
| `Nodes.NormalizeAny` | crates/cluster/src/hash_ring.rs:22-26 | for any list the result is strictly sorted and holds exactly the first node of each id |
| `HashRing.OwnerIsHeaviest` | crates/cluster/src/hash_ring.rs:28-45 | the scan returns the node that beats every other by score, then id |
| `HashRing.OwnerIff` | crates/cluster/src/hash_ring.rs:28-45 | a node is the owner iff it is heaviest |
| `HashRing.RebuildWithout` | crates/cluster/src/hash_ring.rs:54-63 | dropping an id and building the ring commute, for any list |
| `HashRing.PlacementDependsOnSet` | crates/cluster/src/hash_ring.rs:22-45 | for distinct ids the ring depends only on the set of nodes |
| `HashRing.JoinMovesOnlyToNewcomer` | crates/cluster/src/hash_ring.rs:28-45 | a joining node takes exactly the keys for which it beats the owner, and nothing else moves |
| `HashRing.LeaveMovesOnlyItsKeys` | crates/cluster/src/hash_ring.rs:28-45 | a leaving node moves only its own keys |
| `HashRing.ExcludingIsRebuilding` | crates/cluster/src/hash_ring.rs:54-63 | excluding a node gives the owner in the ring rebuilt without it |
| `HashRing.RedirectIff` | crates/relay/src/processor.rs:1766-1793 | a client is sent away iff it is new and the node drains or is not the owner, to the heaviest node that may take it |
| `HashRing.OneRedirectSettles` | crates/relay/src/processor.rs:1766-1793 | a redirected client is served where it lands, draining or not, once the target has dropped the draining node |
| `HashRing.StaleRingReturnsIff` | crates/relay/src/processor.rs:1766-1793 | a target that has not dropped it sends the client back iff the draining node owns the key |
| `HashRing.Ring.constructor` | crates/cluster/src/hash_ring.rs:22-26 | a new ring is sorted and holds the first node of each id |
| `HashRing.Ring.UpdateNodes` | crates/cluster/src/hash_ring.rs:47-49 | so does an updated one |
| `HashRing.Ring.GetNode` | crates/cluster/src/hash_ring.rs:28-45 | nothing iff the ring is empty, else the heaviest node |
| `HashRing.Ring.GetNodeExcluding` | crates/cluster/src/hash_ring.rs:54-63 | the heaviest of the other nodes, or nothing iff there are none |
| `Gossip.AnyWalkGivesTopology` | crates/cluster/src/gossip.rs:477-491 | every iteration order yields the one sorted list of self and peers, and dedup drops nothing |
| `Gossip.TopologyUnique` | crates/cluster/src/gossip.rs:477-497 | there is only one such list |
| `Gossip.ApplyAllStaysTidy` | crates/cluster/src/gossip.rs:369-475 | no sequence of operations puts the local id in a map, a node in both maps, or a peer under another id |
| `Gossip.GossipMember.constructor` | crates/cluster/src/gossip.rs:139-168 | starts empty and publishes self |
| `Gossip.GossipMember.ObservePeer` | crates/cluster/src/gossip.rs:369-420 | records news of a peer and says whether its address or presence changed |
| `Gossip.GossipMember.ApplyLeaving` | crates/cluster/src/gossip.rs:435-475 | evicts, extends the tombstone, or ignores |
| `Gossip.GossipMember.CollectNodes` | crates/cluster/src/gossip.rs:483-491 | the collected list normalises to the topology in whatever order the map yields |
| `Gossip.GossipMember.PublishTopology` | crates/cluster/src/gossip.rs:477-497 | publishes and delivers the topology iff it differs from the last |
| `Gossip.GossipMember.HandleTick` | crates/cluster/src/gossip.rs:182-194 | expires silent peers and old tombstones, publishing if a peer went |
| `Gossip.GossipMember.ObserveAll` | crates/cluster/src/gossip.rs:252-257 | merges the entries of a frame in order, each at its own clock reading |
| `Gossip.GossipMember.HandleFrame` | crates/cluster/src/gossip.rs:229-261 | drops foreign clusters, applies the sender, then its entries, then publishes if anything changed |
| `GossipRuns.RunsStayTidy` | crates/cluster/src/gossip.rs:369-475 | in every reachable state the local id is in neither map and the maps are disjoint |
| `GossipRuns.StepStaysCurrent` | crates/cluster/src/gossip.rs:171-261 | every event delivers the new topology iff it differs from the previous one |
| `GossipRuns.TopologyAlwaysCurrent` | crates/cluster/src/gossip.rs:171-261 | after every event the published list is the sorted list of self and the current peers, self once, and is the last one delivered, with no repeats |
| `GossipRuns.StoredSeqIsMax` | crates/cluster/src/gossip.rs:387-419 | a peer's stored number is the highest heard since it was inserted |
| `GossipRuns.LeavingEvictsIff` | crates/cluster/src/gossip.rs:435-475 | a leaving frame evicts iff it is above all of those, and changes nothing otherwise |
| `GossipRuns.SuppressionEndsIff` | crates/cluster/src/gossip.rs:382-386 | one operation ends a suppression iff it is direct word from the node or a reaping a grace period after its last leaving frame |
| `GossipRuns.QuietStaysSuppressed` | crates/cluster/src/gossip.rs:435-475 | until then the node stays out, with its tombstone as renewed |
| `GossipRuns.DrainSuppression` | crates/cluster/src/gossip.rs:135-195 | over every run, an evicted node that sends nothing but leaving frames is in neither the peers nor the published list, whatever indirect gossip arrives, through every reaping within three intervals, or five seconds if that is longer, of its latest leaving frame |
| `GossipRuns.SuppressionLiftedIff` | crates/cluster/src/gossip.rs:135-195 | and exactly a later reaping, or word from the node itself, ends that |
| `GossipRuns.EventOpsAre` | crates/cluster/src/gossip.rs:171-257 | what a tick, a leaving frame and any other frame of this cluster do to the maps |
| `GossipRuns.ForeignFramesAreIgnored` | crates/cluster/src/gossip.rs:216-236 | frames of another cluster or that fail authentication change nothing |
| `GossipRuns.LeavingNodeStaysOut` | crates/cluster/src/gossip.rs:135-257 | event by event: a peer that says with a newer number that it is leaving is in neither the peers nor the published list until it says it stays or a tick falls after its latest leaving frame has ceased to count |
| `GossipRuns.ReapingDropsIff` | crates/cluster/src/gossip.rs:182-191 | a peer goes at a reaping iff that is later than its last refresh plus the configured timeout, or 30 seconds if none is set |
| `GossipRuns.ReturnsIff` | crates/cluster/src/gossip.rs:369-420 | a node in neither map becomes a peer iff something names it |
| `GossipRuns.CrashedNodeStaysGoneIff` | crates/cluster/src/gossip.rs:182-195 | once the timeout after its last refresh has passed the next reaping drops a node, and it stays out through every later state iff nothing names it any more |
| `GossipRuns.CrashedNodeGoes` | crates/cluster/src/gossip.rs:171-195 | over runs, such a node is then in neither the peers nor the published list |
| `AntiEntropy.EntryOpsAt` | crates/cluster/src/gossip.rs:252-257 | each entry of a frame is merged in turn, as hearsay, at its own clock reading |
| `AntiEntropy.MergeGivesExpected` | crates/cluster/src/gossip.rs:252-257 | merging entry by entry, at any clock readings, gives each node the number and addresses of its first newest entry, if that beats what is stored and the node is not suppressed |
| `AntiEntropy.OrderIrrelevantIff` | crates/cluster/src/gossip.rs:252-257 | order, repetition and clock readings are irrelevant to numbers and addresses iff the newest effective entries of each node agree |
| `AntiEntropy.ConsistentEntriesMergeAnyhow` | crates/cluster/src/gossip.rs:387-419 | in particular when each id and number names one address pair |
| `AntiEntropy.Relearned` | crates/cluster/src/gossip.rs:405-418 | an unknown node listed in any frame is inserted as if just seen |
| `AntiEntropy.SilentNodeSurvives` | crates/cluster/src/gossip.rs:171-195 | for any number of timeouts there are runs of two survivors from the start in which a node that spoke once to each is still a peer of both, every later frame being the other's, numbered by round and listing what it then believes |
| `ClusterRouting.RingIsTheLiving` | services/node/src/main.rs:1518-1560 | in every run the ring built from the last delivery is the sorted list of the living nodes |
| `ClusterRouting.SameLivingSameOwners` | crates/cluster/src/hash_ring.rs:22-45 | members with the same living nodes give every key the same owner, whatever runs they went through |
| `Convergence.HearGives` | crates/cluster/src/gossip.rs:235-257 | hearing a member's frame lists it at its own address and its advertised gossip address, or the packet's if that is unusable, and takes over its word on a third node iff that is newer and not suppressed |
| `Convergence.ExchangeConvergesIff` | crates/cluster/src/gossip.rs:235-257 | one frame each way leaves both knowing the same of a third node iff neither suppresses a peer of the other and equal numbers mean equal addresses |
| `Convergence.ExchangeAgreesOnOwners` | crates/cluster/src/hash_ring.rs:22-45 | then, whatever runs they went through, both count the same nodes as alive and give every key the same owner |
| `ClusterRouting.AlwaysAnOwner` | crates/cluster/src/hash_ring.rs:28-45 | every key has a living owner at every member |
| `ClusterRouting.DrainHandsOver` | crates/relay/src/processor.rs:1766-1793 | a draining member redirects each new client to a member that serves it, once that one sees the same nodes without the draining one |
| `OAuthToken.EncodeAccessToken` | crates/auth/src/oauth_token.rs:51-90 | minting succeeds iff the session key and the sealing key have a legal length, and builds the token of section 6.2 of RFC 7635 |
| `OAuthToken.BlockParses` | crates/auth/src/lib.rs:1030-1049 | the sealed block parses back to its fields |
| `OAuthToken.RingOpens` | crates/auth/src/lib.rs:1020-1028 | trial decryption finds the plaintext under any ring holding the sealing key |
| `OAuthToken.MintedOpens` | crates/auth/src/lib.rs:1006-1049 | a minted token opens to its session key, fixed-point time and lifetime |
| `OAuthToken.RoundTripIff` | crates/auth/src/oauth_token.rs:99-110 | inspecting a minted token returns its contents iff the issue time is below 2^48 |
| `OAuthToken.Remaining` | crates/auth/src/lib.rs:986-994 | now + remaining never passes the token's end, and remaining is at most twice the lifetime plus 4 |
| `OAuthToken.AcceptedNeverOutlives` | crates/auth/src/lib.rs:893-940 | the same for every request the validator accepts |
| `OAuthToken.FreshIff` | crates/auth/src/lib.rs:959-962 | freshness is a distance below lifetime plus skew, both ways, from the issue time modulo 2^48 |
| `OAuthToken.MintedAcceptedIff` | crates/auth/src/lib.rs:893-940 | a minted token is accepted iff fresh and the request is signed with its session key, and what is returned |
| `Acceptance.LongTermAcceptsIff` | crates/auth/src/lib.rs:396-632 | a password realm accepts with this key and name iff the request is about that user, in this realm, with a fitting algorithm and an allowed digest, and signed with that digest's key of the user or, for unknown names, of the webhook |
| `Acceptance.LongTermWaits` | crates/auth/src/lib.rs:438-500 | otherwise a webhook's pending, throttled, unavailable or negative answer is passed on |
| `Acceptance.RefusedUnseen` | crates/auth/src/lib.rs:361-436 | what is missing, of another realm or under an unknown hash is refused, and as what |
| `Acceptance.ParseU64Iff` | crates/auth/src/lib.rs:511 | a time stamp reads as a number iff it is decimal digits, perhaps after a plus sign, within 64 bits |
| `Acceptance.SplitAtColonIff` | crates/auth/src/lib.rs:508-510 | a name splits at its first colon, or not at all iff it has none |
| `Acceptance.SharedAcceptsIff` | crates/auth/src/lib.rs:501-632 | a shared-secret realm accepts with this key iff the name's expiry is not over and the request is signed with that digest's key under the current secret, or only under the previous one, which is then noted |
| `Acceptance.CandidatesIff` | crates/auth/src/lib.rs:893-940 | which keys a token is tried with: the first of its kid, or all unless selection is strict |
| `Acceptance.AcceptedToken` | crates/auth/src/lib.rs:893-1049 | an accepted token was opened by such a key, holds the session key the request is signed with, is fresh, and may be used until its own end |
| `Acceptance.TokenAcceptsIff` | crates/auth/src/lib.rs:893-1049 | a token such a key opens, and no other to something else, is accepted iff it holds a session key the request is signed with and is fresh within its lifetime and five seconds |
| `Acceptance.RefusedToken` | crates/auth/src/lib.rs:893-940 | the errors of a refused one |
| `Validation.RotationIsExact` | crates/auth/src/lib.rs:501-632 | with two secrets a request is accepted iff either alone accepts it, with that secret's result; it differs from the new secret alone iff it is counted and its algorithm fits |
| `Rotation.CountedIff` | crates/auth/src/lib.rs:573-596 | a request needs the previous secret, by its own guards, iff it is counted and its algorithm fits |
| `RestCredential.ParseU64Printed` | crates/auth/src/lib.rs:511 | reading a printed number gives it back up to 64 bits and refuses larger ones |
| `RestCredential.SplitMinted` | crates/auth/src/lib.rs:508-510 | a minted name splits into its expiry and user at the first colon, whatever the user contains |
| `RestCredential.SubjectIsTheUser` | crates/auth/src/lib.rs:167-182 | every credential minted for a user counts against that user |
| `RestCredential.MintedAcceptedIff` | crates/auth/src/lib.rs:396-632 | a correctly signed credential is accepted under a current or previous secret iff unexpired within the skew and its digest is allowed, and with which error otherwise |
| `RestCredential.AcceptedIsSigned` | crates/auth/src/lib.rs:396-632 | nothing is accepted that is not unexpired and signed under a configured secret |
| `UserIndex.AddKeepsIndexed` | crates/auth/src/lib.rs:729-803 | adding or loading a user keeps the index sound, and complete for names with different hashes |
| `UserIndex.RemoveKeepsIndexed` | crates/auth/src/lib.rs:753-773 | so does removing one |
| `UserIndex.AddKeepsOthers` | crates/auth/src/lib.rs:729-803 | adding or loading sets that user's keys and index entry and nothing else |
| `UserIndex.RemoveKeepsOthers` | crates/auth/src/lib.rs:753-773 | removing takes that user and an index entry naming them, and nothing else |
| `UserIndex.BuiltFollows` | crates/auth/src/lib.rs:676-699 | a configured backend has exactly the listed users under their last passwords, the secrets, or the keys of its recipe |
| `UserIndex.BuiltIsIndexed` | crates/auth/src/lib.rs:676-699 | a configured backend starts that way, in its realm |
| `UserIndex.HashResolvesIff` | crates/auth/src/lib.rs:361-384 | a USERHASH resolves to a name iff that is the user with the hash |
| `UserIndex.HashAndNameAgree` | crates/auth/src/lib.rs:396-632 | a known user gets the same outcome and key by USERHASH as by USERNAME |
| `UserIndex.AddedUserAcceptedIff` | crates/auth/src/lib.rs:396-632 | once added, a user is accepted by name or hash iff the digest is allowed, the algorithm fits and the request is signed with their password's key, and with which error otherwise |
| `UserIndex.RemovedUserIsRefused` | crates/auth/src/lib.rs:753-773 | once removed, a request under the name or its hash is accepted iff a configured webhook has keys for the name and the request carries the name and is signed with them; without a webhook, by hash, or if the webhook knows no such user, the credentials are invalid |
| `UserIndex.SharedHashHidesTheEarlier` | crates/auth/src/lib.rs:753-773 | two users with one hash: the earlier is unreachable by hash, even after the later is removed |
| `UserIndex.UserTable.Load` | crates/auth/src/lib.rs:785-803 | writes one entry of each map, keeps all others and keeps the index in order |
| `UserIndex.UserTable.Remove` | crates/auth/src/lib.rs:753-773 | removes the user, and the index entry only if it is theirs, and keeps all other users and entries |
| `Registry.StepKeepsSane` | crates/auth/src/tenant.rs:118-312 | every operation keeps each backend in its realm with its index in order |
| `Registry.RunsKeepSane` | crates/auth/src/tenant.rs:118-312 | over every run; realms, tenants and mechanisms never change, so neither does the answer to whether all realms support USERHASH |
| `Registry.ConfiguredIsSane` | crates/auth/src/tenant.rs:78-96 | a registry built from configuration starts that way |
| `Registry.RealmsAreIsolated` | crates/auth/src/tenant.rs:216-262 | changing one realm changes no answer in another |
| `Registry.UsersAreIsolated` | crates/auth/src/tenant.rs:279-312 | adding, loading or removing a user changes no answer to a request that names someone else, by name or by hash |
| `Registry.AcceptedInItsRealm` | crates/auth/src/tenant.rs:216-262 | an accepted request is signed with the returned key, validated by the backend filed under the realm it names, and resolved to the tenant filed there, with that backend's key, user and lifetime |
| `Registry.RefusedByItsRealm` | crates/auth/src/tenant.rs:216-262 | a refusal is that backend's; no realm is missing credentials and an unknown one invalid |
| `Registry.UsedByItsRealm` | crates/auth/src/tenant.rs:216-262 | the previous secret counts as used iff the realm's own backend used it, and by requests only |
| `Registry.ManageTakesEffect` | crates/auth/src/tenant.rs:279-312 | a user operation reaches the base realm's backend, or else the tenant's, if that keeps users, with the effect asked for, and otherwise does nothing |
| `Registry.AllSupportIff` | crates/auth/src/tenant.rs:172-178 | USERHASH is offered iff no backend lacks a user table |
| `Registry.SwapTakesEffect` | crates/auth/src/tenant.rs:118-159 | a swap succeeds iff realm and mechanism match; it then puts the recipe's users, secrets or keys in place and changes nothing else, and otherwise changes nothing |
| `Registry.ConfiguredFollows` | crates/auth/src/tenant.rs:78-96 | every tenant of a configuration is filed under its realm with the backend of its recipe, the last one for a realm |
| `Registry.ConfiguredBase` | crates/auth/src/tenant.rs:78-96 | and so is the base realm |
| `Registry.OnlyConfigured` | crates/auth/src/tenant.rs:78-96 | and no realm that was not configured |
| `Registry.ManagementReachesIff` | crates/auth/src/tenant.rs:279-312 | managing a realm's users reaches the backend that validates it iff the realm is not both base and tenant |
| `Registry.ShadowedBaseIsInert` | crates/auth/src/tenant.rs:279-312 | otherwise it changes no answer to any request |
| `Rotation.StepDropped` | crates/auth/src/lib.rs:501-632 | one step with and without previous secrets: same state, and the same answer iff the step does not rely on one |
| `Rotation.DroppingUnnoticedIff` | crates/auth/src/lib.rs:501-632 | over every run of requests, user changes and reloads, all answers are the same without previous secrets iff no request relied on one |
| `Rotation.UnmovedCounterMakesDroppingSafe` | crates/auth/src/lib.rs:113-126 | while the counter does not move, dropping the old secrets changes no answer |
| `Rotation.AuthRegistry.Validate` | crates/auth/src/tenant.rs:216-262 | resolves the realm, validates, and counts a use of the previous secret |
| `Rotation.AuthRegistry.AddUserForRealm` | crates/auth/src/tenant.rs:279-287 | succeeds iff the managed backend keeps users, who is then stored with the password's keys and indexed; everyone else's keys, realms, mechanisms and index invariants are kept |
| `Rotation.AuthRegistry.RemoveUserForRealm` | crates/auth/src/tenant.rs:291-299 | succeeds iff the user was there, who is then gone; everyone else's keys, realms, mechanisms and index invariants are kept |
| `Rotation.AuthRegistry.SwapBase` | crates/auth/src/tenant.rs:118-127 | succeeds iff the recipe has the base realm and its mechanism, which then follows the recipe, changes nothing otherwise, and never changes whether all realms support USERHASH |
| `Rotation.AuthRegistry.SwapTenant` | crates/auth/src/tenant.rs:144-159 | likewise for a known tenant |
| `EnvExpand.FindOpenIff` | crates/config/src/lib.rs:4440-4443 | the scanner finds the first opening |
| `EnvExpand.FindCloseIff` | crates/config/src/lib.rs:4452-4455 | and the first closing brace |
| `EnvExpand.FindDefaultIff` | crates/config/src/lib.rs:4458-4460 | and the first default separator |
| `EnvExpand.ValueOfIs` | crates/config/src/lib.rs:4458-4464 | a set variable beats its default; an unset one is its default, or an error naming it |
| `EnvExpand.ReadsOneWay` | crates/config/src/lib.rs:4458-4461 | every reference splits into name and default in exactly one way, at its first separator |
| `EnvExpand.Expand` | crates/config/src/lib.rs:4437-4469 | for every text and environment the loop ends and returns the pieces' values side by side, or the first error from the left |
| `EnvExpand.PiecesAreTheText` | crates/config/src/lib.rs:4437-4469 | the pieces, which no environment influences, spell out the text exactly |
| `EnvExpand.PiecesAreWellFormed` | crates/config/src/lib.rs:4437-4469 | texts hold no opening, references no brace, no reference follows a dollar sign, and only the last piece may be left open, with its first opening unescaped and no brace after it |
| `EnvExpand.PiecesAreUnique` | crates/config/src/lib.rs:4437-4469 | there is no other such reading of the text |
| `EnvExpand.BrokenIff` | crates/config/src/lib.rs:4452-4455 | the scanner gives up on a text iff its first opening is unescaped and no brace follows it |
| `EnvExpand.RenderErrIff` | crates/config/src/lib.rs:4437-4469 | expansion fails iff some piece has no value, with the error of the first one |
| `EnvExpand.UnclosedIff` | crates/config/src/lib.rs:4452-4455 | the error is the unclosed one iff the text ends in a part left open and every reference before it has a value |
| `EnvExpand.EscapeRoundTrip` | crates/config/src/lib.rs:4444-4451 | expanding an escaped text returns the text, for every text and environment |
| `EnvExpand.OnlyReferencesMatter` | crates/config/src/lib.rs:4437-4469 | environments that agree on the references give the same result |
| `RuntimeConfig.Validate` | crates/config/src/lib.rs:4651-4674 | no faults iff the cap fits the usable ports and bandwidth is capped where production demands it; names the faults otherwise |
| `RuntimeConfig.StartupFaultsIff` | crates/config/src/lib.rs:463-508 | what startup refuses, rule by rule |
| `RuntimeConfig.UpdateIs` | crates/config/src/lib.rs:4763-4807 | the result of an update, field by field, and each error with its condition |
| `RuntimeConfig.ReachableLimitsAreValid` | crates/config/src/lib.rs:4763-4807 | from limits startup accepts, no sequence of updates reaches limits startup would refuse |
| `RuntimeConfig.VersionCountsEffects` | crates/config/src/lib.rs:4763-4807 | the state is the boot limits patched by the effective updates in order; the version counts them and number k was made against version k |
| `RuntimeConfig.VersionNeverFalls` | crates/config/src/lib.rs:4763-4807 | the version only grows along a run |
| `RuntimeConfig.OneWinnerPerVersion` | crates/config/src/lib.rs:4763-4807 | of two updates made against one version at most one takes effect |
| `RuntimeConfig.ChangesIffEffective` | crates/config/src/lib.rs:4763-4807 | an update changes the snapshot iff its version matches, it differs, it is valid and the version can grow |

## Left out

- AuditRetention.HealthyRuns: stops at sequence number 2^64 - 1, as do the other results on runs of the log.
- AuditDegraded.WriteAcceptedIff: covers writes whose prune removes nothing; after a prune, AuditDegraded.AcceptedIff says what is accepted.
- WebhookRuns.ReachableStates: each call is atomic; under races between the room check and the insert the size bound is not exact.
- Rotation.UnmovedCounterMakesDroppingSafe: the counter is unbounded; the wrap of a 64-bit counter after 2^64 uses is not modelled.
- Registry.RunsKeepSane: backends are values, so two backends sharing one user table are not modelled.
- Sockets, files, fsync, HTTP, timers and task scheduling: only their success, failure and order.
- Encoding, signing, verifying and sending of gossip frames and STUN messages; a frame that fails them is the event `Rejected`.
- Foreign files in the audit directory. What a failed write leaves is nothing, part of a line, or a line without its newline.
- A fetch task that dies while holding a job; it counts as one that has not completed yet.
- Role-based permissions, client certificates and the conversion of messages in the management service.
- The jump hash kept beside the ring, which the ring does not use.
- Comment stripping and the `file:///` pass of configuration expansion.
- The rest of the configuration validator.
- Equalised timing, constant-time comparison, zeroed memory, metrics and logging.
