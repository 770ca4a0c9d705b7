# Verified models of the audit platform's core

An Express and SQL backend for internal audit keeps a tamper-evident log, serialises its
embedded database with a queueing lock, limits request rates, caches authentication state,
replays idempotent requests, reconnects to Redis, and moves whole audit plans into an
archive. These Dafny modules model those parts and prove what each is for. `dafny verify
dfyconfig.toml` checks everything.

| module | what it models |
|---|---|
| `AuditChain`, `AuditAppend` | the hash chain: `verifyChain` with its maps and loops, and every interleaving of concurrent appends |
| `ReadWriteLock`, `LockProtocol` | the lock as a class, and all runs of it with requests, time-outs and releases |
| `SlidingWindow`, `RedisWindow` | the in-memory limiter with its sweeper against the full admission history; the Lua script |
| `AuthCache` | cache and table under all interleavings of the steps between awaits |
| `Redaction`, `Idempotency` | redaction of a response at every path; the in-flight protocol of one key across server instances |
| `RedisConnection`, `RedisProtocol` | the reconnecting manager as a class, and all runs of its events |
| `PathGate` | the path canonicaliser, on UTF-16 code units, with `decodeURIComponent` written out |
| `LogExport` | HTML escaping and the CSV export, each with the reader that undoes it |
| `PermissionUndo` | the permission batch, its audited state and its compensating undo |
| `MigrationRunner` | pending list, run, rollback, and series of failing runs |
| `Archive` | the archiving transaction on the tables it touches |
| `Filling`, `Decimal`, `Numbering` | the plan code backfill with string order, `parseInt` and the unique key |
| `Calendar`, `Partitions` | the month partition loops on any local clock |

Time is a number that the callers supply. SHA-256 is a function parameter `sha`: linearity
of the chain needs only that hashes can be ranked above the hashes they cover (no hash
cycle), so no collision-freedom is assumed there; `RankedHashExists` shows that the
hypothesis can be met and `CycleIsAccepted` that it is needed. A protocol is a system state
with events, one event for each stretch between two awaits, and its theorems hold in every
reachable state. SQL tables are sequences, and a transaction commits as a whole.

## Where the code and its own documentation part

- The Redis limiter never rejects under one limit for its key: the script's count stops at `limit`, and `allowed` is `count <= limit` (`OneLimitAllowsAll`).
- `canonicalizePath` is not idempotent: an escape that no decode reached, because an earlier one was malformed, survives into the result (`EncodedDotsSurvive`); `IdempotentIff` is the exact condition on the surviving segments.
- The verifier's gap check asks for an existing entry, not a prior one, and removing the newest entries goes unnoticed (`AcceptanceIgnoresOrder`, `DeletionDetectedUnlessTail`).
- The last waiting writer to time out while readers hold the lock leaves the readers behind it queued, although they could join (`StrandedIff`, `StrandingEndsIff`).
- A disconnect leaves the manager unconnected for good only when it was not connected and no attempt was in flight (`QuietAfterDisconnectIff`); a client made while `quit` is awaited stays open with nobody to close it (`LeavesClientOpenIff`).
- The manager's connection time-out never ends a reconnection, since a retry leaves the status degraded (`RetriesNeverTimeOut`).
- An invalidation is undone by a fetch that it overtakes (`OvertakenFetch`), and it does nothing while Redis is unreachable.
- Two requests with one idempotency key can both run, even on one instance (`CanOverlapIff`, `BothRun`, `RunsAfterRelease`).
- The compensating update removes a permission that was granted before the batch granted it again (`RedundantGrantIsLost`).
- The archive guards pass rows whose status is NULL (`GuardsIgnoreNull`), and a plan without a year passes them all but can never be archived (`Archive.Store.ArchivePlan`).
- The rollback of a version that is not recorded runs `down` all the same (`RollbackUndoesIff`).
- After code 1000 of a year the backfill computes 1000 again, which the unique key refuses: the loop ends and every later row stays without a code (`ThousandCodes`).
- West of UTC the historical partition loop never ends (`LoopEndsIff`), and a clock that falls behind UTC between two months costs one of them its partition (`AllMonthsMadeIff`).

## Model

| member | source | states |
|---|---|---|
| AuditChain.FindMismatch | src/services/AuditChainService.ts:190-202 | the first pass stops at the first row whose hash is not the recomputed one |
| AuditChain.IndexByHash | src/services/AuditChainService.ts:206-209 | the index holds exactly the hashes that occur |
| AuditChain.CountReferences | src/services/AuditChainService.ts:211-217 | an absent key stands for zero, a present one for the number of rows with that previous-hash |
| AuditChain.VerifyChain | src/services/AuditChainService.ts:184-243 | accepts exactly when all hashes match and no row is a gap or a fork; a rejection names the first offender in scan order, and a mismatch anywhere comes before any gap or fork |
| AuditChain.ForkIsCount | src/services/AuditChainService.ts:225-240 | a count above one is the same as another row with the same previous-hash |
| AuditChain.ChainOrder | src/services/AuditChainService.ts:221-241 | rows with clean links can be put in chain order: the pigeonhole argument, by removing the row of highest rank |
| AuditChain.ChainShape | src/services/AuditChainService.ts:166-171 | a chain has one genesis entry, pairwise distinct hashes and at most one successor for each entry |
| AuditChain.AcceptedIffOneChain | src/services/AuditChainService.ts:176-244 | the verifier accepts a table if and only if its rows, rearranged, are one hash-linked chain from genesis |
| AuditChain.AcceptanceIgnoresOrder | src/services/AuditChainService.ts:188-243 | acceptance is the same for every rearrangement of the rows |
| AuditChain.DeletionDetectedUnlessTail | src/services/AuditChainService.ts:163-171 | deleting entries from a chain is accepted if and only if the survivors are a prefix of it |
| AuditChain.RecordDeterminesFields | src/services/AuditChainService.ts:86-101 | the hashed text determines every field when only the details may contain the separator |
| AuditChain.DeterminedIff | src/services/AuditChainService.ts:86-101 | among all entries, an entry's hashed text determines its fields if and only if none of them contains the separator |
| AuditChain.RecordParts | src/services/AuditChainService.ts:92-102 | the hashed text, cut at its separators, is previous hash, user, action, module, details and timestamp, in this order |
| AuditChain.TipPinsHistory | src/services/AuditChainService.ts:92-102 | without collisions, two chains ending in one hash hold the same hashed texts throughout |
| AuditChain.CycleIsAccepted | src/services/AuditChainService.ts:232-235 | with a hash that has cycles, an entry that is its own predecessor is accepted |
| AuditAppend.TailIsLast | src/services/AuditChainService.ts:144-150 | on rows in `seq` order the tail query returns the hash of the last chain entry, skipping rows without hash |
| AuditAppend.StepKeepsInv | src/services/AuditChainService.ts:124-160 | acquire, read, insert, commit and abort keep one holder and a committed chain |
| AuditAppend.EveryRunVerifies | src/services/AuditChainService.ts:105-120 | in every run of concurrent appends exactly the holder of the lock is inside, and the committed rows, in `seq` order, are one chain that the verifier accepts |
| AuditAppend.CommittedOnlyGrows | src/db/index.ts:712-735 | committed entries stay, and each commit adds exactly one; aborts add none |
| AuditAppend.CommittedIsAppended | src/services/AuditChainService.ts:132-160 | in every run a commit adds one row after those there were, with exactly the fields its client appended, hanging on the chain committed before, hashed over its own text |
| AuditAppend.SameTailForks | src/services/AuditChainService.ts:137-143 | two rows written after one tail, as without the lock, are rejected as a fork |
| ReadWriteLock.Lock.AcquireRead | src/db/index.ts:327-341 | bypassed in a transaction, granted when nobody writes or waits to write, else queued at the end |
| ReadWriteLock.Lock.AcquireWrite | src/db/index.ts:343-357 | bypassed in a transaction, granted when nobody holds, else queued at the end |
| ReadWriteLock.Lock.TimeoutRead | src/db/index.ts:367-378 | rejects a ticket still queued and removes just it; one already granted is left alone |
| ReadWriteLock.Lock.TimeoutWrite | src/db/index.ts:367-378 | the same for the write queue |
| ReadWriteLock.Lock.ReleaseRead | src/db/index.ts:389-392 | one reader fewer, then the queues are served |
| ReadWriteLock.Lock.ReleaseWrite | src/db/index.ts:394-397 | no writer, then the queues are served |
| ReadWriteLock.Lock.ProcessQueue | src/db/index.ts:399-416 | hands the lock to the first waiting writer or to all waiting readers, in order |
| LockProtocol.EventKeepsInv | src/db/index.ts:327-416 | every request, time-out and release keeps the counters equal to the holders, one place for each ticket, and no free lock with somebody queued |
| LockProtocol.EveryRunIsSafe | src/db/index.ts:303-312 | in every reachable state a writer excludes all others, no ticket is both granted and timed out, and a queue implies a holder |
| LockProtocol.NobodyIsLost | src/db/index.ts:327-416 | in every run a ticket that has asked is in exactly one place (waiting, holding, timed out or released), and any other in none |
| LockProtocol.WaitingWriterStep | src/db/index.ts:333-356 | while a writer waits no reader is granted, only writers ahead of it are, and its distance falls with each release and never rises |
| LockProtocol.WaitingWriterRun | src/db/index.ts:389-416 | over any run in which it waits, the releases stay below its distance at the start, readers holding the lock only get fewer, and writers holding it were ahead of it |
| LockProtocol.WriterBound | src/db/index.ts:399-406 | at position k it waits through fewer than holders + k releases |
| LockProtocol.StrandedIff | src/db/index.ts:367-378 | readers come to wait behind nobody if and only if the last waiting writer times out while readers hold the lock |
| LockProtocol.StrandingEndsIff | src/db/index.ts:389-416 | they do so until a reader's release, which grants them all, the time-out of the last of them, or another writer's coming to wait |
| LockProtocol.ReadersLeftBehind | src/db/index.ts:327-378 | it happens, from the start, with any four tickets |
| SlidingWindow.InMemoryLimiter.Check | src/middleware/rateLimiter.ts:234-260 | the decision, count and oldest timestamp, and the new list of the key; other keys unchanged |
| SlidingWindow.InMemoryLimiter.Sweep | src/middleware/rateLimiter.ts:67-81 | every list pruned, empty keys dropped |
| SlidingWindow.PruneIsSuffix | src/middleware/rateLimiter.ts:247-248 | on a sorted list pruning cuts a front part, all of it expired, and leaves nothing expired |
| SlidingWindow.RunKeepsKeyInv | src/middleware/rateLimiter.ts:234-260 | in every run the stored list is what a full history would leave after pruning |
| SlidingWindow.NeverAboveLimit | src/middleware/rateLimiter.ts:264-270 | in every run at most `limit` admissions of a key in any half-open interval of one window |
| SlidingWindow.DecidesLikeFullHistory | src/middleware/rateLimiter.ts:247-259 | the limiter decides at every moment as one that forgets nothing; sweeps with a window no shorter than the key's are invisible |
| SlidingWindow.AdmittedIffRoom | src/middleware/rateLimiter.ts:234-260 | in every run a request is admitted if and only if fewer than `limit` were admitted in the window that ends with it |
| SlidingWindow.ShortSweepForgets | src/middleware/rateLimiter.ts:67-77 | for every limit, and every sweep window shorter than the key's, some run admits one request too many |
| SlidingWindow.SweepsInvisibleIff | src/middleware/rateLimiter.ts:67-81 | in all runs the decisions are those of a full history if and only if the sweep window is no shorter than the key's, or the key's window or limit is not positive |
| SlidingWindow.AdmittedWhenOldestLeaves | src/middleware/rateLimiter.ts:326-338 | a rejected caller is admitted later, with no request in between, if and only if the oldest admission has left the window |
| SlidingWindow.RetryAfterAdmits | src/middleware/rateLimiter.ts:337-339 | waiting for Retry-After is enough |
| SlidingWindow.PermissionAdminBound | src/middleware/permissionAdminRateLimiter.ts:62-105 | at most 100 requests in any 15 minutes for each user |
| RedisWindow.SortedSet.Check | src/middleware/rateLimiter.ts:92-219 | the script's effect on the set, its count and oldest score, and the verdict drawn from them |
| RedisWindow.OneLimitAllowsAll | src/middleware/rateLimiter.ts:214-219 | with one limit the set never outgrows it, and therefore every call is allowed |
| RedisWindow.RejectsUnderSmallerLimit | src/middleware/rateLimiter.ts:218 | a call under a smaller limit than an earlier one's can be rejected |
| RedisWindow.CountedUntilExpiry | src/middleware/rateLimiter.ts:92-110 | a request let in is counted by every later call until its window is over and by none after |
| PathGate.DecodeShortens | src/middleware/pathGate.ts:31-32 | decoding leaves a text without `%` alone and makes every other text strictly shorter, or fails |
| PathGate.SafeDecode | src/middleware/pathGate.ts:34-53 | the loop computes up to sixteen decodes, stopping at a fixed point or a malformed escape |
| PathGate.SixteenFold | src/middleware/pathGate.ts:27-29 | up to sixteen encodings of a decoded text are removed, and one of seventeen is left |
| PathGate.DecodeInvertsEncodeAll | src/middleware/pathGate.ts:41 | decoding inverts the escaping of every ASCII character |
| PathGate.SpelledDecodes | src/middleware/pathGate.ts:41 | the UTF-8 escapes of every scalar value, in digits of either case, decode to its UTF-16 form |
| PathGate.DecodedIsSpelled | src/middleware/pathGate.ts:41-46 | nothing else decodes: no overlong form, surrogate or value above 10FFFF (section 3 of RFC 3629) |
| PathGate.CanonicalizePath | src/middleware/pathGate.ts:68-93 | decode, backslashes to slashes, split, resolve, join: the loop against its specification |
| PathGate.AlwaysCanonical | src/middleware/pathGate.ts:58-66 | every result is rooted, with no empty, `.` or `..` segment and no slash of either kind inside one |
| PathGate.CanonicalForm | src/middleware/pathGate.ts:68-93 | the result is the pieces that survive when read from the right, where every `..` takes the nearest piece before it that is still there |
| PathGate.ParentGoesBack | src/middleware/pathGate.ts:83-87 | `..` takes back the segment before it and nothing else |
| PathGate.NeutralSegments | src/middleware/pathGate.ts:79-86 | empty and `.` segments change nothing, nor does `..` at the root |
| PathGate.SplitJoin | src/middleware/pathGate.ts:75-92 | splitting undoes joining |
| PathGate.CanonicalFixed | src/middleware/pathGate.ts:73-92 | resolving a canonical path changes nothing |
| PathGate.IdempotentIff | src/middleware/pathGate.ts:55-67 | canonicalising twice is canonicalising once if and only if the segments that survive resolving the decoded path are all free of `%`, or one of them is malformed |
| PathGate.IdempotentAtFixedPoint | src/middleware/pathGate.ts:23-32 | so it is idempotent wherever decoding reached a text without `%` |
| PathGate.EncodedDotsSurvive | src/middleware/pathGate.ts:42-46 | `/%zz/../%2e%2e/x` keeps its encoded dots, and a second pass changes it |
| PathGate.EncodingsShareCanonicalForm | src/middleware/pathGate.ts:28-29 | a path and its encodings up to sixteen-fold have one canonical form |
| PathGate.IsPathAllowed | src/middleware/pathGate.ts:107-121 | allowed if and only if some entry matches |
| PathGate.MatchIsSegmentPrefix | src/middleware/pathGate.ts:95-105 | a canonical path matches a canonical non-root entry if and only if the entry's segments are the path's first |
| PathGate.RootMatchesRoot | src/middleware/pathGate.ts:112-118 | the root entry allows the root only |
| LogExport.FiveReplacesIsEscape | src/routes/logs.ts:39-45 | the five replaces in a row are one replacement character by character |
| LogExport.UnescapeInverts | src/routes/logs.ts:41-45 | a decoder recovers the text |
| LogExport.SliceIsFront | src/routes/logs.ts:40 | a text of more than n code units is cut to n, where half a surrogate pair may remain |
| LogExport.SanitizedContent | src/routes/logs.ts:29-46 | nothing is lost but what follows the first 4096 code units, no markup is left, at most six times as many units |
| LogExport.EscapeCsv | src/routes/logs.ts:117-131 | the printed cell is the neutralised text, quoted where needed; missing values are empty |
| LogExport.PrintedPlainIff | src/routes/logs.ts:127-130 | a cell is printed as it is if and only if it has no comma, quote or newline |
| LogExport.ReadBackTable | src/routes/logs.ts:127-151 | a CSV reader recovers every printed table |
| LogExport.Export | src/routes/logs.ts:114-152 | reading the exported text gives the header and, row by row, exactly the neutralised fields |
| LogExport.CellsUnderHeaders | src/routes/logs.ts:133-147 | every cell stands in the column that bears the name of its field |
| LogExport.NoFormulas | src/routes/logs.ts:120-126 | no cell of any row begins with a character that a spreadsheet evaluates |
| LogExport.NeutralisedAlikeIff | src/routes/logs.ts:118-126 | two values print alike if and only if they are the same, a missing and an empty one, or a formula and its quoted form |
| AuthCache.StepKeepsInv | src/middleware/auth.ts:159-191 | every step keeps cached and fetched values in the table's history at their time of fetching |
| AuthCache.BoundedStaleness | src/middleware/auth.ts:155-157 | a value returned at any time was the table's no earlier than the time to live, the fetch-to-store gap and the wait after a cache read before |
| AuthCache.AcceptedWasCurrent | src/middleware/auth.ts:244-256 | an accepted token belonged, within that bound, to an active account with its session version |
| AuthCache.SettledDecides | src/middleware/auth.ts:244-256 | where the table has held one thing for the length of the bound, a token is accepted if and only if that is an active account with its session version |
| AuthCache.CachedForItsTime | src/middleware/auth.ts:155-190 | a stored value that is not overwritten, evicted or invalidated is found and returned if and only if fewer than 300 seconds have passed |
| AuthCache.FreshRun | src/middleware/auth.ts:109-121 | once no older version is cached or in flight, none is ever returned |
| AuthCache.FreshAfterInvalidationIff | src/middleware/auth.ts:119-121 | after an invalidation no run returns an older version than the table's at that moment if and only if no request that read one is in flight and, if Redis is out of reach, no live entry holds one |
| AuthCache.OvertakenFetch | src/middleware/auth.ts:177-191 | a concrete run, fetch, suspension and invalidation within one second: the account is served as active for the whole time to live |
| Redaction.RedactedAt | src/middleware/idempotency.ts:53-71 | at every path: unchanged where no secret field is crossed, the placeholder at the first secret field, nothing beyond it |
| Redaction.RedactTwice | src/middleware/idempotency.ts:53-71 | redacting twice is redacting once |
| Idempotency.StepKeepsRows | src/middleware/idempotency.ts:107-120 | every step keeps at most one row for the key, stored by one request with its own status and redacted body |
| Idempotency.StepKeepsOrder | src/middleware/idempotency.ts:186-247 | every step keeps the account of who held the key while whom ran |
| Idempotency.ReplaysAreGenuine | src/db/migrations.ts:1432-1445 | over every interleaving the key has at most one row, and a replay is the status and redacted body of the request that stored it, for the same method and path |
| Idempotency.FoundUntilExpiry | src/middleware/idempotency.ts:89-120 | after a response is stored, whatever comes between, a query for its key, method and path finds it if and only if its time to live is not over |
| Idempotency.FoundIsReplayed | src/middleware/idempotency.ts:195-201 | a request that found a row never runs its handler; when it goes on it is replayed that row |
| Idempotency.CleanupFreesIff | src/middleware/idempotency.ts:122-127 | a clean-up removes the row if and only if it has expired |
| Idempotency.KeyHeldIff | src/middleware/idempotency.ts:186-254 | after any event an instance holds the key if and only if the event adds it, or it did and the event does not remove it; a request is refused if and only if its instance holds the key |
| Idempotency.NoKeyLeaks | src/middleware/idempotency.ts:204-247 | in every run an instance that holds the key has a request whose handler runs or whose timer is still to remove it |
| Idempotency.OverlapExplained | src/middleware/idempotency.ts:186-247 | two handlers of one key overlap on an instance only if the second passed the check before the first added the key, or the key was released in between |
| Idempotency.CanOverlapIff | src/middleware/idempotency.ts:186-254 | beside a running handler a second one can come to run if and only if its instance does not hold the key, or another request of it may still get through or still remove the key |
| Idempotency.BothRun | src/middleware/idempotency.ts:187-204 | a run from the start in which both handlers run |
| Idempotency.RunsAfterRelease | src/middleware/idempotency.ts:233-247 | a run from the start in which a third handler runs beside the first because the second's end released the key |
| RedisConnection.RedisManager.Connect | src/cache/redisManager.ts:70-90 | without a URL degraded and no attempt; else connecting with a new client |
| RedisProtocol.CreatedReplaces | src/cache/redisManager.ts:104-120 | a new client is one that never was before, its predecessor has been told to disconnect, and no other client is open |
| RedisConnection.RedisManager.OnConnect | src/cache/redisManager.ts:129-136 | connected, attempts back to zero, no timer |
| RedisConnection.RedisManager.OnLost | src/cache/redisManager.ts:138-153 | only a connected manager becomes degraded and schedules |
| RedisConnection.RedisManager.OnAttemptFailed | src/cache/redisManager.ts:201-206 | degraded and scheduled |
| RedisConnection.RedisManager.ScheduleReconnect | src/cache/redisManager.ts:172-208 | one timer with the delay for the attempts so far; warns exactly on exhaustion |
| RedisConnection.RedisManager.OnTimer | src/cache/redisManager.ts:192-199 | no timer, one attempt more, a new client |
| RedisConnection.RedisManager.BeginDisconnect | src/cache/redisManager.ts:300-305 | the timer is cleared before the wait; without a client there is none |
| RedisConnection.RedisManager.OnConnectTimeout | src/cache/redisManager.ts:122-127 | rejects and disconnects only before the first connection |
| RedisConnection.RedisManager.EndDisconnect | src/cache/redisManager.ts:303-313 | disconnected without a client, or the exception when `quit` failed and no client is left; a timer set meanwhile stays |
| RedisProtocol.StepKeepsInv | src/cache/redisManager.ts:104-208 | every event keeps one timer at most, recovery under way while degraded, and warnings and delays that follow the attempts |
| RedisProtocol.DelaysGrowIff | src/cache/redisManager.ts:177-182 | delays never shrink, and never pass the cap, if and only if the fixed interval is within the cap or there is no fixed phase |
| RedisProtocol.DelayInOutage | src/cache/redisManager.ts:172-208 | in every run, with k timers fired since the last connection, the next is set to the interval while k is below the maximum, and from there to the interval times 2^(k - max + 1), at most the cap |
| RedisProtocol.LossAfterConnection | src/cache/redisManager.ts:129-153 | in every run a loss after a connection sets the timer to the plain interval, however long the outage before |
| RedisProtocol.DefaultDelays | src/cache/redisManager.ts:50-52 | with the defaults: three times 5 s, then 10, 20 and 40, then always 60 |
| RedisProtocol.EveryRunRecovers | src/cache/redisManager.ts:163-171 | in every run at most one timer, no giving up while degraded, bounded delays, at most one exhaustion warning for each outage |
| RedisProtocol.LeavesClientOpenIff | src/cache/redisManager.ts:303-310 | the end of a disconnect leaves a client open if and only if `quit` succeeded on one that had been replaced meanwhile |
| RedisProtocol.TimedOutIsClosed | src/cache/redisManager.ts:122-127 | a timed-out attempt leaves no client open, and no attempt in flight can succeed |
| RedisProtocol.RetriesNeverTimeOut | src/cache/redisManager.ts:122-127 | in every run without a call of `connect` the status never becomes connecting, and no attempt is timed out by the manager |
| RedisProtocol.PendingIff | src/cache/redisManager.ts:129-206 | after any event a reconnection is pending if and only if the event arms one, or one was pending and the event does not settle it |
| RedisProtocol.CanConnectIff | src/cache/redisManager.ts:172-208 | without a call of `connect` the manager can be connected again if and only if it is, or a timer or an attempt is pending |
| RedisProtocol.QuietAfterDisconnectIff | src/cache/redisManager.ts:297-314 | whatever happens while `quit` is awaited, a disconnect leaves the manager unconnected for good if and only if it was not connected and no attempt was in flight |
| PermissionUndo.RolePermissions.UpdateRole | src/services/PermissionService.ts:202-233 | the stored grants after a batch; pairs that are not registered are skipped |
| PermissionUndo.RolePermissions.NewPermissions | src/routes/permissionAdmin.ts:501-519 | the loops that compute the audited matrix |
| PermissionUndo.RolePermissions.Change | src/routes/permissionAdmin.ts:490-548 | the batch, then on a failed audit write the inverted batch; when that fails too, the batch stays |
| PermissionUndo.LastWriterWins | src/services/PermissionService.ts:207-232 | whether a pair is granted afterwards depends on its last update alone |
| PermissionUndo.UndoRestoresIff | src/routes/permissionAdmin.ts:531-539 | the inverted batch restores the grants if and only if the last update of every touched registered pair differs from what it was |
| PermissionUndo.RedundantGrantIsLost | src/routes/permissionAdmin.ts:534-538 | a permission granted before and again by the batch is revoked by the undo |
| PermissionUndo.FoldLastWriterWins | src/routes/permissionAdmin.ts:506-519 | the matrix computed in place has the last writer win |
| PermissionUndo.FoldKeepsDuplicateFree | src/routes/permissionAdmin.ts:511-513 | action lists stay free of duplicates |
| PermissionUndo.NewActionsFollow | src/routes/permissionAdmin.ts:506-519 | actions that a batch leaves alone stay where they are, and new ones come after them |
| PermissionUndo.FoldModules | src/routes/permissionAdmin.ts:503-509 | the matrix has a row for each module it had and each one the batch names |
| PermissionUndo.AuditedStateIsStoredIff | src/routes/permissionAdmin.ts:521-530 | the audited state is the stored one if and only if the last update of every touched pair without a row in `permissions` is a revocation |
| MigrationRunner.PendingList | src/db/migrationRunner.ts:59-70 | the versions missing from the table, once each, in ascending order |
| MigrationRunner.SortIsStable | src/db/migrationRunner.ts:67-69 | the sort loses and doubles nothing, and migrations that compare equal keep their order |
| MigrationRunner.PendingAfterPrefix | src/db/migrationRunner.ts:63-70 | after the first k have been applied, the rest is pending in the same order |
| MigrationRunner.Runner.Execute | src/db/migrationRunner.ts:88-110 | the loop commits effects and records together, up to the first failure |
| MigrationRunner.Runner.Run | src/db/migrationRunner.ts:78-113 | applied versions and effects grow by the committed part of the pending list |
| MigrationRunner.Runner.Rollback | src/db/migrationRunner.ts:124-161 | each result if and only if its cause, on the first migration of that version; `down` and the removal of the record, or nothing |
| MigrationRunner.RunCommitsLongestPrefix | src/db/migrationRunner.ts:72-77 | with unique versions a run commits the longest prefix whose `up` functions succeed |
| MigrationRunner.RetriesFollowOneList | src/db/migrationRunner.ts:78-113 | over any series of failing runs what was applied is a front part of one list, each version once |
| MigrationRunner.NothingAfterSuccess | src/db/migrationRunner.ts:81-84 | after a success nothing is pending |
| MigrationRunner.RollbackThenRun | src/db/migrationRunner.ts:115-123 | rolling back one version makes exactly that one pending |
| MigrationRunner.TableHoldsWhatIsInForce | src/db/migrationRunner.ts:72-161 | after any series of runs and rollbacks the table holds exactly the versions whose `up` is in force |
| MigrationRunner.RollbackUndoesIff | src/db/migrationRunner.ts:142-151 | a successful rollback runs `down`, and undoes an `up` in force if and only if the version is recorded |
| Archive.Store.ArchivePlan | src/services/ArchiveService.ts:35-237 | commits exactly when role, plan, guards, the plan's year, the user, counts and foreign keys allow it, with the whole new state, where only this plan is marked as archived by the caller; otherwise nothing changes, and each error comes if and only if its cause is the first in the order of the source |
| Archive.InsertCopies | src/services/ArchiveService.ts:160-164 | one archive row for each selected row, in order |
| Archive.RowsMoved | src/services/ArchiveService.ts:140-237 | tasks, findings, evidence and the recommendations for the findings are moved: exactly those rows leave their table, and each enters the archive under the plan's id as often as it was there |
| Archive.OtherPlansKept | src/services/ArchiveService.ts:212-231 | every other plan keeps its tasks, findings, recommendations and evidence, in order |
| Archive.CountsNeverFail | src/services/ArchiveService.ts:183-209 | while plans not archived have no archive rows, which archiving keeps so, the count checks cannot fail |
| Archive.SourceOrderFailsIff | src/services/ArchiveService.ts:211-231 | in the order of the source the deletes fail if and only if a row outside the plan refers to one of its findings |
| Archive.FindingsFirstFailsIff | src/services/ArchiveService.ts:211-226 | with the findings first they fail if and only if any row at all refers to one |
| Archive.DeletesKeepReferences | src/services/ArchiveService.ts:213-231 | each DELETE, on any tables, leaves no reference dangling |
| Archive.ReferencesKept | src/services/ArchiveService.ts:211-231 | references to findings hold after every statement and after the transaction |
| Archive.AgreeingEvidenceIsEnough | src/db/migrations.ts:285-289 | evidence that agrees with its finding's plan, and findings without risks, never stop the deletes |
| Archive.NotTwice | src/services/ArchiveService.ts:48-64 | an archived plan cannot be archived again |
| Archive.GuardsIgnoreNull | src/services/ArchiveService.ts:66-129 | the guards pass if and only if every task, finding and recommendation of the plan has a closing status or NULL |
| Filling.FillingKeeps | src/db/migrations.ts:100 | no two rows ever have one code, and a row whose turn does not come keeps what it had |
| Filling.FilledCodes | src/db/migrations.ts:944-965 | rows get consecutive codes up to a cap, the rest keep what they had; the loop ends regularly if and only if there is nothing to do, or the cap is far enough and not there yet |
| Decimal.SameLengthOrder | src/db/migrations.ts:947 | among codes of one length string order is number order |
| Decimal.LongerSortsFirst | src/db/migrations.ts:947 | 10^w sorts before 10^w - 1 |
| Numbering.LatestIsGreatest | src/db/migrations.ts:947 | the query returns the last code of the prefix in string order |
| Numbering.NumberOfCode | src/db/migrations.ts:951-952 | splitting and `parseInt` recover the number of a code |
| Numbering.CodeShows | src/db/migrations.ts:941-957 | a code is `AP-`, the year, a hyphen and the padded number, which is read back |
| Numbering.YearsApart | src/db/migrations.ts:941-947 | a code matches the prefix of its own year only |
| Numbering.Backfill | src/db/migrations.ts:944-965 | the loop fills the rows in order, each after the latest code so far, until the unique key refuses one |
| Numbering.IssuedNumbers | src/db/migrations.ts:938-966 | from codes of w characters up to `top`: exactly the numbers that follow as far as 10^w, none if 10^w is there already, and no change to any other row |
| Numbering.ThousandCodes | src/db/migrations.ts:949-965 | in an empty year the first thousand rows are numbered from 1, and the rest are left without a code |
| Numbering.NoneMissingIff | src/db/migrations.ts:941-965 | whatever the codes were, afterwards none is missing if and only if the loop reached its end |
| Numbering.AllHaveCodes | src/db/migrations.ts:941-961 | a loop that reached its end leaves every row with a code that begins with `AP-` |
| Calendar.MonthStart | src/db/migrations.ts:1665-1666 | the first instant of every month of a year, from the lengths of the months |
| Calendar.YearStart | src/db/migrations.ts:1665-1666 | the first instant of every year in closed form, with the leap rule of the Gregorian calendar |
| Calendar.KnownDates | src/db/migrations.ts:1665-1666 | two instants of `Date.UTC` in numbers |
| Calendar.NameShows | src/db/migrations.ts:1668 | a name shows the year and the month from 01 to 12 |
| Calendar.NamesDiffer | src/db/migrations.ts:1668 | different months have different partition names |
| Partitions.CalendarIsSound | src/db/migrations.ts:1665-1668 | the calendar of `Date` and these names meet the hypotheses in every time zone |
| Partitions.LocalMonthOfStart | src/db/migrations.ts:1691-1693 | the local month of a month's first instant is that month, or the one before on a clock behind UTC |
| Partitions.Catalog.CreateIfNotExists | src/db/migrations.ts:1670-1674 | nothing under a known name, an error on overlap, else one more partition |
| Partitions.Catalog.CreateAround | src/db/migrations.ts:1662-1675 | five months around the current one, on any clock: each is made unless the month before has its name |
| Partitions.Catalog.CreateHistory | src/db/migrations.ts:1690-1703 | every month from the oldest, ending by months remaining, unless its name is taken |
| Partitions.Catalog.CreatePartitions | src/db/migrations.ts:1660-1704 | on any clock on which the loop ends no creation fails, and the partitions are those of the months from the first to the third ahead whose names are free |
| Partitions.AllMonthsMadeIff | src/db/migrations.ts:1662-1703 | every month has its partition if and only if the clock does not fall behind UTC from one month to the next, nor is behind where the past adjoins |
| Partitions.LoopEndsIff | src/db/migrations.ts:1690-1703 | the loop ends if and only if the clock is not behind UTC at the start of any month it has to pass |
| Partitions.PartitionsHold | src/db/migrations.ts:1670-1674 | no two partitions overlap, and together they hold exactly the instants of the months made |
| Partitions.UtcCoversAll | src/db/migrations.ts:1677-1704 | at UTC every instant from the oldest row to the end of the third month ahead is in a month with a partition |
| Partitions.OldestCoveredIff | src/db/migrations.ts:1686-1690 | on a clock never behind UTC the oldest row is covered if and only if its local month is no later than its own, or the partitions begin early enough |
| Partitions.NamesDistinctIff | src/db/migrations.ts:1662-1668 | the five names are distinct if and only if the clock does not fall behind UTC between two of the months |

## Left out

- Express wiring, routing, validation schemas, status codes and messages, logging and metrics.
- The insides of PostgreSQL, PGlite, Redis, ioredis, bcrypt, JWT and SHA-256; each is the step that the call stands for.
- Retries on engine crashes and SQL rewriting in src/db/index.ts, and its transactional event buffer.
- Real timers: a time-out or a timer is an event that may come at any time while it is pending.
- The lock's nested transactions beyond the bypass, and calling one release function twice.
- Timestamp canonicalisation before hashing: timestamps are canonical strings.
- The automation event after archiving and its three attempts (src/services/ArchiveService.ts:247-287).
- Archive rows hold the row itself, not its JSON text; `archived_at` and columns that no step reads are dropped.
- The employee_id backfill (src/db/migrations.ts:967-994), which numbers each department from 1001 without padding and reads the second part of the latest code.
- The insides of AuthCacheInvalidator: retries and the forced-read flag appear only as the freedom of a request to skip the cache.
- The permission cache beside the user cache in src/middleware/auth.ts.
- `sanitizeContent` of values that are not strings, which go through `JSON.stringify`.
- LogExport.Slice: a surrogate without its partner in the input; the half pair that a cut leaves stands as the replacement character it is encoded as.
- `__proto__` as a key of a redacted object.
- Redis errors and time-outs in the limiter, which fall back to the in-memory check for that one request.
- Numbering.ParseInt: integers are unbounded, so the rounding of very long digit strings is not modelled.
- Numbering.Latest: strings are compared character by character, as collations do on codes of one prefix with digits after it.
- Partitions.Catalog.CreatePartitions: instants before April 1970 are outside the model, since months are counted from 1970.
- Rows that cascade from an archived plan's tasks and findings (src/db/migrations.ts:307, 1149, 1763): the deletes take them without a copy.
- Partitions.FirstMonth: how the driver turns a stored timestamp into a date is a parameter, the oldest instant.
- Calls to `run` of the migration runner from several processes at once.
