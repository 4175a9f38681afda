# A verified model of vault42's hand-rolled protocols

vault42 is mostly HTTP plumbing around a database, but a dozen pieces of it carry guarantees that
hold only over whole runs: an address-range table that must mean what its sources mean, an audit
buffer that must not lose or wedge, a detector that must not miss, replicas that must not mint two
admin tokens, three cache backends that must count alike, revocation lists that must not go back.
This project models those pieces in Dafny and proves the guarantees.

Time is an integer argument of every step, counted from Go's zero time, and does not go back along a
run. Random identifiers are fresh. The database, the network and the clock are arbitrary: every call
out succeeds or fails as an adversary chooses. Where the source changes fields, the model is a class
whose methods are proved against specification functions; where calls interleave, the model is a state
machine over its atomic sections and the theorems range over every run of it.

| file | what it models |
|---|---|
| `Common.dfy` | shared value types; decimal text of integers |
| `IpIntelMerge.dfy`, `IpIntelBlob.dfy` | the range sweep line, the binary table, its reader and lookup |
| `AuditLog.dfy`, `AuditOrder.dfy`, `AuditLogger.dfy` | the audit logger: machine, order and close, object |
| `AlertDetector.dfy`, `AlertTheorems.dfy`, `AlertBound.dfy` | the alert detector and what it must and must not raise |
| `AdminToken.dfy` | the first-boot admin token race |
| `Cache.dfy`, `CacheBackends.dfy` | the memory cache, the SQL statements, the Lua script |
| `CrlHighWater.dfy` | the revocation-list high-water mark |
| `SlidingWindow.dfy`, `WebhookQueue.dfy`, `ForwardedFor.dfy`, `FlagStore.dfy` | the bridge's state |
| `Retention.dfy` | the audit retention sweep |

## What turned out false

Each promise below fails of the code on a named input, and each has the exact condition under which it holds.

* The comment on `deadAfter` (internal/alert/detector.go:38-42) says a counter is reclaimed only once any
  cooldown it set has lapsed. A suppressed event overwrites `deadAfter` (line 144), so a key can be reclaimed in
  the middle of its cooldown and alert again. `AlertReclamation.InvisibleIffShortCooldown`: at every bound of two
  keys or more reclamation is invisible if and only if Cooldown <= Window, and at a bound of one if and only if
  Cooldown <= 2 * Window. The deployed bound is 4096, and every rule in internal/audit/alerting.go has a 30-minute
  cooldown and a window of 5 or 15 minutes.
* Close does not always leave the audit buffer empty for good (`AuditOrder.StrandedEntry`). It does if and only if
  no Log stands between its closed test and the lock and every flush still running has seen the store take
  something (`AuditOrder.EmptyForGoodIff`).
* The comment on isolate (internal/audit/audit.go:571-574) says that behind a batch of unwritable entries there is
  nothing to lose, and that ordinary traffic unwedges it. The next entry logged is lost if and only if the batch and
  the buffer it goes back in front of fill the cap (`AuditOrder.LostBehindIff`), and a full buffer stays wedged
  through any number of flushes that no Log overlaps (`AuditOrder.WedgedWhenFull`).
* A sweep of the memory cache can hurt a later call as well as help (`Cache.SweepCanHurtLater`). It only ever turns a
  refusal into an admission if and only if there is no cap (`Cache.OnlyHelpsIffUncapped`); at any cap the first call
  answered differently is one the unswept cache refuses (`Cache.SweepsFirstHelp`).
* The memory and PostgreSQL caches differ on a call if and only if it is one of the inputs named by
  `CacheBackends.Edge` (`CacheBackends.EdgesAreExact`), with the clock as the unit of time of both.
* The Redis script does not always count as the map does. `CacheBackends.ScriptIsIncrementIff` says exactly when it
  does, for every table, key, TTL and time; a counter it starts needs a TTL that is not positive or is in whole
  milliseconds. Below one millisecond such a counter is permanent (`CacheBackends.SubMillisecondNeverEnds`).
* A delivered admin token stays the one in force, and a withdrawal removes only its own hash, if and only if no
  replica has a token file mounted (`AdminToken.InForceIffNoFile`). At most one token is delivered in any case.
* A revoked certificate does not always stay revoked: an unnumbered list of the same second un-revokes what a numbered
  one revoked (`CrlHighWater.UnnumberedTieUnrevokes`). Revocations last, over every interleaving, if and only if
  among the issuer's usable lists one that is no step back from another revokes no fewer serials
  (`CrlHighWater.StaysRevokedIff`); growing numbers are enough for that, and so are growing dates
  (`CrlHighWater.SoundIfGrowing`).

## Model

| member | source | states |
|---|---|---|
| `IpIntelMerge.MergeFamily` | scripts/gen-ipintel.py:289-351 | the returned table is normalized (sorted, disjoint, non-empty, no two touching segments alike); each row tells, of each of its addresses, the least code whose country ranges hold it, whether the hosting ranges do and whether the Tor ranges do, and an address in no row is in no range at all |
| `IpIntelMerge.Sweep` | scripts/gen-ipintel.py:317-341 | the sweep over sorted coordinates yields ordered segments with the input's meaning at every address |
| `IpIntelMerge.IndexEvents` | scripts/gen-ipintel.py:293-304 | starts, ends and the sorted set of coordinates are exactly those of the intervals |
| `IpIntelMerge.ActiveCC` | scripts/gen-ipintel.py:310-315 | the result is the least code with a positive count, or none when there is none |
| `IpIntelMerge.CountStep` | scripts/gen-ipintel.py:318-332 | between consecutive coordinates the true coverage count of any attribute changes by exactly the events filed there |
| `IpIntelMerge.MeaningConstant` | scripts/gen-ipintel.py:318-341 | no attribute changes between two coordinates |
| `IpIntelMerge.Coalesce` | scripts/gen-ipintel.py:343-351 | merging touching equal segments gives a normal form with the same meaning everywhere |
| `IpIntelMerge.NormalFormUnique` | scripts/gen-ipintel.py:343-351 | two normalized tables that say the same about every address are equal |
| `IpIntelMerge.EqualMeaningEqualTable` | scripts/gen-ipintel.py:289-351 | inputs with the same pointwise meaning give the identical table |
| `IpIntelMerge.ReorderingKeepsMeaning` | scripts/gen-ipintel.py:296-301 | reordering or repeating source ranges changes the meaning nowhere |
| `IpIntelMerge.SplittingKeepsMeaning` | scripts/gen-ipintel.py:296-301 | splitting a source range at any interior address changes the meaning nowhere |
| `IpIntelMerge.MeaningTells` | scripts/gen-ipintel.py:296-315 | what the intervals mean at an address is what the three kinds of source ranges tell of it, the country being the first in code-point order |
| `IpIntelBlob.Serialize` | scripts/gen-ipintel.py:357-371 | the bytes are the header and every row of both tables in order |
| `IpIntelBlob.HeaderLayout` | internal/ipintel/format.go:12-17 | the bytes V42I, 1, three zeros, and the two counts least significant byte first |
| `IpIntelBlob.RowLayoutV4` | internal/ipintel/format.go:18-22 | eleven bytes: both addresses least significant byte first, the two letters or two zeros, the flags |
| `IpIntelBlob.RowLayoutV6` | internal/ipintel/format.go:23-29 | thirty-five bytes, with each address as its high and then its low 64 bits |
| `IpIntelBlob.WireLayout` | scripts/gen-ipintel.py:359-371 | every row of both tables stands at its own offset behind the header, v4 before v6 |
| `IpIntelBlob.Decode` | internal/ipintel/format.go:179-229 | truncation, magic, version and length errors exactly as ordered, otherwise every record read at its own offset |
| `IpIntelBlob.DecodeIff` | internal/ipintel/format.go:179-229 | for every blob, by its bytes alone: each refusal if and only if its own fault is the first one, and otherwise as many rows as the header counts, each field from its own bytes |
| `IpIntelBlob.InfoBits` | internal/ipintel/lookup.go:75-85 | for any flags byte bit 0 is hosting and bit 1 Tor, and a code with a zero byte is no country |
| `IpIntelBlob.BlobRoundTrip` | internal/ipintel/format.go:10-33 | decoding what the generator wrote gives back every row of both tables |
| `IpIntelBlob.GeneratedIsSorted` | internal/ipintel/format.go:221-227 | a generated table passes the reader's sortedness tests, so it is never re-sorted |
| `IpIntelBlob.LookupV4` | internal/ipintel/lookup.go:45-57 | the binary search answers what the table says at the address |
| `IpIntelBlob.LookupV6` | internal/ipintel/lookup.go:59-73 | the same over addresses split into two 64-bit halves |
| `IpIntelBlob.Publish` | scripts/gen-ipintel.py:414-419 | merging and serializing both families yields the blob of tables that represent the inputs, whenever the counts fit |
| `IpIntelBlob.PublishedLookup` | internal/ipintel/lookup.go:13-33 | generated, serialized, decoded and searched, an address of either family is reported with exactly the least code, hosting and Tor that the parsed source ranges give it; it answers exactly when the normal form of neither family exceeds 32-bit row counts |
| `AuditLog.ExactlyOnePlace` | internal/audit/audit.go:444-651 | in every reachable state of any interleaving each logged entry is in exactly one of call, buffer, flush, store, dropped, quarantined, failed, and is stored at most once |
| `AuditLog.TotalsAreHonest` | internal/audit/audit.go:371-386 | the buffer stays within its cap, and droppedTotal less the critical entries that went synchronous is the number really lost to buffer pressure |
| `AuditLog.PoisonCannotWedge` | internal/audit/audit.go:546-613 | once the store took one entry of a rejected batch, each accepted entry is stored, each refused one quarantined, and none is buffered or in a flush |
| `AuditLog.NeverRetried` | internal/audit/audit.go:559-569 | no entry of a quarantined batch is ever retried, whatever steps follow |
| `AuditOrder.BufferInLogOrder` | internal/audit/audit.go:615-651 | with one flush at a time, the entries in flight followed by the buffer are in the order they were logged, in every state of every run |
| `AuditOrder.OverflowDropsNewest` | internal/audit/audit.go:635-651 | a batch the store took nothing of goes back in front in log order; what is dropped is its newest part, and only when the buffer is then full |
| `AuditOrder.LostBehindIff` | internal/audit/audit.go:571-574 | after a batch the store refused whole goes back, the next entry logged is dropped if and only if that batch and the buffer fill the cap, and buffered otherwise |
| `AuditOrder.WedgedWhenFull` | internal/audit/audit.go:571-574 | a full buffer whose entries the store refuses is unchanged by any sequence of refused flushes and Log calls between them, every one of which loses its entry |
| `AuditOrder.CloseDrains` | internal/audit/audit.go:653-661 | along a given run, after Close took the buffer with no Log at the lock, the buffer is empty at the end unless a flush running at the start requeued |
| `AuditOrder.EmptyForGoodIff` | internal/audit/audit.go:480-661 | in a reachable state with the logger closed and the buffer empty, every later state of every interleaving has an empty buffer if and only if no Log is between its closed test and the lock and every running flush is isolating a batch the store has taken something of |
| `AuditOrder.StrandedEntry` | internal/audit/audit.go:480-481 | a run that meets the other case: an entry left in the buffer of a closed, idle logger |
| `AuditLogger.Logger.Log` | internal/audit/audit.go:314-516 | the entry is critical exactly for the twelve listed event types and every svcdoc_ one, meets the outcome LogEntry states, and the caller gets an error exactly when it was written through and the store refused it |
| `AuditLogger.Logger.LogEntry` | internal/audit/audit.go:480-515 | buffered, dropped, written through or failed exactly by mode, closed flag, fullness, criticality and the store's next answer, with the counters to match |
| `AuditLogger.Logger.Flush` | internal/audit/audit.go:530-544 | the batch is the old buffer; it fails exactly when there was one and the store refused it, and then, by the store's answers to its entries one by one, the accepted are stored in order and the refused counted quarantined if any was accepted, and all are back in the buffer if none was |
| `AuditLogger.Logger.Isolate` | internal/audit/audit.go:575-595 | one accepted entry decides between quarantine and requeue, and only a store that took nothing gets the batch again |
| `AuditLogger.Logger.Requeue` | internal/audit/audit.go:635-651 | what fits goes in front of the buffer and the rest is counted dropped |
| `AuditLogger.Logger.Close` | internal/audit/audit.go:654-661 | a second call does nothing; the first marks the logger closed and leaves what Flush leaves |
| `AlertDetector.CountKeepsBound` | internal/alert/detector.go:178-188 | no event takes the counter map over maxKeys |
| `AlertDetector.KeysAreDistinct` | internal/alert/detector.go:125-128 | distinct rule, scope and identity never share a counter, for identities as count receives them, that is after safeField |
| `AlertDetectorObject.Detector.CountEvent` | internal/alert/detector.go:121-169 | the method advances the detector exactly as its step function does and keeps the bound |
| `AlertDetectorObject.Detector.MakeRoom` | internal/alert/detector.go:178-188 | when the map is full, exactly the counters whose deadAfter has come go, and there is room if and only if fewer than maxKeys are left |
| `AlertDetectorObject.Detector.Observe` | internal/alert/detector.go:95-118 | both identities are counted in order, empty ones skipped, and the alerts are those two counts raise |
| `AlertDetection.DetectionBound` | internal/alert/detector.go:121-169 | 2*Threshold-1 events of one admitted key within less than a window, with no cooldown running, include one that raises its alert, whatever other keys do and however the window tumbles |
| `AlertDetection.DetectedAfterAnyRun` | internal/alert/detector.go:121-169 | that bound holds after every run of a detector of every size |
| `AlertBound.DetectsIff` | internal/alert/detector.go:121-169 | for every rule and every detector, n such events after any run always raise if and only if n reaches the bound: 2*Threshold-1 where Cooldown < Window, 2*Threshold-2 where it is not (as for every deployed rule with Threshold >= 2), and Threshold for a threshold of one or a window of one tick |
| `AlertBound.OneFewerUnseen` | internal/alert/detector.go:139-148 | a run from an empty detector in which one event fewer than the bound raises nothing |
| `AlertHonesty.AlertCountIsExact` | internal/alert/detector.go:139-169 | an alert's count is exactly the events since the counter last restarted, at least Threshold, all inside one window |
| `AlertHonesty.AlertIff` | internal/alert/detector.go:139-169 | an event of a counter's history alerts if and only if the events since the count last restarted reach Threshold and every earlier alert is at least Cooldown ago |
| `AlertHonesty.AlertsComeFromHistories` | internal/alert/detector.go:121-169 | every rule alert of a run is the outcome of its live counter's own history, which is a suffix of the times at which that key's events arrived |
| `AlertHonesty.RunAlertsAreExact` | internal/alert/detector.go:121-169 | every rule alert of a run carries its event's rule, type, scope, key, window, severity, breach mark and time, and counts exactly the events of its key since its counter last restarted, at least Threshold of them, all inside one window and ending with the alerting event |
| `AlertHonesty.LiveAlertsApart` | internal/alert/detector.go:146-152 | two alerts of a key whose counter stays live between them are at least Cooldown apart, along any run |
| `AlertHonesty.RunKeepsBound` | internal/alert/detector.go:178-188 | the key bound holds after every run |
| `AlertHonesty.SaturationAlertsApart` | internal/alert/detector.go:193-208 | saturation alerts are at least fifteen minutes apart |
| `AlertHonesty.SaturationIff` | internal/alert/detector.go:190-208 | along every run from the start, an event refused for want of room raises detector-saturated, with key n/a and count maxKeys, if and only if none was raised in the 15 * 60 * 10^9 nanoseconds before it |
| `AlertReclamation.ReclamationInvisible` | internal/alert/detector.go:171-188 | with Cooldown <= Window a run without refusals raises, event by event, what a detector that never reclaims raises |
| `AlertReclamation.InvisibleIffShortCooldown` | internal/alert/detector.go:38-42 | for every bound, reclamation is invisible in all unrefused runs of a rule if and only if Cooldown <= Window, or Cooldown <= 2*Window when the bound is a single key |
| `AdminToken.AtMostOneDelivered` | internal/cli/cli.go:468-553 | whatever files are mounted, over any interleaving, failure and crash, at most one minted token is delivered; with none mounted its hash is the one stored |
| `AdminToken.DeliveredStaysInForce` | internal/cli/cli.go:526-553 | with no file mounted, a token once delivered stays in force through every later step of every replica |
| `AdminToken.WithdrawsOnlyItsOwn` | internal/cli/cli.go:542-551 | with no file mounted, a withdrawal finds its own hash in the row and nothing delivered; a successful one empties the row |
| `AdminToken.FailedDeliveryIsRecoverable` | internal/cli/cli.go:538-551 | after a failed delivery and a successful withdrawal, any later boot can mint, claim and deliver |
| `AdminToken.CrashedWinnerBlocks` | internal/cli/cli.go:512-541 | while the boot that holds the row takes no further step and has delivered nothing, no other boot delivers, however many start |
| `AdminToken.MountedFileDisplaces` | internal/cli/cli.go:484-502 | for every mounted set that is not empty, a run in which a mounted file replaces the hash of a boot that has delivered, or is about to withdraw, its token |
| `AdminToken.InForceIffNoFile` | internal/cli/cli.go:484-551 | delivered tokens are in force in every reachable state, and withdrawals find their own hash, each if and only if no file is mounted |
| `AdminToken.InitAdminToken` | internal/cli/cli.go:468-554 | the call is a run of the machine; by the row, the file, the sink and the database's answers to its calls in order, each exit is taken if and only if its condition holds and the row it leaves is exact, so a refused boot leaves its hash behind only if the delete did not take effect |
| `Cache.SweepsAreInvisible` | internal/cache/memory.go:78-218 | along any run with sweeps anywhere, every call not refused answers as a map never swept and never full would |
| `Cache.SweepsFirstHelp` | internal/cache/memory.go:78-218 | of two runs that differ only in added sweeps, at any times, the answers agree up to the first difference, and there the run with fewer sweeps refuses and the other admits |
| `Cache.SweepsInvisibleUnlessFull` | internal/cache/memory.go:78-218 | a run that is never refused answers every call alike with any sweeps added |
| `Cache.SweepCanHurtLater` | internal/cache/memory.go:78-90 | the smallest run in which a sweep makes a later call fail that succeeds without it |
| `Cache.OnlyHelpsIffUncapped` | internal/cache/memory.go:78-90 | at worst a refusal becomes an admission, for every call of every run and any added sweeps, if and only if there is no cap |
| `Cache.SweepsNeverShowIffUncapped` | internal/cache/memory.go:78-90 | sweeps change no answer of any run within the cap if and only if there is no cap |
| `Cache.CapHolds` | internal/cache/memory.go:78-90 | the size stays within the cap and a refused call changes nothing |
| `Cache.OneWinnerPerWindow` | internal/cache/memory.go:139-155 | SetIfNotExists succeeds at most once per TTL unless the key is deleted or overwritten |
| `Cache.OneReaderPerValue` | internal/cache/memory.go:127-136 | GetAndDelete yields a stored value to one caller only |
| `Cache.ReadBack` | internal/cache/memory.go:92-155 | what a Set or a winning SetIfNotExists stored is what every read returns, through any sweeps and other keys' calls, up to and including the instant its TTL ends, and after that nothing |
| `Cache.DeletedIsGone` | internal/cache/memory.go:118-124 | after a Delete nothing is read until the key is stored again, and no other key changes |
| `CacheMemory.MemoryCache.Increment` | internal/cache/memory.go:160-181 | the method answers and updates as the capped map does: live window kept, lapsed or new window opened, refusal at the cap |
| `CacheMemory.MemoryCache.SetIfNotExists` | internal/cache/memory.go:139-155 | likewise for the conditional set |
| `CacheMemory.MemoryCache.GetAndDelete` | internal/cache/memory.go:127-136 | likewise for the read-and-remove |
| `CacheMemory.MemoryCache.Set` | internal/cache/memory.go:104-116 | likewise for the plain set |
| `CacheMemory.MemoryCache.Cleanup` | internal/cache/memory.go:208-215 | exactly the entries past their expiry go |
| `CacheBackends.PostgresCache.ReapExpired` | internal/cache/postgres.go:67-92 | only expired rows go; unless told to stop it goes on until none is left or twenty batches of 2000 have gone |
| `CacheBackends.MemoryAndPostgresAgree` | internal/cache/postgres.go:95-220 | away from the named edges and from refusals, the capped map and the SQL statements answer every sequence of operations alike, through memory sweeps and partial reaps anywhere |
| `CacheBackends.EdgesAreExact` | internal/cache/postgres.go:95-220 | on equal tables a call gives equal answers and equal tables in both backends if and only if it is not a named edge: a read at the instant of expiry, a count with a TTL on a key without expiry, a count on text that is no number |
| `CacheBackends.CounterRefined` | internal/cache/redis.go:110-134 | for positive whole-millisecond TTLs and no access at the instant of expiry, map, upsert and script give the answers of one fixed-window counter to every run of increments, reads, deletes and evictions |
| `CacheBackends.WindowNeverMoves` | internal/cache/memory.go:157-181 | in the map, the upsert and the script alike, increments inside a window never move its end and are all counted, whatever TTLs they carry |
| `CacheBackends.SubMillisecondNeverEnds` | internal/cache/redis.go:118-134 | a counter the script starts with a TTL under a millisecond keeps no expiry and its exact count through every later run of increments, reads and evictions without its removal, while the map starts again once the TTL is over |
| `CacheBackends.ScriptIsIncrementIff` | internal/cache/redis.go:118-134 | for every table, key, TTL and time, the script does what the map does if and only if ScriptAgrees: on a live number unless it stands at 0 and gets another expiry, on a counter it starts when the TTL is not positive or in whole milliseconds, and at the very instant of expiry only from 0 |
| `CrlHighWater.HighWater.AdmitList` | cmd/admin-gateway/clientauth.go:298-337 | a list is refused exactly when it is older than its issuer's mark by date or by number, and otherwise raises each to the greater of the two, leaving other issuers' marks alone |
| `CrlHighWater.HighWater.LoadCRLs` | cmd/admin-gateway/clientauth.go:391-415 | fails exactly when a file cannot be used, repeats an issuer or goes back, with marks already raised kept; otherwise returns the list of each file in order |
| `CrlHighWater.LoadsIff` | cmd/admin-gateway/clientauth.go:391-476 | loading succeeds if and only if every file is readable and signed, its list dated at most five minutes ahead, with a nextUpdate not passed and no step back from its issuer's mark, and no two are of one issuer |
| `CrlHighWater.VerdictIff` | cmd/admin-gateway/clientauth.go:357-381 | over files, chain and marks alone: refused for the load if and only if some file is not in order, and for revocation if and only if all are and a certificate of the chain is on a list of its own issuer |
| `CrlHighWater.EveryListInWindow` | cmd/admin-gateway/clientauth.go:451-476 | in every interleaving each list a handshake holds was read by it, signed, at a time inside the list's window |
| `CrlHighWater.HighWater.CheckRevocation` | cmd/admin-gateway/clientauth.go:357-381 | the chain is refused exactly when loading fails or one of its certificates is on its own issuer's list |
| `CrlHighWater.CheckIsRun` | cmd/admin-gateway/clientauth.go:357-415 | an uninterrupted handshake is a run of the interleaved machine with the same marks and verdict |
| `CrlHighWater.AdmissionsNeverGoBack` | cmd/admin-gateway/clientauth.go:261-320 | in every interleaving of handshakes, failed ones included, admitted lists of one issuer never go back in thisUpdate or number |
| `CrlHighWater.RevokedStaysRevoked` | cmd/admin-gateway/clientauth.go:339-415 | if among the issuer's usable lists no step back means no fewer revocations, then once any handshake has loaded a list revoking a certificate, no handshake started later that still has a list of that issuer passes it, in any interleaving; nor does that handshake itself |
| `CrlHighWater.StaysRevokedIff` | cmd/admin-gateway/clientauth.go:261-415 | that condition is also necessary: otherwise a run with a clock that never goes back un-revokes a certificate |
| `CrlHighWater.SoundIfGrowing` | cmd/admin-gateway/clientauth.go:293-296 | the condition is met by an issuer whose numbers grow with its revocations, and by one whose dates do, numbered or not |
| `CrlHighWater.UnnumberedTieUnrevokes` | cmd/admin-gateway/clientauth.go:324-337 | a run in which an unnumbered list of the same second lets a revoked certificate pass |
| `SlidingWindow.RecordCounts` | cmd/bridge/detection.go:68-84 | record returns min(4096, events of the address in the window, over its whole history) |
| `SlidingWindow.AnswersAreTrue` | cmd/bridge/detection.go:95-147 | every Record and Count answer to an address that is itself never turned away is min(4096, its events not before now - window, over its whole history), whatever other addresses meet and wherever reaps fall |
| `SlidingWindow.AnswersCountAdmitted` | cmd/bridge/detection.go:95-147 | in every run, at the address cap too, every answer is min(4096, the admitted events of the address in the window, counting the one being recorded) |
| `SlidingWindow.TrackedStaysTracked` | cmd/bridge/detection.go:42-46 | a tracked address stays tracked through any flood if and only if no reap finds it idle for two windows at that moment, and while it does none of its events is turned away |
| `SlidingWindow.Tracker.RecordEvent` | cmd/bridge/detection.go:95-112 | the method performs the recorded step; an address not tracked is turned away with 1, and nothing changes, exactly when 50,000 are |
| `SlidingWindow.Tracker.CountEvents` | cmd/bridge/detection.go:115-134 | the loop counts the timestamps inside the window and changes nothing |
| `SlidingWindow.Tracker.ReapIdle` | cmd/bridge/detection.go:137-147 | exactly the buckets idle for two windows go |
| `WebhookQueue.AlwaysSafe` | cmd/bridge/proxy.go:746-813 | in every interleaving nothing is sent on the closed queue and no Send stands past its check once it is closed, at most 1024 payloads wait and 8 workers deliver, and drops are counted exactly |
| `WebhookQueue.OneOutcomePerSend` | cmd/bridge/proxy.go:794-813 | every Send that returned was exactly one of accepted, dropped, refused |
| `WebhookQueue.OutcomeIff` | cmd/bridge/proxy.go:794-813 | in every reachable state a Send is refused if and only if it finds the flag set, accepted if and only if it finds fewer than 1024 waiting, and otherwise dropped and counted |
| `WebhookQueue.DeliveredInOrder` | cmd/bridge/proxy.go:774-776 | payloads reach delivery in the order accepted, none twice |
| `WebhookQueue.CloseDelivered` | cmd/bridge/proxy.go:818-835 | when a Close has returned every accepted payload has been handed to delivery and all workers are done |
| `WebhookQueue.DeliveredForGood` | cmd/bridge/proxy.go:818-835 | after a Close has returned, no later step of anybody accepts, hands over or delivers anything more |
| `WebhookQueue.NothingAcceptedAfterClosed` | cmd/bridge/proxy.go:799-803 | once the flag is set no step accepts anything more |
| `WebhookQueue.WebhookSender.Send` | cmd/bridge/proxy.go:794-813 | the call is a run of the interleaved machine that gives its payload exactly one outcome, refused if closed, queued at the end below 1024, dropped and counted at 1024 |
| `WebhookQueue.WebhookSender.Close` | cmd/bridge/proxy.go:818-835 | the call is a run of the machine that ends with everything ever accepted handed to delivery in order, all workers gone and the drops reported exactly |
| `ForwardedFor.SplitJoin` | cmd/bridge/proxy.go:596-613 | joining the field lines and splitting at commas gives every hop of every line in order |
| `ForwardedFor.SplitInverts` | cmd/bridge/proxy.go:623 | splitting undoes joining, for every list of hops without commas |
| `ForwardedFor.TrimIs` | cmd/bridge/proxy.go:628 | trimming takes away the blanks around a word and nothing of the word |
| `ForwardedFor.RightmostUntrusted` | cmd/bridge/proxy.go:622-638 | the loop computes the right-to-left walk over the last 32 hops |
| `ForwardedFor.ForwardedClient` | cmd/bridge/proxy.go:615-638 | on the header text: after any prefix an untrusted hop and then fewer than 32 trusted ones, each with any blanks around it, in any number of field lines, the walk yields that hop without its blanks if it parses and nothing otherwise |
| `ForwardedFor.TooManyTrustedHops` | cmd/bridge/proxy.go:588-594 | thirty-two trusted hops on the right of the text, blanks and all, hide everything before them |
| `ForwardedFor.ClientIP` | cmd/bridge/proxy.go:640-678 | the answer is the peer's own address or a parsed address outside every trusted network, the latter only for a trusted peer, by header precedence |
| `ForwardedFor.IsTrustedProxy` | cmd/bridge/proxy.go:680-694 | true exactly for an address inside a declared network |
| `FlagStore.CodecRoundTrip` | cmd/bridge/state.go:153-177 | parsing an encoded flag returns the reason, pipes and all, the score, and the time to the second |
| `FlagStore.ParseSplits` | cmd/bridge/state.go:160-177 | any text is cut at its last two pipes, and is refused if and only if it has not two |
| `FlagStore.RunKeepsSynced` | cmd/bridge/state.go:46-215 | along any run, through any number of restarts, what redis holds encodes the flag in memory or one that has expired |
| `FlagStore.RunKeepsPersisted` | cmd/bridge/state.go:80-84 | along any run every flag in memory is persisted until its whole-second lease in redis is over |
| `FlagStore.ReloadInventsNothing` | cmd/bridge/state.go:179-215 | every reloaded flag was in force, with the same reason and score, and ends less than a second earlier |
| `FlagStore.ReloadLosesNothing` | cmd/bridge/state.go:179-215 | a persisted flag with a second or more left is reloaded |
| `FlagStore.ReloadIff` | cmd/bridge/state.go:66-215 | after any run with any restarts and a TTL in whole seconds, a restart brings a flag back if and only if it has time left counted from the second it was made in |
| `FlagStore.FlaggedIff` | cmd/bridge/state.go:66-215 | after any run from an empty store, reaps, lost keys and restarts included, an address is flagged, with its own reason and score, if and only if it was flagged, not lifted since, and its whole-second TTL has not run out, counted from the moment of the flag or, after a restart, from the second it was in |
| `FlagStore.UnflagLifts` | cmd/bridge/state.go:88-104 | an Unflag lifts one address's flag, in memory and in redis, and leaves every other address as it was in both |
| `FlagStore.UnflagIsFinal` | cmd/bridge/state.go:88-104 | after an Unflag no run that does not flag the address again, restarts included, brings its flag back |
| `FlagStore.SecondRestartLosesNothing` | cmd/bridge/state.go:179-215 | what one restart loaded a later restart loads unchanged: the fraction of a second is lost once |
| `FlagStore.Flags.LoadFromRedis` | cmd/bridge/state.go:186-210 | the loop keeps exactly the well-formed values still in force, under their own addresses |
| `FlagStore.Flags.FlagIP` | cmd/bridge/state.go:66-86 | the address is flagged from now until now + ttl, in memory and in redis together, and no other address changes |
| `FlagStore.Flags.UnflagIP` | cmd/bridge/state.go:89-104 | the address has no entry in memory afterwards, nor in redis if it had one, no other address changes, and the answer is whether it had one |
| `FlagStore.Flags.ReapExpired` | cmd/bridge/state.go:134-144 | exactly the entries past their expiry go and no answer of IsFlagged changes |
| `Retention.SweepBatches` | internal/audit/retention.go:164-196 | the loop is a run of the interleaved machine: at most twenty calls, only rows older than the cutoff go, the total is exactly the rows removed; by the last call's answer, its size and the interrupt found it ends in exactly one of six ways, failed if and only if a call failed or it was canceled, and one ended by a short batch leaves the horizon clear |
| `Retention.Sweep` | internal/audit/retention.go:141-160 | a run of the machine from begin to finish: one record of its cutoff, count and ending exactly when the lock was held and rows were removed or it failed; a successful sweep alone never grows the log |
| `Retention.SweepsAreBounded` | internal/audit/retention.go:117-196 | across replicas and interleavings: at most twenty calls a sweep, totals equal to its own removals, no row removed by two sweeps |
| `Retention.RecordsAreHonest` | internal/audit/retention.go:198-264 | each record speaks for one sweep that held the lock, counts that sweep's own rows, never attests to nothing, and no sweep has two |
| `Retention.RecordIff` | internal/audit/retention.go:198-264 | in every reachable state a sweep has a record, and exactly one with its own count and ending, if and only if it has finished, held the lock, removed rows or failed, and the store took the record |
| `Retention.RecordedFailureIff` | internal/audit/retention.go:164-240 | in every interleaving a record says failed if and only if one of its own sweep's calls failed or it was canceled |
| `Retention.OnlyOldRowsGo` | internal/audit/retention.go:117-196 | in every interleaving a row present at the start or written since is in the log, unchanged, if and only if no batch took it, and a batch that took it belongs to a sweep begun with a later cutoff |
| `Retention.ShortBatchSweepsClean` | internal/audit/retention.go:177-181 | in every reachable state a batch ends its sweep if and only if it is short of 2000, and then no row older than the cutoff is left |

## Left out

- Cryptography, TLS, X.509 parsing and signature checks: a file either holds a signed list or does not; hashes are distinct for distinct tokens.
- HTTP routing, handlers, the reverse proxy, decoy pages, configuration loading, the recovery tool: wiring and straight-line checks that would only add easy members.
- Downloading and parsing of the range sources: the parsers' own bounds (`lo <= hi`, addresses in family, two-letter codes) are the premise `Parsed`.
- IpIntelBlob.Decode: stops before the defensive re-sort, which `GeneratedIsSorted` shows never runs on a generated table; a hand-built unsorted blob is not covered. Lookup's fail-open test for private and loopback addresses is not modelled.
- AuditLogger.Logger.Log: the detector call deferred by Log, metadata scrubbing, the severity score and the write timeout are not modelled.
- Audit store: an insert that reports an error is taken not to have happened, so a commit lost after it took effect is not covered. In requeue the counter and the buffer change in one step because both happen under the lock.
- CacheBackends.MemoryAndPostgresAgree: a call the full map refuses, which PostgreSQL answers, ends the comparison.
- Cache counters are unbounded integers: the error Redis and PostgreSQL raise at the end of the 64-bit range is not modelled; `CacheBackends.CounterRefined` speaks of memory below its cap.
- Cache and PostgreSQL errors other than a full map and a count on text that is no number (taken as an optional sign and digits, without the blanks a cast to bigint forgives): a failed statement changes nothing and answers with an error.
- AdminToken.InitAdminToken: hashing and reading the file are inputs (a file error, or a token named by its boot); a mounted token is one hash, so whether the file still matches the stored one, which only prints a warning, is not modelled.
- AdminToken: a statement whose effect lands after the caller has seen it fail is not modelled beyond "failed but applied at once"; rotation of the token by an operator is not part of this model.
- CrlHighWater.RevokedStaysRevoked: speaks of one process lifetime; a restart seeds the marks again from the files. A handshake already under way when the list is loaded may still decide by the list it read before.
- SlidingWindow: events of an address while it is turned away at the cap are not recorded, so its later answers count its admitted events only.
- FlagStore.Flags.LoadFromRedis: a Get that fails for one key, which the source skips, is not modelled.
- FlagStore.FlaggedIff: for whole-second TTLs too, for the same reason as ReloadIff.
- FlagStore.ReloadIff: a TTL with a fraction of a second ends in redis up to a second early, and one under a second is refused by SET; the theorem is for whole seconds.
- FlagStore.Flags.FlagIP: a SET that fails, which leaves the flag in memory alone, is not modelled.
- FlagStore.Flags.UnflagIP: a DEL that fails, which leaves the key in redis, is not modelled.
- FlagStore: redis failures during Flag, Unflag and the reload, and the RESP protocol, are not modelled; ScanInt reads a leading integer as Sscanf does, without base prefixes or underscores.
- ForwardedFor: TrimSpace trims ASCII white space only; SplitHostPort is replaced by the peer's host.
- Retention.SweepBatches: CleanupLocked is taken at its documented contract, with the cutoff itself as the boundary; the conversion of the horizon to whole seconds and its one-day minimum in SQL are not modelled. In the interleaved machine a failed call may still have removed rows, which no record counts. The purge record lands at once; that Log may buffer it first, as any entry, is the audit logger's part of the model.
- WebhookQueue: delivery itself, and the preference Go's lock gives a waiting writer, which only removes interleavings.
- AlertDetector.KeysAreDistinct: identities reach the key after safeField has replaced characters and cut them to 96 bytes, so longer identities can share a counter; safeField is not modelled.
- AlertDetectorObject.Detector.Observe: safeField, the nil detector and the delivery to a sink are not modelled.
- WebhookQueue.WebhookSender.Close: the object runs one call at a time, with one worker draining; interleavings are the machine's.
- CacheBackends.EdgesAreExact: PostgreSQL keeps timestamps to the microsecond, so a TTL finer than that is rounded there; the model keeps one unit of time for both.
