# Verification of the stateful parts of the FastAPI service

This project models the small stateful algorithms behind the HTTP and WebSocket API and proves what
they keep over whole runs: the two-tier cache, the sliding-window rate limiter and the connection
limiter, pagination with its cursors, filters and count cache, the audit pipeline, the life of
WebSocket endpoints, and the Protocol Buffers conversion. `dafny verify dfyconfig.toml` checks it.

How the modules fit together:

- `Redis` is the part of Redis the service uses: keys that expire, strings, sets and sorted sets, and
  the three ways a call can end (done, done with the reply lost, refused). `Wildcard` and `Scan` are
  patterns and the SCAN/DEL loop under Redis's scan guarantee.
- `RateLimiting` (RateLimiter.dfy) has the limiter as a class and theorems over serial runs with
  injected faults; `Interleaving` has the same check-then-act sequence with its calls interleaved, and
  `OverlappingChecks` whole checks, each with its own clock reading, that overlap. `OverlapRuns` builds
  the runs that reach its bounds, and `SingleChecks` says when checks one at a time keep the limit.
- `Caching` (CacheManager.dfy) is the cache as a class. `Lru` says what least-recently-used order means
  in terms of the history, `CacheRuns` joins the two and bounds staleness over runs of one instance,
  `CacheCoherence` does so for many instances whose calls interleave, and `CacheSteps` shows that its
  parts make up the operations of the one.
- `CursorCodec`, `Filters`, `Pagination`, `CountCache` and `Authors` are the paginated reads, the count
  cache and the author commands it has to agree with.
- `AuditPipeline` and `Sanitizer` are the audit log. `Lifecycle` is a state machine over any number of
  WebSocket endpoints; `WebSocket` has the endpoint, limiter and manager as classes and proves that
  their methods are paths of that machine. `Protobuf` is the message conversion.

Conventions. Time is a real number of seconds and, in runs, does not run backwards. Clocks, Redis
replies, database outcomes, SCAN replies and incoming messages are parameters, so every theorem holds
for all of them. A class method is specified by a function of the old state (or as a path of a state
machine), and the theorems are about runs of that function. The hash is taken to tell
the filter dictionaries in use apart, and JSON text is represented by the value it encodes.

Where code and documentation disagree, the model follows the code:

- `burst` is documented as an allowance on top of the limit (rate_limiter.py:69, "120 total"), but line
  110 takes the minimum of the two, and a burst of 0 means none.
- A missing Redis handle lets requests through in fail mode "closed" too (rate_limiter.py:95-97); only
  a RedisError is refused. `RateLimiting.PassedBound` states the exact excess, and
  `RateLimiting.ClosedModeBound` that the limit is kept only if the handle is never missing.
- A rate-limit member is the printed clock value, so requests at one instant share a member.
  `RateLimiting.CoarseClockBound` gives the exact condition under which the limit survives that.
- A `set` whose period is zero or less is refused by Redis and leaves an older value there, to be
  served again later (`CacheRuns.OldValueReturns`).
- A `get` reads Redis and fills L1 in two steps, so across instances staleness is not bounded by the
  periods alone (`CacheCoherence.StalenessReached`, and `CacheCoherence.PeriodsSufficeIff` for when it is).
- The shutdown flush promises that no log is lost (audit_logger.py:149). The worker's batch in hand is, and
  so is the entry of a producer that waited for room in the queue until the flush made some
  (`AuditPipeline.AcceptedEntryLost`, `AuditPipeline.WaitingEntryLost`). `AuditPipeline.ShutdownLosesNothing`
  says exactly when the promise is kept.
- The limiter promises at most `limit` requests in a window (rate_limiter.py:44). Checks of one user that
  overlap break that (`OverlapRuns.OverlapBoundIsExact`), and so can checks one at a time, for a key that
  expires between ZADD and EXPIRE takes the new member with it (`SingleChecks.SingleChecksKeepLimitIff`).
- A broadcast drops a key whose client is gone although another connection has taken it over meanwhile
  (`WebSocket.ReplacementDroppedIff`).
- `sanitize_data` does not look into a list inside a list (`Sanitizer.SpotlessUnlessBuried`).
- The cursor strategy asks for a query ordered by id, but `build_query` adds no ORDER BY
  (`Pagination.WalkNeedsOrder` gives the exact condition), and through `get_paginated_results` a request
  without cursor never receives a next cursor (`Pagination.AnswerIsBounded`).
- Several filters are documented to use OR (filters.py:52); they are a conjunction
  (`Filters.FiltersAreConjunction`).
- Updates deliberately leave the count cache alone (`Authors.UpdateLeavesCountRight`), and creates and
  deletes invalidate before the commit (`Authors.ReadBeforeCreateCommits`, `Authors.ReadBeforeDeleteCommits`).
- The active-connections gauge is also lowered for refused connections (`Lifecycle.GaugeRightIff`), a
  user's connections share one manager key (`Lifecycle.ReachableUntilDisplaced`), and the limiter's key
  expires under open connections (`Lifecycle.NoBoundAcrossLapses`; `Lifecycle.LimitHoldsForAnHour` says for how
  long the limit holds).

## Model

| member | source | states |
|---|---|---|
| `RateLimiting.RateLimiter.CheckRateLimit` | app/utils/rate_limiter.py:90-138 | verdict and sorted set after one check, for every handle, fault and fail mode |
| `RateLimiting.AnyWindowBound` | app/utils/rate_limiter.py:93-123 | in every serial run, whatever fails, each window (T-w, T] holds at most min(burst, limit) admission instants |
| `RateLimiting.LimitAndBurstBound` | app/utils/rate_limiter.py:103-114 | in plain terms: no window holds more admissions than the limit, nor more than a burst other than 0 |
| `RateLimiting.PassedBound` | app/utils/rate_limiter.py:90-138 | on a strictly increasing clock the requests let through are the admissions, within the limit, and exactly those that bypassed the limiter |
| `RateLimiting.ClosedModeBound` | app/utils/rate_limiter.py:93-97 | over all runs, fail mode "closed" keeps the limit if and only if the handle is never missing or the window is empty |
| `RateLimiting.ExactWindow` | app/utils/rate_limiter.py:103-123 | without faults a request is denied exactly when the last window is full, and `remaining` is the exact slack |
| `RateLimiting.ExactVerdict` | app/utils/rate_limiter.py:106-123 | without faults a request is denied exactly when the last window holds `limit` admissions or as many as a burst other than 0, and otherwise told the room that the smaller of the two leaves |
| `RateLimiting.CountedIsLastWindow` | app/utils/rate_limiter.py:100-120 | without faults the pruned, expiring set is exactly the admissions of the last window |
| `RateLimiting.OnlyAdmissionsStored` | app/utils/rate_limiter.py:116-117 | only admitted requests are ever in the set |
| `RateLimiting.CoarseClockBound` | app/utils/rate_limiter.py:99-117 | the bound on requests survives a clock that stands still if and only if the effective limit is at most 1 or the window is empty |
| `RateLimiting.CheckIsSteps` | app/utils/rate_limiter.py:93-138 | every check, however it ends, is made of the prune, count, add and expire steps of the interleaved model |
| `OverlappingChecks.AnyWindowOverlapBound` | app/utils/rate_limiter.py:99-120 | when up to k whole checks overlap, with time passing and failures between their calls, a window holds at most limit + 3k - 1 admission instants, 2k for a limit of 1 and none for a limit of 0 |
| `OverlappingChecks.UndisturbedIsCheck` | app/utils/rate_limiter.py:93-138 | a check with no other in between is one of the serial model, with the same window and outcome, whatever call raises |
| `OverlappingChecks.WithinUntilEnd` | app/utils/rate_limiter.py:99-120 | up to the end of the window at most limit + k - 1 and those lost with an expiring key, at most k |
| `OverlapRuns.OverlapBoundIsExact` | app/utils/rate_limiter.py:99-120 | over all runs a number bounds every window if and only if it is at least that |
| `SingleChecks.SingleChecksKeepLimitIff` | app/utils/rate_limiter.py:99-120 | over all runs with one check at a time, each over within d seconds, the limit holds if and only if it is 0, or the window is empty, or d is 0, or the limit is 1 and d at most the window |
| `OverlapRuns.QuickChecksExceed` | app/utils/rate_limiter.py:116-120 | for a limit of 2 or more and checks as quick as one likes, a run in which members are lost between ZADD and EXPIRE and a window holds limit + 2k - 1 |
| `Interleaving.OverAdmissionBound` | app/utils/rate_limiter.py:103-120 | however calls interleave, members plus callers between count and add stay below limit + k |
| `Interleaving.OneAtATimeIsExact` | app/utils/rate_limiter.py:187-201 | with one caller at a time between count and add the limit is exact |
| `Interleaving.OverAdmissionReached` | app/utils/rate_limiter.py:187-201 | for every limit and k some interleaving reaches limit + k - 1 |
| `Wildcard.PrefixPattern` | app/utils/pagination_cache.py:108-113 | the pattern "part*" matches exactly the extensions of part |
| `Wildcard.InfixPattern` | app/storage/db.py:297-298 | the pattern "%part%" matches exactly the texts in which part occurs |
| `Wildcard.PatternByParts` | app/managers/cache_manager.py:275-281 | what each part of a pattern stands for: anything, one character, an escaped character, a character |
| `Scan.DeleteMatching` | app/managers/cache_manager.py:275-289 | the loop ends with no matching key live, other keys untouched, and the count of the matching keys at the start; after a call that raises, exactly the batches deleted so far are gone |
| `Scan.CountDeleted` | app/managers/cache_manager.py:275-289 | keys counted by the DELs are those selected at the start, less those that expired |
| `Lru.CachedByReuseDistance` | app/managers/cache_manager.py:302-327 | a key is cached exactly when fewer than max distinct other keys were touched since, and the keys behind it in eviction order are those |
| `Lru.ReplayIsByRecency` | app/managers/cache_manager.py:302-327 | without removals the contents are the last max distinct touched keys in touch order |
| `Lru.SmallerCacheIsSuffix` | app/managers/cache_manager.py:302-327 | after the same touches and removals a smaller cache holds the most recent keys of a larger one |
| `Caching.CacheManager.SetMemory` | app/managers/cache_manager.py:302-327 | the key goes to the recent end with a fresh expiry, and the least recent entry is evicted beyond the maximum |
| `Caching.CacheManager.GetFromRedis` | app/managers/cache_manager.py:161-176 | a hit in L2 fills L1 for the default period, a failure is a miss |
| `Caching.CacheManager.Get` | app/managers/cache_manager.py:121-158 | L1 hit, expired entry, back-fill and miss as the two-tier specification has them |
| `Caching.CacheManager.Set` | app/managers/cache_manager.py:178-206 | both tiers after a set, with the default period if none is given |
| `Caching.CacheManager.Invalidate` | app/managers/cache_manager.py:208-239 | the key is gone from L1, and from L2 if the call gets through |
| `Caching.CacheManager.InvalidatePattern` | app/managers/cache_manager.py:241-289 | L1 is emptied; L2 and the count are those of the scan loop, and 0 after an error |
| `Caching.CacheManager.Clear` | app/managers/cache_manager.py:291-297 | only L1 is emptied |
| `CacheRuns.ServedIsSetOrStored` | app/managers/cache_manager.py:121-289 | in every run, whatever fails, a get returns the last set of its key or the last that took effect in Redis, at most ttl + default_ttl old |
| `CacheRuns.ServedIsLastSet` | app/managers/cache_manager.py:121-239 | if the last operation on the key took effect in Redis it is the last set, not invalidated since, at most ttl + default_ttl old |
| `CacheRuns.LastSetMeaning` | app/managers/cache_manager.py:178-239 | "last set" is a set of the key that no later operation undoes |
| `CacheRuns.StalenessBoundReached` | app/managers/cache_manager.py:136-176 | the bound is reached for every period |
| `CacheRuns.OldValueReturns` | app/managers/cache_manager.py:178-206 | over all runs, after a set an older value can be served if and only if its SETEX did not reach Redis or its period is not positive |
| `CacheRuns.L1RefinesLru` | app/managers/cache_manager.py:136-153 | in every run the keys of L1 are those of the LRU specification and never more than max |
| `CacheRuns.OpMovesKeys` | app/managers/cache_manager.py:121-327 | each operation is one touch, removal or sweep of the LRU specification |
| `CacheRuns.VictimIsLeastRecent` | app/managers/cache_manager.py:302-327 | in every run an entry evicted by a get or set of another key leaves a full cache, and none that stays was accessed before it |
| `CacheRuns.RunStaysBacked` | app/managers/cache_manager.py:121-289 | every entry of either tier comes from the last set of its key or the last that took effect; back-filled entries are not written back |
| `CacheRuns.StoredUntilPeriodEnds` | app/managers/cache_manager.py:178-239 | in every run Redis serves the value of the last set that took effect until its own or the default period is over, and not longer |
| `CacheRuns.ReadFindsStored` | app/managers/cache_manager.py:121-176 | until then a read whose Redis call does not raise returns a value, and that one if L1 has none |
| `CacheRuns.SetIsRead` | app/managers/cache_manager.py:136-206 | for its whole period a set is what reads return, whatever becomes of Redis, as long as L1 keeps the key and no later set replaces it |
| `CacheRuns.CopyIsRead` | app/managers/cache_manager.py:136-176 | a value copied from Redis is what later reads return for one default period under the same condition |
| `CacheCoherence.StaleNoLongerThan` | app/managers/cache_manager.py:136-239 | a value overwritten or deleted in Redis at T is served by no instance after T + max(ttl, delay + default_ttl) |
| `CacheCoherence.ServedBound` | app/managers/cache_manager.py:121-176 | a served value is within its own period, or Redis held it at most delay + default_ttl ago |
| `CacheCoherence.StalenessReached` | app/managers/cache_manager.py:161-176 | some interleaving serves a deleted value, stored for one second, for any read delay plus default_ttl |
| `CacheCoherence.PeriodsSufficeIff` | app/managers/cache_manager.py:121-176 | the periods alone bound staleness if and only if the read delay vanishes, or delay and default period together stay within a second |
| `CacheCoherence.ReadableUntilThen` | app/managers/cache_manager.py:161-239 | until a write expires or is overwritten or deleted it can be read from Redis, whatever happens to other keys |
| `CacheCoherence.MissAfterOwnInvalidation` | app/managers/cache_manager.py:208-239 | after its own invalidation an instance has nothing in L1 for the key until it sets or copies it again |
| `CacheSteps.GetIsSteps` | app/managers/cache_manager.py:121-176 | a get whose parts follow one another at once is a get of the single manager on what the instance sees |
| `CacheSteps.SetIsSteps` | app/managers/cache_manager.py:178-206 | so is a set |
| `CacheSteps.InvalidateIsSteps` | app/managers/cache_manager.py:208-239 | and so is an invalidation |
| `CursorCodec.Base64RoundTrip` | app/storage/db.py:132-132 | decoding an encoded byte string gives it back, with every padding |
| `CursorCodec.IntRoundTrip` | app/storage/db.py:132-149 | parsing a printed integer gives it back |
| `CursorCodec.CursorRoundTrip` | app/storage/db.py:122-151 | decode_cursor(encode_cursor(n)) = n for every integer |
| `CursorCodec.CursorsAreDistinct` | app/storage/db.py:122-132 | different ids have different cursors, and none is empty |
| `CursorCodec.ParsesLiteral` | app/storage/db.py:148-149 | which texts are integers: white space around, one sign, digits with single underscores between them; and which integer |
| `CursorCodec.DecoderSkips` | app/storage/db.py:149-149 | the decoder skips exactly the characters outside the alphabet and the padding |
| `CursorCodec.RefusedCursor` | app/storage/db.py:148-151 | which cursors are refused |
| `CursorCodec.PrintedPlainly` | app/storage/db.py:132-132 | an id is printed without superfluous sign or zero |
| `Filters.ApplyFilters` | app/storage/db.py:287-304 | one condition per entry, or an error at a key that is no column |
| `Filters.KeyOrderIrrelevant` | app/storage/db.py:287-304 | a dictionary selects the same rows in any key order, so count and data query agree |
| `Filters.FiltersAreConjunction` | app/storage/db.py:287-304 | a row is selected exactly when every entry selects it |
| `Filters.ListSelects` | app/storage/db.py:290-291 | a list filter on a column of its type selects the rows whose value is in the list |
| `Filters.ValueSelects` | app/storage/db.py:299-300 | an id selects its row, and a null value none |
| `Filters.RefusedFilters` | app/storage/db.py:287-304 | which pairs of key and value are an error, and of which kind |
| `Filters.FiltersTogether` | app/storage/db.py:287-304 | several filters fail when one of them does and otherwise select what each of them selects |
| `Filters.TextSelects` | app/storage/db.py:292-298 | a text without wildcards selects the names that hold it somewhere, capital and small ASCII letters being the same |
| `Filters.TextFilterIsSubstring` | app/storage/db.py:292-298 | a text filter without wildcards is case-insensitive substring search, however the database folds a letter |
| `Filters.SanitizedText` | app/storage/db.py:293-297 | what is searched for is the text without the percent signs at either end, cut to 255 characters |
| `Pagination.AnswerIsBounded` | app/storage/db.py:226-264 | page sizes are clamped, rows are rows of the table the filters select, and a next cursor is given exactly to cursor requests with more to come |
| `Pagination.ReadFails` | app/storage/db.py:207-259 | when a paginated read is a ValueError and when a database error |
| `Pagination.ReadByNumber` | app/storage/pagination/offset.py:135-161 | without a cursor exactly the rows of that page in order, with size, total, pages and has_more; 20 rows if no size is asked for, never more than 1000 |
| `Pagination.ReadByCursor` | app/storage/pagination/cursor.py:100-132 | with a cursor exactly the rows behind it, and the cursor of the last one if there are more |
| `Pagination.PageContents` | app/storage/pagination/cursor.py:103-116 | a cursor page holds exactly the rows above the cursor and up to its own last id |
| `Pagination.NextCursorMeans` | app/storage/pagination/cursor.py:111-120 | the next cursor exists exactly if there is more, and decodes to the page's last id |
| `Pagination.WalkIncreases` | app/storage/pagination/cursor.py:73-120 | while the table changes in any way, a walk returns strictly increasing ids, so none twice |
| `Pagination.WalkReturnsIntervals` | app/storage/pagination/cursor.py:73-120 | page i of a completed walk is exactly the matching rows of its own snapshot in its interval of ids |
| `Pagination.WalkReturnsAllThatStays` | app/storage/pagination/cursor.py:73-120 | a completed walk returns exactly once every id with a matching row at the time of every page |
| `Pagination.OffsetPageIsSlice` | app/storage/pagination/offset.py:135-145 | an offset page is the slice it names, and has_more tells whether the rows go on, whatever the cached total |
| `Pagination.OffsetPagesAreAll` | app/storage/pagination/offset.py:135-159 | pages 1..pages concatenate to the whole list, has_more iff page < pages, nothing beyond |
| `Pagination.CeilingAbove` | app/storage/pagination/offset.py:147-148 | the page count is the exact ceiling |
| `Pagination.WalkIsWhole` | app/storage/pagination/cursor.py:103-120 | on a fixed table in id order the walk returns the whole list |
| `Pagination.WholeWalkIsOffsetPages` | app/storage/pagination/cursor.py:103-120 | and its pages are the offset pages one by one, in max(1, pages) steps |
| `Pagination.CursorWalkIsOffsetPages` | app/storage/pagination/cursor.py:103-120 | the same for the rest of a walk that has seen n pages |
| `Pagination.WalkNeedsOrder` | app/storage/pagination/query_builder.py:97-118 | without ORDER BY the walk yields the rows if and only if their order cuts cleanly at the page boundaries |
| `CountCache.KeysAreFilters` | app/utils/pagination_cache.py:133-152 | two queries in use share a cache key exactly when their filters are the same up to order |
| `CountCache.DigestExists` | app/utils/cache_keys.py:62-74 | for any finitely many dictionaries a hash without collisions exists |
| `CountCache.StoredIsFound` | app/utils/pagination_cache.py:20-83 | a stored count is found until its period is over, by exactly the queries with the same filters |
| `CountCache.CountIsReported` | app/utils/pagination_cache.py:16-83 | a count is reported for 300 seconds whatever becomes of the table, and taken again after that or when Redis fails |
| `CountCache.PatternHitsModel` | app/utils/pagination_cache.py:106-118 | the pattern of one model hits all its counts and none of another model |
| `CountCache.Counts.InvalidateCountCache` | app/utils/pagination_cache.py:86-130 | without filters no live count of the model is left unless the scan breaks off, with filters exactly one key goes |
| `CountCache.OffsetPagination.Paginate` | app/storage/pagination/offset.py:83-161 | the answer from cached or counted total, the cache left behind, and the error cases |
| `Authors.AuthorCommands.Create` | app/commands/author_commands.py:178-192 | conflict, or a new row with a fresh id, and no live count left unless the invalidation fails |
| `Authors.AuthorCommands.Update` | app/commands/author_commands.py:231-253 | not found, conflict, or the renamed row; the cache stays |
| `Authors.AuthorCommands.Delete` | app/commands/author_commands.py:291-298 | not found, or the row is gone, and no live count left unless the invalidation fails |
| `Authors.RunExists` | app/commands/author_commands.py:178-298 | any requests in order of time make a run, so the results about runs are not empty |
| `Authors.InvalidatingRunExists` | app/commands/author_commands.py:178-298 | and there is one in which every invalidation succeeds |
| `Authors.TableIsWellKept` | app/commands/author_commands.py:178-253 | in every serial run ids ascend below the next id and names stay unique |
| `Authors.RequestChangesTable` | app/commands/author_commands.py:178-298 | which rows each request adds, renames or removes, and when it is refused |
| `Authors.CountsAgree` | app/commands/author_commands.py:178-298 | in every serial run whose invalidations succeed each cached count is the current one: for all filters without updates, for filters not on the name otherwise |
| `Authors.AnswersAreExact` | app/storage/pagination/offset.py:110-133 | so the reported total is the size of the list |
| `Authors.UpdateLeavesCountRight` | app/commands/author_commands.py:243-253 | after an update a cached count is right if and only if its filters judge old and new name alike |
| `Authors.AnswersAreRecent` | app/utils/pagination_cache.py:16-83 | whatever fails and whatever is updated, a reported total was exact at most 300 seconds earlier |
| `Authors.ReadBeforeCreateCommits` | app/commands/author_commands.py:185-192 | a count cached between invalidation and commit is right afterwards if and only if the filters do not select the created row |
| `Authors.ReadBeforeDeleteCommits` | app/commands/author_commands.py:295-298 | and after a delete if and only if they do not select the deleted row |
| `AuditPipeline.PipelineConserves` | app/utils/audit_logger.py:69-142 | in every interleaving nothing accepted disappears, the queue is first in first out, sizes are bounded, the dropped counter is exact |
| `AuditPipeline.ProducersConserve` | app/utils/audit_logger.py:392-434 | in every interleaving each entry brought is accepted, waiting or given up, once, and the counter counts those given up |
| `AuditPipeline.AcceptedInOrder` | app/utils/audit_logger.py:80-133 | accepted entries in order are finished batches, batch in hand, flushed entries, queue |
| `AuditPipeline.ShutdownAccounts` | app/utils/audit_logger.py:145-187 | whoever still queues entries, the accepted ones are those written, lost in failed batches, flushed, in the cancelled worker's hand, and left in the queue |
| `AuditPipeline.ShutdownLosesBatchInHand` | app/__init__.py:113-145 | over all ways to shut down from a state, without new entries or failed writes, exactly the batch in the worker's hand is lost if and only if no producer waits for room at the drain |
| `AuditPipeline.ShutdownLosesNothing` | app/utils/audit_logger.py:145-187 | and nothing is lost if and only if besides the worker holds no batch at the drain |
| `AuditPipeline.WaitingEntryLost` | app/utils/audit_logger.py:404-417 | a producer let in by the drain leaves its entry in the queue for good, uncounted |
| `AuditPipeline.AcceptedEntryLost` | app/utils/audit_logger.py:84-137 | an accepted entry can be lost without any database failure |
| `AuditPipeline.AuditLogger.LogUserAction` | app/utils/audit_logger.py:392-434 | queued, waiting or dropped, with the counter |
| `AuditPipeline.AuditLogger.CollectBatch` | app/utils/audit_logger.py:80-94 | with producers coming along at every wait, the batch is the oldest entries queued before or meanwhile, up to the batch size, and short only if the queue ran empty |
| `AuditPipeline.AuditLogger.WriteBatch` | app/utils/audit_logger.py:96-130 | the batch is written or lost, and emptied |
| `AuditPipeline.AuditLogger.DrainQueue` | app/utils/audit_logger.py:160-172 | the flush takes the whole queue in order |
| `AuditPipeline.AuditLogger.FlushAuditQueue` | app/utils/audit_logger.py:145-187 | what is drained is written in one transaction or lost, and the count returned |
| `Sanitizer.LogRevealsExactlyAlike` | app/utils/audit_logger.py:190-221 | two inputs leave the same log entry if and only if they differ at most under sensitive keys of reachable dictionaries |
| `Sanitizer.FieldByField` | app/utils/audit_logger.py:206-219 | what becomes of every field: redacted if its key spells one of the fifteen names in any case, sanitized inside if it is a dictionary or a list, and otherwise unchanged |
| `Sanitizer.SanitizedIsAlike` | app/utils/audit_logger.py:190-221 | keys, their order and every leaf not under a sensitive key are kept |
| `Sanitizer.SanitizeIdempotent` | app/utils/audit_logger.py:190-221 | sanitizing twice changes nothing more |
| `Sanitizer.CleanIsFixed` | app/utils/audit_logger.py:190-221 | exactly the clean data is left alone |
| `Sanitizer.SanitizedIsClean` | app/utils/audit_logger.py:205-221 | every sensitive key of a reachable dictionary is redacted |
| `Sanitizer.SpotlessUnlessBuried` | app/utils/audit_logger.py:211-219 | no secret at all is left if and only if none was buried in a list within a list |
| `Sanitizer.NestedListLeaks` | app/utils/audit_logger.py:211-219 | a concrete input whose password is logged |
| `Lifecycle.ReceiveAfterHandshake` | app/api/ws/websocket.py:121-352 | on_receive runs only after token decode, limiter admission, registration and auth_ok, in this order |
| `Lifecycle.CleanupOnce` | app/api/ws/websocket.py:140-172 | on_disconnect runs at most once, exactly once for every endpoint past it, never for a crashed handshake |
| `Lifecycle.IdsAreHeld` | app/api/ws/websocket.py:426-446 | a counted id belongs to an endpoint that wrote it and has not finished, or that crashed, unless Redis refused to remove it |
| `Lifecycle.NothingLeftBehind` | app/api/ws/websocket.py:426-446 | a finished endpoint whose removal reached Redis leaves no id behind, even after a half-failed add |
| `Lifecycle.LeftBehindIff` | app/utils/rate_limiter.py:209-227 | as it finishes, an endpoint leaves its id behind if and only if it was counted and the removal was refused |
| `Lifecycle.IdsWithinLimit` | app/utils/rate_limiter.py:169-207 | ids of a user plus endpoints about to add one stay below limit + k, in every interleaving |
| `Lifecycle.AcceptedAreCounted` | app/api/ws/websocket.py:310-352 | while the key does not lapse every added connection is counted until its removal, a crashed handshake for good |
| `Lifecycle.OpenWithinLimit` | app/utils/rate_limiter.py:169-207 | while the key does not lapse the open connections of a user are bounded too |
| `Lifecycle.LimitHoldsForAnHour` | app/utils/rate_limiter.py:200-201 | admitted one at a time, no run of h seconds has more than max connections open if and only if h is at most 3600 |
| `Lifecycle.NoBoundAcrossLapses` | app/utils/rate_limiter.py:200-201 | across lapses any number of connections of one user can be open, one admission at a time |
| `Lifecycle.TouchIsShared` | app/utils/rate_limiter.py:187-201 | each limiter call of an endpoint is one step of the interleaved model |
| `Lifecycle.GaugeCounts` | app/api/ws/websocket.py:345-446 | the gauge is accepted connections not finished less refused connections finished |
| `Lifecycle.GaugeRightIff` | app/api/ws/websocket.py:440-446 | it is right if and only if no refused connection has been cleaned up |
| `Lifecycle.ManagerHoldsLive` | app/managers/websocket_connection_manager.py:44-72 | the manager never maps a key to a socket that has entered on_disconnect |
| `Lifecycle.ReachableUntilDisplaced` | app/managers/websocket_connection_manager.py:44-72 | a connection is reachable exactly until the same user registers again, leaves with any connection, or a broadcast fails |
| `WebSocket.ConnectionManager.Disconnect` | app/managers/websocket_connection_manager.py:58-72 | the key is gone |
| `WebSocket.ConnectionManager.Broadcast` | app/managers/websocket_connection_manager.py:86-134 | with sends ending in any order and others connecting and disconnecting between them, each key is decided by the last move on it, a dead send being one |
| `WebSocket.BroadcastAlone` | app/managers/websocket_connection_manager.py:86-134 | with no one else in between exactly the connections of dead clients are dropped |
| `WebSocket.ReplacementDroppedIff` | app/managers/websocket_connection_manager.py:104-119 | a connection that takes over a key meanwhile, never tried itself, is dropped if and only if the send to its predecessor then ends dead |
| `WebSocket.ConnectionLimiter.AddConnection` | app/utils/rate_limiter.py:168-207 | when it answers True, and the set after every combination of faults |
| `WebSocket.ConnectionLimiter.RemoveConnection` | app/utils/rate_limiter.py:209-227 | the id is gone if the call gets through |
| `WebSocket.Endpoint.OnConnect` | app/api/ws/websocket.py:382-424 | one step of the machine: rejected, or awaiting the first frame |
| `WebSocket.Endpoint.OnFirstMessage` | app/api/ws/websocket.py:174-281 | the handshake is a path of the machine, with its three endings |
| `WebSocket.Endpoint.PostAuthSetup` | app/api/ws/websocket.py:283-352 | the setup is a path of the machine; which replies let it through |
| `WebSocket.Endpoint.RegisterSession` | app/api/ws/websocket.py:333-352 | session, manager, gauge and auth_ok |
| `WebSocket.Endpoint.OnDisconnect` | app/api/ws/websocket.py:426-454 | the cleanup is a path of the machine, and raises exactly when the user attribute was never set |
| `WebSocket.Endpoint.Serve` | app/api/ws/websocket.py:145-172 | messages up to the first that is no data are handled, and the cleanup follows in any case |
| `WebSocket.Endpoint.Dispatch` | app/api/ws/websocket.py:121-172 | the whole life is a path of the machine; after a handshake that got through exactly the messages before the first that is no data are handled, otherwise none; when it ends quietly and when its cleanup is complete |
| `Protobuf.UuidRoundTrip` | app/utils/protobuf_converter.py:37-69 | a UUID survives its text form |
| `Protobuf.UuidShape` | app/utils/protobuf_converter.py:37-37 | 36 characters, with hyphens after 8, 12, 16 and 20 small hex digits |
| `Protobuf.UuidIsRead` | app/utils/protobuf_converter.py:68-68 | which texts are UUIDs: 32 hex digits, small or capital, with hyphens anywhere |
| `Protobuf.ToProtoRequest` | app/utils/protobuf_converter.py:35-46 | the message fields of a request |
| `Protobuf.RequestRoundTrip` | app/utils/protobuf_converter.py:35-71 | a request and back is its normal form |
| `Protobuf.RequestsMeetIff` | app/utils/protobuf_converter.py:35-46 | two requests become the same message if and only if they normalise alike |
| `Protobuf.NormalRequests` | app/utils/protobuf_converter.py:35-71 | normalising a request is idempotent, and its fixed points |
| `Protobuf.RequestIsSent` | app/utils/protobuf_converter.py:35-46 | the message of a request field by field |
| `Protobuf.RequestIsRead` | app/utils/protobuf_converter.py:63-71 | which messages are requests, and which |
| `Protobuf.ResponseMessage.SetMeta` | app/utils/protobuf_converter.py:107-120 | metadata is set if and only if its numbers fit 32 bits |
| `Protobuf.ToProtoResponse` | app/utils/protobuf_converter.py:89-122 | the message fields of a response, or an error |
| `Protobuf.ResponseRoundTrip` | app/utils/protobuf_converter.py:89-158 | a response and back is its normal form exactly when its metadata fits and is valid, and an error otherwise |
| `Protobuf.ModelMetaReturns` | app/utils/protobuf_converter.py:107-158 | for metadata that is a model only the range matters |
| `Protobuf.NormalResponses` | app/utils/protobuf_converter.py:89-158 | normalising is idempotent, and its fixed points |
| `Protobuf.ResponsesMeetIff` | app/utils/protobuf_converter.py:89-122 | two responses become the same message if and only if they normalise alike |
| `Protobuf.ResponseIsSent` | app/utils/protobuf_converter.py:89-122 | the message of a response field by field, with what stands for missing metadata, and when it cannot be sent |
| `Protobuf.ResponseIsRead` | app/utils/protobuf_converter.py:139-158 | which messages are responses, and which |

## Left out

- CacheRuns.ServedIsLastSet: speaks of keys whose last operation took effect in Redis; `CacheRuns.ServedIsSetOrStored` and `CacheRuns.OldValueReturns` say what happens otherwise.
- CacheCoherence.StaleNoLongerThan: the time between reading Redis and filling L1 is a parameter, because the code does not bound it.
- Authors.CountsAgree: each command is atomic with its commit; `Authors.ReadBeforeCreateCommits` and `Authors.ReadBeforeDeleteCommits` treat the gap between them.
- Scan.DeleteMatching: no other client writes during the iteration, which is what the guarantee of SCAN needs.
- Lifecycle.OpenWithinLimit: holds while the user's key does not expire under open connections; `Lifecycle.LimitHoldsForAnHour` gives the exact time.
- WebSocket.Endpoint.OnConnect: the comparison of the Origin header with the allowed list is a parameter.
- Filters.TextFilterIsSubstring: letters are folded one by one; a locale that folds one letter to several is not modelled. Rows are selected with the folding of ASCII letters.
- CursorCodec.CursorRoundTrip: the decoder refuses bytes outside ASCII; digits of other scripts, which Python's int accepts, and its limit of 4300 digits are not modelled.
- Protobuf.UuidRoundTrip: braces, URN prefixes and underscores in UUID text are not modelled.
- Cached values are opaque: a cached null, which a caller cannot tell from a miss, and JSON text are not modelled.
- Glob character classes, and server clocks that differ from the client's.
- Database sessions, rollbacks and retries, id sequences with gaps, integers beyond the range of a database column, and filter keys that name an attribute that is no column.
- Audit-log endpoints with custom date filters, whose count keys ignore the dates.
- The circuit breaker, Keycloak, metrics other than the two counters above, logging, and the content of log messages.
- The package router, message formats, error envelopes, the middleware pipeline, security headers, settings, and the token cache: mostly facts about one branch.
- The command line tool, code generator, benchmarks and migrations.
