# Verified models of the Clario360 platform's stateful cores

Dafny models of the parts of the platform whose correctness depends on state that survives from call to call, with
proofs about every run of them. `dafny verify dfyconfig.toml` checks everything.

| files | what they model |
|---|---|
| `AnswerCaching`, `LruTheorems`, `CachedAsk`, `AskInclusion` | the second brain's answer cache: LRU with expiry, its key, and overlapping asks through it |
| `RateLimiting` | the token-bucket limiter |
| `RouteBlocks` | route discovery in the API documentation generator |
| `EntryHashing`, `AuditChain`, `Rebaselining`, `AuditStore`, `AuditAppends`, `AuditFlushes` | the audit log's hash chains: hashing, verifying, rebuilding, appending |
| `Ingestion` | incremental document ingestion |
| `Scoring` | Arabic-normalised matching |
| `IdentityRenewal` | the agent's certificate: renewal timing, and what is on disk meanwhile |
| `EnrollmentTokens` | single-use enrolment tokens with their Redis claim and durable backstop |
| `DekCustody` | which key buffers may be zeroed |
| `LeaderSingleton` | loops that run under leadership, and the Redis election behind them |
| `IsolationAudit`, `Remediation`, `IsolationReport` | the tenant-isolation audit and its remediation |
| `Common`, `Ordering`, `Subsequences`, `Text` | shared vocabulary |

Each object that the source updates in place is a class whose methods are proved against step functions; the theorems
are about runs of those functions. Clock readings, network and disk outcomes, and answers of databases are parameters,
so that each theorem covers all of them. Hash functions are parameters assumed free of collisions where a result says
so; the audit hash is instead modelled down to the text it digests. The normal forms that PostgreSQL gives UUID and JSONB
values are parameters too.

## Where the code does less than its documentation or callers expect

The code is modelled as it is. Lemmas give the failing inputs and, where they are named `...Iff`, exactly when the
expected behaviour holds.

- The answer cache's key is said to cover "every input that can change the answer" (`ai/second-brain/app/cache.py:7-8`);
  the retrieval mode is not in it, nor the corpus the passages came from, whose version is read after the retrieval
  (`CachedAsk.ModeOutsideKey`, `CachedAsk.RetrievalOutsideKey`, `CachedAsk.CachedAgreesIff`).
- A larger cache need not serve everything a smaller one does once entries expire or asks overlap, since an ask looks up
  and stores in two separate steps (`AskInclusion.LargerCacheServesMoreIff`, with the runs `LateExpiry` and `SlowAsk`).
- The limiter reads the clock before taking its lock; with timestamps out of order stored tokens can go below zero, and
  only then; the window bound survives (`RateLimiting.AlwaysInRangeIff`, `RateLimiting.WindowBound`).
- A route prefix with a path parameter makes the parameter, not the handler, the block, and one with an unbalanced brace
  may leave no block at all: either way the routes in the handler lose the prefix (`RouteBlocks.RouteInBlockIff`,
  `RouteBlocks.BlockIsBodyIff`, `RouteBlocks.ParameterExample`, `RouteBlocks.UnbalancedExample`).
- The audit hash joins fields with a delimiter that the free texts may contain (`EntryHashing.FieldsDeterminedIff`).
- The audit hash of a new entry covers the JSON and the UUIDs as they came, while verification rehashes what the columns
  give back: an entry whose new value is `{"status":"open","id":7}`, for one, breaks its tenant's chain, as does one that
  sorts before a stored one (`AuditAppends.AppendVerifiesIff`, `AuditAppends.ReadsBackIff`,
  `AuditAppends.ReorderedValue`). So do a redelivered event, overlapping flushes, a failed insert, and a tail that is
  stale or not found, except where they happen to do no harm, which `AuditFlushes.AppendsVerifyIff` says exactly
  (also `AuditAppends.RedeliveryBreaksChain`, `AuditAppends.OverlapBreaksChain`).
- The rebaseline's UPDATE joins on the id alone although the primary key is the id with the time
  (`Rebaselining.RebaselineReliableIff`), and it leaves the cached tail in Redis that appends ask first
  (`AuditAppends.AppendAfterRebaselineIff`).
- Marking a document never clears a stored content hash, so an unreadable document is not always retried
  (`Ingestion.UnreadableIsRetriedIff`, `Ingestion.BrokenOcrIsNotRetried`), an empty one not always left alone
  (`Ingestion.EmptyIsLeftAloneIff`), and a skipped one can stay marked failed (`Ingestion.StatusAgreesIff`). A document
  that has become empty keeps its former chunks (`Ingestion.ChunksAsFromScratchIff`).
- A fragment of nothing but diacritics or whitespace matches every result (`Scoring.MatchesEverythingIff`).
- A certificate save is three separate file replacements; one that fails in between, or a leftover CA file, makes the
  stored identity unusable or different (`IdentityRenewal.RestartFindsInUseIff`). The sleep after a renewal ignores the
  new certificate's window and even its expiry (`IdentityRenewal.AlwaysOnTimeIff`, `IdentityRenewal.NeverExpiredIff`,
  `IdentityRenewal.ShortLivedExpires`).
- Tracking key buffers by address does not keep them alive, so a buffer that is never released can get a raw cache
  buffer zeroed later (`DekCustody.LeakLeavesStaleKey`, `DekCustody.RawStaysIntactIff`).
- The election checks that the renewal interval is below the lock's lifetime, but exclusion needs room for the lateness
  of renewals as well (`LeaderSingleton.ExclusionIff`). The elector's own `Close`, which `runLeaderSingleton` does not
  call, frees the lock under a leader but cancels nothing (`LeaderSingleton.StepIsSafeIff`).
- The isolation summary ignores missing policies and unreachable databases (`IsolationReport.SummaryMissesPoliciesIff`,
  `IsolationReport.NoPoliciesExample`, `IsolationReport.UnreachableIsIgnored`); its remediation cannot
  index a partitioned table and, for a role under row-level security, hides NULL rows rather than removing them
  (`IsolationReport.RemediationConvergesIff`, `IsolationReport.NullRowsHiddenIff`).

## Model

| member | source | states |
|---|---|---|
| AnswerCaching.AnswerCache.constructor | ai/second-brain/app/cache.py:50-56 | bounds of at least one entry and no negative expiry, starting empty |
| AnswerCaching.AnswerCache.Get | ai/second-brain/app/cache.py:61-75 | the whole new state and the result: a miss, an expired entry removed, or a hit made most recent, with the counters |
| AnswerCaching.AnswerCache.Set | ai/second-brain/app/cache.py:77-84 | the eviction loop ends, leaves the most recent `max_entries`, and never drops the key just set |
| AnswerCaching.AnswerCache.Clear | ai/second-brain/app/cache.py:86-88 | drops every entry and keeps the counters |
| AnswerCaching.GetStepBounded | ai/second-brain/app/cache.py:61-75 | a lookup keeps one entry per key and the size bound |
| AnswerCaching.SetStepBounded | ai/second-brain/app/cache.py:77-84 | a store keeps one entry per key and the size bound and leaves its own entry resident |
| AnswerCaching.RunBounded | ai/second-brain/app/cache.py:47-88 | after any run of calls the size is at most `max_entries` and keys are distinct |
| LruTheorems.LargerCacheIncludesSmaller | ai/second-brain/app/cache.py:61-84 | same calls at the same times on capacities n <= m, any expiry: the small recency list is a subsequence of the large one's, every small hit is a large hit with the same value, and hits(n) <= hits(m) |
| LruTheorems.InsertKeepsInclusion | ai/second-brain/app/cache.py:77-84 | making one entry most recent in both caches, with their evictions, keeps the inclusion and the slack m - n |
| LruTheorems.GetKeepsInclusion | ai/second-brain/app/cache.py:61-75 | a lookup in both caches keeps the inclusion; a small hit is the same large hit |
| LruTheorems.StoreIsMostRecent | ai/second-brain/app/cache.py:61-84 | without expiry or clear the store lists exactly the `max_entries` most recently set or hit keys, least recent first |
| LruTheorems.Residency | ai/second-brain/app/cache.py:50-84 | without expiry or clear a key last used at t is resident iff fewer than `max_entries` distinct other keys were used since |
| LruTheorems.UnusedNotResident | ai/second-brain/app/cache.py:50-84 | a key that was never set or hit is not resident |
| LruTheorems.EntriesAreLatest | ai/second-brain/app/cache.py:77-88 | every stored entry is the one of the latest set of its key, with no clear since |
| LruTheorems.HitIsLatestSet | ai/second-brain/app/cache.py:61-88 | a hit returns the value of the latest set of that key, with no clear in between and its expiry not passed |
| LruTheorems.HitIff | ai/second-brain/app/cache.py:61-84 | over any run, a lookup of a resident key returns the value of its latest set iff there is no expiry or at most that many seconds have passed since that set |
| LruTheorems.SetThenHitIff | ai/second-brain/app/cache.py:61-88 | with or without expiry, a key set once, not cleared and not asked for too late, is found with that value iff it has not expired, while calls in between name fewer than `max_entries` other keys |
| LruTheorems.StaysInPlace | ai/second-brain/app/cache.py:77-84 | so long its entry stays, and behind it only entries of keys named since |
| LruTheorems.GetMoves | ai/second-brain/app/cache.py:61-75 | a lookup takes its key out of the recency order, and a hit puts it at the end |
| LruTheorems.CountersCount | ai/second-brain/app/cache.py:59-75 | after any run the counters are the numbers of lookups that hit and that did not |
| Text.WordsOfConcat | ai/second-brain/app/cache.py:37-37 | the words of a text cut at whitespace are those of its two parts |
| Text.WordThen | ai/second-brain/app/cache.py:37-37 | a run of other characters up to whitespace or the end is one word |
| Text.SpacesAre | ai/second-brain/app/cache.py:37-37 | which characters are whitespace |
| CachedAsk.SameKeyIff | ai/second-brain/app/cache.py:26-44 | two requests share a key iff they agree on the case-folded words of the question, top_k, the multiset of doc_ids, model and corpus version |
| CachedAsk.CachedAgreesIff | ai/second-brain/app/api/routes.py:320-394 | over every interleaving of lookups and stores of any number of overlapping asks, cached answers agree with uncached ones iff the answer is a function of the key's inputs, whatever the capacity, expiry and failures |
| CachedAsk.ServeSound | ai/second-brain/app/api/routes.py:326-392 | in every such interleaving each stored value is the answer of some request with that key |
| CachedAsk.ModeOutsideKey | ai/second-brain/app/api/routes.py:301-329 | the retrieval mode is outside the key: if two modes answer differently, some run serves one mode's answer to the other |
| CachedAsk.RetrievalOutsideKey | ai/second-brain/app/api/routes.py:301-329 | so is the corpus the passages came from, as its version is read after the retrieval: some run serves an old corpus's answer under the new version |
| CachedAsk.NextAskIsServedIff | ai/second-brain/app/api/routes.py:326-392 | after an ask in any interleaving, a request with its key gets the answer just stored iff it was produced, has not expired and the request does not skip the cache; else it generates its own, and skipping leaves the cache alone |
| AskInclusion.LookKeeps | ai/second-brain/app/api/routes.py:326-337 | a lookup in both caches, with no ask open, keeps inclusion; where only the small cache misses, the large one's entry is its newest |
| AskInclusion.FinishKeeps | ai/second-brain/app/api/routes.py:371-392 | the store that ends an ask, in both caches or in the small one alone, keeps inclusion |
| AskInclusion.LargerCacheServesMore | ai/second-brain/app/api/routes.py:326-392 | without expiry and with one ask at a time a larger cache holds everything a smaller one does and hits as often |
| AskInclusion.LateExpiry | ai/second-brain/app/api/routes.py:326-392 | with expiry, one ask at a time: the small cache answers a key that has expired in the large one |
| AskInclusion.SlowAsk | ai/second-brain/app/api/routes.py:331-391 | with two asks open at once, any expiry: the small cache stores late, and then answers, a key that the large one has dropped |
| AskInclusion.LargerCacheServesMoreIff | ai/second-brain/app/api/routes.py:326-392 | with up to a given number of asks open at once the larger cache always answers what the smaller one does iff the capacities are equal, or there is no expiry and asks never overlap |
| RateLimiting.TokenBucketLimiter.constructor | ai/second-brain/app/ratelimit.py:22-27 | rate at least one a minute; capacity is the burst, or the rate when the burst is zero |
| RateLimiting.TokenBucketLimiter.Allow | ai/second-brain/app/ratelimit.py:32-50 | decision, wait and new bucket of the key as specified, every other bucket unchanged |
| RateLimiting.TokenBucketLimiter.Reset | ai/second-brain/app/ratelimit.py:52-57 | drops one bucket or all |
| RateLimiting.KeysAreIndependent | ai/second-brain/app/ratelimit.py:40-50 | calls on other keys change no later decision for a key |
| RateLimiting.WindowBound | ai/second-brain/app/ratelimit.py:22-50 | in any window [s, t] of any run, timestamps in any order, the cost granted to a key is at most capacity + rate * (t - s) |
| RateLimiting.WindowBoundAttained | ai/second-brain/app/ratelimit.py:22-50 | the bound is attained over any window that refills at most one bucket |
| RateLimiting.TokensInRange | ai/second-brain/app/ratelimit.py:40-50 | with ordered timestamps and non-negative costs stored tokens stay in [0, capacity] |
| RateLimiting.AlwaysInRangeIff | ai/second-brain/app/ratelimit.py:38-50 | whatever is asked at the given timestamps, stored tokens stay in [0, capacity] iff the timestamps are in order, which reading the clock before the lock does not ensure |
| RateLimiting.OutOfOrderGoesNegative | ai/second-brain/app/ratelimit.py:38-50 | a concrete run of two calls out of order that leaves stored tokens below zero |
| RateLimiting.LazyRefillIsContinuous | ai/second-brain/app/ratelimit.py:40-50 | the lazily refilled level equals refilling at any moments in between |
| RateLimiting.DeniedCallsLeaveNoTrace | ai/second-brain/app/ratelimit.py:43-50 | erasing every denied call changes no other decision |
| RateLimiting.RetryAfterIsExact | ai/second-brain/app/ratelimit.py:46-50 | after a denial with wait r and no other grant on the key, the same call after d succeeds iff cost <= capacity and d >= r |
| RateLimiting.WaitFromHere | ai/second-brain/app/ratelimit.py:46-48 | the wait reported is the time the refill needs for the shortfall |
| RouteBlocks.JoinRouteFlattens | scripts/generate-watheeq-api-docs.py:46-48 | joining an already joined tail equals joining all segments at once |
| RouteBlocks.JoinRouteIs | scripts/generate-watheeq-api-docs.py:46-48 | of no segments it is a slash, a segment of slashes alone does not count, and any other one contributes a slash and what is between its outer slashes, ahead of the rest |
| RouteBlocks.JoinRoutePieces | scripts/generate-watheeq-api-docs.py:46-48 | split at slashes the joined route is the pieces of its segments, in their order |
| RouteBlocks.ClosedIff | scripts/generate-watheeq-api-docs.py:58-66 | the scan from a brace closes iff the braces from it on balance out somewhere |
| RouteBlocks.FirstBalance | scripts/generate-watheeq-api-docs.py:58-66 | the depth cannot pass below zero without being zero |
| RouteBlocks.ClosedBlocksNest | scripts/generate-watheeq-api-docs.py:51-67 | any two closed blocks of a source are nested or disjoint |
| RouteBlocks.RouteBlockIntervals | scripts/generate-watheeq-api-docs.py:51-67 | returns exactly the intervals of the matches that have one, in source order |
| RouteBlocks.FirstBrace | scripts/generate-watheeq-api-docs.py:55-57 | the first brace within the match, or none |
| RouteBlocks.MatchingBrace | scripts/generate-watheeq-api-docs.py:58-66 | the depth-counting loop finds the first index at which the depth returns to zero, or none |
| RouteBlocks.BlocksAreLaminar | scripts/generate-watheeq-api-docs.py:51-67 | the returned intervals form a laminar family |
| RouteBlocks.BlockIsBodyIff | scripts/generate-watheeq-api-docs.py:54-65 | the interval starts and ends where the handler's body does iff the match has no brace before its last character |
| RouteBlocks.RouteInBlockIff | scripts/generate-watheeq-api-docs.py:51-85 | for any match: a route in the handler's body is inside an interval of the match iff the braces from the match's first one on are not balanced again within the match, and are balanced somewhere |
| RouteBlocks.ParameterHidesBody | scripts/generate-watheeq-api-docs.py:54-65 | when braces are balanced within the match, as by a path parameter, no route of the handler is inside the interval |
| RouteBlocks.ParameterExample | scripts/generate-watheeq-api-docs.py:36-66 | a source the expression matches, with a path parameter: the parameter is the only interval and the handler's route is not in it |
| RouteBlocks.UnbalancedExample | scripts/generate-watheeq-api-docs.py:36-66 | one with an unbalanced brace in its path: the handler is closed, and the match has no interval |
| RouteBlocks.EnclosingIsChain | scripts/generate-watheeq-api-docs.py:81-86 | the blocks around a route are a chain, outermost first |
| RouteBlocks.SortingPairs | scripts/generate-watheeq-api-docs.py:86 | the collected (start, prefix) pairs are already sorted |
| RouteBlocks.CollectAround | scripts/generate-watheeq-api-docs.py:81-85 | the comprehension collects the pairs of exactly the enclosing blocks |
| RouteBlocks.JoinComposesChain | scripts/generate-watheeq-api-docs.py:46-48 | joining all prefixes at once equals mounting the route through the chain one prefix at a time |
| RouteBlocks.ComposePath | scripts/generate-watheeq-api-docs.py:76-86 | the composed path of one route is the mount prefix followed by the route mounted in its chain; split at slashes, the pieces of the mount prefix, of the prefixes of the blocks around it, outermost first, and of its own path |
| RouteBlocks.PathPieces | scripts/generate-watheeq-api-docs.py:76-86 | the same of the path as specified |
| RouteBlocks.MountedRoute | scripts/generate-watheeq-api-docs.py:76-86 | a route outside any block is its path behind the mount prefix |
| RouteBlocks.MountedExample | scripts/generate-watheeq-api-docs.py:156-161 | mounted at "/scim/v2", "/Groups" is "/scim/v2/Groups" |
| RouteBlocks.DiscoveredPaths | scripts/generate-watheeq-api-docs.py:70-91 | every discovered path is composed down the block tree of the source |
| EntryHashing.PreimageDetermines | backend/internal/audit/hash/chain.go:31-65 | equal preimages agree on the time, the previous hash and the joined fields |
| EntryHashing.HashedFields | backend/internal/audit/hash/chain.go:31-65 | where no field has a delimiter the hashed text splits into id, tenant, user, service, action, resource type, resource id, old value, new value, a numeral for 1000 times the microseconds, and the previous hash |
| EntryHashing.HashedTime | backend/internal/audit/hash/chain.go:57-65 | whatever the fields contain it ends with the numeral, without leading zeros, of the time in nanoseconds, and the previous hash |
| EntryHashing.DecimalMeans | backend/internal/audit/hash/chain.go:63-63 | the value of a written number is the number |
| EntryHashing.HashedExample | backend/internal/audit/hash/chain.go:31-68 | the text digested for one entry, in full |
| EntryHashing.StorableParts | backend/internal/audit/hash/chain.go:31-65 | entries the tables can hold with the same joined fields agree on ids and JSON values, and on the free texts joined together |
| EntryHashing.FieldsDeterminedIff | backend/internal/audit/hash/chain.go:31-65 | among entries the tables can hold one is the only one with its preimage iff its service, action, resource type and resource id have no delimiter; delimiters inside JSON do no harm |
| EntryHashing.SamePrev | backend/internal/audit/hash/chain.go:58-68 | equal preimages over the same previous hash agree on the time and the joined fields, whatever that hash is |
| EntryHashing.ChainBinding | backend/cmd/audit-rebaseline/main.go:84-101 | two chains from genesis with one tail hash have equal length and bind, at every position, time and joined fields, for storable entries ids and JSON values, and every field where the free texts have no delimiter |
| AuditChain.VerifyChain | backend/internal/audit/service/integrity_service.go:33-110 | the streaming verifier reports an unbroken chain iff the rows link up and hash correctly from the first row's previous hash |
| AuditChain.OrderedRowsEntries | backend/cmd/audit-rebaseline/main.go:77-81 | the verifier order of a tenant's rows depends on their entries only |
| AuditChain.VerifierOrder | backend/cmd/audit-rebaseline/main.go:76-84 | of two rows of a tenant in verifier order the first was created earlier, or at the same time with the id that is smaller at the first difference |
| Ordering.StringLeqIff | backend/cmd/audit-rebaseline/main.go:76-84 | ids compare by their first difference, a prefix before what extends it |
| AuditChain.LinkedIsChain | backend/internal/audit/service/integrity_service.go:42-89 | rows that link up from a start hash are the chain computed over their entries |
| AuditChain.ChainRowsLinked | backend/cmd/audit-rebaseline/main.go:84-101 | the recomputed chain verifies |
| AuditChain.WindowsVerify | backend/internal/audit/service/integrity_service.go:27-45 | if a tenant's whole chain verifies so does every time window of it |
| Rebaselining.UpdatedRow | backend/cmd/audit-rebaseline/main.go:144-145 | with unique ids each row gets the hashes recomputed for its own entry |
| Rebaselining.RebaselineRebuildsChains | backend/cmd/audit-rebaseline/main.go:75-145 | after the update every tenant's rows in (created_at, id) order are the recomputed chain from genesis |
| Rebaselining.RefreshedTails | backend/cmd/audit-rebaseline/main.go:149-158 | and the chain state has the id, hash and time of each tenant's last row, other tenants' tails being left alone |
| Rebaselining.RebaselineVerifies | backend/cmd/audit-rebaseline/main.go:75-145 | after the update every window of every tenant verifies |
| Rebaselining.RebaselineIdempotent | backend/cmd/audit-rebaseline/main.go:75-145 | a second rebaseline changes no row |
| Rebaselining.StorageOrderIrrelevant | backend/cmd/audit-rebaseline/main.go:77-81 | the recomputed chains do not depend on the storage order of the rows |
| Rebaselining.RebaselineReliableIff | backend/cmd/audit-rebaseline/main.go:144-145 | whichever matching triple the UPDATE picks, all chains verify iff no two rows share an id |
| Rebaselining.MismatchedUpdate | backend/migrations/audit_db/000001_init_schema.up.sql:26 | the primary key (id, created_at) allows a shared id, and then a row can get the other's hashes |
| Rebaselining.OtherEntrysHash | backend/cmd/audit-rebaseline/main.go:144-145 | a row carrying the hash of an entry created at another time cannot verify |
| AuditStore.Store.Rebaseline | backend/cmd/audit-rebaseline/main.go:53-161 | the tool's effect on both tables: nothing in a dry run, else rebuilt rows and every tenant's refreshed tail |
| AuditStore.Store.AppendBatch | backend/internal/audit/service/audit_service.go:142-201 | one tenant's share of a batch: sorted, chained over the texts as they came from the cached or stored tail, both tails moved to its last hash, and the rows the database takes appended as the columns read them back |
| AuditStore.BatchInsert | backend/internal/audit/repository/audit_repo.go:30-79 | the rows whose ids the database takes, in order |
| AuditStore.ChainBatch | backend/internal/audit/service/audit_service.go:166-171 | the chaining loop yields the chain over the batch |
| AuditStore.RecomputeAll | backend/cmd/audit-rebaseline/main.go:75-108 | the tenant loop yields every tenant's triples in order and every tenant's tail |
| AuditStore.RecomputeTenant | backend/cmd/audit-rebaseline/main.go:76-107 | the scan carrying the previous hash yields the triples and tail of the tenant's chain |
| AuditStore.UpdateFrom | backend/cmd/audit-rebaseline/main.go:144-145 | the join update as specified |
| AuditStore.RefreshedState | backend/cmd/audit-rebaseline/main.go:149-158 | each tenant with rows has its recomputed tail in the chain state, others keep theirs |
| AuditAppends.NewRowsComeLast | backend/internal/audit/service/audit_service.go:145-157 | entries that sort after the tenant's rows come after them in verifier order |
| AuditAppends.HashAgreesIff | backend/internal/audit/repository/audit_repo.go:179-199 | rehashing an entry as it is read back gives the stored hash iff it reads back as the joined text that was hashed |
| AuditAppends.ReadsBackIff | backend/internal/audit/hash/chain.go:53-55 | a storable entry reads back iff its tenant and user are spelled as the UUID columns spell them and both its values are as the JSON columns write them |
| AuditAppends.StoredReadsBack | backend/internal/audit/hash/chain.go:53-55 | what was read back once reads back again |
| AuditAppends.ReorderedValue | backend/internal/audit/hash/chain.go:53-55 | with columns that order keys an entry whose new value is `{"status":"open","id":7}` does not read back, and in its stored form it does |
| AuditAppends.VerifyingBegins | backend/internal/audit/service/integrity_service.go:42-89 | rows that verify and include a chain from genesis begin with it |
| AuditAppends.VerifyingNeeds | backend/internal/audit/service/audit_service.go:135-182 | once a batch is in the table a chain that verifies, then or after any further rows, has it read back and sorted after the rows before it |
| AuditAppends.AppendVerifiesIff | backend/internal/audit/service/audit_service.go:142-182 | a tenant's chain verifies after an append iff every entry of the batch reads back and sorts after the tenant's rows and, if there are any, the start hash is the chain's last |
| AuditAppends.RebaselineWholeIff | backend/cmd/audit-rebaseline/main.go:116-158 | the tool leaves a tenant's stored tail and cache consistent with the chain iff no stale hash of the tenant is cached |
| AuditAppends.AppendAfterRebaselineIff | backend/internal/audit/service/audit_service.go:205-230 | the first batch after a rebaseline verifies together with the rest iff no stale hash is cached for the tenant, and every entry reads back and sorts after the rows |
| AuditAppends.AppendKeepsWhole | backend/internal/audit/service/audit_service.go:159-201 | an append of later entries that read back keeps its tenant's chain, stored tail and cached tail whole |
| AuditAppends.OtherTenantsUntouched | backend/internal/audit/service/audit_service.go:135-180 | an append leaves every other tenant's chain whole |
| AuditAppends.CompleteAppendsIff | backend/internal/audit/service/audit_service.go:131-248 | when flushes are made one at a time and every row is inserted, each starts from the chain's last hash of itself: a whole chain verifies after any such run, cached tails expiring in between, iff every batch of the tenant reads back and sorts after the rows of its time, and then it is whole again |
| AuditAppends.RedeliveryBreaksChain | backend/internal/audit/repository/audit_repo.go:72-79 | after a batch whose rows the unique index drops, the tails being moved on all the same, no batch of the tenant verifies |
| AuditAppends.OverlapBreaksChain | backend/internal/audit/service/audit_service.go:159-182 | two batches of a tenant chained from the same tail by overlapping flushes never verify together |
| AuditFlushes.FlushedIs | backend/internal/audit/service/audit_service.go:159-187 | what the service leaves in the table is that of a flush chained from the tail it reads |
| AuditFlushes.FlushedWhole | backend/internal/audit/service/audit_service.go:184-201 | when no row is dropped it is an append |
| AuditFlushes.DigestTellsIds | backend/internal/audit/hash/chain.go:35-60 | equal hashes are of entries with the same id, whatever the previous hashes |
| AuditFlushes.OnlyGood | backend/internal/audit/service/audit_service.go:131-248 | if the tenant's rows verify once a flush and anything after it is in the table, the flush was good: nothing inserted, or consecutive entries that read back and, if the tenant had rows, include the batch's first, start from the last row's hash and sort after the rows |
| AuditFlushes.GoodComesLast | backend/internal/audit/service/audit_service.go:145-182 | after a good flush the tenant's rows in verifier order are the old ones followed by those inserted |
| AuditFlushes.GoodLinked | backend/internal/audit/service/audit_service.go:166-171 | and they link up |
| AuditFlushes.InsertOrderIrrelevant | backend/internal/audit/service/integrity_service.go:42-89 | the order in which rows were inserted does not change what is verified |
| AuditFlushes.NeverMadeGood | backend/internal/audit/service/audit_service.go:131-248 | after a flush that is not good the tenant's chain never verifies again, whatever is flushed later |
| AuditFlushes.AppendsVerifyIff | backend/internal/audit/service/audit_service.go:131-248 | over any run of flushes of any tenants, each chained from genesis or any hash computed before (the tail, a stale one, one shared with an overlapping flush) and with any of its rows dropped as redelivered or for a failed insert, a tenant's chain verifies iff each flush of it is good when its turn comes, in the order in which they chained; their rows may be inserted in any other |
| Ingestion.VectorStore.constructor | ai/second-brain/app/rag/vectorstore.py:276-288 | an empty document and chunk table |
| Ingestion.VectorStore.DocumentHash | ai/second-brain/app/rag/vectorstore.py:276-288 | the stored hash, none for no row, no hash or a failing query; no answer at all without a connection |
| Ingestion.VectorStore.MarkDocument | ai/second-brain/app/rag/vectorstore.py:500-529 | an existing row changes its status only and keeps its hash; a new one stores both |
| Ingestion.VectorStore.ReplaceDocument | ai/second-brain/app/rag/vectorstore.py:392-498 | chunks, hash and status of one document replaced together |
| Ingestion.Ingest | ai/second-brain/app/ingest.py:80-177 | store, outcomes and counters of a whole run, ended early by an exception |
| Ingestion.HandleDocument | ai/second-brain/app/ingest.py:80-154 | the loop body: its effect on the store and its outcome |
| Ingestion.RunAccountsForAll | ai/second-brain/app/ingest.py:160-171 | ingested + skipped is the number of documents, and each skipped one that was not unchanged has exactly one reason |
| Ingestion.CountersMean | ai/second-brain/app/ingest.py:71-135 | failed, empty, ocr_failed and ingested count the documents with those outcomes, and chunks adds up the chunks stored |
| Ingestion.OutcomeIs | ai/second-brain/app/ingest.py:80-141 | which outcome a document of a completed run has: failed iff not fetched, unchanged iff not forced and its stored hash is that of its bytes, else by the chunks and the OCR failures of its extraction |
| Ingestion.IngestedRow | ai/second-brain/app/ingest.py:134-141 | one ingested holds its chunks and hash, with status "ocr_partial" iff some page stayed below the text floor and "ingested" otherwise |
| Ingestion.SkippedRow | ai/second-brain/app/ingest.py:83-132 | one not ingested keeps its chunks and at most changes its status, to "failed", "empty" or "ocr_failed"; a hash is recorded for an empty one without a row only |
| Ingestion.ExceptionEndsRun | ai/second-brain/app/ingest.py:80-158 | an exception ends the run: it leaves what visiting the documents before did, and visits no other |
| Ingestion.VisitKeepsHonest | ai/second-brain/app/ingest.py:95-141 | one document's visit keeps: a stored hash of chunk-yielding bytes implies the stored chunks are theirs |
| Ingestion.RunKeepsHonest | ai/second-brain/app/ingest.py:80-158 | a run keeps it |
| Ingestion.HistoryHonest | ai/second-brain/app/ingest.py:80-158 | so does any history of runs with any force flags, failures and byte changes |
| Ingestion.VisitOthers | ai/second-brain/app/ingest.py:80-158 | a visit changes nothing about any other document |
| Ingestion.OwnVisitDecides | ai/second-brain/app/ingest.py:80-158 | document i's outcome and final rows are those of its own visit |
| Ingestion.IncrementalEqualsFull | ai/second-brain/app/ingest.py:80-158 | after a completed run every fetched, chunk-yielding document holds what ingesting it from scratch would store |
| Ingestion.ChunksAsFromScratchIff | ai/second-brain/app/ingest.py:109-141 | after a completed run any fetched document has the chunks a run from scratch gives it iff its bytes yield chunks or it had none: one that became empty keeps its former ones |
| Ingestion.StatusAgreesIff | ai/second-brain/app/ingest.py:96-100 | its status agrees with a forced run's iff it was not skipped or had that status already |
| Ingestion.FailedStatusSticks | ai/second-brain/app/rag/vectorstore.py:513-514 | a complete document that once failed to be fetched stays "failed" though reported unchanged |
| Ingestion.UnreadableIsRetriedIff | ai/second-brain/app/ingest.py:109-133 | an unreadable document is retried next run iff its row did not hold the hash of these bytes already |
| Ingestion.EmptyIsLeftAloneIff | ai/second-brain/app/ingest.py:109-133 | an empty document is skipped next run iff its hash was recorded, which an existing row prevents |
| Ingestion.UnreadableIsAlwaysRetried | ai/second-brain/app/rag/extraction.py:79-107 | while extraction itself is unchanged an unreadable document is retried in every incremental run of any history |
| Ingestion.BrokenOcrIsNotRetried | ai/second-brain/app/ingest.py:114-120 | a document ingested while OCR worked and forced again while it does not is marked unreadable, keeps its old hash and is then skipped, against the comment there |
| Scoring.FoldLettersIsPerLetter | ai/second-brain/eval/scoring.py:26-27 | the successive replacements together map each letter on its own |
| Scoring.DiacriticsAre | ai/second-brain/eval/scoring.py:18-18 | the nine characters that are dropped |
| Scoring.LettersAre | ai/second-brain/eval/scoring.py:26-27 | the six letters that are replaced, and by what |
| Scoring.DropIs | ai/second-brain/eval/scoring.py:25-25 | the dropped characters are dropped wherever they are, and nothing else is |
| Scoring.NormalFormIs | ai/second-brain/eval/scoring.py:22-29 | a normal form is the text's words, without diacritics, folded and lower-cased, with one space in between |
| Scoring.SameNormalFormIff | ai/second-brain/eval/scoring.py:22-29 | two texts have the same normal form iff they have the same words up to diacritics, letter variants and case |
| Scoring.NormalizeKeepsSubstrings | ai/second-brain/eval/scoring.py:22-29 | every substring of a text normalises to a substring of its normal form |
| Scoring.NormalizesToNothingIff | ai/second-brain/eval/scoring.py:22-29 | a text normalises to nothing iff it holds only whitespace and diacritics |
| Scoring.FirstMatch | ai/second-brain/eval/scoring.py:43-46 | the early-return loop returns the first matching position, 1-indexed, or 0 |
| Scoring.FirstHitRank | ai/second-brain/eval/scoring.py:38-46 | the rank is the least position whose result matches any expected fragment, 0 iff none does |
| Scoring.ReciprocalRankIs | ai/second-brain/eval/scoring.py:54-57 | a match's reciprocal rank times its rank is one, and without a match it is zero |
| Scoring.LiteralMatchBoundsRank | ai/second-brain/eval/scoring.py:38-51 | a result that literally contains an expected fragment bounds the rank: found, and no later than it |
| Scoring.AppendingKeepsRank | ai/second-brain/eval/scoring.py:38-57 | more results never change a non-zero rank nor lower a reciprocal rank |
| Scoring.MatchesEverythingIff | ai/second-brain/eval/scoring.py:32-35 | an expected list matches every candidate iff it has a non-empty fragment of only whitespace and diacritics |
| IdentityRenewal.Interval | backend/cmd/clario-dr-agent/renewal.go:149-151 | a non-positive check interval becomes an hour |
| IdentityRenewal.SleepIs | backend/cmd/clario-dr-agent/renewal.go:148-166 | the sleep before the next look is the check interval or ends as the window opens, whichever is shorter, and none once it has |
| IdentityRenewal.SleepsIsCeiling | backend/cmd/clario-dr-agent/renewal.go:148-166 | the number of sleeps counted below is the distance over the interval, rounded up |
| IdentityRenewal.WaitForWindow | backend/cmd/clario-dr-agent/renewal.go:31-47 | no attempt before the window, the last sleep overshot by at most its own lateness, at most (on time: exactly) the ceiling of wake-ups |
| IdentityRenewal.RenewalLoop | backend/cmd/clario-dr-agent/renewal.go:28-75 | the whole loop: every attempt is made at the later of the firing before it, set when the previous attempt was over, and its identity's window, and files and identity follow the attempts |
| IdentityRenewal.AlwaysOnTimeIff | backend/cmd/clario-dr-agent/renewal.go:50-73 | the attempts of a run are all made when their windows open iff each window opens no earlier than an exchange and a sleep after the one before |
| IdentityRenewal.NeverExpiredIff | backend/cmd/clario-dr-agent/renewal.go:28-75 | over a run with any failures, retries and durations, every renewal is over before the identity it replaces expires iff from each window up to its own the exchanges and sleeps in between leave it the time it takes |
| IdentityRenewal.ShortLivedExpires | backend/cmd/clario-dr-agent/renewal.go:66-73 | a certificate that expires within the check interval does so before the loop renews it |
| IdentityRenewal.RenewIdentityOnce | backend/cmd/clario-dr-agent/renewal.go:77-117 | publishes iff every step succeeded; on every failure the identity in use stays, and the files are what the writes that succeeded left |
| IdentityRenewal.IdentityStore.Save | backend/internal/dr/agent/enroll.go:360-379 | key, certificate, then CA, stopping at the first failing write; succeeds iff all were written |
| IdentityRenewal.MutableIdentityProvider.constructor | backend/internal/dr/agent/identity_provider.go:22-27 | holds the initial identity |
| IdentityRenewal.MutableIdentityProvider.Update | backend/internal/dr/agent/identity_provider.go:43-54 | publishes the new identity |
| IdentityRenewal.EnsureEnrolled | backend/cmd/clario-dr-agent/main.go:163-202 | hands over only an identity whose files are on disk: the stored one when it loads and is unexpired, else a fully saved new one |
| IdentityRenewal.LoadIs | backend/internal/dr/agent/enroll.go:317-356 | loading finds nothing without a certificate, and an identity, the files' contents, iff certificate and key are there and belong together |
| IdentityRenewal.InUseWasSaved | backend/cmd/clario-dr-agent/renewal.go:99-115 | in every reachable state the identity in use was on disk in full by the time it was published |
| IdentityRenewal.SaveLoadRoundTripIff | backend/internal/dr/agent/enroll.go:317-379 | loading after a complete save gives the identity back iff no CA file of an earlier identity is left |
| IdentityRenewal.RestartFindsInUseIff | backend/internal/dr/agent/enroll.go:360-379 | after an attempt a restart finds the identity in use iff the save wrote nothing, or everything with no stale CA |
| IdentityRenewal.HalfSavedIsUnusable | backend/internal/dr/agent/enroll.go:367-372 | a save that fails after the key leaves a pair that does not load |
| IdentityRenewal.CleanRunsStayLoadable | backend/cmd/clario-dr-agent/renewal.go:99-115 | over any run of attempts that save all or nothing, without stale CA, a restart finds the identity in use |
| IdentityRenewal.CompleteSaveRepairs | backend/internal/dr/agent/enroll.go:360-379 | one complete save without stale CA repairs any files |
| EnrollmentTokens.EnrollmentTokenStore.constructor | backend/cmd/clario-dr-service/agent_runtime.go:97-101 | an empty token table |
| EnrollmentTokens.EnrollmentTokenStore.Insert | backend/cmd/clario-dr-service/agent_runtime.go:103-114 | inserts an unconsumed row iff the key is new, the agent known, the purpose allowed and the expiry in the future |
| EnrollmentTokens.EnrollmentTokenStore.MarkConsumed | backend/cmd/clario-dr-service/agent_runtime.go:116-142 | consumes iff the row exists, is unconsumed and unexpired; records time and address; changes nothing else |
| EnrollmentTokens.TokenManager.constructor | backend/internal/siem/sources/enroll/token.go:63-73 | no marks |
| EnrollmentTokens.TokenManager.Mint | backend/internal/siem/sources/enroll/token.go:76-107 | the token claims its not-before and expiry times in whole seconds, the returned expiry is the claimed one, and the mark outlives it by the margin |
| EnrollmentTokens.TokenManager.Claim | backend/internal/siem/sources/enroll/token.go:109-210 | flips a live issued mark of an acceptable token, neither early nor expired, keeping its deadline, and fails otherwise without effect |
| EnrollmentTokens.ClaimableIff | backend/internal/siem/sources/enroll/token.go:112-200 | a token can be claimed iff it is authentic, its clock is between its two times, and Redis has a live mark that nobody took |
| EnrollmentTokens.ExpiryChecksAgree | backend/internal/siem/sources/enroll/token.go:94-106 | on one clock a minted token is accepted iff its not-before time is past and the table would consume it, and then the mark is still there; the not-before time is 30 to 31 seconds before the mint |
| EnrollmentTokens.MintDurably | backend/cmd/clario-dr-service/agent_runtime.go:73-91 | a returned token has a new durable row with the same expiry; a failed mint leaves the table alone |
| EnrollmentTokens.SingleUse | backend/cmd/clario-dr-service/agent_runtime.go:116-142 | over every interleaving, Redis forgetting anything, successful consumptions of a token equal its row's change from unspent to spent, so at most one |
| EnrollmentTokens.RecordsNeverChange | backend/cmd/clario-dr-service/agent_runtime.go:103-142 | rows persist, and a consumption record never changes |
| EnrollmentTokens.WinnerIsOnRecord | backend/cmd/clario-dr-service/agent_runtime.go:122-127 | a successful consumption is strictly before expiry and is what the row records for ever after |
| EnrollmentTokens.OneWinner | backend/cmd/clario-dr-service/agent_runtime.go:122-127 | two successful consumptions in one run are of different tokens |
| EnrollmentTokens.RunsStaySound | backend/cmd/clario-dr-service/agent_runtime.go:103-142 | in every reachable table rows sit under their own key, expire after issue and were consumed before expiry |
| EnrollmentTokens.ClaimsUseUpMarks | backend/internal/siem/sources/enroll/token.go:180-200 | successful claims are bounded by the marks registered or revived |
| EnrollmentTokens.ReplayIsClaimedTwiceConsumedOnce | backend/internal/siem/sources/enroll/enroll_service.go:105-131 | Redis restored to before a claim lets the token be claimed twice, and the durable row consumes it once |
| EnrollmentTokens.MintedTokenWorksIff | backend/internal/siem/sources/enroll/enroll_service.go:105-131 | an untouched minted token is claimed iff the clock read there is between its not-before time and its expiry, and consumed iff the one read there is before its expiry, whatever happens to other tokens |
| EnrollmentTokens.FailedMintIsUseless | backend/cmd/clario-dr-service/agent_runtime.go:81-89 | a mint whose row was never inserted can never be consumed |
| EnrollmentTokens.Perform | backend/internal/siem/sources/enroll/token.go:172-240 | each step of an interleaving, apart from what Redis does by itself, is a call of one of the methods |
| DekCustody.SovereignDekProvider.constructor | backend/cmd/clario-dr-service/sovereign_byok_dek.go:39-44 | no gate and nothing tracked |
| DekCustody.SovereignDekProvider.AttachByok | backend/cmd/clario-dr-service/sovereign_byok_dek.go:49-53 | the gate is attached |
| DekCustody.SovereignDekProvider.Get | backend/cmd/clario-dr-service/sovereign_byok_dek.go:55-82 | the raw buffer without a gate or an enrolment, else the unwrapped one, tracked exactly when it is handed out, or an error |
| DekCustody.SovereignDekProvider.TrackDisposable | backend/cmd/clario-dr-service/sovereign_byok_dek.go:106-114 | tracks a buffer unless it is empty |
| DekCustody.SovereignDekProvider.ReleaseDek | backend/cmd/clario-dr-service/sovereign_byok_dek.go:88-104 | zeroes a custody buffer at its first release only, and leaves every other buffer's bytes alone |
| DekCustody.StepKeepsOwned | backend/cmd/clario-dr-service/sovereign_byok_dek.go:55-122 | each lock-granular step keeps: tracked keys are the outstanding custody buffers', and each was zeroed once iff released |
| DekCustody.OwnershipIsKept | backend/cmd/clario-dr-service/sovereign_byok_dek.go:55-122 | so does every interleaved run in which custody buffers are released before they are collected |
| DekCustody.RawStaysIntactIff | backend/cmd/clario-dr-service/sovereign_byok_dek.go:84-122 | without further collections no run zeroes a raw cache buffer iff no tracked key is stale |
| DekCustody.LeakLeavesStaleKey | backend/cmd/clario-dr-service/sovereign_byok_dek.go:106-121 | a collection leaves a stale key iff it takes an unreleased custody buffer: tracking by address does not keep it alive |
| LeaderSingleton.Singleton.constructor | backend/cmd/clario-dr-service/intelligence.go:335-336 | no leader context |
| LeaderSingleton.Singleton.OnAcquire | backend/cmd/clario-dr-service/intelligence.go:339-345 | starts one fresh context, which `stopLeader` cancels, and ends the one before |
| LeaderSingleton.Singleton.Stop | backend/cmd/clario-dr-service/intelligence.go:356-371 | losing leadership and the end of the run: no context stays uncancelled |
| LeaderSingleton.Singleton.RunElection | backend/cmd/clario-dr-service/intelligence.go:337-371 | callbacks in any order: one context per acquisition, at most one uncancelled, none at the end |
| LeaderSingleton.StepKeepsCovered | backend/internal/leadership/redis.go:149-246 | each step but two keeps: a leading instance holds the lock up to its unexpired lease |
| LeaderSingleton.AcquireIff | backend/internal/leadership/redis.go:155-208 | a following instance leads after its timer iff nobody holds an unexpired lock and it hears of taking it, and then holds it for its lifetime |
| LeaderSingleton.RenewIff | backend/internal/leadership/redis.go:180-222 | a leading one still leads after its timer iff it still holds the lock and hears of extending it, and then holds it for its lifetime from there; otherwise it follows |
| LeaderSingleton.DoneIff | backend/internal/leadership/redis.go:151-235 | at the end of its context a leader frees the lock it holds |
| LeaderSingleton.CloseIs | backend/internal/leadership/redis.go:225-246 | closing frees the lock led by, and the loop ends at its next timer |
| LeaderSingleton.LeaderStays | backend/internal/leadership/redis.go:180-222 | over any run a leader that renews in time and hears of it leads for ever, whatever the others do |
| LeaderSingleton.AnotherTakesOver | backend/internal/leadership/redis.go:155-208 | once it stops another can take over iff its lease has run out |
| LeaderSingleton.LeadersExclude | backend/internal/leadership/redis.go:134-246 | over every run of any number of instances without those two, with replies lost at will, no two instances lead |
| LeaderSingleton.ExclusionIff | backend/internal/leadership/redis.go:109-199 | with renewals at most a given slack late no two instances ever lead iff renewal interval and slack together stay below the lock's lifetime; validation checks the interval alone |
| LeaderSingleton.SlackExample | backend/internal/leadership/redis.go:180-194 | the failing run otherwise: a late renewal finds its lock taken by another leader |
| LeaderSingleton.StepIsSafeIff | backend/internal/leadership/redis.go:180-246 | runs after a step stay exclusive iff it neither lets a leader's lease pass unrenewed nor closes the elector under a leader |
| IsolationAudit.PassIff | backend/cmd/audit-isolation/main.go:317-406 | a table passes iff it exists, row-level security is on and forced, a tenant index is found, it has the isolation and insert policies and, unless updates and deletes are skipped, those for them, and no NULL rows that must not be there are visible to the auditing role |
| IsolationAudit.NeededPolicies | backend/cmd/audit-isolation/main.go:401-406 | which policies a table needs, by name |
| IsolationAudit.NullsReported | backend/cmd/audit-isolation/main.go:350-361 | how many NULL rows are reported to each kind of role |
| IsolationAudit.Printed | backend/cmd/audit-isolation/main.go:503-552 | exactly which statements are printed for a table: none if it passes, else one for each thing it lacks, policies by name |
| IsolationAudit.Missing | backend/cmd/audit-isolation/main.go:378-388 | a policy is reported missing iff it is expected and absent |
| IsolationAudit.MissingPolicies | backend/cmd/audit-isolation/main.go:378-388 | the loop computes the missing policies in order |
| IsolationAudit.AuditTable | backend/cmd/audit-isolation/main.go:317-398 | the audit of a table, a missing one included |
| IsolationAudit.NothingToFix | backend/cmd/audit-isolation/main.go:489-498 | nothing is printed for tables that pass |
| IsolationAudit.PrintRemediationSql | backend/cmd/audit-isolation/main.go:477-553 | the script of each reachable database, none for an unreachable one |
| IsolationAudit.PrintTables | backend/cmd/audit-isolation/main.go:489-552 | the statements of the tables that failed, in order |
| IsolationAudit.PrintTable | backend/cmd/audit-isolation/main.go:508-548 | the statements of one failed table |
| IsolationAudit.PrintPolicies | backend/cmd/audit-isolation/main.go:517-540 | one policy statement for each missing policy |
| Remediation.CreatedIndexIsFound | backend/cmd/audit-isolation/main.go:542-548 | the definition of a created index matches the audit's LIKE pattern |
| Remediation.OwnStatements | backend/cmd/audit-isolation/main.go:508-548 | statements for a table act on it alone |
| Remediation.OtherStatements | backend/cmd/audit-isolation/main.go:508-548 | statements for other tables leave a table and its index's name alone |
| Remediation.FixRepairs | backend/cmd/audit-isolation/main.go:508-548 | what is printed for a table repairs everything but NULL rows, policies without a column and indexes that cannot be built |
| IsolationReport.EachTableRepaired | backend/cmd/audit-isolation/main.go:503-552 | a database's whole script repairs each table as if alone |
| IsolationReport.PoliciesConvergeIff | backend/cmd/audit-isolation/main.go:517-540 | afterwards no policy is missing iff they were there or the column they test exists |
| IsolationReport.RemediationConvergesIff | backend/cmd/audit-isolation/main.go:317-406 | afterwards a table passes iff it exists, was indexed or is unpartitioned with the column and a free index name, has the column or already the policies it needs by name, and no NULL rows are then counted |
| IsolationReport.NullRowsHiddenIff | backend/cmd/audit-isolation/main.go:350-361 | a table with counted NULL rows passes afterwards, with the rows still there, iff the auditing role does not bypass row-level security and no policy exposes them |
| IsolationReport.SecondScriptIsEmptyIff | backend/cmd/audit-isolation/main.go:503-552 | a second script is empty for a table iff only its NULL rows can still be wrong |
| IsolationReport.AuditDatabase | backend/cmd/audit-isolation/main.go:284-315 | every table of a reachable database, none of an unreachable one |
| IsolationReport.ScriptIs | backend/cmd/audit-isolation/main.go:484-552 | what is printed for a database: for one that was reached what is printed for each of its tables, and else nothing |
| IsolationReport.Count | backend/cmd/audit-isolation/main.go:257-271 | a counter is all tables iff all satisfy it and zero iff none does |
| IsolationReport.CountTables | backend/cmd/audit-isolation/main.go:257-271 | the counting loop adds the cardinalities of the tables |
| IsolationReport.PassesIff | backend/cmd/audit-isolation/main.go:274-278 | the summary's test on counters holds iff a table was audited and each is in order apart from policies |
| IsolationReport.RunAudit | backend/cmd/audit-isolation/main.go:248-281 | each counter is the cardinality it names over all reached databases, and the verdict is PASS iff every audited table is in order apart from policies |
| IsolationReport.AuditFinds | backend/cmd/audit-isolation/main.go:317-398 | the audit finds a table sound iff it exists, is protected and indexed and shows no counted NULL rows, and finds policies missing iff one expected is absent |
| IsolationReport.SummaryPassesIff | backend/cmd/audit-isolation/main.go:274-278 | on any databases the summary passes iff some table was reached and each one reached is so protected |
| IsolationReport.SummaryMissesPoliciesIff | backend/cmd/audit-isolation/main.go:274-278 | the summary passes although a table fails iff every table reached is so protected and some one lacks a policy expected on it |
| IsolationReport.NoPoliciesExample | backend/cmd/audit-isolation/main.go:274-278 | one database whose only table has no policy at all: the summary passes and no table does |
| IsolationReport.UnreachableIsIgnored | backend/cmd/audit-isolation/main.go:284-306 | an unreachable database does not change the summary |
| IsolationReport.RemediatedSummaryIff | backend/cmd/audit-isolation/main.go:248-281 | after the remediation the summary passes iff some table was reached and each one can be put in order |

## Left out

- Floating point: the limiter's tokens and the cache's clock are reals, so rounding is not modelled.
- AnswerCaching.AnswerCache.Get: the cache's methods are whole steps, as under their lock; `stats` only reads.
- CachedAsk.SameKeyIff: lower-casing maps each character on its own and keeps spaces; the JSON encoding and its digest are one injective function.
- CachedAsk.CachedAgreesIff: refusals and metrics are left out, and the streaming endpoint, which looks up and stores the same way; what retrieval and generation yield is a function of the request and of the corpus they saw.
- RateLimiting.WindowBound: `reset` is not in its runs, since resetting refills the bucket; `client_key` is left out as a single branch.
- RouteBlocks.RouteBlockIntervals: the regular expression's matches are given, in source order; `canonical_route`, `is_public` and the inventory are left out as single branches.
- EntryHashing.FieldsDeterminedIff: JSON compaction is already applied, and of JSON only the quoting is modelled; SHA-256 is any collision-free function to delimiter-free text other than GENESIS.
- AuditChain.VerifyChain: the record counters and identifiers it also reports are not part of this model.
- AuditStore.Store.Rebaseline: the scan and the transaction are one step, so an append between them is excluded; the immutability trigger and its bypass are left out.
- AuditStore.Store.AppendBatch: the tails are read and written there without failures, and which rows the database takes is a parameter; one tenant's share of a batch is one step.
- AuditFlushes.AppendsVerifyIff: entries get new ids, as the event mapper generates them, and it speaks of the table when all inserts are over.
- Ingestion.Ingest: metadata of unchanged documents, the article index, the page counters and the embeddings themselves are left out; chunks and their status are a function of the bytes.
- Ingestion.HistoryHonest: settings and extraction stay the same over a history, and its runs do not overlap, which neither the endpoint nor the command line prevents.
- Scoring.NormalizeKeepsSubstrings: on text that NFKC leaves alone, with per-character lower-casing; keyword coverage and citation scores are left out as plain ratios.
- IdentityRenewal.WaitForWindow: X.509 parsing and the configuration's defaults are given, and what the enrolment exchange yields, and how long it takes, are outcomes of an attempt.
- IdentityRenewal.RenewalLoop: timers are on time there; `WaitForWindow` covers late ones.
- EnrollmentTokens.SingleUse: deleting an agent, which deletes its token rows, is left out; table times are not rounded to microseconds, addresses are text; signatures are a flag.
- DekCustody.SovereignDekProvider.ReleaseDek: releasing part of a buffer is left out, and buffers are identified by array; the run model has addresses and collection.
- LeaderSingleton.Singleton.RunElection: `stop` is nil, and a loop body returns when its context is cancelled; cancellation of the parent context is the end of the run.
- LeaderSingleton.LeadersExclude: one clock, and a reply is acted on in the step that produced it; losing Redis data is left out, as is running without Redis, which excludes nobody.
- IsolationAudit.AuditTable: one schema; policies are compared by name only, as the audit does, and their listing order and printed headings are left out.
- IsolationReport.RemediationConvergesIff: table names of one database are distinct and have no dots, as in the audited list.
- The failover, workflow and outbox services, the HTTP layers, the capture scheduler and the frontend are not part of this model.
