# Verified model of the mail service core

This project models the stateful core of the mail service in Dafny and proves what its workflow
engine, caches, rate limiters, IMAP sync, storage accounting and retention job keep over every input
and every run. `dafny verify dfyconfig.toml` checks it.

## What is modelled

**Workflows.** `WorkflowTypes` holds configurations, `WorkflowGraph` walks, lassos and cycles. A lasso
is a walk from a listed node whose last node occurs earlier on it. `CycleDetection` is the recursive
depth-first detector, an object with `visited`, `recursionStack` and `cycles`, with the traversal it
computes as a function. `TopologicalSort` is Kahn's algorithm over in-degree and adjacency maps. Both are
specified on every configuration, with dangling, parallel and self edges, and then compared.
`WorkflowValidation` and `WorkflowNormalize` are the checks and the pruning done before a run;
`NormalizedValidation` relates them.
`WorkflowRun` specifies the interpreter: calls nest, the engine can be aborted, a throw unwinds
through every open call and marks each node failed, even one that had already completed. Node
results and elapsed time come from a `World`; a node may answer differently at every visit.
`WorkflowEngine` is the imperative engine with its logger and refines that specification, step and
time cap included; the uncapped engine exists for configurations without a lasso, where the model
proves that it terminates. `WorkflowLedger` and `WorkflowPaths` are theorems about whole runs.
`WorkflowRouting` says which edges a result follows without the routing functions.
`Conditions` holds the condition evaluators and `LogRedaction` the redaction of logged values.

**Caches and limiters.** `OrderedMaps` is the JavaScript map with its insertion order. `KvStore` is
the TTL store, compared in `KvSimulation` with a map that never evicts. `RateLimiter` is the
in-memory limiter, `RedisLimiter` the server script and its caller; both are compared with one
counter per key that never forgets (`RateLimiterRefinement`). `BucketCap` says whose bucket the memory
limiter's cap can take, and `WindowBound` bounds what passes.

**Preference cache.** `PreferenceCache` is a transition system: fetches, per-user writers, cache
operations, global clears and expiry interleave in single steps.

**Mail lifecycle.** `UidSync` and `UidCoverage` model UID-range sync with UIDVALIDITY (section 2.3.1.1
of RFC 3501); `UidCompleteness` says what each kind of run hands over and when everything has been. `StorageQuota` and `MailIngestion` model what storing a message adds to a user's usage.
`Retention`, `RetentionJob` and `EmailTrash` model the three retention stages and the trash.

`Wrappers`, `Sequences`, `Texts` and `JsonValues` (in `Json.dfy`) are shared.

## What the proofs found

- Emptiness of the cycle report is exact on every configuration. After the first report the recursion
  stack is not cleaned up: every report is a real walk from a listed node, but a later one closes on
  itself exactly when no earlier report has been through the name it ends in. Every listed node that leads
  into a cycle lies on some report all the same.
- A dangling edge from an unlisted source keeps its target out of the topological sort although there
  is no cycle. The two algorithms agree when every edge leaves a listed node.
- The global clear of the preference cache resets the version counters, so an open fetch from before a
  write can store a stale value afterwards. The reset is safe exactly when every open fetch started with
  version 0 and has read no other value than the stored one.
- The script forgets a window that is still open exactly when the next request for its key comes more than
  two windows after the last one on the server's clock. A drift of one window and a millisecond between the
  clocks never leads there; one millisecond more can.
- The memory limiter loses an open window exactly when the bucket cap has evicted it. Only a key that as many
  other keys as the cap have followed can be evicted, and that many are enough to let a denied request pass.
- A personal mailbox that is rebuilt keeps its full-sync flag while no run sets a new mark: the run that notices
  the rebuild fails, breaks off, finds the mailbox empty, or finds only messages that vanish. A later run then
  takes the last ten messages only. Older ones not handed over before are never fetched in that epoch, as long
  as the server announces UIDNEXT; a mailbox that is empty after its rebuild and filled later loses all but ten.
- A run whose server announces no UIDVALIDITY erases the stored one and hides a rebuild; the next run
  loses exactly the messages of the new epoch that do not lie above the old mark.
- A mailbox deletion that fails loses the count of the emails it had already purged.
- The depth limit of the log redaction does not hold for headers: a headers record just above the limit
  keeps its values.
- The storage prediction is safe exactly when every attachment with content longer than the maximum
  declares its size; an undeclared one is not predicted but is stored. It bounds the sizes recorded; the
  bytes written are bounded too when sizes are declared truthfully.
- A time to live below one millisecond keeps an entry for ever.
- A negative megabyte limit counts as no limit, a negative file limit denies everything.
- Restoring from the trash turns an archived email into a read one. An email that leaves the trash by
  being marked read or archived keeps its deletion time, so a later deletion can be purged at once.
- Without an email an operator and its opposite both fail, so a negated match holds where the opposite
  match does not.
- A keyword means the same in simple and in advanced mode exactly when it is not empty and has no space.
  The empty "any" list matches in simple mode, the empty disjunction does not.

## Model

| member | source | states |
|---|---|---|
| WorkflowTypes.NextNodesExact | src/lib/workflow/utils.ts:225-237 | A node is a next node exactly when some edge leads to it from the given node, with the given handle if one is asked for. |
| WorkflowTypes.TriggersByName | src/lib/workflow/types.ts:966-968 | The trigger types are exactly those whose names start with "trigger:". |
| WorkflowTypes.DefinedTypes | src/lib/workflow/types.ts:559-915 | Every type but the retired triggers and foreign types is in the definition table, and it says which types branch on truth, which on a category, and that only the end has no output. |
| CycleDetection.BuildAdjacency | src/lib/workflow/utils.ts:116-121 | The adjacency map lists, for every name, the targets of its outgoing edges in edge order. |
| CycleDetection.Detector.Dfs | src/lib/workflow/utils.ts:123-141 | One call of the traversal terminates on every graph, computes the specified traversal, leaves the stack as it was without a find and the bodies of all reports on it with one; until the first report every returned name has all its successors returned before it. |
| CycleDetection.DetectCycles | src/lib/workflow/utils.ts:110-150 | On every configuration the report is non-empty exactly when some listed node starts a lasso, its first entry is one, and every entry is a walk from a listed node. Every listed node that leads into a lasso lies on some report, and each report starts at the first such node that no earlier report has been through, which fixes how many reports there are and where they start. |
| CycleDetection.ReportIsLassoIff | src/lib/workflow/utils.ts:130-135 | A report closes on itself exactly when no earlier report has been through the name it ends in. |
| CycleDetection.ReportLeadsToLasso | src/lib/workflow/utils.ts:130-135 | From every name on the body of a report, first or later, some walk leads into a lasso. |
| CycleDetection.SecondReportNeedNotClose | src/lib/workflow/utils.ts:123-150 | With edges from a to b, b to a and d to b the reports are a-b-a and d-b, and the second does not close on itself. |
| WorkflowGraph.LassoIffCycle | src/lib/workflow/utils.ts:110-150 | When edges leave listed nodes, a lasso exists exactly when the graph has a directed cycle. |
| TopologicalSort.Relax | src/lib/workflow/utils.ts:183-191 | Every occurrence of a neighbour takes one off its in-degree, and exactly the names that drop to zero join the queue, once each. |
| TopologicalSort.TopologicalSort | src/lib/workflow/utils.ts:154-195 | On every configuration the result has no duplicates, puts every edge's source before its target, and holds exactly the names that neither a cycle nor an unlisted source leads to. Their order is exactly that of the queue: first the names without a source as nodes and then edges name them, then after each sorted name those it makes ready, by its last edge to each; no name comes after one that became ready later. |
| TopologicalSort.SortedIffNoCyclicAncestor | src/lib/workflow/utils.ts:154-195 | When edges leave listed nodes, the sort returns exactly the names with no ancestor, themselves included, on a cycle. |
| TopologicalSort.KahnAgreesWithDetector | src/lib/workflow/utils.ts:110-195 | The sort is complete exactly when every edge leaves a listed node and the detector reports nothing; when edges join listed nodes it returns all node ids exactly when nothing is reported. |
| TopologicalSort.DanglingSourceExample | src/lib/workflow/utils.ts:165-168 | An edge from an unlisted source blocks its target in the sort without any cycle. |
| WorkflowValidation.ValidateWorkflow | src/lib/workflow/utils.ts:12-106 | Reports exactly the trigger, edge and node problems there are, and cycles exactly when the detector finds one. |
| WorkflowNormalize.Normalize | src/lib/workflow/normalize.ts:18-114 | The filters, with the flags and sets their callbacks update, compute the specified pruning and note exactly the types and ids of the dropped nodes. |
| WorkflowNormalize.NormalizationIsExact | src/lib/workflow/normalize.ts:42-113 | The nodes left are exactly, and in order, those without a type, or with one that is neither disabled nor a retired trigger and is no trigger, or the first email trigger of the input; the edges left are exactly those whose ends are names of nodes left; the types and names noted are those of the other nodes. |
| WorkflowNormalize.OthersAreLeftAlone | src/lib/workflow/normalize.ts:22-40 | Anything that is no record with lists of nodes and edges is returned as it is. |
| WorkflowNormalize.NormalizationKeepsOrder | src/lib/workflow/normalize.ts:44-113 | Nodes and edges keep their order; an edge stays exactly when both ends are kept nodes; allowed nodes that are no triggers stay; other fields are untouched. |
| WorkflowNormalize.OneTriggerExact | src/lib/workflow/normalize.ts:66-88 | The only trigger left is the first email trigger that survived the first filter; without one no trigger is left. |
| WorkflowNormalize.NormalizationIsIdempotent | src/lib/workflow/normalize.ts:18-114 | Normalising a normalised configuration, well-formed or not, changes nothing and removes nothing. |
| NormalizedValidation.NoNewLasso | src/lib/workflow/normalize.ts:97-103 | A configuration with fewer nodes and edges has no lasso that the larger one lacks. |
| NormalizedValidation.ViewShows | src/lib/workflow/normalize.ts:7-10 | The typed view shows a node's id and type name and an edge's ends and handle as the JSON has them. |
| NormalizedValidation.NormalizedValidates | src/lib/workflow/normalize.ts:44-103 | Validation of a normalised configuration reports no dangling edge, no extra and no wrong trigger, misses a trigger exactly when no email trigger survives, and reports a cycle only if the input had one. |
| WorkflowRun.NestingBound | src/services/workflow/engine.ts:158-228 | Without a lasso, calls nest no deeper than there are names, listed nodes and edge targets; when edges join listed nodes, no deeper than there are nodes. This bound is what makes the uncapped engine terminate. |
| WorkflowRun.FindsFirstNode | src/services/workflow/engine.ts:168 | A call executes the first listed node of its name. |
| WorkflowRun.FindsFirstTrigger | src/services/workflow/engine.ts:115-156 | A run starts at the first trigger node. |
| WorkflowRouting.RouteTargetsIff | src/services/workflow/engine.ts:230-261 | For every node, value and name: the run goes on to the name exactly when an edge to it is followed, that is for a match, custom condition or branch one under "true" or "false" by the value's truth, for a keyword node with a boolean the same, for the multi-way nodes one of the category, or one under "default" when the category has none, and for every other node any edge. |
| WorkflowEngine.WorkflowLogger.StartNode | src/services/workflow/logging.ts:93-120 | Starting a node appends one running row and leaves the execution path alone. |
| WorkflowEngine.WorkflowLogger.CompleteNode | src/services/workflow/logging.ts:125-153 | Completing a node marks its row and appends it to the execution path as a success. |
| WorkflowEngine.WorkflowLogger.FailNode | src/services/workflow/logging.ts:158-186 | Failing a node marks its row, whatever its status was, and appends it to the execution path as failed. |
| WorkflowEngine.WorkflowLogger.GetNodesExecuted | src/services/workflow/logging.ts:252-254 | The count is the number of rows ever started. |
| WorkflowEngine.Engine.ExecuteFromNode | src/services/workflow/engine.ts:158-228 | One call of the capped engine leaves exactly the specified state and throws exactly what the specification throws, on any configuration. |
| WorkflowEngine.Engine.Execute | src/services/workflow/engine.ts:115-156 | A capped run terminates on every configuration in the specified state, as a success or as a failure with its cause. |
| WorkflowLedger.RunLedger | src/services/workflow/engine.ts:192-227 | At the end no row is running; after a throw the failed rows are exactly the open calls, which form a graph path from the trigger, and the execution path is the completed nodes in step order followed by that path reversed; otherwise it lists all started nodes in step order. |
| WorkflowLedger.RunStartsAtMostMaxSteps | src/services/workflow/engine.ts:158-180 | Every capped run, cyclic configurations included, starts at most `maxSteps` nodes. |
| WorkflowLedger.CapsAreTransparent | src/services/workflow/engine.ts:158-228 | Without a lasso, no cap fires exactly when every entry of the uncapped run is in time and within the step cap, and then both runs are equal in rows, path, steps and outcome. |
| WorkflowLedger.EndStopsTheRun | src/services/workflow/engine.ts:204-217 | Once an end node completes no further node starts and the run ends without a throw, whatever siblings were pending. |
| WorkflowPaths.ExecutionsArePaths | src/services/workflow/engine.ts:211-261 | With one fixed result per node, no throw and no end node, each node executes once per chosen-edge path from the trigger to it, and the step count is the number of those paths. |
| Conditions.OppositeNegatesIff | src/services/workflow/executor.ts:217-260 | An operator's opposite is its negation exactly when there is an email; without one both fail. |
| Conditions.MatchIff | src/services/workflow/executor.ts:217-260 | A match holds exactly when there is an email and its field's text, lowered unless case counts, contains, equals, starts with or ends with the value, or not, is blank or not, or matches the pattern, as the operator says. |
| Conditions.SimpleModeIff | src/services/workflow/executor.ts:335-359 | Simple mode holds exactly when the list is empty, or all, or some, of its words occur in the field texts joined by single spaces. |
| Conditions.NegationMovesInwards | src/services/workflow/executor.ts:263-279 | Negation moves inwards through conjunctions and disjunctions of any length. |
| Conditions.OperatorsAreOrdered | src/services/workflow/executor.ts:233-244 | Equality implies the prefix and suffix operators, either of which implies containment; a prefix match on a text no longer than the value is an equality. |
| Conditions.NotAcrossTheSpace | src/services/workflow/executor.ts:349-358 | A non-empty text without spaces that occurs in two space-joined texts occurs in one of them. |
| Conditions.CompositeImpliesSimple | src/services/workflow/executor.ts:217-279 | For every keyword, spaces or not, a field that contains it makes the joined fields contain it. |
| Conditions.KeywordFormsAgreeIff | src/services/workflow/executor.ts:335-359 | Exactly the non-empty, space-free keywords mean the same on joined fields and as a disjunction over fields, for all fields and emails. |
| Conditions.SimpleModeMeansComposite | src/services/workflow/executor.ts:335-359 | For proper keywords, simple mode equals the and/or tree of single matches, exactly unless the list is empty with "any". |
| Conditions.AdvancedModeKeepsMeaning | src/services/workflow/executor.ts:282-304 | Rewriting a keyword node with proper keywords, other than the empty "any" list, from simple into advanced mode keeps its result, also without an email. |
| Conditions.ClassifyByKeywords | src/services/workflow/executor.ts:306-333 | The category is that of the first set that has keywords and matches, or the default when none does. |
| LogRedaction.RedactIsSafe | src/services/workflow/engine.ts:30-66 | In everything logged, every secret key at every depth, headers included, carries the marker; arrays have at most 100 items and strings at most one character over the limit; a value met at the depth limit is null or the marker. |
| LogRedaction.SecretKeyIff | src/services/workflow/engine.ts:22-53 | A key is secret exactly when in lower case it contains token, secret, password, apikey, api_key, api-key or authorization; a headers key is the word itself in any case. |
| LogRedaction.HeadersAreShown | src/services/workflow/engine.ts:46-58 | A header that is not secret is logged as its text, cut after 2000 characters. |
| LogRedaction.DeepestFields | src/services/workflow/engine.ts:30-62 | Of the fields of a record just above the depth limit, exactly the nulls survive as null and exactly the headers records under a key that is not secret survive as records; every other field becomes the marker. |
| LogRedaction.LoggedNestsWithin | src/services/workflow/engine.ts:30-66 | Everything logged nests at most one level deeper than the depth limit. |
| LogRedaction.FixedIffSafe | src/services/workflow/engine.ts:30-66 | Redaction leaves a value alone exactly when it is safe already. |
| LogRedaction.RedactionIsIdempotent | src/services/workflow/engine.ts:24-66 | Redacting twice is redacting once, at every depth. |
| LogRedaction.RedactionKeepsShape | src/services/workflow/engine.ts:24-66 | Above the depth limit records keep their keys, arrays their first items, long strings their beginning, and small values are logged as they are. |
| LogRedaction.SecretsDoNotMatter | src/services/workflow/engine.ts:41-62 | Two values that differ only under secret keys are logged alike. |
| OrderedMaps.OrderedMap.Refresh | src/lib/cache/memory-store.ts:46-48 | Deleting a present key and setting it again moves it to the end and changes nothing else. |
| KvStore.MemoryKvStore.Get | src/lib/cache/memory-store.ts:36-49 | A hit returns the value and moves the key to the end; an expired entry is deleted and answers null. |
| KvStore.MemoryKvStore.Set | src/lib/cache/memory-store.ts:57-65 | Setting replaces the value in place or appends the key, drops expired keys and evicts from the front down to the limit. |
| KvStore.MemoryKvStore.ClearByPrefix | src/lib/cache/memory-store.ts:78-87 | Removes and counts exactly the keys with a non-empty prefix. |
| KvSimulation.StoreSimulatesIdeal | src/lib/cache/memory-store.ts:36-135 | For every request sequence: a get answers null or what an unbounded TTL map answers, misses a live key only after at least `maxEntries` distinct other keys were inserted or hit since its own last use, the size stays within the limit and a key just set is held. |
| KvSimulation.GetAfterSet | src/lib/cache/memory-store.ts:36-65 | In every request sequence, a get after a set of its key, with no other change of the key in between, answers the value set exactly while fewer than the whole milliseconds of its time to live have passed, and for ever without a finite one of at least a millisecond, unless the key was pushed out. |
| KvSimulation.SetLeavesTheLiving | src/lib/cache/memory-store.ts:57-65 | After a set the store holds no value whose time to live has passed. |
| RateLimiter.MemoryRateLimiter.RateLimit | src/lib/cache/memory-store.ts:89-119 | One request prunes, counts or opens a window and evicts, and answers with the specified verdict. |
| RateLimiter.NormalizeNow | src/lib/cache/memory-store.ts:89-92 | The time used is the whole milliseconds of the time given, or the clock's when none or no finite one is given. |
| RateLimiter.NormalizeRateLimitValue | src/lib/cache/memory-store.ts:89-93 | A limit or window is the whole part of the number given, and one when that is not finite or below one. |
| RateLimiter.RetryIsExact | src/lib/cache/memory-store.ts:97-118 | A denied request is told to wait more than zero and at most a window, and exactly the earliest delay after which a request passes. |
| RateLimiter.EvictTakesLeastRecent | src/lib/cache/memory-store.ts:144-153 | Eviction leaves at most the cap, and every bucket it deletes was last seen no later than every bucket it keeps. |
| RateLimiter.EvictTakesFirstInserted | src/lib/cache/memory-store.ts:144-153 | Of two buckets last seen at the same time, eviction takes the one inserted first. |
| RateLimiterRefinement.MemoryKeepsStepIff | src/lib/cache/memory-store.ts:89-153 | Over every run with a non-decreasing clock and a fixed policy, the memory limiter gives every request the verdict and retry time of the counter that never forgets, and places the same window, exactly when no request comes for an open window whose bucket has been evicted. |
| RateLimiterRefinement.MemoryRefinesCounterIff | src/lib/cache/memory-store.ts:89-153 | After a run that lost no open window, the next verdict and retry time are the counter's exactly unless the request comes for an open and full window whose bucket has been evicted. |
| RateLimiterRefinement.MemoryRefinesCounter | src/lib/cache/memory-store.ts:89-142 | With a non-decreasing clock and a fixed policy, and while the cap is not exceeded, verdicts and retry times are those of a counter that never forgets. |
| RateLimiterRefinement.FewKeysNeverEvict | src/lib/cache/memory-store.ts:144-153 | Requests for no more keys than the cap never trigger an eviction. |
| BucketCap.EvictedIsCrowded | src/lib/cache/memory-store.ts:144-153 | A bucket evicted since the last request for its key was crowded out: from the time of that request on, at least as many other keys as the cap have been requested. |
| BucketCap.CrowdBoundIsTight | src/lib/cache/memory-store.ts:89-153 | For every cap, limit and window longer than a millisecond, as many other keys as the cap, one request each, can lose a full open window, so that a request passes that the counter denies. |
| BucketCap.BucketsAreRecent | src/lib/cache/memory-store.ts:89-142 | While nothing is evicted, the buckets after a request are exactly those of the keys requested less than two of their windows before. |
| RedisLimiter.RedisServer.Eval | src/lib/cache/redis-store.ts:10-56 | The script, one command after the other, leaves the specified hash and expiry and replies with the specified verdict. |
| RedisLimiter.ScriptKeepsStepIff | src/lib/cache/redis-store.ts:10-56 | Over every run with a non-decreasing clock, the script gives every request the verdict and retry time of the counter that never forgets, and leaves the same window, exactly when no request comes more than two windows after the last one for its key on the server's clock while its window is still open on the callers' clock. |
| RedisLimiter.ScriptRefinesCounterIff | src/lib/cache/redis-store.ts:10-56 | After a run that forgot no open window, the next verdict and retry time are the counter's exactly unless the script now forgets a full window. |
| RedisLimiter.ForgettingShowsIff | src/lib/cache/redis-store.ts:10-56 | A request forgets an open window exactly when its own verdict, or with clocks that run alike from then on that of some later request for the key, differs from the counter's. |
| RedisLimiter.SmallDriftNeverForgets | src/lib/cache/redis-store.ts:10-56 | While the server's clock gains at most one window and a millisecond between two requests for a key, no open window is forgotten. |
| RedisLimiter.ImplementationsAgreeIff | src/lib/cache/redis-store.ts:140-165 | After a run in which neither lost an open window, the memory limiter and the script answer the next request alike exactly unless its window is full and one of them, but not the other, has lost it. |
| RedisLimiter.DriftBoundIsTight | src/lib/cache/redis-store.ts:10-56 | For every key, limit and window, a drift of one window and two milliseconds can make the script let a request pass that the counter denies. |
| WindowBound.AtMostTheLimitPerWindow | src/lib/cache/memory-store.ts:97-118 | Since the window of a key opened, exactly as many requests passed as it counts, and no more than the limit. |
| WindowBound.AtMostTwiceTheLimit | src/lib/cache/memory-store.ts:97-118 | In any interval one window long the counter lets at most twice the limit pass. |
| WindowBound.MemoryPassesAtMostTwice | src/lib/cache/memory-store.ts:89-119 | So does the memory limiter while no request comes for an open window whose bucket has been evicted. |
| WindowBound.ScriptPassesAtMostTwice | src/lib/cache/redis-store.ts:10-56 | So does the script while it forgets no open window. |
| WindowBound.MemoryPassesAtMostTheLimit | src/lib/cache/memory-store.ts:97-118 | Under the same condition, in the current window of a key the memory limiter lets exactly as many requests pass as the window counts, and no more than the limit. |
| WindowBound.ScriptPassesAtMostTheLimit | src/lib/cache/redis-store.ts:10-56 | So does the script while it forgets no open window. |
| PreferenceCache.RunsAreCoherent | src/services/user-mail-content-storage.ts:30-95 | Over every interleaving with one writer at a time per user, global clears included when their resets are safe, the cache entry is absent or equal to the stored preference whenever no writer is between its database write and the end of its call. |
| PreferenceCache.FetchFills | src/services/user-mail-content-storage.ts:30-63 | With no operation pending, an undisturbed fetch caches the stored preference, or true for a user without one, and leaves everything else as it was. |
| PreferenceCache.WriteFills | src/services/user-mail-content-storage.ts:65-95 | An undisturbed write that ends in a set call caches the row then stored, one that ends in a clear call drops the entry; both count the user's version up and forget the fetch in flight. |
| PreferenceCache.ClearAllEmpties | src/services/user-mail-content-storage.ts:79-86 | An undisturbed global clear empties cache, versions and the table of fetches in flight. |
| PreferenceCache.RunsKeepRegistered | src/services/user-mail-content-storage.ts:41-62 | Over every run the table of fetches in flight names running fetches of the right user only. |
| PreferenceCache.ReadsShareOneFetch | src/services/user-mail-content-storage.ts:41-62 | Until a set or clear call ends, a user never has two fetches running. |
| PreferenceCache.EndingKeepsOthers | src/services/user-mail-content-storage.ts:55-59 | A fetch that ends takes only itself off that table. |
| PreferenceCache.ResetIsSafeIff | src/services/user-mail-content-storage.ts:81-86 | After any run whose resets so far were safe, the reset of a global clear keeps the cache coherent in all that follows exactly when every open fetch started with version 0 and holds the stored value if it has read its row, one version more being allowed while a writer is between its write and its call. |
| PreferenceCache.QuietResetIsSafe | src/services/user-mail-content-storage.ts:81-86 | A reset while no fetch waits for its row or its version check is safe. |
| PreferenceCache.GlobalClearBreaksCoherence | src/services/user-mail-content-storage.ts:81-86 | A run with a global clear leaves a stale entry behind with no writer active. |
| UidSync.ChunkArray | src/services/imap/sync.ts:130-137 | The chunks are the values in order, each within the size and all but the last full; a size of zero or less gives one chunk. |
| UidSync.Synchroniser.SyncByUidRange | src/services/imap/sync.ts:584-763 | One run hands over the specified messages in order and stores the specified progress, or stops where the connection broke. |
| UidCoverage.DomainRunsCover | src/services/imap/sync.ts:584-763 | For domain mailboxes, after any runs, with or without an announced UIDVALIDITY, deliveries, deletions and rebuilds, every existing message of the current epoch up to the stored mark has been handed to processing, as long as no stored run misses a rebuild while a message lies at or below the mark. |
| UidCoverage.AnnouncedRunsArePermitted | src/services/imap/sync.ts:601-622 | When UIDVALIDITY is always announced, no run misses a rebuild. |
| UidCoverage.StoredRunCoversIffNoticed | src/services/imap/sync.ts:601-722 | A stored run that meets a new epoch, with UIDNEXT announced and nothing handed over or vanished, covers it exactly when it notices the change or every message lies above the old mark. |
| UidCoverage.PersonalRunsCoverAfterFullPass | src/services/imap/sync.ts:584-763 | For personal mailboxes the same holds in every epoch that a backfill, or a run after a noticed rebuild that saw a message, went through. |
| UidCoverage.MarkIsMonotone | src/services/imap/sync.ts:687-741 | In every reachable state and whatever the server announces, no step lowers the mark within an epoch. |
| UidCoverage.RecentRunCoversIff | src/services/imap/sync.ts:628-741 | The recent-messages run of a personal mailbox covers everything up to its mark exactly when every message older than the ten it wanted has vanished or was handed over before, or when all the wanted ones have vanished. |
| UidCoverage.FirstRunSetsNoMarkIff | src/services/imap/sync.ts:601-741 | In a personal mailbox with the flag set, the run that notices a rebuild leaves the flag without a mark exactly when it stores nothing or hands over no message. |
| UidCoverage.FlagOutlivesMarkIff | src/services/imap/sync.ts:584-763 | The flag without a mark lasts exactly until a rebuild or a stored run that hands over a message. |
| UidCoverage.LastTenCoverIff | src/services/imap/sync.ts:628-741 | In this state the next undisturbed run leaves a mark and the flag, and covers the epoch exactly when every message but the last ten had been handed over before. |
| UidCoverage.RebuildLosesMailIff | src/services/imap/sync.ts:584-763 | After a run that notices the rebuild and sets no mark, for whichever reason, and any deliveries, deletions and runs that set no mark either, the next undisturbed run covers the epoch exactly when every message but the last ten had been handed over before. |
| UidCoverage.EmptyRebuildLosesMailIff | src/services/imap/sync.ts:584-763 | When none of these runs hands over a message, as with a mailbox that is empty after its rebuild and filled later, it covers the epoch exactly when there are at most ten messages. |
| UidCoverage.BrokenFirstRunLosesMailIff | src/services/imap/sync.ts:584-763 | When the first run fails or breaks off and the undisturbed next run follows at once, that run covers the epoch exactly when the first one had handed over all messages but ten. |
| UidCoverage.SkippedStaysSkipped | src/services/imap/sync.ts:584-763 | In a personal mailbox with the flag set, a message at or below the mark that was not handed over stays so over every run of steps of its epoch in which the server announces UIDNEXT. |
| UidCoverage.UnnoticedRunCoversIff | src/services/imap/sync.ts:601-741 | A stored incremental run that notices no change, with UIDNEXT announced, covers the epoch exactly when every message up to the old mark has vanished or was handed over before. |
| UidCoverage.MissingValidityLosesMailIff | src/services/imap/sync.ts:601-719 | After a stored run without UIDVALIDITY and a rebuild, the next stored run covers the new epoch exactly when all its messages lie above the old mark; any other message up to the mark is lost. |
| UidCompleteness.UndisturbedRunHands | src/services/imap/sync.ts:601-713 | From every state an undisturbed run hands over, in order, exactly: every message of a rebuilt mailbox; the last ten of a personal mailbox without a mark; every message of a personal mailbox with a mark and no flag; and else the messages above the mark. |
| UidCompleteness.UndisturbedRunStores | src/services/imap/sync.ts:687-741 | It stores the last message handed over as the mark, unless the old mark is higher, and the flag unless it was the run without a mark; when it hands over nothing it stores nothing, except that a rebuild resets the mark. |
| UidCompleteness.OpenRunHands | src/services/imap/sync.ts:642-713 | Without UIDNEXT it hands over the same, and the last message again when none lies above the mark. |
| UidCompleteness.RunsStayBelowNext | src/services/imap/sync.ts:642-713 | With UIDNEXT announced no run, whatever disturbs it, hands over a message that does not lie below, or one that has vanished. |
| UidCompleteness.DeliveredMailArrives | src/services/imap/sync.ts:601-713 | In every mode a message that is delivered is handed over by the next undisturbed run, unless the mark lies beyond UIDNEXT. |
| UidCompleteness.DomainRunsComplete | src/services/imap/sync.ts:584-763 | In every reachable state of a domain mailbox whose mark is of the current epoch, or whose rebuild shows, an undisturbed run leaves no existing message that was never handed over. |
| UidCompleteness.PersonalRunsComplete | src/services/imap/sync.ts:584-763 | So does one of a personal mailbox in every epoch that a stored run has gone through completely. |
| UidCompleteness.TwoRunsHandAll | src/services/imap/sync.ts:628-741 | Of a fresh, non-empty personal mailbox a first undisturbed run hands over the last ten messages, and a second one every message that exists then and sets the flag, whatever is delivered or deleted in between. |
| StorageQuota.NegativeLimits | src/services/storage-quota.ts:27-127 | A negative file limit denies every store; a negative megabyte limit never stands in the way. |
| StorageQuota.CanStoreIff | src/services/storage-quota.ts:27-127 | A user who is no administrator can store exactly what keeps the bytes within the megabytes, of 1 048 576 bytes, and the files within the number of the user's own limits or else the group's; a missing limit, and a negative one of megabytes, is none, and a negative addition counts as none. Anybody else can store everything. |
| StorageQuota.UsageAddsUp | src/services/storage-quota.ts:74-92 | A user's usage is the sum over the rows of the user's own mailboxes. |
| MailIngestion.ProcessAttachments | src/services/imap/sync.ts:158-212 | The records are the sizes of the attachments that are not too large, have content and were written, in order. |
| MailIngestion.PredictionIsSafeIff | src/services/imap/sync.ts:315-330 | The sizes recorded never exceed the prediction, whichever writes succeed, exactly when every attachment with content longer than the maximum declares its size. |
| MailIngestion.PredictionIsReached | src/services/imap/sync.ts:158-212 | When every write succeeds and nothing oversized is undeclared, the sizes and the number recorded are exactly those predicted. |
| MailIngestion.OneRecord | src/services/imap/sync.ts:158-212 | A written attachment is recorded with its declared size, or its length when it declares none or zero; one without content or declared too large is not written. |
| MailIngestion.RecordsAreContentIff | src/services/imap/sync.ts:158-212 | The bytes of content written are the bytes recorded, whichever writes succeed, exactly when every accepted attachment is recorded with the length of its content. |
| MailIngestion.ContentIsPredicted | src/services/imap/sync.ts:158-212 | With such records and every oversized attachment declared, the content written stays within the prediction. |
| MailIngestion.QuotaIsSafeIff | src/services/imap/sync.ts:315-437 | The quota check is safe for a message, whatever is stored and whatever the settings, exactly when every attachment with content longer than the maximum declares its size. |
| MailIngestion.MailStore.ProcessMessage | src/services/imap/sync.ts:283-437 | The rows after one message and all its recipients are those of handling the recipients one by one, up to an unexpected failure. |
| MailIngestion.QuotaIsInvariant | src/services/imap/sync.ts:315-437 | Over every sequence of messages whose oversized attachments declare their size, and of recipients, whichever writes fail, a user within quota stays within it and a user over quota does not grow. |
| MailIngestion.AccountStaysWithin | src/services/imap/sync.ts:315-437 | So with an account's quota: its user's bytes and files only grow to what the account's own limits, or else its group's, allow. |
| MailIngestion.MessagesAreStoredOnce | src/services/imap/sync.ts:392-398 | Over every sequence of deliveries a mailbox never holds two rows with the same message id, however often a message arrives. |
| MailIngestion.StoredUnlessThere | src/services/imap/sync.ts:392-437 | For a recipient with a mailbox exactly one row is added, unless the mailbox holds one with the same message id already. |
| RetentionJob.CountersAddUp | src/services/jobs/retention.ts:90-284 | The counters of a mailbox or email stage add up over the rows it scanned. |
| RetentionJob.MailboxesAreCountedAs | src/services/jobs/retention.ts:58-182 | Each scanned mailbox is counted under one heading: invalid for days other than minus one and the positive ones, never for minus one, fresh until its days have passed, then archived, deleted or, when some file cannot be deleted, failed. |
| RetentionJob.EmailsAreCountedAs | src/services/jobs/retention.ts:226-284 | So is each scanned email; none fails. |
| RetentionJob.Job.DeleteMailboxPermanently | src/services/jobs/retention.ts:67-88 | The batch loop terminates; without a broken file no email of the mailbox is left and its row is gone; with one, exactly the emails before it are purged and the row stays. |
| RetentionJob.ParsedLimit | src/services/jobs/retention.ts:50-56 | A limit is applied exactly when a finite number of at least one is given, and then it is its whole part, at most 10 000. |
| RetentionJob.Job.RunMailboxRetention | src/services/jobs/retention.ts:90-182 | The mailbox stage deals with each scanned row as its policy says and counts what it did, the emails purged with deleted mailboxes included; a dry run changes nothing. |
| RetentionJob.PurgedCounterIsExactIff | src/services/jobs/retention.ts:160-178 | The counter of emails purged with mailboxes is the number of email rows gone exactly when no failed deletion had purged any email before it failed. |
| RetentionJob.Job.RunEmailRetention | src/services/jobs/retention.ts:184-284 | The email stage archives or trashes each expired row and counts what it did; a dry run changes nothing. |
| RetentionJob.Job.RunTrashPurge | src/services/jobs/retention.ts:286-351 | For each user in scope as many of the emails that have been in the trash too long as the limit lets through are scanned; a dry run skips them all, else exactly those whose files can be deleted are purged and the others counted as failed; all six counters are exact. |
| RetentionJob.Job.RunRetentionJob | src/services/jobs/retention.ts:353-393 | With or without a limit, the three stages deal with the rows their queries return one after the other; tables and all counters are the specified ones, and a dry run changes nothing. |
| RetentionJob.UnlimitedRun | src/services/jobs/retention.ts:353-393 | Without a limit, a run that is no dry run leaves exactly the tables that `MailboxAfterRun` and `EmailAfterRun` describe. |
| RetentionJob.RunCountersAddUp | src/services/jobs/retention.ts:90-351 | Expired rows are those archived, deleted and failed, no email fails, and scanned trash is purged, skipped or failed. |
| RetentionJob.QuietRunCountsNothing | src/services/jobs/retention.ts:90-351 | On tables where nothing has expired no row is counted as expired, no trashed email is scanned and nothing changes. |
| Retention.RetentionIsIdempotent | src/services/jobs/retention.ts:67-351 | At one time a second run changes no row, whichever files cannot be deleted. |
| Retention.FullRunLeavesQuiet | src/services/jobs/retention.ts:67-351 | After a run in which every file could be deleted nothing is expired or to be purged, so a second run counts none. |
| Retention.FreshTrashIsKept | src/services/jobs/retention.ts:184-351 | An email that a run moves to the trash is still there when that run ends, with the run's time as its deletion time. |
| Retention.MailboxAfterRun | src/services/jobs/retention.ts:58-182 | A run deletes a mailbox exactly when it is active, not archived and in scope, its own days, or else its user's, of 86 400 000 milliseconds each have passed since its last email or else its creation, the action is to delete, and no email's files stand in the way; it archives it exactly when it is due and not to be deleted; else the row stays. |
| Retention.EmailAfterRun | src/services/jobs/retention.ts:58-351 | A run purges an email exactly when it goes with its mailbox or has been in the trash for longer than its user keeps trash and its files can be deleted; it trashes or archives an unread or read email exactly when its days have passed since it arrived, as the action says; any other row stays as it is. |
| EmailTrash.TrashBin.MoveOwnedEmailToTrash | src/services/email-trash.ts:31-60 | Only an email of the user's moves; one already in the trash is left alone, and an earlier deletion time is kept. |
| EmailTrash.TrashBin.RestoreOwnedEmailFromTrash | src/services/email-trash.ts:62-85 | Only an email of the user's comes back, as unread when that was noted and else as read, with its trash fields cleared. |
| EmailTrash.RestoreUndoesIff | src/services/email-trash.ts:27-85 | Restoring undoes the move exactly for an unread or read email that carried no trash fields. |
| EmailTrash.FullRetentionIff | src/services/email-trash.ts:49-57 | A trashed email is kept for the user's whole retention exactly when it carried no earlier deletion time. |

## Left out

- Node executors: `executeNode` is an oracle that answers or throws once per visit; mail, chat and webhook forwarding, AI calls and template text are not modelled.
- Cycle reports are lists of node names; joining them with arrows and the wording and order of validation messages are not modelled.
- Failures of the database calls that write log rows, the `flush` of pending log writes, `skipNode`, and the engine's default options.
- Removed types and node ids are sets; the source sorts them into lists.
- Keyword sets and keyword lists arrive with their defaults already applied; lower-casing works character by character, and regular expressions and blank characters are given functions.
- Redaction of `undefined` and of values that are no JSON; the text of a header value that is no string is a given function.
- `mget` and `delMany` repeat the single operations; the two maps of the memory store are modelled as two objects.
- The clock is read once per cache operation and is a parameter; keys of cached entries are not empty, as the key builder guarantees.
- Connection handling of the server store, and when the server drops expired keys; an expired key is simply not visible. That a key is still visible in the very millisecond of its expiry is how the server behaves; its code is not part of this repository.
- The sizes of fetch and database batches, which change no result.
- A preference fetch may also start without a cache miss before it, which allows more runs than the code.
- `syncUnseenMessages`, which moves the mark past messages already seen, and the message counters of a sync run.
- Parsing of messages, headers and addresses, the inbound policy's creation of mailboxes and the realtime notifications.
- Files: a file that cannot be deleted is a property of its email; which other files of that email were deleted before it is not tracked.
- Rows of a limited query are taken in id order; the source sorts by time as well, which matters only with a limit.
- `listUsersStorageUsage`, owner-requested purging and the remaining executors would add easy members only.
