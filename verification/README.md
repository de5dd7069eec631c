# Verified models of nagent's stateful core

This Dafny project models eight pieces of the nagent workspace whose guarantees hold over every run or
every input, and proves those guarantees. Each source component has its own module or modules:

| component | source file | modules |
|---|---|---|
| bounded blocking executor | `crates/nagent-support/src/cpu.rs` | `BoundedExecutor`, `ExecutorOutcomes` |
| per-IP rate limiter | `crates/nagent-server/src/rate_limit.rs`, `crates/nagent-support/src/ratelimit.rs` | `RateLimiter`, `RateDenials` |
| BM25 tool router | `crates/nagent-agents/src/tools_router.rs` | `Tokens`, `ToolsRouter`, `ToolsRanking`, `ToolsOrder`, `ToolsScores`, `ToolsFinding` |
| chat message log | `crates/nagent-db/src/chat_messages.rs` | `ChatLog`, `ChatRuns`, `ChatReads`, `ChatStatements` |
| memory store | `crates/nagent-db/src/memories.rs` | `LikePattern`, `MemoryStore`, `MemoryRuns`, `MemoryReads`, `MemoryStatements` |
| egress helpers | `crates/nagent-agents/src/egress.rs` | `Egress`, `HostAllowlist` |
| version slot of the build script | `crates/nagent-server/build.rs` | `VersionSlot` |
| agent registry | `crates/nagent-agents/src/agents.rs` | `AgentRegistry` |

`Sorting` holds the stable sort, filter and ordering lemmas the others share, `Sets` counting and set sizes,
`Wrappers` an option type.
`dafny verify dfyconfig.toml` checks the whole project.

## How the models are built

State that the source updates in place is a class whose methods update fields (`Semaphore` and
`Executor`, `Limiter`, `ChatMessages`, `Memories`, `BuildScript`, and for the registry a heap of shared
`Inner` vectors with reference counts). Each method's contract ties the new state to a specification
function of the old one; the theorems are then about the specification, over whole runs: sequences of
steps of any callers, users or visits in any order. `Play` methods connect the two, from an arbitrary
sequence of operations on the object to the run of the specification. `ChatStatements` and
`MemoryStatements` take the two repositories apart into single SQL statements of many clients in any
order.

What an operation answers is pinned by theorems that do not speak of the specification functions: what a
caller is told follows from the schedule (`ExecutorOutcomes`), a denial from readings and admissions
(`RateDenials`), a score from counts over the documents and a find from the agents' own words
(`ToolsScores`, `ToolsFinding`), and what the two repositories read from what was written (`ChatReads`,
`MemoryReads`).

The executor is a transition system: the actions of any number of callers interleave freely, including
timeouts, panics, dropped futures and closing either semaphore. Loops of the source (tokenisers, index
construction, scoring, the body reader, the truncation loop, host matching, `escape_like`) are loops
here, proved against the functions that specify them.

## Where the code differs from its documentation

The models follow the code. For every difference the named lemmas give a failing case and state exactly
when the documented behaviour holds.

- The idle sweep is documented to bound memory by evicting idle buckets that are full again. It looks at
  the stored tokens, which are refilled only when a bucket is touched, and after a touch are always below
  capacity; with a positive budget it never evicts anything (`RateLimiter.SweepRemovesExactly`), not even
  a bucket that has been silent for a minute (`RateLimiter.IdleBucketSurvives`), and the limiter keeps a
  bucket for every address it ever counted (`RateLimiter.KeepsAllVisitedExactly`). A sweep as documented
  would be invisible too on readings in order (`RateLimiter.DocumentedSweepInvisible`), and sixty seconds
  is the shortest idle time for which a bucket is as good as new (`RateLimiter.IdleWindowIsExact`).
- The clock is read before the bucket is locked, so concurrent calls can present readings out of order.
  The admission bound then follows the total forward motion of the readings instead of the window's
  length, and that bound is attained (`RateLimiter.RateBoundIsTight`, `RateLimiter.WindowBoundExactly`).
- `QueueFull(m)` is documented as "`m` callers were already waiting for a concurrency permit". A caller
  that has its permit and has not released its slot yet counts too, so with any permits and any slots
  there is a run in which a caller is refused while fewer wait (`BoundedExecutor.RefusedWithoutWaiters`,
  `BoundedExecutor.RefusalMeansWaiting`); a closed queue semaphore gives the same error, and `m` is a
  label that need not be the semaphore's capacity (`BoundedExecutor.QueueFullMeaning`). Read as a
  statement about held slots, it is right when the label is the capacity of an open queue
  (`BoundedExecutor.QueueFullCountsSlots`).
- `edit` checks the version in one statement, updates in another that does not name the version, and
  reads the row back in a third; two clients can both succeed on one version, and the version reported
  need not be the expected one plus one (`ChatRuns.RacingEditsBothAccepted`, `ChatRuns.SplitEditExactly`,
  `ChatRuns.RereadVersionExactly`). Without overlap in a conversation all calls are atomic
  (`ChatStatements.Serialisable`), and overlap is what breaks that (`ChatStatements.OverlapBreaks`).
- On SQLite `append` computes the ordinal and inserts in two statements, and the index on
  `(session_id, ordinal)` is not unique, contrary to the comment (`ChatRuns.RacingAppendsCollide`,
  `ChatRuns.SplitAppendKeepsInvExactly`, `ChatRuns.SplitAppendExactly`).
- `upsert` speaks of a unique `(user_id, subject, predicate)` collision, but the table has no such
  constraint (`MemoryStore.RacingUpsertsDuplicate`, `MemoryStore.SplitUpsertKeepsInvExactly`,
  `MemoryStore.SplitUpsertExactly`). A store is documented to preserve the confidence unless the request
  carries one; every request carries one (`MemoryStore.ConfidenceKeptExactly`).
- The recall filters are documented as LIKE patterns with `%` wildcards; all special characters are
  escaped, so a filter is an equality and `%` selects only columns that read `%`
  (`LikePattern.PercentSelectsItself`, `LikePattern.DocumentedFilterExactly`,
  `MemoryStore.MatchingIsEquality`).
- The bump of `last_used_at` is documented to share a transaction with the recall; it is a separate
  statement and can reach a row stored in between (`MemoryStore.StoreDuringRecallIsBumped`,
  `MemoryStore.SplitRecallExactly`, `MemoryRuns.SplitRecallOneOpExactly`, `MemoryRuns.SplitRecallInRun`). Without
  overlap of one user's calls, stores and recalls are atomic (`MemoryStatements.Serialisable`), and overlap
  is what breaks that (`MemoryStatements.OverlapBreaks`).

Some more consequences of the code are worth knowing. Sorting by name makes the ranking independent of
registration order, as documented, even when agents share a name (`ToolsOrder.RankingIgnoresOrder`). The
index itself and the description a search shows do depend on it then
(`ToolsOrder.RouterIgnoresOrderExactly`, `ToolsOrder.SearchIgnoresOrderExactly`): a search shows the
description of the agent registered last under the name, while the registry calls the first
(`ToolsRanking.SearchDescribesLast`, `AgentRegistry.GetIsFirst`). Keywords are indexed unsplit and without the
length filter, so some can never be matched by a query (`Tokens.AskableExactly`). Documents are
lowercased before they are split and queries after, which differs on two characters
(`Tokens.SafeExactly`). And the hash over the static tree covers `app.js` with the previous hash in its
slot, as a comment there says, so rebuilding an unedited tree is stable only at a fixed point of the
digest (`VersionSlot.RebuildIsStableExactly`).

## Model

| member | source | states |
|---|---|---|
| BoundedExecutor.PermitsConserved | crates/nagent-support/src/cpu.rs:191-232 | In every state any interleaving reaches, free plus held concurrency permits are the capacity, the same for queue slots, at most n closures run, and no running closure holds a queue slot |
| BoundedExecutor.NothingLeaks | crates/nagent-support/src/cpu.rs:177-232 | Once every call has ended, however it ended, both semaphores are back at full capacity |
| BoundedExecutor.AdmissionBound | crates/nagent-support/src/cpu.rs:196-227 | When every caller uses the queue gate, at most permits plus queue slots callers are past it |
| BoundedExecutor.RejectedExactly | crates/nagent-support/src/cpu.rs:197-209 | The gate refuses a queued caller if and only if the queue is closed or all slots are held; otherwise the caller holds one afterwards |
| BoundedExecutor.RefusalMeansWaiting | crates/nagent-support/src/cpu.rs:77-82 | With an open queue, a refusal coincides with a full queue of waiting callers exactly when a slot is free or no queued caller is at the hand-off; a refusal always means at least q - n waiting callers |
| BoundedExecutor.RefusedWithoutWaiters | crates/nagent-support/src/cpu.rs:196-227 | With any permits and any slots some run refuses a caller although fewer callers wait than the queue holds |
| BoundedExecutor.QueueFullMeaning | crates/nagent-support/src/cpu.rs:77-82 | "m callers were already waiting for a permit" is what QueueFull(m) means in every state of every run exactly when the label is the queue's capacity, a closed queue is excluded, and there are no permits or no slots |
| BoundedExecutor.QueueFullCountsSlots | crates/nagent-support/src/cpu.rs:77-82 | "m callers hold slots" is what QueueFull(m) means on all runs exactly when the label is the queue's capacity and a closed queue is excluded |
| BoundedExecutor.OutcomeIsFinal | crates/nagent-support/src/cpu.rs:191-232 | A finished call keeps its single outcome and its closure is not run again |
| BoundedExecutor.OutcomeMeaning | crates/nagent-support/src/cpu.rs:65-88 | Ok and Join mean the closure ran exactly once, every other error that it never ran, and each error has its documented cause |
| ExecutorOutcomes.OutcomeExactly | crates/nagent-support/src/cpu.rs:196-231 | Over every schedule a finished caller was told Ok exactly when its closure returned and Join exactly when it panicked, the future not dropped; QueueFull, QueueTimeout and Closed exactly when it was refused, timed out or saw the semaphore closed |
| ExecutorOutcomes.ConfigIsOwn | crates/nagent-support/src/cpu.rs:109-137 | Every caller runs under the configuration it arrived with |
| ExecutorOutcomes.ClosedExactly | crates/nagent-support/src/cpu.rs:66-70 | Each semaphore is closed exactly when somebody has closed it |
| ExecutorOutcomes.ClosedAdmitsNobody | crates/nagent-support/src/cpu.rs:66-70 | Once the concurrency semaphore is closed nobody else gets a permit |
| BoundedExecutor.InvStep | crates/nagent-support/src/cpu.rs:196-230 | Every step of every caller keeps permit conservation for both semaphores and the accounting of closure runs |
| BoundedExecutor.MeasureDecreases | crates/nagent-support/src/cpu.rs:211-231 | Every effective step other than an arrival lowers the measure |
| BoundedExecutor.RunsAreFinite | crates/nagent-support/src/cpu.rs:211-231 | Without new arrivals any schedule has at most six effective steps per caller and two closes |
| BoundedExecutor.CanMoveExactly | crates/nagent-support/src/cpu.rs:211-224 | Unfinished callers can move on their own unless all of them wait on an open semaphore built without permits |
| BoundedExecutor.CanComplete | crates/nagent-support/src/cpu.rs:191-232 | From every reachable state the callers can all be brought to an outcome by their own steps, given a permit |
| BoundedExecutor.StuckFreeExactly | crates/nagent-support/src/cpu.rs:212-224 | No run gets stuck if and only if the concurrency semaphore was built with a permit |
| BoundedExecutor.Semaphore.TryAcquire | crates/nagent-support/src/cpu.rs:202-206 | Succeeds exactly on an open semaphore with a free permit, and takes one |
| BoundedExecutor.Executor.PassGate | crates/nagent-support/src/cpu.rs:196-209 | The queue gate in place refines its protocol step |
| BoundedExecutor.Executor.Leave | crates/nagent-support/src/cpu.rs:213-224 | Every early return of the wait gives the queue permit back |
| BoundedExecutor.Executor.FinishClosure | crates/nagent-support/src/cpu.rs:229-231 | The closure's end, by return or panic, gives the concurrency permit back and decides the outcome |
| BoundedExecutor.Executor.Perform | crates/nagent-support/src/cpu.rs:191-232 | Every action on the shared semaphores refines its protocol step, and is a no-op when not enabled |
| BoundedExecutor.Executor.Play | crates/nagent-support/src/cpu.rs:191-232 | Any schedule on the shared semaphores ends in the state of the specified run |
| RateLimiter.TouchValid | crates/nagent-support/src/ratelimit.rs:230-255 | A touch keeps the bucket between empty and full, leaves it below full, costs exactly one token when admitted, and a zero budget always denies |
| RateLimiter.RetryHint | crates/nagent-server/src/rate_limit.rs:161-167 | After a denial, a shorter wait than the hint never suffices, a longer one always does, and the hint itself exactly when the wait is whole milliseconds |
| RateLimiter.IdleWindowIsExact | crates/nagent-server/src/rate_limit.rs:60-63 | Buckets idle for d answer like fresh ones on all inputs if and only if d is at least sixty seconds |
| RateLimiter.SweepRemovesExactly | crates/nagent-support/src/ratelimit.rs:321-336 | In every reachable state the sweep removes a bucket exactly when the budget is zero and the bucket idle |
| RateLimiter.IdleBucketSurvives | crates/nagent-support/src/ratelimit.rs:321-336 | A bucket visited once and silent for a minute, idle and full by any reckoning, survives the sweep |
| RateLimiter.KeepsAllVisitedExactly | crates/nagent-server/src/rate_limit.rs:21-27 | With a positive budget the limiter holds a bucket for exactly the addresses it held before or has counted since |
| RateLimiter.SweepInvisible | crates/nagent-server/src/rate_limit.rs:152-168 | The swept limiter gives the answers of one that never evicts, on every trace, in any order of readings |
| RateLimiter.DocumentedSweepInvisible | crates/nagent-support/src/ratelimit.rs:325-328 | Any sweep that drops only buckets idle for the refill window is invisible on every trace of ordered readings |
| RateLimiter.RateBound | crates/nagent-server/src/rate_limit.rs:142-168 | In any window of any run, whatever other addresses do, an address is admitted at most capacity plus the refill of its readings' forward motion |
| RateLimiter.RatePerWindow | crates/nagent-server/src/rate_limit.rs:73-79 | With ordered readings, at most cap + t * cap / 60 s admissions in any t |
| RateLimiter.RateBoundIsTight | crates/nagent-server/src/rate_limit.rs:159-161 | For every amount of forward motion some trace, within one nanosecond, attains the bound |
| RateLimiter.WindowBoundExactly | crates/nagent-server/src/rate_limit.rs:159-161 | After any history, the promised bound for a window of t holds of all windows with forward motion up to s if and only if s refills no more whole tokens than t |
| RateDenials.DenialExactly | crates/nagent-support/src/ratelimit.rs:230-255 | A visit is denied if and only if, counted from some visit of its address, one more admission would exceed the capacity and the refill of the forward motion since; whatever the order and whatever others do |
| RateDenials.DenialInSequence | crates/nagent-server/src/rate_limit.rs:142-168 | On ordered readings: denied if and only if, since some visit of the address, the admissions and one more exceed the capacity plus capacity per sixty seconds of the time between |
| RateLimiter.LoopbackIsFreeExactly | crates/nagent-server/src/rate_limit.rs:148-150 | A visit is let through without any change exactly when it comes from 127.0.0.0/8 or the IPv6 loopback address |
| RateLimiter.SweepsOncePerCycle | crates/nagent-support/src/ratelimit.rs:54-66 | The sweep gate opens exactly once in any 1024 consecutive calls |
| RateLimiter.Limiter.SweepIdle | crates/nagent-support/src/ratelimit.rs:329-336 | The retain loop keeps exactly the buckets touched recently or stored below capacity and returns how many went |
| RateLimiter.Limiter.ShouldSweep | crates/nagent-support/src/ratelimit.rs:56-66 | Counts the call and fires on every 1024th |
| RateLimiter.Limiter.TryConsume | crates/nagent-support/src/ratelimit.rs:307-319 | Decides and updates the one bucket, created full when missing |
| RateLimiter.Limiter.CheckIp | crates/nagent-server/src/rate_limit.rs:142-168 | A check on the shared map gives the specified answer and state, loopback bypass included |
| Tokens.PiecesExactly | crates/nagent-agents/src/tools_router.rs:283-286 | Splitting yields exactly the maximal runs of token characters |
| Tokens.TokeniseQuery | crates/nagent-agents/src/tools_router.rs:281-294 | The loop computes the specified query tokens |
| Tokens.TokeniseDoc | crates/nagent-agents/src/tools_router.rs:296-318 | The loops compute the specified document tokens, keywords last |
| Tokens.QueryTokensExactly | crates/nagent-agents/src/tools_router.rs:281-294 | The query tokens are the lowercased maximal runs of two or more characters that are not stop words |
| Tokens.TextTokensExactly | crates/nagent-agents/src/tools_router.rs:298-309 | The same for the lowercased description |
| Tokens.AskableExactly | crates/nagent-agents/src/tools_router.rs:281-317 | Some query can ask for a token if and only if it is two or more lowercase token characters and no stop word |
| Tokens.SameTokens | crates/nagent-agents/src/tools_router.rs:281-309 | On text without U+212A and U+0130, in particular ASCII, lowercasing before or after splitting gives the same tokens in the same order |
| Tokens.SafeExactly | crates/nagent-agents/src/tools_router.rs:281-309 | A character never makes the tokenisers differ, whatever ordinary text surrounds it, if and only if it is not one of these two |
| ToolsRouter.CollectDocs | crates/nagent-agents/src/tools_router.rs:103-143 | The documents are the agents other than `search_tools`, indexed and stably sorted by name |
| ToolsRouter.CountDoc | crates/nagent-agents/src/tools_router.rs:153-160 | One document raises the frequency of each of its terms by one, however often the term occurs |
| ToolsRouter.CountDocs | crates/nagent-agents/src/tools_router.rs:150-160 | The incrementally built frequency map is the naive count of documents containing each term |
| ToolsRouter.FromRegistry | crates/nagent-agents/src/tools_router.rs:103-175 | The built router is an index of the sorted documents: names, frequencies and average length |
| ToolsRouter.IndexUnique | crates/nagent-agents/src/tools_router.rs:145-174 | The documents determine the whole router |
| ToolsRouter.SameDocs | crates/nagent-agents/src/tools_router.rs:138-143 | Permuted registries without clashing names have the same sorted documents |
| ToolsRouter.SwapDiffers | crates/nagent-agents/src/tools_router.rs:138-143 | Swapping two agents of one name that are indexed differently changes the sorted documents |
| ToolsRouter.OrderIrrelevantExactly | crates/nagent-agents/src/tools_router.rs:138-143 | The sorted documents, the index alone, are independent of registration order if and only if agents sharing a name are indexed alike |
| ToolsRouter.BuildOrderIrrelevant | crates/nagent-agents/src/tools_router.rs:103-175 | When agents sharing a name are indexed alike, two builds from permuted registries give one and the same router |
| ToolsRanking.IndexedTerm | crates/nagent-agents/src/tools_router.rs:150-161 | Any term of an indexed document is in the index with a frequency between 1 and the number of documents |
| ToolsRanking.TermScoreSign | crates/nagent-agents/src/tools_router.rs:239-250 | A term contributes a non-negative amount, positive exactly when the document contains it |
| ToolsRanking.RelevantExactly | crates/nagent-agents/src/tools_router.rs:230-254 | Through the built index a score is never negative, and positive if and only if tool and query share a token |
| ToolsScores.ScoreIsBm25 | crates/nagent-agents/src/tools_router.rs:230-252 | Every score computed through the index is the textbook BM25 sum, k1 = 1.2 and b = 0.75, over sizes of sets of documents and multiplicities of tokens |
| ToolsScores.RarerComesFirst | crates/nagent-agents/src/tools_router.rs:244-250 | Of two tools of one length that match one query term each equally often, the one whose term fewer tools contain scores strictly higher and precedes the other in every answer |
| ToolsScores.DenserComesFirst | crates/nagent-agents/src/tools_router.rs:248-250 | A tool that is not longer and has every query term at least as often, one more often or in fewer words, scores strictly higher and precedes the other in every answer |
| ToolsFinding.FoundExactly | crates/nagent-agents/src/tools_router.rs:103-143 | A query finds a tool if and only if some agent of its name has, as a word of its description or as a keyword, a word the query asks for |
| ToolsFinding.SearchToolsIsHidden | crates/nagent-agents/src/tools_router.rs:99-113 | No query ever finds `search_tools` |
| ToolsRanking.ScoreDoc | crates/nagent-agents/src/tools_router.rs:235-252 | The accumulating loop computes the sum of the term scores |
| ToolsRanking.Score | crates/nagent-agents/src/tools_router.rs:222-268 | The imperative scorer returns the specified ranking, the three empty cases included |
| ToolsRanking.TakeFilterCommute | crates/nagent-agents/src/tools_router.rs:262-266 | On sorted entries taking k and then filtering is filtering and then taking k |
| ToolsRanking.PickedIsPrefix | crates/nagent-agents/src/tools_router.rs:255-267 | The answer is the first k of the positive entries in order |
| ToolsRanking.FullRanking | crates/nagent-agents/src/tools_router.rs:255-267 | For every index, equal names included, the filtered entries are exactly the documents sharing a token with the query, each once, by score descending and name ascending |
| ToolsRanking.RankingIsBest | crates/nagent-agents/src/tools_router.rs:222-268 | For every index, a list is the router's answer if and only if it names a best k of the documents sharing a token: min(k, relevant) distinct documents in order, none omitted that comes before a returned one |
| ToolsRanking.BuiltRankingIsBest | crates/nagent-agents/src/tools_router.rs:103-268 | The same for the index built from any registry, with no assumption on names |
| ToolsRanking.StrictRanking | crates/nagent-agents/src/tools_router.rs:255-267 | With distinct names the filtered entries, named, are the set of relevant tools in strict order |
| ToolsRanking.TopKUnique | crates/nagent-agents/src/tools_router.rs:219-221 | At most one strictly ordered list is the top k of a set of hits |
| ToolsRanking.RankingIsTopK | crates/nagent-agents/src/tools_router.rs:222-268 | With distinct names, a list is the router's answer if and only if it is the strictly ordered top k of the set of relevant tools |
| ToolsRanking.DistinctNamesStrict | crates/nagent-agents/src/tools_router.rs:138-143 | A registry with distinct names is indexed in strictly ascending name order |
| ToolsRanking.PreSelect | crates/nagent-agents/src/tools_router.rs:182-187 | Returns the names of the ranking in order |
| ToolsRanking.Search | crates/nagent-agents/src/tools_router.rs:193-206 | Returns the ranking with descriptions looked up by name |
| ToolsRanking.SearchDescribesLast | crates/nagent-agents/src/tools_router.rs:145-148 | Whatever the registry, a search shows the description of the agent registered last under the name |
| ToolsRanking.DescriptionIsOwnExactly | crates/nagent-agents/src/tools_router.rs:145-148 | A hit gets its own description if and only if the last document of its name is described alike |
| ToolsRanking.DescriptionIsOwn | crates/nagent-agents/src/tools_router.rs:212-217 | With distinct names the lookup gives each tool its own description |
| ToolsOrder.RankingIgnoresOrder | crates/nagent-agents/src/tools_router.rs:138-187 | Whatever the names, permuted registries give the same ranking, hence the same pre-selection, for every query and limit |
| ToolsOrder.SearchIgnoresOrderExactly | crates/nagent-agents/src/tools_router.rs:189-217 | All registration orders give the same searches if and only if agents that share a name some query finds are described alike |
| ToolsOrder.RouterIgnoresOrderExactly | crates/nagent-agents/src/tools_router.rs:103-175 | All registration orders build one and the same router if and only if agents sharing a name are indexed alike |
| ToolsOrder.PermutedStatistics | crates/nagent-agents/src/tools_router.rs:150-166 | Rearranged documents give the same frequencies, count and average length |
| ChatLog.ApplyInv | crates/nagent-db/src/chat_messages.rs:328-463 | Every call keeps ids unique, ordinals of a conversation distinct, ascending and at least 1, and versions at least 1 |
| ChatLog.ListExactly | crates/nagent-db/src/chat_messages.rs:280-296 | `list` returns exactly the rows of the conversation, strictly ascending by ordinal |
| ChatLog.AppendLandsLast | crates/nagent-db/src/chat_messages.rs:328-376 | A successful append is last in its conversation, has version 1, is what `last_ordinal` returns, and leaves every other conversation alone |
| ChatLog.LatestIsGreatest | crates/nagent-db/src/chat_messages.rs:465-485 | `last_ordinal` returns a row of greatest ordinal, or nothing exactly when the conversation is empty |
| ChatLog.TruncateKeepsPrefix | crates/nagent-db/src/chat_messages.rs:447-463 | `truncate_after(c)` keeps exactly the prefix with ordinals up to c, returns the number removed, and touches no other conversation |
| ChatLog.EditTouchesOneRow | crates/nagent-db/src/chat_messages.rs:378-424 | A successful edit changes content and version of its one row, which belongs to the calling user and session and had the expected version; a refused edit changes nothing |
| ChatLog.DeleteRemovesOneRow | crates/nagent-db/src/chat_messages.rs:426-445 | A successful delete removes its one row; NotFound changes nothing and means no such row of this user and session |
| ChatLog.ChatMessages.AppendMessage | crates/nagent-db/src/chat_messages.rs:328-376 | The in-place append refines the specification, its error cases included |
| ChatLog.ChatMessages.EditMessage | crates/nagent-db/src/chat_messages.rs:378-424 | The in-place edit refines the specification, its error cases included |
| ChatLog.ChatMessages.Perform | crates/nagent-db/src/chat_messages.rs:280-485 | Every repository call refines its specification |
| ChatRuns.RunInv | crates/nagent-db/src/chat_messages.rs:328-463 | The table invariant holds after every run of calls of any users |
| ChatRuns.Play | crates/nagent-db/src/chat_messages.rs:280-485 | A run on the mutable repository gives the specified table and outcomes |
| ChatReads.ListAnswers | crates/nagent-db/src/chat_messages.rs:280-296 | In every run `list` answers exactly the table's rows of that user and session, strictly ascending, and changes nothing |
| ChatReads.GetAnswers | crates/nagent-db/src/chat_messages.rs:298-326 | In every run `get` answers a row if and only if it is there under that user, session and id, and NotFound if and only if none is |
| ChatReads.LastOrdinalAnswers | crates/nagent-db/src/chat_messages.rs:465-485 | In every run `last_ordinal` answers id, ordinal and role of the row of greatest ordinal, or nothing if and only if the conversation is empty |
| ChatReads.AppendAnswers | crates/nagent-db/src/chat_messages.rs:328-376 | `append` refuses an unknown role and a taken id, and otherwise stores and answers the row as sent, with the next ordinal and version 1 |
| ChatReads.EditAnswers | crates/nagent-db/src/chat_messages.rs:378-424 | `edit` answers NotFound, or VersionMismatch with the version found, or the row with the new content and the expected version plus one, and stores that |
| ChatReads.WrittenIsRead | crates/nagent-db/src/chat_messages.rs:280-424 | Until the row is edited, deleted or cut off, `get` answers the row a successful append or edit answered, and `list` has it |
| ChatRuns.VersionIsOnePlusEdits | crates/nagent-db/src/chat_messages.rs:410-413 | In every run a row's version is one more than its successful edits since it was created |
| ChatRuns.VersionAcceptedOnce | crates/nagent-db/src/chat_messages.rs:181-185 | Over a run no two edits of a row are accepted on one expected version, unless the id was created anew in between |
| ChatRuns.ForeignCallInvisible | crates/nagent-db/src/chat_messages.rs:280-463 | A call of another user leaves a user's rows as they are |
| ChatRuns.ForeignInfluenceExactly | crates/nagent-db/src/chat_messages.rs:280-485 | Other users' rows influence a call's outcome if and only if it inserts an id one of them uses |
| ChatRuns.ViewIsOwnRun | crates/nagent-db/src/chat_messages.rs:280-485 | A user's part of the table after an interleaved run is the table after that user's calls alone |
| ChatRuns.NonInterference | crates/nagent-db/src/chat_messages.rs:280-485 | Every outcome a user sees in an interleaved run is the one seen when only that user's calls are run |
| ChatRuns.FreshIdsSuffice | crates/nagent-db/src/migrations/0012_chat_messages.up.sql:13-35 | Server-minted ids that never repeat satisfy the hypothesis of non-interference |
| ChatRuns.SplitEditExactly | crates/nagent-db/src/chat_messages.rs:390-423 | With other calls between its three statements an edit acts and answers atomically exactly when the row is gone at update and re-read, or has the expected version at the update and is as updated at the re-read |
| ChatRuns.RereadVersionExactly | crates/nagent-db/src/chat_messages.rs:181-185 | An edit whose check, update and re-read have other calls in between reports the expected version plus one if and only if no other edit of the row was accepted from the check to the re-read |
| ChatRuns.RacingEditsBothAccepted | crates/nagent-db/src/chat_messages.rs:403-419 | Two edits that both check before either updates are both accepted and the first content is lost |
| ChatRuns.SplitAppendExactly | crates/nagent-db/src/chat_messages.rs:334-364 | With other calls between its statements an append still acts atomically exactly when the next ordinal is unchanged or the id is taken |
| ChatRuns.SplitAppendKeepsInvExactly | crates/nagent-db/src/chat_messages.rs:334-340 | With other calls in between, an append keeps distinct ordinals in insertion order if and only if it is refused or no row has reached the ordinal it read, and repeats none if and only if no row has taken that one |
| ChatRuns.RacingAppendsCollide | crates/nagent-db/src/migrations/0012_chat_messages.up.sql:46-47 | Two appends that both read before either inserts leave two rows with one ordinal |
| ChatStatements.StatementIsLocal | crates/nagent-db/src/chat_messages.rs:328-463 | No statement of a call changes a row of another conversation |
| ChatStatements.Serialisable | crates/nagent-db/src/chat_messages.rs:328-424 | Any schedule of single statements in which calls of one conversation do not overlap has the table and the outcomes of the atomic calls in the order of their effects |
| ChatStatements.RespectsRealTime | crates/nagent-db/src/chat_messages.rs:328-424 | In that order a call that finished before another started comes first |
| ChatStatements.OverlapBreaks | crates/nagent-db/src/chat_messages.rs:334-364 | A schedule of two overlapping appends to one conversation ends in a table no sequence of atomic calls produces |
| LikePattern.PercentMatchesAnySubstring | crates/nagent-db/src/memories.rs:290-296 | `%` matches any substring (section 8.5 of ISO/IEC 9075:1992) |
| LikePattern.EscapeInto | crates/nagent-db/src/memories.rs:407-423 | The pushing loop computes the escaped filter |
| LikePattern.EscapedMatchesExactly | crates/nagent-db/src/memories.rs:407-423 | LIKE with escape `\` matches a text against an escaped filter if and only if they are equal under the engine's character equality |
| LikePattern.EscapedWellFormed | crates/nagent-db/src/memories.rs:407-423 | Every escaped filter is a pattern the standard accepts |
| LikePattern.DocumentedFilterExactly | crates/nagent-db/src/memories.rs:76-79 | The code reads a filter as the documented pattern, on all texts, if and only if no character of it is `%`, `_` or the escape |
| LikePattern.PercentSelectsItself | crates/nagent-db/src/memories.rs:76-79 | The pattern `%` matches every text, the filter `%` only the texts equal to it |
| MemoryStore.LookupExactly | crates/nagent-db/src/memories.rs:196-206 | The lookup finds the triple's row exactly when there is one |
| MemoryStore.UpsertInv | crates/nagent-db/src/memories.rs:189-259 | An upsert keeps ids unique and triples stored at most once |
| MemoryStore.UpsertReplacesOrInserts | crates/nagent-db/src/memories.rs:208-258 | The triple's row keeps its id and takes the new payload with `last_used_at` cleared, or one new row is added; all other rows stay |
| MemoryStore.ConfidenceKeptExactly | crates/nagent-db/src/memories.rs:64-68 | A store keeps the confidence of the row it finds if and only if it brings the same value |
| MemoryStore.MatchingIsEquality | crates/nagent-db/src/memories.rs:270-296 | A recall filter selects by equality; a missing one selects everything of the user |
| MemoryStore.OutranksIsOrder | crates/nagent-db/src/memories.rs:295-295 | Confidence, then `last_used_at` with NULL last, then creation time, is an order up to ties |
| MemoryStore.RecallUniqueUpToTies | crates/nagent-db/src/memories.rs:283-297 | Any two results the ranked and capped query may give agree position by position up to ties |
| MemoryStore.RecallTouchesReturned | crates/nagent-db/src/memories.rs:335-353 | Recall sets `last_used_at` of exactly the returned rows and changes nothing else |
| MemoryStore.SplitRecallExactly | crates/nagent-db/src/memories.rs:82-85 | On a table that moved on, the bump reaches exactly the returned rows if and only if every row it reaches is as returned or carries the new time already |
| MemoryStore.StoreDuringRecallIsBumped | crates/nagent-db/src/memories.rs:335-353 | A store of a returned triple between the two statements is bumped although its payload was never returned |
| MemoryStore.SplitUpsertExactly | crates/nagent-db/src/memories.rs:191-258 | With other calls between lookup and write an upsert still acts atomically exactly when the lookup would find the same |
| MemoryStore.SplitUpsertKeepsInvExactly | crates/nagent-db/src/memories.rs:191-258 | With other calls in between, an upsert keeps one row per triple if and only if its lookup found a row, there is still none, or the insert is refused |
| MemoryStore.RacingUpsertsDuplicate | crates/nagent-db/src/migrations/0010_memories.up.sql:59-84 | Two first stores of a triple that both look before either inserts leave two rows for it |
| MemoryStore.Memories.Store | crates/nagent-db/src/memories.rs:189-259 | The in-place upsert refines the specification |
| MemoryStore.Memories.Recall | crates/nagent-db/src/memories.rs:86-99 | Returns min(limit, 64, matching) distinct matching rows in rank order, none outranked by an omitted match, and touches exactly those |
| MemoryStore.Memories.SelectBest | crates/nagent-db/src/memories.rs:295-296 | ORDER BY and LIMIT as repeated choice of a best remaining row |
| MemoryStore.Memories.ForgetRow | crates/nagent-db/src/memories.rs:397-404 | The in-place forget refines the specification and returns the affected-row count |
| MemoryRuns.Play | crates/nagent-db/src/memories.rs:189-404 | A run on the mutable store is one the step relation allows |
| MemoryRuns.RunInv | crates/nagent-db/src/memories.rs:57-63 | At every moment of every run no user has two rows for one (subject, predicate) |
| MemoryRuns.ForeignStepInvisible | crates/nagent-db/src/memories.rs:189-404 | Another user's operation leaves a user's rows as they are, although the update names no user |
| MemoryRuns.OwnStepLocal | crates/nagent-db/src/memories.rs:189-404 | A user's operation has on that user's rows alone the same outcome and effect |
| MemoryRuns.Isolation | crates/nagent-db/src/memories.rs:126-170 | In every run in which a user inserts no id of another user's row, that user's operations and outcomes are a run of that user alone on that user's rows |
| MemoryRuns.FreshIdsIsolate | crates/nagent-db/src/memories.rs:195-195 | The same for every run and every user when minted ids never repeat |
| MemoryRuns.StoreKeepsId | crates/nagent-db/src/memories.rs:191-194 | Stores of one triple return one id until that row is forgotten |
| MemoryRuns.LastWriteWins | crates/nagent-db/src/memories.rs:208-258 | Until stored again or forgotten, a triple holds exactly what was last stored, under the returned id, through any recalls and other users' operations |
| MemoryReads.RecallAnswers | crates/nagent-db/src/memories.rs:86-99 | In every run a recall answers distinct selected rows, at most 64 and at most as many as asked for, in documented order; a selected row is missing only from a full answer, and is ahead of nothing in it |
| MemoryReads.StoredIsRecalled | crates/nagent-db/src/memories.rs:189-355 | Asked for a stored subject and predicate, a recall answers exactly the row last stored there, with its id and payload, until it is forgotten or overwritten |
| MemoryRuns.SplitRecallInRun | crates/nagent-db/src/memories.rs:82-85 | In a run, a recall whose bump comes later bumps exactly what it returned, unless the same user stored a returned triple, reused an id or recalled one of the rows in between |
| MemoryRuns.SplitRecallOneOpExactly | crates/nagent-db/src/memories.rs:82-85 | With one operation between its two statements a recall bumps exactly what it returned, unless that operation is a store of the same user that changes a returned row or a recall that gives one another time |
| MemoryRuns.ForgetExactly | crates/nagent-db/src/memories.rs:113-123 | Forgetting removes the row exactly when the caller owns it and returns 1 then and 0 otherwise |
| MemoryStatements.Serialisable | crates/nagent-db/src/memories.rs:189-355 | Any schedule of single statements of stores, recalls and forgets in which calls of one user do not overlap has the table and the outcomes of a run of atomic calls |
| MemoryStatements.ScheduleInv | crates/nagent-db/src/memories.rs:57-63 | After every such schedule no user has two rows for one (subject, predicate) |
| MemoryStatements.RespectsRealTime | crates/nagent-db/src/memories.rs:189-355 | In the serial order a call that finished before another started comes first |
| MemoryStatements.OverlapBreaks | crates/nagent-db/src/memories.rs:191-258 | Two overlapping first stores of one triple end in a table no run of atomic calls produces |
| Egress.Budget | crates/nagent-agents/src/egress.rs:311-314 | The budget is the lower of the caller's and the configured limit whenever that is at least 1024, and otherwise 1024 |
| Egress.ReadBody | crates/nagent-agents/src/egress.rs:334-343 | The chunk loop's result depends only on the bytes before the first transport error and on that error |
| Egress.ChunkingIrrelevant | crates/nagent-agents/src/egress.rs:391-399 | Two chunkings of one body read alike, and reading succeeds with exactly the body if and only if it fits the budget |
| Egress.FailureIsReported | crates/nagent-agents/src/egress.rs:336-343 | A stream that breaks reports its error unless the bytes before it exceed the budget, and what follows the error never matters |
| Egress.TruncateBody | crates/nagent-agents/src/egress.rs:610-621 | Short bodies are returned as they are; long ones end at the last character boundary at or below the cap, followed by the marker |
| Egress.EncodeRoundTrip | crates/nagent-agents/src/egress.rs:610-621 | The UTF-8 encoding used here loses nothing and is shortest (section 3 of RFC 3629) |
| Egress.MarkerReads | crates/nagent-agents/src/egress.rs:618-620 | The marker is a line break, the ellipsis and `[truncated]` |
| Egress.BoundaryExactly | crates/nagent-agents/src/egress.rs:615-617 | The boundaries of valid UTF-8 are exactly the offsets of its characters and its end (section 3 of RFC 3629) |
| Egress.LongestPrefix | crates/nagent-agents/src/egress.rs:608-618 | Truncation keeps the longest whole-character prefix within the cap, after at most three steps back |
| Egress.TruncationKeepsCharacters | crates/nagent-agents/src/egress.rs:608-618 | For every text of Unicode scalar values, what is kept is the encoding of the longest prefix of characters that fits |
| HostAllowlist.HostMatchesAllowlist | crates/nagent-agents/src/egress.rs:590-606 | A host is allowed if and only if some entry matches it, so a longer list never allows less |
| HostAllowlist.MatchesLabelSuffix | crates/nagent-agents/src/egress.rs:597-600 | Being the suffix or ending in a dot and the suffix is the suffix's labels ending the host's labels |
| HostAllowlist.GlobMatchesSubdomains | crates/nagent-agents/src/egress.rs:586-600 | A `*.suffix` entry matches exactly the hosts whose labels end with the suffix's labels, ignoring ASCII case |
| HostAllowlist.PlainEntryMatchesExactly | crates/nagent-agents/src/egress.rs:594-603 | The bare `*` matches every host; an entry without a wildcard matches exactly the hosts equal to it up to ASCII case |
| HostAllowlist.CaseIgnored | crates/nagent-agents/src/egress.rs:591-593 | Hosts and entries that differ in ASCII case only match alike |
| VersionSlot.RewriteExactly | crates/nagent-server/build.rs:198-219 | Rewriting is defined exactly on texts with a slot and replaces its value alone |
| VersionSlot.LensLaws | crates/nagent-server/build.rs:184-197 | For quote-free hashes reading gives what was written, the last rewrite wins and stays defined, and writing back what is there changes nothing |
| VersionSlot.ReadBackExactly | crates/nagent-server/build.rs:198-219 | What was written is read back if and only if the hash has no quote |
| VersionSlot.BuildWrites | crates/nagent-server/build.rs:106-127 | A build writes the hash of the tree as found to OUT_DIR, with a static directory also to version.txt and into the bundle's slot, and nothing else |
| VersionSlot.BuildAgrees | crates/nagent-server/build.rs:106-127 | After a build the bundle, version.txt and the OUT_DIR file agree whenever the constant is present, and it is still present |
| VersionSlot.BuildsAgree | crates/nagent-server/build.rs:106-127 | The same after any number of builds with arbitrary edits in between |
| VersionSlot.OnlyTheSlotChanges | crates/nagent-server/build.rs:198-230 | However often an unedited tree is built, the text around the slot stays and the slot holds the last hash |
| VersionSlot.RebuildIsStableExactly | crates/nagent-server/build.rs:119-126 | A second build without edits changes nothing if and only if the digest of the rewritten bundle is the hash inside it |
| VersionSlot.BuildScript.SubstituteAppJs | crates/nagent-server/build.rs:221-230 | Rewrites the bundle where it exists and has a slot, and otherwise leaves it alone |
| VersionSlot.BuildScript.Run | crates/nagent-server/build.rs:106-127 | The order of hash and writes gives the specified tree |
| AgentRegistry.OnlyOwnPushes | crates/nagent-agents/src/agents.rs:1091-1103 | While a handle is kept, its list grows by exactly what is pushed through it, whatever other handles do |
| AgentRegistry.ClonesDiverge | crates/nagent-agents/src/agents.rs:999-1002 | After a clone, source and clone each show the list at that time followed by their own pushes |
| AgentRegistry.ListsHaveOrigins | crates/nagent-agents/src/agents.rs:1000-1103 | Every program shows through every handle exactly the list it spells out for it, read backwards from the push or clone that wrote it last, and a handle is there exactly from its making to its drop |
| AgentRegistry.GetIsFirst | crates/nagent-agents/src/agents.rs:1160-1166 | A lookup fails exactly for unknown names and otherwise gives the agent registered first under the name |
| AgentRegistry.NamesAreSticky | crates/nagent-agents/src/agents.rs:1160-1166 | A name keeps its agent through any further operations; later registrations only add unknown names |
| AgentRegistry.Registries.PushAgent | crates/nagent-agents/src/agents.rs:1091-1103 | A push shows through this handle only, and reuses the vector if and only if the handle was its only owner |
| AgentRegistry.Registries.CloneInto | crates/nagent-agents/src/agents.rs:999-1002 | A clone shares the vector, counts the owner, and releases what the target owned |
| AgentRegistry.Registries.DropHandle | crates/nagent-agents/src/agents.rs:999-1002 | Dropping a handle releases one owner and changes no other handle's list |
| AgentRegistry.Registries.Play | crates/nagent-agents/src/agents.rs:1000-1103 | Any program of clones, pushes and drops on shared vectors shows what it shows on independent copies |
| AgentRegistry.Registries.Lookup | crates/nagent-agents/src/agents.rs:1160-1166 | The linear search through a handle is the specified lookup |
| AgentRegistry.Registries.FromConfig | crates/nagent-agents/src/agents.rs:1060-1083 | With the switch off nothing is registered; otherwise every descriptor that builds is, in table order |
| AgentRegistry.BuiltExactly | crates/nagent-agents/src/agents.rs:1065-1081 | Exactly the descriptors that build are registered, in table order |

## Left out

- Executor: a closure that drops or forgets the permit it is handed before it ends. The model keeps the permit until the closure finishes or panics, as every closure that merely takes the permit does.
- Executor: cancellation of blocking tasks that have not started when the runtime shuts down, and which waiter a freed permit goes to; the model allows any waiter, which includes the first-in-first-out order.
- Executor: the length of the timeout. A timed caller may time out at any moment while it waits.
- Floating point: BM25 scores are exact reals and `ln` is any strictly increasing function with `ln 1 = 0`; token buckets are exact integers in which one token is 60,000,000,000 units and a nanosecond refills the capacity. Rounding, and NaN handling in the score comparison, are not modelled.
- Integer widths: the 32-bit document counts and row versions, 64-bit ordinals and `usize` lengths are unbounded here; only the saturation of the retry hint and the 32-bit range of the rate budget are explicit.
- Rate limiter: `resolve_client_ip`, trusted proxies, `check_opt`, IPv4-mapped IPv6 addresses, and the sharding of the concurrent map; one call's sweep and one call's bucket access are atomic steps.
- Unicode lowercasing beyond what the tokenisers can tell apart: outside ASCII only U+212A and U+0130 lowercase to characters that are not separators, and only those are treated.
- Router: `wire_router`, the JSON schema and the `search_tools` payload.
- Database: SQL parsing, row decoding, timestamp parsing, foreign keys with cascading deletes and connection errors. A table is a sequence of rows. Each repository call is one atomic step except in `ChatStatements`, `MemoryStatements` and the lemmas about split statements.
- PostgreSQL variants: `append` computes the ordinal inside its insert, and `upsert` looks up and updates in one statement, so of the splits treated here those of `edit`, of `recall` and of the first store of a triple (the case `Lookup(read, user, req) == None` of `SplitUpsertKeepsInvExactly`) apply to them; concurrency inside one statement is not modelled.
- Memory store: `list_meta` (a plain listing), encryption of values and notes (opaque columns) and expiry (the source never reads it in a recall).
- Identifier generation: message and memory ids are parameters. Freshness is a hypothesis only where it is named (`ChatRuns.FreshIdsSuffice`, `MemoryRuns.FreshIdsIsolate`).
- Egress: URL validation, DNS, TLS, redirects and connection pools are the behaviour of libraries. The IP range classifier is a fixed table of address ranges without state or interaction, and is not modelled.
- Build script: the hash function and the directory walk are one opaque digest of the tree without `version.txt`; file system errors and Cargo directives are not modelled.
- Registry: weak references (the source makes none), `Debug` output, `list` and `tools_schema`, and the concrete agents of the descriptor table.
- Configuration merging, credentials, passkeys, sessions, documents, preferences, services and the HTTP routes: not modelled; none of the guarantees above depends on them.
