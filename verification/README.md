# Verified models of the agent templates

The repository is a catalogue of small, self-contained Python templates for agent systems. This
project models the thirteen that hold real state machines, protocols or algorithms, and proves what
each of them promises over every input, every interleaving or every run.

| files | template | what is proved |
|---|---|---|
| `Cache.dfy`, `CacheInclusion.dfy`, `CacheHistory.dfy`, `CacheEffects.dfy` | embedding-cache-eviction | a bigger cache never loses a hit; the LRU guarantee against the history; conservation of entries; every loss of a key has its cause |
| `Coalescer.dfy`, `CoalescerSchedule.dfy` | embedding-batch-coalescer | safety of every interleaving of submitters, closers and the worker; refinement of one-at-a-time embedding; shutdown terminates; when a batch is due and why it was flushed, read off the schedule |
| `Handoff.dfy` | cross-tick-state-handoff | no lost update, one schema version and committed, monotone snapshots for any number of processes, with crashes at any step |
| `EditDistance.dfy` | agent-tool-call-argument-key-typo-detector, agent-tool-call-argument-key-stability-checker | the two-row loop is the least edit-script length and a metric; the linear scan is "distance one" |
| `Coverage.dfy`, `CoverageExact.dfy`, `CoverageReport.dfy`, `CoverageVerdicts.dfy` | json-schema-required-field-coverage-reporter | compiling a schema to path strings preserves its meaning, with the exact condition; what each verdict and each counter of a report says about the documents |
| `TraceFindings.dfy`, `TraceSpans.dfy` | agent-trace-span-orphan-detector | a report is ok if and only if every trace is one rooted tree; reports do not depend on input order |
| `Ledger.dfy` | cost-budget-soft-fence | the invariant of every reachable ledger; when exactly a later refund undoes a charge; repeated warnings need a refund between them |
| `Checkpoint.dfy` | agent-checkpoint-resume | the resume plan is exact for every cut of every run |
| `Redaction.dfy`, `RedactionOverlap.dfy`, `RedactionDecision.dfy` | content-safety-post-filter | the right-to-left splice renders gaps and tokens exactly when the hits are compatible, and can be undone; the decision follows from the policy and its matches |
| `OldestFirst.dfy`, `Pruner.dfy`, `PrunerBands.dfy`, `Summarizer.dfy` | agent-conversation-turn-pruner, conversation-summarizer-window | conservation, order, which turns the bands keep, and shortest oldest-first removal |
| `IterationCap.dfy` | agent-loop-iteration-cap | the outcome is a function of the run, stuck at the first equal window, cooldowns that double up to the cap |

`Common.dfy` holds the types and functions that modules share. Numbers that the source keeps as floats are exact
reals. Clocks, token counters, hashes, callbacks, regular-expression matches and the upstream
embedding call are parameters that range over all possible behaviours.

Concurrent code is a state machine of atomic steps, and a schedule is any sequence of enabled steps.
Three environment guarantees are built into the handoff steps: the lock is exclusive and freed on
process death, replacing the path is atomic (as `rename()` is in POSIX.1-2017), and a file opened
before a replacement keeps its contents.

## Where code and prose differ

The model follows the code. Each difference is named with the member that shows it.

- `put` on a key that is already cached does not sweep expired entries, and a hit refreshes recency
  but not the timestamp (`EmbeddingCache.Step`). The inclusion and history theorems hold nevertheless.
- A required name that is empty, contains `/` or ends in `[]` is read back as a different path.
  `CoverageExact.CompilationIsExact` gives the exact condition under which checking is faithful.
- A required field declared `"null"` can never count as present (`CoverageExact.NullNeverPasses`).
- A name listed twice in `required` counts every document twice (`CoverageReport.RepeatedNameCountsTwice`,
  with the exact condition in `CoverageReport.CountsAddUpUnlessRepeated`).
- Beginning an ended checkpoint step again pairs the new begin with the old end, so a step that is
  being redone when the host dies counts as committed (`CheckpointResume.RebegunStaysCommitted`,
  with the exact condition in `CheckpointResume.PairingIsFaithful`).
- Redacted spans that overlap cut into each other's tokens (`PostFilter.OverlapCutsToken`). So does an
  empty match when a match found later starts at the same place, although the two share no
  character: its token is cut and the matched text leaks (`RedactionOverlap.EmptyMatchLeaks`). The
  exact condition is `RedactionOverlap.RedactionIsExact`.
- Rules with action allow do produce hits and trip their category (`PostFilter.AllowRulesTrip`).
- When the elision marker is inserted, it stands directly before the tail only if no tail turn is
  pinned (`TurnPruner.MarkerBeforeTail`); the ceilings that follow may drop turns on either side.
- The summarizer's reserve check inside the peel loop never changes the result
  (`SummarizerWindow.Peel`). A compression that was triggered still declines when nothing may be
  dropped (`SummarizerWindow.PinnedOnlyDeclines`), or when rounding has made trigger and target
  coincide (`SummarizerWindow.RoundedTriggerDeclines`), and in no other case
  (`SummarizerWindow.TriggerActs`).
- The same ledger rung can be warned about twice (`CostLedger.SameRungWarnsTwice`), but only with a
  refund below it in between (`CostLedger.RewarnNeedsRefund`).
- A refund does not undo a charge that has crowded out another one in the meantime
  (`CostLedger.CrowdedOutStaysOut`, with the exact condition in `CostLedger.RefundUndoesCharge`).

## Model

| member | source | states |
|---|---|---|
| `EmbeddingCache.Configure` | templates/embedding-cache-eviction/cache.py:46-49 | construction succeeds exactly for a positive size and an absent or positive TTL |
| `EmbeddingCache.Store.SweepExpired` | templates/embedding-cache-eviction/cache.py:62-72 | the one-by-one deletion leaves exactly the live entries in order and counts what it removed |
| `EmbeddingCache.Store.Get` | templates/embedding-cache-eviction/cache.py:74-89 | answer and new state (miss, expiry on access, hit with refreshed recency) as the pure step, whose effects the `EmbeddingCacheEffects` rows state in timestamps and positions |
| `EmbeddingCache.Store.Put` | templates/embedding-cache-eviction/cache.py:91-102 | overwrite without sweep, or sweep, append and evict down to the cap, against the pure step |
| `EmbeddingCache.StepBounded` | templates/embedding-cache-eviction/cache.py:74-102 | every operation keeps keys distinct and the size within the cap |
| `EmbeddingCache.StepCounters` | templates/embedding-cache-eviction/cache.py:62-102 | one operation moves the four counters in step with the entries; an eviction happens exactly when an insertion finds the cache full of live entries |
| `EmbeddingCache.Conservation` | templates/embedding-cache-eviction/cache.py:62-102 | over any history: insertions = size + evictions + expirations, gets = hits + misses, hits = answered gets |
| `EmbeddingCacheInclusion.IncludedLater` | templates/embedding-cache-eviction/cache.py:59-60 | passing time alone cannot break the relation between a small and a large cache |
| `EmbeddingCacheInclusion.IncludedGet` | templates/embedding-cache-eviction/cache.py:74-89 | the same get on both caches keeps the inclusion relation |
| `EmbeddingCacheInclusion.IncludedPut` | templates/embedding-cache-eviction/cache.py:91-102 | the same put on both caches keeps the inclusion relation |
| `EmbeddingCacheInclusion.Inclusion` | templates/embedding-cache-eviction/cache.py:59-102 | for any history with a non-decreasing clock, the small cache's entries are an order-preserving subsequence of the large one's |
| `EmbeddingCacheInclusion.BiggerCacheKeepsHits` | templates/embedding-cache-eviction/cache.py:74-89 | whatever the small cache answers, the large one answers with the same vector |
| `EmbeddingCacheHistory.HistoryInvariant` | templates/embedding-cache-eviction/cache.py:59-102 | every cached entry is its key's latest put, entries are in order of last touch, and every lost unexpired key has at least `max` other keys touched since |
| `EmbeddingCacheHistory.LruGuarantee` | templates/embedding-cache-eviction/cache.py:74-102 | a hit returns the latest put, at most `ttl` old; a miss on a key put at most `ttl` ago means at least `max` distinct other keys were touched since; without TTL this is an if-and-only-if |
| `EmbeddingCacheEffects.AbsentGetMisses` | templates/embedding-cache-eviction/cache.py:74-79 | a get of a key that is not held counts a miss and does nothing else |
| `EmbeddingCacheEffects.ExpiredGetDeletes` | templates/embedding-cache-eviction/cache.py:81-85 | a get of an entry more than `ttl` old removes that entry and no other, and counts one expiration and one miss |
| `EmbeddingCacheEffects.YoungGetMoves` | templates/embedding-cache-eviction/cache.py:86-89 | a get of any other held entry answers with its vector and moves it, timestamp unchanged, to the most recent end |
| `EmbeddingCacheEffects.OverwriteMoves` | templates/embedding-cache-eviction/cache.py:91-95 | a put of a held key stores vector and time at the most recent end and neither sweeps nor counts |
| `EmbeddingCacheEffects.InsertSweepsThenEvicts` | templates/embedding-cache-eviction/cache.py:62-102 | a put of a new key loses every entry more than `ttl` old, and a younger one only if `max` of those are held: then exactly the least recently used; each loss is counted as what it is |
| `EmbeddingCacheEffects.StepLosses` | templates/embedding-cache-eviction/cache.py:59-102 | no single operation on a bounded cache loses a key without such a cause |
| `EmbeddingCacheEffects.LossesHaveCauses` | templates/embedding-cache-eviction/cache.py:59-102 | over every history: a key goes only because its entry is more than `ttl` old, or by eviction from a full cache as the least recently used young one |
| `BatchCoalescer.UniqueCoversOnce` | templates/embedding-batch-coalescer/coalescer.py:147-158 | the upstream list has no duplicates and exactly the texts of the batch |
| `BatchCoalescer.Dedup` | templates/embedding-batch-coalescer/coalescer.py:147-158 | the dedup loop computes that list and, for each item, the slot that holds its text |
| `BatchCoalescer.StepKeepsInv` | templates/embedding-batch-coalescer/coalescer.py:89-178 | every atomic step keeps order, batch bounds, future freshness, the resolution log, flush reasons and all statistics |
| `BatchCoalescer.Safety` | templates/embedding-batch-coalescer/coalescer.py:89-178 | every interleaving keeps it: finished batches, batch in flight and pending items are the submission order |
| `BatchCoalescer.ResolvedInOrderOnce` | templates/embedding-batch-coalescer/coalescer.py:160-178 | accepted futures are resolved in submission order, each at most once, and keep their first value |
| `BatchCoalescer.ExitLeavesNothingPending` | templates/embedding-batch-coalescer/coalescer.py:110-115 | once the worker has returned, every future ever handed out is resolved |
| `BatchCoalescer.FailureStaysInBatch` | templates/embedding-batch-coalescer/coalescer.py:160-178 | in every run, the futures of a finished batch are all failed with the one exception of that batch, or all served, as the reply to that batch says |
| `BatchCoalescer.FailureStaysInBatchAtHand` | templates/embedding-batch-coalescer/coalescer.py:160-178 | the same for the futures resolved so far in a batch the worker is in the middle of |
| `BatchCoalescer.FailureHasOwnCause` | templates/embedding-batch-coalescer/coalescer.py:89-178 | and no other: in every run a future that holds an exception was refused because of close, or the reply to its own batch failed with exactly that exception |
| `BatchCoalescer.CoalescingRefinesSingle` | templates/embedding-batch-coalescer/coalescer.py:136-178 | if the batch function acts pointwise as `f`, every resolved future holds `f` of its own text |
| `BatchCoalescer.ClosedStep` | templates/embedding-batch-coalescer/coalescer.py:100-134 | after close every worker step strictly decreases the work left and no submit or close increases it |
| `BatchCoalescer.ClosedWorkerCanMove` | templates/embedding-batch-coalescer/coalescer.py:108-134 | after close the worker has an enabled step until it has returned |
| `BatchCoalescer.ShutdownTerminates` | templates/embedding-batch-coalescer/coalescer.py:100-134 | after close the worker takes at most a fixed number of further steps, however others interleave |
| `BatchCoalescer.Coalescer.Submit` | templates/embedding-batch-coalescer/coalescer.py:89-98 | appends under a fresh future, or fails it at once when closed |
| `BatchCoalescer.Coalescer.Close` | templates/embedding-batch-coalescer/coalescer.py:100-103 | sets the closed flag and nothing else |
| `BatchCoalescer.Coalescer.TakeBatch` | templates/embedding-batch-coalescer/coalescer.py:116-133 | cuts the longest prefix of the pending items that fits `max_batch_size`, never an empty one; close exactly when closed, size exactly when open and full, time only when its first item has waited `max_wait_s` |
| `BatchCoalescer.Coalescer.CountAndCall` | templates/embedding-batch-coalescer/coalescer.py:136-168 | counters, dedup, upstream call and length check as two protocol steps, with any submits and closes of other threads during the call |
| `BatchCoalescer.Coalescer.ResolveBatch` | templates/embedding-batch-coalescer/coalescer.py:169-178 | the fan-out loop performs one resolve step per item, with any submits and closes between them |
| `BatchCoalescer.Coalescer.FlushBatch` | templates/embedding-batch-coalescer/coalescer.py:136-178 | a whole flush, interleaved with any calls of other threads, ends in the state that schedule of protocol steps leads to |
| `CoalescerSchedule.AcceptedAreSubmissions` | templates/embedding-batch-coalescer/coalescer.py:89-103 | in every run the accepted items are the submissions before the first close, in order, with their own texts and clock readings; each later one is failed at once |
| `CoalescerSchedule.TakeWhenDue` | templates/embedding-batch-coalescer/coalescer.py:108-130 | in every run a waiting worker may take a batch exactly when a submission is left and close was called, or `max_batch_size` are left, or `max_wait_s` has passed since the oldest of them was submitted |
| `CoalescerSchedule.FlushesForTheRightReason` | templates/embedding-batch-coalescer/coalescer.py:116-134 | in every run each batch is the next run of submissions, as long as allowed; its reason is close exactly when close was called before, size exactly when it was not and enough were left, time only after its first submission had waited `max_wait_s` |
| `CoalescerSchedule.UniqueInOrder` | templates/embedding-batch-coalescer/coalescer.py:147-158 | the upstream list is in order of first occurrence |
| `CoalescerSchedule.FinishedFutureHolds` | templates/embedding-batch-coalescer/coalescer.py:160-178 | in every run a future of a finished batch holds the exception raised, the complaint with the numbers of vectors and distinct texts, or the vector at the place of its own text |
| `StateHandoff.LocalActions` | templates/cross-tick-state-handoff/handoff.py:85-125 | begin, acquire, time-out, open, load, body, failure, release, crash and reader open keep the invariant |
| `StateHandoff.CreateTempAction` | templates/cross-tick-state-handoff/handoff.py:136-139 | creating a private temporary file keeps the invariant |
| `StateHandoff.WriteTempAction` | templates/cross-tick-state-handoff/handoff.py:140-144 | writing it keeps the invariant |
| `StateHandoff.ReplaceAction` | templates/cross-tick-state-handoff/handoff.py:145 | the atomic replace extends the commit chain by exactly one body application |
| `StateHandoff.CheckPathAction` | templates/cross-tick-state-handoff/handoff.py:73-74 | the existence check of a lock-free read keeps the invariant |
| `StateHandoff.FinishReadAction` | templates/cross-tick-state-handoff/handoff.py:75-77 | finishing a lock-free read logs a committed state, no older than the reader's earlier ones |
| `StateHandoff.Safety` | templates/cross-tick-state-handoff/handoff.py:67-164 | mutual exclusion, immutable committed files, chained commits and faithful reads in every run |
| `StateHandoff.NoLostUpdate` | templates/cross-tick-state-handoff/handoff.py:85-101 | each committed state is one body applied to the state of the commit before it |
| `StateHandoff.OneSchemaVersion` | templates/cross-tick-state-handoff/handoff.py:151-164 | all commits carry one schema version, that of the original file if there was one |
| `StateHandoff.ForeignFileSurvives` | templates/cross-tick-state-handoff/handoff.py:151-164 | text that does not parse, a value that is no object, another schema version or an envelope without a state object is never overwritten |
| `StateHandoff.UndisturbedTransaction` | templates/cross-tick-state-handoff/handoff.py:85-164 | a transaction nobody disturbs commits its body applied to the state in the file, or to the empty state without a file, and a body that raises leaves everything as it was |
| `StateHandoff.PathHoldsLatestCommit` | templates/cross-tick-state-handoff/handoff.py:127-149 | the path always holds a complete envelope with the latest committed state |
| `StateHandoff.SnapshotsAreCommitted` | templates/cross-tick-state-handoff/handoff.py:67-77 | each lock-free snapshot returns one commit's state (or what the original file deserves) and never goes backwards for one reader |
| `EditDistance.CellTriangle` | templates/agent-tool-call-argument-key-typo-detector/detect.py:53-60 | the table recurrence satisfies the triangle inequality on all prefixes of three strings |
| `EditDistance.ScriptAtLeastLev` | templates/agent-tool-call-argument-key-typo-detector/detect.py:46-60 | no edit script is shorter than the table's value |
| `EditDistance.LevScript` | templates/agent-tool-call-argument-key-typo-detector/detect.py:46-60 | some edit script has exactly that length |
| `EditDistance.DistanceIsMetric` | templates/agent-tool-call-argument-key-typo-detector/detect.py:46-60 | least script length is zero only for equal strings, symmetric and satisfies the triangle inequality |
| `EditDistance.NextRow` | templates/agent-tool-call-argument-key-typo-detector/detect.py:55-59 | the inner loop turns row i-1 of the table into row i |
| `EditDistance.Levenshtein` | templates/agent-tool-call-argument-key-typo-detector/detect.py:46-60 | the two-row loop returns the least script length |
| `EditDistance.OneInsertion` | templates/agent-tool-call-argument-key-stability-checker/validator.py:66-78 | the linear scan decides whether one string is the other with one character left out |
| `EditDistance.DistanceOne` | templates/agent-tool-call-argument-key-stability-checker/validator.py:58-78 | true exactly when the least script length is one |
| `RequiredCoverage.ArrivalChecksType` | templates/json-schema-required-field-coverage-reporter/reporter.py:112-123 | a value counts as present exactly when it is not null and its declared type admits it |
| `RequiredCoverage.PathRoundTrip` | templates/json-schema-required-field-coverage-reporter/reporter.py:98-108 | a path string is read back as the same path exactly when all its names are clean |
| `RequiredCoverage.CompilationRenders` | templates/json-schema-required-field-coverage-reporter/reporter.py:56-85 | the compiled strings are the structured paths, rendered, in the same order |
| `RequiredCoverage.WalkEachPresent` | templates/json-schema-required-field-coverage-reporter/reporter.py:133-141 | the worst-verdict aggregation is present exactly when every element is |
| `RequiredCoverage.HopsMeanAccepts` | templates/json-schema-required-field-coverage-reporter/reporter.py:56-147 | all structured paths arrive exactly when direct recursive validation accepts |
| `RequiredCoverage.CompilationPreservesMeaning` | templates/json-schema-required-field-coverage-reporter/reporter.py:56-147 | with clean names, checking every path string is direct recursive validation, for all nestings and documents |
| `RequiredCoverage.SlashNameIsReadAsNesting` | templates/json-schema-required-field-coverage-reporter/reporter.py:107-108 | a required name with a slash is reported missing in the document that has it |
| `RequiredCoverage.EmptyNameIsAlwaysPresent` | templates/json-schema-required-field-coverage-reporter/reporter.py:107-108 | an empty required name is reported present in every non-null document |
| `CoverageExact.SomeDocumentDiffers` | templates/json-schema-required-field-coverage-reporter/reporter.py:56-147 | every satisfiable schema with an unclean name, at any depth, has a document on which check and validation disagree |
| `CoverageExact.NullNeverPasses` | templates/json-schema-required-field-coverage-reporter/reporter.py:114-119 | a schema that requires a null-typed field accepts nothing, by check or by validation |
| `CoverageExact.CompilationIsExact` | templates/json-schema-required-field-coverage-reporter/reporter.py:56-147 | for every schema, check and validation agree on all documents if and only if its names are clean or it requires a null-typed field |
| `CoverageReport.CountRow` | templates/json-schema-required-field-coverage-reporter/reporter.py:232-250 | the loop over one document's paths updates the counters and decides all-present and some-missing |
| `CoverageReport.MakeReport` | templates/json-schema-required-field-coverage-reporter/reporter.py:227-259 | totals, fields in path order, declared types and per-field counters are those of the verdict table; the `CoverageVerdicts` rows say what they mean |
| `CoverageReport.CountsSumToDocuments` | templates/json-schema-required-field-coverage-reporter/reporter.py:164-165 | a field's four counts sum to the documents exactly when its path occurs once (or there are none) |
| `CoverageReport.PathsDiffer` | templates/json-schema-required-field-coverage-reporter/reporter.py:56-85 | with clean, unrepeated names no two compiled paths are the same string |
| `CoverageReport.ReportMeaning` | templates/json-schema-required-field-coverage-reporter/reporter.py:227-259 | then the all-present count is the number of accepted documents and every field's counts sum to the documents |
| `CoverageReport.CountsAddUpUnlessRepeated` | templates/json-schema-required-field-coverage-reporter/reporter.py:227-259 | for clean schemas, every field's counts sum to the documents if and only if no required list repeats a name, at any depth, or there is no document |
| `CoverageReport.RepeatedNameCountsTwice` | templates/json-schema-required-field-coverage-reporter/reporter.py:69-75 | with `required` listing one name twice, both fields count every document twice |
| `CoverageReport.WorstIndex` | templates/json-schema-required-field-coverage-reporter/reporter.py:186-195 | the worst field has the most failures, the earliest on ties |
| `CoverageReport.WorstIsPresentLeast` | templates/json-schema-required-field-coverage-reporter/reporter.py:186-195 | on a clean schema without repeated names, the worst field is the one present in fewest documents |
| `CoverageVerdicts.WalkEachIsWorst` | templates/json-schema-required-field-coverage-reporter/reporter.py:133-141 | over array elements the worst verdict wins: any missing, else any wrong type, else any null |
| `CoverageVerdicts.WalkIsDeserved` | templates/json-schema-required-field-coverage-reporter/reporter.py:110-147 | the walk along clean labels gives the verdict that the values reached deserve |
| `CoverageVerdicts.VerdictMeaning` | templates/json-schema-required-field-coverage-reporter/reporter.py:98-147 | for every document and every path string: missing if and only if for some choice of elements a hop cannot be followed; else wrong type if and only if some value reached is non-null and not admitted; else null if and only if some value reached is null |
| `CoverageVerdicts.AnyMissingMeans` | templates/json-schema-required-field-coverage-reporter/reporter.py:232-250 | for every schema, the count of documents with something missing is the number of documents on which some required path breaks |
| `CoverageVerdicts.CountersMean` | templates/json-schema-required-field-coverage-reporter/reporter.py:227-259 | with clean, unrepeated names, each field has its path, its declared type, and four counters that are the numbers of documents with that fate |
| `TraceFindings.SortFacts` | templates/agent-trace-span-orphan-detector/detector.py:213 | sorting keeps exactly the findings, each once, in order of kind and span id |
| `TraceFindings.LexMeans` | templates/agent-trace-span-orphan-detector/detector.py:213 | the order on texts: a prefix comes first, otherwise the first differing character decides |
| `TraceFindings.LeqMeans` | templates/agent-trace-span-orphan-detector/detector.py:213 | findings are ordered by the name of their kind and, within a kind, by span id |
| `TraceFindings.SortedIsUnique` | templates/agent-trace-span-orphan-detector/detector.py:99-102 | a set of findings has one sorted listing, so reports can be compared line by line |
| `TraceSpans.Validate` | templates/agent-trace-span-orphan-detector/detector.py:76-117 | accepted exactly when all spans are well formed with distinct ids; otherwise the first offender is named |
| `TraceSpans.RevisitIsEndless` | templates/agent-trace-span-orphan-detector/detector.py:174-182 | a parent chain that meets a span twice never ends |
| `TraceSpans.WalkUp` | templates/agent-trace-span-orphan-detector/detector.py:169-198 | the walk reports a cycle exactly when the chain never reaches a root or missing parent; the safety net never fires |
| `TraceSpans.RootPass` | templates/agent-trace-span-orphan-detector/detector.py:122-140 | exactly the roots of traces with several roots are reported, each once |
| `TraceSpans.ParentPass` | templates/agent-trace-span-orphan-detector/detector.py:142-198 | orphan, cross-trace and cycle findings are exactly the flagged spans in span order |
| `TraceSpans.DanglingPass` | templates/agent-trace-span-orphan-detector/detector.py:200-211 | exactly the open spans that started before the latest start |
| `TraceSpans.StructureMeansTrees` | templates/agent-trace-span-orphan-detector/detector.py:119-198 | no structural finding if and only if the spans of every trace form one rooted tree |
| `TraceSpans.ReportIgnoresOrder` | templates/agent-trace-span-orphan-detector/detector.py:96-103 | any reordering of the input gives the same list of findings |
| `TraceSpans.Detect` | templates/agent-trace-span-orphan-detector/detector.py:96-222 | accepted exactly when ids are distinct and all texts non-empty; findings are complete, correct, unrepeated and sorted; the root count is the number of spans without parent; ok if and only if all traces are trees and nothing dangles |
| `CostLedger.CheckConfig` | templates/cost-budget-soft-fence/fence.py:52-60 | accepted exactly for a positive budget and non-empty ascending rungs strictly between 0 and 1, and which error otherwise |
| `CostLedger.ChargeKeepsInv` | templates/cost-budget-soft-fence/fence.py:127-171 | a charge keeps the ledger invariant |
| `CostLedger.RefundKeepsInv` | templates/cost-budget-soft-fence/fence.py:173-199 | a refund keeps the ledger invariant |
| `CostLedger.ReachableInv` | templates/cost-budget-soft-fence/fence.py:127-199 | in every reachable ledger spent is the committed sum, within budget and tolerance, warned rungs are those reached, committed and refunded ids are disjoint |
| `CostLedger.HistoryIndependent` | templates/cost-budget-soft-fence/fence.py:127-199 | spent and warned rungs depend on the committed map alone |
| `CostLedger.RefundUndoesCharge` | templates/cost-budget-soft-fence/fence.py:127-199 | for any operations before and between: a later refund leaves the ledger of the run without the charge (plus the refunded id), at every point, if and only if each charge let through in that run still fits beside the extra amount |
| `CostLedger.RefundSettles` | templates/cost-budget-soft-fence/fence.py:173-199 | refunding an outstanding charge gives the ledger without it, re-armed rungs included; a second refund changes nothing |
| `CostLedger.CrowdedOutStaysOut` | templates/cost-budget-soft-fence/fence.py:131-142 | a charge that was turned away because of another one does not come back when that one is refunded |
| `CostLedger.WarnsOnCrossing` | templates/cost-budget-soft-fence/fence.py:145-171 | a charge warns exactly when it lifts spent over budget across a rung, naming the highest one reached and the next; total, fraction and headroom are those after the charge |
| `CostLedger.SpendsOnceIfItFits` | templates/cost-budget-soft-fence/fence.py:127-142 | over any run, a charge spends exactly when it is well formed, no earlier charge of the run spent under its id (refunded since or not), and it fits beside the outstanding sum with tolerance 1e-12; otherwise nothing changes and the answer is the right error, or a hard stop with the sum outstanding, its fraction and the headroom left |
| `CostLedger.RefundsOnceIfSpent` | templates/cost-budget-soft-fence/fence.py:173-181 | over any run, a refund pays back exactly when a charge spent under the id and no refund returned it yet; otherwise nothing changes and the answer tells the two cases apart |
| `CostLedger.RefundRearms` | templates/cost-budget-soft-fence/fence.py:182-199 | a refund re-arms exactly the rungs the fraction drops below |
| `CostLedger.NextAboveFacts` | templates/cost-budget-soft-fence/fence.py:157-164 | the next rung is the least one above the named rung |
| `CostLedger.RewarnNeedsRefund` | templates/cost-budget-soft-fence/fence.py:186-192 | two warnings naming one rung have a refund to below that rung between them |
| `CostLedger.SameRungWarnsTwice` | templates/cost-budget-soft-fence/fence.py:186-192 | a run of charge, refund, charge that warns twice of one rung |
| `CostLedger.Book.Spend` | templates/cost-budget-soft-fence/fence.py:127-171 | the method updates the four fields as the pure charge does |
| `CostLedger.Book.GiveBack` | templates/cost-budget-soft-fence/fence.py:173-199 | the method updates the four fields as the pure refund does |
| `CheckpointResume.FillSlots` | templates/agent-checkpoint-resume/checkpoint.py:88-97 | each id's slot holds its latest begin and latest end, ids in order of first appearance |
| `CheckpointResume.LoadCheckpoint` | templates/agent-checkpoint-resume/checkpoint.py:86-117 | loading pairs and sorts as the pure loader |
| `CheckpointResume.LoadAnyLog` | templates/agent-checkpoint-resume/checkpoint.py:86-117 | for any log, written by a run or not: one record per step that has a begin, in order of index, with its latest begin and latest end |
| `CheckpointResume.SortFacts` | templates/agent-checkpoint-resume/checkpoint.py:116 | sorting by index neither loses nor invents a record |
| `CheckpointResume.LoadIsRun` | templates/agent-checkpoint-resume/checkpoint.py:86-117 | loading the log of a run gives back its steps in order |
| `CheckpointResume.CutIsRun` | templates/agent-checkpoint-resume/checkpoint.py:179-188 | a log cut at any record is the log of a run |
| `CheckpointResume.PlanResume` | templates/agent-checkpoint-resume/checkpoint.py:120-160 | the planning loop computes the plan read off the first record that cannot be stepped over |
| `CheckpointResume.PlanForAnyRecords` | templates/agent-checkpoint-resume/checkpoint.py:120-160 | for any records: the plan commits a prefix that ended under the expected hashes, and its state, next index and invalidated id say what stopped it |
| `CheckpointResume.PlanIsExact` | templates/agent-checkpoint-resume/checkpoint.py:86-160 | for any cut and any hashes, the plan stops at the smallest unended, mismatched or final index, with exactly the steps before it committed |
| `CheckpointResume.PairingIsFaithful` | templates/agent-checkpoint-resume/checkpoint.py:96-97 | a step counts as ended exactly when its latest record is an end, if and only if it was not begun again after an end |
| `CheckpointResume.RebegunStaysCommitted` | templates/agent-checkpoint-resume/checkpoint.py:96-97 | beginning an ended step again leaves it with the old output and the new hash, and the plan counts it as committed when the planner expects that hash and trusts the steps before |
| `PostFilter.WinningIsMostSevere` | templates/content-safety-post-filter/post_filter.py:215-222 | the winning action is that of some hit and no hit is more severe |
| `PostFilter.WinningIsFirstAskedFor` | templates/content-safety-post-filter/post_filter.py:76-81 | block if some hit asks for it, else review, else redact, else allow |
| `RedactionDecision.HitsAreMatches` | templates/content-safety-post-filter/post_filter.py:193-204 | every match of every rule is a hit with the data of the rule and the matched text, and nothing else is |
| `RedactionDecision.HitsInPolicyOrder` | templates/content-safety-post-filter/post_filter.py:193-204 | hits are listed rule by rule, in policy order |
| `RedactionDecision.DecisionFollowsPolicy` | templates/content-safety-post-filter/post_filter.py:193-230 | for every policy with distinct labels, as construction demands: action, tripped categories and the rule named, in terms of which rules matched |
| `RedactionDecision.TokensNumberedLeftToRight` | templates/content-safety-post-filter/post_filter.py:236-256 | within a category, a value with an occurrence before all those of another one has the smaller number |
| `PostFilter.ActionIgnoresRuleOrder` | templates/content-safety-post-filter/post_filter.py:193-230 | action and tripped categories are the same under any reordering of rules |
| `PostFilter.AllowRulesTrip` | templates/content-safety-post-filter/post_filter.py:193-230 | a rule with action allow yields hits and trips its category |
| `PostFilter.ChosenIsEarliest` | templates/content-safety-post-filter/post_filter.py:224-228 | the chosen label is the earliest rule with a hit of the winning action |
| `PostFilter.TokenInjective` | templates/content-safety-post-filter/post_filter.py:254-256 | a token determines its category and number |
| `PostFilter.TokensIdentifyValues` | templates/content-safety-post-filter/post_filter.py:243-256 | two hits share a token exactly when they share category and matched value |
| `PostFilter.SpliceIsRender` | templates/content-safety-post-filter/post_filter.py:258-262 | for spans none of which reaches into the next, empty ones included, the right-to-left splice is left-to-right rendering |
| `PostFilter.RedactedIsRendered` | templates/content-safety-post-filter/post_filter.py:232-262 | the same for compatible hits found in any order, through both sorts |
| `PostFilter.FoundHitsAreLocated` | templates/content-safety-post-filter/post_filter.py:193-204 | the hits of an evaluation lie in the text, as the redaction theorems ask |
| `PostFilter.DisjointMeansCompatible` | templates/content-safety-post-filter/post_filter.py:236-239 | in the order in which the splice meets them, no span reaches into the next exactly when the hits are compatible |
| `PostFilter.RedactionIsReversible` | templates/content-safety-post-filter/post_filter.py:232-262 | for compatible hits, putting matched values back at the rendered positions recovers the text |
| `PostFilter.OverlapCutsToken` | templates/content-safety-post-filter/post_filter.py:258-262 | two spans keep both tokens exactly when the left ends before the right starts |
| `RedactionOverlap.SpliceIsIdealIffDisjoint` | templates/content-safety-post-filter/post_filter.py:258-262 | for spans in text order that may overlap, the splice keeps every uncovered character and token if and only if none reaches into the next, provided none is empty or the text has no `<` |
| `RedactionOverlap.RedactionIsExact` | templates/content-safety-post-filter/post_filter.py:232-262 | the same for the whole redaction, hits in any order: compatible hits always suffice, and are necessary if no match is empty or the text has no `<` |
| `RedactionOverlap.CompatibleIsApart` | templates/content-safety-post-filter/post_filter.py:258-262 | for non-empty matches, compatible means that no two spans share a character |
| `RedactionOverlap.EmptyMatchIsCut` | templates/content-safety-post-filter/post_filter.py:258-262 | an empty match loses the front of its token to a later match that starts at the same place, whose text leaks |
| `RedactionOverlap.EmptyMatchLeaks` | templates/content-safety-post-filter/post_filter.py:258-262 | the hits on "ab" that show it |
| `RedactionOverlap.TokenLikeTextHidesCut` | templates/content-safety-post-filter/post_filter.py:258-262 | in a text that reads like a token, a cut can complete itself, so the proviso on `<` is needed |
| `PostFilter.AssignNumbers` | templates/content-safety-post-filter/post_filter.py:240-256 | the counter loop numbers distinct values per category in order of appearance |
| `PostFilter.ReplaceAll` | templates/content-safety-post-filter/post_filter.py:232-262 | the redaction loops compute the specified redacted text |
| `PostFilter.Evaluate` | templates/content-safety-post-filter/post_filter.py:186-280 | hits are those of the policy; block, review, redact, allow in that order of precedence; the text changes only without block or review hits, and then is the redacted one; tripped categories and chosen label |
| `TurnPruner.BandsConserve` | templates/agent-conversation-turn-pruner/turn_pruner.py:113-134 | the bands conserve turns, keep order and drop only unpinned ones |
| `PrunerBands.BandsKeep` | templates/agent-conversation-turn-pruner/turn_pruner.py:113-134 | a conversation of at most `keep_first + keep_last` turns is kept whole; of a longer one the first `keep_first`, the last `keep_last` and exactly the pinned turns between them, in order; the other turns between are dropped |
| `PrunerBands.MarkerDueMeans` | templates/agent-conversation-turn-pruner/turn_pruner.py:136-148 | the marker is due exactly when the policy has a text for it and an unpinned turn stands between the bands |
| `PrunerBands.MarkerPosition` | templates/agent-conversation-turn-pruner/turn_pruner.py:136-148 | the marker goes `keep_first` turns from the start, and further by every pinned turn after those |
| `TurnPruner.MarkerBeforeTail` | templates/agent-conversation-turn-pruner/turn_pruner.py:136-148 | at the marker step, the marker stands directly before the tail exactly when no tail turn is pinned |
| `TurnPruner.TurnCeiling` | templates/agent-conversation-turn-pruner/turn_pruner.py:150-178 | deleting positions from the right drops the oldest eligible turns, as many as needed or possible, and lists them in the order deleted |
| `TurnPruner.TokenCeiling` | templates/agent-conversation-turn-pruner/turn_pruner.py:180-211 | the loop ends and drops the shortest oldest-first run that meets the cap, or all eligible turns |
| `TurnPruner.Prune` | templates/agent-conversation-turn-pruner/turn_pruner.py:96-223 | accepted exactly for non-negative numbers; kept plus dropped is the input plus the marker, no system or pinned turn is dropped, dropped turns are listed stage by stage, token totals are right |
| `TurnPruner.KeptInOrder` | templates/agent-conversation-turn-pruner/turn_pruner.py:96-223 | kept conversation turns stand in their original order and the marker is the only system turn among them |
| `TurnPruner.TokenCapMet` | templates/agent-conversation-turn-pruner/turn_pruner.py:189-211 | kept tokens are within the cap or no eligible turn is left |
| `TurnPruner.TurnCapMet` | templates/agent-conversation-turn-pruner/turn_pruner.py:150-178 | kept turns are within the cap or no droppable turn is left |
| `PrunerBands.PruneWithoutCeilings` | templates/agent-conversation-turn-pruner/turn_pruner.py:96-148 | without ceilings the result is the system turns followed by the banded conversation with its marker, and the dropped turns are those between the bands |
| `PrunerBands.TokenCeilingSpares` | templates/agent-conversation-turn-pruner/turn_pruner.py:180-211 | the token ceiling never drops a pinned turn, a system turn or one that reads like the marker, and gives up over the cap only when no other turn is left |
| `PrunerBands.CeilingDropsNoMoreThanNeeded` | templates/agent-conversation-turn-pruner/turn_pruner.py:150-178 | the turn ceiling drops nothing below the cap and never more than it takes to reach it |
| `SummarizerWindow.TriggerActs` | templates/conversation-summarizer-window/summarizer.py:67-123 | a triggered compression declines exactly when nothing is droppable or the total sits on a target that rounding lifted to the trigger |
| `SummarizerWindow.LimitsRoundUp` | templates/conversation-summarizer-window/summarizer.py:67-77 | trigger and target are the percentages of the window, rounded up |
| `SummarizerWindow.RoundedTriggerDeclines` | templates/conversation-summarizer-window/summarizer.py:67-82 | a window whose trigger and target round to the same number, and a conversation it leaves alone |
| `SummarizerWindow.PinnedOnlyDeclines` | templates/conversation-summarizer-window/summarizer.py:116-123 | a conversation over its trigger that is left alone because its one message is pinned |
| `SummarizerWindow.Peel` | templates/conversation-summarizer-window/summarizer.py:94-114 | the peel loop, reserve check included, removes the shortest oldest-first run that reaches the target, or all droppable messages |
| `SummarizerWindow.Compress` | templates/conversation-summarizer-window/summarizer.py:72-152 | result and report in all three cases, the summary message and its place included |
| `SummarizerWindow.CompressionBound` | templates/conversation-summarizer-window/summarizer.py:72-152 | tokens after are within the target, or equal the protected tokens, plus the summary |
| `SummarizerWindow.ProtectedSurvive` | templates/conversation-summarizer-window/summarizer.py:97-142 | pinned messages and earlier summaries survive in order, the new summary joins them |
| `SummarizerWindow.RecentTailKept` | templates/conversation-summarizer-window/summarizer.py:130-142 | all other kept messages follow the summary in order |
| `SummarizerWindow.CompressionConserves` | templates/conversation-summarizer-window/summarizer.py:90-142 | the result and the summarised messages are the input plus the summary, and without the summary the result is a subsequence of the input |
| `IterationCap.TrailingRunIsLongest` | templates/agent-loop-iteration-cap/iteration_cap.py:121-139 | the last n fingerprints are equal exactly when n is at most the trailing run |
| `IterationCap.Iterate` | templates/agent-loop-iteration-cap/iteration_cap.py:76-139 | one iteration keeps the loop-head facts or ends with a faithful report |
| `IterationCap.RunWithCap` | templates/agent-loop-iteration-cap/iteration_cap.py:35-147 | accepted exactly for valid arguments, with the right error otherwise; at most `max_iterations` steps; stops at the first stop condition; sleeps, total and fingerprints are those of the run |
| `IterationCap.CounterBelowThreshold` | templates/agent-loop-iteration-cap/iteration_cap.py:121-139 | while the loop runs the no-progress counter is below the threshold less one |
| `IterationCap.FaithfulIsUnique` | templates/agent-loop-iteration-cap/iteration_cap.py:76-147 | a run has one faithful report, so the loop's contract fixes its result |
| `IterationCap.OutcomeMeans` | templates/agent-loop-iteration-cap/iteration_cap.py:76-147 | no step after the deadline, after a done step or after an equal window; each outcome in terms of the steps, clock readings and fingerprints that led to it |
| `IterationCap.SleepsDouble` | templates/agent-loop-iteration-cap/iteration_cap.py:91-96 | no sleep below `cooldown_after` repeats of a fingerprint, the base wait at exactly that many, and then twice the previous wait up to the cap for as long as it repeats |
| `IterationCap.NoBaseNoSleeps` | templates/agent-loop-iteration-cap/iteration_cap.py:93 | without a base wait the loop never sleeps |
| `IterationCap.SleepsBounded` | templates/agent-loop-iteration-cap/iteration_cap.py:91-96 | at most one sleep per iteration, none negative or above the cap |

## Left out

- The `llm-output-*` scanners and the other rule-list validators: their meaning lies in regular expressions and word lists.
- Command-line entry points, file walking, JSON printing, report formatting and exit codes.
- SHA-256, canonical JSON and the text of JSON files: hashes and documents are opaque values; that JSON text round-trips is assumed.
- Floating-point rounding: amounts, rates and times are exact reals.
- `best_match`, `normalize` and `analyze_call` of the typo detector and `validate` of the key-stability checker: easy consumers of the distances.
- Cache: `stats()` and its hit ratio; the clock is assumed non-decreasing in the inclusion and history theorems, as the default monotonic clock is.
- Coalescer: wake-ups and timed waits (a flush step may happen at any moment its condition holds), futures cancelled by callers, the join time-out of `close`, argument checks of the constructor.
- Handoff: lock polling and its timing, directory creation, unlinking of a failed temporary file, and the metadata fields of the envelope; it is modelled as steps on a value, with any process able to act between any two steps.
- StateHandoff.Safety: the transaction body is a function from the loaded state to the new one or to an exception; other effects of the body are not modelled.
- Coverage report: rates and their rounding.
- Trace detector: the free-text detail of findings, span names and the type checks of individual fields.
- Ledger persistence (`to_dict`, `from_dict`): it rounds to six places, so it is not an exact round trip.
- Ledger notes and reason texts; rounding of values reported by a refund.
- Checkpoint: tool lists and timestamps of records (copied, never inspected), malformed or torn lines.
- Post-filter: construction checks of rules and policies, log rows and the order in which tripped categories are listed (a set here).
- Pruner: the decision strings and the default token counter.
- Summarizer: the default token counter.
- Iteration cap: type checks of callback results; a step that raises.
