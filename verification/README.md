# dbprobe verification model

dbprobe inspects a MySQL server through read-only collectors, keeps complete inspections as
snapshots, and compares snapshots over time. This project models the parts of it whose correctness
is not visible from a single function, and proves what they promise.

| file | what it models |
|---|---|
| `WorkerPool.dfy` | the bounded worker pool as a transition system: producer, workers, result channel, cancellation at any step |
| `Planner.dfy` | one planner run: snapshot batch, two counter samples, their join into deltas, the sorted report |
| `BlockingChain.dfy` | the backtracking search for the deepest chain in a wait-for graph with cycles |
| `IndexSignature.dfy`, `RedundantIndex.dfy`, `IndexCollector.dfy` | the string test on index signatures, the rule that reports redundant indexes, and what it makes of the texts the index collector writes |
| `SchemaFingerprint.dfy` | the canonical byte stream that is hashed into the schema fingerprint, with its budgets |
| `Clock.dfy`, `Signal.dfy`, `Snapshot.dfy` | UTC times and their text, observations and identities, snapshots in normal form |
| `Codec.dfy`, `SqliteStore.dfy`, `MemoryStore.dfy`, `History.dfy`, `StoreAgreement.dfy`, `BaselineStore.dfy` | the two baseline stores, the history both implement, their agreement, and the interface the use cases see |
| `SnapshotDiff.dfy`, `QueryRegression.dfy`, `DiffService.dfy` | the snapshot diff as a patch, the regression detector, the diff use case |
| `Inspection.dfy` | which inspections enter history, over any sequence of inspections |
| `PlanSanitizer.dfy`, `Utf8.dfy` | the allow-list filter on JSON plans, and the cut of query text at a character boundary |
| `Text.dfy`, `Trimming.dfy`, `Lists.dfy`, `Sorting.dfy`, `Ordering.dfy` | strings as bytes, trimming white space, filtering loops as functions, `sort.Slice` as a sorted permutation |

How the model reads the program:

- A string is a `seq<char>` with one char per byte; Go's `<` on strings is `Text.Less`.
- A method mirrors a function of the program that loops or updates state, and its contract ties it to
  a specification function or predicate. Most theorems are lemmas about those specifications; for each of
  them one lemma says what it means in terms of the program's inputs alone.
- `sort.Slice` is not stable, so `Sorting.Sort` promises a permutation in order and nothing more.
  Where a result is nevertheless determined, a lemma says so.
- Loops over Go maps visit the keys in an arbitrary order (`:|`), so a result that is proved does not
  depend on that order.
- Identities glue strings together with `|`. They tell signals apart as long as keys and kinds hold no
  `|`; the injectivity lemmas carry that condition, and a collision without it is exhibited.
- `hash`, `sha256Hex`, `marshal` and `unmarshal` are function parameters, and so is the type of a stored
  payload. Only where a theorem needs it is the hash ideal (`Snapshot.Ideal`) and JSON faithful: what it
  can marshal it gives back (`Codec.Faithful`). `Codec.FaithfulLibraryExists` exhibits such a library, and
  `StoreAgreement.StorableExists` snapshots for it.
- The worker pool runs under an arbitrary scheduler: `Collection.Planner.RunPool` takes any enabled step of
  the transition system until the caller returns.

Where code and intention part, the model follows the code:

- The redundant-index rule compares signatures when both indexes carry one and plain column lists
  otherwise. On what the index collector writes every reported index has an unreported one whose key
  begins with its own (`IndexCollector.CollectorReportsAreSafe`). If signatures are missing from some
  indexes of a table, its only reason may itself be reported: with `c(10)` signed, `c, d` unsigned and
  `c, d, e` signed, the first is reported because of the second, and the second because of the third.
  `IndexCollector.CoveredIffUniform` gives the exact condition. Reasons never run in a circle, and they
  always lead to an unreported index with a longer column list (`IndexCollector.NoCircle`,
  `IndexCollector.ReachesUnreported`).
- The plan rejection "contains no safe metadata"
  (docs/superpowers/plans/2026-08-21-dbprobe-plan-explain.md:173) does not catch an array directly
  inside an array: it survives empty. `PlanSanitizer.SanitizeMySQLJSONPlan` states exactly which plans
  are accepted.
- `UnixNano` wraps, so the SQLite queries order snapshots by time exactly as far as their wrapped stamps do
  (`SqliteStore.AnswersRightIffOrdered`). For snapshots taken within 2^64 nanoseconds that is when all times
  are of one era (`SqliteStore.OrderedIffOneEra`), for instance when they fit 64-bit nanoseconds. A store
  with snapshots of 11 and 12 April 2262 does not return the later one as the latest (`Clock.OrderLost`,
  `SqliteStore.LatestLosesNewest`).

## Model

| member | source | states |
|---|---|---|
| WorkerPool.Safety | internal/core/collection/planner.go:189-233 | in every state of every interleaving each job is unsent or in exactly one of worker, result channel, dropped; without cancellation none is dropped or left unsent; at most min(max(1, maxConcurrency), jobs) jobs are in flight; a worker with a result finds room in a channel that is still open |
| WorkerPool.LimitIsReached | internal/core/collection/planner.go:193-217 | the bound on jobs in flight is tight: some run has min(max(1, maxConcurrency), jobs) of them in flight |
| WorkerPool.StepInv | internal/core/collection/planner.go:201-236 | the pool invariant (conservation of jobs, who may have quit before cancellation, results only of their own collector) is kept by every action |
| WorkerPool.CancellationIsFinal | internal/core/collection/planner.go:209-226 | once a state of a run is cancelled every later one is |
| WorkerPool.CancellationStopsWork | internal/core/collection/planner.go:209-228 | from a cancellation on at most one more job is handed out and no collector is started |
| WorkerPool.EveryRunIsBounded | internal/core/collection/planner.go:205-232 | no interleaving takes more than 5 * jobs + limit + 4 steps |
| WorkerPool.StepDecreases | internal/core/collection/planner.go:205-232 | every action strictly lowers a non-negative measure of the work left |
| WorkerPool.SomeStepIsEnabled | internal/core/collection/planner.go:205-232 | while the caller, the producer or a worker is not done, some step other than a cancellation is possible: no deadlock and no leaked goroutine, also with every worker gone and the producer parked in its select |
| WorkerPool.EveryRunCanFinish | internal/core/collection/planner.go:205-244 | every partial run extends to one in which the caller has returned and every goroutine has ended |
| WorkerPool.SortedResultsAreInJobOrder | internal/core/collection/planner.go:238-243 | draining and sorting a channel that holds every index once puts the result of job i at position i |
| WorkerPool.ScheduleIndependence | internal/core/collection/planner.go:201-244 | if outcomes depend on the job alone, every interleaving that returns without error returns what a sequential loop over the jobs returns |
| WorkerPool.ErrorsOnlyOnCancellation | internal/core/collection/planner.go:232-243 | a finished run returned an error only if it was cancelled; without cancellation, and whenever results came back, they hold one result per job in job order |
| Collection.Batch | internal/core/collection/planner.go:176-187 | the i-th result carries the i-th collector's descriptor and what it returns in this very phase |
| Collection.EveryScheduleReturnsTheBatch | internal/core/collection/planner.go:101-135 | on the pool of a batch of collectors, whatever the schedule, the returned results are those of the collectors in order |
| Collection.Planner.constructor | internal/core/collection/planner.go:51-53 | no batch of a new planner ever has more than four collectors in flight, whatever the schedule |
| Collection.Planner.WithMaxConcurrency | internal/core/collection/planner.go:55-61 | afterwards no batch ever has more collectors in flight than the value given, or than one if it is below one, whatever the schedule |
| Collection.LimitHolds | internal/core/collection/planner.go:193-217 | in every state of every run of a pool with this setting at most that many collectors, or one, are in flight |
| Collection.Planner.RunPool | internal/core/collection/planner.go:189-244 | a batch ends under every scheduler; its steps are a run of the pool with the planner's setting, and the caller gets an error exactly if the context was cancelled |
| Collection.Planner.RunBatch | internal/core/collection/planner.go:189-244 | whatever the schedule, a cancelled batch with jobs fails and any other gives, in job order, each job's descriptor with what its collector returns in the phase |
| Collection.Planner.Run | internal/core/collection/planner.go:77-174 | a run fails exactly for a cancellation it meets or a missing window with counter collectors; otherwise its report is a sorted permutation of the snapshot batch plus sample B, of the joined deltas, and of unsupported, failure and reset warnings |
| Collection.ReportMeaning | internal/core/collection/planner.go:86-173 | a report holds exactly, and as often, what the equipped snapshot collectors return and what the equipped counter collectors return in sample B; warnings are exactly the unsupported strategies, the failures of every phase that ran, and the resets; all three parts are in order of key, kind and id, or of collector and reason |
| Collection.ReportedDeltas | internal/core/collection/planner.go:118-168 | the deltas of a report are one for one those of the sample-B numbers whose last sample-A number with the same key is not greater: their difference, and the rate that over the window in seconds gives it back |
| Collection.Planner.SampleCounters | internal/core/collection/planner.go:112-170 | the two-phase part of a run: which errors it ends with, and that it returns the observations of sample B, the deltas and the warnings in collection order |
| Collection.Partition | internal/core/collection/planner.go:84-99 | eligible collectors are split by strategy in their order; every other eligible one is warned about |
| Collection.AppendBatch | internal/core/collection/planner.go:105-110 | observations are kept even from a collector that also failed, and each failure is warned about once |
| Collection.RememberFirst | internal/core/collection/planner.go:122-129 | the map of first samples holds for every key the last sample-A observation with that key, and no other key |
| Collection.JoinResult | internal/core/collection/planner.go:144-168 | one collector's second samples give, in order, the deltas and resets of the specification |
| Collection.Join | internal/core/collection/planner.go:139-169 | the same over the whole second batch |
| Collection.JudgeMeaning | internal/core/collection/planner.go:145-167 | a second sample yields a delta if and only if its last first sample with the same key is numeric and not greater, a reset if and only if it is numeric and greater; the delta is b - a >= 0 and rate times window gives it back |
| Collection.DeltasAreExact | internal/core/collection/planner.go:144-168 | the deltas are, one for one and in order, those of exactly the second samples with a partner they did not fall behind |
| Collection.ResetsAreExact | internal/core/collection/planner.go:154-157 | the reset warnings are, one for one and in order, those of exactly the second samples that fell behind their partner |
| Collection.JoinKeyInjective | internal/core/collection/planner.go:127-145 | the string key joins exactly the same signal of the same collector, when collector ids, keys and kinds hold no separator |
| Collection.SortReport | internal/core/collection/planner.go:246-259 | sorting permutes observations, deltas and warnings and orders them by identity, or by collector and reason |
| Collection.WarningFreeIffComplete | internal/core/collection/planner.go:86-169 | a report has no warnings if and only if every eligible collector was supported and failed in no phase and no paired counter fell |
| Collection.DeltasNeverNegative | internal/core/collection/planner.go:154-167 | no report holds a negative delta |
| Signal.SignalIdentityInjective | internal/core/temporal/diff.go:104-106 | two signals share an identity string if and only if they are the same signal, when keys and kinds hold no separator |
| Signal.ObjectIdentityInjective | internal/core/temporal/query_regression.go:115-117 | the same for objects, when kinds hold no separator |
| Signal.IdentityCollision | internal/core/temporal/diff.go:104-106 | with the separator in a kind two different objects share an identity |
| BlockingChain.BlockingDepth | adapters/mysql/findings/blocking_chain.go:67-81 | on any graph the search terminates, leaves the path map as it found it, and returns the greatest number of edges of a walk from the node whose vertices, except possibly the last, are distinct and off the path |
| BlockingChain.LongestDepth | adapters/mysql/findings/blocking_chain.go:41-46 | the maximum over all requesting transactions, in whatever order, is the longest chain of the whole graph |
| BlockingChain.ReadEdges | adapters/mysql/findings/blocking_chain.go:22-39 | the adjacency map has exactly the edges that observations report, and the evidence is those observations in order |
| BlockingChain.SplitMeaning | adapters/mysql/findings/blocking_chain.go:28-31 | splitting cuts at every arrow: the parts hold none, and joined by arrows they are the text |
| Trimming.TrimMeaning | adapters/mysql/findings/blocking_chain.go:32-33 | trimming takes away only white space, and all of it, at both ends |
| BlockingChain.EdgeMeaning | adapters/mysql/findings/blocking_chain.go:25-36 | an observation reports an edge if and only if it is a lock-wait edge whose text has exactly one arrow with more than white space on both sides, and then those sides trimmed |
| BlockingChain.EdgeRoundTrip | adapters/mysql/findings/blocking_chain.go:28-36 | an edge written `a->b` with trimmed names free of arrows is read back as a and b |
| BlockingChain.Evaluate | adapters/mysql/findings/blocking_chain.go:21-65 | a finding appears if and only if some transaction waits for another that itself waits; it is critical if and only if three different transactions wait in a row; the reported depth is the longest chain of every graph with the reported edges; the evidence is exactly the observations that report an edge, in order |
| BlockingChain.OnlyEdgesMatter | adapters/mysql/findings/blocking_chain.go:37-46 | the depth does not change with order or repetition of edges |
| BlockingChain.ChainIsBounded | adapters/mysql/findings/blocking_chain.go:41-46 | the depth is at most the number of requesting transactions |
| BlockingChain.LongestPathWhenAcyclic | adapters/mysql/findings/blocking_chain.go:67-81 | without cycles the depth is the length of the longest path of any kind |
| BlockingChain.DepthTwo | adapters/mysql/findings/blocking_chain.go:47-49 | the reporting threshold means a waiting transaction that waits for a waiting one |
| BlockingChain.DepthThree | adapters/mysql/findings/blocking_chain.go:51-54 | the critical threshold means three different waiting transactions in a row |
| IndexSignature.ParseOne | adapters/mysql/collectors/indexes.go:21-38 | the first column and everything after it can be read off a signature, although column texts may hold both separators |
| IndexSignature.PrefixMeansPrefix | adapters/mysql/collectors/indexes.go:21-38 | a signature followed by a separator begins another signature only if its column list is a proper prefix |
| IndexSignature.PrefixTestIsExact | adapters/mysql/findings/rules.go:154-161 | the raw string test holds if and only if one column list is a proper prefix of the other |
| RedundantIndex.IndexStates | adapters/mysql/findings/rules.go:348-393 | exactly the observed indexes have a state, each field holding the last usable value reported for it |
| RedundantIndex.FirstReason | adapters/mysql/findings/rules.go:146-165 | the inner loop finds the first index in id order that makes this one redundant, or there is none |
| RedundantIndex.Report | adapters/mysql/findings/rules.go:141-167 | the reports are, strictly in id order, exactly the indexes with a reason, each with its first one |
| RedundantIndex.AfterIsStates | adapters/mysql/findings/rules.go:348-393 | folding the observations one by one gives the last usable value of every field |
| RedundantIndex.ReasonMeaning | adapters/mysql/findings/rules.go:137-161 | y is a reason to report x if and only if the last observations say that both are neither primary nor unique, of one named table, with columns, and that y's signature, or column list where one has no signature, continues x's after a separator |
| RedundantIndex.Evaluate | adapters/mysql/findings/rules.go:137-168 | over the observations: the reports are, strictly in id order, exactly the indexes that another makes redundant in this sense, each with the first such index |
| RedundantIndex.NoMutualReasons | adapters/mysql/findings/rules.go:154-161 | no two indexes are each other's reason, with or without signatures |
| RedundantIndex.ReasonIsColumnPrefix | adapters/mysql/findings/rules.go:154-161 | between signed indexes of one table a reason is exactly a proper prefix of columns |
| RedundantIndex.UniformIsSafe | adapters/mysql/findings/rules.go:137-168 | when all plain indexes of a table carry signatures, or at most one does, every reported index has an unreported one that extends its key |
| IndexCollector.Collect | adapters/mysql/collectors/indexes.go:82-129 | the observations are, row by row, reads, column list, signature, table and flags of the same key |
| IndexCollector.CatalogueStates | adapters/mysql/findings/rules.go:348-393 | from the observations of distinct rows, some of them perhaps without signature, the rule sees exactly one state per row, made of the row's texts and flags |
| IndexCollector.ColumnTestIsExact | adapters/mysql/findings/rules.go:154-161 | on column names without commas the test on column lists holds if and only if one list is a proper prefix of the other |
| IndexCollector.ReasonExtendsKey | adapters/mysql/collectors/indexes.go:20-38 | between two signatures written by the collector a reason is a key, columns with prefix lengths and collations, that begins with the other; the column lists agree |
| IndexCollector.PathExtends | adapters/mysql/findings/rules.go:137-168 | along any chain of reasons the column list grows, whichever texts the rule compared |
| IndexCollector.NoCircle | adapters/mysql/findings/rules.go:137-168 | no index is, through any number of others, a reason for itself, however signatures are distributed |
| IndexCollector.ReachesUnreported | adapters/mysql/findings/rules.go:137-168 | from every reported index the reasons lead to an unreported one of the same table whose column list extends its own |
| IndexCollector.UnreportedExtendsColumns | adapters/mysql/findings/rules.go:137-168 | with names free of commas that index has all columns of the reported one, in order, and more |
| IndexCollector.CollectorReportsAreSafe | adapters/mysql/collectors/indexes.go:82-129 | on the collector's own observations every reported index has an unreported one on the same table whose key begins with its whole key |
| IndexCollector.OnlyOrdinaryRows | adapters/mysql/collectors/indexes.go:118-124 | on the collector's observations no unique index and no primary key is reported or is a reason |
| IndexCollector.BuildCatalogue | adapters/mysql/findings/rules.go:348-393 | any set of indexes with proper keys, signed or not, is what the rule sees of some observations |
| IndexCollector.MixedIsUnsafe | adapters/mysql/findings/rules.go:154-157 | if some but not all plain indexes of a table are signed, two of them at least, observations exist from which the rule reports an index whose every reason is reported |
| IndexCollector.CoveredIffUniform | adapters/mysql/findings/rules.go:137-168 | over all keys, every reported index of a table has an unreported reason if and only if all its plain indexes are signed or at most one is |
| SchemaFingerprint.BE32Injective | adapters/mysql/collectors/schema_fingerprint.go:240-245 | four length bytes tell any two lengths below 2^32 apart |
| SchemaFingerprint.BE32Value | adapters/mysql/collectors/schema_fingerprint.go:240-245 | read in base 256, the highest byte first, they are the length |
| SchemaFingerprint.EncodeInjective | adapters/mysql/collectors/schema_fingerprint.go:225-238 | two records have the same bytes if and only if they are the same record |
| SchemaFingerprint.Buffer.WriteLengthPrefixed | adapters/mysql/collectors/schema_fingerprint.go:240-245 | a field is appended behind its four-byte length |
| SchemaFingerprint.EncodeSchemaRecord | adapters/mysql/collectors/schema_fingerprint.go:225-238 | encoding fails if and only if there are fields and the whole record passes the limit, although the check runs field by field |
| SchemaFingerprint.EncodeRow | adapters/mysql/collectors/schema_fingerprint.go:196-212 | a row is accepted if and only if it scans, has the group's width and no field or record too large |
| SchemaFingerprint.NextRecord | adapters/mysql/collectors/schema_fingerprint.go:193-215 | one turn of the row loop passes if and only if row limit, row and remaining budget allow it |
| SchemaFingerprint.EncodeRows | adapters/mysql/collectors/schema_fingerprint.go:192-218 | the row loop succeeds if and only if all rows are acceptable and their total size fits, and returns all records with their exact size |
| SchemaFingerprint.CollectGroup | adapters/mysql/collectors/schema_fingerprint.go:183-223 | a group is collected if and only if its query ran, was read to the end and fits the remaining budget |
| SchemaFingerprint.CollectGroups | adapters/mysql/collectors/schema_fingerprint.go:159-168 | collection succeeds if and only if every group is usable and all records together fit 64 MiB; the budget passed on is never negative |
| SchemaFingerprint.EncodedIsEncodings | adapters/mysql/collectors/schema_fingerprint.go:159-168 | the running byte counter is the size of exactly the encoded records |
| SchemaFingerprint.LengthsAreExact | adapters/mysql/collectors/schema_fingerprint.go:225-257 | within the limits every length survives its cast to 32 bits |
| SchemaFingerprint.HashSchemaRecords | adapters/mysql/collectors/schema_fingerprint.go:247-258 | the hash reads the header and the sorted records, each behind its length |
| SchemaFingerprint.Collect | adapters/mysql/collectors/schema_fingerprint.go:149-181 | a fingerprint comes out if and only if the catalogue is within every limit; it is the version and the digest of exactly the stream of its records |
| SchemaFingerprint.StreamIsCanonical | adapters/mysql/collectors/schema_fingerprint.go:247-258 | two collections feed the hash the same bytes if and only if they are the same multiset of records |
| SchemaFingerprint.FingerprintInputIsCanonical | adapters/mysql/collectors/schema_fingerprint.go:149-181 | the same for the six metadata queries within the limits: every schema change shows, no row order does |
| SchemaFingerprint.FingerprintsAgree | adapters/mysql/collectors/schema_fingerprint.go:149-181 | with a collision-free digest two fingerprints are the same text if and only if each of the six queries returned the same rows the same number of times |
| Utf8.TruncateUTF8 | adapters/mysql/collectors/queries.go:151-160 | text within the budget is unchanged; longer text becomes its longest valid prefix that fits, and for valid text the cut is on a character boundary and at most three bytes short (section 4 of RFC 3629) |
| Utf8.ValidIffEncoded | adapters/mysql/collectors/queries.go:156-157 | a text is valid if and only if it is the encoding of some Unicode scalar values (section 3 of RFC 3629) |
| Utf8.ValidPrefixEndsOnBoundary | adapters/mysql/collectors/queries.go:155-159 | what follows a valid prefix of valid text is valid |
| Utf8.BoundaryNear | adapters/mysql/collectors/queries.go:155-159 | valid text has a boundary within the last three bytes of any budget |
| PlanSanitizer.SanitizePlanValue | adapters/mysql/explain_sanitize.go:83-137 | the filter with its map loop, in any order of fields, computes the specification `Clean` |
| PlanSanitizer.SanitizePlanSlice | adapters/mysql/explain_sanitize.go:139-155 | the slice loop computes its specification `CleanItems` |
| PlanSanitizer.CleanIdempotent | adapters/mysql/explain_sanitize.go:83-155 | cleaning a cleaned value changes nothing, on every JSON value |
| PlanSanitizer.DroppedScalarsDoNotShow | adapters/mysql/explain_sanitize.go:83-155 | replacing scalars the filter drops by other scalars it drops never changes the result |
| PlanSanitizer.KeptExactly | adapters/mysql/explain_sanitize.go:83-155 | the result holds, under the same names, exactly the allow-listed scalars of the input |
| PlanSanitizer.ObjectSurvives | adapters/mysql/explain_sanitize.go:83-155 | an object survives if and only if it holds an allow-listed scalar or an array directly inside an array |
| PlanSanitizer.SanitizeMySQLJSONPlan | adapters/mysql/explain_sanitize.go:52-81 | a plan is accepted if and only if it is small enough and an object that holds safe metadata or directly nested arrays; what comes out is exactly the safe metadata and stable under a second pass |
| PlanSanitizer.NestedArraysPassEmpty | adapters/mysql/explain_sanitize.go:71-80 | under any field name, an array holding an empty array passes with no scalar at all |
| Text.LessMeaning | internal/core/collection/planner.go:246-258 | one text is before another if and only if it is a proper prefix or has the smaller byte at the first difference |
| Clock.BeforeIsEarlier | internal/platform/baseline/memory.go:103-108 | one time is before another if and only if its year, month, day, hour, minute, second and nanosecond come first in that order |
| Clock.TickCounts | internal/platform/sqlite/baseline.go:99-99 | the instant is the count of nanoseconds since 1970: it grows by one with each tick of calendar and clock |
| Clock.FourHundredYears | internal/platform/sqlite/baseline.go:99-99 | 97 leap days in any 400 years, none in 1900 and one in 2000 |
| Clock.NanosInjective | internal/platform/sqlite/baseline.go:99-99 | two different UTC times are two different instants in nanoseconds |
| Clock.WrapKeepsOrder | internal/platform/sqlite/baseline.go:99-99 | wrapping to 64 bits keeps the order of two instants if and only if they are further apart than the eras between them; up to 2^64 nanoseconds apart, if and only if they are of one era |
| Clock.OrderLost | internal/platform/sqlite/baseline.go:99-99 | two dates of April 2262 whose stamps are in the wrong order |
| Clock.FormatInjective | internal/core/temporal/snapshot.go:57-58 | two times have the same RFC 3339 text with nanoseconds (section 5.6 of RFC 3339) only if they are equal, also outside four-digit years |
| Clock.FormatLayout | internal/core/temporal/snapshot.go:57-58 | for four-digit years the text shows each field at its place, then the fraction if any and Z |
| Clock.FractionLayout | internal/core/temporal/snapshot.go:57-58 | the fraction is the nanoseconds in nine digits without the zeros at their end |
| Snapshot.Normalized | internal/core/temporal/snapshot.go:76-87 | the capabilities strictly increase and are the same set |
| Snapshot.NormalizeCapabilities | internal/core/temporal/snapshot.go:76-87 | set, arbitrary-order collection and sort give that one sequence |
| Snapshot.ClonedKeeps | internal/core/temporal/snapshot.go:89-101 | what is kept is exactly the observations that are not query text, in order and as often as they were there |
| Snapshot.CloneObservations | internal/core/temporal/snapshot.go:89-101 | the loop computes that sequence |
| Snapshot.CloneFindings | internal/core/temporal/snapshot.go:120-130 | every finding is kept with its evidence cleaned the same way |
| Snapshot.BuildSnapshot | internal/core/temporal/snapshot.go:43-74 | the checks and loops give the specification `NewSnapshot`, errors in the same order |
| Snapshot.NewSnapshotIdempotent | internal/core/temporal/snapshot.go:43-74 | building a snapshot from a built snapshot gives the same snapshot |
| Snapshot.NormalForm | internal/core/temporal/snapshot.go:69-72 | in a built snapshot capabilities strictly increase, and neither observations nor any finding's evidence hold query text |
| Snapshot.SeedInjective | internal/core/temporal/snapshot.go:57-59 | target and time can be read off the text hashed into the id, even if the target holds the separator |
| Snapshot.IdIsTargetAndTime | internal/core/temporal/snapshot.go:57-63 | with an ideal hash two snapshots share an id if and only if they share target and time, so times under one target are distinct |
| SnapshotDiff.ObservationMap | internal/core/temporal/diff.go:91-102 | the map holds the last observation of every identity, and exactly the repeated identities are ambiguous |
| SnapshotDiff.Compare | internal/core/temporal/diff.go:35-89 | comparison fails exactly for missing or different targets, and otherwise returns the specified changes |
| SnapshotDiff.ChangesAreExact | internal/core/temporal/diff.go:50-88 | changes are strictly ordered by identity, one for exactly the unambiguous identities whose observations differ |
| SnapshotDiff.ChangedIffDifferent | internal/core/temporal/diff.go:57-113 | an identity has a change if and only if each snapshot has it at most once and they differ there: in having it, or in any field but the collection time |
| SnapshotDiff.ChangesDescribe | internal/core/temporal/diff.go:63-84 | a change is added exactly without an observation before, removed exactly without one after, a reset exactly for a cumulative number that fell, and carries the numeric difference exactly for two numbers otherwise |
| SnapshotDiff.EndsAreOneSignal | internal/core/temporal/diff.go:61-75 | both ends of a change have the same key and object, when keys and kinds hold no separator |
| SnapshotDiff.ChangesPatch | internal/core/temporal/diff.go:35-113 | applying the changes to the unambiguous part of the previous snapshot gives the unambiguous part of the current one, up to collection times |
| SnapshotDiff.SwappedChanges | internal/core/temporal/diff.go:50-88 | comparing the other way round swaps added and removed, negates numeric deltas and turns a reset into a gain, position by position |
| QueryRegression.CollectWindows | internal/core/temporal/query_regression.go:90-106 | a window holds the last sampled calls and the last sampled latency of its object, and every object with either has one |
| QueryRegression.Prune | internal/core/temporal/query_regression.go:107-111 | deleting while iterating, in any order, leaves exactly the windows that have both halves |
| QueryRegression.SampledMetrics | internal/core/temporal/query_regression.go:89-113 | both loops together give exactly the full windows of the deltas |
| QueryRegression.DetectQueryRegressions | internal/core/temporal/query_regression.go:40-81 | the output is, in strict order of added latency and identity, exactly the objects whose last sampled calls and latency in both snapshots meet the policy |
| QueryRegression.ReportIsUnique | internal/core/temporal/query_regression.go:47-80 | there is only one such sequence, so map iteration order cannot show |
| QueryRegression.RegressionNamesItsObject | internal/core/temporal/query_regression.go:65-67 | a regression carries the object whose windows it was computed from |
| QueryRegression.ReportedIffRegressed | internal/core/temporal/query_regression.go:47-72 | an object whose last sampled calls and latency in the two snapshots are given is reported if and only if both call counts and the rise of the mean, absolute and relative, reach the policy's thresholds, and then with these numbers |
| QueryRegression.OnlySampledReported | internal/core/temporal/query_regression.go:47-79 | only objects with last sampled calls and latency in both snapshots are reported, in order of added latency, the greatest first, then of identity |
| QueryRegression.OneKeyReportsNothing | internal/core/temporal/query_regression.go:98-111 | with one key for calls and latency nothing is reported |
| QueryRegression.AddedLatencyMeaning | internal/core/temporal/query_regression.go:55-72 | added latency is current latency minus what the current calls took at the previous mean, and at least minimum calls times minimum increase |
| Codec.ValidateNormal | internal/platform/sqlite/codec.go:64-86 | validation accepts a snapshot in normal form unchanged and gives nothing but normal forms |
| Codec.ValidateAccepts | internal/platform/sqlite/codec.go:64-86 | validation takes exactly snapshots of the current schema with all required parts under the id of their target and time, and changes only capabilities, observations and evidence, to their normal form |
| Codec.DecodeAccepts | internal/platform/sqlite/codec.go:50-62 | a payload decodes exactly if it is not empty, not over 16 MiB and the JSON of such a snapshot |
| Codec.FaithfulLibraryExists | internal/platform/sqlite/codec.go:35-62 | the assumptions on digest and JSON can be met, also with every snapshot encodable |
| Codec.NormalRoundTrip | internal/platform/sqlite/codec.go:35-62 | a normal snapshot that JSON takes and that is within the size limit encodes, and decodes to itself |
| Codec.RoundTrip | internal/platform/sqlite/codec.go:35-86 | decoding what was encoded gives the normal form of what was encoded |
| Codec.ExtractTrendMetrics | internal/platform/sqlite/codec.go:88-144 | extraction fails exactly over the row budget and otherwise returns a sorted permutation of one row per numeric observation and per delta |
| Codec.TrendRowsMeaning | internal/platform/sqlite/codec.go:98-129 | there is a row for each numeric observation and each delta, column by column the fields of it, rate and window only for deltas |
| Codec.TrendOrderMeaning | internal/platform/sqlite/codec.go:130-142 | rows of observations come before rows of deltas, then by key, object kind and object id |
| History.NormalIdentifies | internal/core/temporal/snapshot.go:57-63 | among normal snapshots the id stands for target and instant |
| History.ListingUnique | internal/core/temporal/store.go:11-16 | a history has one listing of a target from the newest to the oldest |
| History.PreviousMeaning | internal/core/temporal/store.go:14-14 | Previous gives the newest snapshot strictly older than the bound, and fails exactly if there is none |
| History.PreviousOfLatest | internal/app/diff/service.go:40-47 | asked with the newest time, it gives the second newest snapshot |
| MemoryStore.Memory.constructor | internal/platform/baseline/memory.go:18-20 | a new store is valid and its history empty |
| MemoryStore.SavedRecords | internal/platform/baseline/memory.go:32-41 | filing a normal snapshot in the nested maps records it in the history, and is a no-op exactly when its id is taken |
| MemoryStore.Memory.File | internal/platform/baseline/memory.go:32-41 | the maps after filing, with the target's map created on demand and an existing id left alone |
| MemoryStore.Memory.Save | internal/platform/baseline/memory.go:22-42 | a save fails exactly for an invalid snapshot and then changes nothing; a normal one is recorded, the first of an id winning |
| MemoryStore.Memory.Sorted | internal/platform/baseline/memory.go:92-110 | the values in arbitrary order, sorted, are the target's listing, strictly from newest to oldest |
| MemoryStore.Memory.Clone | internal/platform/baseline/memory.go:112-124 | the copy of a stored snapshot is the snapshot |
| MemoryStore.Memory.Latest | internal/platform/baseline/memory.go:44-54 | the first of the listing |
| MemoryStore.Memory.Previous | internal/platform/baseline/memory.go:56-71 | the newest of the listing before the bound |
| MemoryStore.Memory.List | internal/platform/baseline/memory.go:73-90 | the listing up to the limit, all of it for a limit that is not positive |
| SqliteStore.Sqlite.constructor | internal/platform/sqlite/baseline.go:50-61 | new tables are consistent and their history empty |
| SqliteStore.Sqlite.InsertOrIgnore | internal/platform/sqlite/baseline.go:92-105 | a row is added, and counted, exactly if its id is new |
| SqliteStore.Sqlite.InsertTrends | internal/platform/sqlite/baseline.go:121-146 | the trend inserts end with an error exactly if one of them fails, otherwise all rows are there |
| SqliteStore.Sqlite.Statements | internal/platform/sqlite/baseline.go:92-146 | which statement failures and id conflicts end the transaction, and what the tables hold if none does |
| SqliteStore.Sqlite.Transact | internal/platform/sqlite/baseline.go:81-152 | on any failure, commit included, both tables are as before; otherwise a new id adds its row and its trend rows and a known one adds nothing; no existing row changes |
| SqliteStore.Sqlite.Save | internal/platform/sqlite/baseline.go:63-154 | with any statement failing, one row per id, envelopes that agree with decoded payloads, exact trend rows and no orphans are kept; a save fails exactly for an unacceptable, unencodable, oversized or conflicting snapshot or a failed statement, and then leaves both tables unchanged |
| SqliteStore.Sqlite.SaveEach | internal/platform/sqlite/baseline.go:63-154 | over every run of saves with arbitrary failures the tables stay consistent, no row is changed or lost, and no snapshot leaves the history |
| SqliteStore.EnvelopeIsExact | internal/platform/sqlite/baseline.go:241-261 | a row reads if and only if it is under the target asked for, its payload decodes and every one of its columns agrees with the snapshot in it |
| SqliteStore.SavedRowReads | internal/platform/sqlite/baseline.go:241-261 | the row a save writes passes that check and reads as the saved snapshot |
| SqliteStore.InsertKeepsConsistent | internal/platform/sqlite/baseline.go:112-146 | a new row with its trend rows keeps all rows and trend rows in order and adds exactly its snapshot |
| SqliteStore.ConflictIffDifferent | internal/platform/sqlite/baseline.go:112-120 | the payload comparison refuses a known id exactly if the stored snapshot is another one |
| SqliteStore.Sqlite.Select | internal/platform/sqlite/baseline.go:26-41 | a query returns each matching row once, newest first |
| SqliteStore.Sqlite.SelectAll | internal/platform/sqlite/baseline.go:38-41 | all rows of a target pass the envelope check and, where stamps keep the order, hold its listing |
| SqliteStore.SelectionIsListing | internal/platform/sqlite/baseline.go:38-41 | where stamps keep the order of the target's snapshots, rows ordered by stamp hold them strictly ordered by time, all of them |
| SqliteStore.PreviousRow | internal/platform/sqlite/baseline.go:32-36 | there the newest row below a bound that cuts them right holds what Previous finds in the listing |
| SqliteStore.AnswersRightIffOrdered | internal/platform/sqlite/baseline.go:26-41 | List, and Previous asked with every stored time, answer right if and only if the stamps keep the order |
| SqliteStore.OrderedIffOneEra | internal/platform/sqlite/baseline.go:99-99 | for snapshots within 2^64 nanoseconds, stamps keep the order if and only if all times are of one era |
| SqliteStore.LatestLosesNewest | internal/platform/sqlite/baseline.go:26-30 | a snapshot with a smaller stamp than another of its target is never the latest |
| SqliteStore.Sqlite.Latest | internal/platform/sqlite/baseline.go:156-173 | the first of the listing, where stamps keep the order |
| SqliteStore.Sqlite.Previous | internal/platform/sqlite/baseline.go:175-195 | the newest of the listing before the bound, where stamps keep the order; empty targets and zero times are refused |
| SqliteStore.ScanAll | internal/platform/sqlite/baseline.go:216-222 | the scan loop gives a snapshot for every row, or the error of a row that fails its check |
| SqliteStore.Sqlite.List | internal/platform/sqlite/baseline.go:197-235 | the listing up to the limit, all of it for a limit that is not positive, where stamps keep the order |
| StoreAgreement.RefusedOnlyAsDuplicate | internal/platform/sqlite/baseline.go:112-119 | without failing statements SQLite refuses a storable snapshot exactly if another one has its id, and then the history already counts as having recorded it |
| StoreAgreement.StorableExists | internal/platform/sqlite/codec.go:35-48 | every target has, at every time, a snapshot that both stores accept |
| StoreAgreement.SaveBoth | internal/platform/baseline/memory.go:22-42 | one storable snapshot saved in both stores is recorded by both; SQLite answers with an error exactly if another one has its id |
| StoreAgreement.SaveAll | internal/platform/baseline/memory.go:22-42 | after saving any sequence of storable snapshots in both stores their histories are equal, the first of each id winning in both |
| StoreAgreement.QueryBoth | internal/platform/baseline/memory.go:44-90 | stores with equal histories answer Latest, Previous and List alike, where stamps keep the order |
| BaselineStore.Store.Save | internal/core/temporal/store.go:11-16 | either store records a normal snapshot, or refuses it with the history as it was; only the one on disk refuses any |
| BaselineStore.Store.Latest | internal/core/temporal/store.go:11-16 | either store gives the first of the listing, in memory always, on disk where stamps keep the order |
| BaselineStore.Store.Previous | internal/core/temporal/store.go:11-16 | either store gives the newest of the listing before the bound, under the same condition |
| BaselineStore.Store.List | internal/core/temporal/store.go:11-16 | either store gives the listing up to the limit, under the same condition |
| DiffService.Service.NewestPair | internal/app/diff/service.go:40-47 | on either store the two queries give the second newest and the newest snapshot of the target |
| DiffService.Service.Run | internal/app/diff/service.go:33-68 | on either store the report is on the target and compares the second newest with the newest snapshot, at strictly increasing times, with their changes and regressions; with fewer than two there is none |
| DiffService.NewestTwo | internal/app/diff/service.go:40-47 | asking for the snapshot before the latest finds the second of the listing |
| Inspection.PersistHistory | internal/app/inspect/history.go:10-35 | on either store a report with warnings leaves history alone; any other is recorded, or answered with a warning exactly if the snapshot is invalid or the store refuses it |
| Inspection.Run | internal/app/inspect/service.go:69-115 | an inspection fails exactly if its planner run does; its report shows what was collected and found; it leaves the history alone or records one snapshot of a complete planner run, and without warnings the snapshot of this report |
| Inspection.RunEach | internal/app/inspect/service.go:69-115 | any sequence of inspections on an empty store leaves a trace of such steps, so its history holds snapshots of complete runs only and no negative delta |
| Inspection.OnlyCompleteRunsEnterHistory | internal/app/inspect/history.go:14-34 | along every such trace each snapshot in history comes from a run in which every eligible collector was supported and failed in no phase and no paired counter fell |
| Inspection.HistoryHasNoNegativeDeltas | internal/app/inspect/history.go:14-34 | so along every such trace no snapshot in history holds a negative delta |

## Left out

- Collection.Planner.RunPool: the context is cancelled, if at all, before the caller looks; one flag per batch says whether it is. A producer that outlives the caller is not followed here; `WorkerPool.EveryRunCanFinish` shows that it ends.
- Collection.Planner.Run: the clock and the request passed to collectors, the timer and `RealWaiter` are not modelled; a wait is a step that succeeds or reports cancellation. `Collection.Planner.SampleCounters` is a part of `Run` in the program.
- Collection.JoinKeyInjective: needs keys, kinds and collector ids without `|`; `Signal.IdentityCollision` shows why.
- RedundantIndex.UniformIsSafe: holds for tables with uniform signatures only; `IndexCollector.CoveredIffUniform` shows that this is exact.
- IndexCollector.UnreportedExtendsColumns: needs column names without commas, which the column list does not escape; `IndexCollector.ReachesUnreported` holds for all names.
- IndexCollector.CollectorReportsAreSafe: takes index ids as distinct, which dots in table and index names could spoil; parsing of counts and flags and the row limit are left out.
- RedundantIndex.Evaluate: returns the pairs of ids that a finding names; the index state objects are values here, so aliasing through the map of pointers is not modelled.
- IndexSignature.PrefixTestIsExact: signatures cut off by MySQL's `group_concat_max_len` are not modelled.
- SchemaFingerprint.Collect: row scanning and the observation around the fingerprint are left out; a row is a list of scanned fields or an error, and the width check is done by the driver's scan.
- SchemaFingerprint.FingerprintInputIsCanonical: speaks of the bytes given to SHA-256, not of the digest.
- Snapshot.BuildSnapshot: nil and empty slices are the same, and the deep copies of pointers, so that callers cannot change a stored snapshot, are not modelled. Times are UTC instants; time zones and the monotonic clock are left out.
- Snapshot.IdIsTargetAndTime: takes the truncated SHA-256 as free of collisions.
- SchemaFingerprint.FingerprintsAgree: takes SHA-256 as free of collisions.
- Codec.RoundTrip: takes `encoding/json` to give back what it marshals; what it does not reproduce (NaN, text that is not UTF-8) counts as not marshalled.
- MemoryStore.Memory.Save: the mutex and concurrent callers are not modelled. A snapshot that is not in normal form is stored under the id it came with, as in the program, and nothing is claimed about the queries afterwards.
- SqliteStore.Sqlite.Save: a failed commit counts as not applied; connections, migrations, pragmas and concurrent writers are not modelled, nor is an insert that reports more than one row, which a primary key rules out. Errors are told apart by their message without wrapped causes.
- SqliteStore.Sqlite.SaveEach: has no counterpart in the program; it stands for any sequence of its calls.
- SqliteStore.Sqlite.Latest: speaks of the listing only where stamps keep the order of time, which is exact; like the other SQLite queries it leaves out failures of the query itself.
- StoreAgreement.QueryBoth: has no counterpart in the program; it puts the same three queries to both stores.
- StoreAgreement.SaveAll: stands for any sequence of saves on both stores; it asks for snapshots in normal form within the codec limits.
- DiffService.Service.Run: on the SQLite store it speaks only of targets whose stamps keep the order of time. Events derived from the diff are left out.
- Inspection.Run: target parsing, adapter registry and rule composition are left out; findings are an arbitrary function of the planner's report.
- Inspection.RunEach: has no counterpart in the program; it stands for any sequence of inspections.
- PlanSanitizer.SanitizeMySQLJSONPlan: the JSON decoder and encoder are not part of the model; the byte count of the text and the decoded value are inputs.
- Floating point: numbers are reals, so NaN, infinity and rounding are not modelled.
- Threshold rules, finding titles, summaries and guidance, event derivation, renderers and commands: each is settled by reading one branch.
