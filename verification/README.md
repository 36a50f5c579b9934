# Verified model of the gateway's core

This project models the parts of the LLM gateway whose correctness rests on induction, on runs of
interleaved steps or on failure points, and proves what they promise. Each source file that works
by changing state is modelled by a class or by methods with loops, proved against a specification
function; the laws are lemmas about those functions and about runs of steps. The main
ones are stated once more in terms they do not share with the code: by columns, rows, attempts, names.

* **Think tags** (`ThinkingTransformer`, `ThinkingStream`, `ThinkingPrinter`, `ThinkingLaws`,
  `ThinkingMessage`). The two-phase scanner with its carry, the four targets, the printer, and the
  one-shot form.
* **Audit listing** (`RecordsCursor`, `RowOrder`, `RecordsQuery`, `RecordsPaging`,
  `SearchFilters`). Keyset paging over shards, the cursor format, the LIKE and range filters.
* **Daily totals** (`Aggregate`, `AggregateScan`, `AggregateStore`, `AggregateLaws`,
  `AggregateRuns`, `AggregateHazards`, `HistogramBlob`, `MetricsMerge`, `MetricsEngine`,
  `MetricsRollup`, `MetricsAnswer`, `MetricsShards`). The watermark-driven index against the full
  rebuild, over runs with replaced stores, and its answers, shard by shard and merged, against a scan
  of the rows.
* **Configuration reload** (`ConfigManager`, `ConfigRuns`). Tasks that stat, check, load and commit,
  and a file that changes, as interleaved steps; which version is applied over whole runs.
* **Audit writer and rotation** (`AuditWriter`, `WriterRuns`, `Rotation`, `RotationRuns`). Queue,
  batch, retry, seal, resume and reset; monthly archiving, alone and interleaved with the writer.
* **Error log** (`LogPager`, `LogPagerLaws`, `LogLines`, `LogEntries`, `LogLaws`). Backward
  paging and the round trip of an interruption line.
* **Migration** (`MigrationTables`, `MigrationCopy`, `MigrationVerify`, `BackupPath`, `Cutover`).
  The batched copy, its verification, and the replacement of the active file at every crash point.
* **Routing, streaming, cache key** (`Sorting`, `Routing`, `StreamTail`, `StreamResponse`,
  `StreamThinking`, `StreamFields`, `KeyEncoding`). Ranked lists, the layers of the client stream
  alone and with the think-tag transformer inside, and the injective key.

`Wrappers`, `Text`, `Numbers` and `Bytes` hold what the others share.

Strings are sequences of Unicode characters; where the code counts bytes (the error cap, the log
file, the debug tail, the cache key) the model counts bytes too. Clocks, the file system's
answers, the database's failures and the order of steps are parameters over which every statement
quantifies. Hashes, scores and the calendar are functions with only the properties the proofs name.

## Where the code and its documentation differ

The model follows the code. Each of these is proved by the members named; where the code keeps its
promise only sometimes, the condition is proved in both directions.

* A reload is documented to apply a given version exactly once (`src/config/config_manager.rs:192-194`).
  A slow task can bring an older version back, and a version can be applied twice
  (`ConfigManager.OlderVersionCanReturn`). A swap goes back exactly when the applied version was
  written after its task looked at the file (`ConfigRuns.SwapGoesBackIff`). A run only goes forward
  exactly when nothing newer than what a task saw is swapped in before its own swap
  (`ConfigRuns.AlwaysForwardIff`), and then each version is applied at most once
  (`ConfigRuns.EachVersionAtMostOnce`). A write between load and stat at start-up can stay unseen
  (`ConfigManager.StartupRace`).
* A replaced store is noticed by its identity, by the time of the cursor row or by a smaller highest
  id. What is noticed is rebuilt (`AggregateLaws.NoticedResetIsRebuilt`); what is not, such as a reset
  in place whose new cursor row has the old time (`AggregateHazards.ResetCanGoUnnoticed`), leaves
  wrong totals unless the old rows pass for the new ones (`AggregateRuns.RunsAgreeWithTheRebuildIff`).
  Rows inserted between the two reads of an update may be counted twice, and an empty store keeps the
  watermark of the store before it (`AggregateHazards`).
* The totals may answer for past days while a late row is missing, because the newest counted time is
  looked at first (`MetricsAnswer.NewestTimeHidesLateRows`); when the answer is right is
  `MetricsAnswer.CaughtUpAnswersRightIff`. Even in time order a row in the last millisecond of the
  last day can be missed (`MetricsAnswer.InOrderOnlyTheLastInstantIsLate`).
* A failed opening after a rotation keeps the writer sealed for good
  (`RotationRuns.FailedOpenIsForever`), or, if it leaves a file behind and the next rename fails, lets
  the writer append to an archive (`RotationRuns.ResumeOpensAnArchiveIff`). The stamped archive name
  is not checked for existence (`Rotation.ArchivesKeepTheirNames`).
* The cutover can return an error with the replacement active: exactly if both databases are ready, the
  backup, the moves of the sidecars and the rename work, and the directory sync fails
  (`Cutover.ReplaceActive`; `Cutover.FailedButReplaced` is a caller at which it does).
* A resumed migration is never verified, verification only counts records, and a payload behind the
  last record is not copied (`MigrationVerify.ResumedRun`, `MigrationVerify.RecordsAreOnlyCounted`,
  `MigrationCopy.CompleteIff`).
* `[DONE]` is forwarded as often as upstream sends it (`StreamResponse.OneDoneIff`), and a failure
  behind `[DONE]` still sends an error chunk while the audited status stays 200
  (`StreamResponse.ResponseShape`, `StreamResponse.StatusIsDecidedOnce`).
* What the think-tag scanner holds back, and the closing tag of the printer, are sent only in front
  of an upstream `[DONE]`, not at a silent end, where the gateway itself adds the `[DONE]`
  (`StreamThinking.ClientReceivesTheDecompositionIff`,
  `StreamThinking.ClientReceivesThePrintedTextIff`, `StreamThinking.SilentEndLosesText`).
* Content that arrives together with reasoning can overtake text that the scanner still holds back
  (`StreamFields.ContentOvertakesTheCarry`, `StreamFields.InOrderIff`).
* The single-store listing loses rows without a time behind its first page
  (`RecordsPaging.ActiveCrawlIsComplete`).
* Reasoning that resumes after the printed block has been closed is printed as content
  (`ThinkingPrinter.PrinterWrites`, `ThinkingPrinter.ResumedReasoningIsLost`).
* A backslash that begins an escape in front of a character of several bytes makes the log-line
  parser panic (`LogLines.PanicsIff`, `LogLines.WideEscapePanics`); the model returns that as an
  outcome of its own.

## Model

| member | source | states |
|---|---|---|
| `ThinkingTransformer.CarryLen` | src/handlers/thinking_transformer.rs:175-185 | The result is a proper partial tag at the end of the text, and no longer proper partial tag ends it. |
| `ThinkingTransformer.PartialMarkerLen` | src/handlers/thinking_transformer.rs:175-185 | The search from the longest candidate down finds that longest partial tag. |
| `ThinkingTransformer.NoTagBeforeCarry` | src/handlers/thinking_transformer.rs:219-233 | Emitting everything but the carry is safe: whatever text follows, no tag starts in what was emitted. |
| `ThinkingTransformer.ScanSplits` | src/handlers/thinking_transformer.rs:199-237 | Reading `a` and then `b` with the carry gives the same outputs, phase and carry as reading `a + b` at once. |
| `ThinkingTransformer.CarryIsStable` | src/handlers/thinking_transformer.rs:199-237 | The carry that is left, read again alone, emits nothing and stays the carry. |
| `ThinkingTransformer.OutputIsTheDecomposition` | src/handlers/thinking_transformer.rs:199-237 | For any tag-free segments joined by alternating tags, content is the segments outside a block and reasoning those inside; the final phase follows the number of tags. |
| `ThinkingTransformer.SegmentsDecompose` | src/handlers/thinking_transformer.rs:199-237 | Every text has such a decomposition: segments and consumed tags put together are the text, so nothing is lost. |
| `ThinkingTransformer.DecompositionIsUnique` | src/handlers/thinking_transformer.rs:199-237 | There is only one decomposition, so the outputs are determined by the text. |
| `ThinkingStream.ThinkingStreamTransformer.ParseContentSource` | src/handlers/thinking_transformer.rs:199-237 | The loop over the buffer leaves the two outputs, the phase and the carry of the scan of carry and fragment. |
| `ThinkingStream.ThinkingStreamTransformer.TransformDelta` | src/handlers/thinking_transformer.rs:240-333 | One delta is rewritten, and the four state fields advance, as the step function says, for all four targets; passthrough changes nothing. |
| `ThinkingStream.ThinkingStreamTransformer.Finalize` | src/handlers/thinking_transformer.rs:335-365 | The flush hands out the carry by phase or closes an open printed block, and resets what it flushed. |
| `ThinkingPrinter.PrinterWrites` | src/handlers/thinking_transformer.rs:287-365 | For every stream of deltas the think-tag target prints the content before the first reasoning, one block with the reasoning up to the next content, and the rest as it comes. |
| `ThinkingPrinter.PrinterWritesOneBlock` | src/handlers/thinking_transformer.rs:287-365 | If no reasoning follows the closing of the block, all reasoning is in it and all content around it. |
| `ThinkingPrinter.ClosedPrinterLeaksReasoning` | src/handlers/thinking_transformer.rs:287-333 | After the block is closed any later reasoning is printed as plain content. |
| `ThinkingPrinter.PrintThenParse` | src/handlers/thinking_transformer.rs:199-365 | For every stream: printed by one target, cut anywhere and parsed by another, reasoning and content come back if and only if no reasoning follows the closed block, the reasoning has no close tag, and neither the content before nor that behind the block has an open tag. |
| `ThinkingPrinter.ResumedReasoningIsLost` | src/handlers/thinking_transformer.rs:287-333 | Reasoning, answer, reasoning again: the second reasoning is printed as part of the answer. |
| `ThinkingLaws.ExtractThinkBlocks` | src/handlers/thinking_transformer.rs:22-38 | The one-shot form returns the non-empty blocks joined by newlines and the text without blocks. |
| `ThinkingLaws.StreamedVersusBlocks` | src/handlers/thinking_transformer.rs:22-38 | Where every opened block is closed, streaming and one-shot see the same remainder and blocks; otherwise the streamed content is at least an open tag shorter. |
| `ThinkingLaws.StreamedContentIsTheRemainder` | src/handlers/thinking_transformer.rs:22-38 | The streamed content is the one-shot remainder if and only if every opened block is closed. |
| `ThinkingLaws.StreamedReasoningIsTheJoinedBlocks` | src/handlers/thinking_transformer.rs:22-38 | The streamed reasoning is the blocks run together; it equals the newline-joined one-shot form if and only if at most one block is non-empty. |
| `ThinkingMessage.ExtractUndoesPrint` | src/handlers/thinking_transformer.rs:72-133 | One-shot extraction of a printed message returns its reasoning and answer if and only if the reasoning has no close tag and the answer no complete block. |
| `ThinkingMessage.TagFormLosesNothing` | src/handlers/thinking_transformer.rs:72-133 | Converting to tags and on to a field equals converting directly, under exactly the same condition. |
| `ThinkingMessage.SecondRunIsIdle` | src/handlers/thinking_transformer.rs:72-133 | A second conversion changes nothing if and only if the first one left no complete block in the content. |
| `ThinkingMessage.RemovalCanExposeATag` | src/handlers/thinking_transformer.rs:72-133 | The conversion is not idempotent: a concrete message in which removing a block makes a new one. |
| `RecordsCursor.CursorRoundTrip` | src/db/records_query.rs:41-69 | For all 64-bit keys a printed cursor parses back to its key exactly when the shard name is absent, or non-empty and free of colons; every other is read as no cursor. |
| `RecordsQuery.QueryShard` | src/db/records_query.rs:349-393 | A shard answers with its first `limit + 1` rows below the cursor, nulls skipped, in order. |
| `RecordsQuery.QueryRecordsMulti` | src/db/records_query.rs:397-477 | Extend, filter, sort, truncate: the page is the first rows of all matching rows of all shards sorted together, with the cursor of its last row if more follow, and the capped total. |
| `RecordsQuery.CountAll` | src/db/records_query.rs:413-422 | The total is exact below the cap and the cap otherwise, over all shards. |
| `RecordsQuery.RetainKeepsAll` | src/db/records_query.rs:441-447 | The filter after the merge never removes a row: the SQL condition already said the same. |
| `RecordsQuery.TimedTake` | src/db/records_query.rs:349-393 | Cutting before or after skipping rows without a time makes no difference in descending order. |
| `RecordsQuery.MergeIsTheGlobalTop` | src/db/records_query.rs:397-477 | The merged per-shard tops start with the first `limit + 1` rows of the global order, and no row without a time is among them. |
| `RecordsPaging.NextPage` | src/db/records_query.rs:455-464 | The listing below a handed-out cursor is exactly the rest of the listing it came from. |
| `RecordsPaging.CrawlReadsTheListing` | src/db/records_query.rs:397-477 | For any shards, filter, cursor and page size, following `nextCursor` ends and the pages concatenate to the sorted listing, each row once. |
| `RecordsPaging.FullListing` | src/db/records_query.rs:397-477 | Without a cursor the listing holds exactly the rows that pass the filter and have a time, newest first, then by id and shard name descending. |
| `RecordsPaging.UnprintableNameRestarts` | src/db/records_query.rs:41-69 | A shard name that is empty or holds a colon sends the client back to the first page. |
| `RecordsPaging.QueryRecordsActive` | src/db/records_query.rs:480-520 | The single-store form returns the first rows of its sorted listing, next cursor and capped total; it compares time and id only. |
| `RecordsPaging.ActiveCrawlIsComplete` | src/db/records_query.rs:480-520 | Paging the single store returns everything if and only if one page is enough or every row has a time. |
| `SearchFilters.LikeContains` | src/db/records_query.rs:167-178 | The loop builds the escaped value between two percent signs. |
| `SearchFilters.LikeContainsMeansContains` | src/db/records_query.rs:167-178 | SQLite's LIKE with that pattern accepts exactly the texts that contain the value, under the matcher's case folding. |
| `SearchFilters.PrefixRange` | src/db/records_query.rs:228-236 | In code-point order the half-open range holds exactly the texts that start with the value and do not go on with U+10FFFF. |
| `SearchFilters.RangeMeansPrefix` | src/db/records_query.rs:228-245 | The same under the NOCASE collation the query uses. |
| `Aggregate.TablesAreDetermined` | src/db/aggregate.rs:714-812 | The day totals, dimension totals, histograms and distinct sets of a list of rows are unique. |
| `Aggregate.TablesByColumn` | src/db/aggregate.rs:752-800 | A dimension's cell is there exactly if a row of the day has its name in that column, missing and empty reading as Unknown; the lists of distinct values are those of the model and IP columns; each histogram is that of its own column. |
| `Aggregate.BucketsByColumn` | src/db/aggregate.rs:1142-1145 | A measure is counted in the 50 ms bucket it falls into; below zero in the first, from a minute on in the last. |
| `AggregateScan.ObserveRow` | src/db/aggregate.rs:733-805 | Folding one row into the tables cell by cell makes tables that described the rows so far describe one more. |
| `AggregateStore.ScanAfter` | src/db/aggregate.rs:714-812 | The batched scan behind a watermark returns the tables, newest time and last time of exactly the rows behind it, for every batch size. |
| `AggregateStore.Build` | src/db/aggregate.rs:1228-1314 | The full rebuild describes the whole table. |
| `AggregateStore.Rollup.ApplyDeltas` | src/db/aggregate.rs:870-1110 | One transaction merges every touched day and moves the watermark, or changes nothing. |
| `AggregateStore.Rollup.EnsureActive` | src/db/aggregate.rs:814-868 | The whole update -- detection, clearing, scan, merge, early return -- has exactly the effect the predicate states, including rows inserted between its two reads. |
| `AggregateLaws.MergeIsAppend` | src/db/aggregate.rs:870-1087 | Merging the tables of later rows into those of earlier rows gives the tables of all rows: sums, histograms, distinct values and vanished zero cells. |
| `AggregateLaws.IncrementalUpdate` | src/db/aggregate.rs:814-868 | With a watermark that belongs to the file only the rows behind it are scanned, and the tables and the watermark then stand for the whole file. |
| `AggregateLaws.NoticedResetIsRebuilt` | src/db/aggregate.rs:822-868 | Whatever the tables held: if identity, cursor time or highest id tell that the store was replaced, or nothing was recorded, a committed update of a non-empty store leaves the rebuild. |
| `AggregateLaws.KeptTotalsAreRightIff` | src/db/aggregate.rs:822-868 | If none of the three tells it, the rows behind the watermark are added to the kept tables, and the result is right if and only if the kept rows agree with those up to the watermark cell by cell, except for maxima and listed values that later rows cover. |
| `AggregateRuns.StepKeepsInv` | src/db/aggregate.rs:814-868 | Appends, replacements by an empty store with any identity, the same one included, and committed or failed updates keep the invariant between tables, watermark, file and counted rows. |
| `AggregateRuns.RunsKeepInv` | src/db/aggregate.rs:814-868 | In every run the tables describe exactly the rows that were counted since the last start over. |
| `AggregateRuns.RunsAgreeWithTheRebuildIff` | src/db/aggregate.rs:814-868 | In every run of appends, replacements and updates a committed update of a non-empty store leaves the tables of the rebuild if and only if it starts over or the counted rows pass for those up to its watermark. |
| `AggregateRuns.RunsAgreeWithTheRebuild` | src/db/aggregate.rs:814-868 | If an update has started over since the last replacement, the tables are those of the rebuild. |
| `AggregateRuns.ChangedIdentitiesAreNoticed` | src/db/aggregate.rs:822-829 | If every replacement brings another identity than the recorded one, the next committed update of a non-empty store starts over. |
| `AggregateHazards.RacedUpdateCountsAll` | src/db/aggregate.rs:821-868 | Rows inserted between the two reads are counted although the watermark stays below them. |
| `AggregateHazards.RacedRowsAreCountedTwice` | src/db/aggregate.rs:821-868 | The update after a race is right if and only if it notices the changed cursor time or the rows that slipped in belong to no day; otherwise they count twice. |
| `AggregateHazards.CaughtUpIsSound` | src/db/aggregate.rs:562-593 | Past its newest time a synchronised store counts as caught up exactly when no row behind the watermark is that old. |
| `AggregateHazards.EmptyStoreKeepsTheOldWatermark` | src/db/aggregate.rs:848-855 | An update that finds the store empty after a replacement clears the tables and keeps the old watermark. |
| `AggregateHazards.ResetCanGoUnnoticed` | src/db/aggregate.rs:830-855 | A run in which a reset in place is never noticed: the first new row carries the time of the old one, and the totals keep describing the old row. |
| `AggregateHazards.StaleWatermarkHidesRows` | src/db/aggregate.rs:562-593 | Under such a watermark every range counts as caught up; the empty tables are right only if no row belongs to a day. |
| `HistogramBlob.EncodeHistogram` | src/db/aggregate.rs:1147-1153 | The blob is the buckets as consecutive 32-bit little-endian counts. |
| `HistogramBlob.CountsSurvive` | src/db/aggregate.rs:1129-1153 | Each cell of an encoded histogram reads back as its bucket. |
| `HistogramBlob.MergeBlob` | src/db/aggregate.rs:1129-1140 | A blob of the right size adds its counts bucket by bucket to a sparse map and leaves the rest; any other size is refused. |
| `MetricsEngine.BoundsAreDayStarts` | src/db/aggregate.rs:493-509 | The bounds of the whole days are day starts inside the range. |
| `MetricsEngine.BoundsAreWidest` | src/db/aggregate.rs:493-512 | The whole days are as many as fit: no day start of the range lies outside the bounds. |
| `MetricsEngine.DaysAreWhole` | src/db/aggregate.rs:493-509 | An instant lies between two day starts exactly when its day does. |
| `MetricsEngine.PiecesPartitionTheRange` | src/db/aggregate.rs:493-525 | Every instant of the range lies in exactly one piece, a whole day or one correction window, and no piece reaches outside. |
| `MetricsEngine.AccIsTheScan` | src/handlers/metrics_engine.rs:190-209 | A counter record yields the SQL metrics of its rows, with a maximum of at least zero. |
| `MetricsMerge.MergeEntry` | src/handlers/metrics_result.rs:9-23 | One group's metrics are folded into its entry metric by metric. |
| `MetricsMerge.MergeInto` | src/handlers/metrics_result.rs:9-23 | The loop over groups updates the map to the group-wise merge. |
| `MetricsMerge.CombineAssociates` | src/handlers/metrics_cache.rs:21-39 | Saturating addition of non-negative 64-bit counters, real sums and maxima are associative. |
| `MetricsMerge.MergeCommutes` | src/handlers/metrics_result.rs:9-23 | Merging two shards' answers is commutative and keeps them well typed. |
| `MetricsMerge.MergeAssociates` | src/handlers/metrics_result.rs:9-23 | ... and associative. |
| `MetricsMerge.MergeOrderIsInvisible` | src/handlers/metrics_result.rs:9-23 | The merged answer is the same for every order of the shards. |
| `MetricsAnswer.RollupGroups` | src/handlers/metrics_engine.rs:239-305 | The method answers only when a whole day exists, the store may answer for its end (caught up, or a known archive) and the totals can be read, with these totals and one scan per window merged in. |
| `MetricsRollup.SliceIsTheFold` | src/db/aggregate.rs:357-456 | The stored totals of the days in a range, grouped, are the fold over the rows of those days, for exactly the groups that have rows. |
| `MetricsRollup.AdjacentScansMerge` | src/handlers/metrics_engine.rs:280-305 | Scans of two adjacent ranges, merged, are one scan of both. |
| `MetricsRollup.RollupAnswerIsTheScan` | src/handlers/metrics_engine.rs:239-305 | With totals that cover the whole days, totals plus windows equal one scan of the raw rows, for every group and metric. |
| `MetricsRollup.GroupExprIs` | src/handlers/metrics_sql.rs:102-113 | The query's group expression, column by column, gives the value the aggregation counts under. |
| `MetricsRollup.AnswerByColumn` | src/handlers/metrics_sql.rs:102-113 | A scan's answer has a group exactly if a row of the range has its name in the column asked for, with the metrics of all such rows. |
| `MetricsAnswer.CaughtUpAnswersRightIff` | src/db/aggregate.rs:562-593 | Where the check lets a synchronised active store answer, its totals are the groups of the whole days if and only if no row behind the watermark falls into them; a check that had to ask the store is always right. |
| `MetricsAnswer.InOrderOnlyTheLastInstantIsLate` | src/db/aggregate.rs:562-593 | If rows arrive in time order that means: no row behind the watermark lies in the last millisecond of the last day. |
| `MetricsAnswer.NewestTimeHidesLateRows` | src/db/aggregate.rs:574-576 | A row of a past day that arrives after a counted newer row: the check passes on the newest time and the totals lack the row. |
| `MetricsAnswer.ActiveAnswerIsTheScan` | src/handlers/metrics_engine.rs:251-305 | From the check to the answer: for rows in time order and none in that millisecond the answer is one scan of the rows. |
| `MetricsShards.ShardScansMerge` | src/handlers/metrics_result.rs:9-23 | Scans of two shards, merged, are one scan of the rows of both, for every group and metric. |
| `MetricsShards.ShardsAnswerAsOneScan` | src/handlers/metrics_engine.rs:112-163 | Whichever shards answer from totals and whichever by a scan, and in whatever order they are merged, the answer is one scan of the rows of all shards: its groups are the names in the column asked for, each with the metrics of the rows that have it. |
| `MetricsRollup.MaximumAgreesUnlessNegative` | src/handlers/metrics_engine.rs:190-209 | Without the assumption on latencies the maximum agrees if and only if the SQL maximum is not negative. |
| `ConfigManager.ConfigManager.constructor` | src/config/config_manager.rs:34-64 | The configuration is loaded before the fingerprint is taken; a failing stat leaves the placeholder. |
| `ConfigManager.ConfigManager.Commit` | src/config/config_manager.rs:223-233 | Under both locks: nothing if the fingerprint is already applied, else configuration, generation and fingerprint change together. |
| `ConfigManager.ConfigManager.ReloadIfChanged` | src/config/config_manager.rs:197-240 | For every answer of stat and load the effect is that of the run of one idle task alone under the interleaved steps; a stat or load that fails leaves configuration, generation and fingerprint alone. |
| `ConfigManager.ReloadIsARun` | src/config/config_manager.rs:197-240 | That run: stat, check, load and commit, given up where stat or load fails or where the fingerprint is already applied; the file and other tasks stay as they are. |
| `ConfigManager.ReloadKeepsInv` | src/config/config_manager.rs:197-240 | The invariant survives a whole reload, whatever stat and load answer; the fingerprint is replaced only together with the configuration. |
| `ConfigManager.StepKeepsInv` | src/config/config_manager.rs:197-240 | Every step of every interleaving of tasks and file writes keeps the configuration at least as new as the applied fingerprint says. |
| `ConfigManager.RunKeepsInv` | src/config/config_manager.rs:197-240 | So does every run from a clean start. |
| `ConfigManager.FastPathHidesNothing` | src/config/config_manager.rs:212-215 | In every reachable world a fingerprint equal to the file's means the live configuration is the file's content; the generation is one plus the number of swaps, modulo 64 bits. |
| `ConfigRuns.ConsecutiveSwapsDiffer` | src/config/config_manager.rs:223-233 | In every run two consecutive swaps apply different fingerprints. |
| `ConfigRuns.CommitAppliesTheTaken` | src/config/config_manager.rs:197-240 | In every run a commit leaves that version applied which its task took when it last looked at the file, and swaps exactly if another was applied. |
| `ConfigRuns.SwapGoesBackIff` | src/config/config_manager.rs:212-233 | A swap goes back to an older version if and only if the applied version was written after its task looked at the file; then another task swapped such a version in between. |
| `ConfigRuns.AlwaysForwardIff` | src/config/config_manager.rs:192-240 | Over a whole run every swap applies a newer version than the one before if and only if between a task's look and its swap no version written after that look is swapped in. |
| `ConfigRuns.EachVersionAtMostOnce` | src/config/config_manager.rs:192-240 | Under that condition the applied versions strictly increase from swap to swap: each is applied at most once. |
| `ConfigRuns.UninterruptedReloadsGoForward` | src/config/config_manager.rs:197-240 | It holds when no swap falls between any task's look at the file and its own swap. |
| `ConfigManager.QuietReloadConverges` | src/config/config_manager.rs:197-240 | From every reachable state a reload that runs alone makes a loadable file live. |
| `ConfigManager.StartupRace` | src/config/config_manager.rs:34-42 | After a write between load and stat at start-up, later reloads correct the configuration if and only if the versions load alike or the stat failed. |
| `ConfigManager.OlderVersionCanReturn` | src/config/config_manager.rs:192-240 | A run in which the live configuration goes back to an older version and a version is applied twice. |
| `AuditWriter.BuildBatch` | src/db/writer.rs:484-503 | The i-th item becomes record and payload with the i-th id from the start id on. |
| `AuditWriter.WriterTask.constructor` | src/db/writer.rs:130-152 | The writer starts on a store with the next free id and nothing queued. |
| `AuditWriter.WriterTask.FlushWithRetry` | src/db/writer.rs:454-482 | It succeeds if and only if one of the first four attempts commits behind busy ones only; then the store has one record and one payload row more for each item, and else it is unchanged. The counted retries are the leading busy attempts, at most three. |
| `AuditWriter.WriterTask.FlushAndReset` | src/db/writer.rs:415-452 | A batch is committed and the ids move on, or it is dropped and they stay, exactly as the attempts decide; a dropped batch counts once more as failed than its retries. |
| `AuditWriter.LostIff` | src/db/writer.rs:454-482 | A batch is lost exactly if an attempt fails behind busy ones only, or if four attempts are busy. |
| `AuditWriter.InsertedContinues` | src/db/writer.rs:484-503 | Row by row: an insert keeps the rows of both tables and adds a record and a payload for each item under consecutive ids, and nothing else does that. |
| `AuditWriter.NextIdIsFree` | src/db/writer.rs:232-240 | The next id is greater than every id in the store and leaves no gap. |
| `AuditWriter.WriterTask.Fill` | src/db/writer.rs:398-403 | The batch is filled from the front of the queue until it is full or the queue empty, and never beyond its size. |
| `AuditWriter.WriterTask.DrainAndFlush` | src/db/writer.rs:389-413 | The drain runs full batches until a short one or a failure. |
| `AuditWriter.WriterTask.Receive` | src/db/writer.rs:290-306 | A received item joins the batch, and a full batch is flushed. |
| `AuditWriter.WriterTask.Seal` | src/db/writer.rs:331-351 | Drain, checkpoint, let go of the store; any failure keeps it; without a store the answer is success. With one it succeeds if and only if every round gets its batch through and the checkpoint works. |
| `AuditWriter.DrainSucceedsIff` | src/db/writer.rs:389-413 | A drain succeeds if and only if the batch of each of its rounds gets through: one round for each full batch, and one for the rest. |
| `AuditWriter.WriterTask.Resume` | src/db/writer.rs:352-361 | The new store and its next id are taken over together, or nothing changes. |
| `AuditWriter.WriterTask.Reset` | src/db/writer.rs:362-369 | Queue and batch are emptied; the store and the ids start over if the database commits. |
| `WriterRuns.StepKeepsItems` | src/db/writer.rs:164-183 | Every step keeps enqueued = flushed + dropped + queued + batched + waiting + cleared, and the queue order; each item is committed at most once. |
| `WriterRuns.StepKeepsIds` | src/db/writer.rs:232-482 | Every step keeps each store at its base rows plus gap-free ids, record and payload alike, across failed batches, seals, resumes and resets. |
| `WriterRuns.StepKeepsSealedEmpty` | src/db/writer.rs:331-351 | A sealed task has an empty batch. |
| `WriterRuns.SealedTaskWaits` | src/db/writer.rs:254-282 | While sealed, nothing is taken from the queue or written; new items wait behind the old. |
| `WriterRuns.OnlyResumeOpens` | src/db/writer.rs:254-361 | A store is opened only by a resume with it. |
| `WriterRuns.StepKeepsCommitted` | src/db/writer.rs:232-482 | Every step appends to the journal exactly the items it commits, in order. |
| `WriterRuns.StepWritesOrDrops` | src/db/writer.rs:415-482 | A step that hands a batch to the database commits all of it under the next ids, or drops all of it exactly if an attempt fails behind busy ones only or four are busy; no other step writes. |
| `WriterRuns.RunsWriteWhatGetsThrough` | src/db/writer.rs:242-482 | In every world of every run the committed items are those of the batches that got through, in order, and the dropped count is that of the others and of the items that waited too long or came after the end. |
| `WriterRuns.RunsKeepEverything` | src/db/writer.rs:242-482 | In every world of every interleaved run items are conserved and leave in order and at most once; the committed ones are those of the journal, and each store holds its starting rows and then exactly its part of the journal, record and payload alike, under ids without a gap. |
| `WriterRuns.LogsAreInOrder` | src/db/writer.rs:242-482 | Each store's part of the journal keeps the order in which the items were committed. |
| `WriterRuns.SealedStoreStays` | src/db/writer.rs:254-282 | A closed store keeps its rows through every run until it is resumed. |
| `Rotation.ArchiveNamesTellMonths` | src/db/rotation.rs:98-118 | Archives of different months never get the same name, padded and stamped names included. |
| `Rotation.BoundarySplitsMonths` | src/db/rotation.rs:31-46 | A time lies before the stored boundary exactly when its month is not later than the active month, December included. |
| `Rotation.Rotator.constructor` | src/db/rotation.rs:82-89 | The active month is that of the newest row, or of the clock. |
| `Rotation.Rotator.RotateLocked` | src/db/rotation.rs:92-164 | Names, active store, month, boundary and writer state after every outcome of seal, rename, open and resume. |
| `Rotation.Rotator.RotateIfNeeded` | src/db/rotation.rs:185-199 | Both boundary checks; month and boundary stay together, and a record that is not from a later month changes nothing. A call that succeeds leaves the file that was active under the plain or stamped name of the newest row's month if that is over, else of the active month. |
| `Rotation.Rotator.CheckAndRotate` | src/db/rotation.rs:167-182 | Month and boundary stay together; a month of data that is not over becomes the active one while files and writer stay; an older one is archived under the name of that month, and the clock's month follows exactly if that succeeds. |
| `RotationRuns.RunsRotateIff` | src/db/rotation.rs:167-199 | After any calls in any order, a call that can rotate replaces the store if and only if its record is from a month after the active one or the check finds the newest row in a month that is over; any other call leaves files and writer alone. |
| `RotationRuns.RunsNameTheMonth` | src/db/rotation.rs:167-199 | After any calls in any order, a call that replaces the store leaves the archived file under the name of the newest row's month if that is over, else of the active month, and the clock's month becomes the active one. |
| `Rotation.NamesInLetters` | src/db/rotation.rs:98-118 | The two archive names letter by letter: prefix, six digits of year and month, for the stamped one the seconds, suffix. |
| `Rotation.DrainWritesAll` | src/db/writer.rs:389-413 | A drain that reports success has written batch and queue in order under consecutive ids. |
| `Rotation.OtherFilesAreKept` | src/db/rotation.rs:92-164 | Whatever happens in a rotation, every file but the one being written keeps its rows. |
| `Rotation.ArchivesKeepTheirNames` | src/db/rotation.rs:107-118 | A successful rotation leaves every other archive its name if and only if plain and stamped name were not both taken. |
| `Rotation.RotationLosesNothing` | src/db/rotation.rs:120-164 | After the seal everything queued is in the old store; a failed rename goes on with it and its ids, a success starts an empty store at id 1. |
| `Rotation.FailedRotation` | src/db/rotation.rs:120-164 | How a rotation ends that does not succeed: names and store stay before the rename; after it the writer has no store, and the database's name stands for the empty file the opening left, if any. |
| `RotationRuns.OneRotationServesAll` | src/db/rotation.rs:167-199 | After a successful rotation every caller that waited for the lock finds nothing to do, if its record is not from a month after the clock's; nor does a check that finds no row or one of that month. |
| `RotationRuns.ClockBehindRotatesAgain` | src/db/rotation.rs:185-199 | A record from a later month than the clock's crosses the new boundary again, exactly then, and archives the new store. |
| `RotationRuns.StepKeepsInv` | src/db/rotation.rs:92-164 | Every interleaved step of rotation, task and senders keeps the safety invariant. |
| `RotationRuns.OpenStoreIsTheNamedFile` | src/db/rotation.rs:120-164 | In every reachable world the open store is the file under the database's name if and only if the active store has not been archived. |
| `RotationRuns.ActiveIsNotAnArchive` | src/db/rotation.rs:120-164 | Without an opening that fails and leaves a file, the file under the active name is never an archive. |
| `RotationRuns.OpenStoreIsNotAnArchive` | src/db/rotation.rs:120-164 | The open store is never an archive in runs in which every failed rename finds the active store under the database's name. |
| `RotationRuns.ResumeOpensAnArchiveIff` | src/db/rotation.rs:120-164 | A resume that works opens an archive if and only if the rotation came to it by a failed rename while the file under the database's name was not the active store. |
| `RotationRuns.ArchivesNeverChange` | src/db/rotation.rs:120-163 | From its rename on an archived file keeps its rows through every run without such a failed rename, files left behind by failed openings included. |
| `RotationRuns.TheWindowIsQuiet` | src/db/rotation.rs:120-163 | Between the seal and the resume nothing is written anywhere and queued items stay queued. |
| `RotationRuns.FailedOpenIsForever` | src/db/rotation.rs:92-164 | An opening that fails without leaving a file keeps the writer sealed through every later run. |
| `RotationRuns.FailedRenameReopensTheArchive` | src/db/rotation.rs:127-137 | The failing family: after a failed rename the writer resumes with an archive if and only if the file under the database's name is not the active store. |
| `RotationRuns.ArchiveCanBecomeActive` | src/db/rotation.rs:141-162 | From every idle start-up state a run leads there: one rotation whose opening fails and leaves a file. |
| `RotationRuns.StepsAreWriterSteps` | src/db/rotation.rs:92-164 | Each step of the rotation is none or one step of the writer's runs, as the writer sees it. |
| `RotationRuns.RotationsKeepEverything` | src/db/rotation.rs:92-164 | So in every world of every rotation run items are conserved and in order, and every store holds its starting rows and its part of the journal without a gap. |
| `LogPager.Segments` | src/handlers/error_log_api.rs:318-329 | The loop finds the lines of the buffer and whether the last one is unfinished. |
| `LogPager.ReadBack` | src/handlers/error_log_api.rs:295-307 | The backward loop ends with a buffer that reaches the start or holds more than `limit` newlines. |
| `LogPager.ReadTailLines` | src/handlers/error_log_api.rs:284-349 | For every file, chunk size, limit and offset the result is the last `limit` complete lines before it, newest first, and the offset of the oldest. |
| `LogPagerLaws.NextIsABoundary` | src/handlers/error_log_api.rs:343-346 | The offset handed out is smaller than the page's end, a line start, and leaves exactly the lines not yet served. |
| `LogPagerLaws.CrawlServesEveryLine` | src/handlers/error_log_api.rs:284-349 | Following the offsets from the end returns every line of the file once, newest first. |
| `LogPagerLaws.AppendLeavesThePage` | src/handlers/error_log_api.rs:279-349 | A page is unchanged by any later append if and only if it was taken before the end of the file or at a line boundary. |
| `LogLines.ParseDebugString` | src/handlers/error_log_api.rs:83-132 | The loop computes value, consumed length, malformed input and the panic on a backslash before a non-ASCII character. |
| `LogLines.PanicsIff` | src/handlers/error_log_api.rs:83-132 | It panics if and only if a backslash at which the scan begins an escape, with no closing quote before it, is followed by a character of several bytes. |
| `LogLines.NoWideEscapeNoPanic` | src/handlers/error_log_api.rs:83-132 | So an input in which no backslash stands directly before such a character never makes it panic. |
| `LogLines.WideEscapePanics` | src/handlers/error_log_api.rs:83-132 | A quote, a backslash and any such character do, whatever follows. |
| `LogLines.CharRoundTrip` | src/handlers/log_utils.rs:51-60 | Each character printed by `{:?}`, as itself or as an escape, reads back as itself at its printed length. |
| `LogLines.DebugRoundTrip` | src/handlers/log_utils.rs:51-60 | A quoted text followed by anything parses to itself and consumes exactly what was printed. |
| `LogEntries.ParseKvFields` | src/handlers/error_log_api.rs:149-169 | The loop returns the key-value fields, stopping where the format ends. |
| `LogEntries.TruncateError` | src/handlers/error_log_api.rs:64-79 | Walking back to a character boundary cuts at the longest prefix that fits, with notice and size. |
| `LogEntries.LongestFitIsLongest` | src/handlers/error_log_api.rs:64-79 | That prefix fits the cap and one more character would not. |
| `LogEntries.ParseStreamInterrupted` | src/handlers/error_log_api.rs:171-194 | Fields are assigned by key, the last one winning, and the error is capped. |
| `LogLaws.FieldIsReadBack` | src/handlers/error_log_api.rs:149-169 | A field value without leading quote is read back, with the parser at the next field, exactly when it has no whitespace. |
| `LogLaws.BadQuotedField` | src/handlers/error_log_api.rs:155-164 | A quoted value that does not parse ends the fields; one on which the parser panics ends everything. |
| `LogLaws.LineRoundTrip` | src/handlers/log_utils.rs:43-61 | The printed line parses to its time, client, endpoint, model, backend and error; the error is cut exactly when it exceeds the cap. |
| `LogLaws.LineIsOneLine` | src/handlers/log_utils.rs:43-61 | A printed line contains no newline, whatever the error text. |
| `MigrationTables.SameRows` | src/db/migrate_verify.rs:76-117 | A table with as many rows that holds every row of another is that table. |
| `MigrationCopy.RunCopy` | src/db/migrate.rs:285-370 | The batch loop with resume, limit, duplicate keys and failing transactions: from a target that holds the source up to a boundary, column by column, it leaves one that holds it up to a later boundary, with as many more records as it reports. |
| `MigrationCopy.CopyStaysAtBoundary` | src/db/migrate.rs:285-370 | For every batch size, resume point, limit and failure the target holds exactly the records and payloads up to the last copied id. |
| `MigrationCopy.CopyMovesTheBoundary` | src/db/migrate.rs:136-201 | After every run from such a target record i of the target has the id, time, prompt, request tail, answer and remaining columns of record i of the source, its flags or 0 for null, and the joined search text; payloads are the source's; and rows are there exactly up to the last copied id. |
| `MigrationCopy.HoldsUpToIff` | src/db/migrate.rs:136-201 | Only one target holds the source up to an id in this sense: the one the copy leaves. |
| `MigrationCopy.ResumeFindsTheBoundary` | src/db/migrate.rs:275-282 | The highest id of such a target is the boundary it was cut at. |
| `MigrationCopy.CompleteIff` | src/db/migrate.rs:285-370 | A copy of all records is complete if and only if no payload lies behind the last record. |
| `MigrationVerify.Verify` | src/db/migrate_verify.rs:7-133 | Verification passes if and only if payload tables are equal, record counts and time bounds agree, search texts are valid and the index agrees; each other verdict names a difference that is there. |
| `MigrationVerify.BoundsAreTight` | src/db/migrate_verify.rs:14-45 | The compared bounds are the least and the greatest time, and missing only where every time is null. |
| `MigrationVerify.Run` | src/db/migrate.rs:251-390 | A run that only verifies leaves the target alone; any other fails exactly when a batch, the deferred index or the checkpoint fails, keeps what was copied, and verifies exactly when it copied as many rows as the source holds. |
| `MigrationVerify.FreshRun` | src/db/migrate.rs:372-390 | A fresh uninterrupted run copies every record, column by column, and leaves equal payload tables exactly under that condition. |
| `MigrationVerify.ResumedRun` | src/db/migrate.rs:384-390 | A run resumed on any target that holds the source up to a boundary ends with every record, column by column, but never reaches verification, although payloads may be missing under the same condition. |
| `MigrationVerify.RecordsAreOnlyCounted` | src/db/migrate_verify.rs:66-74 | A target that differs in another record column still passes. |
| `BackupPath.UniqueBackupPath` | src/db/mod.rs:98-111 | If one of the candidates with a 32-bit number is free together with its sidecars, the loop ends with the first such. |
| `BackupPath.LoopEndsIff` | src/db/mod.rs:98-111 | The saturating counter ever comes to a free name if and only if one of those candidates is free. |
| `BackupPath.TakersAreMany` | src/db/mod.rs:98-111 | Each taken candidate is taken by a file of its own. |
| `BackupPath.FewFilesLeaveAName` | src/db/mod.rs:98-111 | So with no more files than 32-bit numbers the loop ends. |
| `Cutover.PrepareTarget` | src/db/migrate.rs:670-691 | Only the target's sidecars are touched; it succeeds if and only if they can be inspected, are drained and can be removed, and else names what failed. |
| `Cutover.MoveSidecars` | src/db/migrate.rs:638-655 | The disk is the one after moving exactly the listed sidecars, in order; it gets stuck if and only if one that exists cannot be moved. |
| `Cutover.Undo` | src/db/migrate.rs:644-662 | If every undoing rename works the disk is as before the moves; otherwise only sidecars differ. |
| `Cutover.Swap` | src/db/migrate.rs:633-667 | From the backup on: crash safety, and which result comes from which operations, each in both directions; the replacement is active if and only if backup, moves and rename work, and then only the directory sync can fail. |
| `Cutover.ReplaceActive` | src/db/migrate.rs:603-668 | Crash safety: at every recorded state the active name stands for the whole original or the whole replacement, and from the backup on, before which only its name and the target's sidecars change, the original is also in the backup. The result is decided by files and operations, in both directions: success, the sync error with the replacement active, each other error with the original active. |
| `Cutover.CleanFilesCut` | src/db/migrate.rs:693-701 | Two databases without sidecars and a failing directory sync meet the condition of the error that comes after the replacement. |
| `Cutover.FailedButReplaced` | src/db/migrate.rs:693-701 | There the caller gets the error, and the replacement is active. |
| `Routing.SelectClientsByVoting` | src/client/routing.rs:59-107 | The vote loops and the sort return the ranking function's list. |
| `Routing.BestIsFirstOfHighest` | src/client/routing.rs:66-88 | A key is won by the first client with the highest score. |
| `Routing.WinnerHashesHighest` | src/client/routing.rs:66-88 | Where some client has a priority, the winner has one and none with one hashes higher under key, name and priority; where none has, the first client wins. |
| `Routing.WinnerIsOrderFreeIff` | src/client/routing.rs:66-88 | The winner is the same for every order of the clients if and only if one client beats all others. |
| `Routing.RemovalKeepsOtherKeys` | src/client/routing.rs:66-88 | Removing a client changes no key it had not won. |
| `Routing.RemovalTakesNoVotes` | src/client/routing.rs:90-94 | No remaining client loses a vote by it, and without a won key all votes stay. |
| `Routing.VotingRanks` | src/client/routing.rs:96-106 | The result holds every client once, by votes descending and name ascending. |
| `Routing.VotesAreConserved` | src/client/routing.rs:90-94 | With unique non-empty names the votes add up to the weight of all keys. |
| `Routing.VotingIsOrderFree` | src/client/routing.rs:59-107 | Without ties for first place the result does not depend on the order of the configuration. |
| `Routing.SelectClientsByLeastConnections` | src/client/routing.rs:110-138 | The result holds every client once, by load ascending and name descending. |
| `Routing.LoadsCompare` | src/client/routing.rs:119-127 | Loads compare as open connections across priorities, a missing or zero priority counting as one. |
| `StreamTail.RawBodyTail.Append` | src/handlers/stream_handler.rs:536-548 | The buffer becomes the last 16384 bytes of what it held and the chunk. |
| `StreamTail.RawBodyTail.Capture` | src/handlers/stream_handler.rs:550-573 | For every way of cutting the body the buffer holds its last min(total, 16384) bytes. |
| `StreamTail.LastOfLast` | src/handlers/stream_handler.rs:536-548 | Dropping what is out of reach early changes nothing later. |
| `StreamResponse.StreamOutcome.Mark` | src/handlers/stream_handler.rs:58-65 | Only the first mark has an effect. |
| `StreamResponse.TerminateOnError.PollNext` | src/handlers/stream_handler.rs:639-656 | Nothing is read after the first failure or the end. |
| `StreamResponse.OutcomeSignal.PollNext` | src/handlers/stream_handler.rs:93-106 | A failure and the end mark the outcome, unless it is marked already. |
| `StreamResponse.ClientStream.ReadItem` | src/handlers/stream_handler.rs:801-957 | One upstream item becomes its client events and sets done flag and outcome. |
| `StreamResponse.ClientStream.PollSentinel` | src/handlers/stream_handler.rs:599-611 | The sentinel yields `[DONE]` once, unless the flag is set. |
| `StreamResponse.ClientStream.PollNext` | src/handlers/stream_handler.rs:801-966 | The k-th poll of the composed stream yields the k-th event of the response, and nothing from its end on. |
| `StreamResponse.ResponseShape` | src/handlers/stream_handler.rs:614-657 | With a failure the error chunk is last and only, and nothing behind it is visible; the added `[DONE]` appears exactly when upstream sent neither. |
| `StreamResponse.OneDoneIff` | src/handlers/stream_handler.rs:575-611 | A client sees exactly one `[DONE]` if and only if upstream sent at most one, or one and then failed. |
| `StreamResponse.OutcomeIsDecided` | src/handlers/stream_handler.rs:50-107 | The outcome is that of the first terminal item, or of the end. |
| `StreamResponse.StatusIsDecidedOnce` | src/handlers/stream_handler.rs:110-121 | 502, 200 or 499 by the first terminal event alone, in all cases and both directions. |
| `StreamThinking.ClientReceives` | src/handlers/stream_handler.rs:801-966 | For every stream of deltas, target and ending of the upstream a client receives what the transformer hands on, and its flush only if the upstream ends with `[DONE]`. |
| `StreamThinking.ClientReceivesTheScan` | src/handlers/stream_handler.rs:801-966 | For content fragments and a field format that is the output of the scan of the whole text; what the scan holds back is added only before a `[DONE]`. |
| `StreamThinking.CutsAreInvisible` | src/handlers/stream_handler.rs:801-966 | Two ways of cutting one text into fragments give a client of a field format the same content and reasoning, however the upstream ends. |
| `StreamThinking.ClientReceivesTheDecompositionIff` | src/handlers/stream_handler.rs:801-823 | So the client receives the segments of the text if and only if the upstream ends with `[DONE]` or the scan holds nothing back at its end. |
| `StreamThinking.ClientReceivesThePrintedTextIff` | src/handlers/stream_handler.rs:801-823 | The client of the think-tag target receives the printed text if and only if the upstream ends with `[DONE]` or the block is closed; otherwise exactly the closing tag is missing. |
| `StreamThinking.SilentEndLosesText` | src/handlers/stream_handler.rs:959-966 | For every text without `<`: with a `<` behind it, that character arrives if and only if the upstream ends with `[DONE]`. |
| `StreamFields.DeltaHandsOver` | src/handlers/thinking_transformer.rs:240-284 | For every stream of deltas of a field format: a delta with a reasoning field hands over its own texts and leaves the scanner alone; any other hands over exactly what the scan of all scanned text has more than before it. |
| `StreamFields.NothingIsLost` | src/handlers/thinking_transformer.rs:240-284 | Content and reasoning of the client are made of the scan's output and the texts of the deltas with reasoning fields, character for character, none lost or doubled. |
| `StreamFields.InOrderIff` | src/handlers/thinking_transformer.rs:240-284 | Every delta hands over what a transformer that never lets text overtake would, if and only if no delta with a reasoning field meets held-back text of a field it writes. |
| `StreamFields.ContentOvertakesTheCarry` | src/handlers/thinking_transformer.rs:256-273 | A half tag followed by content that comes with reasoning: the content arrives in front of it. |
| `KeyEncoding.EncodeEffectiveKeys` | src/handlers/model_handler.rs:54-67 | The loop writes count, lengths and bytes as the encoding function says. |
| `KeyEncoding.KeyIsPrefixFree` | src/handlers/model_handler.rs:54-67 | An encoded key followed by anything determines the key and the rest. |
| `KeyEncoding.EncodingIsInjective` | src/handlers/model_handler.rs:54-67 | Two credential lists have the same cache key if and only if they are equal. |

## Left out

- HTTP, SSE parsing, access-line parsing, rendering, the UI and all tracing and gauges: plumbing around libraries.
- The SQL engines: transactions are atomic, ORDER BY, LIMIT, LIKE, MIN, MAX, SUM and COUNT have their standard meaning; the full-text index is a parameter.
- A commit whose outcome is unknown to the caller: the model takes an error from the database as nothing written.
- Floating point: sums, latencies and scores are real numbers; rounding, and with it the order of additions, is not modelled.
- 64-bit overflow of token sums and row counters outside the saturating merge, and of ids: integers are unbounded there.
- Histogram counters above 32 bits: the laws of the totals assume that no bucket overflows.
- Local days and months: a calendar with the named properties; days without a midnight are those the calendar has no value for.
- Columns of audit rows beyond those the listing, the totals, the copy and the verification look at, and JSON members the think-tag code does not touch.
- `String::from_utf8_lossy`: the pager's lines are byte sequences.
- The rewriting of single stream events (prefix, model name, empty choices): in `StreamResponse` any function of the events so far; in `StreamThinking` an event is the text of one delta, and deltas behind a `[DONE]` are not followed further.
- ThinkingMessage.TransformMessage: a function of the message's three text fields; the source edits the JSON object in place.
- MetricsMerge.Combine: a function of two values; the source updates the first one in place.
- Random weighted selection and the dispatch over strategies: only a permutation could be stated.
- Dispatcher, circuit breaker, model cache internals, archive rollup scheduling, caching and expiry of metric answers.
- Legacy row conversion and JSON field extraction: wide but shallow.
- Crash consistency below the file system's rename, link and sync calls.
- AuditWriter.WriterTask.DrainAndFlush: describes a drain during which no sender adds items; interleaved drains are the rounds of `WriterRuns`.
- AuditWriter.WriterTask.Seal: describes a seal during whose drain no sender adds items; interleaved seals are the steps of `WriterRuns`.
- Rotation.Rotator.RotateLocked: describes a rotation without items arriving in between; interleaved rotations are the steps of `RotationRuns`.
- BackupPath.UniqueBackupPath: asks for a free candidate; without one the loop of the source does not end, which is `BackupPath.LoopEndsIff`. Cutover.ReplaceActive asks for the same.
- MetricsRollup.RollupAnswerIsTheScan: assumes that the totals cover the whole days; `MetricsAnswer.ActiveAnswerIsTheScan` derives it from the check of the active store, and for archives the comparison of size and time is a parameter.
- RecordsPaging.CrawlReadsTheListing: assumes a store that does not change between pages and shard names the cursor can carry.
- LogLaws.LineRoundTrip: assumes field values without whitespace and without a leading quote; `LogLaws.FieldIsReadBack` says what happens to others without a quote.
- KeyEncoding.EncodingIsInjective: asks for texts shorter than the largest 64-bit number, which marks a missing key.
