# TinySocs: a verified model

TinySocs is a small security-operations stack. An agent on each host turns event-log records and file changes
into events, spools them in a disk queue, and ships them to OpenSearch; detection rules run over sliding windows;
an orchestrator asks a fleet of nodes for evidence and merges what comes back; decisions go into a hash-chained
ledger. This project models the stateful parts of that stack in Dafny and proves what they keep, over whole runs.

## How it is laid out

| module | subject |
|---|---|
| `Lines` | bytes of a segment file: lines, what a bounded read takes from them |
| `Queue`, `SegmentReader`, `QueueReader`, `QueueWriter`, `Shipper` | the disk queue and the shipper as classes over a directory that other threads change between any two operations |
| `Pipeline`, `Invariants`, `Delivery`, `Exactness`, `Ordering`, `Draining`, `TornSegments`, `TornEnqueue`, `SegmentSizes` | the same as a transition system of atomic steps, and its theorems |
| `Shipping` | what a pass of the shipper's loop does to a line on disk, by the statuses in the answer |
| `PassRefinement` | the shipper's loop is a run of that system, so that its theorems hold of the class |
| `Redelivery` | how often the detection rules see an event whose batch is shipped again |
| `Detection`, `DetectionEngineClass`, `DetectionRefinement`, `DetectionRuns`, `Alerts` | the detection engine, the reference engine without pruning, their agreement, and exactly which alerts a run raises |
| `Evidence`, `Grouping`, `FanOut` | merging evidence, in any grouping; the concurrent fan-out |
| `Ledger`, `RateLimit`, `Replay` | the node's hash chain, rate limiter and replay guard |
| `Fim`, `EventLog`, `Retry`, `RetryRuns`, `RetryOutcomes` | file integrity, event-log polling, notification retries |
| `BulkLines`, `BulkShim` | the bulk request rewriter |
| `Base64Url`, `Licence` | licence tokens, in Python and in C# |
| `Wrappers`, `Powers`, `Text` | options, powers of two, white space |

Imperative code is modelled by classes and loops. Each such method is proved equal to a specification function (or,
where its outcome depends on other threads, to a relation), and the theorems are about runs of that specification.
All input and output, all clocks, all faults and all answers of other systems are inputs of the model: where a write
stops, whether a segment can be read or moved, which files cannot be deleted. A read may return any part of what was
asked for. JSON codecs, hashes and signatures are function parameters; where a law is needed of them (a round trip,
injectivity) it is a precondition.

In the pipeline, an enqueue is a step that opens or rotates a segment, followed by any number of partial writes and
possibly an abort; reading, moving a bad segment away, the server's answer, acknowledging, deleting and crashing
are separate steps, and all of them interleave freely. Time never goes back.

Lemmas to which Dafny would otherwise apply induction by itself carry `{:induction false}`: every induction is
written out.

## What was found

- A segment that ends in a torn line, and is not the newest, stops delivery: no newer segment is ever shipped, after
  any number of restarts, until it is quarantined (`BlockedForever`, `TornSegmentBlocks`). A crash during an enqueue
  leads there from any state (`CrashTears`).
- An enqueue that fails after its first byte was written and before its newline was makes the next event, whose
  enqueue succeeds, unreadable and lost (`TornEnqueueLosesNext`); every other event whose enqueue returned is
  accounted for (`AccountedExactly`).
- A batch is evaluated by the detection rules before it is shipped, and again each time shipping it failed: events then
  count several times towards a threshold (`EvaluatedOnceExactly`), and one event alone can fire any rule
  (`RetriesFire`).
- `ParseBulkResponse` takes an answer without an `errors` field for a success.
- Two rules share a cooldown entry when one id continues another behind a `|`, and an alert is then swallowed
  (`CooldownKeysCollide`, `CollisionSwallowsAlert`, `SeparateIdsNeeded`).
- Merging evidence depends on how the batches are grouped when summaries disagree in kind (`MergeGroupingExactly`).
- A stop anywhere in an append to the ledger, from its first character to the last one of the head, leaves a ledger
  that no later append repairs (`ChainIntactExactly`).
- With the default clock skew a signed message is accepted up to three times (`AcceptedAtMost`, `BoundIsReached`).
- Notifications enqueued while a retry pass is running are overwritten (`OverwrittenExactly`, `OverwritingHappens`);
  32-bit backoff goes negative at the 27th attempt of the default base (`BackoffOverflows`), so that attempts come
  earlier than the exponential schedule (`PromisedExactly`).
- A watcher reports as created a file the baseline already holds, so the journal's "before" is then wrong
  (`HistoryTrueExactly`, `HistoryCanLie`).
- After an event log was cleared, records are skipped unless the newest id is below the bookmark or far enough above
  it (`ClearRecoveredExactly`).
- A bulk body that ends in two empty lines is not rewritten idempotently, an empty source line at the end is
  dropped, and a line that names no action inherits the last one (`IdempotentExactly`, `NotAlwaysIdempotent`,
  `CommutesExactly`, `EscapesExactly`).
- The two licence resolvers disagree on expiry times beyond 64 bits and on empty key ids (`SidesAgreeExactly`), and
  on tokens with stray characters, which only Python skips (`DecodersDifferExactly`, `StrayTokens`). Without a
  configured key the C# side asks for no signature at all (`PaidIsSignedInCSharp`).

## Model

| member | source | states |
|---|---|---|
| `Lines.TakeMeaning` | src/TinySocs.Agent/Shipper/FileQueueReader.cs:405-509 | a bounded read ends at a line boundary, returns exactly the decoded non-blank lines of the bytes it consumed, keeps both budgets, stops only when a budget is used up or no complete fitting line is left, and claims end of file exactly when all was consumed with room to spare |
| `Lines.ReadsCompose` | src/TinySocs.Agent/Shipper/FileQueueReader.cs:405-509 | a read followed by a read from where it stopped is one read with the joined budgets |
| `Lines.LineEndMeaning` | src/TinySocs.Agent/Shipper/FileQueueReader.cs:455-497 | the line cut is at the first newline, and there is none exactly when the bytes hold no newline |
| `Lines.TextsOfConcat` | src/TinySocs.Agent/Shipper/FileQueueReader.cs:518-578 | decoding distributes over concatenation at a line boundary |
| `Lines.LineTextExactly` | src/TinySocs.Agent/Shipper/FileQueueReader.cs:518-578 | exactly which lines are taken for JSON and what of them is kept: what begins, behind a byte order mark, blanks and tabs, with a brace or a bracket; a carriage return at the end goes |
| `SegmentReader.ReadLinesFromOffset` | src/TinySocs.Agent/Shipper/FileQueueReader.cs:405-509 | for any chunking and short reads, and while the file grows, the loop returns what the specification takes from some content the file had during the call |
| `SegmentReader.ScanBuffer` | src/TinySocs.Agent/Shipper/FileQueueReader.cs:455-497 | the byte loop over one buffer extends the scan by exactly the bytes used, and stops early only at a budget; the texts are those of the complete lines scanned |
| `SegmentReader.ScanStops` | src/TinySocs.Agent/Shipper/FileQueueReader.cs:437-470 | whatever bytes follow, a scan that met a budget has already taken all that a read takes |
| `SegmentReader.TryDecodeJsonLine` | src/TinySocs.Agent/Shipper/FileQueueReader.cs:518-578 | a raw line decodes to its text without carriage return and leading junk, or to nothing when blank |
| `QueueReader.FileQueueReader.ReadBatch` | src/TinySocs.Agent/Shipper/FileQueueReader.cs:63-237 | the reader's new state and the events returned are those of reading one state the directory had during the call; the read fails exactly if a segment was chosen that cannot be read, and a poisoned segment is moved away exactly if that does not fail |
| `QueueReader.FileQueueReader.ChooseSegment` | src/TinySocs.Agent/Shipper/FileQueueReader.cs:82-131 | the segment chosen is the first one listed with unread bytes, and every one before it is fully read |
| `QueueReader.FileQueueReader.ParseTexts` | src/TinySocs.Agent/Shipper/FileQueueReader.cs:146-191 | the events are the parseable lines in order, and the segment is poisoned exactly when the run of failures reaches the threshold |
| `Queue.PoisonExactly` | src/TinySocs.Agent/Shipper/FileQueueReader.cs:146-191 | a segment is given up exactly if twenty lines in a row fail to parse, those of earlier reads counted in |
| `QueueReader.FileQueueReader.QuarantineSegment` | src/TinySocs.Agent/Shipper/FileQueueReader.cs:358-394 | a poisoned segment leaves the directory whole and the reader forgets it, unless the move fails; then nothing changes |
| `QueueReader.FileQueueReader.Acknowledge` | src/TinySocs.Agent/Shipper/FileQueueReader.cs:244-277 | the offset moves to the end of the last batch exactly when the count matches it; then exactly the old segments that are fully acknowledged and not stuck go |
| `Queue.CommitsOnce` | src/TinySocs.Agent/Shipper/FileQueueReader.cs:244-277 | a batch is committed once: before the next read nothing can be acknowledged again |
| `QueueReader.FileQueueReader.TryDeleteFullyAckedOldSegments` | src/TinySocs.Agent/Shipper/FileQueueReader.cs:279-356 | what is deleted is exactly the old segments committed to their last byte, but for those that cannot be deleted, which stay with their offsets; never the newest |
| `QueueWriter.FileQueueWriter.Enqueue` | src/TinySocs.Agent/Queue/FileQueueWriter.cs:56-125 | the line goes to the current or a fresh segment; the call fails exactly if a fresh segment's name is taken or the line does not fit the room there is, and then a prefix of the line is on disk and the size is not advanced |
| `QueueWriter.FileQueueWriter.EnsureCurrentSegment` | src/TinySocs.Agent/Queue/FileQueueWriter.cs:127-170 | a fresh segment is the new last file and empty, unless its name is taken |
| `QueueWriter.FileQueueWriter.RotateSegment` | src/TinySocs.Agent/Queue/FileQueueWriter.cs:172-181 | rotation forgets the old segment even when creating the new one fails |
| `QueueWriter.WrittenSoFar` | src/TinySocs.Agent/Queue/FileQueueWriter.cs:86-119 | the two separate appends, JSON and newline, however cut short, add a prefix of the line |
| `SegmentSizes.PrepareExactly` | src/TinySocs.Agent/Queue/FileQueueWriter.cs:56-181 | when a line goes to the current segment, when to a fresh one, and when opening one fails |
| `SegmentSizes.SegmentsStaySmall` | src/TinySocs.Agent/Queue/FileQueueWriter.cs:56-181 | after a restart, in a run without an enqueue that fails half-way, no new segment grows beyond the configured size, or beyond the longest line if that is more |
| `Invariants.InvNext` | src/TinySocs.Agent/Shipper/FileQueueReader.cs:244-356 | every step of writer, reader, server, deletion and crash keeps the pipeline's invariant |
| `Invariants.InvExec` | src/TinySocs.Agent/Shipper/FileQueueReader.cs:244-356 | so does every run |
| `Invariants.EnqueueEvolves` | src/TinySocs.Agent/Queue/FileQueueWriter.cs:127-181 | opening and rotating only add a segment at the end, whose name is above all others |
| `Invariants.WriteEvolves` | src/TinySocs.Agent/Queue/FileQueueWriter.cs:86-119 | a partial write only lengthens the newest segment, at its end |
| `Invariants.ReadBatchOk` | src/TinySocs.Agent/Shipper/FileQueueReader.cs:82-237 | a batch handed over is the next stretch of events of the oldest unread segment |
| `Invariants.KeptLast` | src/TinySocs.Agent/Shipper/FileQueueReader.cs:279-356 | deletion never removes the segment being appended to |
| `Delivery.AtLeastOnce` | src/TinySocs.Agent/Shipper/OpenSearchBulkShipper.cs:204-365 | in every run with crashes, failures and any interleaving, an event whose enqueue found no torn line and returned is past the committed offset of an existing segment, or stands in its own place in an accepted batch, or lies in a quarantined segment |
| `Exactness.AccountedExactly` | src/TinySocs.Agent/Shipper/OpenSearchBulkShipper.cs:204-365 | and in every run an event whose enqueue returned is so accounted for exactly if that enqueue found no torn line at the end of the file |
| `Exactness.GainsExactly` | src/TinySocs.Agent/Queue/FileQueueWriter.cs:66-119 | in every reachable state, completing an enqueue adds exactly its event to those on disk if and only if there was no torn line |
| `Delivery.AcknowledgeAccounts` | src/TinySocs.Agent/Shipper/FileQueueReader.cs:244-277 | moving the offset loses no event: whatever it passes was in the accepted batch |
| `Delivery.SweepAccounts` | src/TinySocs.Agent/Shipper/FileQueueReader.cs:279-356 | deleting segments loses no event that was not accepted |
| `Ordering.InOrder` | src/TinySocs.Agent/Shipper/FileQueueReader.cs:82-125 | after any history and a restart, in a run without quarantine and without an enqueue that fails half-way (one that fails before its first byte is allowed), what was committed followed by what is unread is exactly what was on disk followed by the enqueues since: no gap, repeat or swap |
| `Ordering.StreamExec` | src/TinySocs.Agent/Shipper/FileQueueReader.cs:244-277 | the same conservation from any state, for torn lines too |
| `Ordering.CommitUnread` | src/TinySocs.Agent/Shipper/FileQueueReader.cs:244-277 | committing a batch takes exactly its events from the front of what is unread |
| `Ordering.GainedExactly` | src/TinySocs.Agent/Queue/FileQueueWriter.cs:66-119 | an enqueue behind the torn beginning of an object does not add its event, one on a fresh line does |
| `Draining.RoundProgress` | src/TinySocs.Agent/Shipper/OpenSearchBulkShipper.cs:239-342 | a round of read and acknowledge lowers the unread bytes exactly if the read yields an event or poisons the segment; otherwise nothing moves |
| `Draining.ProgressExactly` | src/TinySocs.Agent/Shipper/OpenSearchBulkShipper.cs:204-365 | over any number of rounds the unread bytes fall at some time exactly if the next read takes a text, event or not, and then within 21 rounds |
| `Draining.Drains` | src/TinySocs.Agent/Shipper/OpenSearchBulkShipper.cs:204-365 | on a well-formed queue the rounds end with nothing unread, and commit everything that was unread, in order |
| `Draining.BlockedWhen` | src/TinySocs.Agent/Shipper/FileQueueReader.cs:437-470 | a torn line, a line longer than a read, or no room each block an old segment |
| `Draining.BlockedForever` | src/TinySocs.Agent/Shipper/FileQueueReader.cs:82-125 | once the oldest unread segment is blocked behind a newer one, nothing is accepted any more, whatever the writer and server do |
| `Draining.TornHeadForever` | src/TinySocs.Agent/Shipper/FileQueueReader.cs:82-125 | if the oldest segment holds no newline and is not the newest, nothing at all is accepted any more, across restarts |
| `Draining.CrashTearsHead` | src/TinySocs.Agent/Queue/FileQueueWriter.cs:86-119 | a crash in the middle of the first write leads there |
| `TornSegments.TornSegmentBlocks` | src/TinySocs.Agent/Shipper/FileQueueReader.cs:82-125 | while any segment that is not the newest ends in an unfinished line, over all steps, crashes and restarts included, it stays in place and no batch of a newer segment is accepted, until it is quarantined |
| `TornSegments.CrashTears` | src/TinySocs.Agent/Queue/FileQueueWriter.cs:86-181 | from every reachable state in which an enqueue is partly written, a crash and the next enqueue leave such a segment |
| `TornEnqueue.TornEnqueueLosesNext` | src/TinySocs.Agent/Queue/FileQueueWriter.cs:86-119 | a run in which an event whose enqueue returned is neither accepted, unread nor quarantined |
| `Shipper.ParseBulkResponse` | src/TinySocs.Agent/Shipper/OpenSearchBulkShipper.cs:724-813 | every operation of an answer with errors is counted exactly once: as transient with status 429 or 500 and above, as permanent if it has an error object or another status from 400 on, else as succeeded; a blank or unreadable answer counts as transient, one without the errors flag as clean |
| `Shipper.OpenSearchBulkShipper.Pass` | src/TinySocs.Agent/Shipper/OpenSearchBulkShipper.cs:204-365 | one loop iteration: the batch is what a read of one directory state hands over; it is acknowledged exactly when the answer is a success without an operation of status 429 or 500 and above, and then the offset stands behind it, all fully committed old segments that can be deleted have gone, and the rest of the directory is still there; otherwise reader and directory are as the read left them |
| `Shipper.OpenSearchBulkShipper.Run` | src/TinySocs.Agent/Shipper/OpenSearchBulkShipper.cs:204-365 | over any sequence of answers and faults there is one pass for each, as specified, each going on from the reader and the directory where the one before ended; the failure count is the number of failures in a row |
| `Shipping.ReadyLineIsRead` | src/TinySocs.Agent/Shipper/OpenSearchBulkShipper.cs:239-342 | if the oldest unread segment can be read and goes on with a parseable line that fits a read, that line is the first event of the batch |
| `Shipping.AskedAgain` | src/TinySocs.Agent/Shipper/OpenSearchBulkShipper.cs:280-342 | when there is no usable answer, or one with an operation of status 429 or 500 and above, nothing is acknowledged: no offset moves and no file goes |
| `Shipping.Taking` | src/TinySocs.Agent/Shipper/OpenSearchBulkShipper.cs:280-342 | when there is a usable answer without such an operation, the batch is acknowledged and the offset stands behind the line |
| `Shipping.SweptAll` | src/TinySocs.Agent/Shipper/FileQueueReader.cs:279-356 | after that no old segment that is fully acknowledged and can be deleted is left |
| `PassRefinement.PassIsRun` | src/TinySocs.Agent/Shipper/OpenSearchBulkShipper.cs:204-365 | whenever the directory is, each time a pass looks at it and when it ends, as writer steps leave it, the pass is the run that interleaves them with one read, reply, acknowledgement and sweep: reader, directory, deletions and accepted batches are the same |
| `PassRefinement.WholePassIsExec` | src/TinySocs.Agent/Shipper/OpenSearchBulkShipper.cs:204-365 | the composition of those steps is a run of the transition system |
| `PassRefinement.AloneExplained` | src/TinySocs.Agent/Shipper/OpenSearchBulkShipper.cs:204-365 | a pass during which nobody else touches the directory is such a run, with no writer steps |
| `PassRefinement.TraceIsRun` | src/TinySocs.Agent/Shipper/OpenSearchBulkShipper.cs:204-365 | so is the whole trace of the loop: it ends in the same reader and directory, and accepts exactly the batches that the passes acknowledged, in order |
| `PassRefinement.ShippedAtLeastOnce` | src/TinySocs.Agent/Shipper/OpenSearchBulkShipper.cs:204-365 | hence of the class: with the reader and the directory it ends with, an event whose enqueue returned is waiting, quarantined, or stood in its own place in an accepted batch, exactly if its enqueue found no torn line |
| `Redelivery.EvaluatedOnceExactly` | src/TinySocs.Agent/Shipper/OpenSearchBulkShipper.cs:239-342 | in any run of the process without quarantine, an acknowledged event was evaluated by the rules at least once, and just once exactly if the first batch that held it was acknowledged |
| `Redelivery.EvaluatedIsCommittedExactly` | src/TinySocs.Agent/Shipper/OpenSearchBulkShipper.cs:239-342 | the rules evaluate exactly the acknowledged events, in order and once each, if and only if no attempt failed |
| `Shipper.BackoffGrows` | src/TinySocs.Agent/Shipper/OpenSearchBulkShipper.cs:832-844 | the first delay is the configured one, every further one is twice the one before, up to the maximum |
| `DetectionEngineClass.DetectionEngine.EvaluateEvent` | src/TinySocs.Agent/Detection/DetectionEngine.cs:54-88 | the class steps as the specification engine does, pruning included |
| `DetectionEngineClass.DetectionEngine.EvaluateThresholdByKey` | src/TinySocs.Agent/Detection/DetectionEngine.cs:188-327 | one rule on one event: new windows, cooldown memory and alert |
| `DetectionEngineClass.DetectionEngine.PruneExpiredWindows` | src/TinySocs.Agent/Detection/DetectionEngine.cs:95-186 | pruning in place is the specification's pruning, for any order of dictionary keys |
| `DetectionRefinement.PruningIsInvisible` | src/TinySocs.Agent/Detection/DetectionEngine.cs:54-327 | for rules with separate ids and a clock that never goes back, the engine emits exactly the alerts of independent single-rule engines that keep the full history |
| `DetectionRefinement.MatchAgrees` | src/TinySocs.Agent/Detection/DetectionEngine.cs:188-327 | one match keeps the agreement with the single engine and gives the same alert |
| `DetectionRefinement.PruneAgrees` | src/TinySocs.Agent/Detection/DetectionEngine.cs:95-186 | a prune pass at any moment keeps the agreement |
| `DetectionRuns.AlertsAreSpaced` | src/TinySocs.Agent/Detection/DetectionEngine.cs:254-275 | over whole runs, alerts of one rule and key are at least the rule's cooldown apart, or its window if it has none, and share no occurrence |
| `Alerts.AlertsExactly` | src/TinySocs.Agent/Detection/DetectionEngine.cs:188-327 | after any run, an event raises an alert of a rule exactly if the rule is enabled and matches it, the matches pending within the rule's window reach the threshold, and no alert of that key was raised within the cooldown; the alert counts exactly those matches and tells the first and last of them |
| `Alerts.PruneExactly` | src/TinySocs.Agent/Detection/DetectionEngine.cs:95-186 | a prune forgets exactly the occurrences older than the window of their rule, the entries left empty, and the cooldowns older than twice the longest one |
| `Alerts.PrunesExactly` | src/TinySocs.Agent/Detection/DetectionEngine.cs:54-88 | exactly every 500th event prunes first |
| `DetectionRuns.WindowsStayBounded` | src/TinySocs.Agent/Detection/DetectionEngine.cs:229-326 | every stored window stays below its rule's threshold |
| `DetectionRuns.CollisionSwallowsAlert` | src/TinySocs.Agent/Detection/DetectionEngine.cs:254-275 | whenever two rules share a cooldown entry, for any ids and keys and in either order, an alert that the reference emits is missing |
| `DetectionRuns.SeparateIdsNeeded` | src/TinySocs.Agent/Detection/DetectionEngine.cs:188-327 | two rules, forming only keys that are not blank, behave as independent engines in all runs exactly if neither id equals or continues the other behind a bar |
| `DetectionRuns.RetriesFire` | src/TinySocs.Agent/Detection/DetectionEngine.cs:188-327 | one recent event evaluated as often as the threshold fires an alert that counts it each time; evaluated less often it fires none |
| `Detection.CooldownKeysCollide` | src/TinySocs.Agent/Detection/DetectionEngine.cs:254-258 | two rule ids can share a cooldown entry, for group keys that are not blank, exactly if they are equal or one continues the other behind a bar |
| `Evidence.JoinAssociative` | src/tinysocs/orchestrator/master.py:430-450 | the recursive union is associative on three values exactly if, wherever two lists or two dicts have something else between them, the last absorbs the first |
| `Evidence.JoinAbsorbs` | src/tinysocs/orchestrator/master.py:430-450 | the union of two values is the later one exactly if that absorbs the earlier, defined by structure: its list contains the items, its dict the keys and recursively their values |
| `Evidence.MergeMeaning` | src/tinysocs/orchestrator/master.py:474-503 | one row for each rule and host, in order of first appearance, with the first window, the largest count, the union of the summaries and the first ten exemplars |
| `Evidence.RowMeaning` | src/tinysocs/orchestrator/master.py:474-503 | a row has the first window, the largest count of all, and the first ten exemplars |
| `Evidence.DedupMeaning` | src/tinysocs/orchestrator/master.py:434-444 | a joined list has no two elements of one key, only elements of the two, and of each key the first |
| `Evidence.MergeOfMerges` | src/tinysocs/orchestrator/master.py:429-503 | merging merged batches is merging everything at once, when summaries agree in kind |
| `Evidence.MergeGrouping` | src/tinysocs/orchestrator/master.py:429-503 | for three pieces of evidence of one key this holds exactly if their summaries can be grouped |
| `Grouping.MergeGroupingExactly` | src/tinysocs/orchestrator/master.py:429-503 | for any batches, merging the merged batches is merging everything at once exactly if, for every rule and host, the result absorbs, path by path, what survives only because values of another kind are hidden within a batch |
| `Grouping.RegroupsExactly` | src/tinysocs/orchestrator/master.py:430-450 | the same for the union of any groups of values behind an earlier one |
| `Grouping.IncrementalMerge` | src/tinysocs/orchestrator/master.py:429-503 | adding evidence to merged evidence piece by piece is always merging everything at once |
| `Evidence.DedupParts` | src/tinysocs/orchestrator/master.py:437-445 | removing repetitions from a part first changes nothing |
| `Evidence.MergeEvidence` | src/tinysocs/orchestrator/master.py:474-503 | the loop over batches computes the merge of their concatenation |
| `FanOut.FanOutAgg` | src/tinysocs/orchestrator/master.py:371-427 | for every schedule that reaches the deadline, waiting ends at the first moment at which nothing is left, the deadline has passed, or one success is enough; a task is answered exactly if it was reported done by then; every node gets one row, its answer or a deadline row, successes first; tasks are cancelled only when that moment is the deadline or, when not waiting for all, after a success |
| `FanOut.RowsNameNodes` | src/tinysocs/orchestrator/master.py:371-427 | so the rows name exactly the nodes asked, with multiplicity |
| `FanOut.RowsTell` | src/tinysocs/orchestrator/master.py:371-427 | every row tells how some node's task ended, with its own verdict, an error, or the deadline, and every task has such a row |
| `Ledger.LedgerFiles.PostAppend` | src/tinysocs/api/node.py:416-431 | one append, stopped after any character of either write or not at all: the files are as specified; it completes exactly if nothing stops it and the head can be read, and then the head describes the new entry |
| `Ledger.LedgerFiles.AppendJsonl` | src/tinysocs/api/node.py:416-431 | a line, or as much of it as was written before a stop, goes to the end of the day's file, behind whatever torn line stands there |
| `Ledger.WrittenText` | src/tinysocs/api/node.py:416-419 | the text on disk is longer by exactly the first n characters of the line and its newline |
| `Ledger.LedgerFiles.WriteHead` | src/tinysocs/api/node.py:416-431 | the head is replaced; a stop leaves a prefix of it, possibly nothing |
| `Ledger.ChainIntactExactly` | src/tinysocs/api/node.py:710-735 | after any run the ledger reads as a valid chain that ends in its head exactly if every append completed or stopped before its first character |
| `Ledger.LedgerRecords` | src/tinysocs/api/node.py:710-735 | reading an intact ledger back gives one entry for each completed request, in order, with its own timestamp, rule, hash and node, its place, and the hash of the entry before |
| `Ledger.CompletedChain` | src/tinysocs/api/node.py:710-735 | the entries of completed appends always form a valid chain, and a readable head describes its end |
| `Ledger.SameHeadSameChain` | src/tinysocs/orchestrator/check_ledger.py:262-305 | two valid chains with the same head are equal, in length and every entry |
| `Ledger.AnchorFixesPrefix` | src/tinysocs/orchestrator/check_ledger.py:262-305 | an anchored hash fixes its position and everything before it |
| `Ledger.TamperingShows` | src/tinysocs/orchestrator/check_ledger.py:262-305 | any change to the entries breaks the chain or its head |
| `RateLimit.RateLimiter.Limit` | src/tinysocs/api/node.py:64-90 | the verdict, the rewritten bucket and the sweep as specified |
| `RateLimit.SweepIsInvisible` | src/tinysocs/api/node.py:55-90 | for every request sequence the verdicts are those of a limiter that keeps every acceptance and never sweeps |
| `RateLimit.AtMostMaxPerWindow` | src/tinysocs/api/node.py:64-90 | at most 100 writes and 200 reads are accepted per client in any minute, anywhere in time |
| `RateLimit.AcceptedExactly` | src/tinysocs/api/node.py:64-90 | after any run a write is let through exactly if fewer than 100 writes of that client were in the minute before, a read if fewer than 200 reads were |
| `RateLimit.SweepsExactly` | src/tinysocs/api/node.py:64-90 | which accepted requests sweep, and which clients are left then |
| `RateLimit.StaysSmall` | src/tinysocs/api/node.py:64-90 | after any run a map holds at most 1000 clients, or only clients active within one minute |
| `Replay.ReplayGuard.VerifyHmac` | src/tinysocs/api/auth.py:92-132 | headers, timestamp, candidate messages, signature, cleaning and cache in the order of the code: the verdict and the cache as specified |
| `Replay.GcIsInvisible` | src/tinysocs/api/auth.py:38-46 | dropping expired entries changes no verdict of any run |
| `Replay.GcExactly` | src/tinysocs/api/auth.py:38-46 | entries are dropped once a minute at most, and exactly those that have expired |
| `Replay.AcceptedAtMost` | src/tinysocs/api/auth.py:92-132 | over any run of any requests, acceptances of one signed message are 300 s apart and at most floor(2 skew / 300) + 1 |
| `Replay.BoundIsReached` | src/tinysocs/api/auth.py:92-132 | and that many do happen, for every request that is signed with the message |
| `Replay.NoReplayExactly` | src/tinysocs/api/auth.py:92-132 | a message is never accepted twice exactly if twice the skew is below the cache time, or no request can be signed with it |
| `Replay.MessageNamesTimestamp` | src/tinysocs/api/auth.py:92-132 | a signed message, of any of the three styles, begins with its timestamp header |
| `Replay.MessageNamesTime` | src/tinysocs/api/auth.py:92-132 | so whatever request is signed with a message, the time that is checked is the one the message names |
| `Replay.StylesExactly` | src/tinysocs/api/auth.py:92-132 | exactly which message a request in time is taken to be signed with: the timestamp, else joined to the nonce by a bar, else by a dot |
| `Replay.AcceptedExactly` | src/tinysocs/api/auth.py:92-132 | after any run, a request is accepted exactly if it is in time, signed, and its message was not accepted in the 300 s before |
| `Fim.JournalFaithful` | src/TinySocs.Agent/Inputs/FileIntegrityInput.cs:429-557 | after any run of handlers, scans and cleanups, replaying the journal on the initial baseline gives the current one |
| `Fim.HistoryTrueExactly` | src/TinySocs.Agent/Inputs/FileIntegrityInput.cs:429-557 | every event's "before" hash is the one the journal itself gives, exactly if no watcher reported as created a file already in the baseline |
| `Fim.HistoryCanLie` | src/TinySocs.Agent/Inputs/FileIntegrityInput.cs:429-441 | a run in which it is not |
| `Fim.DiffReplays` | src/TinySocs.Agent/Inputs/FileIntegrityInput.cs:507-557 | a scan's events turn the old baseline into the new one and tell the truth at every step |
| `Fim.NoticesExactly` | src/TinySocs.Agent/Inputs/FileIntegrityInput.cs:429-474 | what each kind of notice that is handled tells and enters: a change only if the hash is not the one on record, a creation only if the file can be read |
| `Fim.SilentExactly` | src/TinySocs.Agent/Inputs/FileIntegrityInput.cs:507-557 | a scan is silent exactly if every listed file that opens has its baseline hash and every baseline path is listed or present |
| `Fim.SecondScanSilent` | src/TinySocs.Agent/Inputs/FileIntegrityInput.cs:507-557 | a second scan of the same files emits nothing |
| `Fim.FirstScanSilent` | src/TinySocs.Agent/Inputs/FileIntegrityInput.cs:154-189 | nor does the first scan after the baseline was built |
| `Fim.HandledSpaced` | src/TinySocs.Agent/Inputs/FileIntegrityInput.cs:481-501 | two notices handled for one path are at least two seconds apart, however cleanups fall |
| `Fim.HeardExactly` | src/TinySocs.Agent/Inputs/FileIntegrityInput.cs:481-501 | after any run, a notice of a watched path is handled exactly if none of that path was handled in the two seconds before |
| `Fim.FileIntegrityInput.PeriodicScan` | src/TinySocs.Agent/Inputs/FileIntegrityInput.cs:507-557 | for listings with duplicates and files that cannot be read, the scan emits exactly the differences, each path once, and leaves the baseline as on disk |
| `Fim.FileIntegrityInput.InitializeBaseline` | src/TinySocs.Agent/Inputs/FileIntegrityInput.cs:154-189 | the stored baseline, or that of the listed files |
| `Fim.FileIntegrityInput.OnFileRenamed` | src/TinySocs.Agent/Inputs/FileIntegrityInput.cs:463-474 | a rename moves the entry; without a hash the new path keeps what it had |
| `EventLog.EventLogInput.PollChannel` | src/TinySocs.Agent/Inputs/EventLogInput.cs:208-325 | a poll queues, ascending, the newest (at most 200) ids above the bookmark, and moves the bookmark to the newest only when all were queued |
| `EventLog.EventLogInput.Prime` | src/TinySocs.Agent/Inputs/EventLogInput.cs:138-206 | the first pass sets the bookmark to 0 or to the newest id and queues nothing |
| `EventLog.CountAboveMeaning` | src/TinySocs.Agent/Inputs/EventLogInput.cs:262-300 | stopping at the first id not above the bookmark finds exactly those above it |
| `EventLog.PollExactly` | src/TinySocs.Agent/Inputs/EventLogInput.cs:208-325 | exactly which ids a poll queues: those above the bookmark, or all if the newest is below it, of the newest 200; and where it moves the bookmark |
| `EventLog.NothingTwice` | src/TinySocs.Agent/Inputs/EventLogInput.cs:208-325 | between clears the committed ids are strictly ascending over whole runs, with failing polls between, and no clear is suspected |
| `EventLog.CommittedQueued` | src/TinySocs.Agent/Inputs/EventLogInput.cs:208-325 | everything committed was queued, and nothing else but by polls that failed |
| `EventLog.NothingMissedExactly` | src/TinySocs.Agent/Inputs/EventLogInput.cs:208-325 | everything up to the bookmark was committed exactly if no poll found more pending records than 200 or than the log still held |
| `EventLog.ClearRecoveredExactly` | src/TinySocs.Agent/Inputs/EventLogInput.cs:270-296 | after a clear the newest records are all read exactly if the newest id is below the bookmark or none of them is at or below it |
| `EventLog.ClearMissed` | src/TinySocs.Agent/Inputs/EventLogInput.cs:262-268 | a new log whose newest id equals the bookmark is passed over |
| `Retry.PassConserves` | src/TinySocs.Agent/Notification/RetryQueue.cs:111-191 | a pass delivers, discards or keeps each entry, in order |
| `RetryRuns.Accounting` | src/TinySocs.Agent/Notification/RetryQueue.cs:71-191 | after every run, the notifications enqueued are, with multiplicity, those delivered, discarded, in the file and overwritten |
| `RetryRuns.ExactlyOnePlace` | src/TinySocs.Agent/Notification/RetryQueue.cs:71-191 | a notification enqueued once is in exactly one of the four places |
| `RetryRuns.OverwrittenExactly` | src/TinySocs.Agent/Notification/RetryQueue.cs:111-191 | a notification is overwritten exactly if it was enqueued while a pass that had read a non-empty file was running and that pass then rewrote the file |
| `RetryRuns.NothingOverwrittenExactly` | src/TinySocs.Agent/Notification/RetryQueue.cs:111-191 | so a run overwrites nothing exactly if no pass rewrites the file after something was enqueued during it |
| `RetryRuns.OverwritingHappens` | src/TinySocs.Agent/Notification/RetryQueue.cs:111-191 | a run that overwrites one |
| `RetryRuns.AttemptsOnTime` | src/TinySocs.Agent/Notification/RetryQueue.cs:111-180 | for every configuration, stored attempts stay below the maximum, and the n-th attempt comes no earlier than the delays before it add up to after the enqueue and no later than the maximum age |
| `RetryRuns.PromisedExactly` | src/TinySocs.Agent/Notification/RetryQueue.cs:168-170 | that is no earlier than base (2^n - 1) exactly if the last of those delays fits in 32 bits |
| `Retry.WaitedExactly` | src/TinySocs.Agent/Notification/RetryQueue.cs:168-170 | the 32-bit delays add up to at most base (2^n - 1), and to as much exactly if the last fits |
| `RetryRuns.FirstAttemptEarlyExactly` | src/TinySocs.Agent/Notification/RetryQueue.cs:71-84 | measured from the creation time an attempt can be early exactly if the clock moved between its two readings |
| `RetryOutcomes.PassExactly` | src/TinySocs.Agent/Notification/RetryQueue.cs:111-191 | exactly what a pass does with each entry, in order: delivered if due and its attempt succeeds, discarded if too old or failed for the last time, kept with one attempt more and a later time if failed before, kept as it is if not yet due |
| `RetryOutcomes.DeliveredExactly` | src/TinySocs.Agent/Notification/RetryQueue.cs:111-191 | over whole runs, a notification is delivered exactly if some pass found it due and its attempt succeeded, and discarded exactly if some pass found it too old or saw its last attempt fail |
| `Retry.BackoffHonoured` | src/TinySocs.Agent/Notification/RetryQueue.cs:168-170 | for every base and number of failures the 32-bit delay never exceeds the exponential one, and reaches it exactly if that fits |
| `Retry.BackoffOverflows` | src/TinySocs.Agent/Notification/RetryQueue.cs:168-170 | and negative for the default base after 27 failures |
| `Retry.RetryQueue.ProcessQueue` | src/TinySocs.Agent/Notification/RetryQueue.cs:111-191 | the pass leaves what the specification leaves of the entries it read, whatever other threads added meanwhile |
| `BulkShim.RewriteBulkTypeless` | scripts/os_shim.py:89-145 | the loop computes the specified output |
| `BulkShim.CommutesExactly` | scripts/os_shim.py:89-145 | reading the output of a well-formed body gives its items with only their metadata cleaned, sources untouched, exactly if it does not end in an empty source line |
| `BulkShim.CleanMeaning` | scripts/os_shim.py:120-127 | only `_type` and `type` go, only a text `_index` with a wildcard changes, and to the safe index |
| `BulkShim.CleanKeepsOrder` | scripts/os_shim.py:116-127 | the other keys stay in order |
| `BulkShim.HeaderMeaning` | scripts/os_shim.py:100-139 | what becomes of each kind of line where a header is expected, and exactly when the next line is its source: after index, create and update |
| `BulkShim.IdempotentExactly` | scripts/os_shim.py:89-145 | rewriting twice is rewriting once exactly if the body is not three or more lines of which the last two are empty, or blank where a header is expected |
| `BulkShim.NotAlwaysIdempotent` | scripts/os_shim.py:89-145 | three empty lines are an example |
| `BulkShim.EmptyExactly` | scripts/os_shim.py:103-106 | a rewritten line is empty exactly if it was, or was blank where a header is expected |
| `BulkShim.OutputTerminated` | scripts/os_shim.py:141-145 | the output ends in a newline |
| `BulkShim.EscapesExactly` | scripts/os_shim.py:133-139 | the rewriter takes the same lines for headers as the bulk grammar exactly if no line inherits the action of an earlier one |
| `BulkShim.SourcesUntouched` | scripts/os_shim.py:103-145 | every line that is taken for a header is rewritten and every other line is passed on as it is |
| `BulkLines.SplitBlob` | scripts/os_shim.py:96-145 | splitting a joined body gives back its lines, up to one trailing empty one |
| `BulkLines.SplitExactly` | scripts/os_shim.py:96 | a body is split at every newline and every carriage return, the two together counting once, and nothing is lost |
| `Base64Url.RoundTrip` | scripts/licence.py:80-87 | every byte string survives encoding and either decoder |
| `Base64Url.DecodersAgree` | src/TinySocs.Agent/Detection/LicenceReader.cs:137-146 | on texts of digits the decoders agree, and fail exactly on lengths 1 modulo 4 |
| `Base64Url.DecodersDiffer` | scripts/licence.py:84-87 | four digits and a stray character are an example |
| `Base64Url.DecodersDifferExactly` | src/TinySocs.Agent/Detection/LicenceReader.cs:137-146 | on texts without padding and spaces the decoders differ exactly if there is a stray character, all characters are ASCII, and the padding added for the whole length happens to complete the digits |
| `Base64Url.StrictIsLenient` | scripts/licence.py:84-87 | for every text, what the C# decoder accepts the Python decoder reads alike |
| `Licence.TokenRoundTrip` | scripts/licence.py:93-113 | splitting and decoding an issued token returns the signed bytes and the signature |
| `Licence.Refused` | scripts/licence.py:93-174 | exactly the unknown tiers cannot be issued, and nothing resolves to free |
| `Licence.IssuedInPython` | scripts/licence.py:121-174 | an issued token has its tier up to and including the last second of grace, and none after |
| `Licence.IssuedInCSharp` | src/TinySocs.Agent/Detection/LicenceReader.cs:74-130 | the same, except for an expiry beyond 64 bits |
| `Licence.SidesAgreeExactly` | src/TinySocs.Agent/Detection/LicenceReader.cs:74-130 | the two sides give an issued token the same tier exactly if it is free, past grace, or its expiry fits 64 bits and its key id is not empty (or neither) |
| `Licence.PaidIsSigned` | scripts/licence.py:121-174 | for every token at all, trimmed and decoded as Python does it, the Python side gives a paid tier exactly if the token's own second part is a signature, by the key its payload names, over the payload's contents, and these grant the tier at that time |
| `Licence.PaidIsSignedInCSharp` | src/TinySocs.Agent/Detection/LicenceReader.cs:74-130 | for every token at all, trimmed and decoded as .NET does it, the C# side gives a paid tier exactly if the second part is a signature by the configured key over the payload's bytes, or no key is configured, the expiry fits 64 bits, and the payload grants the tier |
| `Licence.PartsAgree` | src/TinySocs.Agent/Detection/LicenceReader.cs:74-146 | for every token, the parts the C# side reads, if it can, are those the Python side reads, white space included |
| `Licence.PaidInPythonToo` | src/TinySocs.Agent/Detection/LicenceReader.cs:74-130 | a token paid on the C# side is paid on the Python side exactly if the same signature holds over the payload's contents by the key it names |
| `Licence.CanonicalTokensAgree` | src/TinySocs.Agent/Detection/LicenceReader.cs:74-130 | for payloads in canonical form that name the configured key, the C# side gives a paid tier exactly if the Python side does, the parts decode strictly and the expiry fits 64 bits |
| `Licence.StrayTokens` | scripts/licence.py:121-174 | every issued token with four stray characters in front keeps its Python verdict and has no tier in C# |

## Left out

- Evidence.MergeOfMerges: is stated for summaries that agree in kind; `MergeGroupingExactly` has the exact condition.
- Base64Url.DecodersDifferExactly: for texts that hold padding or spaces, `StrictIsLenient` says that only the strict decoder can refuse more; the characters on which it does are not described.
- PassRefinement.PassIsRun: speaks of other threads that take writer steps, as do the results that rest on it; the classes allow them more than that.
- Redelivery.EvaluatedOnceExactly: speaks of runs without quarantine, within which places in the stream keep their meaning.
- Licence.SidesAgreeExactly: both sides read the same clock value, within the range of 64-bit seconds.
- Cancellation inside the byte loop, and errors from listing or measuring files; read errors, failed deletions and failed moves are modelled. What fails during a call is fixed when it begins.
- UTF-8: segment text and bulk bodies are kept as bytes; text encoders and JSON parsers are function parameters.
- The matching of event fields by rules (a rule's key function is a parameter), rule hot-reload, and rule kinds other than threshold by key.
- Segments deleted by other programs, clocks that go back, and the unused segment retention limit.
- Overlapping retry passes and I/O failures of the retry file.
- Several workers sharing one ledger, replay cache or rate limiter.
- Interleavings inside one watcher handler or one scan, failed saves of the baseline, and `ReBaseline`.
- The direct alert for event 1102, and cancellation between the records of a poll.
- Clock readings of the Python resolver that fall on both sides of an edge: it reads the clock twice.
- HTTP, SMTP, TLS, OpenSearch queries, Windows event calls, the cryptography itself, prompts, reports, dashboards, configuration: calls to other systems or text assembly.
- Schema validation and tier tables: they decide each call by itself and hold no state over runs.
- The threat cache and feed storage: look-ups by key in files that other programs write.
