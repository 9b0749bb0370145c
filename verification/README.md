# ddi under restart, concurrent writers and shared tables

`ddi` streams Delta tables and Kafka topics into Delta tables. What makes it correct is not what one
batch does but what survives when a process dies between two commits, when another engine writes to
the same table, and when a rebuild overwrites a target behind its back. This project models the five
pieces of the program that decide that, over an abstract Delta table, and proves what they promise
over every log, every run and every interleaving.

| part | modules | source |
|---|---|---|
| Partitioned offset fence | `OffsetNames`, `OffsetLog`, `Checkpoints`, `OffsetRead`, `Fence`, `FenceProtocol`, `FenceRuns`, `Takeover` | `src/fence.rs`, `src/kafka/start.rs` |
| Coverage handover | `Bounds`, `PartitionKey`, `Watermark`, `Coverage`, `Handover`, `FileCoverage`, `Rescan`, `CutoffRecord` | `src/dedup.rs`, `src/stats.rs`, `src/pipeline.rs` |
| Guarded compaction | `TableRows`, `Compaction` | `src/compact.rs` |
| Data-quality writes | `Rejects`, `KafkaRejects` | `src/dq.rs` |
| Fleet resolver | `Staging`, `Fleet`, `FleetSafety`, `FleetRuns` | `src/config.rs`, `src/stage.rs` |

Code that updates state step by step is imperative here: the fence, its memory of what lies below a
checkpoint, the log stores, the probe, the partition-text cache and the data-quality table are classes
whose methods are proved against relations or functions on their old and new state; the scans, walks
and resolver passes are loops proved against declarative specifications. The protocols are state
machines whose steps use those same relations, and the main theorems are about all their runs. The
standard the log follows is the Delta Transaction Log Protocol, sections "Transaction Identifiers",
"Add File and Remove File", "Checkpoints" and "Action Reconciliation"; strings are escaped as in
section 7 of RFC 8259.

## Hypotheses

- A writer's handle moves only by its own commits and by refreshes, each followed by a reset; a batch's
  range starts at the offset after its base, or at the chosen start when there is none (for a batch that
  begins where its partitions start, `Takeover.StartsReadOn` shows it); Kafka numbers
  partitions from 0; a readable checkpoint and the kernel give the true state.
- Only `FenceRuns.ForgottenNeverAsserted` asks that a partition be given up between commits, as
  `src/kafka/rebalance.rs:231-264` does; the other theorems of the fence allow it at any time.
- delta-rs refuses a commit when one after its snapshot wrote a `txn` under an appId it writes too, and
  otherwise rebases it (`src/fence.rs:20-26`); it never puts a version past the next.
- In a coverage window timestamps do not fall in arrival order, per partition in the partitioned form;
  rows of one partition and instant have distinct keys, none null, and where no key is configured no two
  share an instant. What fills the target reads a prefix of the source's rows, and the pipeline starts to
  read at or before its end.
- A source's rows are those its plain appends delivered. A RESTORE is read as data too
  (`src/source/log_stream.rs:783-807`), and delivers the rows it re-adds a second time: a source with one
  breaks the ordering above and is not such a source.
- Only `Handover.HandoverIsExact`, part of `Handover.ClosingIsSafe`, and the "exactly once" of the two
  theorems that compose it with a rescan ask that a head a window opens against be no older than what
  the rebuild read (`HeadCoversTheRebuild`). `Handover.HandoverLosesNothing` and
  `Handover.ExactlyOnceIff` ask nothing of the heads.
- Statistics soundly describe their file: counts are exact, and a minimum or maximum may be truncated
  text, a truncated timestamp or a number near the value, within the slack.
- One guard serves one compaction and its retries; a compaction's new files have new names.
- An acknowledged write landed, a refused one did not, and a write id is used once. Rejects follow from a
  batch's last source version (`src/dq.rs:45-51`) where `Rejects.RejectsAreNeverLost` says so.

## Where the code and what is said of it differ

Each is a lemma below, with the condition under which the claim does hold.

- The single cut-off's rescan bound compares text with plain `<`, where the partitioned one asks for
  provably below: a maximum cut short loses a row (`Rescan.TruncatedTextLosesARow`). It also stops at a
  DELETE's rewrite of old files, which the partitioned one walks past (`Rescan.RewriteLosesARow`). Its
  answer is sound exactly as `Rescan.WalkIsSoundIff` says.
- With no key, a row tied with its partition's newest covered one is dropped
  (`Coverage.WithoutAKeyTiesAreDropped`). A window closed at a head older than what the rebuild read writes
  the rows in between twice (`Handover.AnOlderHeadWritesARowTwice`, `Handover.ExactlyOnceIff`). Both are
  documented.
- "Only a third party trips" the stage check: a staged pipeline whose own name ends in `__ingest` trips
  it too (`FleetSafety.PairUsesItsStageIff`), and a third party that writes the stage last is taken for its
  owner, so the pair is held back in its place (`FleetSafety.ALaterWriterTakesTheStage`). A stage can have
  two running writers, and one no pipeline writes two running readers, exactly as
  `FleetSafety.TwoWritersRunIff` and `FleetSafety.TwoReadersRunIff` say.
- An explicit empty column list beside an unpartitioned reason reads as a window, though nothing writes it
  (`CutoffRecord.ReadsAsExactly`).
- A `txn` name collides with another's only where a partition is negative (`OffsetNames.TxnAppIdsCollide`).
- "Only pipelines that could actually publish contest a group" (`src/config.rs:1527-1529`): one that asks
  for near-time publishing beside lookups, for another hub, with publish SQL that is not valid, or that is
  held back altogether, contests it too (`FleetSafety.RivalCouldNotIff`), and takes a healthy neighbour's
  publication (`FleetSafety.ASilentRivalTakesAGroup`). Of a pipeline that could publish, the claim holds
  exactly as `FleetSafety.OnlyPublishersContestIff` says.

## Model

| member | source | states |
|---|---|---|
| OffsetNames.TxnAppIdsCollide | src/fence.rs:77-79 | two partitions' offsets share an appId only for the same app_id and partition, or where a negative number's sign doubles as the other app_id's last dash |
| OffsetNames.PartitionOfInverts | src/fence.rs:137-143 | a name gives its partition back, exactly for partitions from 0 |
| OffsetNames.PartitionOfReads | src/fence.rs:137-143 | what reads as a partition of an app_id is that app_id, a dash and digits of a 32-bit number, and nothing else |
| OffsetNames.MarkerIsNoOffset | src/fence.rs:124-134 | the takeover marker is no partition's name, of any app_id, and one per app_id |
| OffsetNames.NamesAsWritten | src/fence.rs:77-134 | the names as the log spells them, a partition of one digit and of two |
| Basics.IntTextInjective | src/dedup.rs:1587-1594 | two integers' texts are one only if they are one integer, so a text names its partition |
| Checkpoints.FullHouse | src/fence.rs:965-968 | as many distinct part numbers as a set has parts are all of its parts |
| Checkpoints.HasCheckpointIff | src/fence.rs:935-996 | a version has a complete checkpoint if and only if a well-named file of it, not empty, is a whole one, or files of one count of parts hold every part |
| Checkpoints.Complete | src/fence.rs:969-996 | a complete checkpoint among one version's files if and only if there is one: a whole file, or every part in order |
| Checkpoints.CheckpointBetween | src/fence.rs:941-962 | the newest complete checkpoint of a range of versions, and none if it has none |
| Checkpoints.NewestCheckpoint | src/fence.rs:897-913 | the newest complete checkpoint at or below the handle's version whatever `_last_checkpoint` hints |
| OffsetRead.RecordCommit | src/fence.rs:767-810 | a commit adds just the wanted appIds nothing newer answered, each with the mark that describes its offset, and fails only on a line that does not parse |
| OffsetRead.ReadTxns | src/fence.rs:424-578 | for any log, checkpoints, hint and lost commits, the answer is each appId's newest `txn` at the handle's version, or an error. Of a mark: one given was recorded, and one the newest commit naming the appId records is given where that commit is met by the walk, or is among the 256 below the checkpoint with nothing unreadable in between, unless the memory already holds otherwise. No error when every commit can be read, but for those cleaned up at or below a complete checkpoint, and the checkpoints or else the kernel can |
| OffsetLog.MarkForIff | src/fence.rs:805-830 | a mark is found beside a partition's `txn` if and only if the commit is of that very app_id, records it under that partition's number, and it names that very offset |
| OffsetRead.CommitSaysTheLast | src/fence.rs:774-809 | of two `txn` lines of one appId in a commit the last counts, and a commit says nothing of an appId it has no line for |
| OffsetRead.CommitInfoIsTheLast | src/fence.rs:787-796 | of two `commitInfo` lines the last counts |
| OffsetRead.Commits | src/fence.rs:481-556 | what the walk has read when it stops, by checkpoint or by having all, leaves nothing newer unread; it refuses a gap |
| OffsetRead.Bottom | src/fence.rs:556-577 | what a checkpoint, or the kernel behind it, answers is the newest `txn` for every appId the walk did not meet |
| OffsetRead.WalkBelow | src/fence.rs:620-684 | below a checkpoint at most 256 commits are read, each mark is what the newest usable commit naming the appId says, and the walk ends at the first gap |
| OffsetRead.BelowCheckpoint.Read | src/fence.rs:583-684 | the memory of one checkpoint gives the answer its first walk gave, reads nothing for what it knows, and holds only marks some commit recorded |
| OffsetRead.BelowMarkIsRecorded | src/fence.rs:805-830 | a mark found below a checkpoint was recorded beside that very offset by a ddi commit |
| OffsetRead.CleanupOnlyLosesMarks | src/fence.rs:405-420 | log cleanup between two reads can lose a mark and never changes one |
| Fence.Fence.Reset | src/fence.rs:1279-1326 | after a reset the fence owns exactly these partitions, all carried at what the handle's version holds, each with the mark the newest commit naming it records where that is read, and fails, trusting nothing, exactly as each failure does |
| Fence.VanishedFromIff | src/fence.rs:1296-1314 | a partition stops a reset as vanished, and is named, if and only if it is owned, was held with an offset, and the log at that version names none |
| Fence.Fence.Verify | src/fence.rs:1335-1390 | it passes only when each batch partition holds at the handle's version the offset the fence has for it, and otherwise says which does not |
| Fence.Fence.AssertMap | src/fence.rs:1399-1428 | a partition is asserted if and only if it is in the batch, at its last offset, or is carried with a known offset, at that; the mark beside it is the batch's or the held one, exactly where that names the offset asserted |
| Fence.Fence.Committed | src/fence.rs:1434-1451 | of what is still owned, what landed is held at the offset asserted, with the mark that names it, and is all that is carried; the rest is held as it was, and a written marker stays written |
| Fence.Fence.Forget | src/fence.rs:1455-1458 | a revoked partition is neither held nor carried, and nothing else changes |
| Fence.PartitionsHaveTheirOwnNames | src/fence.rs:77-134 | one app_id's partitions and its marker never share an appId, of any number |
| FenceProtocol.CanBeCarried | src/fence.rs:1399-1428 | every set of asserted Kafka partitions and marks can be written as one commit that reads back as it |
| FenceProtocol.StepKeepsInv | src/fence.rs:1279-1458 | every step of any member, landings taken for lost among them, and any other writer's commit, keeps what each fence carries and every mark it holds true |
| FenceProtocol.RunKeepsInv | src/fence.rs:1279-1458 | the same in every reachable state, of any number of members |
| FenceProtocol.LandMovesOnlyItsBatch | src/fence.rs:16-26 | a commit the log takes moves its batch's partitions from the offsets they were read from to the last it read, moves no other, and leaves the marker there |
| FenceProtocol.FencedCompareAndSwap | src/fence.rs:1335-1428 | in every interleaving, each batch partition's stored offset immediately before a commit lands, acknowledged or not, equals that fence's base |
| FenceRuns.DeliveredOnceInOrder | src/fence.rs:1279-1458 | with fenced writers, whose landings may be taken for lost, each partition's rows in the table are one gap-free run of offsets without a duplicate, ending at the stored one |
| FenceRuns.MarkerWrittenOnce | src/fence.rs:1227-1249 | over every run at most one commit writes the takeover marker, and a table holding a fenced commit holds it |
| FenceRuns.ForgottenNeverAsserted | src/fence.rs:1452-1458 | the appId of a partition forgotten between commits is in no commit of that member that lands until it owns it again |
| FenceRuns.CarriedIsInTheCommit | src/fence.rs:1391-1428 | over every run, the commit a member lands names each partition it carried with an offset when it built that commit |
| FenceRuns.OwnedStaysCarried | src/fence.rs:1391-1397 | over every run, a partition reset with an offset stays carried with one, through every landing of its member, acknowledged or not, until it is forgotten, reset away or a reset fails |
| FenceRuns.AcknowledgedIsHeld | src/fence.rs:1434-1451 | an acknowledged landing leaves each asserted partition still owned carried at that offset, with the mark asserted beside it |
| FenceRuns.LandedMarksAreRecorded | src/fence.rs:1393-1397 | over every run, each mark a member asserts is recorded in the commit it lands, which is then the newest to name that partition |
| FenceRuns.DisjointMembersCommute | src/fence.rs:162-174 | in any reachable state after the marker, two members' commits of disjoint partitions each still land after the other, and both orders end with the same offsets and the same fences |
| FenceRuns.SharedPartitionRefuses | src/fence.rs:20-26 | two commits conflict if and only if they share an asserted partition or both write the marker |
| Takeover.EraIsExact | src/fence.rs:160-174 | the era is ddi's exactly when the marker is in the table, and kafka-delta-ingest's exactly when only a partition's offset is |
| Takeover.EraStaysDdi | src/fence.rs:160-174 | ddi's era never ends, whatever is committed |
| Takeover.TakeoverNeverRereads | src/fence.rs:207-304 | after a check that passes and its baseline, removing every config entry starts each partition where it started with them; one without an offset was empty or acknowledged at 0 |
| Takeover.StartIs | src/kafka/start.rs:39-87 | a partition delivers from the offset after its stored one where that is at or above the low watermark and the stored one is below the high, or the two meet at the low; from its entry within the watermarks, or 0 where the topic still starts there, when none is stored; and is blocked in exactly the other cases, each for its reason |
| Takeover.StartsReadOn | src/fence.rs:1335-1390 | a batch that begins where its partitions start begins after each stored offset: what the theorems over runs ask of one |
| Takeover.CheckPassesIffAccounted | src/fence.rs:207-275 | the check passes if and only if, once the baseline it leads to has landed, every partition has an offset, was empty, or was acknowledged at 0 |
| Takeover.FreshNeverRereads | src/kafka/start.rs:89-143 | of a fresh app_id and any policy, with its baseline landed and every entry removed each partition starts where the policy said; on a table with rows, one left without an offset was empty or acknowledged at 0 |
| Takeover.FreshStartsAre | src/kafka/start.rs:89-131 | a fresh app_id starts each partition at its entry, or else at the low or the high watermark as the policy or its rest names, and is refused exactly where an explicit policy without a rest leaves one out |
| Takeover.BaselineIsAStep | src/fence.rs:241-275 | what the baseline asserts in kafka-delta-ingest's era is a step of the fence protocol: every stored offset as it is, the marker absent |
| Bounds.ProvablyBelowIsExact | src/stats.rs:58-75 | a truncated text is provably below another if and only if everything it can stand for is |
| Bounds.MaxBelowMark | src/stats.rs:169-195 | a maximum whose highest reading is provably below a mark's bound stands for a value below the mark |
| Bounds.MinAboveMark | src/stats.rs:169-195 | a minimum whose lowest reading is above a mark's bound stands for a value above the mark |
| Bounds.PlainlyBelowMayLie | src/dedup.rs:1190 | of a truncated text, plain `<` does not show as much |
| Bounds.ReadingsAreTight | src/stats.rs:173-193 | the highest and lowest readings are no wider than they need be: a whole number of milliseconds reaches just the last microsecond it may stand for, an exact value itself |
| Bounds.NumbersCompareDirectly | src/stats.rs:69-75 | of numbers, provably below is just below |
| PartitionKey.QuotedReadsBack | src/dedup.rs:814-821 | a JSON string reads back as what was escaped, whatever it holds and whatever follows it |
| PartitionKey.PartitionTextIsInjective | src/dedup.rs:814-821 | no two tuples of the same columns share a text |
| PartitionKey.TextsAsWritten | src/dedup.rs:814-821 | one column's text is its value and two columns' is a JSON array of two strings, spelled out for plain values |
| PartitionKey.EscapesAsWritten | src/dedup.rs:814-821 | each escape a JSON string has, spelled out |
| PartitionKey.DistinctTuples | src/dedup.rs:787-812 | each text once, and every row without a null at the text of its own tuple, in 32-bit places |
| PartitionKey.PartitionTexts.With | src/dedup.rs:768-782 | a row's partition is its own tuple's text, on the first lookup and on every later one |
| Watermark.ReadBounded | src/dedup.rs:202-416 | one pass gives per partition the maximum non-null timestamp and exactly the non-null keys tied at it, and fails if and only if there are more partitions than the limit |
| Watermark.OnlyTheRowsMatter | src/dedup.rs:248-371 | the cut-off is that of the rows alone: not of their order, batches or repeats |
| Coverage.GlobalIsOnePartition | src/dedup.rs:476-520 | the single cut-off keeps and drops what the partitioned one would with no partition columns |
| Coverage.FilterSplits | src/dedup.rs:476-541 | kept and dropped make up the batch, `covered` counts the dropped, and `beyond` never exceeds the kept |
| Coverage.FilterKeepsTheUncovered | src/dedup.rs:543-600 | what is kept is exactly what the row's own partition's mark does not cover |
| Coverage.VerdictsAreOfTheTarget | src/dedup.rs:543-600 | of a row against the target itself: it is beyond if and only if its partition holds nothing as new, and covered if and only if the partition holds something newer, or the same instant is the newest and its key stands there or, without keys, ties count |
| Coverage.BeyondIsSomeRow | src/dedup.rs:552-600 | `beyond` is above 0, which is what closes a window, if and only if some row of the batch is past its mark or in a partition the target lacks |
| Coverage.CoversExactlyThePrefix | src/dedup.rs:7-34 | the marks of a prefix of an ordered source cover exactly that prefix, and no row past a mark is in it |
| Coverage.WithoutAKeyTiesAreDropped | src/dedup.rs:31-33 | with no key a row is covered if and only if it is in the prefix or shares its partition and instant with one that is |
| Coverage.RestartInsideAWindowIsStable | src/dedup.rs:922-932 | a batch that leaves its window open adds rows at their own marks only, so reading the target again gives the same marks with the delivered keys added, whatever the source's order |
| Coverage.SameVerdictAfterwards | src/dedup.rs:543-600 | with marks so grown, the verdict changes for the delivered keys and for no other row |
| Handover.StepKeepsInv | src/pipeline.rs:925-1000 | every batch, reopen and skip, against whatever heads, keeps the target at what the rebuild read or what has been read since, and what was written again after the window closed |
| Handover.HandoverLosesNothing | src/dedup.rs:45-58 | from any unknown prefix, with a key or on a source without ties, in every run of batches, crashes and reopens against any heads, the target holds every row read by the rebuild or since, and again exactly those the rebuild had that were read after the window closed |
| Handover.ExactlyOnceIff | src/dedup.rs:50-55 | the source read to its end, each row is there once if and only if the head of the newest window is no older than what the rebuild read, or reading started at the rebuild's end |
| Handover.HandoverIsExact | src/dedup.rs:45-58 | where every head a reopen takes covers what the rebuild read, each row is there once at every moment of every such run |
| Handover.ClosingIsSafe | src/pipeline.rs:2475-2483 | with no window open, after a newer row closed it or where the heads cover the rebuild, no row still to be read is one the rebuild read |
| Handover.BatchClosesIff | src/pipeline.rs:982-1000 | a batch filtered by marks ends its window if and only if it read a row beyond them or went past the head, and otherwise records it |
| Handover.AnOlderHeadWritesARowTwice | src/dedup.rs:50-55 | a run whose head is older than the rebuild, and the row it writes twice |
| Handover.PastTheHead | src/pipeline.rs:2447-2477 | past a head, or with no rows left up to it, every row of its versions is behind the cursor |
| FileCoverage.HighestOf | src/dedup.rs:1453-1470 | the highest of the marks' bounds, and none if there is no mark or one has no bound |
| FileCoverage.VerdictsAgreeWithRows | src/dedup.rs:1493-1585 | Covered means every row is covered by its own mark even with ties off, Uncovered means some row is not even with ties on, mixed partitions and nulls included |
| FileCoverage.PartitionValueIsTrue | src/dedup.rs:1515-1540 | a partition known from the log or from an integer minimum that equals its maximum is every row's own |
| FileCoverage.StatisticsSettle | src/dedup.rs:1493-1585 | statistics do settle a file of one known partition: unmarked or with a null timestamp it is uncovered, with its highest reading below the mark covered, with its lowest above it uncovered |
| FileCoverage.MixedFilesSettle | src/dedup.rs:1493-1585 | a file of several partitions is uncovered where its lowest reading is above every mark |
| FileCoverage.StatisticsRead | src/stats.rs:270-282 | which statistics read as a bound of each kind: whole numbers and timestamps as microseconds, any number as a double, text as text, and nothing else |
| FileCoverage.Probe.ReadFile | src/dedup.rs:1608-1752 | reading a file says whether every row is covered, and costs one of the budget; nothing once it is spent |
| FileCoverage.CommitIsCovered | src/dedup.rs:1428-1437 | covered if and only if every file is and one of them holds a row |
| FileCoverage.CommitCoverage | src/dedup.rs:1368-1413 | yes means every row of the commit is covered and there is one; no, when all files can be read, means not; no answer means the budget is spent |
| Rescan.BoundedRescanStartPartitioned | src/dedup.rs:1263-1349 | never below the fallback, past it only after a plain append that is wholly covered, the newest that can be read and is; and past any such append that neither limit nor the log keeps it from |
| Rescan.PartitionedStartIsSound | src/dedup.rs:1225-1262 | every row before the returned version was read by whatever filled the target |
| Rescan.ProvesIff | src/dedup.rs:1351-1437 | a commit proves coverage if and only if it removes nothing, is no RESTORE, every row it appends is covered with ties off, and it appends one |
| Rescan.RescanThenFilterIsExact | src/dedup.rs:1208-1223 | reading from the returned version and filtering while the window is open leaves every source row in the target, and exactly once where the heads cover the rebuild |
| Rescan.StartIsSoundIff | src/dedup.rs:1076-1105 | a start loses nothing if and only if the newest row before it is one the filter would drop |
| Rescan.ReadCommit | src/dedup.rs:1146-1188 | a commit is below the watermark if and only if every file's highest maximum is, and says nothing without statistics or data |
| Rescan.BoundedRescanStart | src/dedup.rs:1106-1199 | the single cut-off's walk, from head to fallback, as a function of the log |
| Rescan.WalkStopsWhereItMay | src/dedup.rs:1137-1199 | it never returns a version below the fallback, and one past it only where a commit's maxima are all below the watermark |
| Rescan.WalkAnswersIff | src/dedup.rs:1133-1199 | it returns the version after `u` if and only if `u` is the newest commit it cannot go past, in reach, and below the watermark |
| Rescan.WalkIsSoundIff | src/dedup.rs:1076-1105 | of whatever log it walks, its answer loses nothing if and only if it fell back, or no plain append up to where it stopped holds a row the watermark and its keys do not cover |
| Rescan.WalkIsSoundOnAPlainLog | src/dedup.rs:1086-1105 | its answer is sound on every log where what is below the watermark is a plain append, holding a row, its text maxima not cut short |
| Rescan.GlobalRescanThenFilterIsExact | src/dedup.rs:1208-1223 | on such a log, reading from its answer and filtering leaves every source row in the target, and exactly once where the heads cover the rebuild |
| Rescan.TruncatedTextLosesARow | src/dedup.rs:1190-1192 | a text maximum cut short makes it start past a row nobody has |
| Rescan.RewriteLosesARow | src/dedup.rs:1146-1192 | a rewrite of old rows makes it start past a row nobody has |
| CutoffRecord.WindowRoundTrips | src/dedup.rs:946-1040 | a recorded window reads back as itself beside any other metadata, and is resumed if and only if the columns configured are those recorded |
| CutoffRecord.MetadataAsWritten | src/dedup.rs:946-968 | the entries of a recorded window as they are spelled, of either form |
| CutoffRecord.ReadsAsExactly | src/dedup.rs:974-1040 | a commit reads as a window if and only if it carries it as written, or has an explicit empty column list; so a mismatch reads as closed |
| CutoffRecord.OlderBuildsTakeItForClosed | src/dedup.rs:913-920 | a reason is one an older build knows if and only if the window is not partitioned |
| TableRows.RemovedPaths | src/compact.rs:30-48 | the paths a commit removes; a line that does not parse removes nothing |
| Compaction.GuardedLogStore.WriteCommitEntry | src/compact.rs:85-128 | the commit lands if and only if nobody raced it and every commit since `checked` can be read and removed none of its files; a lost race leaves the guard good for a retry, a refusal leaves everything as it was |
| Compaction.UnguardedLandingIsInvisibleIff | src/compact.rs:3-6 | without the guard a compaction changes no row if and only if the files it removes that are gone held none |
| Compaction.UnguardedLandingBringsBack | src/compact.rs:3-6 | what it stores again is exactly the rows of those files |
| Compaction.GuardedLandingKeepsRows | src/compact.rs:50-55 | a commit whose files were left alone since its snapshot leaves the multiset of rows unchanged |
| Compaction.StepKeepsInv | src/compact.rs:85-175 | foreign commits, lost ones, plans, checks, puts and unacknowledged puts keep every guard's knowledge true |
| Compaction.CompactionIsInvisible | src/compact.rs:8-16 | over every interleaving, a stretch without a foreign commit leaves the table's multiset of rows unchanged, however many compactions land |
| Compaction.LandedIsNotCheckedAgain | src/compact.rs:85-128 | a compaction whose landing was taken for lost fails its next check on its own commit |
| Compaction.TwoCompactionsStoreARowTwice | src/compact.rs:3-6 | two unguarded rewrites of one file store its rows twice |
| Compaction.GuardReusedForOtherFilesBringsRowsBack | src/compact.rs:50-55 | a guard checked for one remove set lets another bring deleted rows back |
| Rejects.DataQuality.Write | src/dq.rs:255-338 | one new commit holds every reject of every chunk, row `j` of chunk `i` after those of the chunks before it, unless there are none, the newest commit is of that version, or the write fails first, when nothing changes; the count is the sum of the chunks, or 0 for what is already there |
| Rejects.RejectsAreNeverLost | src/dq.rs:34-51 | over every run of crashes, replays and rewinds of a deterministic transform each committed batch's rejects are present, and no version's stand twice in a row |
| Rejects.EveryRejectIsThere | src/dq.rs:34-51 | over the same runs, each row of each chunk of a committed batch is in a commit of that batch's version that holds the chunks whole and in order |
| Rejects.ReplayAddsNone | src/dq.rs:40-44 | replaying the batch that crashed between the two commits adds none |
| Rejects.CommitsWithoutItsRejectsIff | src/dq.rs:45-51 | over every run of any transform, a batch commits without its rejects if and only if an earlier attempt at its version recorded others, is still the newest, and nothing recorded these |
| Rejects.TestsAgreeIff | src/dq.rs:336-349 | over any sequence of writes "at least" records what equality does if and only if no batch with rejects comes below the newest recorded version |
| Rejects.ARewindLosesUnderAtLeast | src/dq.rs:338-344 | a source recreated after version 500 loses what it rejects at version 3 under "at least", and not under equality |
| KafkaRejects.DataQuality.Landed | src/dq.rs:664-679 | the search, newest first, for one's own commit |
| KafkaRejects.DataQuality.WriteKafka | src/dq.rs:451-541 | the retry loop ends as the function of what the world did says, in result and in log |
| KafkaRejects.SearchIsExact | src/dq.rs:646-679 | with no commit missing the search finds its own commit if and only if it is there |
| KafkaRejects.AnswersAreExact | src/dq.rs:404-541 | with no commit missing, success means recorded exactly once, a conflict not at all, any other error at most once, within four attempts |
| KafkaRejects.AnswersIff | src/dq.rs:451-541 | the converse: on a table that can be read and reopened, success is reported if and only if the rejects are there, whatever was acknowledged, and a conflict if and only if every attempt ended in one and none landed |
| KafkaRejects.SuccessNeverLoses | src/dq.rs:646-663 | whatever is missing, success never means a lost reject, nor more copies than attempts |
| KafkaRejects.ExactlyOnceIff | src/dq.rs:451-541 | for every sequence of outcomes, success means exactly once if and only if no attempt landed and was then overlooked |
| KafkaRejects.MissedIff | src/dq.rs:664-679 | a landed commit is overlooked if and only if the search meets a commit that is gone at or after it, and no fault first |
| KafkaRejects.AMissingCommitDuplicates | src/dq.rs:658-661 | a commit gone from the log before the search records the rejects twice |
| Staging.ExpandStaged | src/config.rs:1109-1193 | every staged entry that can be split is its two halves, in order, and every other is left as written |
| Staging.HalvesMeetAtTheStage | src/config.rs:1093-1193 | the halves carry the source to the target through one stage of their own, transform once, and never publish; each keeps the settings of its part, and the second reads the stage from its start |
| Staging.UrisStandBeside | src/stage.rs:52-83 | a stage and a data-quality table stand beside their target, with or without a slash after it, and a stage is known as one either way |
| Staging.TrimCutsOnlySpaces | src/config.rs:1744-1748 | trimming an app_id takes spaces from both ends, all of them, and nothing else |
| Staging.TrimEndCutsOnlyThat | src/stage.rs:52-83 | trimming the end of a URI takes whole slashes and nothing else |
| Staging.PairKnowsItsOwnIff | src/config.rs:1222-1226 | the pair's name rule recognises its own apply half if and only if its name does not end in the ingest half's suffix |
| Fleet.StageConflicts | src/config.rs:1207-1245 | exactly the names that read or write a stage that is not theirs |
| Fleet.CascadeConflicts | src/config.rs:1247-1285 | exactly the names that read an upserted table without merging it |
| Fleet.CondemnedNames | src/config.rs:1450-1515 | exactly the names in some conflict: offset key, name, cascade or stage |
| Fleet.ContestedGroups | src/config.rs:1527-1560 | exactly the names with another user of a group they would publish to |
| Fleet.ResolveAll | src/config.rs:1405-1598 | the fleet is the uncondemned that resolve alone, in order, and the names of the rest |
| FleetSafety.EachHasOneVerdict | src/config.rs:1562-1590 | every expanded pipeline is accepted or rejected exactly once |
| FleetSafety.NamesAndAppIdsAreDistinct | src/config.rs:1459-1500 | accepted pipelines have distinct names and distinct offset keys |
| FleetSafety.RunningIsWritten | src/config.rs:1109-1193 | a running pipeline is an entry as it was written, or a half of one that splits |
| FleetSafety.RunningReadSafely | src/config.rs:1247-1285 | no running pipeline is staged or reads its own target, and one that reads a table any entry upserts ignores changes and upserts |
| FleetRuns.RunningSettingsFit | src/config.rs:1740-1895 | whatever runs can merge or has nothing only merging uses, and its tiebreak, partition and lookup settings are ones that mean something |
| FleetRuns.SoundResolves | src/config.rs:1740-1895 | a pipeline whose settings are of the kind its mode takes and parse is not refused for them |
| FleetRuns.ReaderRunsIff | src/config.rs:1247-1285 | among pipelines with names, offset keys and no stages of their own, a sound one runs if and only if it reads no upserted table, or ignores changes and upserts |
| FleetSafety.OneReaderPerStage | src/config.rs:1195-1245 | a stage someone writes has at most one accepted reader |
| FleetSafety.TwoReadersRunIff | src/config.rs:1218-1226 | in any fleet, two readers of a stage with nothing else wrong with them both run if and only if no pipeline writes it and they are named "" and `__apply` |
| FleetSafety.AStageWithTwoReaders | src/config.rs:1218-1226 | a fleet in which two readers of a stage run |
| FleetSafety.TwoWritersOfAStage | src/config.rs:1195-1245 | two accepted writers of one stage are its last writer and the bearer of that one's apply name |
| FleetSafety.TwoWritersRunIff | src/config.rs:1218-1226 | in any fleet, two writers of a stage with nothing else wrong with them both run if and only if one is its last writer and the other bears that one's apply name |
| FleetSafety.AStageWithTwoWriters | src/config.rs:1218-1226 | a fleet in which two writers of a stage run |
| FleetSafety.PairUsesItsStageIff | src/config.rs:1204-1230 | in any fleet where the ingest half owns its stage, the apply half, nothing else wrong with it, runs if and only if the pair's name does not end in the ingest half's suffix |
| FleetSafety.APairThatTripsOverItself | src/config.rs:1204-1230 | a staged upsert named "x__ingest", whose ingest half runs and whose apply half is held back |
| FleetSafety.ALaterWriterTakesTheStage | src/config.rs:1210-1216 | in any fleet, a third pipeline that writes the stage last passes for its owner, and the ingest half runs if and only if it bears that one's apply name |
| FleetSafety.AThirdWriterTakesTheStage | src/config.rs:1210-1216 | a fleet in which a third pipeline that writes a pair's stage last runs and the ingest half is held back |
| FleetSafety.GroupsAreDistinct | src/config.rs:1519-1576 | no two running pipelines publish to one group |
| FleetSafety.LosesItsPublicationIff | src/config.rs:1519-1576 | a pipeline that could publish loses its publication if and only if another entry contests its group, whether or not that one could publish |
| FleetRuns.PublishesIff | src/config.rs:1519-1738 | a pipeline publishes what it asked for if and only if it appends, the deployment may and has a usable hub of that kind, the group and SQL are valid, it is not near-time beside lookups, and no other appending entry asks for its group |
| FleetSafety.OnlyPublishersContestIff | src/config.rs:1527-1529 | of a running pipeline that could publish, only one that could too takes its group, if and only if it has no rival or one that could publish |
| FleetSafety.RivalCouldNotIff | src/config.rs:1527-1540 | a rival could not publish if and only if it is held back, near-time with lookups, for another hub or with SQL that is not valid |
| FleetSafety.ASilentRivalTakesAGroup | src/config.rs:1527-1540 | a fleet in which a healthy publisher loses its group to one that never sends anything |
| FleetSafety.PublishingNeverDecidesWhoRuns | src/config.rs:1728-1736 | configurations that differ only in publishing accept and reject the same pipelines |

## Left out

- Rejects.DataQuality.Write: on a failed write the source reopens the table and, failing that, leaves an in-memory stand-in; a step that fails is followed by a fresh open, so the stand-in is not modelled.
- Handover.Next: which versions a reopen takes to hold data is any answer that is never no for rows: change commits, the scan limit and missing commits, which the program counts as data, are among them.
- Which message a Kafka reject came from, read out of its own columns (`src/dq.rs:681-735`): a few range checks.
- Opening the data-quality table (`src/dq.rs:202-223`), which takes every failure to open for an absent table.
- Rescan.BoundedRescanStart: a failure to open the source's log beyond one commit, and log file names, are not modelled.
- Compaction.GuardedLogStore.WriteCommitEntry: reading a temporary commit file back, which can fail before anything is checked, is not modelled.
- Arrow, Parquet, DataFusion, object stores and async: rows are records, and reads are outcomes the model ranges over. Prefetching of commits is not modelled, only their order.
- The kernel's own replay, parquet columns of a checkpoint, and `_delta_log` file names beyond kind, version and size.
- `lastUpdated` stamps and the expiry of a `txn` inside another engine: only the refusal of a table that sets the property.
- Doubles: a DECIMAL's bounds are reals within a width that covers both conversions; NaN, and the ULPs themselves, are not modelled.
- Integers are unbounded except where a width decides something: 32-bit partitions and places, 64-bit statistics, versions in a recorded window.
- Partition and mark storage: the index, marks and keys of the cut-off are one map from partition to mark.
- Which columns exist and their types, the columns' projection, and statistics in another type than the mark's.
- Paths are compared as spelled, as the program does; two spellings of one path are two paths.
- The Kafka consumer, `[[kafka.pipeline]]` conflicts, the pipeline loop beyond a batch's filter and the window's life, the sink, the upsert window, the grain check, budgets, error classes, dbt, SQL normalisation, metrics and warnings.
