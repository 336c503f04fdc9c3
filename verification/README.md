# Blob indexer: verified core

A Dafny model of the parts of the blob indexer and its API where a wrong answer is hard to
notice: schedules overlaid on schedules, incremental maintenance of derived rows, crash
recovery, broadcasting over blocks that commit out of order, admission accounting, and fast
queries that stand for slow ones. Check it with `dafny verify dfyconfig.toml`.

Each component has a simple specification next to the form the code takes. Where the code
updates fields, tables or arrays step by step, a class or a method with loops does the same
and is proved to compute a specification function; the properties are then proved of that
function, over every input, run or reachable state.

| file | models |
|---|---|
| `ForkSchedule.dfy` | overlaying learned fork boundaries on a compiled chain configuration, and reading them back by slot priority |
| `SchedulePoll.dfy` | the poll, validate, reconcile and rebuild cycle that feeds it |
| `Claims.dfy`, `AttributionSync.dfy` | attribution claims resolved by lookup and by repainting, and the refresh of the derived tables |
| `SqlSplitter.dfy`, `MigrationRecovery.dfy` | finding transaction control in a migration file, and recovering from a killed run |
| `Poller.dfy` | detecting new blocks with a head, a seen-set and a trailing window |
| `Hub.dfy` | admission slots and send channels across handlers, queues and the hub's loop |
| `RateLimiter.dfy` | token buckets over a bounded least-recently-used map, with an idle sweep |
| `Aggregation.dfy`, `ChartRollups.dfy` | charts from pre-aggregated buckets |
| `FineRollups.dfy`, `FineCoverage.dfy` | the upkeep of the fine buckets, and serving from them meanwhile |
| `Wildcard.dfy` | greedy wildcard matching of origins and headers |
| `CandidateRepair.dfy` | deleting impossible inclusion candidates along replacement chains |
| `IndexedBlocks.dfy`, `InclusionWindow.dfy` | the first-gap query and the bracketed boundary probe |
| `Common.dfy`, `Text.dfy` | options, 64-bit unsigned integers, and the string operations used |

Some promises are false of the code as they stand. Each of these comes with an input on which
it fails and with the exact condition under which it holds:

- **Tied claims.** The resolver breaks a tie on score and start block by open end and then by
  the smallest name; repainting applies tied claims in list order, so the last one wins
  (`Claims.TieDisagrees`, `Claims.PaintedIsResolvedIff`, `AttributionSync.SyncResolvesIff`).
- **Rows indexed on stale answers.** Between the commit of the claims and the swap of the
  in-memory mappings rows are stamped with the old answers, and nothing repaints them
  (`AttributionSync.StaleArrival`); so are, with no name, rows indexed after a restart and before
  the first refresh succeeds, which a refresh bringing the same claims leaves alone
  (`RestartLosesNames`). `AttributionSync.RefreshResolvesIff` holds for any rows and any memory.
- **Recovery without a row.** A dirty schema that another migrator has meanwhile forced back to
  before the first file makes the run fail, although the next one succeeds
  (`MigrationRecovery.NoRowAtSecondLook`, `UnkilledRunSucceedsIff`).
- **Slots at shutdown.** Every admission is to be paired with one release
  (`internal/api/ws_hub.go:67-68`). A handler that queues its client after the hub's last drain
  never gets its slot released; the slots left are exactly those (`Hub.SlotLeaks`,
  `StoppedSlots`, `LeaksAreLateEnqueues`).
- **Truncated schedules.** With more than seven boundaries left after the collapse, times
  between the first boundary and the first retained one resolve to nothing
  (`ForkSchedule.TruncationLosesHistory`, `ForkSchedule.RebuiltResolvesLatest`).
- **Idle sweep.** Forgetting a visitor after three minutes hands out tokens early exactly when
  three minutes do not refill a burst (`RateLimiter.SweepIsVisible`, `RateLimiter.SweepInvisibleIff`).
- **Coverage of fine buckets.** The oldest stored block bucket is taken to mean that everything
  from there on is exact (`internal/api/queries.go:946-950`). That fails between the two commits
  of a prune (`FineCoverage.HalfPruneMisleads`, `HalfPruneIff`); when the first block lands, in a
  minute that already has blobs or with rows between it and what is kept (`FirstBlockMisleads`,
  `BlockBelowIff`); when a block is deleted there while another remains in its minute
  (`DeletedBlockMisleads`, `BlockDeletedBelowIff`); and for a row too old for its trigger, blob or
  block, inserted or deleted (`LateRowMisleads`, `LateRowIff`). Every other row that comes or
  goes is harmless (`MaintainedRowKeeps`, `BlobBelowIsHarmless`). The charts are not affected by
  half prunes and late rows: no sub-hour request reaches behind the retention
  (`FineCoverage.FineChartIsRawChart`).

The comment on the user reconciliation (`internal/attribution/blob_list.go:501-502`) says
manually added users survive. The code deletes none of them but overwrites one whose address
has a current claim; the model follows the code (`AttributionSync.UsersAreTheCurrentProjection`).

Time is whole seconds since the Unix epoch, except in the rate limiter, where time and tokens
are real numbers. Database outcomes, query results, the order in which a map is ranged over,
the order in which goroutines run and the point at which a process dies are parameters or
steps chosen freely, and the statements hold for every choice. One clock serves the database,
the indexer and the API; a row's transaction may have begun earlier than it commits. In the hub
each pass of a loop over clients, with its delete, close and release, is one step.

## Model

| member | source | states |
|---|---|---|
| `ForkSchedule.RebuiltResolvesLatest` | `internal/blobparams/blobparams.go:127-222` | main result: the rebuilt configuration resolves a time to the latest merged boundary at or before it if and only if at most seven boundaries survive the collapse, or the time is at or after the earliest retained boundary, or before every boundary; otherwise it resolves to nothing |
| `ForkSchedule.TruncationLosesHistory` | `internal/blobparams/blobparams.go:71-79` | an unknown chain, whatever the default schedule of its Cancun fork, that has learned eight boundaries with different parameters: at time 0 the first of them applies, and nothing is resolved |
| `ForkSchedule.CollapseKeepsResolution` | `internal/blobparams/blobparams.go:165-182` | dropping boundaries that repeat the parameters before them changes the answer at no time |
| `ForkSchedule.KeptTimesPrescribe` | `internal/blobparams/blobparams.go:148-182` | sorted and collapsed boundaries prescribe, at every time, exactly what the merged map prescribes |
| `ForkSchedule.DropResolve` | `internal/blobparams/blobparams.go:191-197` | truncation is invisible from the earliest retained boundary on and leaves nothing before it |
| `ForkSchedule.RetainedResolve` | `internal/blobparams/blobparams.go:191-197` | the same for the seven-slot limit, for any collapsed list |
| `ForkSchedule.SlotsResolve` | `internal/blobparams/blobparams.go:207-213` | slots filled in ascending order and read from BPO5 down answer like the ascending list read from the left |
| `ForkSchedule.AscendingPrescribes` | `internal/blobparams/blobparams.go:207-210` | an ascending list of all boundaries resolves to the latest boundary at or before the time |
| `ForkSchedule.BaseResolvesLatest` | `internal/blobparams/blobparams.go:353-380` | the compiled configuration alone resolves to its latest boundary when its forks are listed in activation order |
| `ForkSchedule.OsakaIsThird` | `internal/blobparams/blobparams.go:154-163` | Osaka is inferred only for a base without one, as the merged boundary that exactly two others precede; with fewer than three it stays unset; London is kept |
| `ForkSchedule.LearnedOverrides` | `internal/blobparams/blobparams.go:133-146` | a learned entry decides its own activation time, with its target, maximum and update fraction, against the compiled boundary and earlier learned entries |
| `ForkSchedule.UnlearnedUnchanged` | `internal/blobparams/blobparams.go:133-146` | a time no learned entry mentions keeps its compiled boundary, or its absence |
| `ForkSchedule.BuildChainConfig` | `internal/blobparams/blobparams.go:127-222` | without learned entries the compiled configuration itself; otherwise a fresh object holding the specified rebuild, the compiled one untouched |
| `ForkSchedule.BaseBoundaries` | `internal/blobparams/blobparams.go:226-250` | the loop over the seven pairs collects the boundaries whose time and parameters are both present |
| `ForkSchedule.SortedKeys` | `internal/blobparams/blobparams.go:148-152` | whatever order the map is ranged in, the array is its keys in strictly ascending order |
| `ForkSchedule.CollapseInPlace` | `internal/blobparams/blobparams.go:173-182` | the filter that overwrites its own input array keeps exactly the boundaries that change the parameters |
| `ForkSchedule.AssignSlots` | `internal/blobparams/blobparams.go:203-213` | stale fork times are gone and slot i holds the i-th kept boundary |
| `ForkSchedule.MergeLearned` | `internal/blobparams/blobparams.go:136-146` | the merge loop computes compiled boundaries overlaid by learned ones in order |
| `ForkSchedule.RetainedTimes` | `internal/blobparams/blobparams.go:148-197` | sort, inference, in-place collapse and truncation in the order of the code |
| `SchedulePoll.ScheduleEntriesFromEthConfig` | `internal/indexer/blob_schedule.go:26-64` | every entry repeats the time, target, maximum and update fraction of one of the three forks, whose parameters are 0 < target <= max with a positive fraction; every such fork that no later one overrides at its time is in the list; next overrides last overrides current |
| `SchedulePoll.BlobScheduleTable.ReconcileFutureBlobSchedule` | `internal/db/blob_schedule.go:73-145` | all or nothing: an empty batch changes nothing, a duplicate time or a database failure leaves the table as it was, anything else leaves the reconciled content |
| `SchedulePoll.ReconciledContent` | `internal/db/blob_schedule.go:66-108` | batch entries are stored as advertised, other boundaries survive exactly when they are not in the future, unchanged |
| `SchedulePoll.FutureIsTheBatch` | `internal/db/blob_schedule.go:66-72` | after a reconcile the boundaries later than the observation are exactly the batch's and no earlier one is gone |
| `SchedulePoll.StorableIffUnwrapped` | `internal/db/blob_schedule.go:73-145` | an entry is stored if and only if none of its values would change in a column of 64 or 32 bits |
| `SchedulePoll.LastStoredStands` | `internal/db/blob_schedule.go:73-145` | over any run the table is what the last stored batch has left: polls that learn nothing, are refused or fail change nothing |
| `SchedulePoll.RunsStoreOnlyValidEntries` | `internal/indexer/blob_schedule.go:59-64` | over any run of polls every stored entry stays valid |
| `SchedulePoll.MergedIsUnion` | `internal/blobparams/blobparams.go:133-146` | merging the stored schedule is map union with the stored rows winning |
| `SchedulePoll.ActiveConfigResolves` | `internal/indexer/blob_schedule.go:94-108` | the configuration swapped in after a poll resolves every representable time to the latest known boundary |
| `SchedulePoll.AdvertisedIsResolved` | `internal/indexer/blob_schedule.go:66-108` | from a poll to a block: once a batch is stored, a block at the time of one of its entries is resolved to that entry's target, maximum and update fraction |
| `SchedulePoll.StoredIsResolved` | `internal/indexer/blob_schedule.go:94-108` | the time of a stored boundary is resolved to that boundary |
| `SchedulePoll.RunsPreserveHistory` | `internal/indexer/blob_schedule.go:66-108` | main result: over any run of polls at or after a time, the parameters resolved at that time change only if some batch carried an entry activating at or before it |
| `SchedulePoll.SamePastSameParameters` | `internal/indexer/blob_schedule.go:94-108` | two tables with the same rows up to a time give configurations that resolve that time alike |
| `SchedulePoll.RunsKeepPastRows` | `internal/db/blob_schedule.go:66-72` | over such a run the stored rows up to that time are the same rows |
| `Claims.PaintedIsResolvedIff` | `internal/attribution/blob_list.go:289-365` | main result: for claims in the order the fetch leaves them, repainting gives a row the resolver's name if and only if the first covering claim and the last one tied with it carry one name |
| `Claims.ResolvedIsPreferred` | `internal/attribution/blob_list.go:289-351` | main result: the resolver answers with the name of a covering claim that no other is preferred to, read from the words of the claims: active before not active, then confirmed, probable, possible and the rest, in any letter case, then the later start, the open end, the smaller name; with no name when none covers |
| `Claims.OutrankingClaimResolves` | `internal/attribution/blob_list.go:334-351` | a covering claim that outranks every other covering claim in status and confidence gives the name |
| `Claims.ScoreIffOutranks` | `internal/attribution/blob_list.go:334-351` | the score orders undisputed claims exactly as status and confidence do |
| `Claims.CurrentIffAlways` | `internal/attribution/blob_list.go:299-313` | a claim speaks for the present if and only if it is active and speaks for every block |
| `Claims.Handover` | `internal/attribution/blob_list.go:299-313` | where one claim ends and the next one starts, each block between is spoken for by exactly one of them and no block outside by either |
| `Claims.NoTieAgrees` | `internal/attribution/blob_list.go:321-351` | without a tie on score and start block between different names, lookup and repainting agree for claims in any order |
| `Claims.TieDisagrees` | `internal/attribution/blob_list.go:647-654` | two tied claims for which the resolver answers alice while repainting leaves bob |
| `Claims.FirstOfSortedIsBest` | `internal/attribution/blob_list.go:289-297` | the first match of a sorted list is a best match, the one a running minimum would keep |
| `Claims.LastOfSortedIsTop` | `internal/attribution/blob_list.go:571-584` | the last match of a stably sorted list is the last of the top-ranked matches |
| `Claims.ResolvedIsBest` | `internal/attribution/blob_list.go:289-297` | the sorted lookup answers with the best covering claim |
| `Claims.ResolvedNameOrderIndependent` | `internal/attribution/blob_list.go:261-297` | the resolver's answer does not depend on the order the claims arrive in |
| `Claims.TopIsLastTied` | `internal/attribution/blob_list.go:571-584` | in a best-first list the claim that paints last is the last one tied with the resolver's |
| `Claims.FirstCoveringIsBest` | `internal/attribution/blob_list.go:315-332` | in a best-first list the first covering claim is the best one |
| `Claims.ClaimSortLessIsPreorder` | `internal/attribution/blob_list.go:321-332` | the resolver's order is a strict weak order, so sorting by it is well defined |
| `Claims.StableSortSorted` | `internal/attribution/blob_list.go:315-319` | sorting returns the same claims, in order |
| `AttributionSync.SyncResolvesIff` | `internal/attribution/blob_list.go:545-584` | main result: from resolved rows, clearing and repainting only the changed addresses leaves every row resolved if and only if on each row of a changed address the extremes of the leading tie carry one name |
| `AttributionSync.RefreshResolvesIff` | `internal/attribution/blob_list.go:111-155` | main result: whatever the rows carry and whatever claims memory answers from, a refresh during which rows keep arriving ends with every row resolved if and only if no arrived row is named differently by the new claims than by memory, the leading ties agree on the standing rows of changed addresses, and every other standing row carried the right name before |
| `AttributionSync.RefreshOfResolvedRows` | `internal/attribution/blob_list.go:545-584` | from resolved rows that comes down to the arrivals and the leading ties of the changed addresses |
| `AttributionSync.RestartLosesNames` | `internal/attribution/attribution.go:38-67` | a row indexed after a restart and before the first refresh succeeds is stamped with no name, and a refresh that brings the claims already stored leaves it so |
| `AttributionSync.StaleArrival` | `internal/attribution/blob_list.go:133-141` | a row that arrives during the first refresh and keeps no name although the new claims have one for it |
| `AttributionSync.IndexedRow` | `internal/attribution/attribution.go:99-118` | whatever arrives in whatever order, a row ends as its last arrival stamped it, and the others are untouched |
| `AttributionSync.PendingNamedIff` | `internal/attribution/blob_list.go:545-601` | pending rows end with their current names if and only if, for each unchanged address among them, the name current at the new tip is the one current at the old |
| `AttributionSync.SyncIsFullRecompute` | `internal/attribution/blob_list.go:545-584` | without ties the incremental pass leaves exactly the table a full recompute would |
| `AttributionSync.UsersAreTheCurrentProjection` | `internal/attribution/blob_list.go:485-543` | with an indexed tip the owned users are exactly the addresses the resolver names at the tip, under that name; a hand-added user is kept exactly when no claim is current for its address |
| `AttributionSync.RegistryUserIsOwned` | `internal/attribution/blob_list.go:656-675` | a registry user's description always starts with the marker the cleanup looks for |
| `AttributionSync.OwnedIffMarked` | `internal/attribution/blob_list.go:523-530` | the marker alone decides whether the cleanup owns a user, with anything or nothing behind it |
| `AttributionSync.DescriptionTells` | `internal/attribution/blob_list.go:661-675` | reading a description back gives the claim's source and entity, and its role, confidence and status exactly where it has them |
| `AttributionSync.UniqueIffAsManyKeys` | `internal/db/migrations/000001_init.up.sql:119-137` | claims meet the unique constraint exactly when they have as many different keys as there are claims |
| `AttributionSync.CurrentIsFirstRanked` | `internal/attribution/blob_list.go:353-365` | the one-pass best claim per address is the claim the sorted lookup finds |
| `AttributionSync.FetchedClaims` | `internal/attribution/blob_list.go:229-253` | the claims are exactly those that repeat, field by field, a named artifact entry for a lower-cased address, as often as listed, best first |
| `AttributionSync.AllClaimsListed` | `internal/attribution/blob_list.go:229-250` | a claim is collected if and only if it repeats, field by field, some named entry for its address |
| `AttributionSync.ClaimsByAddress` | `internal/attribution/blob_list.go:388-398` | after normalising the addresses, an address is present exactly when it has claims, with its ranking |
| `AttributionSync.ChangedClaimAddresses` | `internal/attribution/blob_list.go:367-386` | an address is reported exactly when its ranking changed |
| `AttributionSync.BestClaimsAtBlock` | `internal/attribution/blob_list.go:353-365` | the loop computes the best matching claim of every address that has one |
| `AttributionSync.LatestBlock` | `internal/attribution/blob_list.go:457-463` | the highest confirmed block, -1 without one |
| `AttributionSync.Service.SyncBlobListClaims` | `internal/attribution/blob_list.go:439-608` | one transaction: on failure no table changes; on success claims, users, confirmed and pending rows are the specified ones, and the caller's slice is left in application order |
| `AttributionSync.Service.ReplaceClaims` | `internal/attribution/blob_list.go:465-601` | the transaction's statements leave the new claims, the repainted confirmed and pending rows and the reconciled users |
| `AttributionSync.Service.SyncRows` | `internal/attribution/blob_list.go:545-601` | clear, sort and paint compute the whole-table functions of confirmed and pending rows |
| `AttributionSync.Service.RepaintPending` | `internal/attribution/blob_list.go:586-601` | whatever order the current users are ranged in, exactly the pending rows of changed addresses with a current claim take its name |
| `AttributionSync.Service.SyncUsers` | `internal/attribution/blob_list.go:511-543` | stale owned users go, current claims are upserted, and without a tip nothing is deleted |
| `AttributionSync.Service.Repaint` | `internal/attribution/blob_list.go:571-584` | after the loop each row holds what its claims paint on it in order |
| `AttributionSync.Service.UpdateBlobsForClaim` | `internal/attribution/blob_list.go:614-645` | exactly the confirmed rows of the claim's address and block range take its name |
| `AttributionSync.Service.SetClaims` | `internal/attribution/blob_list.go:261-287` | afterwards a lookup at a block gives the resolver's answer, and one without a block the name current at the tip |
| `AttributionSync.Service.RefreshBlobList` | `internal/attribution/blob_list.go:111-155` | from any contents of memory and any rows: the stored claims become those of the artifact, in one piece or not at all; when the fetch or the transaction fails, nothing changes but the rows that arrive, stamped from memory; a success leaves every row resolved exactly under the condition above, and the lookups answer from the stored claims |
| `AttributionSync.Service.IndexBlob` | `internal/attribution/attribution.go:99-118` | a confirmed blob is stamped with the answer memory gives, whatever memory holds |
| `SqlSplitter.SplitIsExact` | `internal/db/migrate_recovery.go:179-263` | main result: splitting the text of any script built from plain characters, comments, literals, quoted identifiers and dollar-quoted bodies gives exactly its statements, opaque pieces blanked and empty ones dropped |
| `SqlSplitter.EveryFileIsDecided` | `internal/db/migrate_recovery.go:160-263` | main result: no text escapes; every file at all, unclosed comments, literals, identifiers and dollar quotes included, is the text of some script, is split into exactly that script's statements, and is reported exactly for the first of them that opens with transaction control |
| `SqlSplitter.EveryTextIsAScript` | `internal/db/migrate_recovery.go:182-263` | every text can be read as a well-formed script |
| `SqlSplitter.SkipOpenIdentifier` | `internal/db/migrate_recovery.go:232-238` | a quoted identifier that is never closed takes the rest of the file |
| `SqlSplitter.ReportedIffControl` | `internal/db/migrate_recovery.go:142-177` | main result: a word is reported if and only if the first statement to open with transaction control opens with that word, being one of BEGIN, COMMIT, END, ROLLBACK, ABORT, START, SAVEPOINT, RELEASE or the two words PREPARE TRANSACTION; nothing is reported if and only if no statement does |
| `SqlSplitter.KeywordIffOpensAs` | `internal/db/migrate_recovery.go:149-177` | the keyword table and the test for PREPARE decide exactly how a statement opens, against the same words written out |
| `SqlSplitter.ScanStatement` | `internal/db/migrate_recovery.go:194-263` | scanning a statement's text leaves its blanked form in the buffer |
| `SqlSplitter.ScanPiece` | `internal/db/migrate_recovery.go:194-260` | scanning one piece leaves its character, or one blank |
| `SqlSplitter.OpaquePiece` | `internal/db/migrate_recovery.go:195-252` | an opaque piece is skipped as a whole, whatever follows it |
| `SqlSplitter.SkipBlockComments` | `internal/db/migrate_recovery.go:203-217` | a comment with nested comments inside closes exactly at its own end, and takes the rest of the file when it has none |
| `SqlSplitter.SkipLiteralContent` | `internal/db/migrate_recovery.go:218-231` | a literal with doubled quotes ends at its closing quote |
| `SqlSplitter.SkipOpenLiteral` | `internal/db/migrate_recovery.go:218-231` | a literal that is never closed takes the rest of the file |
| `SqlSplitter.SkipIdentifierBody` | `internal/db/migrate_recovery.go:232-238` | a quoted identifier ends at its closing quote |
| `SqlSplitter.DollarQuotedSkipped` | `internal/db/migrate_recovery.go:239-252` | the opening tag is recognised whole and the body ends at the first matching tag |
| `SqlSplitter.FirstTokenIsOpening` | `internal/db/migrate_recovery.go:286-300` | the first token is a word if and only if the statement opens with it |
| `SqlSplitter.TwoTokensAreOpening` | `internal/db/migrate_recovery.go:286-300` | the first two tokens are two words if and only if the statement opens with the one followed by the other |
| `SqlSplitter.TrimSpaceTokens` | `internal/db/migrate_recovery.go:187-192` | trimming a statement does not change its first two tokens |
| `SqlSplitter.IsControlIffKeyword` | `internal/db/migrate_recovery.go:142-177` | a keyword is found exactly in the statements that open with one of those words |
| `SqlSplitter.DollarQuoteTagIff` | `internal/db/migrate_recovery.go:265-284` | a prefix is the opening tag if and only if it is two dollar signs around letters, underscores and, not in first place, digits |
| `SqlSplitter.SplitTopLevelStatements` | `internal/db/migrate_recovery.go:182-263` | the index loop computes the recursive scan |
| `SqlSplitter.SkipOpaqueRegion` | `internal/db/migrate_recovery.go:195-252` | the loop's skipping cases and their next index |
| `SqlSplitter.SkipBlockComment` | `internal/db/migrate_recovery.go:203-217` | the depth counter closes where the nested comment does |
| `SqlSplitter.SkipStringLiteral` | `internal/db/migrate_recovery.go:218-231` | the inner loop stops behind the closing quote |
| `SqlSplitter.SkipQuotedIdentifier` | `internal/db/migrate_recovery.go:232-238` | the inner loop stops behind the closing quote, one past the end when there is none |
| `SqlSplitter.SkipDollarQuoted` | `internal/db/migrate_recovery.go:239-252` | the index lands behind the closing tag, or at the end of the text |
| `SqlSplitter.FirstTransactionControlStatement` | `internal/db/migrate_recovery.go:164-177` | the first offending keyword in statement order, if any |
| `MigrationRecovery.SuccessIsUninterrupted` | `internal/db/migrate_recovery.go:22-39` | main result: after any sequence of runs, each killed anywhere and with other runs in between its two looks at the schema, a run that succeeds leaves exactly the database of one uninterrupted run: same schema, highest version, not dirty |
| `MigrationRecovery.RunKeepsSound` | `internal/db/migrate_recovery.go:22-76` | one run, killed anywhere or not, with other migrators between its two looks at the schema or not, keeps the database in a state recovery can continue from, and a successful one completes it |
| `MigrationRecovery.RecoveryKeepsSound` | `internal/db/migrate_recovery.go:40-76` | so does recovery, whatever the second look finds |
| `MigrationRecovery.RunsKeepSound` | `internal/db/migrate_recovery.go:22-76` | the same over any sequence of runs |
| `MigrationRecovery.UnkilledRunSucceedsIff` | `internal/db/db.go:122-136` | from any such state a run that is not killed fails if and only if it found the schema dirty and, after whatever other migrators did, its second look fails, finds no row, or finds the schema dirty at another version or at one that is refused |
| `MigrationRecovery.RecoverySucceedsIff` | `internal/db/migrate_recovery.go:40-76` | the same for recovery on its own |
| `MigrationRecovery.NoRowAtSecondLook` | `internal/db/migrate_recovery.go:47-53` | the first file is dirty, and another migrator forces back to before it and is killed there: the run that finds no row at its second look fails, and the next one goes through |
| `MigrationRecovery.ControlIsNeverForced` | `internal/db/migrate_recovery.go:97-105` | a dirty file with transaction control is never forced back: every run fails and changes nothing, however many migrators try |
| `MigrationRecovery.ForceTargetIsPrevious` | `internal/db/migrate_recovery.go:107-113` | the version forced back to is the one before the dirty file, or none |
| `MigrationRecovery.PlanIs` | `internal/db/migrate_recovery.go:82-114` | a plan forces back to just before the dirty file when that has a version of at least one and no transaction control, and refuses otherwise |
| `MigrationRecovery.ControlIs` | `internal/db/migrate_recovery.go:97-105` | a file, whatever its text, counts as carrying transaction control exactly when one of the statements it is made of opens with it |
| `MigrationRecovery.TornFileStays` | `internal/db/migrate_recovery.go:97-105` | a file with transaction control that a killed process has torn apart stays exactly as torn, marked dirty, through every later run |
| `MigrationRecovery.UnknownVersionFails` | `internal/db/db.go:122-136` | a recorded version that no file has makes a run fail and is left alone |
| `MigrationRecovery.UpFromReaches` | `internal/db/db.go:122-136` | going up from any position, also one whose file has already run once, reaches a recoverable state, and the complete one when it succeeds |
| `MigrationRecovery.UpCompletes` | `internal/db/db.go:122-136` | a run given enough actions to finish every file succeeds |
| `MigrationRecovery.Migrator.RunMigrations` | `internal/db/db.go:122-136` | up, recovery when dirty, up once more: the specified run, step for step |
| `MigrationRecovery.Migrator.RecoverDirtySchema` | `internal/db/migrate_recovery.go:40-76` | nothing is forced unless the second look finds the schema dirty at the version first seen |
| `MigrationRecovery.Migrator.PlanDirtyRecovery` | `internal/db/migrate_recovery.go:82-114` | refused for versions below one, unreadable or unknown files and files with transaction control; otherwise the highest lower version |
| `MigrationRecovery.Migrator.RunUp` | `internal/db/db.go:122-125` | the mark, execute, clear loop, cut short where the process dies |
| `Poller.ScansNeverRepeat` | `internal/api/ws_poller.go:322-340` | main result: in every run, with scans and notifications in any order, a scan attempts no block of which the latest event that did anything about it succeeded, although pruning forgets |
| `Poller.DoneIffLatestSucceeded` | `internal/api/ws_poller.go:322-375` | the record of handled blocks holds exactly those whose latest attempt did not fail, or that the baseline took in |
| `Poller.BacklogDrains` | `internal/api/ws_poller.go:37-41` | main result: in scan-only operation a backlog of k rows above the head is drained after any n ticks with 32 n >= k |
| `Poller.InWindowRowsAreHandled` | `internal/api/ws_poller.go:29-35` | main result: over any scans, with queries failing or not, a row that commits late but above the window's lower edge is, at every later time, attempted, already seen, or still ahead of the head |
| `Poller.RetriedWhileInReach` | `internal/api/ws_poller.go:367-375` | main result: until one of its queries goes through, a row that stays present is attempted, and fails, on every single tick whose window reaches it, and is never left marked |
| `Poller.ScanMissesNothing` | `internal/api/ws_poller.go:278-341` | after a scan each row above the window's old edge is above the head, or marked, or failed in this very scan, or has been left behind by the window; one at or below the new head and not marked before was attempted |
| `Poller.BelowWindowIsNeverHandled` | `internal/api/ws_poller.go:307-320` | a row at or below the lower edge is never attempted by any later scan |
| `Poller.BatchCoversUpToNewHead` | `internal/api/ws_poller.go:37-41` | the 64-row cap strands nothing: every row above the window's edge and up to the new head was in the batch |
| `Poller.TickShrinksBacklog` | `internal/api/ws_poller.go:307-341` | each tick newly attempts all rows above the head or at least 32 of them, and the backlog shrinks by as much |
| `Poller.HeadIsMonotone` | `internal/api/ws_poller.go:347-351` | the head never moves back over any run |
| `Poller.ScanLeavesWindow` | `internal/api/ws_poller.go:335-340` | after every scan past the baseline the remembered blocks lie within the window behind the head, at most 33 of them |
| `Poller.BaselineReplaysNothing` | `internal/api/ws_poller.go:281-305` | after the baseline a scan over the same rows attempts nothing |
| `Poller.BaselineMarksOnly` | `internal/api/ws_poller.go:281-305` | the first successful query only marks what it returned; the head is the highest of its rows |
| `Poller.TickIsBounded` | `internal/api/ws_poller.go:37-41` | no tick attempts more than 64 blocks |
| `Poller.LiveScannedIsAfter` | `internal/api/ws_poller.go:278-341` | runs of scans over a changing table are runs of the same machine |
| `Poller.RunRemembers` | `internal/api/ws_poller.go:278-351` | in every run each handled block is still marked or has fallen behind the window, and nothing marked is above the head |
| `Poller.StepRemembers` | `internal/api/ws_poller.go:239-351` | every scan and every notification keeps that, and never lowers the head |
| `Poller.SeenWasHandled` | `internal/api/ws_poller.go:322-330` | a block a run has come to see was attempted by it |
| `Poller.HandleAllFacts` | `internal/api/ws_poller.go:322-330` | the blocks a scan attempts, the marks it leaves and the head it reaches, for any ascending batch |
| `Poller.ChainBroadcastState.ScanNetwork` | `internal/api/ws_poller.go:278-341` | baseline or catch-up scan with prune: the specified transition, also when the query fails; an event is reported exactly when some attempted block sent one |
| `Poller.ChainBroadcastState.BroadcastBlock` | `internal/api/ws_poller.go:347-443` | the block is marked first and unmarked by a failed query; only a sent event is reported |
| `Poller.ChainBroadcastState.HandleNotification` | `internal/api/ws_poller.go:253-264` | ignored before the baseline and for blocks a window or more behind the head, handled otherwise, and then reported exactly when an event was sent |
| `Hub.SlotsAndChannels` | `internal/api/ws_hub.go:64-191` | main result: in every reachable state the reserved slots are the handlers holding one plus the queued registrations plus the registered clients, in total and per IP, no entry is zero, no cap is exceeded, no channel was closed twice, and no possible next step writes to a closed one |
| `Hub.BroadcastReachesAll` | `internal/api/ws_hub.go:137-150` | main result: each registered client that wants the event and has room is written to exactly once and stays; each that wants it and has none is removed, closed and its slot given back; all others are left alone |
| `Hub.DirectReaches` | `internal/api/ws_hub.go:152-163` | a message for one client reaches it when it is registered and has room, drops it when it has none, and is nothing to a client that has left |
| `Hub.RefusedIff` | `internal/api/ws_hub.go:69-85` | in every reachable state a handler is refused exactly when a cap that is set is used up, in total or by its own IP; a cap of zero or less refuses nobody |
| `Hub.ReleaseUndoesAdmit` | `internal/api/ws_hub.go:69-103` | a release undoes an admission, and never takes the count below zero |
| `Hub.FanOutIsExact` | `internal/api/ws_hub.go:137-150` | for every order: who is written to and how often, who leaves, and whose channel is closed once more |
| `Hub.FanOutInOrder` | `internal/api/ws_hub.go:137-150` | the clients are written to in the order given |
| `Hub.ReachableInvariant` | `internal/api/ws_hub.go:64-191` | the slot and channel invariant holds after every schedule of steps |
| `Hub.StepKeeps` | `internal/api/ws_hub.go:118-191` | every step of the loop, the handlers and the clients keeps it |
| `Hub.WrittenIsOpen` | `internal/api/ws_hub.go:138-163` | a broadcast or direct send writes only to registered clients whose channel is open |
| `Hub.LeaksAreLateEnqueues` | `internal/api/ws_hub.go:165-190` | main result: once the drain has found both queues empty, nothing leaves the queue again, and what is queued from then on is exactly what handlers still enqueue |
| `Hub.StoppedSlots` | `internal/api/ws_hub.go:64-68` | once the loop has returned, the slots still reserved are exactly those of handlers holding one and of clients left in the queue, in total and per IP; every slot is free if and only if there are none; each other client's channel was closed exactly once |
| `Hub.SlotLeaks` | `internal/api/ws_handler.go:99-116` | an admitted handler that finds room in the queue after the loop has returned, where it could as well have seen the shutdown, leaves its slot reserved |
| `Hub.QueuesAreBounded` | `internal/api/ws_hub.go:50-61` | no more than 16 clients are ever queued, so no more than 16 slots leak |
| `Hub.ReachableLosesNone` | `internal/api/ws_hub.go:118-191` | every client ever created is queued, registered, or closed |
| `Hub.FanOutKeeps` | `internal/api/ws_hub.go:138-150` | whatever dropping one client keeps, a whole fan-out keeps |
| `Hub.AdmitAccounts` | `internal/api/ws_handler.go:61-70` | an admission reserves one slot and holds it, within the caps |
| `Hub.EnqueueAccounts` | `internal/api/ws_handler.go:89-103` | handing the client to the queue moves the slot without creating or losing one |
| `Hub.HolderReleases` | `internal/api/ws_handler.go:78-87` | a failed upgrade or a shutdown gives back exactly the handler's slot |
| `Hub.RegisterDistinct` | `internal/api/ws_hub.go:118-127` | taking a client from the queue keeps clients in one place each and the slots unchanged |
| `Hub.DropKeeps` | `internal/api/ws_hub.go:105-115` | dropping a client keeps the invariant, registered or not, so an unregister overtaking its register is harmless |
| `Hub.TearDownKeeps` | `internal/api/ws_hub.go:181-185` | each client closed at shutdown gives back its slot |
| `Hub.HubObject.Admit` | `internal/api/ws_hub.go:69-85` | admitted exactly under both caps, and counted; refused without any change |
| `Hub.HubObject.Release` | `internal/api/ws_hub.go:88-103` | one slot less, the last one of an IP removing its entry |
| `Hub.HubObject.RemoveClient` | `internal/api/ws_hub.go:107-115` | a registered client leaves, is closed once and gives back its slot; any other is left alone |
| `Hub.HubObject.Broadcast` | `internal/api/ws_hub.go:137-150` | exactly the clients of the order that want the event and have room are written to; the registered ones that want it and have none leave and are closed once more |
| `Hub.HubObject.TearDown` | `internal/api/ws_hub.go:181-187` | every client is closed and released whatever the iteration order, and the count ends at zero |
| `RateLimiter.RateBound` | `internal/api/ratelimit.go:72-112` | main result: while an IP is remembered, at most burst + rate * (t - s) of its requests are allowed between s and t, from any valid state |
| `RateLimiter.PoliteIsAllowed` | `internal/api/ratelimit.go:72-112` | main result: nobody who keeps to the rate is refused: from any valid state, a request that comes once a token has been earned since the same IP's previous one is allowed, whatever others have asked for in between, while the IP is remembered |
| `RateLimiter.TokenTakes` | `internal/api/ratelimit.go:95-99` | a token is earned in 1 / rate seconds |
| `RateLimiter.SweepInvisibleIff` | `internal/api/ratelimit.go:55-70` | main result: whatever the capacity, over traces with no more distinct IPs than it holds, forgetting idle visitors changes no decision if and only if three idle minutes refill a whole burst |
| `RateLimiter.RateBoundDespiteSweeps` | `internal/api/ratelimit.go:55-112` | under that condition the bound holds across sweeps as well, on every such trace |
| `RateLimiter.SweepsAreInvisible` | `internal/api/ratelimit.go:55-70` | under that condition every such trace decides as if nothing had been swept |
| `RateLimiter.RequestHasRoom` | `internal/api/ratelimit.go:118-121` | on a trace with no more distinct IPs than the capacity no request evicts anybody |
| `RateLimiter.SweepIsVisible` | `internal/api/ratelimit.go:55-70` | otherwise two bursts around one sweep are decided differently |
| `RateLimiter.Conservation` | `internal/api/ratelimit.go:95-111` | requests allowed plus tokens left never exceed the initial level plus the refill |
| `RateLimiter.RequestDraws` | `internal/api/ratelimit.go:86-111` | a request is allowed exactly when the level reaches one, and then draws one token |
| `RateLimiter.OperationsKeepValid` | `internal/api/ratelimit.go:55-128` | keys and list stay equal, duplicate-free, ordered by recency, within capacity, with tokens in [0, burst] |
| `RateLimiter.TracesKeepValid` | `internal/api/ratelimit.go:55-128` | the same over any trace with a clock that does not run backwards |
| `RateLimiter.EvictionTakesOldest` | `internal/api/ratelimit.go:114-128` | eviction makes room and removes a visitor seen no later than any other |
| `RateLimiter.MoveToFrontValid` | `internal/api/ratelimit.go:95-104` | moving a visitor to the front keeps all of that |
| `RateLimiter.RateLimiterObject.Allow` | `internal/api/ratelimit.go:72-112` | a disabled limiter allows and records nothing; otherwise the specified decision and state |
| `RateLimiter.RateLimiterObject.Decide` | `internal/api/ratelimit.go:86-111` | the in-place update computes the specified decision and state |
| `RateLimiter.RateLimiterObject.EvictIfFull` | `internal/api/ratelimit.go:118-128` | only a full limiter gives up its back entry |
| `RateLimiter.RateLimiterObject.Cleanup` | `internal/api/ratelimit.go:59-68` | exactly the visitors idle for more than three minutes are forgotten, from map and list |
| `Aggregation.RegroupingIsExact` | `internal/api/chart_handlers.go:1984-2024` | main result: summing stored groups equals summing the rows behind them, for any selection made on the key |
| `Aggregation.NestedFloor` | `internal/api/chart_handlers.go:1985-1989` | flooring to a fine bucket first does not change the coarse bucket |
| `Aggregation.AlignedBound` | `internal/api/chart_handlers.go:1437-1438` | an aligned bound cuts times and their buckets at the same place |
| `ChartRollups.RollupChartIsRawChart` | `internal/api/chart_handlers.go:1971-2078` | main result: for every accepted bounded time request the rollups serve, the rollup chart equals the raw chart point by point, given stored rows that are the from-scratch aggregates of their buckets |
| `ChartRollups.ChartConserves` | `internal/api/chart_handlers.go:1971-2045` | main result: a chart starts at the start of its request, has one point per bucket, and its counts, bytes and costs add up to those of all blobs in the range |
| `ChartRollups.RawPointMeans` | `internal/api/chart_handlers.go:1984-2045` | what a point says, apart from the queries: the blobs of its bucket, their bytes and cost, the average fee of the blocks that recorded one to the nearest whole number, and the same bytes as calldata at 16 gas each |
| `ChartRollups.BlobBucketMeans` | `internal/db/fine_rollups.go:34-50` | a stored blob row counts and sums its sender's blobs between the start and the end of the bucket |
| `ChartRollups.FeeBucketMeans` | `internal/db/fine_rollups.go:71-122` | a stored block row sums the execution fees of the bucket's blocks, counts those that recorded one, and is computed from exactly those blocks |
| `ChartRollups.AcceptedIff` | `internal/api/chart_handlers.go:524-593` | main result: a request is accepted, and as what, exactly when its words say so: the span its range names in buckets as its granularity names them, no longer than the span, no more of them than allowed, the last one holding the present |
| `ChartRollups.RejectedIff` | `internal/api/chart_handlers.go:524-660` | an unknown range, a finer view of everything and an unknown granularity are each rejected as such, and never anything else as that |
| `ChartRollups.TooCoarseOrTooMany` | `internal/api/chart_handlers.go:553-580` | too coarse exactly when a bucket is longer than the span, too many points exactly when otherwise more buckets than allowed are needed |
| `ChartRollups.ServedIff` | `internal/api/chart_handlers.go:697-730` | an hour and above is served from rows of the same size, below from minutes, exactly when these reach back to the start; whatever serves is a size of which rows are kept, and divides the bucket |
| `ChartRollups.PointAgrees` | `internal/api/chart_handlers.go:2000-2045` | count, bytes, cost, calldata equivalent and average fee of one point agree |
| `ChartRollups.SelectionAgrees` | `internal/api/chart_handlers.go:1994-1998` | selecting rows by their stored bucket is selecting them by their time, for an aligned range |
| `ChartRollups.AcceptedIsAligned` | `internal/api/chart_handlers.go:524-593` | an accepted bounded time request is aligned at both ends, holds the present in its last bucket and stays within the point limit |
| `ChartRollups.AlignedWindow` | `internal/api/chart_handlers.go:669-675` | the end is the next bucket boundary after now and the start is aligned with it |
| `ChartRollups.TruncateIsFloor` | `internal/api/chart_handlers.go:669-675` | a bucket that divides a day is truncated since year 1 as it is since the Unix epoch |
| `ChartRollups.SubHourFitsRetention` | `internal/api/chart_handlers.go:697-701` | for a day after it was made, a sub-hour request does not reach behind the retention of the fine buckets |
| `ChartRollups.BlobColumn` | `internal/api/chart_handlers.go:2000-2009` | each summed blob column agrees with the raw sum |
| `ChartRollups.FeeColumn` | `internal/api/chart_handlers.go:2010-2024` | each summed fee column agrees with the raw sum |
| `FineRollups.ChunkRewritesItsBuckets` | `internal/db/fine_rollups.go:24-139` | main result: rewriting an aligned chunk sets each of its buckets with raw rows to the from-scratch aggregate and changes no other bucket; the columns of the block table that are not summed here are kept as the rows they are computed from |
| `FineRollups.ChunkSeesWholeBuckets` | `internal/db/fine_rollups.go:21-28` | each group of an aligned chunk holds exactly the rows of its bucket, so every column of the two statements, the attribution included, is what it would be from scratch |
| `FineRollups.RewrittenAt` | `internal/db/fine_rollups.go:24-139` | a bucket of the chunk becomes exact if nothing is stored in it without raw rows; a bucket outside it stays as it is |
| `FineRollups.PrunedAt` | `internal/db/fine_rollups.go:242-260` | neither commit of a prune touches a bucket at or after the cutoff |
| `FineRollups.BlobInsertedAt` | `internal/db/migrations/000005_fine_chart_rollups.up.sql:129-165` | an inserted blob keeps every bucket within the retention as good as it was, whether or not its trigger still maintains it |
| `FineRollups.BlockInsertedAt` | `internal/db/migrations/000005_fine_chart_rollups.up.sql:64-81` | so does an inserted block |
| `FineRollups.BlobDeletedAt` | `internal/db/migrations/000005_fine_chart_rollups.up.sql:167-186` | so does a blob deleted by a reorg |
| `FineRollups.BlockDeletedAt` | `internal/db/migrations/000005_fine_chart_rollups.up.sql:83-100` | so does a deleted block |
| `FineRollups.BackfillShape` | `internal/indexer/fine_rollups.go:87-106` | the driver's chunks are aligned, non-empty and contiguous from the newest end to the start |
| `FineRollups.GroupBlobs` | `internal/db/fine_rollups.go:34-50` | grouping the chunk's blobs by bucket and sender, one row at a time, counts and sums them as the statement does |
| `FineRollups.GroupFees` | `internal/db/fine_rollups.go:71-122` | grouping the chunk's blocks by bucket sums the fee columns and collects the rows the other columns are computed from |
| `FineRollups.RollupTables.BackfillFineChartRollupsChunk` | `internal/db/fine_rollups.go:149-173` | misaligned bounds and failures change nothing; otherwise both tables are rewritten together |
| `FineRollups.RollupTables.PruneFineChartRollups` | `internal/db/fine_rollups.go:242-260` | two commits: a failure of the first changes nothing, a failure of the second leaves the blob table pruned and the block table not; the total is what has been removed by then |
| `FineRollups.RollupTables.BackfillFineRollups` | `internal/indexer/fine_rollups.go:75-118` | the loop performs the chunks newest first and stops at the first failure |
| `FineCoverage.RunStaysExact` | `internal/db/fine_rollups.go:141-260` | main result: whatever interleaving of chunks, half prunes, rows inserted and deleted anywhere and time passing, every bucket at or after the edge the backfill has reached and within the retention, hence after every cutoff used, is exact |
| `FineCoverage.StepKeeps` | `internal/db/fine_rollups.go:141-260` | each single step keeps that |
| `FineCoverage.FineChartIsRawChart` | `internal/api/chart_handlers.go:697-730` | main result: over any such run in which no block bucket has been stored below the edge by the time of the probe, a sub-hour chart that the probe lets the fine buckets serve is the chart a raw scan would draw, whatever commits between the probe and the chart |
| `FineCoverage.ChartAboveEdgeIsRawChart` | `internal/api/chart_handlers.go:697-701` | without any condition on the signal, a sub-hour chart starting at or above the edge is exact |
| `FineCoverage.HalfPruneIff` | `internal/db/fine_rollups.go:242-260` | between the two commits of a prune the coverage signal stays sound if and only if no blob bucket was stored between the oldest block bucket and the cutoff |
| `FineCoverage.HalfPruneMisleads` | `internal/db/fine_rollups.go:245-258` | one blob and one block of the same second, after the first commit only |
| `FineCoverage.BlockBelowIff` | `internal/api/queries.go:941-954` | a block inserted below the kept buckets leaves the signal sound if and only if its own bucket holds no blobs and no raw row lies between it and them |
| `FineCoverage.FirstBlockMisleads` | `internal/indexer/fine_rollups.go:77-80` | the first block after the migration, in a minute that already has a blob |
| `FineCoverage.BlockDeletedBelowIff` | `internal/db/migrations/000005_fine_chart_rollups.up.sql:83-100` | a block deleted below the kept buckets is harmless when it was the last of its bucket; otherwise the same condition decides |
| `FineCoverage.DeletedBlockMisleads` | `internal/db/migrations/000005_fine_chart_rollups.up.sql:83-100` | one of two blocks deleted from a minute below the edge that also has a blob |
| `FineCoverage.BlobBelowIsHarmless` | `internal/api/queries.go:947-950` | a blob inserted or deleted below the kept buckets never misleads the signal |
| `FineCoverage.MaintainedRowKeeps` | `internal/db/migrations/000005_fine_chart_rollups.up.sql:64-186` | a row its trigger maintains, blob or block, coming or going at or above the edge, keeps everything exact |
| `FineCoverage.LateRowIff` | `internal/db/migrations/000005_fine_chart_rollups.up.sql:46-57` | a row too old for its trigger, blob or block, inserted or deleted, leaves the signal sound if and only if its bucket lies below the oldest stored block bucket |
| `FineCoverage.LateRowMisleads` | `internal/db/migrations/000005_fine_chart_rollups.up.sql:46-57` | a blob or a block that comes or goes two days and thirteen seconds late in a stored bucket |
| `FineCoverage.LateRowSpoils` | `internal/db/migrations/000005_fine_chart_rollups.up.sql:46-57` | such a row leaves its bucket other than a chunk would write it |
| `FineCoverage.SkippingChunkIff` | `internal/indexer/fine_rollups.go:66-71` | what the newest-first order avoids: a chunk with blocks written below a gap leaves the signal sound if and only if the gap holds no raw rows |
| `FineCoverage.ChunkMendsCoverage` | `internal/indexer/fine_rollups.go:77-80` | a chunk reaching below every stored block bucket mends the signal, whatever has landed below the edge before |
| `FineCoverage.RunKeepsCoverage` | `internal/api/queries.go:948-950` | the signal stays at or above the edge over every run in which no trigger recomputes a block bucket below it |
| `FineCoverage.RunIsOrderly` | `internal/indexer/fine_rollups.go:77-80` | no trigger does so over any run whose row transactions begin a retention or more after the edge, as from the minute after a completed backfill began |
| `FineCoverage.OrderlyAfterBackfill` | `internal/db/migrations/000005_fine_chart_rollups.up.sql:46-57` | the same for one step |
| `FineCoverage.BackfillIsPossible` | `internal/indexer/fine_rollups.go:87-113` | wherever the driver is aborted, on an empty table or over what an earlier run kept, its chunks are such steps and the edge has reached the last of them |
| `FineCoverage.PruneKeeps` | `internal/db/fine_rollups.go:236-260` | after both commits a sound signal is sound again |
| `FineCoverage.PruneRemovesExpiredOnly` | `internal/db/fine_rollups.go:236-260` | a bucket is removed exactly when all of it is older than the cutoff |
| `FineCoverage.KeptIsInvariant` | `internal/indexer/fine_rollups.go:75-80` | the state before the first chunk is one such runs can start from |
| `FineCoverage.ExactBucketsAreExactRollups` | `internal/api/queries.go:941-954` | listing the stored rows of exact buckets gives the rows the chart query needs |
| `Wildcard.WildcardMatch` | `internal/api/cors.go:294-321` | main result: true if and only if the value is the pattern with some string put in place of each star |
| `Wildcard.MatchParts` | `internal/api/cors.go:307-320` | the leftmost-first loop decides whether the parts occur in order, the last one at the end |
| `Wildcard.GreedyIsComplete` | `internal/api/cors.go:308-317` | committing to the leftmost occurrence loses no match |
| `Wildcard.GreedyIsExact` | `internal/api/cors.go:308-317` | a part and what follows it match if and only if they do from its leftmost occurrence |
| `Wildcard.EarlierCut` | `internal/api/cors.go:308-317` | what matches behind a later cut matches behind an earlier one |
| `Wildcard.SplitMatches` | `internal/api/cors.go:302-320` | a pattern matches if and only if its first part is a prefix and the others follow in order |
| `Wildcard.StarSplits` | `internal/api/cors.go:302-320` | behind a star the first part may start anywhere |
| `CandidateRepair.RepairIsExact` | `internal/db/db.go:455-535` | main result: exactly the rows that were not stale remain; the aggregates of a touched snapshot block count, sum and rank its remaining rows, any other block's do if they did before, and nothing else changes |
| `CandidateRepair.AggregatesSummarise` | `internal/db/db.go:520-528` | the computed aggregates are exactly the number of the block's rows, the number of eligible ones, the sum of their blobs and the highest of their tips, None when none has a tip |
| `CandidateRepair.RepairIsIdempotent` | `internal/db/db.go:465-538` | a second repair changes nothing |
| `CandidateRepair.BoundedWalkIsReachability` | `internal/db/db.go:475-490` | main result: where the replacement log ends or loops within 32 steps, the bounded walk decides full reachability |
| `CandidateRepair.BumpsBeyondTheBound` | `internal/db/db.go:476-490` | a transaction bumped n times and then confirmed in a lower block is found out if and only if n is at most 32 |
| `CandidateRepair.LoopStaysInBound` | `internal/db/db.go:441-443` | a log that loops within the bound shows every hash within the bound |
| `CandidateRepair.UntouchedAggregates` | `internal/db/db.go:515-538` | a block without stale rows keeps its aggregates |
| `CandidateRepair.IsStale` | `internal/db/db.go:466-490` | the walk of at most 32 replacements decides staleness |
| `CandidateRepair.DeleteStale` | `internal/db/db.go:465-513` | the rows kept, and each affected block once |
| `CandidateRepair.CandidateTables.RepairIncludedBlobInclusionCandidates` | `internal/db/db.go:455-535` | one transaction: the specified tables with the aggregates of every touched snapshot block summarising its rows, the number of rows removed and the distinct blocks, or no change |
| `IndexedBlocks.QueryIsFirstGap` | `internal/db/db.go:284-326` | main result: the three-arm query returns a block if and only if it is the least block of the range that is not indexed, one past the range when none is missing |
| `IndexedBlocks.CandidatesAreGaps` | `internal/db/db.go:302-318` | every candidate is a missing block of the range |
| `IndexedBlocks.FirstGapIsCandidate` | `internal/db/db.go:302-318` | the first gap is among the candidates |
| `InclusionWindow.BracketedProbeIsMinimum` | `internal/api/blob_inclusion_queries.go:67-80` | main result: the probe between the bracketing builder rows finds the first block at or after the time among all indexed blocks, whichever way ties are broken |
| `InclusionWindow.WindowCoversCandidates` | `internal/api/blob_inclusion_queries.go:53-98` | the window contains every candidate row it counts and every block from the first at or after the time the transaction was seen; it starts at one of the two and ends below the including block, or at the newest; it is the empty span behind its end when nothing has happened yet |

## Left out

- HTTP handlers, JSON shapes, response caching, metrics, logging and router wiring: plumbing around the modelled state.
- The fee and excess-gas formulas of go-ethereum: of that library only the fork checks are modelled (the London block and the fork time are set, and the time has been reached). `GetBlobParams` and `ForkName` are thin switches over the same checks.
- Hub.BroadcastReachesAll: which clients want an event, by network and subscription, and whose buffers are full are chosen freely.
- SQL triggers: a row inserted or deleted is a step that also updates its fine bucket as the trigger does, within the retention; an upsert that replaces a row is not a step of its own, and streaks, per-user statistics and coarse buckets are not modelled.
- RPC, PostgreSQL and LISTEN/NOTIFY transport, websocket frames, tickers and goroutine scheduling: replaced by freely chosen inputs and steps.
- Unicode: letters, digits, blanks and case folding are the ASCII ones.
- Sorting: `sort.SliceStable` is modelled by a stable insertion sort, and `sort.Slice` over distinct times by insertion into an ascending list; how the library sorts is not.
- AttributionSync.Service.RefreshBlobList: an artifact that is not found is reported as any other failed fetch, where the code logs it and reports no error; a service without a database is not modelled. The look-up of a row that arrives meanwhile and its insertion are one step.
- MigrationRecovery.SuccessIsUninterrupted: other migrators run between the failed attempt and the second look at the row, not between that look and the forcing; the library's advisory lock serialises the rest. That the server rolls back a killed file without transaction control as a whole is a hypothesis of the step, as the code's comment argues, and so is that files without transaction control are safe to run twice.
- SqlSplitter.SplitIsExact: a doubled quote inside a quoted identifier reads as two adjacent pieces, which blanks to two blanks as in the code. Two forms of PostgreSQL are read otherwise by the code, and so by the grammar: escape strings such as `E'\''`, whose backslash the code does not honour, and identifiers containing `$tag$`, in which the code sees a dollar quote.
- Poller: 64-bit wrap-around of a block number near the top of its range plus 32 is not modelled, nor are deletions by a reorg within a run of `InWindowRowsAreHandled`, where a row stays present once committed.
- RateLimiter.RateBound: says nothing across a residency that ends in a capacity eviction, after which a returning IP starts with a full bucket.
- ChartRollups.RollupChartIsRawChart: bounded ranges only; the unbounded range, the columns with medians, percentiles, utilisation and attribution, the summary row, the block-granularity query, and the trimming and lower-casing of query strings are not modelled. The average fee is rounded exactly, half away from zero, in both queries.
- FineRollups.ChunkRewritesItsBuckets: of the blob table the attribution column is missing, which triggers keep by another rule than the chunk statement does, so it is not claimed to be exact; `ChunkSeesWholeBuckets` says what a chunk computes it from. In the block table the counts, extremes, further sums, median and percentile are represented by the rows they are computed from.
- FineRollups.GroupBlobs: the attribution column is not computed.
- FineRollups.GroupFees: columns other than the two fee columns are not computed from the collected rows.
- FineCoverage.FineChartIsRawChart: the chart is drawn within a day of the request.
- CandidateRepair.RepairIsExact: a repair whose transaction fails leaves the tables alone; how the statements are planned is not modelled.
- SchedulePoll: columns are limited to the database's integer ranges; an entry outside them fails the whole reconcile, as the driver would.
- Singleflight response caches, builder snapshots, pagination, explorer links, configuration loading and percentile estimates: easy or approximate.
