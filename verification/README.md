# One reference table, from draft to publish and back

This project models how the repository keeps a *reference table*: governed
records (`dim_<table>`), value mappings (`map_<table>`), per-author drafts,
`record_version` stamps and tombstones, numbered snapshots, and
`table.published` events. It proves what every transaction keeps, what whole
runs guarantee, and exactly when the guarantees that hold only sometimes do
hold.

How it is arranged:

- `RefTable.dfy` is the specification: the six tables as one value, one
  function or relation per transaction, and `Step` for runs. A refused
  transaction changes nothing. Each transaction reads a later `now()` than the
  one before.
- `Store.dfy` is the same table in place: a class whose methods run the
  statements of each transaction one after another and are proved against the
  specification; each call is a step of a run and keeps the class invariant
  `Valid()`. `ManualTable.dfy` does so for the position column, where the
  rebalance is *not* one transaction.
- `RecordEdits.dfy`, `Selection.dfy` and `Publishing.dfy` say what each transaction
  does to the six tables column by column, in terms of the rows before and after.
- `Invariants.dfy`, `Runs.dfy`, `Integrity.dfy`, `ExactDiff.dfy`,
  `CommitFold.dfy`, `Rollback.dfy`, `Tombstones.dfy`, `Lifetimes.dfy`,
  `Hierarchy.dfy` and `Pull.dfy` prove properties of runs of that state machine.
  `RollbackGap.dfy`, `RevertGap.dfy`, `RemapGap.dfy` and `PullGap.dfy` are runs from
  the empty table in which something goes wrong.
- `Ordering.dfy` and `Links.dfy` hold the two structures inside the state: sparse
  positions, and single-valued links (parents, tombstones).
- `Paging.dfy`, `Keyset.dfy`, `CappedFeed.dfy`, `ScanFold.dfy`, `Clusters.dfy`,
  `SeedKeys.dfy` and `DraftFold.dfy` are the readers and folds around it; `Publishers.dfy` interleaves publish
  transactions statement by statement; `WorkerPool.dfy` and `RateLimit.dfy` are
  the promise pool and the limiter.

What the proofs say is not as the code or its comments promise:

- A rollback can change the working copy and publish nothing: a record that was
  created by folding a draft has no version row, so a restore that removes it
  leaves no trace (`RollbackPublishesIff`, `RollbackWithoutVersion`).
- Revert leaves the version rows of added records live, and does not look at
  mappings, which can be left targeting nothing (`RevertIntegrity`,
  `RevertLeavesMappingDangling`). A consumer that had read such a record never
  hears that it is gone (`StepBuriesIff`, `RevertedRecordLingers`); and a draft
  that creates it again puts it into the feed behind cursors already handed out,
  so that a pull misses it (`StepMovesIff`, `ReaddedRecordIsMissed`).
- A publish that creates the record of a retired key leaves its tombstone: from then
  on the record is listed as removed and no page of the feed shows it
  (`StepHidesIff`, `RecreatedRecordIsHidden`).
- When several authors drafted a value that is already mapped, the newest draft
  is certain to win only if all others ask for the same target or the current one
  (`NewestWinsIff`, `OlderDraftWins`), although the comment beside the warehouse list says both
  sides apply the latest draft.
- The row-by-row rebalance succeeds exactly when no target slot is taken by a row
  further down (`ManualTable.Rebalance`); a failed one leaves the rows in another
  order unless its first write failed or the row it stopped at lies below the last
  slot given out (`FailedRebalanceOrderIff`, `FailedRebalanceScrambles`).
- The capped scan feed repeats a value that is mapped under two spellings, and can
  claim that more values exist than do (`CappedExactIff`, `TwoSpellings`).
- Drafts of one value by authors without a user row are all filed under one unknown
  author, so that the browser keeps the last only (`LoadDrafts`, `ShownApartIff`).
- A page limit between zero and one is rounded down to no rows, and the request
  fails (`ClampLimit`, `ReadPage`).
- What a rollback publishes is what the table holds by then, not version v, if
  others write between its two transactions (`RollbackInterleaved`,
  `RollbackOvertaken`).
- "Move to the top, before row X" is not checked for being the top
  (`MoveToTopNamed`, `StaleTopMove`).
- The comment that distinct cluster keys yield distinct slugs holds for ASCII
  values with letters or digits, not in general (`KeysClashIff`, `AccentsClash`).
- The browser's fold picks what publish applies only when the winner is eligible,
  no other spelling of the value beats it, and no other author drafted the value
  later within the same millisecond: the browser sees times cut to milliseconds,
  publish goes by the microsecond (`ShownIsPublishedIff`, `RejectedDraftHides`,
  `SameMillisecondDiffers`).
- The mapped count and the mapped rows of a scan are taken over join rows, so the
  count of new values and the unmapped rows can be negative (`MappedCountExactIff`,
  `MappedRowsExactIff`, `NewCountCanBeNegative`, `UnmappedRowsCanBeNegative`).
- `Retry-After` can be half a second short (`RetryAfterSufficesIff`,
  `RetryAfterTooEarly`).

## Model

| member | source | states |
|---|---|---|
| `Invariants.StepKeeps` | server/src/repo-drafts.ts:917-1100 | every transaction keeps row shapes, the unique position index, versions 1..n with one snapshot and event each, stamps not in the future, and only tombstones naming a survivor |
| `Invariants.FoldPositionsDistinct` | server/src/repo-drafts.ts:980-1000 | the slots given to the records that a publish creates never collide with each other or with old rows |
| `Invariants.DenseHead` | server/src/repo-drafts.ts:417-424 | with dense versions the snapshot of the highest version is the last one written |
| `Runs.RunKeeps` | server/src/repo-drafts.ts:745-1178 | those facts hold in every state of every run |
| `RecordEdits.AddMeans` | server/src/repo-record.ts:717-754 | the new record has its label, null cells, the slot 1024 beyond the last position or beyond 0, and a version row at 1 or one beyond its tombstone; nothing else differs |
| `RecordEdits.AddAppends` | server/src/repo-record.ts:59-73 | so in a manually ordered table it is listed last |
| `RecordEdits.AddRefusedIff` | server/src/repo-record.ts:717-754 | only a key in use is refused, and an empty key passed over |
| `RecordEdits.RenameMeans` | server/src/repo-record.ts:900-927 | it succeeds iff the version presented is the live one, or 1 for a record without one; then the label and one version row differ, and otherwise the error says conflict or not found |
| `RecordEdits.RetireMeans` | server/src/repo-record.ts:1045-1102 | it is refused iff a mapping targets the key or the version is not current; then the record is gone and its row is a tombstone of this moment |
| `RecordEdits.EditMeans` | server/src/repo-record.ts:1834-1913 | an accepted edit stores the value given, or null for a parent that does not exist, in one cell, and stamps the record; no other column of any record differs |
| `RecordEdits.ParentStored` | server/src/repo-record.ts:1886-1910 | an accepted existing parent becomes the link of that record in that column, and no other link differs |
| `RecordEdits.ReorderMeans` | server/src/repo-record.ts:2344-2381 | an accepted reorder of the table itself is the list move asked for and writes one position; names, cells and versions stay |
| `RecordEdits.ReorderRefusedIff` | server/src/repo-record.ts:2282-2297 | it is refused iff the table is not manually ordered or the order refuses it, and for that reason |
| `RecordEdits.RevertMeans` | server/src/repo-drafts.ts:599-633 | a revert puts each changed record back as published or takes it away, at a new version, live again if it is back; nothing else differs |
| `RecordEdits.RestoreMeans` | server/src/repo-rollback.ts:57-106 | a restore leaves exactly the records and mappings of the version, each record live at a new version, and retires every other live row |
| `Integrity.StepSoundIff` | server/src/repo-record.ts:963-1034 | a transaction keeps each mapping on a record, a record behind each live version row, and every stored snapshot sound, iff it is not a revert that takes away a record while a mapping or a live version row points at it |
| `Integrity.IntegrityOverRuns` | server/src/repo-record.ts:963-1034 | so these hold over every run in which no revert does that, and from the empty table on |
| `Integrity.IntegrityFromEmpty` | server/src/repo-record.ts:963-1034 | in particular for every table that began empty |
| `Integrity.CommitSound` | server/src/repo-drafts.ts:949-1051 | a publish re-establishes this: folded targets exist by the time the snapshot is taken |
| `Integrity.RestoreRepairs` | server/src/repo-rollback.ts:50-107 | a restore makes any working copy, damaged or not, sound again, with live version rows for exactly the restored records |
| `Integrity.RevertIntegrity` | server/src/repo-drafts.ts:599-624 | after a revert the mappings resolve iff every mapping onto a reverted key targets a published record, and live rows have records iff every live reverted key was published |
| `RevertGap.RevertLeavesMappingDangling` | server/src/repo-drafts.ts:599-624 | a run from the empty table (publish, add, merge, revert) after which a mapping targets a record that is gone |
| `ExactDiff.ChangedIsFullDiff` | server/src/repo-drafts.ts:451-503 | the stamp-driven change set equals the key-by-key difference with the head snapshot iff every differing record was stamped since the last publish |
| `ExactDiff.StepStampsIff` | server/src/repo-drafts.ts:451-503 | a transaction leaves every difference stamped iff it is not a restore that takes away a published record without a trace |
| `ExactDiff.ExactOverRuns` | server/src/repo-drafts.ts:451-503 | so the change set is the full difference in every state of every run in which no restore does that |
| `ExactDiff.EarlierSinceIsExact` | server/src/repo-drafts.ts:451-478 | where the change set is exact, a time of the last publish that was cut to an earlier one gives the same change set |
| `ExactDiff.CommitIsClean` | server/src/repo-drafts.ts:1030-1100 | nothing is pending right after a publish, although snapshots also hold formula columns |
| `ExactDiff.CanonDropsComputed` | server/src/repo-drafts.ts:438-441 | comparing on physical columns ignores what formulas add to a snapshot row |
| `ExactDiff.RevertRestoresHead` | server/src/repo-drafts.ts:573-633 | a revert makes the records equal to the head snapshot with nothing pending iff every differing record was stamped |
| `ExactDiff.RevertIsIdempotent` | server/src/repo-drafts.ts:595-597 | a second revert changes nothing |
| `ExactDiff.RevertIsPublished` | server/src/repo-drafts.ts:599-624 | even after restores, every record that a revert leaves is in the head snapshot with the published values |
| `ExactDiff.RestoreStamps` | server/src/repo-rollback.ts:80-106 | after a restore the change set is still the full difference iff every head record that version v lacks left a trace |
| `CommitFold.CommitRefinesFold` | server/src/repo-drafts.ts:949-1028 | publishing refines the simple fold on any mapping table: each drafted value ends with a row, and all its rows have the newest eligible draft's target if it had none or has one eligible draft; other mappings stay; one row per lower-cased value is kept where it held; exactly the selected mapped drafts go |
| `CommitFold.OneRowOverRuns` | server/src/repo-drafts.ts:1011-1022 | a table that maps each value once does so over every run, and so does every version it stores |
| `CommitFold.LastSaveWins` | server/src/repo-drafts.ts:194-212 | the draft saved last is the newest of its value, and maps an unmapped value at the next publish that takes it |
| `CommitFold.LastSaveWinsInRuns` | server/src/repo-drafts.ts:194-212 | so it is in every state of every run from the empty table |
| `CommitFold.DiscardUndoesSave` | server/src/repo-drafts.ts:356-370 | discarding after a save leaves the state as it was before the save but for the clock and the discarded draft |
| `Selection.SaveMeans` | server/src/repo-drafts.ts:194-212 | a save replaces the author's own draft of the value by one of now that is not rejected, and nothing else |
| `Selection.DiscardMeans` | server/src/repo-drafts.ts:356-370 | a discard removes the author's own draft of the value and nothing else |
| `Selection.RejectTakes` | server/src/repo-drafts.ts:348-397 | a draft is rejected iff it is mapped and some selector names its value and its author or no author; every other draft is the same |
| `Selection.RejectCounts` | server/src/repo-drafts.ts:372-397 | only an empty reason is refused, and what is counted is the drafts changed |
| `Selection.RejectOne` | server/src/repo-drafts.ts:348-351 | a value with its author selects that author's draft and nobody else's |
| `Selection.RejectValue` | server/src/repo-drafts.ts:345-351 | a value alone selects every author's draft of it |
| `Selection.RejectUnion` | server/src/repo-drafts.ts:348-351 | selectors together reject what either part rejects |
| `Selection.PublishTakes` | server/src/repo-drafts.ts:809-817 | a publish takes exactly the mapped drafts selected, by value and author, and by the author it is confined to |
| `Selection.PublishOne` | server/src/repo-drafts.ts:809-817 | for one value of one author that is that draft alone |
| `Selection.PublishAppliesTaken` | server/src/repo-drafts.ts:964-1028 | every new or changed mapping and every new record comes from a draft that was taken; old records stay as they are |
| `Selection.TakenApplies` | server/src/repo-drafts.ts:964-1028 | every taken draft with a target leaves its target as a record, labelled so if new, and its value mapped |
| `Selection.NewestTakenApplies` | server/src/repo-drafts.ts:1011-1022 | an unmapped value gets the target of the taken draft saved last, the first author winning at one time |
| `Selection.MappedRowFollowsTaken` | server/src/repo-drafts.ts:964-978 | a mapping row keeps its target iff no taken draft of the value asks for another |
| `Publishing.PublishRefusals` | server/src/repo-drafts.ts:784-900 | which of its refusals a publish gives, in the order of the code, and when there is nothing to do |
| `Publishing.FourEyesHolds` | server/src/repo-drafts.ts:873-900 | under the rule of two nobody but the system publishes a draft of their own |
| `Publishing.NewRecordsPlaced` | server/src/repo-drafts.ts:986-1000 | new records stand below the old ones, 1024 apart, in the order in which they were first asked for |
| `Publishing.VersionWritten` | server/src/repo-drafts.ts:1030-1100 | the version holds every mapping and record as they are now, with the formula results given, under the next number, with the kind and origin of the request and one event |
| `CommitFold.UnmappedGetsNewest` | server/src/repo-drafts.ts:1011-1022 | an unmapped value gets the target of its newest eligible draft, created_at first, then user |
| `CommitFold.MappedGetsOnly` | server/src/repo-drafts.ts:964-978 | a mapped value with one eligible draft gets that draft's target |
| `CommitFold.NewestWinsIff` | server/src/repo-drafts.ts:964-978 | for any mapped row every outcome of the update applies the newest draft iff all eligible drafts of the value ask for its target or the current one |
| `RemapGap.OlderDraftWins` | server/src/repo-drafts.ts:964-978 | a run from the empty table whose publish applies the older of two drafts of a mapped value |
| `CommitFold.FoldExists` | server/src/repo-drafts.ts:964-1022 | each permitted choice of one remap extends to a whole outcome of the fold |
| `CommitFold.TiesAreSameAuthor` | server/src/repo-drafts.ts:1020-1020 | two drafts tie in the fold order only when one author drafted two spellings at one instant |
| `Rollback.RollbackResult` | server/src/repo-rollback.ts:50-118 | after a rollback records and mappings are version v's, drafts are untouched, live version rows are exactly the records, and one version with v's content is appended unless the change set was empty |
| `Rollback.RollbackPublishesIff` | server/src/repo-rollback.ts:114-118 | a rollback publishes iff some record differs between the head and version v and the restore leaves a trace of it |
| `Rollback.RollbackPublishesWhenVersioned` | server/src/repo-rollback.ts:109-118 | if every published record has a live version row, that is iff version v differs from the head |
| `Rollback.RollbackUndone` | server/src/repo-rollback.ts:22-118 | rolling back to the old head undoes a rollback |
| `Rollback.RollbackInterleaved` | server/src/repo-rollback.ts:109-118 | when transactions come between restore and publish, the appended version holds what the table holds by then: version v iff they left its records and mappings alone |
| `RollbackGap.RollbackOvertaken` | server/src/repo-rollback.ts:109-118 | a run from the empty table in which a record is added in between: the version said to restore version 1 holds it |
| `Rollback.EmptyFold` | server/src/repo-drafts.ts:809-812 | publishing with an empty selection folds nothing |
| `RollbackGap.RollbackWithoutVersion` | server/src/repo-rollback.ts:109-118 | a run from the empty table whose rollback removes a published record and appends no version |
| `Tombstones.MergeResolution` | server/src/repo-record.ts:1022-1026 | a value that resolved to a named loser resolves to the survivor, which its tombstone names; all others resolve as before, and no mapping row is lost |
| `Tombstones.MergeRetires` | server/src/repo-record.ts:1022-1033 | every named loser but the survivor leaves the table and becomes a tombstone of this moment naming the survivor, which nothing maps to; the survivor is bumped; every other record and version row stays |
| `Tombstones.MergeGoesThroughIff` | server/src/repo-record.ts:952-1020 | a merge goes through iff there is nothing to merge or survivor and losers have live rows at the versions presented; else it conflicts |
| `Tombstones.SinkAcyclic` | server/src/repo-record.ts:1028-1033 | pointing tombstones at a record that itself points nowhere closes no loop |
| `Tombstones.TombstonesOverRuns` | server/src/repo-record.ts:224-278 | over every run the retired_into links are acyclic and following them ends |
| `Tombstones.TombstonesFromEmpty` | server/src/repo-record.ts:224-278 | in particular for every table that began empty |
| `Lifetimes.WinnerSawCurrent` | server/src/repo-record.ts:153-221 | a rename, retire or merge that succeeds presented the visible version, and the version it leaves is greater |
| `Lifetimes.VisibleMonotone` | server/src/repo-record.ts:162-221 | while a record exists its visible version never goes down, the implied 1 of a record without a version row included |
| `Lifetimes.SameVersionWinsOnce` | server/src/repo-record.ts:153-221 | of any attempts presenting one version of a record two can only both win if it ceased to exist in between |
| `Lifetimes.SameVersionWinsOnceEver` | server/src/repo-record.ts:153-242 | across lifetimes too a version wins at most once, but for the implied version 1 of a record created anew without a live version row |
| `Lifetimes.RevivedKeyRefusesOldVersions` | server/src/repo-record.ts:224-242 | a key added again refuses every version of the earlier record |
| `Lifetimes.ReorderInvalidatesNobody` | server/src/repo-record.ts:244-263 | a reorder makes the record pending and changes the version that clients must present for no record |
| `Hierarchy.ParentEditRefusedIff` | server/src/repo-record.ts:1885-1907 | a parent edit is refused iff the new pointer would close a loop |
| `Hierarchy.MissingParentDropped` | server/src/repo-record.ts:1879-1884 | a parent that does not exist is stored as no parent |
| `Hierarchy.ForestsOverRuns` | server/src/repo-record.ts:1885-1910 | over every run, restores and reverts included, every parent column is a forest, in the working copy and in every snapshot |
| `Hierarchy.AncestorWalkEnds` | server/src/repo-record.ts:1886-1903 | so the unguarded recursive ancestor query ends from every record in every reachable state |
| `Links.HasAncestor` | server/src/repo-record.ts:1894-1903 | climbing the parents without a visited check answers exactly whether the key is an ancestor |
| `Links.LinkCloses` | server/src/repo-record.ts:1891-1907 | adding a link to an acyclic map makes a loop iff the target is the record itself or below it |
| `Links.TerminationIffAcyclic` | server/src/repo-record.ts:1886-1890 | the walk ends from every start iff the links are acyclic |
| `Prelude.LexMeans` | server/src/cluster-values.ts:62-73 | text is ordered by the first place where it differs, a beginning before what it begins |
| `Ordering.ComputeInsertPosition` | server/src/repo-record.ts:47-54 | a slot strictly between the neighbours, and none iff both exist with no integer between |
| `Ordering.NextPosition` | server/src/repo-record.ts:59-73 | a slot at least 1024 below every row in use |
| `Ordering.MoveBetween` | server/src/repo-record.ts:2298-2362 | a move between two named rows succeeds only if they are neighbours, and is exactly that list move |
| `Ordering.StayMeansBetween` | server/src/repo-record.ts:2356-2360 | "already there" means that the row is between the two |
| `Ordering.MoveToBottom` | server/src/repo-record.ts:2334-2342 | a move to the bottom puts the row last and keeps all others in order |
| `Ordering.MoveToTop` | server/src/repo-record.ts:2317-2325 | a move to the top puts it first and keeps all others in order |
| `Ordering.MoveToTopNamed` | server/src/repo-record.ts:2317-2333 | with a named row as well the row comes first iff every other row lies below the slot 1024 before the named one |
| `Ordering.UnderIff` | server/src/repo-record.ts:2310-2316 | a position below a given row puts the moved row directly below it iff no other row lies between |
| `Ordering.OverIff` | server/src/repo-record.ts:2327-2333 | a position above a given row puts the moved row directly above it iff no other row lies between |
| `Ordering.StaleTopMove` | server/src/repo-record.ts:2344-2354 | a stale request of this kind is accepted and lands elsewhere |
| `Ordering.RespacedKeepsList` | server/src/repo-record.ts:2155-2172 | re-spacing keeps the list and leaves gaps of 1024 |
| `Ordering.NextSlotTaken` | server/src/repo-record.ts:2167-2172 | the next write of a rebalance hits the unique index iff a later row still sits on the target |
| `Ordering.RespacedOrderIff` | server/src/repo-record.ts:2167-2172 | re-spacing that stops before a row keeps the list iff nothing was moved or that row lies below the last slot given out |
| `Ordering.FailedRebalanceScrambles` | server/src/repo-record.ts:2167-2172 | an input on which it does not |
| `Ordering.RetryFindsSlot` | server/src/server.ts:1620-1630 | after a rebalance the refused move between two neighbours succeeds |
| `Ordering.ReorderNotFoundIff` | server/src/repo-record.ts:2298-2309 | a request is not found iff it names a row that is not there |
| `Ordering.BottomAccepted` | server/src/repo-record.ts:2334-2342 | a move to the bottom is never refused and goes 1024 beyond the last other row |
| `Ordering.TopAccepted` | server/src/repo-record.ts:2317-2325 | nor is a move to the top without a named row, which goes 1024 before the first |
| `Ordering.BetweenOutcome` | server/src/repo-record.ts:2344-2362 | between two placed rows: conflict, stay, too tight, or the middle of the gap, each exactly when |
| `Ordering.OneSidedOutcome` | server/src/repo-record.ts:2310-2333 | with one placed row or none: 1024 from it, or 1024, refused iff another row sits there |
| `ManualTableModel.ManualTable.SetPosition` | server/src/repo-record.ts:639-642 | one update of a position, refused iff another row holds it |
| `ManualTableModel.ManualTable.ListKeys` | server/src/repo-record.ts:2164-2166 | the positioned keys in ascending order |
| `ManualTableModel.ManualTable.Rebalance` | server/src/repo-record.ts:2155-2181 | it re-spaces every row iff no target slot is taken by a later row; otherwise the rows up to that one are moved and the rest are not |
| `ManualTableModel.ManualTable.TryReorder` | server/src/repo-record.ts:2282-2381 | one reorder transaction does what its specification decides and keeps the index |
| `ManualTableModel.ManualTable.MoveRow` | server/src/server.ts:1613-1634 | the route with its retry: every success keeps the other rows in order; between two named rows, at the bottom, and at the top with no row named it is the list move asked for; with one row given it is a step from that row and next to it iff nothing lies between; a named top row is reached iff all others lie below; and a request that was only too tight succeeds unless the rebalance collides |
| `ManualTableModel.FailedRebalanceOrderIff` | server/src/repo-record.ts:2167-2172 | a rebalance that fails keeps the list iff its first write fails or the row it stopped at lies below the last slot |
| `ManualTableModel.ManualTable.InsertNextTo` | server/src/repo-record.ts:2183-2275 | a new row lands directly above or below its anchor, with a rebalance when needed; the 512 fallbacks are unreachable |
| `ManualTableModel.InsertSlotIsNeighbour` | server/src/repo-record.ts:2207-2230 | the slot chosen next to an anchor is free and is the neighbouring place in the list |
| `ManualTableModel.InsertSlotMeans` | server/src/repo-record.ts:2207-2230 | the slot beside an anchor: 1024 from it, the middle of the gap to the nearest row, none without room, or 1024 |
| `ManualTableModel.SpacedInsertSlot` | server/src/repo-record.ts:2232-2258 | next to a row of a re-spaced table there is always a slot |
| `Store.Stepped` | server/src/repo-drafts.ts:745-1178 | each method call is one transaction of a run and keeps the class invariant: what `RunKeeps` and `ForestsOverRuns` say of every reachable table |
| `Store.Table.BumpVersionOrThrow` | server/src/repo-record.ts:153-221 | the guarded update with its lazy seed yields the specified stamps and error |
| `Store.Table.RejectDrafts` | server/src/repo-drafts.ts:372-397 | exactly the selected mapped drafts become rejected, with the reason and who rejected them, and are counted; an empty reason is refused |
| `Store.Table.AddRecord` | server/src/repo-record.ts:717-754 | a record at the bottom with blank cells and a seeded stamp, or the reason it cannot be added |
| `Store.Table.RenameRecord` | server/src/repo-record.ts:900-927 | label and stamp change together and the result is the new visible version |
| `Store.Table.SetFieldValue` | server/src/repo-record.ts:1870-1913 | one cell and its stamp change, or the edit is refused; a parent column is climbed first, which ends because the invariant keeps it a forest |
| `Store.Table.ReorderRecord` | server/src/repo-record.ts:2282-2381 | the row takes the position that `Ordering.Reorder` decides and is stamped without a new version, or the reason is returned and nothing changes |
| `Store.Table.BumpAll` | server/src/repo-record.ts:978-998 | the bulk bump touches exactly the matching rows, and all of them iff every version matches |
| `Store.Table.MergeRecords` | server/src/repo-record.ts:952-1034 | all or nothing: on a conflict the bumps already made are undone, else mappings, records, tombstones and the survivor's version change together |
| `Store.Table.RetireRecord` | server/src/repo-record.ts:1045-1102 | refused while mapped, else record gone and tombstone left |
| `Store.Table.RemapMappings` | server/src/repo-drafts.ts:964-978 | each joined row takes the target of some draft that asks for another one |
| `Store.Table.InsertRecords` | server/src/repo-drafts.ts:979-1010 | the missing targets become records in first-seen order, unless two labels or a missing one abort |
| `Store.Table.InsertMappings` | server/src/repo-drafts.ts:1011-1022 | the values without a row get one each, from the newest draft |
| `Store.OrderNewKeys` | server/src/repo-drafts.ts:986-1000 | the new keys ordered by first draft, then key |
| `Store.NewestOf` | server/src/repo-drafts.ts:1016-1022 | the draft that no other of the value beats |
| `Store.Table.Publish` | server/src/repo-drafts.ts:745-1100 | the whole publish: its refusals in the order of the code, or the fold, the snapshot and the event together |
| `Store.Table.FoldAndRecord` | server/src/repo-drafts.ts:917-1100 | the publish transaction is all or nothing |
| `Store.Table.RevertToPublished` | server/src/repo-drafts.ts:573-633 | delete, reinsert and stamp the changed records, and say how many |
| `Store.Table.RestoreVersion` | server/src/repo-rollback.ts:28-107 | wipe, reinsert row by row under the unique index, upsert and retire stamps |
| `Store.Table.StampRestored` | server/src/repo-rollback.ts:80-106 | restored keys are live again and all other live keys are retired |
| `Store.Table.RollbackToVersion` | server/src/repo-rollback.ts:22-118 | it fails only for a missing version, and otherwise leaves version v in place |
| `Store.RestoreNeverClashes` | server/src/repo-rollback.ts:57-71 | no stored version can violate the index when it is put back |
| `Publishers.VersionsStayDense` | server/src/repo-drafts.ts:917-1100 | with any interleaving of the statements of any publishers the versions are exactly 1..n with one event each |
| `Publishers.LockedNeverRefused` | server/src/repo-drafts.ts:917-925 | with the advisory lock no publish is refused by the unique index |
| `Publishers.LockedNeverStuck` | server/src/repo-drafts.ts:917-925 | the holder of the lock can always go on, and without a holder everybody can |
| `Publishers.UnlockedIsRefused` | server/src/repo-drafts.ts:918-923 | without the lock an interleaving loses a publish |
| `Keyset.ClampLimit` | server/src/repo-outbound.ts:81-84 | any finite request gives at most the maximum, and no rows at all iff it is a positive fraction below one |
| `Keyset.ReadPage` | server/src/repo-outbound.ts:208-244 | one page is the first rows beyond the cursor, in order, and the cursor is its last row iff more follow; a page of no rows fails iff there is anything to read |
| `Paging.ReadPage` | server/src/repo-drafts.ts:126-165 | over any strict total order one page is the first rows ahead of the cursor, in order, and the cursor is its last row iff more follow |
| `Paging.ReadAll` | app/src/store.ts:456-465 | over any strict total order paging until there is no cursor ends and gives every row exactly once, in order |
| `Paging.LoadDrafts` | app/src/store.ts:456-467 | the browser files the drafts page by page under table, value and shown author, and keeps the last of those with one such key |
| `Paging.ShownApartIff` | server/src/repo-drafts.ts:168-182 | no two drafts get one key iff of each value at most one draft is shown as by an unknown author |
| `Paging.NothingLost` | app/src/store.ts:456-467 | then the browser holds every draft |
| `Paging.DraftBeforeIsTotal` | server/src/repo-drafts.ts:126-154 | the comparison of the three text columns is such an order: by table, then value, then author |
| `CappedFeed.OneRowEach` | server/src/repo-source-scan.ts:299-309 | the join has one row for each spelling that a value is mapped under |
| `CappedFeed.ReadJoinedPage` | server/src/repo-source-scan.ts:283-331 | one page of the joined query: its rows beyond the cursor, repetitions included, with the flag and the cursor |
| `CappedFeed.ReadCapped` | server/src/repo-source-scan.ts:348-371 | the loop over the joined pages collects what `Collected` says |
| `CappedFeed.CappedExactIff` | server/src/repo-source-scan.ts:348-371 | that is the first min(cap, n) values once each with a correct flag iff every value within the cap that is mapped under several spellings ends a page, or is the last admitted with more to follow |
| `CappedFeed.OneSpellingIsExact` | server/src/repo-source-scan.ts:299-309 | so it is right when no scanned value within the cap is mapped under two spellings |
| `CappedFeed.TwoSpellings` | server/src/repo-source-scan.ts:358-361 | one value mapped under two spellings: a wrong flag with a cap of one, a repeated value with a larger one |
| `Pull.StepMovesIff` | server/src/repo-record.ts:162-169 | a transaction gives everything it changes in the feed a stamp later than all before iff it does not create a record under a version row that is already live |
| `Pull.StepBuriesIff` | server/src/repo-record.ts:266-278 | a record that a transaction takes out of the feed is listed as a tombstone of that moment iff the transaction is not a revert that strands it, a stamped feed record that the last version lacks |
| `Pull.PullIsComplete` | server/src/repo-outbound.ts:189-259 | a consumer that pages by cursors while any edits interleave, none creating a record under a live version row, holds when no cursor comes back the label, cells, version and stamp of every record with a live version row, from the start time on, that one included; and what it holds of such records is current |
| `Pull.RemovalsAreListed` | server/src/repo-outbound.ts:322-374 | at every moment of any pull in which no revert so far stranded the record, if the consumer holds it and the feed no longer shows it, it is a tombstone of the time since the pull began |
| `Pull.StepHidesIff` | server/src/repo-drafts.ts:979-1010 | a transaction leaves a record under its own tombstone, where there was none, iff it is a publish that creates the record of a retired key |
| `Pull.ListedAreGone` | server/src/repo-outbound.ts:322-374 | the converse of the list of removals: over every run in which no publish does that to a key, a key with a tombstone has no record |
| `Pull.ResurrectedRecordIsMissed` | server/src/repo-outbound.ts:210-238 | what a publish creates under a live version row is behind every current cursor |
| `PullGap.ReaddedRecordIsMissed` | server/src/repo-drafts.ts:599-624 | a run from the empty table in which that happens |
| `PullGap.RevertedRecordLingers` | server/src/repo-drafts.ts:599-624 | on the same run a consumer that read a record before it was reverted finds it neither in the feed nor among the tombstones |
| `PullGap.RecreatedRecordIsHidden` | server/src/repo-drafts.ts:979-1010 | a run from the empty table in which a publish creates the record of a retired key: it is listed as removed and no page shows it |
| `Clusters.PunctuationStaysAlone` | server/src/cluster-values.ts:16-23 | a value without letters or digits shares its key with nothing else |
| `Clusters.FoldTogetherIff` | server/src/cluster-values.ts:16-23 | two values fold together iff their letters and digits are the same, or they are the same value without any |
| `Clusters.SortBy` | server/src/cluster-values.ts:62-73 | sorting by weight and text is a permutation in order |
| `Clusters.GroupByKey` | server/src/cluster-values.ts:81-87 | the map holds each key's values in input order |
| `Clusters.ClusterValues` | server/src/cluster-values.ts:80-97 | the result is a clustering: a partition by key in canonical order |
| `Clusters.Partition` | server/src/cluster-values.ts:75-97 | every value is in exactly one cluster, with all that shares its key and nothing else |
| `Clusters.RepLeads` | server/src/cluster-values.ts:89-94 | the representative is the value with the most rows of those that fold together, and the first text of equals |
| `Clusters.ClustersInOrder` | server/src/cluster-values.ts:62-97 | clusters, and the values within one, come by rows, most first, then by text |
| `Clusters.TotalsConserved` | server/src/cluster-values.ts:89-94 | the clusters' rows add up to the input's |
| `Clusters.SumOfOne` | server/src/cluster-values.ts:89-94 | one member counts its own rows |
| `Clusters.SumOfParts` | server/src/cluster-values.ts:89-94 | and members together add up |
| `Clusters.ClusteringIsCanonical` | server/src/cluster-values.ts:75-97 | there is one clustering for all orders of the input |
| `Clusters.PlainClusteringIsCanonical` | server/src/cluster-values.ts:75-97 | for plain inputs that needs no distinct values |
| `Clusters.ScanRowsProject` | server/src/cluster-values.ts:117-147 | clustering scan rows and forgetting their details is clustering plain values |
| `SeedKeys.SlugIdempotent` | server/src/repo-shared.ts:411-415 | slug leaves its own results alone |
| `SeedKeys.SlugJoinsWords` | server/src/repo-shared.ts:411-415 | slug is the runs of letters and digits joined by single underscores, whatever stands between and around them |
| `SeedKeys.SlugRefinesKey` | server/src/repo-shared.ts:411-415 | erasing the underscores of an ASCII slug gives the fold key's letters |
| `SeedKeys.KeysClashIff` | server/src/repo-scan.ts:972-982 | over ASCII two clusters get one key iff neither has a letter or digit and they show the same 60 characters |
| `SeedKeys.AsciiKeysApart` | server/src/repo-scan.ts:972-975 | so keys are distinct when such values are non-empty and short |
| `SeedKeys.AccentsClash` | server/src/repo-scan.ts:972-975 | an accented letter breaks the promise |
| `SeedKeys.ClusterForSeed` | server/src/cluster-values.ts:32-41 | one cluster per key in first-seen order, with its first value as representative and all its values in order |
| `SeedKeys.RawsOfParts` | server/src/cluster-values.ts:32-41 | the raws of a cluster are the values with its key, each as often as it comes and in input order |
| `SeedKeys.SeedsFirstSeen` | server/src/cluster-values.ts:32-41 | the representatives are the first values of their kind, in the order of the values |
| `SeedKeys.DeriveSeeds` | server/src/repo-scan.ts:976-987 | every value is mapped to a seeded record; of clusters with one key the last gives the label; with distinct keys two values share a record iff they fold together, and its label is the value seen first |
| `SeedKeys.SeedTables` | server/src/repo-scan.ts:983-993 | in tables in use, rows that are there stay as they are; each key gets a record and a version row where it had none, and each value a mapping where it had none |
| `SeedKeys.SeededResolves` | server/src/repo-scan.ts:983-993 | mappings that resolved still do and new ones do; with distinct keys two newly mapped values share a record iff they fold together |
| `DraftFold.FoldDraftsByValue` | app/src/store.ts:524-539 | one draft per value, the one that wins over all others of that value, by millisecond and then author |
| `DraftFold.FoldIsUnique` | app/src/store.ts:524-539 | the order of the rows does not matter |
| `DraftFold.ShownIsPublishedIff` | app/src/store.ts:529-539 | the draft shown is the one publish picks iff it is eligible, no eligible draft of another spelling beats it, and no eligible draft of its spelling in the same millisecond is later |
| `DraftFold.ShownIsApplied` | app/src/store.ts:529-539 | with one spelling, all drafts eligible, and no two of the value within one millisecond, an unmapped value is published as shown |
| `DraftFold.RejectedDraftHides` | app/src/store.ts:529-539 | a later rejected draft is shown instead of what publish applies |
| `DraftFold.SameMillisecondDiffers` | app/src/store.ts:524-527 | two drafts of a value within one millisecond: the browser shows the earlier one, publish picks the later |
| `ScanFold.Fold` | server/src/repo-source-scan.ts:48-70 | one entry per key with what came first, and the same total for every choice of keys |
| `ScanFold.Materialize` | server/src/repo-source-scan.ts:43-116 | the two row lists are folds of the same occurrences, by folded value and by value, table and column |
| `ScanFold.ValueRowMeans` | server/src/repo-source-scan.ts:48-58 | a value row holds a folded value, its first spelling, and all rows of the occurrences that fold to it |
| `ScanFold.PlaceRowMeans` | server/src/repo-source-scan.ts:59-70 | an occurrence row holds a folded value, a table and a column, and all its rows there |
| `ScanFold.EveryOccurrenceWritten` | server/src/repo-source-scan.ts:48-70 | every occurrence is in a row of each kind |
| `ScanFold.OccKeyInjective` | server/src/repo-source-scan.ts:66-66 | the joined key determines value, table and column when the names hold no NUL |
| `ScanFold.FoldsAgree` | server/src/repo-source-scan.ts:48-70 | a value's total is the sum of the rows of its places |
| `ScanFold.GrandTotals` | server/src/repo-source-scan.ts:48-70 | neither fold loses or invents rows |
| `ScanFold.PrimaryKeysOnce` | server/src/repo-source-scan.ts:56-70 | no insert list names a primary key twice |
| `ScanFold.BulkInsertChunked` | server/src/repo-source-scan.ts:20-39 | the statements together insert the list, in order, each with at most 500 rows and 3000 parameters |
| `ScanFold.MappedCountExactIff` | server/src/repo-source-scan.ts:160-181 | the mapped count is the number of mapped values iff no two mapped raws fold to one scanned value |
| `ScanFold.NewCountCanBeNegative` | server/src/repo-source-scan.ts:184-196 | two spellings in the mapping table make the count of new values negative |
| `ScanFold.SpellingCounts` | server/src/repo-source-scan.ts:166-181 | in the sum of mapped rows each mapped spelling counts the rows of its value once |
| `ScanFold.MappedRowsExactIff` | server/src/repo-source-scan.ts:160-196 | the mapped rows are never too few and the unmapped rows never too many, and both are right iff every scanned value with rows is mapped under one spelling at most |
| `ScanFold.UnmappedRowsCanBeNegative` | server/src/repo-source-scan.ts:184-196 | two spellings of a value with one row make the unmapped rows negative |
| `WorkerPool.Pool.TakeNext` | server/src/concurrency.ts:22-25 | the shared cursor hands out each index once, in order |
| `WorkerPool.Pool.Settle` | server/src/concurrency.ts:26-30 | one slot gets its outcome and the worker goes round; calls in flight stay within the cap |
| `WorkerPool.Pool.Drain` | server/src/concurrency.ts:34-35 | it ends in every order of settling, with as many calls in flight as cap and items allow at every point |
| `WorkerPool.RunWithConcurrency` | server/src/concurrency.ts:10-37 | each item is called exactly once, in order, slot i holds call i's value or null iff it failed, and the most calls ever in flight together are max(1, min(max, n)) |
| `RateLimit.Limiter.CheckRateLimit` | server/src/rate-limit.ts:23-62 | the upsert rolls or counts one credential's row and judges it; a budget of zero or less switches it off |
| `RateLimit.WindowsApart` | server/src/rate-limit.ts:37-50 | two requests count in one window, or their windows begin more than 60 seconds apart |
| `RateLimit.OneWindow` | server/src/rate-limit.ts:54-62 | in one window exactly the first requests up to the budget are admitted |
| `RateLimit.SpanBound` | server/src/rate-limit.ts:23-62 | any 60 seconds admit at most twice the budget less one, and at most the budget in one window |
| `RateLimit.BoundIsMet` | server/src/rate-limit.ts:37-50 | that bound is reached for every budget |
| `RateLimit.RetryAfterMeans` | server/src/rate-limit.ts:60-61 | the advice is 60 less the age in whole seconds, halves up, and at least 1 |
| `RateLimit.RetryAfterSufficesIff` | server/src/rate-limit.ts:60-61 | waiting as long as told rolls the window iff its age was a positive part below half a second beyond a whole one, or more than 59 seconds |
| `RateLimit.RetryAfterTooEarly` | server/src/rate-limit.ts:60-61 | a client that waits as told and is refused again |

## Left out

- The warehouse half of publish and rollback (adapters, `ensureRecordTables`, `commitRecord`): adapter code is not part of this model, and nothing above depends on it.
- The formula engine: the results written into a snapshot are a parameter of the request; only that they never count as changes is proved.
- The validation gate (`server/src/repo-drafts.ts:640-740`): its verdict is a parameter of the request.
- Schema changes, table creation and deletion, and the ordering-mode switch: they alter records without stamping, and the columns are fixed in the model.
- SetFieldValue: takes the value to store: the casts by column type, the trimming, and blank-to-null are not modelled; the linked branch is.
- Rebalance as a step of the publish state machine: it writes positions without stamping, so it is modelled on its own in `ManualTable.dfy`.
- Deriving, importing and auto-staging into a table in use (`deriveRecord` beyond seeding keys, `importRecord`, `stageExactMatchDrafts`): they add steps like `AddRecord` and `SaveDraft`; derive re-inserts records without re-stamping them and is not a step of the runs.
- Webhooks and `record.deleted` events, the audit log, AI hints, and the retention sweep, which deletes the events that versions are counted from.
- Legacy double-encoded snapshots, for which the code treats every stamped record as changed.
- Database isolation: a transaction is one step, including the reads that the code makes just before it, except in `Publishers.dfy`; and `now()` grows from one transaction to the next, while the database takes it when a transaction begins.
- Cursors are row keys: their encoding and signature, the loss of microseconds in the timestamps of the record feed's cursors, and the database's collation (code-unit order here) are not modelled.
- The browser's key for a draft is the triple itself, not its text joined by "::", on the assumption that no table or user id holds "::".
- FoldDraftsByValue: every author has a user row, so that the shown author is the author (`ShownApartIff` says what happens otherwise).
- 64-bit overflow of positions and counters, and loss of precision in JavaScript numbers.
- Unicode tables: case folding and `normalizeKey`'s cleaning are parameters, fixed on ASCII where a result needs it.
- ReadCapped: the scanned values are those that pass the filter and the search; which spelling's label a repeated row shows is not modelled.
- SeedTables: seeding from a column of external keys, whose keys are the values themselves, is not modelled.
- ClusterValues: `clusterScanRows` is the same method at a richer member type, without its `mappedCount`.
- Fold: the pre-transaction `DELETE` of the old scan rows and the conflict clause, which never applies (`PrimaryKeysOnce`), are not separate steps.
- RunWithConcurrency: the work itself is a function from index to outcome; how long a call takes is left to the choice of which call settles next.
