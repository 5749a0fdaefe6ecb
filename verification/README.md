# Verification of doc-lattice

doc-lattice derives a graph from the frontmatter of Markdown files: each tracked file names the
files and sections it derives from, and locks the content hash of each. This project models, in
Dafny, the parts of it that are hard to get right, and proves what its code and documentation
promise of them.

- **The reconcile transaction** (`Storage`, `Persistence`, `Journal`, `Cleanup`, `Rollback`,
  `Preparation`, `Commit`, `Recovery`, `CrashRuns`, `Locking`). A disk is a durable namespace and the
  directory operations not flushed yet; a power loss keeps any subset of those. Every step may fail,
  and the process may die at any step. Each method keeps a claim about *every* crash image, not just
  about what is visible, so the write-ahead invariant holds at every instant of every run. Paths other
  processes may edit are a parameter; their edits fall between steps. How a commit, a rollback and a
  recovery end is read off the namespace they found: with nothing going wrong exactly; with any one step
  failing, whichever it is, every file still ends on one side; and with none failing, so does every file
  that others leave alone, whatever they do to the rest meanwhile.
- **Slug allocation and collision components** (`Slugger`, `Allocation`, `DisjointSets`, `Collisions`,
  `MergedCollisions`, `Ordering`). Why an id outside every reported component cannot move when
  headings are deleted.
- **Fast forms against simple ones** (`Selectors`, `PathSelection`, `Sections`, `Impact`). The
  position-set matcher and the memoised walk against the recursive meaning of a selector, one-pass
  stacks against containment, and the breadth-first walk against shortest distance.
- **Rewriting and convergence** (`LatticeModel`, `Dictionaries`, `Convergence`, `SourceEdits`,
  `Frontmatter`, `Relocation`, `DoubleQuoted`). Edits applied right to left are simultaneous
  replacement, a rewritten file differs only inside the edited spans, aliases keep their values, the
  scalar printer is undone by a reader, and one reconcile pass clears all drift.

`dafny verify dfyconfig.toml` checks everything.

## Where the code does less than its documentation says

Each of these is stated in Dafny with the input or state that shows it, and with the condition under
which the promise does hold.

1. *A batch is not all-or-nothing after a commit gave up around its marker* (RECONCILE.md:314-316,
   ARCHITECTURE.md:194). The marker's sync fails after its rename, resetting the journal stages a file
   beside it (which flushes the marker) and renames the prepared bytes back, and that sync fails too;
   or the process is killed between the marker's rename and its sync. A recovery started then trusts
   the visible marker, restores or removes stages durably, and a power loss can still bring the other
   marker back. `CrashRuns.FailedResetLeavesMarkerUndecided` runs the two methods under the two faults
   that lead there, and `CrashRuns.UndecidedRollbackTears` continues; `CrashRuns.RollbackSafeExactlyWhenDecided`
   and `CrashRuns.ClearingSafeExactlyWhenDecided` give the exact condition, that no crash can leave both
   markers, and `CrashRuns.DurableRestoreSafeExactly` gives it for a restore that has been synced.
   `CrashRuns.UndecidedExactly` decides it by one look through what is durable and what is pending, so a
   caller can check it before recovering; syncing the journal's directory makes it hold
   (`CrashRuns.FlushDecides`), and after a power loss it always does. `CrashRuns.CommitThenRecover` stops,
   and says so, only where both markers can be left.
2. *A rewrite whose before and after images are equal can stall recovery for good.* Restoring it
   consumes the before stage, and the destination still counts as holding the after image: if the
   rollback is interrupted there, nothing is left to restore it from, and no later recovery completes
   (`CrashRuns.RestoreThenStall`, `CrashRuns.NoRecoveryFinishes`). Undisturbed, a recovery completes if and
   only if every destination at its after image still has its before stage
   (`Recovery.RecoverTransactionLocked`), and a transaction always satisfies that if and only if each of
   its rewrites changes its file (`CrashRuns.NeverStallsExactlyWhenImagesDiffer`), which a caller can
   check before committing. `plan_rewrites` emits a rewrite only when an update was applied
   (src/doc_lattice/reconcile.py:1849-1853), so only a direct caller of `commit_rewrites` can supply
   equal images.
3. *The journal does not go last where its publication was never synced*
   (src/doc_lattice/reconcile_transaction.py:1113). A process that dies between the link that publishes
   the journal and the sync that follows it leaves a journal that is visible and can still be lost; a
   recovery started then removes stages durably, and a power loss can leave the others without a
   journal (`CrashRuns.UnflushedPublicationIsLosable` runs the publication,
   `CrashRuns.UnpublishedRecoveryOrphans` continues). No destination has changed by then
   (`Preparation.CleanupFailedPublication`). The exact condition is that no crash can leave a stage
   without the journal, decided by one look through what is durable and what is pending
   (`CrashRuns.PublishedExactlyWhenNoneOrphaned`); while a stage is durable it is that no crash can lose
   the journal (`CrashRuns.PublishedExactlyWhenJournalStays`), and for a synced removal that, or that its
   sync covers the journal (`CrashRuns.StageDropSafeExactlyWhenPublished`). Once it holds it holds for the
   rest of every run.
4. *A block of exactly one blank line does not round-trip* through the frontmatter split
   (`Frontmatter.BlankLineIsLost`). `Frontmatter.SplitPieces` shows it is the only exception; such a
   block plans no edits, so it is never rewritten.
5. *An insertion listed before a replacement that starts at the same offset is swallowed by it*
   (`SourceEdits.InsertionIsSwallowed`). `SourceEdits.SimultaneousExactlyWhenWellListed` shows that
   disjoint edits are applied simultaneously, whatever their texts, exactly when no pair is listed that
   way. The reload check in `apply_reconcile` refuses the bad result before it is published.
6. *The printer's eight-digit escape is dead code*: every code point above U+FFFF is printable
   (`DoubleQuoted.LongEscapeNeverNeeded`).

## Model

| member | source | states |
|---|---|---|
| Storage.ImagesAreKeptSubsets | src/doc_lattice/persistence.py:61-76 | what a power loss may leave is exactly the durable namespace with some subset of the unflushed directory operations applied in order |
| Storage.CanHoldExactly | src/doc_lattice/persistence.py:61-76 | a crash can leave a content at a path if and only if it is durable there or some unflushed operation left it there |
| Storage.CanHoldBoth | src/doc_lattice/persistence.py:61-76 | what two paths end up with is independent where no unflushed operation touches both |
| Storage.FlushSettles | src/doc_lattice/persistence.py:61-76 | after a directory is synced, every crash image agrees with what is visible about each path in it |
| Storage.FlushNarrows | src/doc_lattice/persistence.py:61-76 | syncing a directory only ever removes crash images; it adds none |
| Persistence.FileSystem.Step | src/doc_lattice/persistence.py:61-269 | one directory operation under any fault: it is issued or not, and the claim the caller keeps holds in every crash image either way |
| Persistence.FileSystem.Environment | src/doc_lattice/reconcile_transaction.py:1157-1182 | other processes edit only the paths declared as theirs, one batch in its order, and between steps, never between a check and the rename that follows it |
| Persistence.LastEditShows | src/doc_lattice/reconcile_transaction.py:1157-1182 | what shows at a path another process edited is its last edit of it, a removal included |
| Persistence.FileSystem.PowerLoss | src/doc_lattice/persistence.py:61-76 | the disk becomes one of its crash images and nothing is pending |
| Persistence.FileSystem.StageBytes | src/doc_lattice/persistence.py:131-172 | a fresh stage holds exactly the bytes, durably; after a failure nothing has changed in any crash image, unless the failure’s note names the stage |
| Persistence.FileSystem.ReplaceStaged | src/doc_lattice/persistence.py:175-190 | the rename, then the sync of its directory: success means the destination holds the stage’s content in every crash image |
| Persistence.FileSystem.AtomicReplaceBytes | src/doc_lattice/persistence.py:193-209 | success is durable; on failure the path holds its old or its new content, never anything else, and where only the last sync failed a crash can leave either |
| Persistence.FileSystem.AtomicCreateBytes | src/doc_lattice/persistence.py:212-253 | creates only where nothing is; an existing file is reported and left alone |
| Persistence.FileSystem.DurableUnlink | src/doc_lattice/persistence.py:256-269 | removing a present file: success means no crash image holds it, failure leaves it as it was or gone, nothing else changes |
| JournalModel.EntriesApart | src/doc_lattice/reconcile_transaction.py:637-682 | path roles keep destinations, stages and the journal pairwise distinct, across entries too |
| JournalModel.ApplyKeepsApplying | src/doc_lattice/reconcile_transaction.py:1841-1865 | renaming an after image in keeps each destination at "before", or at "after" with its before stage, in every crash image |
| JournalModel.RestoreKeepsRolling | src/doc_lattice/reconcile_transaction.py:1185-1209 | restoring a before image keeps the claim of a rollback’s phase in every crash image, although it consumes the stage |
| JournalModel.DropStageKeeps | src/doc_lattice/reconcile_transaction.py:1016-1056 | removing a stage keeps the phase’s claim once nothing can bring the after image back |
| JournalModel.Closed | src/doc_lattice/reconcile_transaction.py:1086-1124 | once every stage is durably gone and every destination durably on its side, only the journal is left: removing it, or putting it back, brings no stage back and undoes no destination in any crash image |
| JournalModel.PhasesKeepJournalLast | src/doc_lattice/reconcile_transaction.py:1108-1124 | from the moment the journal is durably published every phase claims, of every crash image, that it lacks the journal only if it lacks every stage and has every destination on the transaction’s side |
| JournalModel.MarkerDecides | src/doc_lattice/reconcile_transaction.py:1683-1766 | while marking, once no crash can leave both markers, recovery may roll back or clear as the visible marker says |
| Cleanup.ValidatePathRoles | src/doc_lattice/reconcile_transaction.py:637-682 | accepts exactly the journals whose names and roles are valid |
| Cleanup.LoadJournal | src/doc_lattice/reconcile_transaction.py:764-817 | returns the transaction that is recorded, or refuses; what it accepts has valid roles |
| Cleanup.AuthenticateAll | src/doc_lattice/reconcile_transaction.py:1141-1154 | succeeds only if every stage still present holds its recorded bytes, and changes nothing |
| Cleanup.CleanupStagedArtifact | src/doc_lattice/reconcile_transaction.py:1016-1056 | success means the stage is absent from every crash image, also where it was absent to begin with; a stage that is not what was recorded stays; one failing step is made up for or leaves the stage there |
| Cleanup.RestoreJournal | src/doc_lattice/reconcile_transaction.py:1059-1083 | puts the journal back by creation only, with the marker the cleanup works under |
| Cleanup.CleanupJournal | src/doc_lattice/reconcile_transaction.py:1086-1105 | the journal goes durably, or is put back; success leaves none in any crash image. One failing step is made up for or leaves the journal as it was; a journal that is not the one expected is left alone |
| Cleanup.CleanupTransactionArtifacts | src/doc_lattice/reconcile_transaction.py:1108-1124 | however it ends, a crash image lacks the journal only if every stage is absent from it and every destination is at its image, provided the journal was published, or is settled at entry; a stage that is not what was recorded stops it before any change. With authentic stages it succeeds unless a step goes wrong, whatever others do to documents, and one that fails leaves the journal for recovery |
| Cleanup.CloseTransaction | src/doc_lattice/reconcile_transaction.py:1086-1124 | with every stage gone the journal goes, durably or not, as the last artifact in every crash image |
| Rollback.ClassifyDestination | src/doc_lattice/reconcile_transaction.py:1157-1182 | compares the live file with both images; absence and foreign content match neither |
| Rollback.RestoreDestination | src/doc_lattice/reconcile_transaction.py:1185-1209 | the only replacement a rollback makes: a destination at its after image gets its before image, and only if its exact before stage is there; without the stage nothing changes |
| Rollback.RollbackEntries | src/doc_lattice/reconcile_transaction.py:1212-1261 | the outcome is the tally of what was found, last entry first; every replacement is of an own after image |
| Rollback.RollbackPrepared | src/doc_lattice/reconcile_transaction.py:1212-1261 | nothing unresolved: everything at before, artifacts durably gone, the journal last; something unresolved: journal and every stage but those consumed stay. Undisturbed, the four lists are read off the namespace it found (a destination holding neither image is unresolved if every entry is a candidate or it is one of those given, untouched otherwise), every after image is put back, and it succeeds if and only if every after image still has its before stage; what cannot be restored stays that way. With every before stage there it succeeds whatever others do to documents, unless a step goes wrong |
| Rollback.TallyPartitions | src/doc_lattice/reconcile_transaction.py:1229-1261 | restored, already before, unresolved and untouched partition the entries: no destination is missed or listed twice |
| Rollback.TallyReports | src/doc_lattice/reconcile_transaction.py:1229-1261 | the tally is what the namespace says: restored what held an after image, already before what held only a before image, and of what held neither the candidates unresolved and the others untouched, each list from the last entry to the first |
| Rollback.ViewPointwise | src/doc_lattice/reconcile_transaction.py:1235-1261 | after a rollback each after image is its before image and every other path is as it was, but for consumed stages |
| Rollback.RollbackConverges | src/doc_lattice/reconcile_transaction.py:1235-1261 | rolling back twice is rolling back once; what was restored is at "before", unless its two images are equal, and then it is stuck |
| Preparation.PreflightRewriteDestinations | src/doc_lattice/reconcile_transaction.py:1424-1452 | accepts exactly the batches with proper, distinct destinations |
| Preparation.StageImages | src/doc_lattice/reconcile_transaction.py:1455-1510 | both images of every rewrite durably staged beside its destination; or, after a failure that is no crash, nothing of the attempt is left in any crash image but the stages its notes name, and they name none if only one step failed |
| Preparation.CleanupUnpublishedStages | src/doc_lattice/reconcile_transaction.py:1388-1399 | every stage the notes do not name, if it was visible or settled at entry, is gone from every crash image; without a fault the notes name none |
| Preparation.PublishJournal | src/doc_lattice/reconcile_transaction.py:1510-1552 | the prepared journal appears only after all stages are durable, and success makes it durable |
| Preparation.CleanupFailedPublication | src/doc_lattice/reconcile_transaction.py:1402-1421 | however it ends every crash image has every destination at "before", so a journal that is still there has nothing to undo; unless the notes name something every stage, if each was visible or settled at entry, is gone from every crash image, and without a fault they name nothing and the journal is gone as well |
| Preparation.PrepareTransaction | src/doc_lattice/reconcile_transaction.py:1455-1552 | success: journal and before stages durable, every destination untouched; failure leaves a state recovery can continue from; a journal that is already there refuses the attempt, which changes nothing. A proper batch succeeds unless a step goes wrong, whatever others do to documents, and after one failing step no destination has changed |
| Preparation.AnyDiskIsIdle | src/doc_lattice/reconcile_transaction.py:1455-1463 | a commit may start on any disk where no crash leaves a journal: a destination not durably at its before image counts as one others may change |
| Commit.ApplyEntries | src/doc_lattice/reconcile_transaction.py:1841-1875 | renames after images in one at a time, refusing a changed destination; every path it may have replaced is a candidate. Undisturbed it stops at the first destination that does not hold its before image, as a conflict if a file is there and as a failure if none is, with exactly those before it at their after images |
| Commit.UntouchedIsNoCandidate | src/doc_lattice/reconcile_transaction.py:1841-1875 | a destination that matches neither image and is reported untouched was never a candidate |
| Commit.AbortPrepared | src/doc_lattice/reconcile_transaction.py:1569-1630 | backs out through the journal: undisturbed every destination at its after image is put back, and it is complete if and only if no candidate holds neither image; with the journal there, authentic stages and every after image covered it fails only if a step of its own does. A stage that is not what was recorded stops it before any change, or, where stages are not authenticated first, stops only the cleanup |
| Commit.ResetPreparedJournal | src/doc_lattice/reconcile_transaction.py:1633-1680 | success means the journal is durably the prepared one; no document is touched either way; if the reset’s last sync fails a crash can leave either marker. Unless a step goes wrong it succeeds exactly where the journal is gone or holds one of the two markers |
| Commit.MarkCommitted | src/doc_lattice/reconcile_transaction.py:1876-1890 | the committed marker replaces the journal only with every destination durably at its after image |
| Commit.AbortFailedMarker | src/doc_lattice/reconcile_transaction.py:1769-1786 | documents are rolled back only after the prepared marker is durable again; then every destination is put back, completely unless a candidate holds neither image |
| Commit.BackOut | src/doc_lattice/reconcile_transaction.py:1841-1875 | whatever the loop stopped for, every destination it replaced is put back, and the result is a conflict exactly if a conflict stopped it; with no step failing it backs out whatever others do to documents, and stays incomplete only over one of theirs |
| Commit.MarkAndClean | src/doc_lattice/reconcile_transaction.py:1876-1899 | with every destination applied, one failing step ends with all of them kept, at most the committed journal still to be cleaned up, or with all of them put back |
| Commit.CommitPrepared | src/doc_lattice/reconcile_transaction.py:1841-1899 | once the journal is published the commit ends as the destinations it finds decide |
| Commit.CommitRewritesLocked | src/doc_lattice/reconcile_transaction.py:1815-1899 | reconciled: all durably after; refused or failed and backed out: all durably before; otherwise a state recovery continues from. No destination is renamed over before the journal is durable, which then goes last. A journal already there refuses the commit, which changes nothing. Undisturbed, with others editing documents only, a proper batch is reconciled if and only if every destination holds its before image; otherwise it is backed out, as a conflict if the first that does not is there and as a failure if it is gone, with no destination left at its after image and every other as it was. If any one step fails, all destinations end at after or all at before. If none fails, then whatever others do to documents meanwhile it ends reconciled or backed out, or incomplete with the journal still there because of a document of theirs, and every destination that is not theirs is on the one side |
| Recovery.OpenJournal | src/doc_lattice/reconcile_transaction.py:2069-2089 | changes nothing; refuses an invalid journal or a stage that is not what was recorded |
| Recovery.NeverStuck | src/doc_lattice/reconcile_transaction.py:1185-1209 | undisturbed, with distinct images, every destination to restore has its before stage, in both phases a rollback runs in |
| Recovery.AlwaysRecoverable | src/doc_lattice/reconcile_transaction.py:2069-2110 | with distinct images and nobody else ever about, whatever an attempt left is recoverable, which is exactly what an undisturbed recovery needs to complete |
| Recovery.RecoverTransactionLocked | src/doc_lattice/reconcile_transaction.py:2069-2110 | rolls back under a prepared journal and clears under a committed one, keeps to its side when interrupted, and keeps the journal last; changes nothing without a journal or with a corrupt one. Undisturbed, the result is read off the namespace it found: partial if and only if some destination holds neither image, those and only those unresolved, and then the journal and every stage not consumed are still there. It completes if and only if stages are authentic and every after image under a prepared journal has its before stage; with every before stage there it does whatever others do to documents; a failing step leaves the journal for the next attempt |
| Recovery.RollbackAccounts | src/doc_lattice/reconcile_transaction.py:1229-1261 | a rollback’s counts are the numbers of entries that held an after image and only a before image, and its unresolved destinations those that held neither |
| CrashRuns.PhasesWriteAhead | src/doc_lattice/reconcile_transaction.py:1815-1899 | every phase keeps the durable write-ahead invariant in every crash image |
| CrashRuns.RollbackSafeExactlyWhenDecided | src/doc_lattice/reconcile_transaction.py:2069-2110 | recovery’s first restoring rename keeps the invariant if and only if no crash can still leave the committed marker |
| CrashRuns.ClearingSafeExactlyWhenDecided | src/doc_lattice/reconcile_transaction.py:2069-2110 | recovery’s first stage removal keeps the invariant if and only if no crash can still leave the prepared marker |
| CrashRuns.DurableRestoreSafeExactly | src/doc_lattice/reconcile_transaction.py:1185-1209 | recovery’s first restore, synced, keeps the invariant if and only if the marker was decided or the sync is of the journal’s own directory |
| CrashRuns.UndecidedExactly | src/doc_lattice/reconcile_transaction.py:1683-1766 | an executable check of what is durable and pending at the journal tells exactly whether a crash can leave either marker |
| CrashRuns.FailedResetLeavesMarkerUndecided | src/doc_lattice/reconcile_transaction.py:1633-1680 | running the marker and its reset with a fault at the last sync of each ends with the prepared journal visible and both markers possible |
| CrashRuns.UndecidedRollbackTears | src/doc_lattice/reconcile_transaction.py:1212-1261 | from there, one durable restore of a destination in another directory than the journal’s leaves a crash with the committed marker and destinations on both sides |
| CrashRuns.EqualImagesStall | src/doc_lattice/reconcile_transaction.py:1185-1209 | for every transaction with a rewrite of equal images some disk meets every claim of a rollback, the write-ahead invariant included, with that destination stuck: it counts as "after" and its before stage is gone |
| CrashRuns.RestoreThenStall | src/doc_lattice/reconcile_transaction.py:1185-1209 | restoring a destination whose two images are equal, on any disk of a rollback, leaves it stuck; a process that dies there leaves what no number of recoveries completes |
| CrashRuns.NeverStallsExactlyWhenImagesDiffer | src/doc_lattice/reconcile_transaction.py:1185-1209 | every disk a transaction’s rollback may find can be rolled back to the end, undisturbed, if and only if each of its rewrites has two different images |
| CrashRuns.NoRecoveryFinishes | src/doc_lattice/reconcile_transaction.py:2069-2110 | once a destination is stuck none of any number of recoveries completes, whatever faults they meet, and it stays stuck |
| CrashRuns.PublishedExactlyWhenNoneOrphaned | src/doc_lattice/reconcile_transaction.py:1510-1514 | before a publication is known durable, recovery may claim that the journal goes last if and only if a check of what is durable and pending finds no stage that can stay without the journal |
| CrashRuns.PublishedExactlyWhenJournalStays | src/doc_lattice/reconcile_transaction.py:1510-1514 | while a before stage is durable the journal goes last if and only if the same check finds that the journal cannot be lost |
| CrashRuns.UnflushedPublicationIsLosable | src/doc_lattice/reconcile_transaction.py:1510-1514 | publishing that dies between the journal’s link and the sync after it leaves the journal visible and losable, with every stage durable |
| CrashRuns.FlushedIsPublished | src/doc_lattice/persistence.py:61-76 | a visible journal with no unflushed operation is published: no crash lacks it |
| CrashRuns.StageDropSafeExactlyWhenPublished | src/doc_lattice/reconcile_transaction.py:1016-1056 | a recovery’s first stage removal, synced while another directory’s stage is durable, keeps the journal last if and only if the journal cannot be lost or the sync is of its own directory |
| CrashRuns.UnpublishedRecoveryOrphans | src/doc_lattice/reconcile_transaction.py:1108-1124 | where the journal can be lost, durably removing a stage in another directory than the journal’s leaves a crash with no journal, that stage gone and a durable stage of a different directory still there |
| CrashRuns.FlushedIsDecided | src/doc_lattice/reconcile_transaction.py:1683-1766 | a journal with no unflushed operation is a decided marker |
| CrashRuns.FlushDecides | src/doc_lattice/persistence.py:61-76 | the remedy: once the journal’s directory is synced nothing on the journal is unflushed and the marker is decided |
| CrashRuns.CommitThenRecover | src/doc_lattice/reconcile_transaction.py:1815-1899 | whole runs: a commit, then recoveries between power losses, process deaths and other processes’ edits until one completes, or until a failed commit is resumed where both markers can be left. Every destination not open to others ends on the one side the result names, and without a journal that is the side the attempt was on; what a commit reported (reconciled, or backed out) holds in every crash image whatever follows; a published journal goes last on every disk a run stops on; content that is neither image is never replaced |
| CrashRuns.RecoverTwice | src/doc_lattice/reconcile_transaction.py:2069-2110 | a second completed recovery changes nothing; after a full one there is none to do, after a partial one the unresolved set is the same and nothing is restored |
| CrashRuns.PartialAgain | src/doc_lattice/reconcile_transaction.py:1235-1261 | what a partial rollback leaves is rolled back to itself, with the same unresolved destinations; a second one can complete if and only if nothing restored had equal images |
| Locking.ReconcileLock.ClaimOperation | src/doc_lattice/reconcile_transaction.py:382-391 | grants the lease exactly if active and not in use |
| Locking.CommitRewrites | src/doc_lattice/reconcile_transaction.py:1789-1812 | without the lease of that root nothing is read or written; with it the commit is the locked one; with a journal already there nothing changes; the lease is free again afterwards |
| Locking.RecoverTransaction | src/doc_lattice/reconcile_transaction.py:2047-2066 | without the lease of that root nothing is read or written; with it the recovery is the locked one, counts and unresolved destinations included; with distinct images and nobody else ever about it completes; the lease is free again afterwards |
| Slugger.CandidatesDiffer | src/doc_lattice/markdown_compat.py:340-350 | different suffixes give different candidates |
| Slugger.DecimalReads | src/doc_lattice/markdown_compat.py:346-347 | a suffix is decimal digits without a leading zero and reads back as its number |
| Slugger.LeastFree | src/doc_lattice/markdown_compat.py:340-350 | the least unused candidate: everything before it is taken |
| Slugger.Slugger.SlugWithProbes | src/doc_lattice/markdown_compat.py:340-350 | the counter-driven loop gives the naive rule’s id, probes the base and then the suffixes past the counter, and terminates |
| Allocation.HeadingInventory | src/doc_lattice/markdown_compat.py:486-531 | one record to a heading, traced: the id is the naive one and every probe but it is held by an earlier heading |
| Allocation.TraceIsDistinct | src/doc_lattice/markdown_compat.py:340-350 | allocated ids are pairwise distinct |
| Allocation.TraceIsNaive | src/doc_lattice/markdown_compat.py:340-350 | a document’s ids are the naive rule applied in order |
| Allocation.SameBaseSameComponent | src/doc_lattice/markdown_compat.py:534-575 | headings with equal base slugs are always in one component |
| Allocation.HolderSharesComponent | src/doc_lattice/markdown_compat.py:534-575 | whoever holds a candidate a heading could not take shares its component, even where the counter skipped it |
| Allocation.DeletionKeepsOtherComponents | src/doc_lattice/markdown_compat.py:534-550 | deleting headings of some components leaves the reallocated id of every heading outside them unchanged |
| Allocation.UnlinkedSurvivesAnyDeletion | src/doc_lattice/markdown_compat.py:534-550 | a heading linked to none keeps its base slug whatever else is deleted |
| DisjointSets.Find | src/doc_lattice/markdown_compat.py:554-558 | path halving keeps every node’s root and ends at it |
| DisjointSets.Union | src/doc_lattice/markdown_compat.py:560-563 | after joining two nodes equal roots mean connected by the links and the new one |
| DisjointSets.RootIsLeast | src/doc_lattice/markdown_compat.py:560-563 | a root is the least node of its component |
| Collisions.CollisionComponents | src/doc_lattice/markdown_compat.py:534-575 | the result is exactly the classes of more than one heading under "examined an id held by", members and components in document order |
| Collisions.ComponentShieldsOthers | src/doc_lattice/markdown_compat.py:534-550 | deleting members of one reported component never changes an id outside it |
| Collisions.UngroupedNeverMoves | src/doc_lattice/markdown_compat.py:534-550 | a heading in no reported component keeps exactly its base slug, whatever else is deleted |
| Collisions.EqualBasesAreGrouped | src/doc_lattice/markdown_compat.py:534-550 | equal base slugs are reported together |
| MergedCollisions.StarsConnect | src/doc_lattice/loader.py:153-161 | joining each member to its component’s first connects exactly the lines the probes connect |
| MergedCollisions.CollisionMembersByLine | src/doc_lattice/loader.py:99-177 | every line either inventory links gets the sorted members of its class under both relations, the full record winning; two lines share a tuple if and only if connected |
| MergedCollisions.MergedClassShieldsOthers | src/doc_lattice/loader.py:99-177 | deleting headings on the lines of one reported class changes no id outside it, in either inventory |
| MergedCollisions.UnreportedNeverMoves | src/doc_lattice/loader.py:99-177 | a heading on a line nothing reports keeps its base slug, in either inventory, whatever else is deleted |
| Selectors.RecursiveClosure | src/doc_lattice/link_selectors.py:160-178 | the positions reachable over recursive segments, exactly, never past the last |
| Selectors.SelectorMatchesPath | src/doc_lattice/link_selectors.py:181-223 | the position-set matcher decides the recursive meaning of a selector, for every selector and path |
| Selectors.SelectorPrunesPath | src/doc_lattice/link_selectors.py:226-249 | some prefix of the path is matched |
| Selectors.AdjacentRecursive | src/doc_lattice/link_selectors.py:160-167 | adjacent recursive segments mean no more than one |
| Selectors.CoversBeneath | src/doc_lattice/link_selectors.py:184-188 | a directory and a final recursive segment cover exactly what lies beneath it |
| PathSelection.RetainedEntries | src/doc_lattice/path_selection.py:313-344 | keeps exactly the entries no exclusion matches, in order |
| PathSelection.RecursiveFrames | src/doc_lattice/path_selection.py:364-403 | a recursive frame’s file matches and the states it spawns |
| PathSelection.NextSound | src/doc_lattice/path_selection.py:455-478 | whatever a state leads to, the whole selector carries to |
| PathSelection.FoundBelow | src/doc_lattice/path_selection.py:424-434 | a visited state has found everything its part of the selector matches: memoisation loses no match |
| PathSelection.RunWalk | src/doc_lattice/path_selection.py:406-478 | finds exactly the leaf spellings the selector matches and no exclusion prunes if and only if every unpruned directory the selector leads to can be listed, and otherwise names one that cannot; at most one scan to a directory and segment |
| PathSelection.SelectPaths | src/doc_lattice/path_selection.py:187-250 | each selected path with exactly the selectors that select it; a selector that selects nothing is refused; a directory that cannot be listed is named only if some selector leads to it |
| Sections.SectionSpans | src/doc_lattice/sections.py:64-83 | each section ends before the next heading of equal or higher level, or at the end |
| Sections.SpansAreLaminar | src/doc_lattice/sections.py:76-83 | any two section spans are nested or disjoint |
| Sections.Popped | src/doc_lattice/loader.py:353-360 | popping from the top leaves exactly the positions that keep the next one |
| Sections.RecordAncestors | src/doc_lattice/loader.py:338-360 | the one-stack pass records the earlier spans nothing since has outreached |
| Sections.RecordedEncloses | src/doc_lattice/loader.py:338-352 | on laminar spans those are exactly the enclosing sections |
| Sections.OutermostFirst | src/doc_lattice/loader.py:345-352 | outermost first |
| Sections.AncestorChains | src/doc_lattice/sections.py:86-132 | each addressable heading’s chain lists exactly the headings above it in the merged outline, outermost first, the full inventory winning a shared line |
| Sections.ChainsAgree | src/doc_lattice/sections.py:86-107 | where every heading is addressable the chain by level names exactly the enclosing sections |
| Impact.SectionTokenTouches | src/doc_lattice/impact.py:40-63 | a section token expands to the section, its file and exactly the sections of the document’s headings whose spans enclose it |
| Impact.SectionExpandsToEnclosing | src/doc_lattice/impact.py:46-50 | a section’s recorded ancestors are exactly the sections of the document’s headings whose spans enclose it |
| Impact.FileTokenTouches | src/doc_lattice/impact.py:56-57 | a file token expands to the file and exactly the sections at its path |
| Impact.PartsAreItsOwn | src/doc_lattice/impact.py:56-57 | where no other document has its path those are exactly the document’s own sections |
| Impact.DistanceFromDocs | src/doc_lattice/impact.py:95-115 | a node’s distance is the length of the shortest chain of documents in which an entry of each names the file, or a section, of the one before it, read off the documents alone |
| Impact.ChainReported | src/doc_lattice/impact.py:95-115 | every chain within the bound is reported no deeper than it is long |
| Impact.RunImpact | src/doc_lattice/impact.py:66-116 | a node is reported at depth d if and only if d is its shortest derives-from distance from the expanded token and within the bound; unknown tokens are refused |
| Impact.ConsistentIsExpandable | src/doc_lattice/impact.py:58-63 | the lookups the expansion makes are total on a built lattice |
| Impact.ImpactOf | src/doc_lattice/impact.py:66-116 | on any documents: a duplicated id is refused, a token that names no file or section is refused, and otherwise a document is reported at depth d if and only if d is within the bound and the shortest chain of documents that derive from one another, starting from what the token touches, has d of them |
| LatticeModel.AsRefOfParse | src/doc_lattice/model.py:83-105 | printing a parsed ref gives it back, so parsing is injective |
| LatticeModel.ParseRefInjective | src/doc_lattice/model.py:88-105 | two refs naming one target are the same string |
| LatticeModel.ParseOfAsRef | src/doc_lattice/model.py:83-105 | parsing a printed target gives it back if and only if its last component holds no separator |
| LatticeModel.RegisterAll | src/doc_lattice/loader.py:316-335 | succeeds if and only if no id is registered twice, and then holds exactly the registrations |
| LatticeModel.DeriveSections | src/doc_lattice/loader.py:65-97 | one section to a heading, with its anchor, chain and span, and a collision only where the anchor is not a marker’s |
| LatticeModel.ResolveEdges | src/doc_lattice/loader.py:278-308 | one edge to each named target, from the last entry naming it, in the order first named |
| LatticeModel.EdgesDistinct | src/doc_lattice/loader.py:281-284 | no two edges of a document name one target |
| LatticeModel.DistinctAsGiven | src/doc_lattice/loader.py:316-335 | nothing is registered twice if and only if no two documents share an id and no two sections of one an anchor |
| LatticeModel.ConsistentRecords | src/doc_lattice/loader.py:212-250 | a built lattice says what its documents say: each file is indexed whole, each section at its span with its collision and its heading chain exactly where it has them, each node’s edges are those its last entries for each ref give, and nothing else is indexed |
| LatticeModel.DerivesAsGiven | src/doc_lattice/loader.py:245-250 | a node derives from a target if and only if an entry of its document names it and some document has it |
| LatticeModel.BuildLattice | src/doc_lattice/loader.py:180-275 | builds if and only if no two documents share an id and no two sections of one an anchor, and otherwise names one that is shared; the lattice’s maps agree with each other and say exactly what the documents say |
| Dictionaries.FillNext | src/doc_lattice/loader.py:293-308 | a dictionary filled in order: last value wins, keys keep the place of their first use |
| Convergence.CachedTargetHash | src/doc_lattice/resolve.py:60-75 | the cached hash is always the live one: of the body that owns the path, at the recorded location and under the recorded heading chain |
| Convergence.Classify | src/doc_lattice/check.py:228-260 | the status of an edge is its state, with the live hash exactly where one was compared |
| Convergence.CheckLattice | src/doc_lattice/check.py:210-225 | one status to an edge, in node then edge order |
| Convergence.EdgesInOrder | src/doc_lattice/check.py:218-225 | every edge has one place, after all edges of the nodes before its own and in its node’s order |
| Convergence.Reconcile | src/doc_lattice/reconcile.py:1567-1655 | the plan holds exactly the STALE and UNRECONCILED edges asked about, of the one node named if one is and with the one target named if one is, each with its live hash; a refusal names an edge asked about that calls for it and comes whenever one does; an edge asked about by name that is not there is reported |
| Convergence.ConcludesAnswers | src/doc_lattice/reconcile.py:1603-1655 | planning over the chosen nodes answers the request as put, whatever order the nodes come in |
| Convergence.OnePassConverges | src/doc_lattice/reconcile.py:1603-1655 | after a plan is applied every selected edge is OK or BROKEN and every other edge is in the state it was in |
| Convergence.ReconcileAllSettles | src/doc_lattice/reconcile.py:1570-1586 | reconciling everything leaves only OK and BROKEN edges |
| Convergence.SettledPlansNothing | src/doc_lattice/reconcile.py:1603-1655 | planning a settled lattice gives nothing and refuses nothing |
| Convergence.FullPass | src/doc_lattice/reconcile.py:1567-1655 | build, plan, apply, rebuild, check and plan again, read off the documents: refused if and only if some entry names a section whose anchor collides; otherwise the plan is exactly the entries whose last lock is missing or differs from the hash of what they name, each with that hash, there is one status to each entry that gives an edge, OK or BROKEN as its target exists, and the second plan is empty |
| Convergence.AmbiguousFromDocs | src/doc_lattice/reconcile.py:1603-1655 | a lattice has an ambiguous edge if and only if some document’s entry names a section whose anchor collides |
| Convergence.PlanFromDocs | src/doc_lattice/reconcile.py:1603-1655 | the plan in terms of the documents: which entries it holds, and of which body, span and chain each hash is |
| Convergence.StatusesFromDocs | src/doc_lattice/check.py:210-225 | the statuses in terms of the documents: one to each entry that gives an edge |
| SourceEdits.RightToLeftIsAllAtOnce | src/doc_lattice/reconcile.py:1191-1197 | right-to-left application of well-listed disjoint edits is simultaneous replacement |
| SourceEdits.UniqueKeepsTheLast | src/doc_lattice/reconcile.py:1194 | an edit is kept if and only if no later one has its span, and no two kept edits share a span |
| SourceEdits.UniqueIsOnePerSpan | src/doc_lattice/reconcile.py:1194 | the edits kept stand in the order in which their spans were first used |
| SourceEdits.UniqueOfDistinct | src/doc_lattice/reconcile.py:1194 | where all spans differ every edit is kept, in its place |
| SourceEdits.ApplySourceEdits | src/doc_lattice/reconcile.py:1191-1197 | one edit to a span, the last value winning, applied from the right; well-listed edits are all replaced at once, none dropped |
| SourceEdits.SimultaneousExactlyWhenWellListed | src/doc_lattice/reconcile.py:1191-1197 | disjoint edits are applied simultaneously, whatever their texts, if and only if no insertion is listed before a replacement with its start |
| SourceEdits.InsertionIsSwallowed | src/doc_lattice/reconcile.py:1191-1197 | a concrete pair listed the wrong way round |
| SourceEdits.SortSplits | src/doc_lattice/reconcile.py:1195 | the sort is stable: edits at one start stay together, as they were listed |
| SourceEdits.EditsOfAPart | src/doc_lattice/reconcile.py:1749-1752 | editing a part of a text and putting it back is editing the whole with every span shifted |
| Frontmatter.JoinSplit | src/doc_lattice/frontmatter_parser.py:124-127 | joining the lines gives the text back |
| Frontmatter.SplitPieces | src/doc_lattice/frontmatter_parser.py:92-93 | the offsets always delimit the metadata, and the pieces round-trip if and only if the block is not one blank line |
| Frontmatter.SplitMeans | src/doc_lattice/frontmatter_parser.py:98-178 | which texts have an envelope, of which kind and with which pieces, in terms of their first line and the first line that closes it; which are refused, and why |
| Frontmatter.BlankLineIsLost | src/doc_lattice/frontmatter_parser.py:184-209 | a concrete block of one blank line comes back without it |
| Frontmatter.RewriteFile | src/doc_lattice/reconcile.py:1719-1753 | only the metadata is rewritten; with well-listed edits the result is the file with exactly the planned spans, shifted to where the metadata starts, replaced; files that cannot be split are refused |
| Relocation.ReboundAt | src/doc_lattice/reconcile.py:1143-1148 | where a reused name is next defined |
| Relocation.RelocateAnchors | src/doc_lattice/reconcile.py:1134-1160 | each replaced definition with an untouched alias is moved to the first one bound to it, and to no other |
| Relocation.ReplacedAreGone | src/doc_lattice/reconcile.py:1121-1160 | a replaced definition and a dropped alias are gone from where they stood, and nothing else changes but the aliases that take a definition over |
| Relocation.AliasesKeepTheirValues | src/doc_lattice/reconcile.py:476-489 | every alias the edits leave still reads the value it read before, for any definitions, rebindings and edited aliases |
| DoubleQuoted.Print | src/doc_lattice/reconcile.py:818-841 | writes the spelling of each code point between quotes |
| DoubleQuoted.PlainCodes | src/doc_lattice/reconcile.py:807-816 | a code point stands for itself if and only if YAML 1.2.2 section 5.1 prints it and it is no line break, quote, backslash, tab or byte-order mark; quote, backslash, tab, line feed and carriage return take two characters and every other one six |
| DoubleQuoted.HexLower | src/doc_lattice/reconcile.py:836-839 | escapes are written with lower-case digits |
| DoubleQuoted.LongEscapeNeverNeeded | src/doc_lattice/reconcile.py:838-839 | the eight-digit escape is never taken: all of its range is printable |
| DoubleQuoted.ReadUndoesQuoted | src/doc_lattice/reconcile.py:818-827 | a reader written from YAML 1.2.2 sections 5.1, 5.7 and 7.3.1 undoes the printer, for every string |
| DoubleQuoted.QuotedPrintable | src/doc_lattice/reconcile.py:807-827 | the output is one line: characters YAML 1.2.2 section 5.1 prints, none of them a line break of section 5.4, a tab or a byte-order mark |

## Left out

- Fingerprints are compared by content: SHA-256 is taken as injective where recovery compares digests, and as an uninterpreted function of body, span and heading chain where drift is checked.
- No step of another process falls between a check and the rename or unlink that follows it, nor between publishing a journal and loading it; the code does not claim that window.
- Nothing is claimed of paths other processes may edit beyond not replacing what is neither image, nor of a run whose journal itself is edited.
- Journal provenance, versions and timestamps, JSON syntax, error wording and remediation notes: only the typed outcome of each step is kept.
- Symbolic links, permissions, inode identity, containment checks and the orphan scan of `reconcile --recover`; file locking is kept only as the active and in-use gate of `ReconcileLock`.
- CrashRuns.CommitThenRecover: says nothing of the sides of destinations once it reports the run undecided, because both markers can be left there and the promise is false; see the first point above.
- Recovery.RecoverTransactionLocked: starts from a decided marker only; from an undecided one the write-ahead promise fails with the first rename or removal (first point above), so nothing is claimed there.
- Locking.RecoverTransaction: likewise starts from a decided marker only.
- Cleanup.CleanupTransactionArtifacts: claims nothing of the order for a journal whose publication can still be lost and is not settled; see the third point above.
- Cleanup and rollback read the disk as it is during the step; reads that fail are modelled, reads that return wrong bytes are not.
- The slug of a text is an uninterpreted function, so the Unicode tables, case folding and marker stripping behind it are not modelled; its memo is left out.
- Markdown and YAML parsing: headings, spans, occurrences and planned edits are inputs. Merge keys, null `seen` values and mark accounting are left out, so a `seen` inherited through a merge key is not an entry of its own.
- Paths and selectors are sequences of names between separators; the grammar check of a selector and the character-level match of one segment are a parameter.
- PathSelection.SelectPaths: models the lenient policy, in which a symbolic link to a directory is a leaf, and leaves the paths unsorted.
- Sections.AncestorChains: returns the headings of a chain rather than their rendered text.
- Impact.RunImpact: returns the depths by node id rather than a list sorted by id.
- Convergence.CheckLattice: takes the order of the node ids as given instead of sorting them, so it holds for any order, the sorted one included.
- Convergence.FullPass: applies a plan to the entries of the documents; that the bytes of a file come to say the same is shown piecewise in `SourceEdits`, `Frontmatter`, `Relocation` and `DoubleQuoted`, with the span planner as a parameter.
- SourceEdits.ApplySourceEdits: overlapping spans have no simultaneous meaning, so for them only the order of application is stated.
- Relocation.AliasesKeepTheirValues: takes a flat list of definitions and aliases in source order; an alias kept inside a larger edited node names a whole entry, so it is never bound to a replaced value.
- Frontmatter.RewriteFile: takes whitespace and the near-miss opener as predicates, and leaves out the refusal of `--` in a comment envelope and the reload check.
- Link checking, discovery, configuration, the load cache, manifest rewriting, the Linear client, renderers, lint, the command line and the release scripts.
