# Huroshiki: verified models

This project models the protocols and decision procedures of Huroshiki, a manager of Minecraft modpacks, and
proves what they promise. It covers:

- the publication transaction for Content overlays: a staged tree is exchanged with the live one, verified, and
  committed or rolled back, with an exception, the death of the process or an external writer at any step;
- edit plans on overlays, the report of what they change, conflict analysis and the build it predicts, and the
  planning of imports;
- the atomic write of an overlay file;
- copy migration of a Pack: a rename whose outcome may be unknown, a one-shot handoff, cleanup that can be retried,
  and locks that outlive the transaction;
- the terminal normaliser and the parser of packwiz output;
- version order and ranges, evidence that two dependencies are equivalent, substitution of roots when a migration
  has conflicts, and the newline codec of the editor.

Run `dafny verify dfyconfig.toml`.

## How it is built

Code that works step by step on fields appears twice: as a class whose methods update the fields, and as a
function of the old state to which each method is tied; the theorems are about the function. `Common.Step` says how
a step ended: it went on, it raised, or the process died. An environment tells, for each point of the code, what
happens there; a theorem about all environments is a theorem about an interruption at every point. Runs are
sequences of calls, each with its own environment.

## What the proofs found

- **Content publication.** An exception that lands between the rename to `retained-original-content`
  (`shared/scripts/content_operations.py:2251-2257`) and the assignment of its name on line 2258 strands the plan: the
  result stays live, no later discard succeeds, and the baseline tree stays where it was put.
  Everywhere else an interruption is harmless (`UnsafeExactlyWhen`, `StrandedForever`).
- **Rollback goes by the digest.** An external tree with the digest of the result can be discarded by a rollback
  (`RaceNeedsAnotherDigest`).
- **Build of overlays.** A file copied from `common` keeps its mode, and the copy of the next side opens it for
  writing (`shared/scripts/overlay_policy.py:1302`, `:1137-1163`). Without owner-write that fails, and the build reports an issue
  and keeps the first file, although the analysis has only a warning (`AnalysisPredictsBuild`,
  `ProtectedFileIsAnIssue`).
- **Read-only directories.** An import keeps the modes of its source, also of a read-only directory. The copy that
  every later edit plan starts from makes a directory with its final mode before it fills it
  (`shared/scripts/overlay_policy.py:1493-1503`), so that each of those plans fails (`CopyEqualsBaselineExactlyWhen`).
- **Atomic write.** The rename is undone only if it returned: a rename that takes effect and is then interrupted
  stays, and the displaced file is removed. If the rollback itself fails, the new file stays under its name, and a
  file it displaced stays under the temporary one; if removing the temporary file fails, it stays too
  (`RaisedMeansUnchanged`, `WriteLeaves`, `OldFileIsLostExactlyWhen`). A second exception in the handler, before the
  rename is taken back or before the temporary name is marked to be kept, loses a displaced file.
- **Locks of a migration.** When a cleanup fails and then cannot look at the transaction directory,
  `_retain_cleanup_diagnostic` (`shared/scripts/pack_migration.py:1845-1861`) goes on with a new directory. The old tree stays on
  disk, and the next retry releases both locks (`LocksOutliveTheTree`, `RunLeavesTreeBehind`).
- **Cleanup of a migration.** A copied directory keeps its mode, and the removal changes none
  (`shared/scripts/pack_migration.py:1082-1121`). A Pack with a read-only directory that is not empty is published, its
  transaction is never cleaned up, and both locks stay held (`RetryConverges`, `PublicationNeverEnds`).
- **Import planning.** A parent that exists in another spelling (same portable key) is no conflict, yet the
  operations that follow are refused, because that parent is not there under the requested spelling
  (`CarriedOutExactlyWhen`, `OtherSpellingIsRefused`). So are operations in a directory that the owner may not
  write, and a source with a mode above 0777, such as a setgid directory (`SetgidDirectoryIsRefused`).
- **Root substitution.** A replacement may be given the identity of another unresolved root that is not among the
  current roots; that root's own choice, coming later, silently drops it (`AReplacementCanBeLost`,
  `ReplacementIsKeptIff`). With all unresolved identities among the current roots this cannot happen.
- **Migration request.** With no unresolved roots the digest of a request covers neither target nor attempt
  (`EmptyRequestBindsLess`).
- **Published and committed.** `shared/scripts/pack_migration.py:2119` sets `published` before the commit flag, and an exception
  between lines 2129 and 2130 leaves a committed plan `uncertain` (`CommittedIsUncertainExactlyWhen`). So the theorems are
  stated on the two fields and not on the view `publication_lifecycle`.

## Model

| member | source | states |
|---|---|---|
| ContentPublicationProofs.PublicationIsInterruptionSafe | shared/scripts/content_operations.py:1398-1531 | After any run of apply and discard calls interrupted anywhere (also inside a rollback), in which no apply met the gap after the rename to `retained-original-content`: neither committed nor active means the live tree is the baseline; active means it is the baseline, or the result with the baseline at the recorded name; committed means the result is live and the baseline retained |
| ContentPublicationProofs.UnsafeExactlyWhen | shared/scripts/content_operations.py:2251-2258 | Over every run without external writers: its end is unsafe if and only if some apply of the run, with a baseline tree and the staged one in place, was interrupted between the rename to `retained-original-content` and the assignment that records it; then the plan is stranded |
| ContentPublicationProofs.UnsafeIffRecordInterrupted | shared/scripts/content_operations.py:2251-2258 | The same for one apply of a fresh plan, by its interruptions alone |
| ContentPublicationProofs.StrandedForever | shared/scripts/content_operations.py:1453-1493 | A stranded plan stays stranded whatever calls follow |
| ContentPublicationProofs.StrandedNeverReturns | shared/scripts/content_operations.py:1398-1493 | No discard of a stranded plan returns |
| ContentPublicationProofs.DiscardConverges | shared/scripts/content_operations.py:1398-1531 | After any such run, however often apply and discard were interrupted, a discard that nothing interrupts returns: the lock is released, and the live tree is the baseline with the plan discarded, or the result with it applied, according to the commit |
| ContentPublicationProofs.InterruptionSafe | shared/scripts/content_operations.py:2135-2296 | The invariant behind the safety theorem is kept by every run |
| ContentPublicationProofs.CallKeepsInv | shared/scripts/content_operations.py:1398-1426 | Every single call keeps that invariant, wherever it is interrupted |
| ContentPublicationProofs.RollbackKeepsInv | shared/scripts/content_operations.py:1428-1531 | A rollback, complete or interrupted at any of its points, keeps that invariant |
| ContentPublicationProofs.TryApplyKeepsInv | shared/scripts/content_operations.py:2202-2273 | The publication itself keeps that invariant up to any interruption |
| ContentPublicationProofs.TreesConserved | shared/scripts/content_operations.py:1428-1531 | Over any run the number of copies of every tree in the five places is unchanged: trees are only moved |
| ContentPublicationProofs.RaceRestored | shared/scripts/content_operations.py:2236-2250 | If an external writer swaps in a tree of another digest after the baseline check and before the exchange, then after any further interrupted calls the plan is not committed and the tree is live or in staging; once no longer active it is live |
| ContentPublicationProofs.RaceNeedsAnotherDigest | shared/scripts/content_operations.py:1447-1493 | The digest condition is needed: a run in which an external tree with the digest of the result ends in `retained-discarded-content` |
| ContentPublicationProofs.ForeignTreeStaysLive | shared/scripts/content_operations.py:1447-1493 | In every run from every state, with interruptions anywhere and nobody else writing: a live tree (or none) whose digest is not the result's stays live, unless it is the baseline that a ready plan has still to publish over |
| ContentPublicationProofs.RollbackMovesOnlyTheResult | shared/scripts/content_operations.py:1447-1493 | The same for one rollback, with external writers before its look at the live tree |
| ContentPublicationProofs.CallKeepsLife | shared/scripts/content_operations.py:1353-1426 | Every call keeps the life-cycle facts and never revokes a commit |
| ContentPublicationProofs.LifecycleKept | shared/scripts/content_operations.py:1259-1309 | Over any interleaving of apply calls and discard operations on threads: discarded implies neither committed nor active, applied implies committed with the lock released, a released lock implies committed or not active, commit is permanent, and each discard operation runs its body at most once |
| ContentPublicationProofs.InterleavingsAreRuns | shared/scripts/content_operations.py:1360-1426 | Every interleaving leaves the plan as some sequence of whole calls does, so the theorems about runs hold of it |
| ContentPublicationProofs.OneOperationAtATime | shared/scripts/content_operations.py:1360-1391 | Over any interleaving all discard operations are done but the one that callers are given |
| ContentPublicationProofs.FinishedPlanBeginsNothing | shared/scripts/content_operations.py:1376-1380 | A caller that discards a finished plan is given an operation that is done and is never executed |
| ContentCommitProofs.CommitsExactlyWhen | shared/scripts/content_operations.py:2146-2296 | For every ready plan and every interruption: the call commits if and only if the baseline is live, the staged tree in place and its old name free for the original, and every point up to the commit goes on (those about the original only with a baseline); it returns if and only if the lock is released too. A commit leaves the result live, the baseline retained and all else where it was, with the state applied and the lock released on return, failed if the release raised |
| ContentCommitProofs.FreshPlanIsPublished | shared/scripts/content_operations.py:2146-2296 | The same for a plan as planning hands it out, where only the points decide |
| ContentCommitProofs.CommittedExactlyWhen | shared/scripts/content_operations.py:2146-2296 | Over every run: the plan is committed at its end if and only if some apply of the run found everything in place and went on to the commit |
| ContentCommitProofs.RaisedApplyIsUndone | shared/scripts/content_operations.py:2274-2296 | An apply that raises before its commit, outside the gap, with a rollback that goes on: the baseline is live, the result is in staging or kept as failed, nothing is active, and the lock is held |
| ContentCommitProofs.TamperedResultIsNotCommitted | shared/scripts/content_operations.py:2222-2235 | Whatever an environment does: if another tree than the result is live when it is verified, the call does not commit |
| ContentCommitProofs.RollbackHasLooked | shared/scripts/content_operations.py:1428-1531 | Whatever an environment does, external writers included: after a rollback that returned the live tree is the baseline, or the tree that was at the exchange name |
| ContentCommitProofs.AppearingTreeStays | shared/scripts/content_operations.py:2213-2221 | Where there was no Content, a tree of another digest that appears between the check and the rename stays live, and the result stays in staging |
| ContentCommitProofs.DiscardsExactlyWhen | shared/scripts/content_operations.py:1398-1426 | For every plan that a run can leave and every interruption: a discard returns if and only if its deadline has not passed, no apply is under way, and nothing stops the rollback, the retention of the staged tree, the marker and the release; what it leaves in each place, and the state failed with all else as it was when it is refused |
| ContentChangePlans.ContentChangePlan.ApplyContentChanges | shared/scripts/content_operations.py:2146-2296 | The method on fields updated in place does what the specification function says from every state, at every interruption |
| ContentChangePlans.ContentChangePlan.TryApplyContentChanges | shared/scripts/content_operations.py:2202-2273 | The same for the `try` block |
| ContentChangePlans.ContentChangePlan.RollbackPublication | shared/scripts/content_operations.py:1428-1531 | The same for the rollback |
| ContentChangePlans.ContentChangePlan.RunDiscard | shared/scripts/content_operations.py:1398-1426 | The same for a discard |
| EditPlans.NormalizeOperations | shared/scripts/content_operations.py:928-1009 | Accepts if and only if every operation has a known side, a normal path and a mode within 0777, and the folded claims (its path, and the source of a move) are pairwise distinct; the result is the normalised operations, and an error is the first problem in order: what is wrong with that operation, or a key claimed twice |
| EditPlans.NormalisationIsIdempotent | shared/scripts/content_operations.py:328-349 | Normalising a normalised operation again changes nothing |
| EditPlans.AcceptedTargetsAreDistinct | shared/scripts/content_operations.py:989-1008 | Whatever the folding, accepted operations have pairwise distinct targets |
| OverlayTree.OperationKeepsPrefixClosed | shared/scripts/content_operations.py:1012-1092 | Every operation that applies (which takes the owner's permission on each directory along the way) keeps "every entry has its parent" |
| OverlayTree.MoveKeepsPrefixClosed | shared/scripts/overlay_policy.py:779-854 | So does moving a whole subtree |
| OverlayTree.OperationActsAtTargets | shared/scripts/content_operations.py:1012-1092 | An operation makes a key absent or present only at its targets or below the source and destination of a move |
| OverlayTree.ReplacementIs | shared/scripts/content_operations.py:1036-1061 | A file is replaced if and only if it is there, readable in a directory that may be changed, and has the contents expected, if any; it has the new contents, the old mode unless there is a new one, and nothing else changes |
| OverlayTree.ReplacingBack | shared/scripts/content_operations.py:1036-1061 | Replacing a file and then replacing it by what it was gives the overlay back, if and only if the new mode let it be read |
| OverlayTree.DeletionUndoesCreation | shared/scripts/content_operations.py:1018-1068 | A file can be created if and only if its key is free below a directory that may be changed; deleting it gives the overlay back |
| OverlayTree.DirectoryDeletionUndoesCreation | shared/scripts/content_operations.py:1069-1082 | The same for a directory, which is open to its owner until its mode is set |
| OverlayTree.DeletionIs | shared/scripts/overlay_policy.py:700-776 | Just a file, or a directory with nothing below it, can be deleted, and nothing else changes |
| OverlayTree.MoveIs | shared/scripts/overlay_policy.py:779-854 | When a move applies: source there, destination free and not below it, both parents open to changes, and a directory that gets another parent writable |
| OverlayTree.MovingBack | shared/scripts/overlay_policy.py:779-854 | Every move that applies can be taken back, and gives the whole overlay back, subtree included |
| OverlayTree.ClosedDirectoryRefuses | shared/scripts/overlay_policy.py:167-232 | An operation below a directory that its owner cannot read or search is refused |
| OverlayTree.ReadOnlyDirectoryRefuses | shared/scripts/overlay_policy.py:167-232 | So is one on a name in a directory that its owner cannot write |
| EditPlans.FirstProblemIs | shared/scripts/content_operations.py:932-1009 | An operation that cannot be normalised is refused with its first problem: the source of a move, then the key (its side, then its path), then the mode |
| EditPlans.SideIsReadPlainly | shared/scripts/content_operations.py:327-333 | A side is read in any case and with whitespace around it |
| EditPlans.NoResurrection | shared/scripts/content_operations.py:928-1092 | In every successful run of accepted operations, a key that was present and became absent never reappears, though moves carry and hide whole subtrees |
| EditPlans.UntouchedKeys | shared/scripts/content_operations.py:1012-1092 | A key that is present throughout and is no target keeps its node |
| EditPlans.StageOperations | shared/scripts/content_operations.py:2084-2087 | The staging loop fails exactly when some operation does, and otherwise gives the composition of all |
| EditReport.Changes | shared/scripts/content_operations.py:1195-1256 | The two loops of the report give the moves that the operations tell of, and then every other key once, in sorted order |
| EditReport.ReportIs | shared/scripts/content_operations.py:1195-1256 | A change is in the report if and only if it is a move from an entry of the baseline to an entry of the result, or about a key that no such move has, with what happened there: created just if only in the result, deleted just if only in the baseline, updated or unchanged just if in both and different or the same; the digests are those of the files at its keys |
| EditReport.KeyOrderIs | shared/scripts/content_operations.py:1227-1230 | The other keys are ordered by side (common, client, server) and then by the text of the path |
| EditReport.PosixJoins | shared/scripts/content_operations.py:1229-1229 | The text of a path joins its components with slashes |
| EditReport.ModeIsSetExactlyWhen | shared/scripts/overlay_policy.py:491-513 | The mode of a created directory is set if and only if the way to it and the directory itself can be opened |
| EditReport.ReportCoversOnce | shared/scripts/content_operations.py:1195-1256 | Every key of baseline or result is accounted for by exactly one change (a move accounts for two keys), and no other key is |
| EditReport.MoveHappened | shared/scripts/content_operations.py:1206-1226 | A move whose source was in the baseline and whose destination is in the result: its source is not in the result, its destination was not in the baseline, and the node is the same |
| EditReport.ReportedMovesAreSound | shared/scripts/content_operations.py:1206-1226 | A change reported as moved: source only in the baseline, destination only in the result, equal digests before and after, also past the final directory modes |
| EditReport.EditPlanIsReportedSoundly | shared/scripts/content_operations.py:2084-2115 | For every accepted, staged and finalised plan: each change is the only one about its key; a move is as above, and every other change says what happened at its key, with the digests before and after |
| OverlayConflicts.Conflicts | shared/scripts/content_operations.py:1122-1192 | The records are those of the specification in the same order, and by them a kind of conflict is reported for a folded path if and only if the snapshot has it: two keys of one side folded together, or sides that disagree on file and directory, overlap or diverge |
| OverlayConflicts.ConflictsAre | shared/scripts/content_operations.py:1132-1191 | A record is in the list if and only if it is the collision of a group, with all its entries in order, or the overlap of a pair of sides, with the first entry of each |
| OverlayConflicts.RecordsTell | shared/scripts/content_operations.py:1122-1192 | On the snapshot itself: a record is in the list if and only if it is a folded key of a side with at least two entries, all of them in order; or the first entries of two sides under a folded path, called a type conflict if they disagree on file or directory, an overlap if one is common, a divergence if client and server differ in contents or mode |
| OverlayConflicts.NoErrorsMeansConsistent | shared/scripts/content_operations.py:1122-1192 | No error is reported if and only if folded keys are unique and the kinds agree across the sides |
| OverlayBuild.OverlayDestination.CopyContentOverlays | shared/scripts/overlay_policy.py:1321-1403 | The recursive copy in place yields what the specification of copying one side after the other says |
| OverlayBuild.CopyIsUnion | shared/scripts/overlay_policy.py:1192-1318 | Copying onto a build that agrees in kinds and whose overlapped files the owner may write gives the right-biased union of the path maps and no issue |
| OverlayBuild.ClashIsAnIssue | shared/scripts/overlay_policy.py:1131-1318 | The copy reports an issue if and only if some path is a file on one side and a directory on the other, or a file already there that the owner may not write |
| OverlayBuild.EntryIs | shared/scripts/overlay_policy.py:1192-1318 | For any entry, valid or not: its path is an issue, and nothing else happens, if and only if its directory cannot be searched, its name is owned by packwiz, or it cannot be read or put where something of another kind or a protected file is; a `.gitkeep` is left out; otherwise it takes its place |
| OverlayBuild.PackwizNames | shared/scripts/overlay_policy.py:927-928 | The names that packwiz owns |
| OverlayBuild.AnalysisPredictsBuild | shared/scripts/content_operations.py:1122-1192 | When the analysis reports no error, copying common and then client or server into an empty destination gives exactly the right-biased union of their paths with no issue if and only if no own file lies on a common file without owner-write; otherwise there is an issue |
| OverlayCopy.CopyEqualsBaselineExactlyWhen | shared/scripts/overlay_policy.py:1455-1734 | The copy that an edit plan starts from succeeds, and equals the baseline, if and only if every directory with something in it can be written by its owner |
| OverlayCopy.CopyIsExact | shared/scripts/overlay_policy.py:1455-1618 | For any tree: the copy succeeds if and only if directories with something in them are open to their owner, files are readable and no name is packwiz's; it is then the original without `.gitkeep` |
| OverlayCopy.SideIs | shared/scripts/overlay_policy.py:1620-1734 | A missing side is made, empty and with mode 0755; one that is there is copied if and only if it is a directory that can be listed and copied |
| OverlayCopy.CopyContentDirectoryStrict | shared/scripts/overlay_policy.py:1455-1618 | The recursive loop copies what the specification says, or raises |
| OverlayCopy.ReadOnlyDirectoryIsNotCopied | shared/scripts/overlay_policy.py:1493-1503 | A directory of mode 0555 with a file in it, as an import may create it, is valid and makes the copy fail |
| OverlayBuild.ProtectedFileIsAnIssue | shared/scripts/overlay_policy.py:1131-1163 | Such an input: a common file of mode 0444 under a client file; the snapshot is consistent, and the build reports the path and keeps the common file |
| OverlayImport.PlanImport | shared/scripts/content_operations.py:1838-1926 | The loops over parents and mapped entries give the decision for each in order of depth: with any conflict no operation at all, and the lists of created, updated and unchanged paths |
| OverlayImport.BuildIndex | shared/scripts/content_operations.py:1838-1840 | The index by folded key, the last of colliding entries winning |
| OverlayImportProofs.AnyConflictLeavesTheBaseline | shared/scripts/content_operations.py:1915-1926 | There is a conflict if and only if some item is refused; then nothing is to be done, and what is staged is the baseline |
| OverlayImportProofs.RefusedExactlyWhen | shared/scripts/content_operations.py:1849-1914 | Each reason to refuse an item, if and only if: a parent that is a file, a key in another spelling, another kind, an existing directory or file under the policies that keep it |
| OverlayImportProofs.ActsExactlyWhen | shared/scripts/content_operations.py:1849-1914 | An item is created if and only if its key is portably free, with the contents and mode of the source; a file is replaced if and only if it differs and the policy replaces files, provided that it still is what it was |
| OverlayImportProofs.ImportPlanIsCarriedOut | shared/scripts/content_operations.py:1838-1926 | Without conflicts, with existing parents spelled as in the baseline, where the modes of the baseline permit and with modes within 0777: `_normalize_operations` accepts the operations as they are, all apply in their order, the modes are set, every mapped file ends with the bytes and mode of the source, directories exist, and every other key is unchanged |
| OverlayImportProofs.ImportApplies | shared/scripts/content_operations.py:1915-1926 | The same for any list of items that has its parents first |
| OverlayImportProofs.ImportReportIsTrue | shared/scripts/content_operations.py:1841-1914 | In a plan that is carried out, an item is listed as created if and only if its key was absent, as updated if and only if its node changes, as unchanged if and only if it was there and stays |
| OverlayImportProofs.ListedPaths | shared/scripts/content_operations.py:1841-1914 | Each list holds exactly the paths of the items with that effect |
| OverlayImportProofs.ImportKeepsFiles | shared/scripts/content_operations.py:1890-1914 | Under `reject` and `merge-directories` no existing file is altered |
| OverlayImportProofs.CarriedOutExactlyWhen | shared/scripts/content_operations.py:1849-1926 | A plan without conflicts is accepted, applied and finalised if and only if each parent of the target is portably free or there as a directory under the requested spelling, the modes of the baseline permit each operation, and each operation sets a mode within 0777 |
| OverlayImportProofs.SetgidDirectoryIsRefused | shared/scripts/content_operations.py:346-349 | A source directory of mode 02755 onto an empty side: no conflict, an operation that would apply, and no acceptance |
| EditPlans.AcceptedIffModesFit | shared/scripts/content_operations.py:928-1009 | Operations with normal paths are accepted as they are if and only if their modes are within 0777 and their claims are distinct |
| OverlayImportProofs.OtherSpellingIsRefused | shared/scripts/content_operations.py:1849-1858 | Two spellings of one directory: a plan below the other spelling has no conflict, and is refused when staged |
| OverlayImportProofs.SetModesSucceeds | shared/scripts/content_operations.py:1095-1119 | Setting the modes of the created directories deepest first never closes the way to the next one |
| OverlayWrite.ReturnedMeansWritten | shared/scripts/overlay_policy.py:556-660 | On return the name was free, or held a file with the expected contents; it holds exactly the requested bytes and mode, whatever short writes there were, and nothing else changed |
| OverlayWrite.AdmittedExactlyWhen | shared/scripts/overlay_policy.py:531-555 | A request is carried out if and only if its name can be looked at and is free for a new file, or there is a file with the expected contents; a replaced file keeps its mode unless another is given |
| OverlayWrite.RaisedMeansUnchanged | shared/scripts/overlay_policy.py:556-660 | A call leaves the directory as it was if and only if it was refused, or its temporary file could be removed and the rename was not reached, was refused, or returned and was taken back; for every interruption, also a second one in the handler, every rename that takes effect and raises, and every failing undo |
| OverlayWrite.WriteLeaves | shared/scripts/overlay_policy.py:516-660 | For every way a call can go: whether it returns, and the directory it leaves: unchanged, with a temporary file and its contents, with the new file, or with the new file and the old one under the temporary name |
| OverlayWrite.OldFileIsLostExactlyWhen | shared/scripts/overlay_policy.py:615-660 | A call that raises loses the file that was there if and only if the removal of the displaced file took effect and the rename stays: it took effect and raised, nothing came after it, or a second exception kept it from being taken back or the temporary name from being kept |
| OverlayWrite.LatePublishIsNotUndone | shared/scripts/overlay_policy.py:583-652 | A rename that takes effect and is then interrupted is never undone: the call raises, the new file has its name, and the old one is under the temporary name if that could not be removed |
| OverlayWrite.TryWriteOutcomes | shared/scripts/overlay_policy.py:556-640 | All the directories the `try` block can leave behind |
| OverlayWrite.StreamBounds | shared/scripts/overlay_policy.py:674-686 | The writer never passes the end, and finishes only with everything written |
| OverlayDirectories.StreamBytes | shared/scripts/overlay_policy.py:674-686 | The two nested loops write a prefix of the contents, as far as the events let them |
| OverlayDirectories.OverlayDirectory.WriteOverlayFile | shared/scripts/overlay_policy.py:556-660 | The method on a directory updated in place leaves what the specification says |
| PackMigrationProofs.UncertainRenameIsReconciled | shared/scripts/pack_migration.py:2072-2131 | Over all runs of prepare, apply, retry and discard, where the rename succeeds, fails, or succeeds and raises: a target that holds the staged tree means the state is not `not-published`, so that a discard is refused and changes nothing; committed means the target is the validated staging tree and the state is not `not-published`; the rename is issued at most once |
| PackMigrationProofs.CommittedIsUncertainExactlyWhen | shared/scripts/pack_migration.py:2120-2131 | A committed plan is still `uncertain` if and only if the rename returned and an exception came between the two assignments |
| PackMigrationProofs.RunKeepsInv | shared/scripts/pack_migration.py:1957-2168 | The invariant behind it is kept by every run |
| PackMigrationProofs.CallKeepsInv | shared/scripts/pack_migration.py:1628-2204 | ... and by every call |
| PackMigrationProofs.ReconcileDecides | shared/scripts/pack_migration.py:2086-2119 | After a failed rename both names are looked at: it goes on as published if and only if both looks succeed and the target holds the staged tree; it is taken for undone if and only if both succeed, nothing is at the target and the staged tree is in its place |
| PackMigrationProofs.RetryConverges | shared/scripts/pack_migration.py:1800-1900 | From a committed publication whose cleanup failed and whose diagnostic is there, one retry without faults reaches applied, with locks released and the current transaction directory gone, if and only if every directory in it with something inside can be written and searched by its owner; otherwise it waits as before. Target, number of renames and trees left behind are unchanged either way |
| PackMigrationOutcome.PublicationSucceedsExactlyWhen | shared/scripts/pack_migration.py:1628-2168 | Prepare and apply without a fault: they succeed if and only if the owner may write the staged directory and everything else in the transaction but the diagnostic can be deleted; then the plan is applied, published and committed, the target is the staged directory with its contents, both locks are free, nothing is left behind, and there was one rename |
| PackMigrationOutcome.AppliesExactlyWhen | shared/scripts/pack_migration.py:1920-2168 | For every prepared plan, every fault of the rename and every interruption: it commits if and only if nothing stops it before the commit, the staged Pack may be moved, and a rename that took effect and raised is recognised; it returns if and only if, besides, the snapshot is verified, and the cleanup and both releases go on with as many deletions as they need; without a commit it is failed and holds both locks |
| PackMigrationOutcome.FinishesExactlyWhen | shared/scripts/pack_migration.py:1864-1900 | A cleanup ends well if and only if the diagnostic is there, the directory can be emptied, nothing stops that, and both locks can be released; then nothing else has changed |
| PackMigrationOutcome.LocksAreReleasedEach | shared/scripts/pack_migration.py:1835-1842 | Once the directory is gone, each lock is held on if and only if its own release raised |
| PackMigrationOutcome.PreparesExactlyWhen | shared/scripts/pack_migration.py:1628-1761 | A plan is prepared if and only if it is resolved, its validation goes on, its staged directory is in place, the target is free and both locks are held; otherwise nothing changes |
| PackMigrationOutcome.PreparedOnce | shared/scripts/pack_migration.py:1628-1761 | A handoff is issued at most once: after a first preparation every other one is refused and the handoff stays, whatever is called in between |
| PackMigrationOutcome.MisplacedCallsChangeNothing | shared/scripts/pack_migration.py:1779-1797 | Apply with another handoff or on a committed plan, retry of one that does not wait for its cleanup, and discard of one that may have been published change nothing |
| PackMigrationOutcome.ReconcilesExactlyWhen | shared/scripts/pack_migration.py:2086-2119 | From any state: a rename is taken for done if and only if both names can be looked at, the staged directory is at the target and its old name is free; for undone if and only if it is the other way round |
| PackMigrationOutcome.DiagnosticIs | shared/scripts/pack_migration.py:930-934 | The diagnostic is there afterwards if and only if it was, or there is a directory and writing it did not fail; no other entry changes |
| PackMigrationProofs.FailedFinishKeepsDiagnostic | shared/scripts/pack_migration.py:1845-1900 | A cleanup that fails at any point leaves the diagnostic, in the old or a new transaction directory, unless writing it failed as well |
| PackMigrationProofs.TwoRetriesConverge | shared/scripts/pack_migration.py:1864-1900 | Without its diagnostic a retry can fail, and a second one then ends in the same way, under the same condition |
| PackMigrationProofs.DiscardConvergesExactlyWhen | shared/scripts/pack_migration.py:2171-2204 | A discard without faults empties the directory and releases the locks under the same condition, and only then |
| PackMigrationLocks.PublicationNeverEnds | shared/scripts/pack_migration.py:1864-1900 | A Pack with a directory that cannot be emptied is published without a fault, and then keeps both locks through every later call, as long as no cleanup loses sight of the directory |
| PackMigrationLocks.ReadOnlyDirectoryIsUnremovable | shared/scripts/pack_migration.py:1082-1121 | A directory of mode 0555 with a file in it is one: it can be scanned and copied, and not emptied |
| PackMigrationLocks.LocksOutliveTheTree | shared/scripts/pack_migration.py:1845-1900 | Over all runs of a fresh plan, and two retries without faults after it: a released lock means the transaction tree is gone (a directory that is there was made afterwards) if and only if no failing cleanup of the run found a tree there and then could not look at it |
| PackMigrationLocks.CallKeepsLocks | shared/scripts/pack_migration.py:1845-1900 | What a call leaves behind for good is the tree its cleanup loses sight of, and nothing else |
| PackMigrationLocks.RunLeavesTreeBehind | shared/scripts/pack_migration.py:1845-1861 | Such a run from the start: prepared, published with a cleanup that can neither begin nor look at the tree, retried: both locks are released and the whole tree is still there |
| PackMigrationLocks.TreeIsLeftBehind | shared/scripts/pack_migration.py:1845-1861 | The same from every publication that awaits its cleanup |
| PackMigrationProofs.FinishReleasesLast | shared/scripts/pack_migration.py:1864-1900 | In one cleanup a lock changes hands only once the current transaction directory is gone |
| PackMigrationProofs.DiscardReleasesLast | shared/scripts/pack_migration.py:2190-2204 | The same when discarding |
| PackMigrationProofs.RemoveKeeps | shared/scripts/pack_migration.py:1082-1121 | The recursive removal, interrupted after any number of deletions, keeps what it is to preserve and adds nothing |
| PackMigrationProofs.RemoveAll | shared/scripts/pack_migration.py:1082-1121 | Without a fault the removal finishes if and only if every directory with something in it can be written and searched by its owner, and then only what is to be preserved is left |
| PackMigrationOutcome.RemoveFinishesExactlyWhen | shared/scripts/pack_migration.py:1082-1121 | A removal that may be interrupted finishes if and only if everything can be deleted and the deletions allowed are as many as there are nodes to delete; it uses just those |
| PackMigrationProofs.RemoveLeavesUnremovable | shared/scripts/pack_migration.py:1082-1121 | What cannot be removed still cannot be after an attempt, wherever that was interrupted |
| PackMigrationPlans.RemoveDirectoryContents | shared/scripts/pack_migration.py:1082-1121 | The removal loop does what the specification says |
| PackMigrationPlans.PackMigrationPlan.ApplyPackCopyMigrationRaw | shared/scripts/pack_migration.py:1957-2168 | The method on fields updated in place does what the specification function says from every state, at every fault |
| PackMigrationPlans.PackMigrationPlan.FinishCommittedPublication | shared/scripts/pack_migration.py:1864-1900 | The same for the cleanup after a commit |
| PackMigrationPlans.PackMigrationPlan.PreparePublication | shared/scripts/pack_migration.py:1628-1761 | The same for preparing |
| PackMigrationPlans.PackMigrationPlan.DiscardPackMigrationPlan | shared/scripts/pack_migration.py:2171-2204 | The same for discarding |
| PackMigrationPlans.PackMigrationPlan.RetryPackMigrationCleanup | shared/scripts/pack_migration.py:1779-1797 | The same for the retry |
| TerminalProofs.NormaliserShowsTheStream | shared/scripts/packwiz_parser.py:58-144 | For every character stream the lazily padded line emits as many lines as an infinite line of blanks does, and each is the text that line shows up to its last cell that is not blank |
| TerminalProofs.LinesRefine | shared/scripts/packwiz_parser.py:58-144 | The same from any two related states, in the middle of an escape sequence too |
| TerminalProofs.CommandRefines | shared/scripts/packwiz_parser.py:111-144 | Every control and every put keeps the line related to the infinite one |
| TerminalProofs.ShownTextIsUnique | shared/scripts/packwiz_parser.py:66-72 | A screen shows one text only, so that the refinement determines the emitted line |
| TerminalControls.EveryStreamActs | shared/scripts/packwiz_parser.py:58-144 | Every stream is spelled by tokens (characters, control sequences, titles, other escapes) with at most the start of one more, and the line and the completed lines are what these tokens do to an empty line, one after the other |
| TerminalControls.TokenActs | shared/scripts/packwiz_parser.py:58-144 | What a token does, by its spelling: with n the number of the first parameter after any question marks, `C` and `D` move the cursor by max(1, n) and not below 0, `G` to column max(1, n) - 1; `K` blanks from the cursor on, up to and including it, or everything with the cursor home; every other final, titles and other escapes leave the line alone; CR, LF, BS, tab and printable characters act as on a line of cells |
| TerminalControls.NumberedControlActs | shared/scripts/packwiz_parser.py:120-144 | The same for a control sequence with the decimal numeral of n as its parameter |
| TerminalNormalizers.TerminalNormalizer.Feed | shared/scripts/packwiz_parser.py:58-109 | The character loop on fields updated in place consumes the text as the specification says |
| TerminalNormalizers.TerminalNormalizer.ApplyCsi | shared/scripts/packwiz_parser.py:120-144 | The same for one CSI sequence |
| PackwizOutput.ChunksDoNotMatter | shared/scripts/packwiz_parser.py:160-175 | However a stream is cut into chunks (the last one final), the normalised lines are those of one feed |
| PackwizOutput.ChunkAdds | shared/scripts/packwiz_parser.py:160-192 | What a chunk adds to the normalised lines does not depend on the menus and prompts going on |
| PackwizEvents.ResultsExactlyWhen | shared/scripts/packwiz_parser.py:177-236 | Over every history of lines: results are reported if and only if a prompt is seen (on a completed line, or a changed unfinished one, that starts no search) with a menu that was not reported since it was forgotten last; they are the items read since then, the last one for each index. A menu is forgotten at a search, and at the first line after a report that is no prompt |
| PackwizEvents.ConfirmationExactlyWhen | shared/scripts/packwiz_parser.py:229-234 | Over every history: a confirmation is reported if and only if it is asked for (and no present menu is), unless it was the one reported last and neither a line that asks for nothing nor a search came since |
| PackwizEvents.EventsAre | shared/scripts/packwiz_parser.py:177-213 | Over every history: a sighting reports the search it starts with its provider, then at most one question, then, for a line that is no item, just one diagnostic or output according to its reading; an item reports nothing |
| PackwizEvents.StreamIsHistory | shared/scripts/packwiz_parser.py:160-175 | Every stream fed in chunks is such a history, which depends on the text and its cuts alone |
| Terminal.FeedTextSplits | shared/scripts/packwiz_parser.py:58-109 | Feeding two pieces of text one after the other is feeding them together |
| PackwizOutputParsers.PackwizOutputParser.Feed | shared/scripts/packwiz_parser.py:160-175 | The method on fields updated in place does what the specification says, events included |
| PackwizOutputParsers.PackwizOutputParser.ConsumeCompletedLine | shared/scripts/packwiz_parser.py:177-213 | The same for one line |
| PackwizOutputParsers.PackwizOutputParser.ConsumePromptLine | shared/scripts/packwiz_parser.py:215-236 | The same for a prompt |
| VersionRangeProofs.CompareIsFirstDifference | shared/scripts/dependency_equivalence.py:105-113 | The comparison is decided by the first part in which the versions differ, a missing part counting as zero |
| VersionRangeProofs.CompareIsTotalPreorder | shared/scripts/dependency_equivalence.py:105-113 | It is reflexive, antisymmetric under exchange, total and transitive |
| VersionRangeProofs.ZerosDoNotMatter | shared/scripts/dependency_equivalence.py:110-112 | Any number of trailing zero parts changes no comparison |
| VersionRangeProofs.AppendedZeroComparesAlike | shared/scripts/dependency_equivalence.py:98-113 | On the text: a version with ".0" appended compares alike with everything |
| VersionRangeProofs.EqualVersionsSatisfyAlike | shared/scripts/dependency_equivalence.py:116-165 | Versions that compare equal get the same answer, or the same refusal to answer, from every requirement |
| VersionRangeProofs.RequirementsAreConvex | shared/scripts/dependency_equivalence.py:116-165 | What satisfies a requirement is an interval of the order, for bracket ranges and predicate lists alike |
| VersionMembership.RangeIs | shared/scripts/dependency_equivalence.py:116-145 | A range with two bounds is undecided if and only if a bound that is looked at cannot be compared with; otherwise it holds if and only if the version is neither below the lower nor above the upper bound in the order of first differences, where a square bracket admits the bound, a round one does not, and an empty bound does not restrict |
| VersionMembership.SingleVersionIs | shared/scripts/dependency_equivalence.py:126-131 | One version in square brackets admits what is alike to it; with a round bracket there is no answer |
| VersionMembership.ListIs | shared/scripts/dependency_equivalence.py:145-165 | A list of clauses with blanks or commas between them holds if and only if each does, by its operator and the order of first differences; it fails if and only if the first one that does not hold can be compared with |
| VersionMembership.NotUnderstood | shared/scripts/dependency_equivalence.py:116-125 | A star admits everything; alternatives, carets, tildes and nothing at all have no answer |
| VersionMembership.PartsExactlyWhen | shared/scripts/dependency_equivalence.py:98-102 | A text has parts if and only if, stripped, it is numerals with dots between them, and these are its parts |
| VersionMembership.PartsRoundTrip | shared/scripts/dependency_equivalence.py:98-102 | Parts written with dots between them read back as themselves |
| RootSubstitution.ValidateResolutionRequest | shared/scripts/pack_migration_conflicts.py:166-353 | The four loops give what the specification says, the same error in the same order included |
| RootSubstitution.SortKeys | shared/scripts/pack_migration_conflicts.py:306-306 | The keys, strictly sorted, each once |
| RootSubstitutionProofs.AcceptedExactlyWhen | shared/scripts/pack_migration_conflicts.py:166-353 | A request is accepted if and only if it is bound to the plan, settles each unresolved root by exactly one allowed choice, the current identities are distinct, and no replacement names a root that is there when its turn comes |
| RootSubstitutionProofs.BoundExactlyWhen | shared/scripts/pack_migration_conflicts.py:172-214 | When a request is bound to its plan: state, locks, plan, source and unresolved roots as they were, no provenance to select and no version intent to change; and what is objected to first otherwise |
| RootSubstitutionProofs.WholeRequestIs | shared/scripts/pack_migration_conflicts.py:291-305 | With choices that are all allowed, the request is refused for a root without a choice if and only if there is one, and for ambiguous roots if and only if each has one and the current identities repeat |
| RootSubstitutionProofs.ObjectionsAre | shared/scripts/pack_migration_conflicts.py:216-250 | Which objection is made to an unresolved root or to an action, and when |
| RootSubstitutionProofs.CurrentAcceptedExactlyWhen | shared/scripts/pack_migration_conflicts.py:297-347 | With all unresolved identities among the current roots, the last condition is: replacements differ from each other, and each is new or names a root already taken out |
| RootSubstitutionProofs.CurrentRootsAreReplaced | shared/scripts/pack_migration_conflicts.py:297-353 | ... and then the effective roots are strictly sorted, their identities are (roots minus unresolved) plus all replacements, their number is that of the roots minus that of the removed, and every replacement recorded is among them |
| RootSubstitutionProofs.RemovedExactlyWhen | shared/scripts/pack_migration_conflicts.py:306-347 | The removed roots are exactly those that a choice of the request removes, each with the reason why it was unresolved |
| RootSubstitutionProofs.ReplacedExactlyWhen | shared/scripts/pack_migration_conflicts.py:306-347 | The replacements recorded are exactly those that the choices make: an explicit root with the provider and project of the choice, the side, path and filename of the old root, and no file, version or URL; both identities and whether the provider changed |
| RootSubstitutionProofs.EffectiveRootsAre | shared/scripts/pack_migration_conflicts.py:297-353 | Without that assumption: which identities are effective, strictly sorted, and every unresolved root is recorded as removed or replaced |
| RootSubstitutionProofs.ReplacementIsKeptIff | shared/scripts/pack_migration_conflicts.py:306-347 | A recorded replacement root is effective if and only if it, or another replacement by the very same root, is not taken out by a later choice |
| RootSubstitutionProofs.AReplacementCanBeLost | shared/scripts/pack_migration_conflicts.py:306-347 | A family of accepted requests whose replacement is dropped by a later choice: the unresolved identities are not among the current roots |
| RootSubstitutionProofs.OtherRootsAreUnchanged | shared/scripts/pack_migration_conflicts.py:307-353 | A root that no choice is about is effective as it was |
| RootSubstitutionProofs.ReplacementChecked | shared/scripts/pack_migration_conflicts.py:251-285 | The checks pass if and only if the provider is literally modrinth or curseforge, the project ID is stripped text without controls (a numeral without leading zero for CurseForge), and the identity differs |
| RootSubstitutionProofs.ChoicesSettleIff | shared/scripts/pack_migration_conflicts.py:230-295 | The loop over the choices succeeds and covers everything if and only if each unresolved root has exactly one allowed choice |
| RootSubstitutionProofs.UnresolvedCollectedIff | shared/scripts/pack_migration_conflicts.py:216-228 | The loop over the unresolved roots succeeds if and only if all are canonical and none repeats |
| RootSubstitutionProofs.RequestBindsItsPlan | shared/scripts/pack_migration_conflicts.py:90-141 | A created request is accepted by its plan; later only for the same plan and source, with unresolved roots of the same identities, reasons and support, and, if there are any, the same target and attempt |
| RootSubstitutionProofs.EmptyRequestBindsLess | shared/scripts/pack_migration_conflicts.py:90-114 | Without unresolved roots it is accepted under every other target and attempt |
| Providers.PositiveCanonical | shared/scripts/pack_migration_conflicts.py:274-278 | A digit string is the numeral of its positive value if and only if it does not start with a zero |
| Providers.CanonicalNames | shared/scripts/provider_identity.py:19-34 | The two provider names are their own canonical forms, and the third one is the only other |
| Providers.ProviderNames | shared/scripts/provider_identity.py:19-34 | Capitals and whitespace around a name do not matter, and a canonical name is itself |
| Providers.ShortNames | shared/scripts/provider_identity.py:19-34 | The short names of the two providers |
| Providers.IdentityExactlyWhen | shared/scripts/provider_identity.py:37-45 | When an identity is canonical, what it is, and which error it is otherwise |
| Newlines.FileSurvivesEditor | shared/scripts/content_operations.py:808-841 | Encoding what the editor shows gives the file back if and only if its policy is not mixed |
| Newlines.EditSurvivesReopening | shared/scripts/content_operations.py:825-841 | What was saved under any policy is shown again on reopening, under whatever policy is then detected |
| Newlines.EncodingIsIdempotent | shared/scripts/content_operations.py:831-841 | Encoding twice is encoding once; the policy detected afterwards is the one asked for, or none (lf or none for mixed and none) |
| Newlines.DetectionNamesTheOnlyKind | shared/scripts/content_operations.py:808-822 | crlf, lf or cr if and only if breaks of that kind, by position, are the only ones; none if and only if there is no break |
| Newlines.PlainPoliciesAreShownAsIs | shared/scripts/content_operations.py:825-841 | Under the other policies the editor shows the text as it is; just an unknown policy cannot be written |
| DependencyEquivalence.VerificationIsSymmetric | shared/scripts/dependency_equivalence.py:477-554 | Exchanging the candidates gives the same evidence (winner, kind and binding included), a rejection both times, or the same exception |
| DependencyEquivalence.ProvedExactlyWhen | shared/scripts/dependency_equivalence.py:484-521 | Evidence is given if and only if the providers differ, there is a winner, both metadata are readable, and a declared hash, an artifact or the identity of the MODs is shared |
| DependencyEquivalence.RaisedExactlyWhen | shared/scripts/dependency_equivalence.py:477-554 | An exception comes out if and only if there is no winner, or the hashes declared are readable and not shared and getting an artifact fails: the first, or the second if the first was not refused |
| DependencyEquivalence.IdentifiedExactlyWhen | shared/scripts/dependency_equivalence.py:209-218 | A candidate is known if and only if its identity, stripped and in small letters, is a provider, a colon and a project that is not blank, a number for CurseForge |
| DependencyEquivalence.NoWinnerBecause | shared/scripts/dependency_equivalence.py:447-474 | Which error it is when there is no winner |
| DependencyEquivalence.TargetLoaderIsPlain | shared/scripts/dependency_equivalence.py:176-178 | The loader that MODs must be for is compared in small letters and stripped |
| DependencyEquivalence.EvidenceIsSound | shared/scripts/dependency_equivalence.py:497-554 | The evidence names the pair in canonical order and the winner, its kind is that of what is shared, and its binding covers contents, context, kind, winner, roles and what is shared |
| DependencyEquivalence.WinnerPolicy | shared/scripts/dependency_equivalence.py:447-474 | There is a winner if and only if one side is a dependency and the other is not a new entry of unknown provenance; the loser is a dependency, and among two the existing one wins, then Modrinth, then the smaller identity |
| DependencyEquivalence.WinnerIsSymmetric | shared/scripts/dependency_equivalence.py:447-474 | Neither the error nor the winning identity depends on the order |
| DependencyEquivalence.SelectionIsSymmetric | shared/scripts/dependency_equivalence.py:557-560 | The public selection raises in both orders or in neither, and the same identity wins |
| DependencyEquivalence.CurseForgeFirst | shared/scripts/dependency_equivalence.py:492-493 | In canonical order the CurseForge candidate comes first |

## Left out

- ContentPublicationProofs.PublicationIsInterruptionSafe: excludes runs in which an apply is interrupted between the rename to `retained-original-content` and the assignment of its name, because there the property is false; UnsafeExactlyWhen gives both directions.
- ContentPublicationProofs.RaceRestored: the external tree must differ in digest from the result, because otherwise the property is false (RaceNeedsAnotherDigest).
- OverlayImportProofs.ImportPlanIsCarriedOut: the existing parents must be spelled as requested, the operations permitted and their modes within 0777, because otherwise the plan is refused; CarriedOutExactlyWhen gives both directions. That the paths of its operations are normal is assumed, as the planning normalises them before.
- OverlayBuild.AnalysisPredictsBuild: assumes valid entries (readable files, directories that can be listed and searched) and no `.gitkeep` or packwiz-owned names, which the copy skips or reports (EntryIs).
- PackMigrationPlans.PackMigrationPlan.PreparePublication: the validation of resolution and warnings is one point that may raise; what it checks is not modelled.
- PackMigrationProofs.FailedFinishKeepsDiagnostic: a recovery directory that is made, but whose making is then interrupted, is not modelled; it would be one more empty directory on disk.
- RootSubstitutionProofs.CurrentRootsAreReplaced: assumes that every unresolved identity is among the current roots; EffectiveRootsAre and ReplacementIsKeptIff say what holds otherwise.
- In a run of the publication, a rename of the Content transaction takes effect or raises; one that does both is modelled for the copy migration and for the atomic write, and here only as an exception at the point after it.
- Replacement of the project root or the transaction directory, and the identity checks against it; symbolic links, hard links and inode races in the reading loops.
- The marker files `.completed` and `.apply-failed`, and the texts of diagnostics and of `cleanup_error` (only whether there is one).
- Thread-start failure of a discard operation, and waiting on its thread.
- Collisions of random names, fsync, real clocks: a deadline or a cancellation is an exception at a point.
- Digests: modelled as the content they digest, so that SHA-256 is injective by assumption; JSON payloads are modelled as the tuples they encode.
- Portable path keys: a parameter that acts component by component. How a path is normalised, which comes before that, is a parameter too.
- Permissions: the process owns the files and is not privileged, so that only the owner bits count, and the umask leaves those alone; the roots of overlays, sides, builds and transactions can be opened and written; files in a transaction can be read.
- Limits on names: a file whose name is longer than 207 bytes cannot be written, because the temporary name adds 48 bytes (`shared/scripts/overlay_policy.py:528`).
- Setuid and setgid bits of a copied file, which the write that follows `fchmod` clears (`shared/scripts/overlay_policy.py:1302-1307`).
- Exceptions that come inside the few instructions between a system call and its Python caller, other than where a point is modelled.
- Destinations replaced during a copy, and the rescans of sources and overlays.
- Severity and message of a conflict record.
- The regular expressions of the parser: a parameter that maps a clean line to what it reads as. The menu signature is a map, not a sorted tuple.
- `str.isdecimal`, `str.lower`, `[0-9]` and `\d` on characters beyond ASCII, and the limit Python sets on the digits of an integer.
- UTF-8: texts are sequences of decoded characters.
- The resolver of a copy migration, acknowledgement of warnings, and the staging of the target's configuration: validation before publication may raise, and otherwise has succeeded.
- Reading JAR files, TOML and JSON: how the materialiser and the parser of a declared hash answer is a parameter; that they are deterministic is assumed.
- Loader requirements of artifacts play no part in `verify_equivalence` and are not modelled.
- Screens, command line, deployment and the other modules of the repository.
