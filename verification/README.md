# A verified model of the guarded remediation engine

The engine finds repeated failures in logs, repairs files, permissions and configuration under
guard, and records every step in a workflow store. This project models its transactional core in
Dafny and proves what the transactions promise.

* **File changes with an undo.** `FileTree` is the part of a file system below a fixed root: a
  finite map from paths (lists of segments) to directories and files with content and mode, in which
  every node sits in a directory; `Access` is the same tree as an owner without root rights sees it,
  through read, write and search bits, `Steps` runs lists of steps forwards and backwards, and
  `Manifests` writes the file a rollback starts from, mostly into the tree being repaired.
  `AgentFix`, `AgentFixApply` and `AgentFixRun` compare a staging copy with the target, apply the
  difference with backups in the same tree, and roll back. `ReadinessResolve` repairs permissions
  target by target and undoes its log, `ReadinessRollback` says which lists come back and puts
  manifest and probe around them. `Resources` creates the missing part of one path with a mode that
  may shut out its creator, `Permissions` plans mode repairs from one look at the tree, `SourceFile`
  and `Goravel` edit one handler in a source file, `JsonPath` and `ConfigRemediation` change one key
  of a JSON file, and `RollbackManifest` replays typed entries below a root that `Lexical` confines.
  `ConfigRemediation` moves the row of its plan through `Workflow` on the way.
* **The workflow store.** `Domain` holds the three transition relations. `Workflow` executes a move
  (status, audit event, outbox event) in one transaction and proves facts about every sequence of
  moves. `WorkflowTransactions` runs the statements of any number of transactions interleaved, with
  row and key locks under read-committed isolation; every statement computes what it writes when it
  runs, a commit installs that write set, and the result is refined to `Workflow`. `Leases` and
  `Outbox` are the lease and the outbox table.
* **Searches and readers.** `Signals` is the sliding-window failure detector, `CommandLine` the
  splitter of the agent's command line, `Versions` the version constraints.

Operations that update state are methods of the form the program has (loops over a `Disk`, a `Tx`, a
`LeaseTable`, an `OutboxTable`, a `Document`); each is proved equal to a function of the old state
or to an outright property, and the theorems are about that function. Hooks, probes, agents and
validations are parameters: arbitrary functions of the tree that say whether they succeeded and what
they left behind.

## What turned out to hold only under a condition

* Rolling back an agent's change fails exactly when a deleted file was replaced by a directory that
  received created files; applying fails exactly when a file is created where a directory stands.
* Undoing the permission repair of one target is exact if and only if no directory above the target
  was made silently and no touched path had bits above 0777. For lists whose directory modes give
  the owner all three bits, it is exact if and only if every silently made directory lies at or
  below a missing target listed before, whose own directory the owner can read, and no touched path
  had bits above 0777. A directory of mode 0300 can be made and filled, but not emptied by
  `os.RemoveAll`.
* The permission resolver leaves its manifest behind, below the application when no inventory
  directory is given. For targets elsewhere everything else is as it would be without one.
* A permission repair that is refused is not undone. It leaves the tree as it was if and only if
  every target before the failing one was there and was last given the mode it had, the failing one
  made no directory on the way and the parent it opened had mode 0711 before.
* The permission plan reaches a fixpoint exactly when no drifting line asks for mode 0000 and no
  line takes the search bit from a directory above another line.
* A rollback of a permission plan meets no error and is exact if and only if missing ancestors are
  listed above their paths, no changed path had bits above 0777, and no policy path was there but
  hidden behind a directory without its search bit: such a path is taken for a missing one and
  removed. For an apply that stopped the condition is enough, not necessary. On trees with a
  searchable root the first and the third hold for every framework but Laravel and Rails.
* Creating a resource works when the directory that is there can be edited and, beyond the first
  creation, the requested mode gives the owner its write and search bits. Creations that stop
  half-way are undone if and only if nothing was made, one creation was planned, the resource is a
  file, or the requested mode has the search bit: else the rollback cannot look for what is missing,
  stops, and the first directory stays. After a failed verification the rollback works exactly when
  the whole path can still be looked along and all that is now below the first created path can be
  removed.
* The manifest of a creation stays in the backup directory when its base name holds no `..` segment;
  a name like `../x` puts it into the application itself.
* Replaying a rollback manifest changes nothing outside its root unless the root and its parent are
  missing and a restore entry with safe paths is reached; then the directories above the root
  appear, and the replay fails.
* A legal move is stopped by the unique outbox key exactly when the same link of the same row was
  announced before. Remediation rows never meet this on the way to another status; investigations
  do, on the second round of `running` and `needs_more_data`.
* Approvals keep their decision for ever, but the name of the decider can be replaced.
* Fencing tokens rise by one with each grant only as long as nobody releases the lease.
* An event that was published and then reported as failed is claimed again.
* Splitting undoes quoting exactly for words that are not empty and hold no backslash.
* A failed source edit is undone exactly when the backup is another file than the source.
* A constraint list gives the same answer in every order if and only if it does not hold both a part
  that is false and a part that cannot be evaluated. `==` never can.
* A configuration run leaves the original bytes in every ending but three: done, done with a result
  that does not validate, and verified with a success the workflow refused to record. In the last
  the run reports an error and the patch stays.
* A configuration run that was started leaves its plan succeeded or failed, while no statement
  fails, unless the documents of a failed run do not validate: then the plan stays running.

## Model

| member | source | states |
|---|---|---|
| AgentFix.NewExcludeMatcher | internal/agentfix/agentfix.go:576-597 | the excluded names are the four fixed ones and every given value that trims to a single segment; the prefixes are exactly the values with a slash inside |
| AgentFix.SkipIsInherited | internal/agentfix/agentfix.go:599-615 | whatever is below an excluded path is excluded, backslashes and trimmed slashes included, so pruning the walk there loses nothing |
| AgentFix.SkipOrdinary | internal/agentfix/agentfix.go:599-615 | on names without slashes and backslashes: excluded iff a segment is an excluded name or the path lies at or below the segments of an excluded prefix |
| AgentFix.BackslashCounts | internal/agentfix/agentfix.go:599-615 | a backslash in a name separates it like a slash |
| AgentFix.Walk | internal/agentfix/agentfix.go:413-452 | the walk that does not enter excluded directories finds every non-excluded file below a directory and nothing else |
| AgentFix.SnapshotDir | internal/agentfix/agentfix.go:413-452 | a snapshot is exactly the contents of all regular files that are not excluded |
| AgentFix.DetectChanges | internal/agentfix/agentfix.go:382-411 | in whatever order the maps are walked: exactly one change for each differing path, of the right kind, sorted by path |
| AgentFix.NoDiffIffEqual | internal/agentfix/agentfix.go:382-411 | the difference is empty if and only if the snapshots are equal |
| AgentFixApply.ApplyChanges | internal/agentfix/agentfix.go:454-509 | changes are applied in order, stopping at the first failure; the manifest lists them all with their backups |
| AgentFixApply.Rollback | internal/agentfix/agentfix.go:211-240 | the manifest is undone from its last entry, stopping at the first failure |
| AgentFixApply.DeleteComesFirst | internal/agentfix/agentfix.go:409 | sorting by path deletes a file that gives way to a directory before anything is created below it |
| AgentFixApply.SaveWorks | internal/agentfix/agentfix.go:476-490 | taking a backup inside the tree that is being changed always works, and touches only the backup directory |
| AgentFixApply.UndoStep | internal/agentfix/agentfix.go:221-238 | one undo fails exactly when it must put a file back where a directory now is; otherwise it returns to the state before that change |
| AgentFixApply.ApplySynchronises | internal/agentfix/agentfix.go:454-509 | apply succeeds iff it creates no file where a directory is, also into a backup directory of the same second whose backups do not clash; then the snapshots agree, a second difference is empty, and files that are not compared are untouched |
| AgentFixApply.FailedApplyLeaves | internal/agentfix/agentfix.go:466-508 | an apply that fails has made exactly the changes before the first creation on a directory, with their backups, and written no manifest |
| AgentFixApply.ApplyKeepsModes | internal/agentfix/agentfix.go:466-560 | however far an apply gets, what stays keeps its mode, new files, also the backups, have mode 0644 and new directories 0755 |
| AgentFixApply.RollbackRestores | internal/agentfix/agentfix.go:211-240 | after an apply, rollback succeeds iff no deleted path lies above a created one; then every file outside the backup directory has its original content |
| AgentFixApply.FileReplacedByDirectory | internal/agentfix/agentfix.go:221-238 | a concrete apply that works and whose rollback fails |
| AgentFixRun.CopyComparesEqual | internal/agentfix/agentfix.go:511-542 | the staging copy is a well-formed tree with the target's snapshot, so a difference is only due to the agent |
| AgentFixRun.Run | internal/agentfix/agentfix.go:107-209 | the target changes only after agent, limit, validation and the apply option let it; what is applied is the exact difference the agent made |
| AgentFixRun.AppliedRunSynchronises | internal/agentfix/agentfix.go:177-208 | a run that applied has brought the agent's snapshot into the target when the validations left the compared files alone |
| CommandLine.SplitCommandLine | internal/agentfix/agentfix.go:617-663 | the loop computes the fold of the quoting automaton; only an open quote is an error |
| CommandLine.SplitUndoesQuoting | internal/readinessresolve/readinessresolve.go:1637-1639 | splitting the joined shell-quoted words returns them if and only if no word is empty or holds a backslash |
| CommandLine.WrittenWordsAreFound | internal/agentfix/agentfix.go:617-663 | words written with any mix of bare characters, backslashes and both quotes, with any gaps, are what is found; a backslash at the end stands for itself and an open quote of either kind is an error |
| CommandLine.OutputHalves | internal/agentfix/agentfix.go:617-663 | no finished argument is empty, and every backslash in the output costs two in the input |
| CommandLine.BuildAgentCommand | internal/agentfix/agentfix.go:260-285 | refused iff the command line has an open quote or no word; otherwise its words, then the model and the agent behind their flags when given, each with the paths put in, so that the number of arguments never depends on the paths |
| CommandLine.PlaceholdersReplaced | internal/agentfix/agentfix.go:278-283 | target, staging and prompt each replace the placeholder of their own name, whatever stands around it |
| CommandLine.PlainArgumentKept | internal/agentfix/agentfix.go:278-283 | an argument without a brace is passed on unchanged |
| ReadinessResolve.RepairLocalPermissions | internal/readinessresolve/readinessresolve.go:885-991 | the repair of one target and its log, including that a failure drops the log |
| ReadinessResolve.DirRepairWorks | internal/readinessresolve/readinessresolve.go:892-907 | a directory target is repaired iff it is a directory in sight, or the deepest directory above it can be edited and so can the new ones, if it takes more than one |
| ReadinessResolve.FileRepairWorks | internal/readinessresolve/readinessresolve.go:908-1029 | a file target is repaired iff its directory can be reached, and searched unless the target opens it, and there is a file, or one may be made: with access "write", or with "read" when the policy makes that directory one to write in |
| ReadinessResolve.FileRepairLeaves | internal/readinessresolve/readinessresolve.go:908-1007 | exactly the tree a repaired file target leaves: the file with its old content or none and the mode asked for, and its directory at 0711 unless it is the root or a target of the policy |
| ReadinessResolve.TargetsInPlace | internal/readinessresolve/readinessresolve.go:373-395 | after a repair that works every target is there, of its kind, with the mode last asked for its path |
| ReadinessResolve.RollbackPermissionChanges | internal/readinessresolve/readinessresolve.go:1140-1156 | every entry is undone from the last to the first even after an error |
| Access.StatSpec | internal/readinessresolve/readinessresolve.go:1031-1053 | a path is seen exactly when it exists and every directory above it can be searched |
| ReadinessResolve.DirUndone | internal/readinessresolve/readinessresolve.go:892-914 | undoing a repaired directory gives the tree back iff only that directory was made and no high mode bit was lost |
| ReadinessResolve.FileUndone | internal/readinessresolve/readinessresolve.go:915-991 | the same for a file and the parent opened for it, which is still reachable when its turn comes |
| ReadinessResolve.OneTargetUndone | internal/readinessresolve/readinessresolve.go:1158-1192 | undoing the log of one target restores the tree if and only if the target is faithful |
| ReadinessResolve.UndoRestoresAll | internal/readinessresolve/readinessresolve.go:1140-1192 | for any target list, with duplicates and shared parents, whose missing directories have a parent in time: the undo meets no error and restores existence, content and mode of every path |
| Access.OwnerBits | internal/readinessresolve/readinessresolve.go:692-702 | search, write and read are the three bits of the owner's octal digit |
| Access.SaveFileWorks | internal/runtime/permissions/permissions.go:572-574 | a file is written iff it is there in sight and may be written, or its directory can be edited; a file that is there keeps its mode |
| Access.RemoveTreeWorks | internal/readinessresolve/readinessresolve.go:1163-1167 | a recursive removal works iff the path can be looked at and all that is there can be opened and changed where it must be; a missing path is fine |
| Access.RemoveTreeSpec | internal/readinessresolve/readinessresolve.go:1163-1167 | a recursive removal that works takes exactly the path and everything below it; one that is refused on the way takes nothing from elsewhere, changes no node and leaves every node in a directory |
| ReadinessRollback.WhichListsAreUndone | internal/readinessresolve/readinessresolve.go:1140-1192 | for lists whose directory targets have modes the owner can read, write and search: the undo meets no error and restores the tree iff every silently made directory lies at or below a missing target listed before, made where the owner can read, and no touched path had bits above 0777 |
| ReadinessRollback.UnreadableDirectoryStays | internal/readinessresolve/readinessresolve.go:1158-1192 | a concrete list of two directories of mode 0300 whose repair works and whose undo meets an error and leaves the first |
| ReadinessResolve.SilentParentsStay | internal/readinessresolve/readinessresolve.go:897 | conversely, a restored tree means that everything the repair created lies at or below a logged creation |
| ReadinessRollback.ResolvePermissionDrift | internal/readinessresolve/readinessresolve.go:362-434 | a failed repair, and a manifest that cannot be written, end without rollback; a resolved run has every target in place; a failed probe rolls back and, for targets away from the manifest, leaves the tree as it was beside the manifest exactly for the lists named above |
| ReadinessResolve.WhenFailureIsHarmless | internal/readinessresolve/readinessresolve.go:885-959 | a failed repair of one target leaves the tree as it was iff it made no directory on the way and the parent it opened had mode 0711 |
| ReadinessResolve.RefusedRun | internal/readinessresolve/readinessresolve.go:372-395 | a refused list leaves the tree as it was iff all targets before the failing one were there, the last mode asked for each path is the one it had, and the failure is harmless |
| ReadinessResolve.FailedRepairLeavesParentOpen | internal/readinessresolve/readinessresolve.go:915-945 | a concrete repair that fails and leaves a parent with mode 0711 and an empty log |
| Resources.PlanCreations | internal/runtime/resources/resources.go:390-463 | refused iff the path cannot be looked along or the other kind is there; otherwise exactly the missing prefixes, shortest first |
| Resources.ApplyReaches | internal/runtime/resources/resources.go:507-524 | the first n creations work iff the directory that is there can be edited and, for n > 1, the requested mode lets the owner in; those that worked are exactly what is added, with the planned modes, and nothing that existed changes |
| Resources.SecondPlanEmpty | internal/runtime/resources/resources.go:390-463 | planning again after creations that worked finds nothing to create |
| Resources.Rollback | internal/runtime/resources/resources.go:201-243 | entries are removed from the last; the removed paths are reported in that order |
| Resources.RollbackSpec | internal/runtime/resources/resources.go:655-670 | on any tree the rollback works iff the whole path can be looked along, all that is at or below the first created path can be removed, and a created file is not a directory; it removes the first created path with all below it |
| Resources.RollbackRestores | internal/runtime/resources/resources.go:201-243 | whatever a verification wrote at or below the first created path: a rollback that works gives back the very tree the creations started from, and without such writing it always works |
| Resources.PartialRestores | internal/runtime/resources/resources.go:647-670 | creations that stop half-way are undone, to the tree they started from, iff nothing was made, one was planned, the resource is a file or the mode has the search bit; otherwise they all stay |
| Resources.HiddenDirectoryStays | internal/runtime/resources/resources.go:655-661 | a concrete creation of two directories of mode 0600 on a healthy tree whose rollback stops and leaves the first |
| Resources.NameInBackups | internal/runtime/resources/resources.go:472-476 | a base name without a ".." segment keeps the manifest in the backup directory |
| Resources.NameLeavesBackups | internal/runtime/resources/resources.go:476 | the base name "../x" puts the manifest into the application, where it shows unless it was there with the same text |
| Manifests.ManifestLoads | internal/runtime/resources/resources.go:201-204 | what was written can be read back unless it went into an old file that its owner cannot read |
| Resources.Ensure | internal/runtime/resources/resources.go:114-199 | refused runs change nothing; for a resource away from the manifest a failed creation is rolled back exactly under the condition above, and a failed verification exactly when the tree it left lets it; a run that is rolled back ends in the original tree beside the manifest; success leaves the resource with the kind, mode and content asked for when the verification spares it |
| Permissions.InspectPolicy | internal/runtime/permissions/permissions.go:392-464 | blocked iff some directory path is seen as a file; otherwise one operation for exactly the lines that are not seen or drift, in order; a path that cannot be looked at counts as missing |
| Permissions.NothingFound | internal/runtime/permissions/permissions.go:392-464 | nothing blocks and nothing is found iff every line is met: in sight, of its kind and mode, and a directory the probe can write in where it is to be writable |
| Permissions.ApplyOperations | internal/runtime/permissions/permissions.go:578-605 | operations planned from one snapshot are applied in order up to the first failure |
| Permissions.RollbackPermissions | internal/runtime/permissions/permissions.go:607-622 | every entry is undone from the last even after an error |
| Permissions.PlanReachesFixpoint | internal/runtime/permissions/permissions.go:392-464 | after a successful apply every path exists and none blocks, and a second look plans nothing iff no drifting line asks for mode 0000 and no line shuts a directory above another |
| Permissions.RollbackIsInverse | internal/runtime/permissions/permissions.go:541-622 | rollback after a successful apply meets no error and restores the tree iff missing ancestors are listed above their paths, no changed path had high mode bits, and no policy path was hidden |
| Permissions.RollbackAlwaysRestores | internal/runtime/permissions/permissions.go:198-201 | under that condition the rollback restores the tree also when the apply stopped half-way |
| Permissions.WhichPoliciesRollBack | internal/runtime/permissions/permissions.go:278-374 | apart from high mode bits the condition holds on every tree with a searchable root exactly for the frameworks other than Laravel and Rails |
| Permissions.PoliciesFit | internal/runtime/permissions/permissions.go:301-374 | every policy asks only for directories to write in with mode 0775, below the root and outside the state directory, each path once |
| Permissions.HiddenDirectoryLost | internal/runtime/permissions/permissions.go:507-510 | two Laravel lines on a tree whose storage has no search bit: the apply works and the rollback removes the directory that was there |
| Permissions.SamePlan | internal/runtime/permissions/permissions.go:541-576 | writing the manifest below the state directory changes neither plan nor manifest |
| Permissions.Run | internal/runtime/permissions/permissions.go:149-224 | success, and a run with nothing to do, mean that every line is met; every failure after the manifest runs the rollback and, under that condition, ends in the original tree outside the state directory |
| Lexical.ReduceShape | internal/remediation/rollbackmanifest/rollbackmanifest.go:172 | a cleaned relative path is some ".." followed by normal segments; a rooted one has no ".." |
| Lexical.EscapesIff | internal/remediation/rollbackmanifest/rollbackmanifest.go:173 | the textual test for an escape is true exactly when the cleaned path starts with ".." |
| Lexical.ResolveSafeSpec | internal/remediation/rollbackmanifest/rollbackmanifest.go:165-185 | accepted iff relative, not blank, and neither "." nor escaping once cleaned; the target is strictly below the root, its path back is the cleaned input, so the second check never fires |
| Lexical.JoinInsideSpec | internal/readinessresolve/readinessresolve.go:746-766 | accepted iff relative and ending at or below the root; everything resolveSafe accepts is accepted with the same target |
| Lexical.LeavingAndReturning | internal/readinessresolve/readinessresolve.go:746-766 | a path that leaves the root and comes back passes this check and not the other |
| Lexical.ResolveRequestedSpec | internal/runtime/resources/resources.go:290-316 | a request is accepted iff it is not blank, has no ".." segment and names a path strictly below the root; the answer is the rest of that path without empty and "." segments |
| RollbackManifest.EntryConfined | internal/remediation/rollbackmanifest/rollbackmanifest.go:113-142 | on any tree an entry, whether it succeeds or fails, changes nothing that is there outside the root; something appears there iff the root and its parent are missing and the entry is a restore with safe paths; without the root only a removal works, and does nothing |
| RollbackManifest.ReplayStaysInside | internal/remediation/rollbackmanifest/rollbackmanifest.go:77-111 | no manifest, however written, changes what is there outside the root; the outside is the same iff the root or its parent is there, a file is in the way, or no restore entry with safe paths is reached, and otherwise the replay fails and only the directories above the root are added |
| RollbackManifest.MissingRootIsMade | internal/remediation/rollbackmanifest/rollbackmanifest.go:91-97 | a concrete manifest whose missing root /x/y leaves /x behind |
| RollbackManifest.ModeReadBack | internal/remediation/rollbackmanifest/rollbackmanifest.go:187-197 | a mode written in octal is read back, with a leading zero or, unless it is 0, without |
| RollbackManifest.RemovalLeaves | internal/remediation/rollbackmanifest/rollbackmanifest.go:130-131 | a removal works iff no file stands above its target, and leaves nothing at or below it and everything else |
| RollbackManifest.ChmodLeaves | internal/remediation/rollbackmanifest/rollbackmanifest.go:132-137 | a change of mode works iff the target is there and the mode can be read; nothing but the permission bits changes |
| RollbackManifest.RestoreLeaves | internal/remediation/rollbackmanifest/rollbackmanifest.go:144-163 | a restore that works leaves the content of the backup at the target, with the mode given, else the old one, else 0600, and adds at most directories above it |
| RollbackManifest.RestoreWorks | internal/remediation/rollbackmanifest/rollbackmanifest.go:115-129 | a restore works iff the backup is a file, no directory is at the target, no file above it, and the mode, if given, can be read |
| RollbackManifest.ReplayUndoes | internal/remediation/rollbackmanifest/rollbackmanifest.go:99-109 | a replay that works, of entries whose targets do not lie at or above other targets or backups: created paths are gone, files have their backups' content and their modes, and nothing else changed but for directories leading to restored files |
| RollbackManifest.Execute | internal/remediation/rollbackmanifest/rollbackmanifest.go:77-111 | entries run from the last; the executed steps are exactly the entries before the first refused or failed one |
| SourceFile.ReplaceFirstAt | internal/remediation/sourcefile.go:78 | replacing one occurrence changes the first one and keeps what is before and after it |
| SourceFile.ApplySourceEdit | internal/remediation/sourcefile.go:36-105 | nothing happens unless the text is there; otherwise backup, write, restart and verify in order, with a copy back after the first that fails |
| SourceFile.EndingsOfEdit | internal/remediation/sourcefile.go:83-104 | flags and tree of every ending, in terms of what restart and verification return |
| SourceFile.WrittenWorks | internal/remediation/sourcefile.go:70-81 | backup and write work iff no file is above the backup and no directory at it |
| SourceFile.CopyBackWorks | internal/remediation/sourcefile.go:107-129 | the copy back works iff the backup is still a file and nothing is in the way of the source |
| SourceFile.BackupPlaces | internal/remediation/sourcefile.go:66-73 | the backup goes under its own name into the directory given, or into one of this run next to the file |
| SourceFile.WrittenSpec | internal/remediation/sourcefile.go:70-86 | after the write only the file and its backup differ, and the backup holds the original text |
| SourceFile.FailedRestartRestores | internal/remediation/sourcefile.go:88-94 | after a failed restart and a successful copy back the file has its original text iff the backup is another file |
| SourceFile.FailedVerifyRestores | internal/remediation/sourcefile.go:96-102 | the same for a failed verification |
| SourceFile.DefaultBackupElsewhere | internal/remediation/sourcefile.go:70-77 | the default backup path is never the source itself |
| Goravel.ExtractGoMethod | internal/frameworks/goravel/goravel.go:455-480 | the shortest block after the head whose braces balance; everything to the end when they never do |
| Goravel.HandlerIsFirstOccurrence | internal/frameworks/goravel/goravel.go:455-480 | by leftmost matching the handler's text occurs nowhere before its own position |
| Goravel.AnalyzePanicPatchSafety | internal/frameworks/goravel/goravel.go:402-431 | safe iff exactly one line holds a panic |
| Goravel.SameLines | internal/frameworks/goravel/goravel.go:809 | cutting with and without the newline gives the same lines, so both functions see the same panics |
| Goravel.PatchLines | internal/frameworks/goravel/goravel.go:810-825 | the loop drops panic lines and the blank line right after one |
| Goravel.HandlerScopedPanicSourceEdit | internal/frameworks/goravel/goravel.go:795-834 | an edit is offered iff the handler is safe to patch |
| Goravel.PanicLineRemoved | internal/frameworks/goravel/goravel.go:809-833 | the new handler is the old lines without the one panic line and at most one blank line after it, and has no panic line when cut again |
| Goravel.EditLandsOnHandler | internal/frameworks/goravel/goravel.go:182-204 | replacing the first occurrence rewrites the mapped handler and leaves the text before and after it intact |
| JsonPath.KeysOfPath | internal/runtime/v2/config_remediation.go:349-352 | a path is cut at its dots and its segments are trimmed |
| JsonPath.GetJSONString | internal/runtime/v2/config_remediation.go:348-369 | a read finds the non-empty string at the end of the trimmed path, and nothing else |
| JsonPath.Document.SetJSONString | internal/runtime/v2/config_remediation.go:371-393 | succeeds iff the trimmed path walks objects to an existing string, and then replaces only that value |
| JsonPath.GetAfterSet | internal/runtime/v2/config_remediation.go:348-393 | after a set the path reads the replacement, or nothing when it is empty |
| JsonPath.SetChangesOneRead | internal/runtime/v2/config_remediation.go:371-393 | every other path reads as before, prefixes and extensions included |
| JsonPath.SetElsewhere | internal/runtime/v2/config_remediation.go:371-393 | every path that is not the set one or a prefix of it leads to the same value as before |
| JsonPath.SetTwice | internal/runtime/v2/config_remediation.go:371-393 | two sets equal the last one, and setting the present value changes nothing |
| JsonPath.ReadableCanBeSet | internal/runtime/v2/config_remediation.go:130-132 | preparing the patch cannot fail once the value has been read |
| ConfigRemediation.Run | internal/runtime/v2/config_remediation.go:94-200 | the order of record, backup, patch, hook, probe, restore and record, and how each failure ends in the file and in the workflow tables |
| ConfigRemediation.HowRunsEnd | internal/runtime/v2/config_remediation.go:94-196 | which ending a run has, from the file, the key path, the validations, the hook and the probe; a hook that fails decides alone |
| ConfigRemediation.MovesAreRecorded | internal/runtime/v2/config_remediation.go:301-330 | the tables show an initial part of Approved, Running, then Succeeded or Failed for the plan's row and nothing for any other; the row has the last status; Succeeded iff the run was recorded as one; a run whose start was refused has changed neither file nor tables |
| ConfigRemediation.LinksAreSigned | internal/runtime/v2/config_remediation.go:301-325 | the audit events of a run are the links of its trail, for the row of the plan, in the name of its actor or else of the engine |
| ConfigRemediation.StartedRunEnds | internal/runtime/v2/config_remediation.go:127-183 | in every store that moves have built: a run starts iff its plan is approved, and leaves it succeeded or failed unless the failure documents do not validate |
| ConfigRemediation.RunIsATransaction | internal/runtime/v2/config_remediation.go:94-200 | when the verification passed the file stores the original document with only the key path changed, also when the success could not be recorded; every other ending leaves the original bytes |
| ConfigRemediation.RolledBackMeansOriginal | internal/runtime/v2/config_remediation.go:413-419 | a run reported as rolled back has the original bytes whatever hook and probe did to the file |
| Domain.RemediationRises | internal/domain/workflow.go:49-82 | every remediation move to another status raises a rank between 0 and 7 |
| Domain.RemediationComesFrom | internal/domain/workflow.go:49-82 | from which statuses each remediation status is entered |
| Domain.InvestigationComesFrom | internal/domain/workflow.go:9-40 | the same for investigations |
| Domain.ApprovalComesFrom | internal/domain/workflow.go:91-99 | approvals are decided, or expire, from pending only |
| Domain.ApprovalComesFirst | internal/domain/workflow.go:49-82 | a trail from awaiting_approval to running passes approved |
| Domain.SevenMovesAtMost | internal/domain/workflow.go:49-82 | a remediation never comes back to a status and changes at most seven times; seven is reached |
| Domain.WhereRemediationEnds | internal/domain/workflow.go:49-82 | exactly which remediation statuses can never be left |
| Domain.InvestigationRises | internal/domain/workflow.go:9-40 | the only cycle of investigations is between running and needs_more_data |
| Workflow.Tx.UpdateStatus | internal/store/postgres/postgres.go:779-800 | compare and set: exactly one row, of the right tenant and in the expected status, changes, and its lock version grows by one |
| Workflow.Tx.AppendTransitionEvents | internal/workflow/service.go:193-246 | one audit event, and one outbox event unless suppressed; fails iff a statement fails or the key is taken |
| Workflow.Perform | internal/workflow/service.go:89-182 | the whole move is committed, or nothing of status, audit and outbox changes |
| Workflow.SucceedsWhen | internal/workflow/service.go:89-182 | a move goes through iff tenant and id are given, the row is of a kind the service serves, the link is one of that kind's relation, an approval has a decider, the row is there with tenant and status as expected, and the link is not announced yet |
| Workflow.InvestigationTable | db/migrations/postgres/0001_workflow_store.sql:127-147 | the investigation tables hold exactly the statuses that some move leads from or to |
| Workflow.RemediationTable | db/migrations/postgres/0001_workflow_store.sql:228-300 | the same for plans and attempts |
| Workflow.KeyTextInjective | internal/workflow/service.go:248-250 | equal idempotency keys of one tenant mean the same row and the same link, whatever characters the identifier holds |
| Workflow.RecordedBy | internal/workflow/service.go:169-215 | in every run each audit event was recorded by an attempted move with its tenant, row and link, in the name of its actor or of who decided |
| Workflow.NoRunWithoutApproval | internal/domain/workflow.go:49-82 | in every run a plan or attempt that waited for approval starts running only after an event that approved it |
| Workflow.AuditReplays | internal/workflow/service.go:193-215 | in every run the audit events of a row lead from its creation status to its current status by allowed links, and the lock version counts them |
| Workflow.EachStatusLeftOnce | internal/workflow/service.go:120-149 | in every run each status of a remediation row is left, and entered, by at most one status-changing move; at most seven commit |
| Workflow.BlockedExactlyWhenAnnounced | db/migrations/postgres/0001_workflow_store.sql:424-442 | a legal unsuppressed move of a matching row fails iff the same link of the row is already in the outbox |
| Workflow.RemediationNeverBlocked | internal/workflow/service.go:120-149 | a legal remediation move to another status of a matching row always commits |
| Workflow.AnnouncedOnlyOnce | internal/workflow/service.go:216-245 | a move once announced can never be announced again |
| Workflow.InvestigationStuck | internal/domain/workflow.go:26-36 | a concrete run whose investigation cannot report a second need for data |
| Workflow.DecisionIsFinal | internal/domain/workflow.go:91-99 | a decided approval keeps its status for ever |
| Workflow.DeciderOverwritten | internal/store/postgres/postgres.go:429-442 | the same decision by another actor always goes through and replaces the decider |
| WorkflowTransactions.NextKeepsLocks | internal/store/postgres/postgres.go:27-47 | what a transaction has checked stays true under its locks, and what it wrote stays what it would write now, until it ends, whatever the others do |
| WorkflowTransactions.StepRefines | internal/store/postgres/postgres.go:27-47 | installing what the statements wrote when they ran is the whole move on the tables of the commit, and cannot fail; no other step of a transaction is visible |
| WorkflowTransactions.RunsAreSerial | internal/store/postgres/postgres.go:27-47 | every interleaving leaves the tables of the moves executed one at a time in commit order |
| WorkflowTransactions.OthersDoNotDelay | internal/store/postgres/postgres.go:27-47 | in every reachable state a transaction for whose row nobody holds the lock can run to its end at once, whatever the others are at: it commits the move if the row is as expected and the link not announced, else changes nothing |
| WorkflowTransactions.OutboxNeverWaits | db/migrations/postgres/0001_workflow_store.sql:424-442 | the insert into the outbox never waits for another transaction, since who holds the same key would hold the same row |
| WorkflowTransactions.InterleavingsAreAudited | internal/workflow/service.go:89-246 | in every interleaving the audit of a row replays to its status, the lock version counts it, and each status of a remediation row is left and entered at most once, with at most seven changes |
| WorkflowTransactions.InterleavingsNeedApproval | internal/workflow/service.go:120-149 | in every interleaving a plan or attempt that waited for approval starts running only after an event that approved it |
| WorkflowTransactions.InterleavingsAnnounceOnce | db/migrations/postgres/0001_workflow_store.sql:424-442 | in every interleaving each announcement in the outbox has its audit event, and no two of a tenant have the same key |
| WorkflowTransactions.WinnerCommits | internal/workflow/service.go:120-149 | a remediation transaction that changed its row's status never meets a taken outbox key |
| WorkflowTransactions.LoserConflicts | internal/store/postgres/postgres.go:791-800 | once one mover has left a remediation status, a rival that expects it never finds its row again |
| Leases.LeaseTable.Acquire | internal/store/postgres/postgres.go:586-606 | a free resource is granted with token 1, an expired or own one with the next token, any other is refused |
| Leases.LeaseTable.Renew | internal/store/postgres/postgres.go:608-622 | only the current, unexpired lease is extended, to now plus the duration, and its token stays |
| Leases.LeaseTable.Release | internal/store/postgres/postgres.go:624-637 | only the current lease is removed |
| Leases.PromisesAreKept | internal/store/postgres/postgres.go:592-622 | after an acquire or a renewal that works, with no release and no later grant or renewal of the holder, another owner gets the resource iff it asks at or after the expiry asked for, which is now plus the duration for a renewal |
| Leases.TokensRise | internal/store/postgres/postgres.go:586-606 | in every run, tokens of grants with no release between them rise by one with each grant |
| Leases.SupersededIsPowerless | internal/store/postgres/postgres.go:608-637 | with no release in between, a superseded lease can neither renew nor release, ever |
| Leases.OtherOwnersWait | internal/store/postgres/postgres.go:592-598 | a grant to another owner comes after a release or after the last expiry the holder was told |
| Leases.WorkingLease | internal/store/postgres/postgres.go:608-637 | a lease value never works while the row is another owner's, and after a later grant only across a release |
| Leases.TokenReused | internal/store/postgres/postgres.go:624-627 | a concrete run in which a released lease value renews the lease granted after it |
| Leases.OwnerShortens | internal/store/postgres/postgres.go:592-598 | a holder that acquires again can lose the resource before the expiry first promised |
| Outbox.OutboxTable.ClaimDue | internal/store/postgres/postgres.go:674-714 | takes unlocked pending or failed events of the tenant whose next attempt is due, all of them when there are fewer than the limit, none while an earlier one is left, and changes only those |
| Outbox.OutboxTable.MarkFailed | internal/store/postgres/postgres.go:728-738 | any event of the tenant becomes failed and due again, whatever its status |
| Outbox.OutboxTable.MarkPublished | internal/store/postgres/postgres.go:716-726 | any event of the tenant becomes published, whatever its status |
| Outbox.FailedEventsWait | internal/store/postgres/postgres.go:684-738 | in every run a failed event is not claimed before the time given for its next attempt |
| Outbox.ClaimsAreOwn | internal/store/postgres/postgres.go:684 | in every run an event is only claimed for the tenant it was appended for |
| Outbox.ClaimsAreSeparated | internal/store/postgres/postgres.go:674-738 | in every run, between two claims of one event it was marked failed |
| Outbox.PublishedStays | internal/store/postgres/postgres.go:674-738 | a published event is claimed again only after somebody marked it failed |
| Outbox.AttemptsCountClaims | internal/store/postgres/postgres.go:674-680 | in every run the attempt count is the initial one plus the number of claims |
| Outbox.PublishedTwice | internal/store/postgres/postgres.go:716-738 | a concrete run in which a published event is claimed again |
| Signals.SameGroup | internal/engine/signals.go:270-272 | without a bar in the methods, a group is one method, route and status class |
| Signals.CaseIgnored | internal/engine/signals.go:237 | methods are compared without regard to the case of letters |
| Signals.RunIsWindow | internal/engine/signals.go:252-268 | in order of time the collected run is exactly the entries within the window, apart from earlier ones of the same instant |
| Signals.CollectWindow | internal/engine/signals.go:252-268 | the run ends at the first entry too late; an unknown first time takes everything |
| Signals.DetectGroup | internal/frameworks/goravel/goravel.go:279-313 | a group is reported iff some window of any start holds enough entries; the report is the earliest such window, its exact count and its last entry; with unknown times the engine takes the whole group |
| Signals.RepeatedHTTPFailures | internal/engine/signals.go:170-250 | an endpoint is reported iff its requests with status 400 or more that fit the threshold are as many as needed within a window, or in all when a time is unknown; a signal begins and ends with such requests and counts exactly those of its window; the largest count first |
| Signals.ThreeInFiveMinutes | internal/engine/signals.go:171-176 | without a minimum and a window given, three such requests within five minutes are enough |
| Signals.TwoAreNotEnough | internal/engine/signals.go:171-173 | and two are not |
| Versions.Compare | internal/runtime/versions/versions.go:295-304 | the difference of components in the int range stays in the int range |
| Versions.CompareIsTotalOrder | internal/runtime/versions/versions.go:295-304 | comparing is a total order whose equality is equality of versions |
| Versions.ParseVersion | internal/runtime/versions/versions.go:250-284 | the loop reads up to three numbers and stops at the first field without one |
| Versions.SpellingsOfVersion | internal/runtime/versions/versions.go:250-293 | dots, hyphens, underscores and spaces may stand between the numbers, a "v" in front and anything but a digit behind |
| Versions.OneNumberVersion | internal/runtime/versions/versions.go:268-283 | missing numbers are 0, and a number beyond 64 bits is refused |
| Versions.ParseUndoesShow | internal/runtime/versions/versions.go:250-284 | reading a printed version gives it back |
| Versions.Satisfies | internal/runtime/versions/versions.go:182-195 | the first part that fails or is false decides, blank parts are skipped |
| Versions.ListIsConjunction | internal/runtime/versions/versions.go:182-195 | a list is satisfied iff every part is |
| Versions.OrderDoesNotMatter | internal/runtime/versions/versions.go:182-195 | lists with the same parts, repeated or not, agree unless they hold both a false part and one that cannot be evaluated |
| Versions.WhenOrderMatters | internal/runtime/versions/versions.go:182-195 | all orders of a list agree iff it does not hold both a part that is false and a part that cannot be evaluated |
| Versions.OperatorsMean | internal/runtime/versions/versions.go:197-246 | what each of the five operators, and none, asks of the observed version, in terms of major, minor and patch |
| Versions.CaretIsARange | internal/runtime/versions/versions.go:206-217 | a caret accepts exactly the versions from its base up to the next major version |
| Versions.DoubleEqualIsAnError | internal/runtime/versions/versions.go:197-204 | a constraint that starts with "==" is always an error |

## Left out

* Symbolic links, non-regular files, the umask (modes are granted as asked for), owners and groups,
  real write probes, hard links, and input or output errors in the middle of a file operation; a
  tree operation fails only for the reasons its function states.
* Mode bits above 0777 as anything but numbers that a rollback loses.
* Encoding of manifests and documents: a manifest is opaque text, a JSON document is what its
  decoder returns, and decoding an encoded document is taken to give it back.
* File hashes: content stands for its own hash.
* AgentFixApply.RollbackRestores: speaks of file contents; restored deleted files get mode 0644, and
  directories made for created files stay.
* AgentFixApply.ApplySynchronises: a backup directory of the same second that holds a file where the
  target has a directory, or the reverse, is excluded; so is a file at the place of that directory.
* AgentFixRun.Run: an agent that writes into the target directory itself, the process that runs it,
  and the two kinds of validation command are one function each.
* The docker branch, the owner and group change and the policy files of `resolvePermissionDrift`,
  with its restart, which needs a container; `joinInsideApp` without its symbolic link check; the
  content of that resolver's manifest, and of one outside the application anything but whether it
  was written. A target whose mode or path cannot be read fails like one of another kind.
* ReadinessRollback.WhichListsAreUndone: lists with directory modes that take one of the owner's
  bits are covered by UndoRestoresAll in one direction and SilentParentsStay in the other.
* `requireAllowlisted` as path arithmetic: the allowlist is a list of resolved paths. The HTTP and
  command verifications are functions of the tree.
* ReadinessRollback.ResolvePermissionDrift: what becomes of targets below the first segment of the
  manifest's own path.
* Resources.Ensure: the rollback reads the manifest back; one that was removed or cannot be read
  ends it with an error, but a verification that rewrites it with other entries is not modelled. A
  resource below the first segment of the manifest's path has only the ending and the tree stated.
  The states recorded before and after a run are left out.
* Access: the process owns every node and is not root, so only the owner's bits count. The agent's
  changes, source edits, configuration runs and manifest replays are modelled without any bits.
* Permissions.Run: the framework is chosen beforehand; the write probe is a function that leaves
  nothing behind.
* Lexical: Unix path rules only.
* RollbackManifest.Execute: reading the manifest file, its version and its root come before it.
* Goravel: the handler's regular expression is an arbitrary set of texts matched without context;
  the shortened excerpt that is used when no brace follows is an arbitrary function. Route
  discovery, log parsing and contract building are not modelled.
* JsonPath.Document.SetJSONString: documents are values; nested Go maps are replaced on the way down
  instead of being updated through a shared reference.
* ConfigRemediation.Run: log reading, the evidence check, the outcome of the three validations and
  the HTTP probe come as parameters or before it; a write error that truncates the file, and other
  writers of the same row between the two moves of a run, are not modelled.
* Workflow.Perform: timestamps, messages, correlation identifiers and payloads; identifiers of
  events are fresh by assumption. Rows are never deleted and outbox rows keep their keys.
* WorkflowTransactions: deadlock detection and statement timeouts are aborts.
* Leases and Outbox: statements are atomic; clocks are parameters without any order between them.
* Signals: timestamps before the zero time, case folding beyond ASCII, the excerpts and tags of a
  signal, and the choice among entries of one instant, which the sort leaves open.
* Versions.ParseVersion: digits outside ASCII (`unicode.IsDigit`); `Diagnose` and its recommendations.
* HTTP probes, shell and docker execution, the external agent, SQL text, contract builders and their
  validation, redaction, issue detection, the environment variable writer, the labs and the
  commands.
