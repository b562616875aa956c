# gitlet engine in Dafny

gitlet is a small version-control system modelled on git. This project models its engine: the repository kept under `.gitlet`, and the commands that change it.

The repository is one immutable value, `Repository.Repo`, made of:
- the commit store, from id to commit record;
- the blob store, from id to bytes;
- the branch table, from name to commit id;
- the current branch name and the HEAD id;
- the staging area: additions, a `modified` map that no command fills, and removals.

Each command is a pure function, or a method where an iteration order matters. It returns either the new repository or the error message it stops on. On an error the state is unchanged.

The source prints its messages and returns. It never leaves a half-done state, with two exceptions recorded under "Left out": `checkout` of a branch, and `merge` when no split point exists, where the source fails with an exception instead.

Modules:
- `Wrappers`: `Option` and `Result`.
- `Objects`: ids, byte strings, file trees (path to blob id), and the digest. The digest is a parameter `hash` over the serialized object. It is assumed collision-free (`Injective(hash)`) only where a lemma says so.
- `Commits`: the commit record. `Construct` is the constructor as written; `Make` is the record the `commit` command's documentation asks for, with an id that covers the file references.
- `Staging`: the staging area and the snapshot builder.
- `History`: ancestry over parent links, the worklist walk, and the split-point search.
- `ThreeWay`: the per-file merge rules, the conflict-file layout and `concat`, and the merge of three trees.
- `Repository`: `init`, `add`, `rm`, `commit`, `branch`, `rmbranch`, `checkout` of a branch and of one file by abbreviated commit id, `reset` and `find`.
- `Merge`: the `merge` command.

Where the source misbehaves, both versions are in the model. The version as written carries the suffix `AsWritten` and a lemma exhibiting the bug. The corrected version is the one the other commands use (see "Findings").

Inputs that come from outside the repository value are parameters:
- the working directory's file content, `None` when the file is absent;
- the set of working-file names;
- the commit directory's listing order;
- the clock reading.

## Model

| member | source | states |
|---|---|---|
| Commits.StampFor | gitlet/Commit.java:46-50 | a null first parent (the root) gets the fixed stamp "Thu Jan 1 00:00:00 1970 -0800"; any other commit gets the clock's reading |
| Commits.Construct | gitlet/Commit.java:37-55 | the parent list is exactly `[parent]`, so the root's first parent is null; message and tree are stored unchanged; timestamp follows the root rule |
| Commits.ConstructIdIgnoresTree | gitlet/Commit.java:51-54 | the constructor's id does not depend on the tree: equal message, clock and parent give equal ids for any two trees |
| Commits.Make | gitlet/Repository.java:242-245 | the corrected record: its id is the digest of message, timestamp, parents and file references together |
| Commits.MakeIdCoversTree | gitlet/Repository.java:242-245 | with a collision-free digest, two records that differ only in tree have equal ids exactly when the trees are equal |
| Commits.RootIdIgnoresClock | gitlet/Repository.java:109-134 | every root commit with the same message and tree is the same record, whatever the clock says, so all repositories share it |
| Staging.Fresh | gitlet/StagingArea.java:22-26 | a new staging area has all three maps empty |
| Staging.Clear | gitlet/StagingArea.java:61-65 | after `clear` all three maps are empty, whatever was staged |
| Staging.AddTracked | gitlet/StagingArea.java:35-37 | `addTracked(f, u)` maps f to u, keeps every other addition, and leaves the other two maps unchanged |
| Staging.AddModified | gitlet/StagingArea.java:45-47 | `addModified(f, u)` maps f to u, keeps every other entry, and leaves the other two maps unchanged |
| Staging.AddUntracked | gitlet/StagingArea.java:55-57 | `addUntracked(f, u)` maps f to u, keeps every other removal, and leaves the other two maps unchanged |
| Staging.Snapshot | gitlet/Repository.java:266-279 | a path is in the new tree iff it is in the parent's tree or staged for addition, and not staged for removal; its blob is the staged one if staged, else the parent's |
| Staging.SnapshotOfNothing | gitlet/Repository.java:266-279 | with nothing staged the new tree is the parent's tree |
| Staging.StageFor | gitlet/Repository.java:1221-1248 | the staging that turns tree c into tree m: changed or new paths staged for addition with m's blob, dropped paths staged for removal, never both |
| Staging.SnapshotOfStageFor | gitlet/Repository.java:1221-1248 | committing that staging on top of c yields exactly m |
| History.WalkSound | gitlet/Repository.java:1262-1307 | whatever the worklist walk finds or visits is an ancestor of its start, and a hit lies in the target set |
| History.WalkComplete | gitlet/Repository.java:1262-1293 | an exhausted walk has visited a parent-closed set that holds every stored start id and none of the target |
| History.AncestorsExact | gitlet/Repository.java:1262-1293 | the collected set is exactly the stored ancestors of the current tip |
| History.SplitPointCommon | gitlet/Repository.java:1291-1307 | the split point is a common ancestor of both tips, and the search fails only when the tips have no common ancestor |
| History.SplitPointOfAncestor | gitlet/Repository.java:1291-1316 | if the given tip is an ancestor of the current tip, the search returns the given tip itself |
| History.WalkModesAgree | gitlet/Repository.java:1273-1304 | on a history without second parents, the first-parent walk is the full walk |
| History.SplitPointModesAgree | gitlet/Repository.java:1273-1304 | so on such a history the first-parent split point equals the full one |
| History.SplitPointNotLowest | gitlet/Repository.java:1291-1304 | the split point is the first common ancestor the breadth-first walk meets, which after a two-parent merge need not be a lowest one |
| History.FirstParentSplitMissesSecondParent | gitlet/Repository.java:1296-1304 | when a merge commit has a second parent, the first-parent search misses an ancestor that the full search finds |
| ThreeWay.Resolve | gitlet/Repository.java:987-1034 | the per-file verdict: a conflict iff split, current and given versions differ pairwise; otherwise it takes the current or the given version |
| ThreeWay.ResolveFollowsRules | gitlet/Repository.java:987-1034 | the verdict satisfies each of the eight documented rules |
| ThreeWay.RulesCoverEveryCase | gitlet/Repository.java:987-1034 | every combination of three versions falls under at least one rule |
| ThreeWay.ResolveSymmetric | gitlet/Repository.java:987-1034 | swapping the current and given versions does not change the verdict |
| ThreeWay.Concat | gitlet/Repository.java:1437-1442 | `concat` has the summed length and holds the first array, then the second |
| ThreeWay.ConflictBothPresent | gitlet/Repository.java:1411-1428 | the conflict file is the head marker, the current bytes, the separator, the given bytes and the tail marker |
| ThreeWay.ConflictGivenAbsent | gitlet/Repository.java:1387-1400 | with the given side deleted, the conflict file is the same layout with nothing between separator and tail marker |
| ThreeWay.ConflictScenario | gitlet/Repository.java:1411-1428 | versions "1", "2", "3" conflict, and the file is exactly `<<<<<<< HEAD\n2=======\n3>>>>>>>\n` |
| ThreeWay.MergedTree | gitlet/Repository.java:1117-1248 | each path of the merged tree holds the chosen version, or the digest of its conflict file; paths the rules delete are absent |
| ThreeWay.ConflictFiles | gitlet/Repository.java:1117-1185 | a path has a conflict file iff its three versions differ pairwise, and that file is the marker layout of the two sides |
| ThreeWay.MergeTrees | gitlet/Repository.java:1117-1248 | the merged tree and its conflict files agree: every conflicted path's blob is the digest of its conflict file |
| ThreeWay.MergeConflictIff | gitlet/Repository.java:1117-1218 | a merge reports a conflict iff some path differs pairwise between split, current and given trees |
| ThreeWay.MergeTreesSymmetric | gitlet/Repository.java:987-1034 | swapping the branches gives the same conflicted paths and the same files elsewhere |
| Repository.Init | gitlet/Repository.java:136-172 | one root commit (message "initial commit", null parent, epoch stamp, no files), branch `master` current and pointing at it, nothing staged, invariant holds |
| Repository.InitShared | gitlet/Repository.java:109-134 | `init` yields the same repository whatever the clock reads, so every repository shares the root commit |
| Repository.AddAsWritten | gitlet/Repository.java:351-391 | as written: a missing file is an error unless merging; content equal to HEAD's blob cancels only a staged removal, leaving any staged addition and the blob store in place; other content is stored under its digest and staged for addition, other blobs untouched; refs and other paths' staging unchanged; disjointness and the invariant preserved |
| Repository.Add | gitlet/Repository.java:336-391 | content equal to HEAD's blob unstages the path both ways, with no blob write; other content is stored under its digest and staged for addition; other paths' staging untouched; invariant and content addressing preserved |
| Repository.AddThenCommitKeepsContent | gitlet/Repository.java:336-345 | after `add` the next commit records exactly the added content's blob for that path |
| Repository.AddAsWrittenCommitsStaleContent | gitlet/Repository.java:364-373 | as written, re-adding HEAD's content after staging another version commits the other version |
| Repository.Rm | gitlet/Repository.java:657-695 | a file HEAD tracks is staged for removal (recording the staged blob, if any) and unstaged; a file only staged is unstaged; otherwise "No reason to remove the file." unless merging; nothing else changes |
| Repository.RmThenCommitDropsFile | gitlet/Repository.java:657-695 | after a successful `rm` the next commit does not contain the path |
| Repository.CommitGuard | gitlet/Repository.java:254-263 | a commit may proceed iff something is staged (or it is a merge) and the message is non-empty |
| Repository.CommitAsWritten | gitlet/Repository.java:251-295 | as written: the guards in order, and success whenever they pass; the new commit holds the snapshot tree and message, HEAD and the current branch point at it, no other branch moves, staging is empty; even a merge commit has HEAD as its only parent |
| Repository.CommitStaged | gitlet/Repository.java:251-295 | guards in order; on success the commit holds the snapshot tree, message and parents, HEAD and the current branch point at it, no other branch moves, staging is empty; invariant preserved |
| Repository.CommitAsWrittenIdIgnoresTree | gitlet/Commit.java:51-54 | as written, two commits from the same HEAD with equal message and clock get one id whatever was staged |
| Repository.CommitAsWrittenCollision | gitlet/Commit.java:51-54 | as written, staging two contents for one file yields two different trees under one id |
| Repository.CommitIdCoversTree | gitlet/Repository.java:242-245 | with a collision-free digest, commits recording different trees get different ids |
| Repository.MergeCommitAsWrittenDropsGiven | gitlet/Repository.java:1098-1103 | as written, the merge commit does not list the merged-in tip among its parents; corrected, it is the second parent |
| Repository.Branch | gitlet/Repository.java:819-828 | an existing name is refused; otherwise only the new name is bound, to HEAD |
| Repository.BranchThenRmBranch | gitlet/Repository.java:819-854 | removing a branch just created restores the repository |
| Repository.RmBranchAsWritten | gitlet/Repository.java:838-854 | as written: an unknown name is refused, any branch pointing at HEAD's commit is refused as current, and any other branch is removed with nothing else changed |
| Repository.RmBranch | gitlet/Repository.java:838-854 | unknown name and current branch refused; otherwise only that name is removed; invariant preserved |
| Repository.RmBranchAsWrittenRefusesFreshBranch | gitlet/Repository.java:846-851 | as written, a branch just created from HEAD cannot be removed; corrected, it can |
| Repository.CheckoutBranchAsWritten | gitlet/Repository.java:584-643 | as written: the same three errors as the corrected version, and success whenever none applies; the branch becomes current, HEAD is its former tip, its pointer is overwritten with the old HEAD, nothing else changes but the cleared staging |
| Repository.CheckoutBranch | gitlet/Repository.java:584-643 | errors: no such branch, the current branch, an untracked file the target would overwrite (iff); success whenever none applies; then the branch is current, HEAD is its tip, staging is empty, no pointer moves; invariant preserved |
| Repository.CheckoutAsWrittenBreaksCurrentBranch | gitlet/Repository.java:610-640 | as written, after the checkout the current branch does not point at HEAD, and `rmbranch` deletes it |
| Repository.CheckoutRoundTripAsWrittenSwapsBranches | gitlet/Repository.java:610-640 | as written, checking out a branch and back swaps the two branch pointers |
| Repository.CheckoutRoundTrip | gitlet/Repository.java:584-643 | checking out a branch and back restores the repository with staging cleared |
| Repository.Reset | gitlet/Repository.java:872-931 | unknown id refused; refused iff a working file is in the target, not staged and not tracked by HEAD; otherwise it succeeds: HEAD and the current branch move to the id and staging is cleared |
| Repository.ResetToHead | gitlet/Repository.java:872-931 | resetting to HEAD only clears the staging area |
| Repository.ResolvePrefix | gitlet/Repository.java:529-536 | None iff no listed commit file starts with the abbreviation; otherwise a matching commit with no match after it in the listing |
| Repository.ResolveUniquePrefix | gitlet/Repository.java:529-536 | an abbreviation matched by one listed commit resolves to it |
| Repository.CheckoutCommitFile | gitlet/Repository.java:529-562 | the abbreviation resolves to the last matching listed commit; no match, or an unreadable commit, gives "No commit with that id exists."; the resolved commit lacking the path gives "File does not exist in that commit."; otherwise the result is the path's blob in the resolved commit |
| Repository.CheckoutCommitFileOfStore | gitlet/Repository.java:529-548 | when the listing is the commit directory, "No commit with that id exists." is reported exactly when no stored commit's file name starts with the abbreviation; otherwise the file is read from a matching stored commit |
| Repository.FindOfStore | gitlet/Repository.java:945-960 | when the listing is the commit directory, `find` reports exactly the stored commits with the message, and fails iff there is none |
| Repository.Find | gitlet/Repository.java:945-960 | the listed ids are exactly the commits with the message; the error iff there are none |
| Merge.MergeMessage | gitlet/Repository.java:1101-1103 | the message is "Merged " + given + " into " + current + "." |
| Merge.MergeBlocker | gitlet/Repository.java:1346-1364 | uncommitted changes, then unknown branch, then self-merge, in that order; none of them iff the merge may go on |
| Merge.WriteBlobs | gitlet/Repository.java:375-379 | every conflict file is stored under its digest; other blobs keep their content; content addressing preserved |
| Merge.WrittenBlobsReadBack | gitlet/Repository.java:375-379 | with a collision-free digest a stored conflict file reads back unchanged |
| Merge.MergeAncestry | gitlet/Repository.java:1291-1316 | a split point exists iff a common ancestor does, in particular when either tip is an ancestor of the other; it is HEAD only when HEAD is an ancestor of the given tip |
| Merge.CommitMerge | gitlet/Repository.java:1069-1104 | the merge commit holds the three-way merged tree, the merge message, HEAD and the given tip as parents and the clock's stamp; conflict flag iff some path conflicts; conflict files stored; the current branch moves to it and staging is empty; invariant and content addressing preserved |
| Merge.Merge | gitlet/Repository.java:1045-1104 | blockers in order, then "no split point" iff the tips have no common ancestor, and success otherwise; HEAD an ancestor of the given tip (the same commit included, as the source checks this first) iff fast-forward, moving HEAD and the current branch; the given tip a proper ancestor of HEAD gives "Given branch is an ancestor" with nothing changed; otherwise neither tip is an ancestor of the other and the merge commit is built against the split point the search returns |

## Left out

- Filesystem effects are not modelled: working-file writes and deletes, `restrictedDelete` and directory creation. The commands return only the repository value. Working-directory content and listings are parameters.
- SHA-1 and Java serialization are the uninterpreted parameter `hash`.
- Timestamp formatting is not modelled; the clock reading is a string parameter. As written, `setTimestamp` formats `new Date(0)`, so every non-root commit gets the same stamp.
- `log`, `global-log` and `status` only print, and are not modelled. `gitlet/Main.java` argument handling is not part of this model.
- The getters of Commit and StagingArea are the datatype fields.
- Hard-coded special cases for particular test files and branch names in `rm`, `reset` and `merge` are not modelled. These are the names "k.txt", "m.txt", "h.txt", "g.txt", "f.txt", "f" and "B2". `reset` moves the current branch rather than the literal `master`.
- `init` refusing an existing repository is not modelled: the model has no "no repository" state.
- Repository.CheckoutBranchAsWritten: before its untracked-file check the source already records the new current branch name and rewrites the branch file. So on that error the repository is left half switched. The model returns the error with no state change.
- Merge.Merge: the untracked-file check prints its message but does not stop the merge in the source, since the helper only returns. So it is not modelled.
- Merge.Merge: in the source, after "Current branch fast-forwarded." or "Given branch is an ancestor of the current branch." the command goes on to the file loops and a commit. The model ends there, as the command's documentation says. On fast-forward the model moves the current branch as well as HEAD; the source writes only HEAD.
- Merge.Merge: per-file outcomes follow the documented rules 1-8, not the loops in `mergeConditionHandling` and `mergeAddRemoveForLoops`. Those loops are built around the special cases above and depart from the rules in several ways. A conflict among three present versions is written to the working directory (gitlet/Repository.java:1139-1144) but never staged, so the merge commit keeps the current version. With an empty split tree, a conflict file for a path the given branch also has is staged by `add` at line 1226 and committed. A path absent from a non-empty split is checked out from the given branch and staged (lines 1222-1227) even when the current branch holds another version, with no conflict reported. A file changed only in the given branch is staged by `add` at line 1135, but line 1136 then writes back the staging area read at line 1047, which is empty since the merge refuses staged changes, so the merge commit keeps the current version of it. The model stages every path as the rules say.
- Merge.Merge: ancestry and the split point are followed over all parent links, not only first parents, because corrected merge commits have two parents (History.FirstParentSplitMissesSecondParent shows the searches differ then). On the single-parent histories the source produces, both searches agree (History.SplitPointModesAgree). Fast-forward and "given is an ancestor" are decided by ancestry, not by comparing the split point with HEAD, which after a two-parent merge can miss a fast-forward.
- Merge.Merge: where no common ancestor exists the model reports `Err(NoSplitPoint)`. The source does not stop cleanly there: its first-parent walk reads the commit file `null.txt` past the root (gitlet/Repository.java:1298-1301), which throws an uncaught exception, and even past that, line 1308 dereferences the null split point. In a repository made by `init` the case cannot arise, since every commit descends from the shared root.
- Merge.CommitMerge: when neither tip is an ancestor of the other, the base of the three-way merge is the first common ancestor the breadth-first search meets. After criss-cross merges that need not be a lowest common ancestor (History.SplitPointNotLowest), so such a merge can report conflicts that a lowest base would not. The source, with single-parent commits only, always finds the lowest one.
- Repository.Branch, Repository.RmBranch, Repository.CheckoutBranch and Merge.MergeBlocker: the source keeps HEAD.txt, currBranchFileName.txt, currBranchUID.txt and currBranchObject.txt in the branch directory (gitlet/Repository.java:43-56), so it treats "HEAD", "currBranchFileName", "currBranchUID" and "currBranchObject" as existing branches: `branch HEAD` is refused, and `rmbranch`, `checkout` and `merge` of those names read bookkeeping files as branch tips. The model's branch table holds only real branches.
- Repository.CheckoutCommitFile returns the blob id for the working file instead of writing it.

## Findings

| source | as written | input that shows it | evidently intended | confidence | as-written member | corrected member |
|---|---|---|---|---|---|---|
| gitlet/Commit.java:51-54 | the id is digested before the tree is assigned | two commits from the same HEAD, message and clock, staging "f.txt" as blob "a" in one and "b" in the other | the id covers the file references (gitlet/Repository.java:242-245) | high; not executed | Repository.CommitAsWrittenCollision | Repository.CommitIdCoversTree |
| gitlet/Repository.java:846-851 | `rmbranch` refuses any branch whose commit equals HEAD's | `branch x` followed by `rmbranch x` | refuse only the current branch, compared by name | high; not executed | Repository.RmBranchAsWrittenRefusesFreshBranch | Repository.RmBranch |
| gitlet/Repository.java:1098-1100 | the given tip's first parent is added to a discarded object, and the commit gets HEAD as its only parent | any merge that is not a fast-forward | the merge commit's second parent is the given tip | high; not executed | Repository.MergeCommitAsWrittenDropsGiven | Repository.CommitStaged |
| gitlet/Repository.java:364-373 | content equal to HEAD's blob only cancels a staged removal | change f, `add f`, restore f to HEAD's content, `add f`, `commit` | also unstage the addition (gitlet/Repository.java:336-345) | high; not executed | Repository.AddAsWrittenCommitsStaleContent | Repository.AddThenCommitKeepsContent |
| gitlet/Repository.java:612 | the checked-out branch's file is overwritten with the old HEAD id | `checkout b` then `checkout master` when b and master point at different commits | leave branch pointers alone | high; not executed | Repository.CheckoutRoundTripAsWrittenSwapsBranches | Repository.CheckoutRoundTrip |
