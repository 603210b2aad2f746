# mtreconstruct in Dafny

mtreconstruct rebuilds files that were split into fragments named
`<file>.FRAG-<ordinal>`. It walks the current directory and keeps the paths
that match the regular expression `.FRAG-`. It groups them by the part
before the first `.FRAG-` and sorts each group. Each group is then
reconstructed by a merge tree of `cat` tasks:

- leaf tasks take B sorted fragments at a time;
- each reduction pass folds B tasks into a parent whose file list is its
  children's leaders;
- the last remaining task's leader is renamed to the group's key.

`cat(files)` appends every later file of the list to the first one and
deletes it.

This project models that core on a file system seen as a map from paths to
byte contents:

- `files.dfy` (module `Files`): the file system. It holds the `cat` and
  `rename` primitives as specification functions, and a `FileSystem` class
  whose `Cat` and `Rename` methods update its `contents` in place.
- `merge_tree.dfy` (module `MergeTree`): building the merge tree, as
  methods over the same stacks the program pops. It also holds the
  functions that specify them, and the shape of the resulting tree.
- `reconstruction.dfy` (module `Reconstruction`): running the tree and the
  final rename. The end-to-end results are proved here:
  - the target holds the bytes of every fragment in list order;
  - every fragment is gone;
  - the batch size does not matter.
- `grouping.dfy` (module `Grouping`): the path filter, the key of a path,
  the grouping map and the sorting of each group. It also shows that
  grouping does not depend on listing order, and carries the proof chain
  from a listing to a reconstructed group.

The tasks of a tree run as threads in the program. A parent joins all of
its children before its own `cat`. The model runs them one after the other
in post-order, which is one of the orders those joins allow. Sibling tasks
work on disjoint files, and `StepsCommute` and the lemmas built on it show
that steps on disjoint files commute.

## Model

| member | source | states |
|---|---|---|
| `Files.FileSystem.Cat` | src/main.rs:114-144 | succeeds exactly when `cat` does. On success the new contents are `CatSpec` of the old. When the first file cannot be opened, nothing changes. At most one entry, or an empty first entry, changes nothing. |
| `Files.CatStep` | src/main.rs:124-140 | one turn of the append loop. An empty entry or a path without metadata is skipped. Otherwise its bytes go to the end of the leader (lost once the leader path itself is gone) and it is removed. |
| `Files.CatLoop` | src/main.rs:124-141 | the append loop over the secondary entries, in list order. |
| `Files.CatSpec` | src/main.rs:114-144 | `cat`: nothing for at most one entry or an empty first entry, an error when the first file cannot be opened for appending, otherwise the append loop into the first file. |
| `Files.RenameSpec` | src/main.rs:258 | `rename`: an error when the source is missing or the target is the empty path, otherwise the bytes move to the target, replacing any file there. |
| `Files.Gather` | src/main.rs:137-139 | the bytes read from every non-empty, existing path of a list, in list order. |
| `Files.FileSystem.Rename` | src/main.rs:258 | succeeds exactly when the source exists and the target is not the empty path. The new contents are `RenameSpec` of the old; on failure nothing changes. |
| `Files.CatContract` | src/main.rs:114-144 | the no-op cases of `cat`. Also the error, with nothing changed, when the first file is missing. Otherwise: the listed secondaries are deleted and every other file is untouched. When no path is listed twice, the leader holds its old bytes followed by every existing secondary's bytes in list order. |
| `Files.CatLoopClosedForm` | src/main.rs:124-141 | the closed form of the append loop: leader := leader + bytes of the secondaries in order, and every listed secondary is deleted. |
| `Files.CatLoopFrame` | src/main.rs:124-141 | the loop deletes exactly the listed secondaries (missing ones included). It never touches a path other than those and the leader. |
| `Files.CatLoopSkipsBlanks` | src/main.rs:125-127 | empty placeholder entries change nothing. |
| `Files.CatLoopAppend` | src/main.rs:124-141 | the loop over a concatenated list is the loop over the first part followed by the loop over the second. |
| `Files.GatherAppend` | src/main.rs:137-139 | the bytes gathered from a concatenated list are the bytes of the two parts, in order. |
| `Files.RenameContract` | src/main.rs:258 | rename moves the bytes to the target and frees the source. It touches nothing else, fails when the source is missing or the target is empty, and renaming a file to itself changes nothing. |
| `MergeTree.Idle` | src/main.rs:152-159 | `Task::new()`: a task with no files and no children, whose thread has nothing to do. |
| `MergeTree.Leader` | src/main.rs:213-214 | the first entry of a task's file list, or "" when the list is empty. The final rename at line 256 takes the same first entry of the root, which is never empty there. |
| `MergeTree.Leaders` | src/main.rs:211-216 | the leader of every task of a sequence, one per task, in order: the entries pushed into a parent's file list. |
| `MergeTree.Reverse` | src/main.rs:166 | `reverse()`, used on the fragments at line 166 and on each level of tasks at line 205: element i of the result is element n-1-i of the input. |
| `MergeTree.PopBatch` | src/main.rs:171-175 | popping B entries from the reversed fragment stack yields the next B fragments, padded with "" once the stack is empty. The stack left is the reverse of the fragments not taken. |
| `MergeTree.LeafTasks` | src/main.rs:169-197 | the leaves built from the fragments in order: B entries each, padded with "", stopping at the first batch whose first entry is "". |
| `MergeTree.BuildLeaves` | src/main.rs:165-197 | the leaf loop yields exactly `LeafTasks(fragments, B)`. |
| `MergeTree.LeafTasksShape` | src/main.rs:169-197 | there are ceil(n/B) leaves. Each has exactly B entries, a real first entry, "" only at its tail, and no children. Their real entries, leaf after leaf, are the fragments in order. |
| `MergeTree.LeafBatch` | src/main.rs:171-179 | one leaf batch holds the next min(B, n) fragments followed by "" placeholders. |
| `MergeTree.CeilDivIsCeiling` | src/main.rs:170-197 | the leaf and parent counts are the ceiling of n/B. |
| `MergeTree.CeilDivShrinks` | src/main.rs:200-246 | with B ≥ 2, a level of two or more tasks folds into strictly fewer parents, so the reduction loop ends. |
| `MergeTree.FoldLevel` | src/main.rs:207-242 | a reduction pass over n ≥ 1 tasks makes ceil(n/B) parents. |
| `MergeTree.Parent` | src/main.rs:211-216 | a parent made from a group of child tasks: its file list is their leaders, its children are that group. |
| `MergeTree.PopChildren` | src/main.rs:208-216 | one parent takes the next B tasks from the stack, padded with `Task::new()` tasks once it is empty. Its file list is their leaders, "" for an empty list. |
| `MergeTree.FoldOnce` | src/main.rs:204-245 | the inner section loop yields exactly `FoldLevel(level, B)`. At least one parent is made even from an empty level. |
| `MergeTree.FoldLevelParents` | src/main.rs:208-216 | every parent of a pass has exactly B children, its children's leaders as its file list, and at least one fragment. |
| `MergeTree.FoldLevelFrags` | src/main.rs:207-242 | a pass keeps the fragments, parent after parent, in order. |
| `MergeTree.FoldLevelGroups` | src/main.rs:205-242 | the children of a pass, parent after parent, are the level in order followed by fewer than B idle tasks. |
| `MergeTree.ParentShape` | src/main.rs:211-216 | the parent of the first group is well formed and has B children. It covers the fragments of that group. |
| `MergeTree.ShapedLeader` | src/main.rs:213-214 | the leader of a well-formed task is the first fragment of its range. It is "" exactly when that task has no fragments. |
| `MergeTree.Reduce` | src/main.rs:200-203 | repeated passes end with exactly one task. |
| `MergeTree.ReduceShape` | src/main.rs:200-246 | the single task left by repeated passes is well formed and covers every fragment of the level, in order. |
| `MergeTree.BuildTree` | src/main.rs:162-248 | the leaf loop, then the section loop while more than one task remains, yields the root `MergeTreeOf(fragments, B)`. |
| `MergeTree.MergeTreeOf` | src/main.rs:162-248 | the root of the tree: the one task left after the leaves are folded pass after pass. |
| `MergeTree.MergeTreeCovers` | src/main.rs:248-256 | the root is well formed and covers every fragment in order. Its leader, the name that is renamed, is `fragments[0]`. |
| `Reconstruction.ReadySplit` | src/main.rs:211-216 | the fragments of sibling tasks are distinct existing files and share no path. |
| `Reconstruction.StepsCommute` | src/main.rs:218-221 | two append steps on four different paths can be swapped. |
| `Reconstruction.StepMergedAllCommute` | src/main.rs:218-221 | an append step commutes with the merges of sibling tasks over other paths. |
| `Reconstruction.RunTree` | src/main.rs:180-236 | a task finishes its children, then runs its own `cat`. A `cat` error means the task never finishes. |
| `Reconstruction.RunChildren` | src/main.rs:219-221 | the children of a task are joined one after the other, each finishing before the next. |
| `Reconstruction.AbsorbStep` | src/main.rs:134-140 | appending `m`, which already received `x`, to `l` equals appending `m`, then `x`, to `l`. |
| `Reconstruction.AbsorbLoop` | src/main.rs:124-141 | appending a leader that has merged its list equals appending that whole list. |
| `Reconstruction.AbsorbChildren` | src/main.rs:211-236 | merging each child's range, then appending the children's leaders, equals appending every fragment of the children. |
| `Reconstruction.MergedFrame` | src/main.rs:124-141 | merging a range keeps every file outside it, and keeps its first file. |
| `Reconstruction.LeafMerged` | src/main.rs:180-195 | a leaf's `cat` merges its real entries into its first one. |
| `Reconstruction.ParentCat` | src/main.rs:218-236 | once the children have run, the parent's `cat` of their leaders completes the merge of its whole range. |
| `Reconstruction.RunTreeMerged` | src/main.rs:218-236 | running a well-formed task on distinct existing fragments never blocks. It merges its range into its first fragment. |
| `Reconstruction.RunChildrenMerged` | src/main.rs:219-221 | running the children in order merges each child's range in turn. |
| `Reconstruction.RootMerges` | src/main.rs:248-252 | after the root has run, `fragments[0]` holds every fragment's bytes in order and every other fragment is gone. |
| `Reconstruction.RenameMerged` | src/main.rs:256-258 | renaming the merged first fragment to the key leaves the key holding all the bytes, with no fragment left. |
| `Reconstruction.ReconstructMerges` | src/main.rs:162-258 | from distinct existing fragments, the key ends up holding the bytes of all fragments in list order. Every fragment is gone, unless it is the key itself, and every other file is unchanged. Only an empty key makes the rename fail. |
| `Reconstruction.ReconstructSingle` | src/main.rs:162-258 | a single fragment is only renamed to the key. |
| `Reconstruction.BatchSizeIrrelevant` | src/main.rs:95-106 | any two batch sizes in range give the same result. |
| `Reconstruction.DefaultBatchSizeAgrees` | src/main.rs:15 | any batch size in range gives the same result as the default of 32. |
| `Reconstruction.ReportTree` | src/main.rs:165-246 | with B = 2, fragments F0, F1, F2 give leaves [F0, F1] and [F2, ""] and the root [F0, F2]. |
| `Reconstruction.ThreeFragments` | src/main.rs:162-258 | three distinct fragments that are the only files leave the key as the only file, holding their bytes in order. |
| `Reconstruction.ReportBytes` | src/main.rs:162-258 | `report.txt.FRAG-0000{0,1,2}` holding "AAA", "BBB" and "CCC" leave only `report.txt`, holding "AAA" + "BBB" + "CCC". |
| `Reconstruction.RunTask` | src/main.rs:180-236 | a task runs its children in order, then its own `cat`. It reports success exactly when `RunTree` does, and the new contents are then `RunTree`'s. |
| `Reconstruction.Reconstruct` | src/main.rs:162-258 | building the tree, running it and renaming the root's leader gives exactly `ReconstructSpec`. |
| `Reconstruction.ReconstructSpec` | src/main.rs:162-258 | `reconstruct`: run the root of the tree, then rename its leader to the key. The outcome is `Hung` when a `cat` never succeeds and `RenameFailed` when the rename fails. |
| `Grouping.PatternAt` | src/main.rs:269 | the pattern `.FRAG-` matches at an index: one character other than a line feed, then "FRAG-". |
| `Grouping.SearchFrom` | src/main.rs:275 | the unanchored search of `is_match`, trying every start from an index on. |
| `Grouping.IsMatch` | src/main.rs:269-275 | the filter: the pattern matches somewhere in the path. |
| `Grouping.SearchFromFinds` | src/main.rs:275 | the unanchored search succeeds exactly when the pattern occurs at some start at or after `i`. |
| `Grouping.IsMatchExactly` | src/main.rs:269-275 | the filter accepts a path exactly when "FRAG-" occurs at an index ≥ 1 right after a character other than a line feed. |
| `Grouping.Accepted` | src/main.rs:273-276 | every kept path matches, and every matching path is kept as often as it is listed. |
| `Grouping.WildcardDot` | src/main.rs:269-280 | "aFRAG-1" passes the filter, and its key is itself. |
| `Grouping.SeparatorMatches` | src/main.rs:269-280 | a path with the literal ".FRAG-" passes the filter. |
| `Grouping.KeyFrom` | src/main.rs:280 | the first piece of the split, scanning from `i`, is a prefix of the path with no separator. It is followed by a separator unless it is the whole path. |
| `Grouping.KeyOf` | src/main.rs:280 | the key is the longest prefix of the path with no ".FRAG-" in it, stopping at the first separator. |
| `Grouping.KeyOfIdempotent` | src/main.rs:280 | a key is its own key. |
| `Grouping.PathLe` | src/main.rs:289 | the order `sort_unstable` uses on `String`: lexicographic, a proper prefix first. |
| `Grouping.PathLeTotal` | src/main.rs:289 | the order of `String` is total. |
| `Grouping.PathLeAntisymmetric` | src/main.rs:289 | the order of `String` is antisymmetric. |
| `Grouping.PathLeTransitive` | src/main.rs:289 | the order of `String` is transitive. |
| `Grouping.Insert` | src/main.rs:289 | inserting into a sorted list keeps it sorted and adds exactly one element. |
| `Grouping.SortPaths` | src/main.rs:289 | the sort's result is sorted and a permutation of its input. |
| `Grouping.SortedUnique` | src/main.rs:289 | two sorted permutations of the same paths are equal, so an unstable sort loses nothing. |
| `Grouping.Collect` | src/main.rs:278-284 | the map after the `entry` loop: each path appended to its key's list, which is created on first use. |
| `Grouping.Groups` | src/main.rs:278-289 | the groups handed to `reconstruct`: every list of that map, sorted. |
| `Grouping.CollectPaths` | src/main.rs:278-284 | the `entry` loop yields `Collect(paths)`. |
| `Grouping.CollectMembers` | src/main.rs:278-284 | the map has a list for a key exactly when some path has that key. That list is the paths with that key, in listing order. |
| `Grouping.MembersCount` | src/main.rs:278-284 | a path is counted, as often as it is listed, in the group of its own key and nowhere else. |
| `Grouping.GroupsPartition` | src/main.rs:278-289 | every accepted path lies in the group of its key, and every member of a group has that key. Each group is non-empty, sorted, and a permutation of its members. |
| `Grouping.KeyOfMember` | src/main.rs:278-284 | every member of a group has the group's key. |
| `Grouping.GroupsIndependent` | src/main.rs:286-296 | different groups share no path, and no group's key is a fragment of another group. |
| `Grouping.MembersOrderFree` | src/main.rs:278-284 | the same paths in any order have the same members for every key. |
| `Grouping.GroupsOrderFree` | src/main.rs:278-289 | the same paths in any order give the same groups. |
| `Grouping.ListingOrderFree` | src/main.rs:273-289 | the same directory listing in any order gives the same groups. |
| `Grouping.PrefixFirst` | src/main.rs:289 | a prefix sorts before the path it prefixes. |
| `Grouping.KeyLeadsItsGroup` | src/main.rs:280-289 | a path equal to its group's key comes first in the sorted group. |
| `Grouping.DistinctCounts` | src/main.rs:279-284 | no path is listed twice exactly when no path is counted twice. |
| `Grouping.GroupReady` | src/main.rs:273-289 | from a listing without repeats whose accepted paths are existing files (other entries, such as directories, may be anything), every group is a non-empty list of distinct existing files. |
| `Grouping.GroupPresent` | src/main.rs:273-289 | when the accepted paths are existing files, so is every member of every group. |
| `Grouping.MainReconstructsGroup` | src/main.rs:273-296 | from a listing without repeats whose accepted paths are existing files, with any batch size, the group of a non-empty key `k` is sorted. Reconstructing it leaves `k` holding its fragments' bytes in sorted order and removes the fragments. |
| `Grouping.SortGroups` | src/main.rs:288-289 | every list of the map is replaced by its sorted arrangement, and the keys are kept. |
| `Grouping.GroupFragments` | src/main.rs:273-289 | filtering, collecting and sorting yield exactly `Groups(Accepted(entries))`. |

## Left out

- Threads, `JoinHandle`, the joins and the mutex that holds the batch size (src/main.rs:13-16, 146-160, 180, 218-221, 286-300) are not modelled. A task's children run before it in order (post-order), and the commutation lemmas show that steps on disjoint files do not interfere. The per-group threads of `main` are covered by `GroupsIndependent`: groups share no file. The groups are not run together in one model.
- The retry loops and their sleeps (src/main.rs:181-193, 222-234): a `cat` that fails is reported as `Hung` (it would be retried for ever) instead of being retried.
- I/O failures in the middle of `cat` (read, write and remove errors after the leader was opened) and `BufWriter` buffering are not modelled. `cat` either fails before changing anything (missing leader) or completes.
- The panics of `unwrap` (src/main.rs:248, 258): `Reconstruct` and `ReconstructSpec` require a non-empty fragment list whose first entry is not "", which is what keeps `leaf_tasks.pop().unwrap()` at 248 from meeting an empty list of leaves. Every group built by `main` meets both (`GroupReady`). A failing final rename is reported as `RenameFailed` instead of panicking that thread.
- The directory walk `VisitDir` (src/main.rs:18-53), argument parsing and usage (src/main.rs:59-109), logging and timing are not modelled. The listing is a parameter, and the batch size is a value of type `BatchSize` (2..=100, default 32).
- The regular-expression engine is not modelled. The one pattern `.FRAG-` is modelled directly, with `.` accepting any character except a line feed as the regex crate's default does. Fragment names have the form `<file>.FRAG-<ordinal>`, but the `.` of the pattern is a wildcard, and the model follows the code: "aFRAG-1" is accepted and forms a group of its own (`WildcardDot`).
- The file system holds regular files only; directories are not modelled. So the model does not capture three things. First, the walk lists directories, which `main` filters like any path. Second, a directory whose name matches `.FRAG-` passes `metadata` (src/main.rs:130) and then fails `read_to_end` (src/main.rs:138), so its task is retried for ever, while the model would treat it as a file. Third, `rename` (src/main.rs:258) fails, and its `unwrap` panics, when the key names an existing directory, while `RenameSpec` succeeds and replaces it.
- Strings are sequences of characters, and file names are assumed to be valid UTF-8, so `to_string_lossy` (src/main.rs:274) is the identity and the byte order of `String` is the order of characters. The model therefore does not capture a name that is not valid UTF-8. `to_string_lossy` replaces its invalid bytes with U+FFFD, so the listed string names no file. As a secondary entry of a `cat` it fails `metadata` (src/main.rs:130) and its bytes are silently left out of the result. As a leader it fails the open at src/main.rs:121, and its task is retried for ever.
- Permissions are not modelled. A leader that exists but cannot be opened for appending (no write permission) fails the open at src/main.rs:121 and its task is retried for ever, while `CatSpec` fails only when the leader is missing and otherwise succeeds.
- SortGroups: `sort_unstable` is modelled by its result, the one sorted arrangement (`SortPaths`, `SortedUnique`), not by its algorithm.
