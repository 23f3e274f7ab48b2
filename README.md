# pathsize: the tree builder and report, in Dafny

pathsize walks a directory tree and reports how many bytes each directory
holds. The walk yields entries in depth-first pre-order. Each entry has a
path, a depth below the root (the root is at depth 0), a directory-or-file
flag and, for a file, a length in bytes.

The program keeps a table from depth to the list of directory nodes created
at that depth, in walk order. Each node holds a path, a size and a child
count.

- A directory entry appends a fresh node (size 0, no children) to the list
  of its depth. Below the root, it also adds one child to the last node one
  level up.
- A file entry adds its length to the last node of every depth above it.
  Under a pre-order walk, the last node of each depth is the directory
  still open at that depth.
- The report then prints the nodes of depths 0, 1 and 2 in turn, and
  panics at the first of those depths that has no list. Each size is given
  in KB, MB or GB, chosen by strict comparison with 1024² and 1024³ bytes.

The model is split into five modules:

- `Wrappers` (wrappers.dfy): the `Option` and `Result` values that stand
  for the source's `Option` lookups and its panics.
- `Walk` (walk.dfy): the walk as a sequence of entries and what a pre-order
  walk is. The subtree of a directory is the run of entries after it that
  stay deeper than it. Also the sizes and subdirectory counts those subtrees
  define.
- `Tree` (tree.dfy): the table as a `map<nat, seq<Node>>` value. It is built
  by `AddDirectory`, by `AddFile` (the loop over the depths above a file),
  by `ProcessEntry` (the body of the entry loop) and by `Build` (the entry
  loop). Each method is proved equal to a specification function: `DirStep`,
  `FileStep`, `Step` and `Run`. The source's `unwrap`/`expect` panics become
  `Err(MissingDepth(i))` (no list at depth `i`) or `Err(EmptyLevel(i))` (an
  empty list at depth `i`).
- `TreeFacts` (tree_facts.dfy): what the table holds after the whole walk.
  - On every successful build, each depth lists its directories in walk
    order, one node per directory entry.
  - The child counts at each depth add up to the number of nodes one depth
    further down.
  - On a pre-order walk the build never fails. Every node's size is the
    total length of the files in its subtree, and its child count is its
    number of direct subdirectories.
- `Report` (report.dfy): the unit choice and the report loop, as written
  and with missing depths skipped.

## Model

| member | source | states |
|---|---|---|
| `Tree.FirstNoOpen` | src/main.rs:48-50 | the depth where the file loop stops: every depth before it has a last node, and it has none; `None` exactly when every depth above the file has one |
| `Tree.DirStep` | src/main.rs:30-46 | a directory entry succeeds exactly at the root or when depth `d-1` has a last node. On success it appends one node `(path, 0, 0)` to the end of the list at `d`, creating that list if absent. Below the root, the last node at `d-1` gains exactly one child and keeps its path and size. Every other list and the rest of the `d-1` list are unchanged. On failure the error names depth `d-1`, and says whether the list is missing or empty |
| `Tree.FileStep` | src/main.rs:47-52 | a file entry at depth `d` succeeds exactly when every depth `0..d-1` has a last node. On success the last node of each of those depths grows by the file's length, with the same path and child count. No node is created, the key set is unchanged, every other node is unchanged, and depths `>= d` are untouched. On failure the error is the first depth without a last node, and says whether its list is missing or empty |
| `Tree.FileAtTopChangesNothing` | src/main.rs:48 | a file at depth 0 leaves the table exactly as it was, because the loop over `0..depth` is empty |
| `Tree.AddDirectory` | src/main.rs:30-46 | the directory branch, with its push-or-insert and its parent lookup, gives exactly `DirStep`'s result |
| `Tree.AddFile` | src/main.rs:47-52 | the `for i in 0..depth` loop gives exactly `FileStep`'s result, including the depth at which it panics |
| `Tree.ProcessEntry` | src/main.rs:26-53 | the loop body gives exactly `Step`'s result for one entry |
| `Tree.RunFailureSticks` | src/main.rs:25-54 | once a prefix of the walk fails, the whole build fails with that same error |
| `Tree.Build` | src/main.rs:24-54 | the entry loop, from an empty table, gives exactly `Run`'s result: each entry in turn, stopping at the first failure |
| `Walk.DirsComplete` | src/main.rs:30-42 | every directory entry at depth `d` is among the directories listed for depth `d` |
| `Walk.OpenLevelsPopulated` | src/main.rs:43-50 | in a pre-order walk, every depth above the deepest level the next entry may reach already has a directory |
| `Walk.OpenIsLast` | src/main.rs:43-50 | in a pre-order walk, a directory is still open exactly when it is the last directory of its depth and that depth is above the next entry's deepest level. This is why the code's lookups of the last node at each depth reach the open ancestor |
| `TreeFacts.RunTabulates` | src/main.rs:25-54 | after any successful build, the list at each depth holds exactly one node per directory entry of that depth, in walk order. Each node's size and child count are what was attributed to it while it was the last directory of its depth |
| `TreeFacts.ListsDirectories` | src/main.rs:30-42 | after any successful build, a depth has a list exactly when the walk has a directory there. The list's length is the number of such directories, and node `m` carries the path of the `m`-th of them |
| `TreeFacts.NodeCount` | src/main.rs:30-42 | after any successful build, the total number of nodes over all depths equals the number of directory entries |
| `TreeFacts.StepBalanced` | src/main.rs:30-52 | every entry keeps the child counts at each depth summing to the number of nodes one depth further down |
| `TreeFacts.RunBalanced` | src/main.rs:37-46 | after any successful build, the child counts at depth `d` sum to the length of the list at depth `d+1` |
| `TreeFacts.WalkAttribution` | src/main.rs:43-52 | on a pre-order walk, the bytes and subdirectories attributed to a directory's node are exactly the file lengths and the direct subdirectories in its subtree |
| `TreeFacts.WalkBuilds` | src/main.rs:44-50 | on a pre-order walk, none of the `unwrap`/`expect` lookups fails |
| `TreeFacts.BuildOnWalk` | src/main.rs:24-54 | on a pre-order walk, the build succeeds. Each depth lists its directories in walk order. Each node's size is the total length of the files in its subtree, and its child count is its number of direct subdirectories |
| `TreeFacts.RootTotals` | src/main.rs:47-52 | for the table built from a walk under a single root directory, depth 0 holds one node. Its size is the total length of all files in the walk, and its child count is the number of directories at depth 1 |
| `Report.UnitOf` | src/main.rs:58-63 | the chosen unit keeps the printed figure (size divided by the unit) above 1 unless the unit is KB, and at most 1024 unless it is GB |
| `Report.UnitUnique` | src/main.rs:58-63 | only one unit satisfies those two bounds, so they characterise the strict `>` comparisons against GB and MB |
| `Report.UnitBoundaries` | src/main.rs:58-63 | exactly 1048576 bytes is shown in KB and exactly 1073741824 bytes in MB. One byte more switches to MB and GB respectively |
| `Report.LevelLines` | src/main.rs:57-65 | one line per node of a level, in list order, each with the node's path, size, unit and child count |
| `Report.FirstAbsent` | src/main.rs:55-56 | the first of the report's depths with no list, if any: all earlier depths have one |
| `Report.PrintLevel` | src/main.rs:57-65 | the loop over one level's nodes gives exactly `LevelLines` of that level |
| `Report.PrintReport` | src/main.rs:55-66 | the report loop as written fails exactly at the first of depths 0, 1, 2 that has no list. It first prints the lines of all the depths before that one, depth by depth |
| `Report.PrintPresentLevels` | src/main.rs:55-66 | the corrected report loop never fails. It prints the lines of every node at depths 0, 1 and 2, depth by depth |
| `Report.ListingCovers` | src/main.rs:55-66 | the listing of depths below `n` has one line per node of those depths. Node `m` of depth `d` is line `NodesBelow(t, d) + m` |
| `Report.ReportCountOnWalk` | src/main.rs:55-66 | on a pre-order walk, the corrected report has one line per directory at depths 0 to 2 |
| `Report.ReportLineOnWalk` | src/main.rs:55-66 | on a pre-order walk, in the corrected report of the table the build makes, the line of each directory at depths 0 to 2 shows its path, its subtree's total file length, the unit that total selects, and its number of direct subdirectories |
| `Report.ShallowTreeAborts` | src/main.rs:55-56 | the report as written aborts after any successful build whose walk has no directory at depth 2 |
| `Report.TwoLevelRun` | src/main.rs:24-54 | for `/r` holding a file `a` of `x` bytes and `/r/sub` holding a file `b` of `y` bytes, the build succeeds. `/r` gets `x + y` bytes and one child, and `/r/sub` gets `y` bytes and none |
| `Report.TwoLevelWalkAborts` | src/main.rs:55-56 | for that walk, the table the build makes is that final table, and the report as written aborts at depth 2, the first of its depths with no list |
| `Report.TwoLevelListing` | src/main.rs:55-66 | for that table, the lines printed before the abort are those of `/r` and `/r/sub`, each with its size and the unit that size selects, and both in KB when the files total at most 1 MB. The corrected report prints exactly these two lines |

## Findings

| source | as written | input that shows it | evidently intended | confidence | as-written member | corrected member |
|---|---|---|---|---|---|---|
| src/main.rs:55-56 | the report loop runs `for i in 0..3` and calls `expect` on the list at each depth, so it panics whenever the tree has fewer than three levels of directories | the walk `/r` (dir), `/r/a` (a file of `x` bytes), `/r/sub` (dir), `/r/sub/b` (a file of `y` bytes), for instance with `x` = 2000 and `y` = 3000: both lines print in KB, then the program panics with "expected node dir at depth 2" | report the directories at depths 0 to 2 that exist and finish normally | medium, not executed | `Report.PrintReport`, shown by `Report.TwoLevelWalkAborts`, `Report.TwoLevelListing` and `Report.ShallowTreeAborts` | `Report.PrintPresentLevels`, with `Report.ReportCountOnWalk` and `Report.ReportLineOnWalk` |

## Notes on the code

- A node counts its subdirectories in `children`.
- The `>` comparisons are strict, so exactly 1048576 bytes is shown in KB
  and exactly 1073741824 bytes in MB.
- Lines 68 and 72-74 of src/main.rs are a commented-out call to and stub of
  `sort_hash`, which has no body to model.
- The report visits depths 0 to 2.

## Left out

- The directory walk itself and its errors (src/main.rs:23-26): the walk is
  an input sequence of entries, and the `entry?` error path is not modelled.
- `dir_entry.metadata()?.len()` (src/main.rs:51): each file's length is
  given in its entry, and the metadata error path is not modelled.
- Command-line parsing (src/main.rs:2, 9-13, 22): library plumbing.
- `to_string_lossy` (src/main.rs:32): paths are opaque strings.
- The floating-point division and the `println!` formatting
  (src/main.rs:59-63): a report line records the path, the integer size,
  the chosen unit and the child count, not the printed figure or text.
- Sizes and child counts are unbounded naturals, so the model does not
  capture `u64` overflow on `size += len` or `children += 1`.
- The panics abort the process, so the model returns only the error. It
  does not keep the partly updated table that exists at the moment of the
  panic.
- `sort_hash` (src/main.rs:68, 72-74): only a commented-out call and stub, with no body to model.
