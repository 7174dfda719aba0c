# Disk inventory report pipeline, modelled in Dafny

The tool walks a directory, records the size of every entry, and reports a
tree: a root named after the walked path whose size is the total of all
walked entries, with every entry as a direct, childless child of the root.
Before reporting, it sorts every node's children by size, largest first, with
a stable sort. It then removes every child below a size threshold, by default
1024 bytes, at every depth.

The model has five modules, one per part of `src/main.rs`:

- `FileTree` (`filetree.dfy`): the `FileNode` datatype, with `name`, `size`,
  `location` and `children`, plus shared helpers.
- `TreeBuilder` (`build.dfy`): `build_tree`. The directory walk is an input
  sequence of `WalkItem`s. Each item is either a walk error, or a visited entry
  with its file name, its path and its metadata length (`None` when reading
  the metadata fails). `BuildTree` is a loop over that sequence. It adds each
  length to the root's size and pushes one leaf per visited entry.
- `TreeFilter` (`filter.dfy`): `filter_tree`. `RetainChildren` is the one-pass
  `Vec::retain`. `FilterTree` retains, then recurses into the survivors.
- `TreeSorter` (`sort.dfy`): `sort_tree_by_size`. `SortChildren` is a stable
  insertion sort. `SortTreeBySize` sorts, then recurses into each child.
- `Inventory` (`inventory.dfy`): the composition in `main`, which builds, then
  sorts, then filters with the given threshold or 1024.

Each method is proved equal to a recursive specification function. For the
whole tree these are `Filtered` and `SortedTree`. Lemmas then state what the
tool promises about those functions:

- The root's size is the total of the walked sizes.
- The children are the walked entries in walk order.
- The threshold holds at every depth, and filtering twice changes nothing.
- Sorting is descending, is a permutation, and is stable.
- Filtering keeps sorted children sorted.
- Sorting and filtering commute.

The specification functions work bottom-up: they recurse into the children
first, then retain or sort. The source retains or sorts first, then recurses.
`FilteredChildren` and `SortedTreeChildren` prove that the two orders give the
same tree. The proof uses the fact that neither operation changes a node's
size.

A visited entry whose metadata cannot be read is not skipped:
`entry.metadata().unwrap()` (src/main.rs:23) aborts the run. So `BuildTree`
and `Analyze` return `Failure(MetadataUnreadable(path))` for the first such
entry. Only walk errors are skipped silently (src/main.rs:22).

## Model

| member | source | states |
|---|---|---|
| `TreeBuilder.BuildTree` | src/main.rs:13-36 | Fails exactly when some visited entry's metadata cannot be read, and then names the first such entry's path. Otherwise the root is named after the path, has no location, its size is the total walked size, and its children are the walked leaves. The loop starts from size 0 and no children. |
| `TreeBuilder.FirstUnreadable` | src/main.rs:21-23 | The position it returns holds a visited entry with unreadable metadata. Every earlier entry is readable. |
| `TreeBuilder.VisitedIndices` | src/main.rs:22 | The positions of the walk's visited entries, in strictly increasing order. A position is included exactly when its item is not a walk error. |
| `TreeBuilder.LeavesInWalkOrder` | src/main.rs:22-31 | The k-th child of the built root is the leaf of the k-th visited entry. It has that entry's file name, its metadata length as size, `Some(path)` as location, and no children. There are no other children. |
| `TreeBuilder.WalkedSizeIsSumOfLeaves` | src/main.rs:24-31 | The root's accumulated size equals the sum of the sizes of the children pushed beside it. |
| `TreeBuilder.LeavesAreLeaves` | src/main.rs:26-31 | Every child of the built root has no children and has a location. |
| `TreeBuilder.WalkErrorIgnored` | src/main.rs:22 | A walk error inserted anywhere in the walk adds no child and adds nothing to the size. |
| `TreeBuilder.LeavesAppend` | src/main.rs:21-33 | The walk is processed item by item: children and size over a concatenated walk are the children and sizes of the two parts, joined. |
| `TreeFilter.Retain` | src/main.rs:46 | Never longer than its input. Every child it keeps was a child and is at or above the threshold. |
| `TreeFilter.KeptIndices` | src/main.rs:46 | The positions at or above the threshold, in strictly increasing order. A position is included exactly when its child's size is at least the threshold. |
| `TreeFilter.RetainSelectsKept` | src/main.rs:46 | `retain` keeps exactly the children at the kept positions, in their original relative order, each unchanged. |
| `TreeFilter.RetainMembers` | src/main.rs:46 | A node is kept if and only if it is a child whose size is at least the threshold. |
| `TreeFilter.RetainAll` | src/main.rs:46 | When no child is below the threshold, `retain` keeps them all. |
| `TreeFilter.RetainMapCommute` | src/main.rs:46-49 | Retaining commutes with any rewrite of the children that keeps their sizes. |
| `TreeFilter.RetainAppend` | src/main.rs:46 | Retaining works child by child: retaining a concatenation is the concatenation of the retained parts. |
| `TreeFilter.FilteredChildren` | src/main.rs:45-50 | After `filter_tree`, the node keeps its name, size and location. Its children are the retained children, each filtered in turn, in order. |
| `TreeFilter.FilteredAtLeast` | src/main.rs:45-50 | After filtering, every child at every depth is at or above the threshold. |
| `TreeFilter.FilteredFixpoint` | src/main.rs:45-50 | A tree already at or above the threshold everywhere is left unchanged. |
| `TreeFilter.FilterIdempotent` | src/main.rs:45-50 | Filtering twice with the same threshold gives the same tree as filtering once. |
| `TreeFilter.FilteredFlat` | src/main.rs:45-50 | On a tree whose children are all leaves, filtering only retains the root's children. |
| `TreeFilter.RetainChildren` | src/main.rs:46 | The one-pass retain loop returns exactly `Retain` of the children. |
| `TreeFilter.FilterTree` | src/main.rs:45-50 | `filter_tree` (retain, then recurse into the survivors) returns exactly the filtered tree `Filtered`. |
| `TreeFilter.FilterEachChild` | src/main.rs:47-49 | The recursion loop replaces each surviving child by its filtered tree, in order. |
| `TreeSorter.InsertPermutes` | src/main.rs:52 | One insertion step adds exactly the inserted node. |
| `TreeSorter.InsertSorted` | src/main.rs:52 | One insertion step keeps a descending sequence descending. |
| `TreeSorter.InsertOfSize` | src/main.rs:52 | In a descending sequence, the inserted node goes after every node of its own size. |
| `TreeSorter.SortBySizeSortedPermutation` | src/main.rs:52 | The sorted children are non-increasing in size and are a permutation (same multiset) of the input. |
| `TreeSorter.SortStable` | src/main.rs:52 | For every size, the children of that size keep their input order: the sort is stable. |
| `TreeSorter.SortedBySubsequencesEqual` | src/main.rs:52 | Two descending sequences with the same subsequence for every size are equal. |
| `TreeSorter.StableSortUnique` | src/main.rs:52 | Any stable descending order of the children equals `SortBySize`. So the insertion sort gives the same result as the stable `sort_by`. |
| `TreeSorter.SortMapCommute` | src/main.rs:52-55 | Sorting by size commutes with any rewrite of the children that keeps their sizes. |
| `TreeSorter.InsertMapCommute` | src/main.rs:52 | One insertion step commutes with any rewrite of the nodes that keeps their sizes. |
| `TreeSorter.SortedTreeChildren` | src/main.rs:51-56 | After `sort_tree_by_size`, the node keeps its name, size and location. Its children are the sorted children, each sorted in turn, in order. |
| `TreeSorter.SortedTreeAllSorted` | src/main.rs:51-56 | After sorting, every node's children at every depth are non-increasing in size. |
| `TreeSorter.SortedTreePermutes` | src/main.rs:51-56 | A node's sorted children are a permutation of its children (each sorted inside), and equal sizes keep their input order. |
| `TreeSorter.SortedFlat` | src/main.rs:51-56 | On a tree whose children are all leaves, sorting only reorders the root's children, and the tree stays flat. |
| `TreeSorter.SortChildren` | src/main.rs:52 | The insertion-sort loop returns exactly `SortBySize` of the children. |
| `TreeSorter.SortTreeBySize` | src/main.rs:51-56 | `sort_tree_by_size` (sort, then recurse into each child) returns exactly the sorted tree `SortedTree`. |
| `TreeSorter.SortEachChild` | src/main.rs:53-55 | The recursion loop replaces each child by its sorted tree, in order. |
| `Inventory.RetainSorted` | src/main.rs:46 | Retaining a descending sequence of children leaves it descending. |
| `Inventory.FilterKeepsSorted` | src/main.rs:103-105 | Filtering a tree whose children are sorted at every node leaves them sorted at every node. |
| `Inventory.RetainOfSize` | src/main.rs:46 | For each size, `retain` keeps either all the children of that size or none. |
| `Inventory.RetainSortCommute` | src/main.rs:103-105 | Retaining the sorted children gives the same sequence as sorting the retained children. |
| `Inventory.ReportLevel` | src/main.rs:103-105 | One level of sort-then-filter: the children are the retained stable sort of the children, each sorted and then filtered. |
| `Inventory.FilterThenSortLevel` | src/main.rs:103-105 | One level of filter-then-sort: the children are the stable sort of the retained children, each filtered and then sorted. |
| `Inventory.SortFilterCommute` | src/main.rs:103-105 | On any tree, sorting then filtering (the order in `main`) gives the same tree as filtering then sorting. |
| `Inventory.SortFilterCommuteChildren` | src/main.rs:103-105 | Each child gives the same tree under either order, which is the induction step of `SortFilterCommute`. |
| `Inventory.ReportOfWalk` | src/main.rs:103-105 | The reported tree keeps the path as its name, no location, and the total walked size, which is the sum of all walked leaves before filtering. Its children are the walked leaves in stable descending order, restricted to those at or above the threshold. It is flat, sorted at every node, and at or above the threshold at every node. |
| `Inventory.Analyze` | src/main.rs:103-105 | `main`'s build, sort and filter, with threshold 1024 when none is given. Fails exactly when `BuildTree` fails. Otherwise it returns the sorted-then-filtered built tree, with the walked size, sorted and at or above the threshold everywhere. |

## Left out

- Command-line parsing with `clap` (src/main.rs:59-101) is not modelled: it is a foreign library. The process abort on a non-numeric `--depth` or `--size` is not modelled either. The threshold reaches `Analyze` as an optional natural number.
- The directory walk (`WalkDir`, src/main.rs:21) is an input sequence of items. Its sibling order, its convention of yielding the starting path first, and its `max_depth` bound are properties of that foreign walk, so the `depth` argument has no counterpart here.
- Reading metadata (src/main.rs:23) is a filesystem call. Its outcome, a length or a failure, is part of each walk item. A failure aborts the run, as the `unwrap` does.
- `to_string_lossy` (src/main.rs:27, 29) is OS string conversion. Names and paths are opaque strings taken from the walk item.
- The JSON report written by `save_to_json` and the console dump (src/main.rs:40-44, 107-111) are serialisation and I/O.
- Sizes are unbounded naturals. The `u64` overflow that `root.size += size` (src/main.rs:24) could reach is not modelled: no wrap-around and no overflow panic.
- Update in place: the node is an owned value (`&mut FileNode` over `Vec`s), so nothing can alias it. The in-place `retain`, `sort_by` and recursive loops are modelled as methods that return the updated node. The model does not show the buffer reuse.
- `sort_by` is Rust's standard stable sort, not an insertion sort. `StableSortUnique` shows that every stable descending sort gives the same order as the modelled insertion sort, so only the sorting algorithm itself is not modelled.
