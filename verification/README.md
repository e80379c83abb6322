# livegrep chunk indexing core, in Dafny

livegrep stores the indexed source code in *chunks*. A chunk is a byte buffer of
deduplicated lines, with two search structures built on top of it:

- a **suffix array** over the buffer, used for the regex search;
- a **list of range entries** (`chunk_file`). Each entry says that the bytes
  `[left, right)` of the buffer hold lines of the listed files.

This project models how `src/chunk.cc` builds these structures, and proves what
each step guarantees. It has four pieces.

1. **Range merger** (`add_chunk_file`, `finish_file`). For each line of the file
   being ingested, the line's span either joins the nearest working range, when
   that range is closer than the merge threshold, or starts a new range owned by
   that file. Committing the file sorts its working ranges, checks that no two of
   them touch or overlap, and appends them to the chunk's permanent list.
2. **Suffix array** (`finalize`, `radix_sorter::sort`). When indexing is on, the
   offsets `0 .. size-1` are sorted by the content of the suffix that starts at
   each offset. A proper prefix sorts first.
3. **Compression** (`finalize_files`). The permanent list is sorted. Each run of
   entries with identical bounds becomes one entry, which lists the run's first
   owners and then the first owner of every later duplicate.
4. **Interval tree** (both `build_tree` overloads). A balanced binary search
   tree is built over the compressed list by recursive midpoint splitting. Every
   node records the largest right bound in its subtree.

Modules:

- `Wrappers` (wrappers.dfy): `Option` and `Result`.
- `Ranges` (ranges.dfy): the range entry and its `(left, right)` order, the sort
  used on range lists, and the separation predicates.
- `Suffixes` (suffixes.dfy): lexicographic order on bytes, the suffix sort, and
  the suffix-array property.
- `Compress` (compress.dfy): merging runs of identical bounds.
- `IntervalTree` (interval_tree.dfy): the tree datatype and its build.
- `Chunks` (chunks.dfy): the chunk state and the operations of `chunk.cc`.
- `Ingest` (ingest.dfy): properties that span several calls, such as ingesting a
  whole file, plus worked examples.

Modelling choices:

- The source's fatal `assert`s become `Failure` results of a `ChunkError`:
  - `Overlap`: the check in `finish_file`;
  - `Unsorted`: the check at the start of `build_tree()`;
  - `Misordered`: the per-node checks of `build_tree(left, right)`.
  Lemmas state when each one cannot fire.
- The process-wide counter `chunk_files` is an explicit natural number, passed in
  and returned.
- The merge threshold `kMaxGap` and the indexing flag `FLAGS_index` are
  parameters.
- `chunk_file::expand` is `Ranges.Expand`: the bounds grow to the minimum left
  and the maximum right. `chunk_file::operator<` is `Ranges.Less`, the
  lexicographic order on `(left, right)`. Both are defined in `chunk.h`, which is
  not part of this model.
- A tree node refers to its entry by position in the list. The source stores a
  pointer into the list.

## Model

| member | source | states |
|---|---|---|
| Chunks.Dist | src/chunk.cc:29-35 | The distance is never negative. It is 0 or the span lies strictly to one side of the range (the check on line 35). For well-formed intervals it equals the gap between them, and it is 0 exactly when they overlap or touch. |
| Chunks.Nearest | src/chunk.cc:26-40 | There is no candidate exactly when the working list is empty. Otherwise the candidate is in the list, no range is nearer, and every earlier range is strictly farther, so the first minimum wins. |
| Chunks.AddChunkFile | src/chunk.cc:21-51 | Only the working list changes. If a nearest range lies closer than the threshold, it alone grows to `min`/`max` bounds and the counter is unchanged. Otherwise exactly one range `[l, r)` owned by the file is appended and the counter goes up by one. Either way the counter grows by the number of ranges added. |
| Chunks.AddChunkFileGrows | src/chunk.cc:41-50 | Recording a span keeps every old range covered, at its position and with its owners. Some range covers `[l, r)`, and well-formedness is kept. |
| Ranges.Expand | src/chunk.cc:41-43 | The grown range covers both the old range and the span. Each bound comes from one of them, and the owners are kept. |
| Chunks.GapCheck | src/chunk.cc:54-60 | The left-to-right scan with the running maximum right bound passes exactly when every range starts after the initial bound and each starts strictly after all earlier ones end. |
| Chunks.FinishFile | src/chunk.cc:53-63 | For well-formed working ranges, the commit succeeds exactly when no two ranges touch or overlap, and a failure is always `Overlap`. On success the permanent list keeps its prefix and grows by a sorted, strictly gapped block holding exactly the working ranges, and the working list is empty. |
| Chunks.SortedGapsIffSeparated | src/chunk.cc:55-60 | For well-formed ranges, the check on the sorted list passes exactly when the unsorted ranges are pairwise apart. |
| Ranges.SortFiles | src/chunk.cc:55 | The sorted list is ordered by `(left, right)` and is a permutation of the input. |
| Ranges.InsertSorted | src/chunk.cc:55 | Inserting into a sorted list keeps it sorted. |
| Ranges.SeparatedSort | src/chunk.cc:55-60 | Sorting neither creates nor removes touching or overlapping pairs. |
| Ranges.SortWellFormed | src/chunk.cc:55 | Sorting keeps every range well-formed, and only then. |
| Ranges.SortedSeparatedIsStrictGaps | src/chunk.cc:56-60 | On a sorted well-formed list, pairwise separation is the same as strict gaps between all earlier and later entries. |
| Ranges.SortSortedIsIdentity | src/chunk.cc:87 | Sorting an already sorted list returns it unchanged. |
| Suffixes.SortSuffixes | src/chunk.cc:67-75 | The result is a permutation of the input offsets, every offset stays inside the buffer, and each adjacent pair is ordered by suffix. |
| Suffixes.AdjacentSortedIsSorted | src/chunk.cc:72-73 | Ordering every adjacent pair by suffix orders every pair, which is what the debug check on line 73 tests. |
| Suffixes.LexLeqTotal | src/chunk.cc:67-70 | Any two byte strings are comparable under the suffix order. |
| Suffixes.LexLeqTransitive | src/chunk.cc:67-70 | The suffix order is transitive. |
| Suffixes.LexLeqAntisymmetric | src/chunk.cc:67-70 | Strings ordered both ways are equal. |
| Suffixes.LexLeqIsPrefixOrFirstDifference | src/chunk.cc:67-70 | `a` sorts at or before `b` exactly when `a` is a prefix of `b` or the first differing byte of `a` is smaller. |
| Suffixes.SuffixLeqAntisymmetric | src/chunk.cc:67-70 | Two distinct offsets of one buffer never compare equal, because their suffixes differ in length. |
| Suffixes.PermutationFacts | src/chunk.cc:79-80 | A permutation of `0 .. n-1` has length `n`, holds only offsets below `n`, and holds each one once. |
| Suffixes.SortedUnique | src/chunk.cc:67-75 | Two suffix-sorted orderings of the same offsets are equal. |
| Suffixes.SuffixArrayUnique | src/chunk.cc:77-84 | A buffer has exactly one suffix array. |
| Suffixes.AbcAbcSuffixArray | src/chunk.cc:77-84 | The suffix array of `abcabc` is `3, 0, 4, 1, 5, 2`. |
| Chunks.Finalize | src/chunk.cc:77-84 | With indexing on, only the suffix array changes, and it becomes the suffix array of the buffer. With indexing off, the chunk is unchanged. |
| Compress.RunLen | src/chunk.cc:94-99 | The inner loop never advances past the end of the list. |
| Compress.RunLenMaximal | src/chunk.cc:94-99 | The inner loop advances past exactly the entries with the current entry's bounds. It stops at the end or at the first entry with different bounds. |
| Compress.FirstRunIsGroup | src/chunk.cc:94-99 | In a sorted list, the entries that share the first entry's bounds are exactly the run the inner loop skips. |
| Compress.Absorb | src/chunk.cc:92-97 | The output entry keeps the bounds of the run's first entry and gains exactly one owner per later entry of the run. |
| Compress.AbsorbOwners | src/chunk.cc:92-97 | The output entry lists the first entry's owners unchanged, then the front owner of each later entry, in order. |
| Compress.DedupCons | src/chunk.cc:91-101 | One pass of the outer loop: the run at the front becomes one absorbed entry, and the walk goes on right after the run. The run and the remainder both keep owners on every entry. |
| Compress.Dedup | src/chunk.cc:89-102 | The compressed list is no longer than the input, and it starts with an entry bearing the input's first bounds. |
| Compress.DedupHasOwners | src/chunk.cc:92-99 | Every entry of the compressed list keeps at least one owner. |
| Compress.DedupKeepsKeys | src/chunk.cc:89-102 | Compression keeps exactly the set of distinct bounds. |
| Compress.DedupStrictlySorted | src/chunk.cc:87-102 | Compressing a sorted list gives a strictly sorted one, so no two entries share bounds. |
| Compress.DedupOwners | src/chunk.cc:92-99 | Each output entry's owners are the owners of the first entry with its bounds, followed by the front owner of every later entry with those bounds. |
| Compress.DedupSingleOwners | src/chunk.cc:92-99 | When every input entry has one owner, each output entry lists the owners of its run in order. |
| Compress.DedupIdempotent | src/chunk.cc:89-102 | On a strictly sorted list, compression is the identity. |
| Compress.GroupSortFiles | src/chunk.cc:87 | Sorting keeps the relative order of entries that share bounds. |
| Chunks.CompressFacts | src/chunk.cc:86-102 | Sort-then-compress yields a strictly sorted list with the input's bounds, each entry gathering the owners of its bounds in list order. |
| Chunks.FinalizeFiles | src/chunk.cc:86-104 | Compression always succeeds. Only the range list and the tree change. The list becomes strictly sorted, no longer than before, with the same distinct bounds and gathered owners. The tree holds each position once, in order, as a binary search tree with correct right limits. |
| Chunks.FinalizeFilesIdempotent | src/chunk.cc:86-104 | Compressing an already compressed chunk gives back the same range list. |
| Chunks.BuildTree | src/chunk.cc:106-109 | An unsorted list fails with `Unsorted`, and a strictly sorted list always succeeds. On success only the root changes. The tree holds positions `0 .. n-1` in order, is augmented, and passes the per-node child checks. |
| IntervalTree.ChildOrderOk | src/chunk.cc:125-126 | The two per-node asserts, at every node: a left child's entry orders strictly before its node's entry, and the node's entry strictly before its right child's. |
| Chunks.StrictlySortedPassesChecks | src/chunk.cc:125-126 | Over a strictly sorted list, none of the per-node ordering checks fails. |
| IntervalTree.Build | src/chunk.cc:111-113 | The tree is empty exactly when the slice is. |
| IntervalTree.Mid | src/chunk.cc:114 | The midpoint lies inside the slice, and it splits the rest so that the left part holds as many entries as the right part, or one more. |
| IntervalTree.BuildNode | src/chunk.cc:114-119 | The root of a non-empty slice `[lo, hi)` is the entry at `(lo + hi) / 2`. Its left subtree is built over `[lo, mid)` and its right subtree over `[mid + 1, hi)`. |
| IntervalTree.BuildInOrder | src/chunk.cc:111-119 | The tree over `[lo, hi)` holds the positions `lo .. hi-1`, each once and in increasing order. |
| IntervalTree.BuildInBounds | src/chunk.cc:111-119 | Every position held by the tree indexes the list. |
| IntervalTree.BuildAugmented | src/chunk.cc:120-124 | Every node's limit is the larger of its own right bound and its children's limits. |
| IntervalTree.IncreasingIsBst | src/chunk.cc:125-126 | A tree that lists its positions in increasing order, over a strictly sorted list, is a binary search tree by range. |
| IntervalTree.AugmentedIsTrueMax | src/chunk.cc:120-124 | The node-local limit is the true maximum right bound of the subtree: nothing in it ends later, and some entry ends exactly there. |
| IntervalTree.BuildRightLimitIsMax | src/chunk.cc:120-124 | The root's limit is the largest right bound in the slice. |
| IntervalTree.BuildIsBst | src/chunk.cc:125-126 | Over a strictly sorted list, every entry in a left subtree orders strictly before its node and every entry in a right subtree strictly after. |
| IntervalTree.BstChildOrderOk | src/chunk.cc:125-126 | Subtree-wide order implies the two checks made between each node and its children. |
| IntervalTree.BuildBalanced | src/chunk.cc:114-119 | The midpoint split makes every left subtree hold as many entries as its right sibling, or one more, and the tree holds `hi - lo` entries. |
| IntervalTree.BalancedHeight | src/chunk.cc:114-119 | A balanced tree over `n > 0` entries has height `h` with `2^(h-1) <= n < 2^h`. |
| IntervalTree.BuildHeight | src/chunk.cc:111-119 | The built tree has the least height that can hold its `hi - lo` entries. |
| Ingest.AddLines | src/chunk.cc:21-51 | Recording a file's lines calls `add_chunk_file` once per line, in order, and changes only the working list. |
| Ingest.AddChunkFileOwned | src/chunk.cc:45-50 | Recording a span keeps every working range owned by the file being ingested alone. |
| Ingest.AddChunkFileKeepsCovered | src/chunk.cc:41-50 | Recording a span keeps every earlier span covered and covers the new one. |
| Ingest.AddLinesCovers | src/chunk.cc:21-51 | After recording all of a file's lines, every line is covered and every earlier range survives at its position. At most one range is created per line, the counter went up by exactly the number of ranges created, and well-formedness and sole ownership are kept. |
| Ingest.IngestFile | src/chunk.cc:21-63 | If the commit succeeds, the committed block is sorted, strictly gapped and owned by the file alone, covers every line, and has as many entries as the counter grew. |
| Ingest.FirstLine | src/chunk.cc:45-50 | A file's first line always starts a new range and bumps the counter. |
| Ingest.ThresholdKeepsFarSpansApart | src/chunk.cc:41-50 | With threshold 5, spans 6 apart stay two ranges and create two entries. |
| Ingest.ThresholdMergesNearSpans | src/chunk.cc:41-44 | With threshold 5, spans 4 apart merge into one range and create one entry. |
| Ingest.BridgeJoinsFirst | src/chunk.cc:36-44 | A span at distance 0 from two ranges joins the earlier one. |
| Ingest.TouchingRangesFail | src/chunk.cc:58 | Ranges that touch fail the commit with `Overlap`. |
| Ingest.GrowthCanTouchNeighbour | src/chunk.cc:21-63 | Growing a range can make it touch a neighbour, and the commit then fails. |
| Ingest.CommitSingle | src/chunk.cc:53-63 | Committing a single working range appends it to the permanent list. |
| Ingest.SharedBoundsCompress | src/chunk.cc:86-102 | Two entries with identical bounds and owners `f1`, then `f2`, compress to one entry listing `f1, f2`. |
| Ingest.SharedRangeListsBothFiles | src/chunk.cc:21-102 | Two files placed on the same bytes commit one range each, and compression leaves one entry owned by both. |

## Left out

- test/bench.js: a benchmarking harness with timing, callbacks and console output; there is no logic in it to model.
- The MSD radix sort, `cmp_suffix` and `indexer` (`radix_sort.h`, `radix_sorter.h`) are not part of this model. `Suffixes.SortSuffixes` is an insertion sort. It is specified by the same sorted-permutation contract against an explicit suffix comparison.
- The `DEBUG_RADIX_SORT` check is not modelled as code. `Suffixes.AdjacentSortedIsSorted` proves the property it tests.
- re2 `StringPiece` pointer arithmetic: a line is given directly as its bounds `[l, r)` inside the buffer.
- Chunks.AddChunkFile: the source's `int` offsets `l` and `r` are unbounded integers here. They lie inside the buffer, so no wrap-around is modelled. The signed `int` counter `chunk_files` is a natural number; the model does not wrap it at 2^31.
- Suffixes.SortSuffixes: the source's `uint32_t` suffix entries are natural numbers. Each is an offset below the buffer size, so no wrap-around is modelled.
- Chunks.Finalize: the source's `int` loop index and `uint32_t` suffix entries are natural numbers; offsets stay below the buffer size.
- Chunks.Nearest: `min_dist` starts at `INT_MAX` in the source. The model uses "no candidate yet" instead. The two differ only for a distance of `INT_MAX` or more, which no in-buffer span reaches.
- Chunks.FinalizeFiles: `std::sort` is not stable. The model sorts stably, so the owner order within a run of identical bounds is the order in which the entries were committed. In the source that order is unspecified. The bounds and the strict order never depend on this. The set of owners of an output entry does not depend on it when every entry has a single owner, as every entry `FinishFile` commits does. For entries with several owners it can: only the first entry of a run contributes all its owners.
- Ranges.SortSortedIsIdentity: states that the model's stable sort returns an already sorted list unchanged. `std::sort` promises this only when no two entries share bounds, which is the strictly sorted case where the model uses it.
- Compress.GroupSortFiles: states the stability of the model's sort. `std::sort` does not promise stability.
- Chunks.FinishFile: in the source, a file's spans are whole newline-separated lines of the buffer. The `Overlap` failure depends on that layout, and the model does not capture it. The model accepts any spans, so the failure is reachable, as `Ingest.GrowthCanTouchNeighbour` shows.
- Allocation of tree nodes with `new` and their later destruction: the tree is an immutable datatype.
- The atomicity of the static `chunk_files` counter under concurrent ingestion: it is an explicit number threaded through the calls.
- File identities (`indexed_file*`) are opaque numbers. Nothing reads a file.
- The concrete values of `kMaxGap` and of the `index` flag: both are parameters.
