# WasabiOS in Dafny

WasabiOS is an operating system written in Rust. This project models its algorithmic cores in
Dafny and proves what they promise, for all inputs and over all runs:

| part | files | source |
|---|---|---|
| H2 histogram: bucketing, dense and sparse counters, downsampling, percentiles | `HistogramConfig.dfy`, `KeyedCounts.dfy`, `DenseHistogram.dfy`, `SparseHistogram.dfy` | `forked-libs/histogram` |
| memory ranges: a fixed-capacity set of `u64` ranges and its aligned allocator | `Ranges.dfy`, `RangeAllocation.dfy`, `RangeSet.dfy` | `libs/shared/src/rangeset.rs` |
| in-place quicksort and `StaticVec` splicing | `QuickSort.dfy`, `Splice.dfy`, `StaticVec.dfy` | `forked-libs/staticvec` |
| wasabi-fs block allocator, its on-device chain, strings over several blocks | `FreeLists.dfy`, `BlockAllocator.dfy`, `DeviceStrings.dfy` | `modules/wasabi-fs`, `libs/block-device` |
| wasabi-fs mount protocol on the header block | `Mount.dfy` | `modules/wasabi-fs/src/fs.rs` |
| wasabi-fs file tree: a B+ tree from file ids to files, and its copy-on-write flush | `TreeNodes.dfy`, `TreeInsert.dfy`, `TreeDelete.dfy`, `MemTree.dfy`, `TreeLimits.dfy`, `TreeFlush.dfy`, `TreePersist.dfy`, `TreeReach.dfy`, `TreeRuns.dfy` | `modules/wasabi-fs/src/mem_tree` |
| run-once futures and their cache | `FutureOnce.dfy`, `FutureCache.dfy` | `builder/src/sync.rs` |

`Machine.dfy` holds machine words, powers of two and bit masks, `Sequences.dfy` the two edits of a list. `dafny verify dfyconfig.toml`
checks everything.

## How the model reads the source

- Integers are unbounded, so a machine width is written out wherever it matters. Arithmetic that
  leaves its type, an index out of bounds and a failed `assert!`, `expect` or `unwrap` are outcomes
  of their own (`Panic`, `Panicked`, `Full`, `ok == false`). A `debug_assert!` stops nothing.
  `usize` has 64 bits, so the tests against `usize::MAX` in the range allocator never fire.
- State that the source changes in place is a class (`Histogram`, `RangeSet`, `StaticVec`,
  `StaticVecSplice`, `BlockAllocator`, `BlockIter`, `Device`, `MemTree`); loops are loops. Each
  method is tied to a function or set of its old state.
- `ScanUp`, `ScanDown`, `Swap` and `Partition` (quicksort), `CutAt` (range removal) and `WriteChain`
  (writing the free list) are stretches of one function in the source, cut out with contracts.
- Percentiles are thresholds on the cumulative count instead of fractions. A device is a map from
  block addresses to the structure last written there. Locks and the broadcast channel are atomic
  steps of a state machine, with any number of clients, joiners or callers.
- A tree node records where its parent pointer leads: to nothing, to the node that holds it, or to
  another node (`Stale`), which is what `assert_valid` tells apart.

## Where the source falls short of what it promises

In each case the model keeps the code as it is. A lemma, or a method that makes the calls, gives an
input on which the promise fails; another states for all inputs when it holds.

- `Config::new(31, 32)` is accepted and has no buckets (`NewTruncates`); the bucket count is right
  if and only if it fits a `u32` (`NewExact`).
- The value `2^n` passes the range check and gets an index one past the end (`LimitSlipsThrough`);
  a value has a bucket if and only if it is below `2^n` (`IndexInBoundsIff`).
- The comment on the sparse `wrapping_add` speaks of wrapping buckets, but the code uses a plain
  addition, which stops or wraps depending on the build. The model stops, exactly when a bucket
  overflows (`WrappingAdd`), for instance on `SumStops`.
- `RangeSet::allocate` gives up when the padded end of any entry overflows, even if an earlier entry
  has room (`OverflowRefuses`); its contract has the exact condition.
- `BlockAllocator::allocate` never delivers a count that is not a power of two
  (`ThreeBlocksNeverAllocated`); its contract has the exact condition.
- `free_group` forgets the freed blocks if nothing behind them is free and nothing free ends right
  before them, and does not merge with the group behind (`FreeGroupExact`, `FreeUndoesAllocate`,
  `WholeGroupIsLost`). Over every run the lost blocks are exactly those (`LostBlocks`).
- `BlockAllocator::write` frees the blocks of the stored list but does not record the new ones in
  memory: afterwards `self_on_disk` is empty, so the next `write` does not free them (`WriteTwice`,
  `SecondWriteLeaks`).
- Inserting into the file tree breaks it if and only if the leave for a new file and the node above
  it are both full (`InsertExact`): the child that was split keeps its old border in front of the new
  one. With a full root the call panics at one position and loses files at all others
  (`SplitTwiceLosesFiles`), so that a later call panics or answers wrongly (`UnsafeRunIsSeen`). A run
  behaves as a map if and only if no call meets this case (`TreeIsMap`). Fewer than 2510 files are
  always safe (`SmallRunsAreSafe`), and the ids 1, 2, 3 and so on break the tree at the 2511th
  (`AscendingOverflows`).
- Deleting breaks the file tree if and only if a node other than the root has to be rebalanced
  (`DeleteExact`, `TallRootCascades`). That takes a valid tree of three levels. No call makes one out
  of a valid tree of two (`ShallowStaysShallow`): an insertion that overflows does add a level, but
  breaks the tree.
- Flushing the file tree leaves the device with the tree in memory if and only if no clean node has a
  dirty child (`Flush`). A change in place marks the leave dirty and its ancestors only as having a
  dirty child, so below the root it is lost: memory is clean, and what is loaded from the device is the
  tree of before (`InsertAndFlush`, `DeleteAndFlush`, `SampleChangeIsLost`). On a stored tree of at most
  two levels, an `insert_new`, `update` or `delete` that changes the tree reaches the device if and only
  if the root is a leave, a leave is split, or a merge leaves one leave (`ChangeAndFlush`). A call that
  does reach it takes along everything that was lost before, over runs with flushes at any point
  (`Run`).
- When a file moves between two leaves below a clean root, or any two leaves have changed there, the
  second write can take the block that the first gave back, and the stored root then finds the second
  leave where the first should be (`FlushTwo`). This happens if and only if a block behind it is free,
  the block before it is not, and no single free block stands in front of it (`RecyclesExactly`,
  `RecycleExample`).
- A merge drops the addresses of both leaves, a promotion also that of the root, and a split of the
  root its old block; nothing frees them (`LeftBehind`, `ChangeAndFlush`).
- The `expect` on the wake-up message of `FutureOnce` can fail: if and only if nobody is waiting at
  that moment (`SendFailsIffNobodyWaits`, `SendCanFail`).

## Model

| member | source | states |
|---|---|---|
| `Machine.Log2` | forked-libs/histogram/src/config.rs:165 | the leading-zero count gives the exponent of the largest power of two not above the value |
| `Machine.DivCoarser` | forked-libs/histogram/src/config.rs:173-182 | dropping low bits first does not change what is left after dropping more of them |
| `Machine.MaskIsRemainder` | libs/shared/src/rangeset.rs:336 | masking with a power of two less one is the remainder by that power |
| `Machine.OneBitIsPow2` | libs/shared/src/rangeset.rs:316 | the one-bit test accepts exactly the powers of two |
| `HistogramConfig.NewExact` | forked-libs/histogram/src/config.rs:76-126 | a new configuration is refused exactly for powers out of order, each with its error; otherwise it has the bucket count of the scheme if and only if that count fits the `u32` fields |
| `HistogramConfig.NewTruncates` | forked-libs/histogram/src/config.rs:113-114 | a configuration that is accepted and has no buckets |
| `HistogramConfig.FitsFields` | forked-libs/histogram/src/config.rs:102-125 | what every field is, when the bucket count fits: the linear part ends at twice the divisions of an octave, and linear and logarithmic buckets add up |
| `HistogramConfig.LowerBoundMonotone` | forked-libs/histogram/src/config.rs:173-182 | bucket starts increase strictly with the index |
| `HistogramConfig.LowerBoundEnds` | forked-libs/histogram/src/config.rs:173-182 | the first bucket starts at 0, and one past the last would start at `2^n` |
| `HistogramConfig.IndexBrackets` | forked-libs/histogram/src/config.rs:156-182 | the start of the bucket of a value is not above it, the start of the next is |
| `HistogramConfig.IndexUnique` | forked-libs/histogram/src/config.rs:156-170 | a value gets the only index whose bucket contains it |
| `HistogramConfig.BucketRounds` | forked-libs/histogram/src/config.rs:156-182 | the bucket of a value starts at the value itself below `2^(g + 1)`, and between `2^p` and `2^(p + 1)` at the value with its `p - g` low bits cleared |
| `HistogramConfig.BucketsConsecutive` | forked-libs/histogram/src/config.rs:173-197 | every bucket ends right before the next one starts, the last at `max`, and no bound leaves `u64` |
| `HistogramConfig.IndexInBoundsIff` | forked-libs/histogram/src/config.rs:156-170 | a value gets an index of an existing bucket if and only if it is below `2^n`, and then lies within the bounds of the bucket; above `2^n` the answer is an error |
| `HistogramConfig.LimitSlipsThrough` | forked-libs/histogram/src/config.rs:161 | below 64 bits the value `2^n` is accepted and gets the index behind the last bucket |
| `HistogramConfig.IndexOfLowerBound` | forked-libs/histogram/src/config.rs:156-182 | the start of a bucket is put in that bucket |
| `HistogramConfig.RelativeError` | forked-libs/histogram/src/config.rs:24-71 | the width of a bucket is at most its start divided by two to the grouping power |
| `HistogramConfig.CoarserFits` | forked-libs/histogram/src/config.rs:76-126 | lowering the grouping power of a configuration that fits gives one that fits |
| `HistogramConfig.IndexMonotone` | forked-libs/histogram/src/config.rs:156-170 | larger values have no smaller index |
| `HistogramConfig.CoarseningIsWellDefined` | forked-libs/histogram/src/config.rs:156-182 | a value and the start of its fine bucket share a coarse bucket: no fine bucket is split |
| `KeyedCounts.TallyOfTallies` | forked-libs/histogram/src/standard.rs:159-174 | summing per bucket and then regrouping the buckets is summing per group |
| `DenseHistogram.IndexOf` | forked-libs/histogram/src/config.rs:156-170 | the in-bounds index of a value below `2^n` |
| `DenseHistogram.ImageOf` | forked-libs/histogram/src/standard.rs:159-174 | the coarse bucket of the start of a fine bucket exists |
| `DenseHistogram.Histogram.constructor` | forked-libs/histogram/src/standard.rs:25-33 | all counters start at zero, one per bucket |
| `DenseHistogram.Histogram.Add` | forked-libs/histogram/src/standard.rs:58-62 | succeeds exactly below `2^n` and then adds to one counter, wrapping; `2^n` is out of bounds; otherwise nothing changes |
| `DenseHistogram.Histogram.Downsample` | forked-libs/histogram/src/standard.rs:159-174 | succeeds exactly for a smaller grouping power; every coarse counter is the wrapped sum of the fine counters it covers |
| `DenseHistogram.Histogram.CheckedAdd` | forked-libs/histogram/src/standard.rs:181-193 | succeeds exactly when configurations agree and no counter overflows, and then adds counter by counter |
| `DenseHistogram.Histogram.CheckedSub` | forked-libs/histogram/src/standard.rs:218-230 | succeeds exactly when configurations agree and no counter underflows, and then subtracts counter by counter |
| `DenseHistogram.BucketBounds` | forked-libs/histogram/src/config.rs:156-202 | the bounds computed for a bucket contain exactly the values whose index it is, and those of the last bucket end at the maximum |
| `DenseHistogram.Histogram.Percentiles` | forked-libs/histogram/src/standard.rs:80-135 | one pass answers every threshold of an ascending list with the first bucket whose cumulative count reaches it, given by its counter and a range that contains exactly the values counted there; no answer exactly for an empty histogram |
| `DenseHistogram.AddAllIsRecorded` | forked-libs/histogram/src/standard.rs:58-62 | any run of `add` calls leaves, in every bucket, the wrapped sum of the counts of its values |
| `DenseHistogram.DownsampleOfRecorded` | forked-libs/histogram/src/standard.rs:58-174 | downsampling the counters of finely recorded values gives those of coarsely recorded ones, for any values |
| `DenseHistogram.Record` | forked-libs/histogram/src/standard.rs:58-62 | a loop of `add` calls ends with the wrapped sum of the counts of its values in every bucket |
| `DenseHistogram.RecordBothWays` | forked-libs/histogram/src/standard.rs:58-174 | recording and downsampling, as calls, ends with the same counters as recording coarsely |
| `SparseHistogram.PushBucket` | forked-libs/histogram/src/sparse.rs:43-48 | appending a bucket behind all others keeps the columns canonical and adds to one counter |
| `SparseHistogram.CanonicalUnique` | forked-libs/histogram/src/sparse.rs:13-22 | two canonical sparse histograms with equal counters are equal column by column |
| `SparseHistogram.WrappingAdd` | forked-libs/histogram/src/sparse.rs:56-94 | the merge is addition counter by counter in canonical form; it stops exactly when a counter overflows |
| `SparseHistogram.CheckedSub` | forked-libs/histogram/src/sparse.rs:104-145 | succeeds exactly when no counter of the subtrahend is larger, gives the canonical difference, and each error names its own kind of bucket |
| `SparseHistogram.SubtractAndAddBack` | forked-libs/histogram/src/sparse.rs:56-145 | subtracting and adding back, as calls, restores the histogram entry for entry, exactly when the subtraction succeeds |
| `SparseHistogram.FromDense` | forked-libs/histogram/src/sparse.rs:299-317 | the sparse form is canonical and has the counters of the dense one |
| `SparseHistogram.ToDense` | forked-libs/histogram/src/standard.rs:293-303 | the dense form has the counters of the sparse one |
| `SparseHistogram.SubsetAgrees` | forked-libs/histogram/src/sparse.rs:104-145 | sparse subtraction is possible exactly when dense subtraction is |
| `SparseHistogram.ImageMonotone` | forked-libs/histogram/src/sparse.rs:218-256 | coarsening keeps the order of buckets, on which the one-pass aggregation rests |
| `SparseHistogram.Downsample` | forked-libs/histogram/src/sparse.rs:218-256 | one pass with a single open bucket gives the canonical coarse sums; it stops exactly when one of them overflows |
| `SparseHistogram.SparseDownsampleRefinesDense` | forked-libs/histogram/src/sparse.rs:218-317 | downsampling the sparse form equals the sparse form of the downsampled dense counters |
| `SparseHistogram.DownsampleBothWays` | forked-libs/histogram/src/sparse.rs:218-317 | converting and downsampling in either order, as calls, gives the same sparse histogram unless a coarse bucket overflows |
| `SparseHistogram.SumStops` | forked-libs/histogram/src/sparse.rs:56-94 | two canonical histograms of one configuration whose first counters do not add up in 64 bits, on which the addition stops |
| `SparseHistogram.Percentiles` | forked-libs/histogram/src/sparse.rs:153-199 | the scan over stored buckets gives the dense answer, counters and ranges included, with threshold 0 read as 1; it stops exactly when the total overflows |
| `Ranges.SaturationIsExact` | libs/shared/src/rangeset.rs:136-146 | with saturating ends the overlap test recognises exactly the overlapping or adjacent ranges, also at both ends of `u64` |
| `Ranges.CanonicalUnique` | libs/shared/src/rangeset.rs:106-174 | two lists of non-touching ranges for the same set have the same entries |
| `Ranges.FoldOne` | libs/shared/src/rangeset.rs:128-161 | merging a touching entry into the inserted range keeps the union and the entries left alone |
| `Ranges.CutTrim` | libs/shared/src/rangeset.rs:246-255 | trimming an entry removes exactly the range from it and lowers the number of overlapping entries |
| `Ranges.CutSplit` | libs/shared/src/rangeset.rs:256-272 | splitting an entry removes exactly the range from it and lowers the number of overlapping entries |
| `RangeAllocation.AlignFixExact` | libs/shared/src/rangeset.rs:336 | the mask arithmetic is the distance to the next aligned address |
| `RangeAllocation.AlignFixLeast` | libs/shared/src/rangeset.rs:336 | no aligned address is closer |
| `RangeAllocation.FitsExactly` | libs/shared/src/rangeset.rs:338-353 | the room test holds exactly when the entry contains an aligned block of the size |
| `RangeAllocation.AlignOverlapExact` | libs/shared/src/rangeset.rs:361 | the wrapping round-up is the next aligned address, or falls below the start exactly when there is none in 64 bits |
| `RangeAllocation.RegionFitExact` | libs/shared/src/rangeset.rs:357-389 | a region yields an address exactly when an aligned block lies in both the entry and the region, and it is the lowest one |
| `RangeAllocation.OverflowIsNoBlock` | libs/shared/src/rangeset.rs:338-345 | an entry overflows exactly when no aligned block of the size behind its start ends within 64 bits |
| `RangeAllocation.FindAllocation` | libs/shared/src/rangeset.rs:304-403 | no choice exactly for a bad size or alignment, an entry that overflows before any region matches, or if nothing matches or fits; otherwise the first entry that matches a region, with the first region it matches, or, without a match, the first of the entries with least padding |
| `RangeAllocation.NoRoomIsNoBlock` | libs/shared/src/rangeset.rs:294-353 | no entry passes the room test exactly when no entry contains an aligned block of the size |
| `RangeSets.RangeSet.constructor` | libs/shared/src/rangeset.rs:77-83 | a new set is empty |
| `RangeSets.RangeSet.Delete` | libs/shared/src/rangeset.rs:106-116 | the entry disappears and the others keep their order |
| `RangeSets.RangeSet.Insert` | libs/shared/src/rangeset.rs:123-174 | set union in canonical form; fails exactly for an inverted range or when the merged entries do not fit |
| `RangeSets.RangeSet.Remove` | libs/shared/src/rangeset.rs:221-277 | set difference in canonical form; fails exactly for an inverted range or a split with all entries in use; terminates by the number of overlapping entries |
| `RangeSets.RangeSet.Subtract` | libs/shared/src/rangeset.rs:280-284 | set difference with a whole set; fails exactly when one of the cuts, made in turn, splits an entry while all are in use |
| `Ranges.WithoutExact` | libs/shared/src/rangeset.rs:221-277 | what is left of the entries when a range is cut out of each is the canonical form of the set difference |
| `RangeSets.RangeSet.Sum` | libs/shared/src/rangeset.rs:287-291 | the number of elements, and none exactly when the set is all of `u64`; no addition overflows |
| `RangeSets.RangeSet.AllocatePrefer` | libs/shared/src/rangeset.rs:304-412 | the choice of the search leaves the set: exactly one interval that was in it and ends with the aligned block; forced regions contain it without padding; a panic exactly when cutting it out splits an entry of a full set |
| `RangeSets.RangeSet.Allocate` | libs/shared/src/rangeset.rs:294-297 | fails exactly for size 0, a bad alignment, an overflowing entry or no room; otherwise takes the front of the first of the entries with least padding |
| `RangeSets.OverflowRefuses` | libs/shared/src/rangeset.rs:341 | a set with an aligned block of the size and another entry that overflows, on which `allocate` refuses |
| `RangeSets.AllocateBlock` | libs/shared/src/rangeset.rs:304-412 | a call of `allocate_prefer` hands out a block disjoint from all blocks handed out before and no longer free; a panic needs all entries in use |
| `RangeSets.FreeBlock` | libs/shared/src/rangeset.rs:123-174 | a call of `insert` with a block handed out makes it free and no longer handed out; fails exactly when the merged entries do not fit |
| `RangeSets.RunKeepsBlocksDisjoint` | libs/shared/src/rangeset.rs:123-412 | in every state of a run of such steps the blocks handed out are disjoint from each other and from the free set |
| `RangeSets.RunCalls` | libs/shared/src/rangeset.rs:123-412 | any sequence of these calls on any set makes such a run, in which each call answers as it should for the entries it finds: a block is the one the search chooses, a refusal comes exactly when the search gives up, a block given back is free; it ends early only with all entries in use |
| `QuickSort.ScanUp` | forked-libs/staticvec/src/utils.rs:199-201 | the scan without a bounds check stops at the first element that is not smaller, within bounds |
| `QuickSort.ScanDown` | forked-libs/staticvec/src/utils.rs:202-204 | the same from above |
| `QuickSort.PartingStep` | forked-libs/staticvec/src/utils.rs:194-218 | after every exchange elements remain on both sides that stop the next scans |
| `QuickSort.Partition` | forked-libs/staticvec/src/utils.rs:194-219 | a rearrangement with nothing above the pivot on the left, nothing below it on the right, and both sides shorter |
| `QuickSort.QuickSortInternal` | forked-libs/staticvec/src/utils.rs:184-234 | for any irreflexive comparison it stays in bounds, terminates and permutes the window only; for a strict weak order the window is sorted; two to the nesting depth is at most twice the length |
| `Splice.ShapeNext` | forked-libs/staticvec/src/iterators.rs:819-840 | taking from the front yields the next item of the range and places one replacement, or closes the gap |
| `Splice.ShapeNextBack` | forked-libs/staticvec/src/iterators.rs:862-884 | the same at the back |
| `Splice.DrainShape` | forked-libs/staticvec/src/iterators.rs:960-961 | dropping removes exactly the items not yet yielded |
| `Splice.FillShape` | forked-libs/staticvec/src/iterators.rs:962-980 | dropping then places replacements until they run out or the vector is full |
| `Splice.SpliceMeaning` | forked-libs/staticvec/src/iterators.rs:819-980 | for every interleaving of both ends, the final vector and the old range as the items yielded and dropped, in order; how many items each end yields and how many replacements go in at the back |
| `Splice.SpliceReplaces` | forked-libs/staticvec/src/iterators.rs:819-980 | if the result fits, the vector ends as prefix, replacement, suffix, however it was consumed |
| `Splice.SpliceTruncates` | forked-libs/staticvec/src/iterators.rs:819-980 | consumed from the front, a replacement that does not fit is cut to the longest prefix that does |
| `StaticVecs.BoundsAreRight` | forked-libs/staticvec/src/lib.rs:2059-2072 | the start and end computed from the bounds cut out exactly the positions that satisfy both, and the assertion passes exactly when the bounds describe a range of the vector |
| `StaticVecs.StaticVec.RemoveUnchecked` | forked-libs/staticvec/src/lib.rs:927-938 | the element is returned and the gap closed |
| `StaticVecs.StaticVec.Insert` | forked-libs/staticvec/src/lib.rs:1051-1063 | inserts exactly when there is room and the index is within the length, otherwise changes nothing |
| `StaticVecs.StaticVec.QuicksortUnstable` | forked-libs/staticvec/src/lib.rs:1407-1419 | the elements in use are sorted and permuted, the spare capacity is untouched |
| `StaticVecs.StaticVec.Splice` | forked-libs/staticvec/src/lib.rs:2053-2079 | an iterator exactly for bounds that describe a range of the vector, at the start of the splice job on exactly the positions that satisfy both bounds |
| `StaticVecs.StaticVecSplice.Next` | forked-libs/staticvec/src/iterators.rs:819-840 | the in-place step is the step of the specification |
| `StaticVecs.StaticVecSplice.NextBack` | forked-libs/staticvec/src/iterators.rs:862-884 | the in-place step is the step of the specification |
| `StaticVecs.StaticVecSplice.Drop` | forked-libs/staticvec/src/iterators.rs:960-980 | the vector ends drained and filled as specified |
| `StaticVecs.SpliceAndDrop` | forked-libs/staticvec/src/iterators.rs:819-980 | the splice, any sequence of `next` and `next_back`, and the drop, as calls: the range is the positions within both bounds; the final vector, and the old range as the items yielded and dropped; a replacement that fits takes its place as a whole |
| `FreeLists.NeighboursSuffice` | modules/wasabi-fs/src/block_allocator.rs:374-388 | comparing neighbours establishes sorted groups with gaps throughout |
| `FreeLists.MarkUsedExact` | modules/wasabi-fs/src/block_allocator.rs:196-238 | taking one block out of a group keeps the list consistent and removes that block only |
| `FreeLists.AllocateGroupExact` | modules/wasabi-fs/src/block_allocator.rs:244-284 | the group taken was free, is free no longer, nothing else changes, and the list does not grow |
| `FreeLists.FreeGroupExact` | modules/wasabi-fs/src/block_allocator.rs:332-353 | the freed blocks come back if and only if the loop stops at some group; the list stays consistent if and only if no group starts right behind them |
| `FreeLists.FreeUndoesAllocate` | modules/wasabi-fs/src/block_allocator.rs:244-353 | freeing what was just allocated restores the free set if and only if some block behind it was free |
| `FreeLists.WholeGroupIsLost` | modules/wasabi-fs/src/block_allocator.rs:332-353 | a device of five blocks, allocated whole and freed, has no free block |
| `FreeLists.UsageStepKeepsInv` | modules/wasabi-fs/src/block_allocator.rs:196-324 | one allocation keeps free and handed-out blocks a partition |
| `FreeLists.BlocksAreConserved` | modules/wasabi-fs/src/block_allocator.rs:42-324 | over every run from an empty device, free and handed-out blocks partition the device and no block is handed out twice |
| `FreeLists.BooksStepExact` | modules/wasabi-fs/src/block_allocator.rs:196-353 | marking, allocating and freeing keep free and used blocks apart, and only a free at which the loop stops nowhere loses blocks |
| `FreeLists.LostBlocks` | modules/wasabi-fs/src/block_allocator.rs:42-353 | over every run with frees of any blocks in use, the blocks that are neither free nor used are exactly those of such frees |
| `BlockAllocators.BlockIter.constructor` | modules/wasabi-fs/src/block_allocator.rs:426-432 | the iterator starts with all blocks of all groups to come |
| `BlockAllocators.BlockIter.Next` | modules/wasabi-fs/src/block_allocator.rs:445-463 | yields the blocks of the groups one by one, in order, and then nothing |
| `BlockAllocators.BlockAllocator.Empty` | modules/wasabi-fs/src/block_allocator.rs:42-61 | every block below the limit is free except the ones in use |
| `BlockAllocators.BlockAllocator.MarkUsed` | modules/wasabi-fs/src/block_allocator.rs:196-238 | succeeds exactly for a free block, which it removes |
| `BlockAllocators.BlockAllocator.AllocateGroup` | modules/wasabi-fs/src/block_allocator.rs:244-284 | succeeds exactly when a group is large enough and takes the front of the first smallest such group |
| `BlockAllocators.BlockAllocator.Allocate` | modules/wasabi-fs/src/block_allocator.rs:290-324 | succeeds exactly for a power of two that fits one group; a failure changes nothing |
| `BlockAllocators.BlockAllocator.Free` | modules/wasabi-fs/src/block_allocator.rs:326-330 | frees group after group |
| `BlockAllocators.BlockAllocator.FreeGroup` | modules/wasabi-fs/src/block_allocator.rs:332-353 | the loop has the effect of the specification on the list |
| `BlockAllocators.BlockAllocator.Write` | modules/wasabi-fs/src/block_allocator.rs:68-161 | succeeds exactly when the chain length is a power of two that fits one group; then the chain is on formerly free blocks, reads back as the free list, and no other block changes; a failure changes nothing |
| `BlockAllocators.BlockAllocator.Load` | modules/wasabi-fs/src/block_allocator.rs:163-194 | never ends exactly when no chain from the pointer does; otherwise rebuilds the groups stored along the chain and remembers its blocks, and fails exactly at an unreadable block |
| `BlockAllocators.WriteChain` | modules/wasabi-fs/src/block_allocator.rs:124-156 | every chunk of the list is on its block with a pointer to the next, and no other block is touched |
| `BlockAllocators.WalkDistinct` | modules/wasabi-fs/src/block_allocator.rs:163-194 | a chain that ends never visits a block twice |
| `BlockAllocators.ChainRoundTrip` | modules/wasabi-fs/src/block_allocator.rs:68-194 | walking the written chain ends and collects the free list that was written |
| `BlockAllocators.FirstPassSuffices` | modules/wasabi-fs/src/block_allocator.rs:83-122 | the blocks of the first try always suffice, because allocating never adds free groups; the retry loop of `Write` ends by it |
| `BlockAllocators.ChainLengthIsLeast` | modules/wasabi-fs/src/block_allocator.rs:83-87 | the chain has the fewest blocks that hold the list, and one for an empty list |
| `BlockAllocators.FreeSingles` | modules/wasabi-fs/src/block_allocator.rs:68-82 | freeing the old chain keeps the list sorted and frees no block outside it |
| `BlockAllocators.ThreeBlocksNeverAllocated` | modules/wasabi-fs/src/block_allocator.rs:304-316 | three blocks are refused on an empty device of a hundred |
| `BlockAllocators.WriteThenLoad` | modules/wasabi-fs/src/block_allocator.rs:68-194 | `write` and then `load`, as calls, give back the same free list, with the chain it is stored on as its own blocks, which were free and no longer are |
| `BlockAllocators.WriteTwice` | modules/wasabi-fs/src/block_allocator.rs:68-161 | after two writes in a row the blocks of the first, which were free, still hold its chain and are neither free, nor in the stored chain, nor recorded |
| `BlockAllocators.SecondWriteLeaks` | modules/wasabi-fs/src/block_allocator.rs:68-161 | a fresh allocator over ten blocks, both writes of which succeed, and which loses a block that way |
| `DeviceStrings.WriteStringParts` | modules/wasabi-fs/src/fs.rs:936-967 | the bytes are on the given blocks part by part, every block is used, and no other block is touched |
| `DeviceStrings.ReadString` | modules/wasabi-fs/src/fs.rs:740-777 | the reading loop answers, on any device contents, with the first `length` bytes of the head and the parts that follow it, with a malformed length if the chain ends before, and with a read error if it meets a block that is no part |
| `DeviceStrings.ReadAllExact` | modules/wasabi-fs/src/fs.rs:740-777 | so does the recursive reading that the round trip is stated with |
| `DeviceStrings.ReadWrittenParts` | modules/wasabi-fs/src/fs.rs:740-967 | from any part on, reading gives back the rest of the bytes |
| `DeviceStrings.StringRoundTrip` | modules/wasabi-fs/src/fs.rs:740-1056 | a string laid out over head and parts reads back as itself |
| `DeviceStrings.HeadBesideParts` | modules/wasabi-fs/src/fs.rs:1014-1056 | writing the head last does not disturb the parts |
| `DeviceStrings.WriteString` | modules/wasabi-fs/src/fs.rs:1014-1056 | fails exactly when the blocks cannot be allocated or the length exceeds `u32`; otherwise reading gives the string back and only formerly free blocks are modified |
| `Mount.StepKeepsInv` | modules/wasabi-fs/src/fs.rs:279-726 | every atomic step of every client keeps the mount invariant |
| `Mount.RunKeepsInv` | modules/wasabi-fs/src/fs.rs:279-726 | the invariant holds in every state of every run |
| `Mount.AtMostOneMounted` | modules/wasabi-fs/src/fs.rs:542-668 | never two clients mounted, and the header says that one is |
| `Mount.OpenSeesLastFlush` | modules/wasabi-fs/src/fs.rs:583-668 | a successful open holds root, free list and next file id of the last completed flush |
| `Mount.FlushStores` | modules/wasabi-fs/src/fs.rs:292-331 | a flush that begins with a root and a free list ends with both headers holding exactly these and the next file id of the client, whatever other clients do in between |
| `Mount.OpenHoldsFlush` | modules/wasabi-fs/src/fs.rs:583-668 | the next successful open holds the root and the free list of that flush and goes on with its file ids |
| `Mount.IdentityStays` | modules/wasabi-fs/src/fs.rs:684-711 | no run changes the identity, the name or the place of the backup |
| `Mount.AnyoneCanOpen` | modules/wasabi-fs/src/fs.rs:542-668 | in every run that has left the device unmounted, a client that opens it undisturbed gets it |
| `Mount.FileIdsDistinct` | modules/wasabi-fs/src/fs.rs:930-934 | file ids are never handed out twice, across all mounts |
| `Mount.FileIdsInOrder` | modules/wasabi-fs/src/fs.rs:930-934 | they are handed out in order and without a gap, across all mounts |
| `Mount.HeadersMatchOutsideFlush` | modules/wasabi-fs/src/fs_structs.rs:344-353 | unless a flush is between its two header writes, the backup agrees with the header in everything but the transient part, which it has not, and the back pointer |
| `Mount.CloseSucceeds` | modules/wasabi-fs/src/fs.rs:345-394 | the compare-exchange of `close` finds what was read, and leaves the device unmounted with the last flush |
| `Mount.ChangedAndChangedBack` | modules/wasabi-fs/src/fs.rs:583-668 | a run in which the header changes and changes back before the compare-exchange of an opening client |
| `TreeNodes.ChildIndexIs` | modules/wasabi-fs/src/mem_tree/mod.rs:233-251 | the search goes to the child whose range contains the id, and never past the last child |
| `TreeNodes.FindExact` | modules/wasabi-fs/src/mem_tree/mod.rs:193-294 | the search finds a file if and only if the tree holds it |
| `TreeNodes.SoundIsHalfFull` | modules/wasabi-fs/src/mem_tree/mod.rs:1373-1475 | a tree that passes `assert_valid` has ten files in every leave and 125 children in every node below the root, or more |
| `TreeInsert.TreeSound` | modules/wasabi-fs/src/mem_tree/mod.rs:1399-1450 | a search tree of one height passes `assert_valid` |
| `TreeInsert.SplitLeaveExact` | modules/wasabi-fs/src/mem_tree/mod.rs:364-396 | splitting a full leave gives two half-full leaves with the files in order and the border between them |
| `TreeInsert.SplitSizes` | modules/wasabi-fs/src/mem_tree/mod.rs:364-383 | the first half gets the new file if and only if the file behind it has a larger id, and each half reports its last id |
| `TreeInsert.SplitBorders` | modules/wasabi-fs/src/mem_tree/mod.rs:403-444 | below a node with room the halves become neighbours bordered by their last ids, except that the last child stays open; no other child changes |
| `TreeInsert.InsertSplitExact` | modules/wasabi-fs/src/mem_tree/mod.rs:403-452 | with room for a child, a split below becomes two neighbouring children with correct borders |
| `TreeInsert.InsertIntoExact` | modules/wasabi-fs/src/mem_tree/mod.rs:314-452 | unless two levels have to split, an insertion below any node keeps the order and balance and adds the file only |
| `TreeInsert.FullSplitBreaks` | modules/wasabi-fs/src/mem_tree/mod.rs:454-488 | splitting a full node panics in the middle and elsewhere leaves the old border of the split child in front of one that is not larger |
| `TreeInsert.InsertIntoBreaks` | modules/wasabi-fs/src/mem_tree/mod.rs:454-488 | if two levels have to split, the result panics or has borders out of order, at any depth |
| `TreeInsert.InsertExact` | modules/wasabi-fs/src/mem_tree/mod.rs:297-573 | `insert` keeps the tree valid and replaces or adds exactly one file unless two levels have to split, and then panics or leaves borders out of order; an existing file is refused on request |
| `TreeDelete.RebalanceLeaveExact` | modules/wasabi-fs/src/mem_tree/mod.rs:621-729 | below the root, or a node with children to spare, moving a file or merging two leaves removes the file only and keeps order and balance; no assertion fails; a file comes from the right neighbour if that has more than ten, else from the left one if that has, else the leave is merged with its left neighbour, or its right one if it is the first; the border moves along, no other child changes |
| `TreeDelete.DeleteFromExact` | modules/wasabi-fs/src/mem_tree/mod.rs:575-729 | unless a node other than the root has to be rebalanced, a deletion removes the file only and keeps order and balance |
| `TreeDelete.RebalanceNodeBreaks` | modules/wasabi-fs/src/mem_tree/mod.rs:797-921 | rebalancing a node panics, or ends a node with a border (taking from the right), or leaves one open in the middle (merging), or leaves a child with the pointer to its old parent (taking from the left) |
| `TreeDelete.DeleteFromBreaks` | modules/wasabi-fs/src/mem_tree/mod.rs:734-921 | if a node other than the root has to be rebalanced, the result panics or fails `assert_valid`, at any depth |
| `TreeDelete.DeleteExact` | modules/wasabi-fs/src/mem_tree/mod.rs:575-795 | `delete` returns and removes exactly the file and keeps the tree valid, if and only if no node other than the root has to be rebalanced; a missing file is reported |
| `MemTrees.MemTree.Empty` | modules/wasabi-fs/src/mem_tree/mod.rs:118-135 | a new tree is valid and holds nothing |
| `MemTrees.MemTree.FindLeave` | modules/wasabi-fs/src/mem_tree/mod.rs:193-260 | the walk down reaches the leave of the recursive search |
| `MemTrees.MemTree.Find` | modules/wasabi-fs/src/mem_tree/mod.rs:281-294 | returns the file with the id if the tree holds one, and none exactly if it holds none |
| `MemTrees.MemTree.Insert` | modules/wasabi-fs/src/mem_tree/mod.rs:314-397 | the new root is right, refused or broken exactly under the conditions of `InsertExact` |
| `MemTrees.MemTree.Delete` | modules/wasabi-fs/src/mem_tree/mod.rs:575-616 | the new root is right, unchanged or broken exactly under the conditions of `DeleteExact` |
| `MemTrees.SplitsTwiceCount` | modules/wasabi-fs/src/mem_tree/mod.rs:443-454 | before two levels have to split there are at least 2510 different files |
| `MemTrees.ShallowNeverCascades` | modules/wasabi-fs/src/mem_tree/mod.rs:734-795 | with at most two levels no node but the root is rebalanced |
| `MemTrees.ShallowStaysShallow` | modules/wasabi-fs/src/mem_tree/mod.rs:314-573 | no call takes a valid tree of at most two levels to a taller one with borders in order |
| `MemTrees.StepRefinesMap` | modules/wasabi-fs/src/mem_tree/mod.rs:297-616 | one call that does not overflow changes the tree and answers as a map from ids to files does |
| `MemTrees.OverflowBreaks` | modules/wasabi-fs/src/mem_tree/mod.rs:454-573 | one that does panics or leaves borders out of order |
| `MemTrees.TreeIsMap` | modules/wasabi-fs/src/mem_tree/mod.rs:118-795 | from the empty tree, a run of `insert_new`, `update` and `delete` stays free of panics and wrong borders if and only if no call overflows the tree it is made on, and then answers as a map does |
| `MemTrees.SmallRunsAreSafe` | modules/wasabi-fs/src/mem_tree/mod.rs:314-397 | with fewer than 2510 files before each call no call overflows |
| `TreeLimits.SplitTwiceLosesFiles` | modules/wasabi-fs/src/mem_tree/mod.rs:454-573 | with a full leave below a full root, `insert` panics exactly at the middle child and otherwise loses an old file |
| `TreeLimits.UnsafeRunIsSeen` | modules/wasabi-fs/src/mem_tree/mod.rs:281-616 | if a run overflows, then after some of its calls one more call panics or answers otherwise than a map |
| `TreeLimits.GrowsByOne` | modules/wasabi-fs/src/mem_tree/mod.rs:314-452 | inserting ids in ascending order leaves half-full leaves behind, up to 2510 files |
| `TreeLimits.AscendingOverflows` | modules/wasabi-fs/src/mem_tree/mod.rs:443-488 | inserting the ids 1, 2, 3 and so on overflows at the 2511th |
| `TreeLimits.FullRootSplitsTwice` | modules/wasabi-fs/src/mem_tree/mod.rs:454-488 | a valid tree with a full leave below a full root |
| `TreeLimits.TallRootCascades` | modules/wasabi-fs/src/mem_tree/mod.rs:938-946 | a valid tree of three levels on which `delete` panics |
| `TreeFlush.MovesCompose` | modules/wasabi-fs/src/mem_tree/mod.rs:1619-1624 | flushing one subtree after another touches only their blocks and free blocks, and never hands the same block to both |
| `TreeFlush.SaveMoves` | modules/wasabi-fs/src/mem_tree/mod.rs:1633-1638 | a node that is written gets another block than before, which was free; its old block may be free afterwards |
| `TreeFlush.Save` | modules/wasabi-fs/src/mem_tree/mod.rs:1633-1676 | fails exactly when no block is free and then changes nothing; otherwise the node is on its new block, no other block changes, and at most one free block is used up |
| `TreeFlush.Flush` | modules/wasabi-fs/src/mem_tree/mod.rs:1595-1681 | keeps the contents, gives dirty nodes a new block, touches no block in use outside the tree, and leaves the device mirroring the tree if and only if no clean node had a dirty child; succeeds with a free block for every dirty node, never with none and something to write, and in between exactly when the allocator has a block at each write |
| `TreeFlush.FewDirty` | modules/wasabi-fs/src/mem_tree/mod.rs:1612-1681 | a flush of a clean tree changes nothing, and one of a tree with a single dirty node changes no block in use |
| `TreeFlush.MirrorsReload` | modules/wasabi-fs/src/mem_tree/mod.rs:1492-1529 | loading a mirrored tree again gives the same contents |
| `TreeFlush.LoadedIsClean` | modules/wasabi-fs/src/mem_tree/mod.rs:1274-1315 | flushing what has just been loaded does nothing |
| `TreePersist.InsertTouches` | modules/wasabi-fs/src/mem_tree/mod.rs:229-361 | an `insert` in which nothing splits changes the leave the search ends at, marks it dirty and its ancestors as having a dirty child |
| `TreePersist.DeleteTouches` | modules/wasabi-fs/src/mem_tree/mod.rs:229-609 | the same for a `delete` in which nothing is rebalanced |
| `TreePersist.TouchedFlags` | modules/wasabi-fs/src/mem_tree/mod.rs:229-361 | such a change keeps the flags for children and the clean nodes in step with the device, and puts a dirty leave below a clean node unless it is the root |
| `TreePersist.LoadsUnique` | modules/wasabi-fs/src/mem_tree/mod.rs:1492-1529 | at most one tree is loaded from a block |
| `TreePersist.MirrorsLoads` | modules/wasabi-fs/src/mem_tree/mod.rs:1492-1529 | from the block of a mirrored tree the tree in memory is loaded |
| `TreePersist.FlushTouched` | modules/wasabi-fs/src/mem_tree/mod.rs:1595-1681 | flushing one leave changed in place, at any depth: below the root the device still mirrors the tree of before |
| `TreePersist.InsertAndFlush` | modules/wasabi-fs/src/mem_tree/mod.rs:314-361 | from a tree of any height that is all on the device, an `insert` in place and a flush succeed exactly with a free block; memory is clean and has the file; what is loaded is the new tree if the leave is the root, and otherwise the old one from the old root, so that the change is there if and only if the leave is the root or nothing changed |
| `TreePersist.DeleteAndFlush` | modules/wasabi-fs/src/mem_tree/mod.rs:575-609 | the same for `delete` |
| `TreePersist.SampleChangeIsLost` | modules/wasabi-fs/src/mem_tree/mod.rs:1612-1631 | two stored leaves of ten files below a root, file 50 inserted and the tree flushed: memory is clean and finds it, the tree loaded from the device does not |
| `TreeReach.SplitProject` | modules/wasabi-fs/src/mem_tree/mod.rs:403-444 | the marked tree after a split below a root with room is the tree `insert_split` leaves |
| `TreeReach.RotatedProject` | modules/wasabi-fs/src/mem_tree/mod.rs:664-686 | the marked tree after moving a file between leaves is the tree `rebalance_leave` leaves |
| `TreeReach.JoinedProject` | modules/wasabi-fs/src/mem_tree/mod.rs:687-718 | the marked tree after merging two leaves is the tree `rebalance_leave` leaves |
| `TreeReach.InsertChangeExact` | modules/wasabi-fs/src/mem_tree/mod.rs:314-573 | on a tree of at most two levels every `insert` that goes through leaves the marked tree of a change in place, a split leave or a split root |
| `TreeReach.DeleteChangeExact` | modules/wasabi-fs/src/mem_tree/mod.rs:575-790 | every `delete` leaves that of a change in place, a file moved to or from a neighbour, a merge, or a merged leave as the new root |
| `TreeReach.MarksIsReaches` | modules/wasabi-fs/src/mem_tree/mod.rs:314-790 | the root is marked if and only if it is a leave, the leave of a new file is full, or one of two leaves runs low and the other has no file to spare |
| `TreeReach.RotationMoves` | modules/wasabi-fs/src/mem_tree/mod.rs:664-686 | moving a file to a neighbour always moves the border stored with the root |
| `TreeReach.LeftBehind` | modules/wasabi-fs/src/mem_tree/mod.rs:494-790 | the blocks that a merge, a promotion and a split root drop from the tree; the other changes drop none |
| `TreeReach.RecyclesExactly` | modules/wasabi-fs/src/mem_tree/mod.rs:1633-1638 | when the block given back by one write is taken by the next: a free block behind it, a used one before it, no single free block in front |
| `TreeReach.RecycleExample` | modules/wasabi-fs/src/mem_tree/mod.rs:1633-1638 | with all free blocks behind the tree it is |
| `TreeReach.TwoSavesExact` | modules/wasabi-fs/src/mem_tree/mod.rs:1633-1676 | two writes change no block in use, except that in that case the first block ends with the second leave |
| `TreeReach.FlushMarked` | modules/wasabi-fs/src/mem_tree/mod.rs:1595-1681 | flushing a tree with a marked root leaves the device mirroring it; blocks it does not have are not freed |
| `TreeReach.FlushTwo` | modules/wasabi-fs/src/mem_tree/mod.rs:1595-1681 | flushing two changed leaves below a clean root: memory is clean, and the old root still leads to the old tree, or to one with the second leave in place of the first |
| `TreeReach.FlushRotated` | modules/wasabi-fs/src/mem_tree/mod.rs:661-686 | the same after moving a file between two leaves |
| `TreeReach.FlushJoined` | modules/wasabi-fs/src/mem_tree/mod.rs:687-720 | flushing a merge of two leaves out of three or more succeeds exactly with a free block; the device still mirrors the tree of before, and the blocks of both leaves are not freed |
| `TreeReach.FlushChange` | modules/wasabi-fs/src/mem_tree/mod.rs:1595-1681 | the six changes in one: on the device if the root is marked, otherwise what remains of the tree of before |
| `TreeReach.ChangeExact` | modules/wasabi-fs/src/mem_tree/mod.rs:297-790 | every call that changes a valid tree of at most two levels, and does not overflow it, makes the change |
| `TreeReach.ChangeAndFlush` | modules/wasabi-fs/src/mem_tree/mod.rs:297-790 | such a call on a stored tree, then a flush: it succeeds with three free blocks and never with none; memory is clean and has the change; the device has it if and only if the call is one of those that mark the root, or changes nothing; otherwise the old root leads to what remains; dropped blocks are not freed |
| `TreeRuns.ApplyUsable` | modules/wasabi-fs/src/mem_tree/mod.rs:229-790 | every change, on a tree with any number of earlier ones not yet stored, keeps what a flush needs, and marks the root if and only if it was or the change marks it |
| `TreeRuns.FlushedUsable` | modules/wasabi-fs/src/mem_tree/mod.rs:1595-1681 | a flush keeps it too, cleans the tree, stores every leave, and all of the tree if the root was marked or a leave; otherwise the root keeps its block as it was |
| `TreeRuns.FreshUsable` | modules/wasabi-fs/src/mem_tree/mod.rs:118-133 | a new tree meets it and holds nothing |
| `TreeRuns.OnDeviceUsable` | modules/wasabi-fs/src/mem_tree/mod.rs:1492-1529 | so does a tree that is on the device |
| `TreeRuns.Call` | modules/wasabi-fs/src/mem_tree/mod.rs:297-790 | one call on such a tree does what it should to the tree and to the files by id |
| `TreeRuns.Run` | modules/wasabi-fs/src/mem_tree/mod.rs:297-1681 | calls and flushes in any order: the tree always holds the files the calls should leave; after a flush the device holds them as well if a call since the flush before was one that reaches it, or the root is a leave, and otherwise the root is the block it was; the run ends early only at a call that overflows the tree or a flush with fewer free blocks than dirty nodes |
| `FutureOnce.StepKeepsInv` | builder/src/sync.rs:61-116 | every atomic step of joiners and runner keeps the invariant |
| `FutureOnce.RunKeepsInv` | builder/src/sync.rs:61-116 | the invariant holds in every state of every run |
| `FutureOnce.CellOnlyAdvances` | builder/src/sync.rs:61-116 | the cell only moves from uninitialised to running to done, and a result stays |
| `FutureOnce.JoinersAgree` | builder/src/sync.rs:61-106 | the future starts at most once, no `unwrap` of a joiner fails, and all joiners get the same result |
| `FutureOnce.JoinersGetTheValue` | builder/src/sync.rs:61-116 | a joiner returns the value the future has delivered, and not before it has |
| `FutureOnce.NoLostWakeup` | builder/src/sync.rs:90-116 | a waiting joiner has a message or is subscribed while the send is still to come |
| `FutureOnce.NobodyIsStuck` | builder/src/sync.rs:61-116 | a joiner that has not returned can move, or waits for a runner that can |
| `FutureOnce.ResultIsReachedInTwo` | builder/src/sync.rs:61-106 | once the result is there, a joiner is at most two moves from returning it, each of its moves brings it closer and no other step sets it back |
| `FutureOnce.SendFailsIffNobodyWaits` | builder/src/sync.rs:115 | the wake-up fails if and only if nobody waits |
| `FutureOnce.SendCanFail` | builder/src/sync.rs:115 | a run in which it fails |
| `FutureCache.StepKeepsInv` | builder/src/sync.rs:142-160 | every step of callers and cached futures keeps cache and futures consistent |
| `FutureCache.StartsOfCached` | builder/src/sync.rs:142-160 | all futures ever started for an id are the cached one |
| `FutureCache.OneFuturePerId` | builder/src/sync.rs:142-160 | in every run at most one future per id is started, and all callers of an id hold the same one |
| `FutureCache.CallerGetsItsOwn` | builder/src/sync.rs:142-160 | in every run a caller that asked for an id and got a future got the one made for that id |
| `FutureCache.CallersShare` | builder/src/sync.rs:142-160 | two callers that asked for one id got the same future |
| `FutureCache.CacheIsStable` | builder/src/sync.rs:142-160 | a cached future is never replaced |

## Left out

- MemTrees.MemTree.Insert: nodes are values, so update in place, aliasing and the per-node locks are not captured, nor are dirty flags and device pointers; every node is in memory.
- MemTrees.MemTree.Delete: the same; the source also prefers neighbours that are already loaded when it rebalances, which does not matter when all are.
- Flush: nothing is said about the state after a failed flush, for which the source promises little; the files of a leave are data, without the blocks of their contents.
- ChangeAndFlush: a call that overflows the tree is excluded, as `InsertExact` shows that it breaks it; for trees of three levels, which no call makes out of a valid one, only changes in place are covered, by `InsertAndFlush` and `DeleteAndFlush`.
- Run: what is loaded after a flush that stores no root is stated for the first such flush only (`FlushChange`, `FlushTwo`), as later ones can overwrite any block that was given back; loading only part of the tree is not covered.
- Files, directories and block data of files.
- `RangeSet::remove_if_exist`, which does not compute a set difference.
- Read-only mounts, `force_open` and crashes in the middle of a flush: the header does not track several readers.
- `DeviceStringHead` of other lengths than a block; the UTF-8 check after reading a string; device errors.
- Fractions, rounding and NaN in percentiles; `Config::error`; the dense `wrapping_add` and `wrapping_sub`.
- The rest of `StaticVec` (trait implementations, pointers, zero-sized types, uninitialised memory): easy members or memory concerns of Rust.
- Partition tables, protective MBR, builder, network and QEMU code, kernel boot, interrupts and loggers: input and output, hardware or small finite checks.
- The scheduler, the locks and the broadcast channel behind the futures: taken as atomic, with one message reaching every receiver that exists.
