# Verified models of four `cth` components

This project models four components of the `cth` header library in Dafny and proves what they promise:

* **`basic_miniram`**, an offset allocator. `Words.dfy` and `TinyFloat.dfy` hold its arithmetic, `Nodes.dfy` the node
  table and the neighbour chain, `Bins.dfy` the free lists and the two-level bitmap, `Edits.dfy` what slicing and
  merging do to the memory, `Pools.dfy` and `Rebuild.dfy` the facts shared by its methods, `Miniram.dfy` the class
  itself, `Memmoves.dfy`, `Compaction.dfy` and `Ties.dfy` the defragmentation report, and `MiniramRuns.dfy` whole runs.
* **`unique_combine` and `assign`**, matching by augmenting paths: `UniqueCombine.dfy`, `Assignments.dfy`, `Assign.dfy`.
* **`ring_alloc`**, a lock-free ring allocator, as a state machine over any number of threads: `RingAlloc.dfy`.
* **`union_find`** with path halving: `Forests.dfy` holds the specification, `UnionFind.dfy` the class.

`Collections.dfy` holds shared datatypes and counting lemmas. Verify with `dafny verify dfyconfig.toml`.

## How the allocator is modelled

`Miniram.Miniram` has the fields of the C++ class: the node table and the id stack as sequences that the methods
reassign, `_usedBins` and `_binIndices` as arrays, the counters as numbers. Two ghost fields name what is implicit in the
links: `chain`, the node ids in neighbour order, and `bins`, the ids of each free list. `Valid()` says that

* the chain tiles `[0, capacity)` exactly, with matching links in both directions, and no two neighbours are both free;
* bin `b` lists exactly the free nodes whose size rounds down to code `b`, each once, with matching links;
* a byte of the lower bitmap has exactly the bits of its non-empty bins, and a bit of the upper one is set exactly for a
  non-zero byte;
* the ids on the chain and the live part of the id stack share out the node table;
* the free-storage counter is the sum of the free sizes.

`Segments()` (the memory from left to right) and `Live()` (what callers hold) are the abstract state in which the effects
of `Allocate` and `Free` are stated: `Sliced` and `Merged` in `Edits.dfy` replace one stretch of the segments by another
and add or take one entry of the live map. A fit (`Suits`) is a free block whose size still holds the request after it
has been rounded down to its bin (`SuitsIsRounded`); `BestFit` is such a block in the lowest possible bin.

Sizes are natural numbers below `2^width`, for a width of 8, 16, 32 or 64; bitmaps are natural numbers with bitwise
operations defined digit by digit, in words of 8 bits (leaf) and of 32 or 64 bits (top). Everything the C++ code
shifts, masks or truncates is written out in those terms. Ids are integers and `INVALID_INDEX` is -1. Conditions that the
code guards with `CTH_CRITICAL` are preconditions.

## Where the code does not keep a promise

* **`defragment` and the id stack** (`miniram.inl:167-173`, `445-449`). The unused ids are written below the stack
  pointer, but ids are popped from the pointer upwards, where stale entries are left. The model keeps this: `Defragment`
  asks only that the pops find entries, which the guard of the pop demands, and says what each popped id leads to. A
  block in use keeps its node exactly if its id is not popped, and the rebuilt memory is tiled by its nodes exactly if
  the ids popped are distinct ids of unused nodes (`Rebuild.PopsAreSpare` states this of the stack before the call,
  `Rebuild.FirstPoppedIsSpare` for the first pop, and `Miniram.Miniram.HalfEmptyPopsSpareIds` derives it from simple
  counts). `MiniramRuns.DefragmentAfterTwoAllocations` is an input for which it fails: two allocations of four
  elements from nine, in an allocator made for two allocations, after which the node of the second allocation has
  become the free block. With nothing in use the pointer is at the end of the stack, and the guard of the pop fires.
  The whole allocator invariant holds afterwards exactly if half of the nodes were in use, all stack entries above the
  number of unused ids were spare, and the used blocks fit and leave at most one free block; this is the last clause
  of `Defragment`.
* **`compactUsedNodes` and blocks of size zero** (`miniram.inl:179-182`, `461-505`). Sorting by offset may list an empty
  block behind the block that starts with it. If that block is larger than the free space before both, and only then,
  a move to the right is reported (`Ties.SortedMovesLeft`), which the guard of `to_disjunct_copies` rejects. Whatever
  the sort does with ties, the moves go left exactly if no two such blocks exist (`Ties.EveryOrderMovesLeft`).
  `MiniramRuns.DefragmentEmptyBlock` is an input on which even a sort that leaves ties in place fails: fill nine
  elements with allocations of one and eight, free both, then allocate zero and four.
* **`ring_alloc::alloc` refusals** (`ringalloc.hpp:73-74`). A thread whose copy of the head has fallen behind the tail may
  refuse although there is room, because the unsigned difference wraps (`RingAlloc.SpuriousRefusal`). When there is
  room, a call is refused exactly if the space behind its copy of the head ends behind the tail
  (`RingAlloc.StaleRefusal`); with a head that is not behind the tail, a refusal is always right
  (`RingAlloc.RefusalIsHonest`).

## Model

| member | source | states |
|---|---|---|
| Words.HighestBitIsHighest | cth/incl/cth/data/inl/miniram.inl:11-14 | the result is a set bit and no set bit is higher |
| TinyFloat.FloorGalois | cth/incl/cth/data/inl/miniram.inl:39-58 | a code is at most the floor code of a size iff its value is at most the size |
| TinyFloat.CeilGalois | cth/incl/cth/data/inl/miniram.inl:17-36 | the ceiling code of a size is at most a code iff the size is at most the code's value, mantissa carry included |
| TinyFloat.CeilFromFloor | cth/incl/cth/data/inl/miniram.inl:17-48 | ceiling and floor differ by one code exactly for sizes that are not representable |
| TinyFloat.FloorOfValue | cth/incl/cth/data/inl/miniram.inl:17-58 | both roundings undo the decoding of every code |
| TinyFloat.ValueIncreasing | cth/incl/cth/data/inl/miniram.inl:51-58 | decoding is strictly increasing |
| TinyFloat.ToUintIsValue | cth/incl/cth/data/inl/miniram.inl:51-58 | in a word, decoding gives the exact value if it fits, and its low bits otherwise |
| TinyFloat.CodesFit | cth/incl/cth/data/inl/miniram.inl:16-58 | every size of the word has codes inside the bin table, and its floor code decodes without truncation |
| TinyFloat.FloorLoss | cth/incl/cth/data/inl/miniram.inl:39-48 | rounding down to a bin loses less than a ninth of a size |
| Bins.FindLowestBitAfter | cth/incl/cth/data/inl/miniram.inl:341-353 | the lowest set bit at or after a position, or -1 iff there is none |
| Bins.FindBinIsLowest | cth/incl/cth/data/inl/miniram.inl:208-228 | the two-level search finds the bin that a linear scan upwards from the smallest fitting bin would find |
| Bins.HighestBinIsHighest | cth/incl/cth/data/inl/miniram.inl:428-430 | the bitmap's highest bits name the highest non-empty bin |
| Bins.SetKeepsMasks | cth/incl/cth/data/inl/miniram.inl:82-108 | marking a bin keeps both bitmap levels exact |
| Bins.ClearKeepsMasks | cth/incl/cth/data/inl/miniram.inl:129-136 | unmarking a bin, and its byte with the last one, keeps both bitmap levels exact |
| Bins.PushKeepsBins | cth/incl/cth/data/inl/miniram.inl:82-108 | putting a fresh node in front of its bin keeps every list linked, sorted by code and disjoint |
| Bins.RemoveKeepsBins | cth/incl/cth/data/inl/miniram.inl:112-140 | taking a node out of any place in its list keeps every list |
| Nodes.SpliceAll | cth/incl/cth/data/inl/miniram.inl:322-335 | replacing a stretch of the chain by one that tiles the same interval keeps the tiling and accounts for storage and segments |
| Nodes.ChainOrdered | cth/incl/cth/data/inl/miniram.inl:357-410 | later positions of a valid chain lie further right, so nodes never overlap |
| Nodes.AllFreeIsOneBlock | cth/incl/cth/data/inl/miniram.inl:357-410 | a valid chain without a used node is one free node over the whole memory |
| Edits.SplitOutcome | cth/incl/cth/data/inl/miniram.inl:322-335 | the neighbour writes of a slice carve the block in two and change no other block |
| Edits.MergeOutcome | cth/incl/cth/data/inl/miniram.inl:392-409 | the neighbour writes of a free turn the stretch around the block into one free block and change no other block |
| Edits.MergeSizes | cth/incl/cth/data/inl/miniram.inl:366-390 | the size that `free` adds up is the length of the stretch, of which only the absorbed neighbours counted as free |
| Pools.PopKeepsIds | cth/incl/cth/data/inl/miniram.inl:445-449 | a popped id is spare, and live stack and active ids still share out the table |
| Pools.PushKeepsIds | cth/incl/cth/data/inl/miniram.inl:453-457 | an active id can always be pushed back, so the guard of the push cannot fire |
| Pools.StayingConcat | cth/incl/cth/data/inl/miniram.inl:112-140 | what is left of a bin after ids have left it is decided id by id and keeps its order |
| Pools.SuitsIsRounded | cth/incl/cth/data/inl/miniram.inl:208-230 | the bins guarantee a request exactly from free blocks that hold it after rounding down |
| Miniram.Miniram.constructor | cth/incl/cth/data/inl/miniram.inl:61-78 | a fresh allocator is valid: one free block over everything, all other ids on the stack |
| Miniram.Miniram.InsertNode | cth/incl/cth/data/inl/miniram.inl:82-108 | the node of the id on top of the stack becomes a free block at the front of its bin, whatever it was before; if the id was spare, lists, bitmap and storage counter stay exact |
| Miniram.Miniram.RemoveNode | cth/incl/cth/data/inl/miniram.inl:112-140 | the node leaves its bin and its id the active ids; lists, bitmap and storage counter stay exact |
| Miniram.Miniram.ReserveNodes | cth/incl/cth/data/inl/miniram.inl:282-292 | growth only adds spare nodes and their ids at the far end of the stack |
| Miniram.Miniram.Grow | cth/incl/cth/data/inl/miniram.inl:205-206 | afterwards the stack is not empty; a full table has doubled its allocations, the new ids in order behind the old ones; memory, allocations and bins are as before |
| Miniram.Miniram.SliceTopBinNode | cth/incl/cth/data/inl/miniram.inl:296-337 | the bin's first block is carved into a used block and what is left of it, which heads the bin of its own size; no other bin changes and everything stays valid |
| Miniram.Miniram.Allocate | cth/incl/cth/data/inl/miniram.inl:201-235 | succeeds iff some block suits, for sizes of at least one iff the size is at most `max_alloc()`; it carves the head of the lowest suiting bin and adds exactly that block to what callers hold; the rest heads its own bin, all other bins are as before; the table grows iff the stack is empty and the size does not exceed the free storage; a refusal changes nothing they can see |
| Miniram.Miniram.Free | cth/incl/cth/data/inl/miniram.inl:357-410 | the block and its free neighbours become one free block; callers lose exactly that block; the absorbed neighbours leave their bins, the merged block heads its own, so it is taken first among equals, and no other order changes; the absorbed ids are next on the stack; everything stays valid |
| Miniram.Miniram.SizeOf | cth/incl/cth/data/inl/miniram.inl:414-419 | the size that a live allocation was given, 0 for an invalid one |
| Miniram.Miniram.FreeRegions | cth/incl/cth/data/inl/miniram.inl:553-569 | terminates with the exact number of free blocks of every size class |
| Miniram.Miniram.LiveBlocksDisjoint | cth/incl/cth/data/inl/miniram.inl:201-235 | live blocks lie in the memory and never overlap |
| Miniram.Miniram.StorageConserved | cth/incl/cth/data/miniram.hpp:222-226 | free storage and the sizes of the used blocks add up to the capacity |
| Miniram.Miniram.AllFreedIsOneBlock | cth/incl/cth/data/inl/miniram.inl:357-410 | once nothing is live the memory is one free block again |
| Miniram.Miniram.IdsShareTable | cth/incl/cth/data/inl/miniram.inl:445-457 | every id is on the chain or on the live stack and never on both |
| Miniram.Miniram.AllocatableIsExact | cth/incl/cth/data/miniram.hpp:239 | for sizes of at least one, `allocatable` holds iff some block suits, which is when `Allocate` succeeds |
| Miniram.Miniram.MaxAllocIsClose | cth/incl/cth/data/inl/miniram.inl:423-432 | eight times any free block is less than nine times `max_alloc()` |
| Miniram.Miniram.CompactUsedNodes | cth/incl/cth/data/inl/miniram.inl:461-505 | every node ends at its gapless offset, linked to its neighbours, and the report lists the updates and moves that the rows below pin down |
| Pools.UpdatesAreGapless | cth/incl/cth/data/inl/miniram.inl:461-505 | the report names every block once, in order, at the offset where the block before it ends, from zero |
| Miniram.Miniram.CollectNodes | cth/incl/cth/data/inl/miniram.inl:167-173 | lists the used ids and leaves the stack as `Restacked` says, stale above the pointer |
| Miniram.Miniram.ReconstructFreeSpace | cth/incl/cth/data/inl/miniram.inl:509-549 | the nodes of the ids next on the stack become free blocks and all other nodes stay where they are; if those ids are distinct and spare, they tile the rest of the memory, with exact lists, and the first has the largest exact bin size that fits |
| Miniram.Miniram.Defragment | cth/incl/cth/data/inl/miniram.inl:161-197 | the report names every block in use, in order, with the offset where the block before it ends; a block is there, with its size, iff its id is not popped for the free space; the new chain tiles the memory iff the popped ids are spare, and then lists and bitmap are exact and the first free block has the largest exact bin size; the stack and its pointer are stated, the stack is in order again iff half of the nodes are in use and all entries above the number of unused ids are spare, and the whole allocator is valid iff moreover the used blocks fit and leave at most one free block |
| Miniram.Miniram.RebuiltIsValid | cth/incl/cth/data/inl/miniram.inl:161-197 | the exact condition under which a rebuilt allocator keeps its whole invariant |
| Miniram.Miniram.HalfEmptyPopsSpareIds | cth/incl/cth/data/inl/miniram.inl:167-173 | at least as many unused nodes as popped ids, and room for the pops, make the ids that `defragment` pops spare |
| MiniramRuns.Run | cth/incl/cth/data/inl/miniram.inl:61-78 | every run of a fresh allocator stays valid; every request is answered as the memory at that moment demands, refused iff no free block suits and otherwise from the lowest bin; that memory shows exactly the held blocks, never overlapping; after freeing everything, in any order, one free block is left |
| MiniramRuns.AllocationsStay | cth/incl/cth/data/inl/miniram.inl:201-235 | an allocation keeps its offset and size in the run until it is freed |
| MiniramRuns.DefragmentMemory | cth/incl/cth/data/inl/miniram.inl:161-278 | the report's moves, rewritten into non-overlapping copies and carried out, bring the data of every block in use to its reported offset, which is gapless, and its node says so iff its id is not popped for the free space |
| MiniramRuns.DefragmentEmptyBlock | cth/incl/cth/data/inl/miniram.inl:161-197 | a run after which the ids in use, in the order of the table, are sorted by offset as they stand, and `defragment` reports a move to the right |
| MiniramRuns.DefragmentAfterTwoAllocations | cth/incl/cth/data/inl/miniram.inl:161-197 | two allocations after which `defragment` turns the node of the second one into a free block |
| Rebuild.FirstPoppedIsSpare | cth/incl/cth/data/inl/miniram.inl:167-173 | the first id popped after the collection exists iff a node is used, and is spare iff the stale entry names no used node |
| Rebuild.PopsAreSpare | cth/incl/cth/data/inl/miniram.inl:167-173 | the ids popped after the collection are distinct and spare iff the entries above the number of unused nodes were so before it |
| Rebuild.UnusedIncrease | cth/incl/cth/data/inl/miniram.inl:167-173 | the unused ids are written to the stack in increasing order |
| Rebuild.SortedIsOrdered | cth/incl/cth/data/inl/miniram.inl:179-182 | sorting the used nodes by offset leaves blocks that do not overlap in the order compaction needs, whatever the ties |
| Compaction.CoalescedMoves | cth/incl/cth/data/inl/miniram.inl:461-505 | the coalesced moves do to every memory what moving each block on its own does |
| Compaction.MovesAreSeparate | cth/incl/cth/data/inl/miniram.inl:461-505 | for blocks that lie behind each other every reported move changes something and none merely continues the one before it |
| Compaction.CompactionPreservesData | cth/incl/cth/data/inl/miniram.inl:461-505 | the reported moves in order bring every block's old contents to its gapless offset |
| Compaction.MovesGoLeft | cth/incl/cth/data/inl/miniram.inl:461-505 | all reported moves go left iff no block's gapless offset lies right of the block |
| Compaction.DataMovesLeft | cth/incl/cth/data/inl/miniram.inl:461-505 | blocks with data only ever move left |
| Compaction.ChainOrderIsOrdered | cth/incl/cth/data/inl/miniram.inl:461-505 | used nodes in chain order never move right, blocks of size zero included |
| Ties.SortedMovesLeft | cth/incl/cth/data/inl/miniram.inl:179-197 | of any order that sorting may leave, all reported moves go left iff no empty block is listed behind a block at its offset that exceeds the free space before both |
| Ties.EveryOrderMovesLeft | cth/incl/cth/data/inl/miniram.inl:179-197 | every order that sorting may leave moves left iff no empty block in use shares its offset with a block in use larger than the free space before both |
| Ties.OffsetSplits | cth/incl/cth/data/inl/miniram.inl:461-505 | the used and the free space before a node add up to its offset |
| Compaction.CompactionByCopies | cth/incl/cth/data/inl/miniram.inl:239-278 | compaction's moves rewritten into plain copies still bring every block's contents to its new offset |
| Memmoves.ToDisjunctCopies | cth/incl/cth/data/inl/miniram.inl:239-278 | the chunking loop emits the copies of `DisjunctCopies`, for which the next three rows hold |
| Memmoves.DisjunctCopiesShape | cth/incl/cth/data/inl/miniram.inl:239-278 | no copy's source meets its destination, and the total size is conserved |
| Memmoves.ChunkCount | cth/incl/cth/data/inl/miniram.inl:239-278 | a move becomes as many copies as its distance goes into its size, rounded up, and at least one |
| Memmoves.DisjunctCopiesRun | cth/incl/cth/data/inl/miniram.inl:239-278 | on every memory the copies in order do what the moves in order do |
| Memmoves.DisjunctCopyIsPlain | cth/incl/cth/data/miniram.hpp:152-156 | such a copy may be carried out element by element |
| UniqueCombine.UniqueCombine | cth/incl/cth/algorithm/combine.hpp:25-94 | one distinct option per selection, or an empty result with a set of selections that has too few options; empty iff no choice exists |
| UniqueCombine.FindAugmentingPath | cth/incl/cth/algorithm/combine.hpp:43-64 | an unclaimed option with the discovery order that leads to it, or a starved set, so that no choice exists |
| UniqueCombine.DrySearchStarves | cth/incl/cth/algorithm/combine.hpp:43-64 | a search that runs dry has reached one selection more than it has discovered options |
| UniqueCombine.Flip | cth/incl/cth/algorithm/combine.hpp:74-83 | the flip loop ends and leaves a one-to-one matching of one selection more |
| UniqueCombine.StarvedMeansNone | cth/incl/cth/algorithm/combine.hpp:12-18 | a starved set of selections rules out every combination |
| Assign.Assign | cth/incl/cth/algorithm/combine.hpp:109-239 | a result respects options and maxima; its largest load is the smallest possible; at every level at once its loads, cut off at the level, keep as many a's as those of any assignment; with at least one a, empty iff no assignment exists |
| Assign.FillPass | cth/incl/cth/algorithm/combine.hpp:202-233 | after a pass no assignment within the current capacities places more a's, and no b's load has fallen |
| Assign.FindAugmentingPath | cth/incl/cth/algorithm/combine.hpp:153-185 | a b with room and the discovery order that leads to it, or full b's whose residents were all reached |
| Assign.DrySearchSaturates | cth/incl/cth/algorithm/combine.hpp:153-185 | a search that runs dry leaves a saturated set around its start |
| Assign.Flip | cth/incl/cth/algorithm/combine.hpp:207-231 | the start is placed, nobody loses a place, no b's load falls, both tables stay in step, and saturated sets stay saturated |
| Assign.Raise | cth/incl/cth/algorithm/combine.hpp:195-199 | the water level rises by one within the maxima; without a rise the maxima are reached, with one the remaining slack shrinks |
| Assignments.SaturatedIsMaximum | cth/incl/cth/algorithm/combine.hpp:202-233 | if every unplaced a is in a saturated set, no feasible assignment places more |
| Assignments.MaximumIsEven | cth/incl/cth/algorithm/combine.hpp:188-234 | an assignment that places the most a's at a water level keeps the most of any assignment within the maxima when loads are cut off at that level |
| Assignments.CutOff | cth/incl/cth/algorithm/combine.hpp:100-107 | what exceeds a level can be given up so that an assignment within that level's capacities is left |
| Assignments.SomeLoadReaches | cth/incl/cth/algorithm/combine.hpp:188-234 | if the level below does not suffice, every complete assignment loads some b up to the level |
| RingAlloc.StepKeepsInv | cth/incl/cth/data/ringalloc.hpp:49-106 | every step of every thread keeps the ring's invariant, stale copies and spurious failures included |
| RingAlloc.CountersStayClose | cth/incl/cth/data/ringalloc.hpp:49-106 | in every run by any number of threads the tail is at most the head and the head at most one buffer ahead |
| RingAlloc.CommittedPlace | cth/incl/cth/data/ringalloc.hpp:59-86 | an allocation lies inside the buffer and ends at its token modulo the buffer size |
| RingAlloc.EndIsFirstFit | cth/incl/cth/data/ringalloc.hpp:59-70 | an allocation ends as early as any stretch of its size from the head on that stays in one lap |
| RingAlloc.HasRoomIsFit | cth/incl/cth/data/ringalloc.hpp:59-74 | there is room iff some such stretch ends at most one buffer past the tail |
| RingAlloc.LiveBytesDisjoint | cth/incl/cth/data/ringalloc.hpp:49-106 | two allocations whose tokens exceed the tail share no byte |
| RingAlloc.StepRefines | cth/incl/cth/data/ringalloc.hpp:56-106 | a step that ends a call is one legal atomic operation, any other step changes nothing shared; refusals included, which are wrong only in the stale case below |
| RingAlloc.RunRefines | cth/incl/cth/data/ringalloc.hpp:49-106 | every concurrent run is a legal run of the atomic ring with the same counters and allocations; a refusal in it was decided with some past head, and if there was room, the space behind that head ended behind the tail |
| RingAlloc.RefusalIsHonest | cth/incl/cth/data/ringalloc.hpp:73-74 | a refusal with a head not behind the tail means that there is no room at that moment |
| RingAlloc.StaleRefusal | cth/incl/cth/data/ringalloc.hpp:73-74 | when there is room, a call is refused iff the space behind its copy of the head ends behind the tail |
| RingAlloc.SpuriousRefusal | cth/incl/cth/data/ringalloc.hpp:56-74 | a run in which an empty ring of ten bytes refuses one byte |
| RingAlloc.FailedCommitMeansProgress | cth/incl/cth/data/ringalloc.hpp:77-83 | between a thread's load of the head and a commit of it that fails without being spurious, another thread has committed an allocation |
| RingAlloc.FailedRetireMeansProgress | cth/incl/cth/data/ringalloc.hpp:98-105 | between a thread's last read of the tail and a try to raise it that fails without being spurious, another thread has raised it |
| RingAlloc.FailedCommitRetries | cth/incl/cth/data/ringalloc.hpp:56-86 | after a failed commit the next try, left alone, is granted behind the current head iff the size is at most `max_alloc()` |
| RingAlloc.FailedRetireRetries | cth/incl/cth/data/ringalloc.hpp:98-105 | after a failed try to raise the tail the next one, left alone, ends the call |
| RingAlloc.MaxAllocIsExact | cth/incl/cth/data/ringalloc.hpp:129-148 | there is room for `n` bytes iff `n` is at most `max_alloc()`, empty, full, wrapped or not |
| RingAlloc.QuietAlloc | cth/incl/cth/data/ringalloc.hpp:49-87 | a call nobody interferes with is granted, at the place promised, iff the size is at most `max_alloc()` |
| RingAlloc.QuietFree | cth/incl/cth/data/ringalloc.hpp:94-106 | a free nobody interferes with raises the tail to the token, if it is not there yet |
| UnionFind.UnionFind.constructor | cth/incl/cth/data/union_find.hpp:27-32 | every index is its own class |
| UnionFind.UnionFind.Find | cth/incl/cth/data/union_find.hpp:63-74 | the root, with exactly the links of one halving pass changed and no root changed |
| UnionFind.UnionFind.Merge | cth/incl/cth/data/union_find.hpp:81-93 | the two classes become one under the larger root, all others stay, and the pair joins the closure; both lookups have compressed their chains, one link and one counter have changed, and nothing else |
| UnionFind.UnionFind.ChainLength | cth/incl/cth/data/union_find.hpp:117-124 | the number of links to the root, as `Forests.DepthIsSteps` counts them |
| UnionFind.UnionFind.Roots | cth/incl/cth/data/union_find.hpp:131-138 | every root once, in increasing order |
| UnionFind.UnionFind.AllOf | cth/incl/cth/data/union_find.hpp:146-158 | exactly the indices with the same root, in increasing order, no root changed, every chain compressed once more |
| UnionFind.UnionFind.All | cth/incl/cth/data/union_find.hpp:160-175 | exactly the classes, each once and in increasing order, ordered by their first members, every chain compressed once |
| UnionFind.UnionFind.Equals | cth/incl/cth/data/union_find.hpp:187-196 | true iff both sort the same indices into the same classes; the chains up to the first index that differs are compressed |
| UnionFind.UnionFind.ClassesAreMerges | cth/incl/cth/data/union_find.hpp:81-93 | in every state classes are the equivalence closure of the merged pairs, roots are class maxima, and root counters are class sizes in 32 bits |
| Forests.CompressionHalves | cth/incl/cth/data/union_find.hpp:63-74 | a chain of `d` links becomes one of exactly `d / 2`, rounded up |
| Forests.DepthIsSteps | cth/incl/cth/data/union_find.hpp:117-124 | climbing link by link stands on a root first after exactly the chain length, and that root is the one found |
| Forests.EvenStepsSkip | cth/incl/cth/data/union_find.hpp:63-74 | after a pass the nodes at even steps of the old chain skip their parents |
| Forests.OddStepsStay | cth/incl/cth/data/union_find.hpp:63-74 | those at odd steps keep their links |
| Forests.OthersStay | cth/incl/cth/data/union_find.hpp:63-74 | nodes that are not on the chain keep their links |
| Forests.AllHalve | cth/incl/cth/data/union_find.hpp:160-175 | looking up all indices at least halves every chain, rounded up, and changes no root |
| Forests.CompressionKeepsRoots | cth/incl/cth/data/union_find.hpp:63-74 | a halving pass changes no root and lengthens no chain |
| Forests.ClassesAreClosure | cth/incl/cth/data/union_find.hpp:81-93 | two indices share a root iff a walk along merged pairs joins them |
| Forests.RootIsMaximum | cth/incl/cth/data/union_find.hpp:88-91 | a root is the largest member of its class |
| Forests.RootsDecidePartition | cth/incl/cth/data/union_find.hpp:187-196 | equal roots everywhere is the same as equal partitions |
| Forests.LinkKeepsExplained | cth/incl/cth/data/union_find.hpp:88-91 | hanging one root below the other adds exactly the merged pair to the closure |
| Forests.LinkKeepsSizes | cth/incl/cth/data/union_find.hpp:91-92 | adding the child's counter keeps every root's counter the size of its class |

## Left out

- Miniram.Miniram.Defragment: does not promise the whole allocator invariant afterwards, which the code keeps only under the condition stated in its last clause. Finding enough entries above the stack pointer, which the pop's own guard demands, is a precondition.
- MiniramRuns.DefragmentMemory: requires that no block's gapless offset lies right of it, which is what the guard of `to_disjunct_copies` demands of the report; it speaks of memories of the old capacity.
- Miniram.Miniram.Free: requires a live allocation, as the code's own guard does; freeing an id twice is not modelled.
- Memmoves.ToDisjunctCopies: requires every move to go left or be empty; a move onto itself makes the code's chunk size zero, and compaction never reports one.
- Assign.Assign: takes unbounded naturals, so the collision of the sentinel with an index of a narrow value type, and negative maxima, are outside the model.
- `miniram::clear` on an allocator in use, which resets the stack pointer without rebuilding the id stack or the used flags; it is modelled as the constructor's initialisation only.
- The width of node ids: ids are unbounded, so a table of more than `2^32` nodes is not modelled.
- The sorting routine inside `defragment`: its result is a parameter that must hold the used ids sorted by offset, ties in any order.
- `fragmentation()`, the only floating-point function of the allocator.
- `union_find::merge(group_t)` and the group constructors, which relink nodes rather than roots and so are unions only for particular groups.
- Weak memory orders and the overflow of the ring's 64-bit counters: steps are sequentially consistent, counters unbounded, and the buffer is not empty.
- The hash tables of `unique_combine`: pooled element addresses are modelled as the elements themselves.
- Iterator stability, reserving and shrinking, logging, and the other parts of the library (containers, views, windows, coroutines, input and output).
