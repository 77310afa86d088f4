# Barq Core: a verified model of its storage structures

Barq Core keeps a database in a file of 64 MB sections and in working memory behind it. This
project models the four structures that everything else in it rests on, each a fast, mutable,
low-level structure that has to agree with a simple mathematical object, and proves that it does.

**The counted B+-tree** (`TreeModel`, `TreeMemory`, `TreeSteps`, `BPlusTree`, `TreeRuns`). Leaves
under inner nodes hold a sequence. An inner node is compact (a fixed number of elements per child)
or general (an explicit array of offsets). `TreeModel` has trees as values, their well-formedness
and what splits, merges and bulk building do to them. `TreeMemory` has the same trees as records in
allocator memory that refer to each other by ref, with footprints. `TreeSteps` joins the two, step
by step. `BPlusTree` is the tree object with its memory, root, size and cached leaf; every method
keeps `Valid()`: memory holds exactly the nodes of one well-formed tree, the stored size is its
element count, and the cached leaf, if any, is a leaf of the tree with its exact index range. Any
node size of at least 2 is covered. `TreeRuns` puts whole runs of operations together.

**The slab allocator and ref translation** (`Sections`, `SlabModel`, `FreeLists`, `SlabSteps`,
`Translation`, `ReadOnlySpace`, `SlabAlloc`, `SlabRuns`, `CrossOver`). `SlabModel` has blocks and the boundary
tags that describe them, keyed by address. `FreeLists` has the circular doubly linked lists threaded
through free blocks. `SlabSteps` joins them and adds coalescing, accounting and tiling.
`Translation` has the translation table and the retained old tables and mappings. `SlabAlloc` is the
allocator object; every method keeps `Valid()`: blocks and tags tile each slab, the free blocks are
exactly the nodes of the lists of their sizes, no two free blocks are neighbours, every free block
holds its own ref, the table agrees with the layout of mappings and slabs, and every file entry of a
retained table leads to a mapping that is current or retained as long. `SlabRuns` puts whole runs
together, with a client that keeps what it was given and a record of all tables that were replaced.
`CrossOver` is a state
machine of any number of threads that translate refs in one section without locks, and may copy the
table entry meanwhile; its loads may be as stale as coherence allows.

**Bit-packed arrays and word-parallel search** (`Words`, `Bits`, `Lanes`, `LaneCompare`, `PackedArrays`,
`Finder`, `IntArray`). Words are natural numbers with explicit width, memory is a sequence of bits,
least significant first. The lane tricks are proved for every lane width and number of lanes, by
induction over lanes, and then used at 64 bits. `IntArray` re-encodes elements in place, in
overlapping storage, for every pair of widths, signed or unsigned.

**Tagged and null-sentinel leaves** (`MixedArray`, `NullLeaves`, `NullableInts`). Composite words and
payload slots correspond one to one, with the inverse kept as ghost state. Optional integers use an
in-band null that moves away from stored values; `NullLeaves` says where it moves, and when it does
not move far enough.

What the system provides from outside is a parameter: the memory for a new slab, the addresses of new
mappings and whether the last mapping could be extended, the size a node header records, the address
of a stack variable, and the decisions of the consumer of matches. An insert position beyond the end
appends, as the leaf code clamps it. Section arithmetic, sizes and refs are unbounded numbers except
where the code checks or wraps: refs of slabs against 2^64, leaf-cache bounds modulo 2^64, null
candidates modulo 2^64, words and lanes modulo their width.

Five properties do not hold of the code as it stands. Each is stated exactly instead, with an input
that shows the failure:

- `do_alloc` admits requests below 2^26 bytes, but no slab and no block holds more than 2^26 - 16
  (`SlabAllocs.SlabHolds`, `SlabAllocs.BlockHolds`). Of the 8-aligned sizes only 2^26 - 8 does not fit,
  and for it the size check of `allocate_block` fails unless an overflow is reported. A smaller request
  succeeds if and only if a free block is suitable or a new slab's refs end below 2^64. Where they would
  end beyond, the overflow is reported, except that a slab that would start at 2^64 is placed at the ref
  0, and the check that its refs translate fails (`SlabAllocs.ZeroFails`, `SlabAllocs.SlabAlloc.Alloc`).
- The less-than formula of `find_gtlt_fast` marks exactly the lesser lanes if and only if no lane equal
  to the value stands directly above a lesser one (`LaneCompare.LessExact`); `LaneCompare.LessLeaks64`
  has a word of 64 bits that it gets wrong. The guard in front of it is false for every less-than
  search. The greater-than formula is right on all words with top bits clear if and only if the value
  is from -1 to 2^(w-1) - 1 (`LaneCompare.GreaterExact`). The guard is sufficient for it, and gives
  away just these two values (`Finder.GuardExact`).
- `compare_equality` compares whole words by the bits of the value. In arrays of up to 16 bits it reports
  the linear scan, on all arrays and ranges, if and only if the value is in the range of the width
  (`Finder.CompareExact`); a search for 16 in elements of four bits reports a 0 (`Finder.SixteenFound`).
  `find_optimized` calls it only with values in range.
- `find_all_will_match` ends after as many elements as the limit leaves. That is what a linear scan
  reports if and only if it is the end of the range, or the consumer would not accept all these elements
  (`Finder.CutExact`). A consumer for which every match counts would not (`Finder.LimitHarmless`). A
  search for the maximum with limit 2 misses the last of 5, 5, 7 (`Finder.MissingRun`); the repository
  itself gives a limit only to consumers for which every match counts.
- `ArrayIntNull` keeps its null at the upper limit of a width below 64 bits, except that 0x7fffffff
  arriving in such a leaf brings in a random null, and the leaf stays at 32 bits if and only if the first
  usable candidate fits there (`NullLeaves.SafeExact`). From then on a value equal to that null is read
  back as null (`NullLeaves.ReadBackExact`, `NullableInts.LosingRun`), until a value that needs 64 bits
  arrives (`NullLeaves.AddAllExact`). From a start below 2^62, as a stack address is, and in a leaf of
  at most 2^24 elements this cannot happen (`NullLeaves.NothingLost`).

## Model

| member | source | states |
|---|---|---|
| TreeModel.EnsureOffsetsWF | src/barq/bplustree.cpp:532-547 | Turning a compact node into a general one with offsets at multiples of the child size keeps it well formed. |
| TreeModel.SelectedRoutes | src/barq/bplustree.cpp:296-303 | Upper bound in the offsets selects the child that holds the element, and its offset. |
| TreeModel.CompactRoutes | src/barq/bplustree.cpp:304-308 | Division by the child size selects the child that holds the element in a compact node. |
| TreeModel.LeafSplitMiddle | src/barq/bplustree.cpp:195-207 | Splitting a full leaf at the insert position yields two leaves, neither empty nor too large, whose contents together are the old ones with the element inserted. |
| TreeModel.InsertNoSplit | src/barq/bplustree.cpp:323-372 | A child that absorbed the element leaves a well-formed parent, with size and later offsets one higher. |
| TreeModel.InsertSibling | src/barq/bplustree.cpp:609-633 | A new sibling of a child in a node with room keeps offsets, sizes and form exact. |
| TreeModel.InsertSplitLast | src/barq/bplustree.cpp:634-648 | When the last child of a full node splits, the node keeps its children and the sibling starts a new node of the same form. |
| TreeModel.InsertSplitMiddle | src/barq/bplustree.cpp:649-671 | When another child of a full node splits, the node is cut after it; both halves are well formed and hold the old contents with the element inserted. |
| TreeModel.GrowRoot | src/barq/bplustree.cpp:806-830 | A split root and its sibling under a new root form a well-formed tree one level higher. |
| TreeModel.EraseShrinks | src/barq/bplustree.cpp:374-424 | A child that lost an element leaves a well-formed general parent with later offsets one lower. |
| TreeModel.EraseRemovesChild | src/barq/bplustree.cpp:402-411 | Removing an emptied child keeps offsets and contents exact. |
| TreeModel.MergeChildren | src/barq/bplustree.cpp:425-478 | Joining two neighbouring children keeps offsets and contents exact. |
| TreeModel.JoinInner | src/barq/bplustree.cpp:517-530 | The joined inner node has the offsets of both, adjusted, and their children in order. |
| TreeModel.CompactTreeUnique | src/barq/bplustree.cpp:771-804 | A compact tree is determined by its contents, so bulk building and appending give equal trees, node for node. |
| TreeSteps.SplitAtLast | src/barq/bplustree.cpp:634-648 | The writes of the split after the last child represent that split in memory, and touch nothing outside the node. |
| TreeSteps.SplitInMiddle | src/barq/bplustree.cpp:649-671 | The writes of the split in the middle represent that split in memory, and touch nothing outside the node. |
| TreeSteps.MiddleMoves | src/barq/bplustree.cpp:517-530 | The offsets that `move` computes for the new node are the exact prefix sums of its children. |
| TreeSteps.JoinNodes | src/barq/bplustree.cpp:517-530 | Moving all children of a node to its left neighbour joins the two in memory. |
| TreeSteps.GroupStep | src/barq/bplustree.cpp:782-800 | One node of the next level covers exactly its group of children, and all sizes so far add up. |
| BPlusTrees.UpperBound | src/barq/array_unsigned.cpp:130-166 | The first index whose element exceeds the value, in a sorted array. |
| BPlusTrees.Adjust | src/barq/array.hpp:913-930 | Adds a difference to the elements from an index on, and to no others. |
| BPlusTrees.LeafFind | src/barq/bplustree.hpp:600-618 | The first occurrence in one leaf, or npos. |
| BPlusTrees.BPlusTree.constructor | src/barq/bplustree.cpp:738-750 | A new tree is valid, empty and compact. |
| BPlusTrees.BPlusTree.AdjustLeafBounds | src/barq/bplustree.hpp:248-251 | Adjusting an invalid cache leaves it invalid for every index, and a valid one keeps exactly the range of its leaf. |
| BPlusTrees.BPlusTree.LeafInsert | src/barq/bplustree.cpp:180-208 | A leaf with room takes the element, a full one splits; the cached bounds stay exact, and the cache is dropped exactly when a full leaf splits before its end. |
| BPlusTrees.BPlusTree.EnsureOffsets | src/barq/bplustree.cpp:532-547 | Conversion to general form keeps contents, memory of other nodes and the cache. |
| BPlusTrees.BPlusTree.InsertBpNode | src/barq/bplustree.cpp:609-671 | After a child split, the node with its possible new sibling holds the old contents with the element inserted. |
| BPlusTrees.BPlusTree.InnerInsert | src/barq/bplustree.cpp:323-372 | Inserting below an inner node inserts the element into its contents, touches only its own nodes and fresh ones, and leaves the cache exact or invalid. |
| BPlusTrees.BPlusTree.InnerErase | src/barq/bplustree.cpp:374-478 | Erasing below an inner node removes exactly that element, touches only its own nodes, and leaves the cache exact or invalid. The number of children left is, level by level, one less exactly when the child became empty, or fell below half and fits with the next into three quarters of a node. |
| BPlusTrees.BPlusTree.EraseAndDestroyBpNode | src/barq/bplustree.cpp:590-607 | The child, all its nodes and its offset disappear, and the other children stay. |
| BPlusTrees.BPlusTree.MergeIfSmall | src/barq/bplustree.cpp:425-478 | Two neighbours are joined exactly when their sizes together are below three quarters of a full node; contents and cache stay right. |
| BPlusTrees.BPlusTree.InnerAccess | src/barq/bplustree.cpp:291-321 | The descent ends in the leaf that holds the element and caches it with exact bounds. |
| BPlusTrees.BPlusTree.InnerFind | src/barq/bplustree.cpp:480-515 | The traversal with the search callback stops at the first occurrence in the subtree. |
| BPlusTrees.BPlusTree.Insert | src/barq/bplustree.hpp:359-369 | The contents become the old ones with the element inserted; a position beyond the end appends; appending keeps a compact tree compact. |
| BPlusTrees.BPlusTree.Add | src/barq/bplustree.hpp:354-357 | The element is appended. |
| BPlusTrees.BPlusTree.GrowTree | src/barq/bplustree.cpp:806-830 | A split root gets a new root above it, and the tree stays valid. |
| BPlusTrees.BPlusTree.Erase | src/barq/bplustree.hpp:565-575 | The contents become the old ones without the element. |
| BPlusTrees.BPlusTree.CollapseRoot | src/barq/bplustree.cpp:832-846 | A root with one child gives way to it, repeatedly, and its memory is freed. |
| BPlusTrees.BPlusTree.Get | src/barq/bplustree.hpp:371-381 | The cached fast path and the descent return the element. |
| BPlusTrees.BPlusTree.GetUncached | src/barq/bplustree.hpp:383-395 | The descent without cache returns the same element. |
| BPlusTrees.BPlusTree.GetRange | src/barq/bplustree.hpp:494-511 | Leaf-wise copying returns exactly the requested stretch. |
| BPlusTrees.BPlusTree.Set | src/barq/bplustree.hpp:513-521 | One element is overwritten in place; shape and form stay. |
| BPlusTrees.BPlusTree.FindFirst | src/barq/bplustree.hpp:600-618 | The least index of the value, or npos exactly when it is absent. |
| BPlusTrees.BPlusTree.Clear | src/barq/bplustree.hpp:577-591 | The tree is valid, empty and compact, and no node leaks. |
| BPlusTrees.BPlusTree.AddFrom | src/barq/bplustree.hpp:421-452 | All values are appended, one by one or in bulk, and a compact tree stays compact. |
| BPlusTrees.BPlusTree.BulkAdoptLeaves | src/barq/bplustree.cpp:771-804 | Leaves full except the last become a valid compact tree of exactly their contents. |
| BPlusTrees.CompactTreesEqual | src/barq/bplustree.hpp:421-452 | Valid compact trees of equal contents are equal, node for node, and equally high. |
| TreeRuns.Run | src/barq/bplustree.hpp:354-591 | Any run of insert, append, bulk append, erase, set and clear does to the contents what it does to a plain sequence. |
| TreeRuns.SameTrees | src/barq/bplustree.hpp:421-452 | Runs that only append, in bulk or singly, overwrite or clear, and end in the same sequence, end in equal trees. |
| Sections.Aligned | src/barq/alloc_slab.hpp:798-822 | Aligning gives the start of the section after the file, less than a section away. |
| Sections.NextSection | src/barq/alloc_slab.cpp:468-480 | The slab after one that starts a section starts the next section. |
| SlabModel.Mark | src/barq/alloc_slab.cpp:340-364 | Marking a block in both its tags keeps the tiling. |
| SlabModel.Break | src/barq/alloc_slab.cpp:418-434 | Splitting a free block keeps the tiling. |
| SlabModel.Merge | src/barq/alloc_slab.cpp:436-444 | Merging neighbouring free blocks keeps the tiling, although the tag between them stays in memory. |
| SlabModel.AddSlab | src/barq/alloc_slab.cpp:387-400 | A fresh slab as one block, with end tags, keeps the tiling. |
| FreeLists.UnlinkRing | src/barq/alloc_slab.cpp:295-302 | Unlinking any node leaves a circle of the others in the same order. |
| FreeLists.PushRing | src/barq/alloc_slab.cpp:320-332 | Linking a node in before the head gives a circle that starts with it. |
| FreeLists.RemoveEntry | src/barq/alloc_slab.cpp:304-318 | Removing an entry, head or not, leaves exact lists of all other free blocks. |
| FreeLists.PushEntry | src/barq/alloc_slab.cpp:320-338 | Pushing an entry makes it the head of the list of its size and leaves the other lists alone. |
| SlabSteps.LeftNeighbour | src/barq/alloc_slab.cpp:244-250 | The tag before a block leads to its left neighbour exactly when that is free. |
| SlabSteps.RightNeighbour | src/barq/alloc_slab.cpp:252-258 | The tag after a block leads to its right neighbour exactly when that is free. |
| SlabSteps.CoalescedMerge | src/barq/alloc_slab.cpp:583-598 | Merging with a neighbour leaves no other pair of neighbouring free blocks. |
| SlabSteps.ExactTiling | src/barq/alloc_slab.hpp:822-853 | Every byte of a slab before its end tag belongs to exactly one block or the tag before it. |
| SlabSteps.AllFree | src/barq/alloc_slab.cpp:1557-1575 | With nothing in use, each slab is one free block of its size minus 16. |
| SlabSteps.WantedWithout | src/barq/alloc_slab.cpp:214-215 | The bytes in use are a sum over blocks, in any order. |
| Translation.RefTranslates | src/barq/alloc.hpp:535-572 | The ref of a block lies in the section of its slab, and the table entry of that section leads to the block's address. |
| Translation.NextSlabRef | src/barq/alloc_slab.cpp:468-482 | A new slab is placed at the start of the section after the last slab, or after the file. |
| Translation.RetireMapping | src/barq/alloc_slab.cpp:1262-1271 | A replaced mapping is retained for at least as long as every table that uses it. |
| Translation.FileGrew | src/barq/alloc_slab.cpp:1262-1274 | Growth of the file keeps every old table, and the one in use, on current or retained mappings. |
| Translation.PurgeSafe | src/barq/alloc_slab.cpp:1455-1470 | Purging by version never takes a mapping from a table that is retained. |
| ReadOnlySpace.AddChunk | src/barq/alloc_slab.cpp:527-565 | The freed bytes are added to the map of intervals, which stay disjoint and never touch. |
| ReadOnlySpace.CanonicalUnique | src/barq/alloc_slab.cpp:527-565 | Disjoint intervals that never touch are determined by the bytes they cover. |
| ReadOnlySpace.OrderIrrelevant | src/barq/alloc_slab.cpp:527-565 | The same chunks freed in any two orders leave the same map. |
| ReadOnlySpace.FindSectionInRange | src/barq/alloc_slab.cpp:1485-1497 | The least position in a chunk where a request crosses no section boundary; 0 from a positive start only when there is none. |
| SlabAllocs.SlabHolds | src/barq/alloc_slab.cpp:446-466 | A new slab holds an admitted 8-aligned request exactly when it is at most 2^26 - 16 bytes. |
| SlabAllocs.BlockHolds | src/barq/alloc_slab.hpp:822-853 | No block of any slab is larger than 2^26 - 16 bytes. |
| SlabAllocs.ZeroFails | src/barq/alloc_slab.cpp:231-232 | A block of a slab at the ref 0 has a ref that does not translate to it. |
| SlabAllocs.SlabAlloc.constructor | src/barq/alloc_slab.cpp:1318-1391 | An allocator attached to a mapped file is valid, has no slabs and nothing in use. |
| SlabAllocs.SlabAlloc.FindList | src/barq/alloc_slab.cpp:260-281 | A list of exactly the size if there is one, else of the least size that can be split, else none. |
| SlabAllocs.SlabAlloc.RemoveFreelistEntry | src/barq/alloc_slab.cpp:283-318 | A free block is taken out of its list, everything else stays exact. |
| SlabAllocs.SlabAlloc.PushFreelistEntry | src/barq/alloc_slab.cpp:320-338 | A free block outside the lists enters the list of its size. |
| SlabAllocs.SlabAlloc.BreakBlock | src/barq/alloc_slab.cpp:418-434 | A block is split exactly when the rest can be a block, and the rest holds its own ref. |
| SlabAllocs.SlabAlloc.MergeWith | src/barq/alloc_slab.cpp:436-444 | Two neighbouring free blocks become one. |
| SlabAllocs.SlabAlloc.MarkFreed | src/barq/alloc_slab.cpp:340-354 | The size and tag checks of a matching free cannot fail. |
| SlabAllocs.SlabAlloc.NewSlabSize | src/barq/alloc_slab.cpp:457-466 | As much as is allocated, at least the rounded request with its tags, at most one section. |
| SlabAllocs.SlabAlloc.ExtendTable | src/barq/alloc_slab.cpp:1327-1341 | The table gets the new slab's base as its last entry, and the old table is retained with the youngest live version. |
| SlabAllocs.SlabAlloc.GrowSlab | src/barq/alloc_slab.cpp:446-495 | Exactly when its refs end below 2^64, one slab and its table entry are added, the replaced table is retained, and a free block holds a request of up to 2^26 - 16 bytes; everything else stays. |
| SlabAllocs.SlabAlloc.AllocateBlock | src/barq/alloc_slab.cpp:366-385 | A free block outside the lists, less than 32 bytes larger than needed, exactly when a free block is suitable or a new slab has room; the size check fails exactly above 2^26 - 16 bytes. Slabs and table stay, or one slab is added and the replaced table retained. |
| SlabAllocs.SlabAlloc.Alloc | src/barq/alloc_slab.cpp:196-242 | For every size admitted, exactly which of four results there is: one block goes into use, disjoint from all others in use, less than 32 bytes larger than needed, with a ref beyond the file that translates to it; or overflow is reported; or one of two checks fails. Slabs that were there stay, and a replaced table is retained. |
| SlabAllocs.SlabAlloc.MergeLeft | src/barq/alloc_slab.cpp:583-591 | After merging to the left no free block precedes. |
| SlabAllocs.SlabAlloc.MergeRight | src/barq/alloc_slab.cpp:592-597 | After merging to the right all free blocks are coalesced. |
| SlabAllocs.SlabAlloc.Free | src/barq/alloc_slab.cpp:498-581 | Exactly the freed block goes out of use, or exactly the freed read-only bytes are recorded. |
| SlabAllocs.SlabAlloc.RebuildFreelists | src/barq/alloc_slab.cpp:407-416 | Every slab becomes one free block in the right list, with nothing in use. |
| SlabAllocs.SlabAlloc.ResetFreeSpaceTracking | src/barq/alloc_slab.cpp:1104-1126 | Exactly a minimal first slab is kept, the table shrinks with the others, and all space is free. |
| SlabAllocs.SlabAlloc.IsAllFree | src/barq/alloc_slab.cpp:1557-1575 | True exactly when no block is in use, from the end tags alone. |
| SlabAllocs.SlabAlloc.UpdateReaderView | src/barq/alloc_slab.cpp:1185-1306 | The mappings are those that stay and the new ones, exactly a replaced mapping and a replaced table are retained, slabs move up by whole sections with their addresses and sizes kept, and table, lists and refs follow. |
| SlabAllocs.SlabAlloc.RebuildTranslations | src/barq/alloc_slab.cpp:1343-1391 | The table becomes the mappings followed by the slabs' bases; the old one is retained unchanged exactly when it is replaced and not empty. |
| SlabAllocs.SlabAlloc.PurgeOldMappings | src/barq/alloc_slab.cpp:1455-1470 | Exactly what was replaced before the oldest live version goes, and the rest stays usable. |
| SlabRuns.Client.Alloc | src/barq/alloc_slab.cpp:196-242 | A ref that is given out is not held yet; what is held stays, and a table that goes out of use is recorded and retained. |
| SlabRuns.Client.Free | src/barq/alloc_slab.cpp:498-581 | Every ref that is held can be freed, in any order; exactly it is given up. |
| SlabRuns.Client.Grow | src/barq/alloc_slab.cpp:1185-1306 | After growth of the file every table that was replaced since the oldest live version is retained. |
| SlabRuns.Client.Perform | src/barq/alloc_slab.hpp:303-326 | Any operation, in any state: what is held changes as the outcome says, tables that go out of use are recorded, and the state stays valid unless a check fails. |
| SlabRuns.Client.Run | src/barq/alloc_slab.hpp:303-326 | Over any run of requests, releases, resets, file growth and purges, every ref that was given out and not given up since translates to the address given with it. |
| SlabRuns.HeldUntil | src/barq/alloc_slab.hpp:303-326 | What was given for a ref is held until that ref is freed or the space is reset. |
| SlabRuns.Client.Translates | src/barq/alloc.hpp:535-572 | In every state of a run, every ref that is held translates to its block. |
| SlabRuns.Client.Disjoint | src/barq/alloc_slab.hpp:822-853 | In every state of a run, what is held for two refs does not overlap. |
| SlabRuns.Client.Usable | src/barq/alloc_slab.cpp:1422-1453 | In every state of a run, every table ever replaced at or after the oldest live version is retained, and each mapping it leads to is current or retained as long. |
| CrossOver.OneCrosses | src/barq/alloc.cpp:124-146 | At most one array of a section crosses its end. |
| CrossOver.BelowLimit | src/barq/alloc.hpp:553-572 | An array that starts below the limit lies wholly in its section. |
| CrossOver.AssertedOffset | src/barq/alloc_slab.cpp:1393-1420 | A thread that is about to add a mapping can only read its own array's offset as the limit, and any mapping there holds that array. |
| CrossOver.NextInv | src/barq/alloc.cpp:116-152 | Every step of every thread, also of one that copies the entry, keeps the invariant, and the limit never shrinks. |
| CrossOver.CopyInv | src/barq/alloc.hpp:204-223 | An entry copied load by load, while other threads go on, satisfies the invariant. |
| CrossOver.CopyExact | src/barq/alloc.hpp:204-223 | A copy that has the mapping is right exactly with the last value of the limit, hence the order of the loads. |
| CrossOver.Safety | src/barq/alloc.cpp:116-152 | In every interleaving, also in tables that the entry was copied into: arrays below the limit lie in the section, primary translations are of such arrays, and cross-over translations of the one array that crosses, through a mapping that holds it. |
| Lanes.TestZeroExact | src/barq/array_with_find.hpp:378-385 | The borrow trick tells exactly whether some lane is zero, for every lane width and count. |
| Lanes.HalfMasks | src/barq/array_with_find.hpp:405-407 | The masks for half of the lanes, of every width, are the constants of the first bisection test. |
| Lanes.QuarterMasks | src/barq/array_with_find.hpp:410-423 | The masks for one and three quarters of the lanes are the constants of the second tests. |
| Lanes.FindZero | src/barq/array_with_find.hpp:390-436 | The first zero, or first non-zero, lane; the bisection skips none. |
| LaneCompare.FirstSetBitExact | src/barq/array_with_find.cpp:63-71 | The De Bruijn lookup gives the number of trailing zeros of every non-zero 32-bit word. |
| LaneCompare.FirstSetBit64Exact | src/barq/array_with_find.cpp:73-80 | The same for 64 bits. |
| LaneCompare.UpperTest | src/barq/array_with_find.hpp:930-938 | The mask test tells exactly whether all lanes have their top bit clear. |
| LaneCompare.GreaterMarks | src/barq/array_with_find.hpp:452-463 | With top bits clear, and a value from -1 to the largest such lane, the addition carries between no lanes and marks exactly the greater ones. |
| LaneCompare.GreaterExact | src/barq/array_with_find.hpp:440-463 | For every value of a word's signed range, every lane width and count: the formula is right on all words with top bits clear if and only if the value is in that range. |
| LaneCompare.FirstMark | src/barq/array_with_find.hpp:464-476 | The lowest set bit of the marks tells the first greater lane. |
| LaneCompare.FillProduct | src/barq/array_with_find.hpp:440-449 | The constants with one value in all lanes are the products that the code computes. |
| LaneCompare.LessExact | src/barq/array_with_find.hpp:460-463 | With top bits clear, the less-than formula marks exactly the lesser lanes if and only if no lane equal to the value stands directly above a lesser one. |
| LaneCompare.LessLeaks | src/barq/array_with_find.hpp:460-463 | For every positive value and lane width there is a word on which the formula marks a lane that is not less. |
| LaneCompare.LessLeaks64 | src/barq/array_with_find.hpp:460-463 | Such a word of 64 bits, for lanes of two bits. |
| PackedArrays.WordLanes | src/barq/array_direct.hpp:146-184 | The elements in a word of memory are its lanes. |
| PackedArrays.EqualBits | src/barq/array_with_find.hpp:583-592 | An element equals a value of its width's range exactly when their masked bits agree. |
| PackedArrays.EqualBitsExact | src/barq/array_with_find.hpp:583-592 | Comparing masked bits is right for all elements if and only if the value is in range. |
| PackedArrays.ElementInRange | src/barq/array.hpp:556-600 | Every element lies between the limits of its width. |
| Finder.ScanLinear | src/barq/array_with_find.hpp:571-578 | Reports the ascending hits, each with its element, up to the first refused match. |
| Finder.EqualWord | src/barq/array_with_find.hpp:594-620 | One word of an equality or inequality search reports what a linear scan of its elements would, for the value in range that has the same bits. |
| Finder.RelationWord | src/barq/array_with_find.hpp:483-561 | The same for relations, lane by lane. |
| Finder.GreaterFast | src/barq/array_with_find.hpp:452-479 | The same for greater-than, by marks; the lanes reported as values are the elements. |
| Finder.GuardExact | src/barq/array_with_find.hpp:923-928 | The guard of the fast test is false for every less-than search, and for greater-than true exactly for the values for which the formula is right on all words, except -1 and 2^(w-1) - 1. |
| Finder.Compare | src/barq/array_with_find.hpp:566-636 | Head, words and tail together report, for every width, start, end and value, what a linear scan would, with equality in whole words taken of the bits. |
| Finder.CompareExact | src/barq/array_with_find.hpp:580-592 | For equality that is the linear scan, on all arrays of a packed width and all ranges, if and only if the value is in range. |
| Finder.SixteenFound | src/barq/array_with_find.hpp:580-592 | A search for 16 in elements of four bits reports one that is 0. |
| Finder.WidthDecides | src/barq/query_conditions.hpp:279-286 | Where the width rules a match out no element matches, and where it implies one all do. |
| Finder.FindAllWillMatch | src/barq/array_with_find.hpp:280-290 | What a linear scan reports of as many elements as the limit leaves. |
| Finder.CutExact | src/barq/array_with_find.hpp:280-290 | Where all elements match, that is what a scan of all reports if and only if nothing is left, or the consumer would not accept all elements before the cut, one after the other. |
| Finder.LimitHarmless | src/barq/array.cpp:1288-1350 | For consumers for which every match counts it always is. |
| Finder.MissingRun | src/barq/query_conditions_tpl.hpp:75-108 | For a search for the maximum with limit 2 it is not: of the elements 5, 5, 7 the last is never reported. |
| Finder.FindOptimized | src/barq/array_with_find.hpp:297-374 | For every width, condition, value, range and consumer, the matches reported and the result are those of a linear scan up to a stop, which is the end unless all match and the limit leaves less; the scan is complete if and only if that is the end or the consumer would not accept all elements before. |
| IntArrays.BitWidthLeast | src/barq/array.cpp:193-210 | The width is the least that holds the value. |
| IntArrays.WriteSame | src/barq/array_direct.hpp:81-133 | A value in range that is written to a slot is read back. |
| IntArrays.Rewrite | src/barq/array.cpp:438-466 | A write of the re-encoding, from the last slot down, spoils no element that is still to be read. |
| IntArrays.IntArray.Insert | src/barq/array.cpp:419-468 | The contents become the old ones with the value inserted, for every pair of old and new width. |
| IntArrays.IntArray.MakeRoom | src/barq/array_unsigned.cpp:168-213 | The elements from the index on move one slot up, widened, by block or one by one. |
| IntArrays.IntArray.EnsureMinimumWidth | src/barq/array.cpp:524-542 | Re-encoding keeps the contents and makes the value fit. |
| IntArrays.IntArray.Set | src/barq/array.cpp:362-376 | One element is overwritten, after widening if need be. |
| IntArrays.IntArray.Erase | src/barq/array.hpp:862-871 | The contents become the old ones without the element. |
| IntArrays.IntArray.Truncate | src/barq/array.cpp:471-492 | A prefix remains; an array that becomes empty, or an unsigned one that is truncated to 0, goes back to the initial width. |
| IntArrays.IntArray.MoveTo | src/barq/array.cpp:341-360 | The tail goes to the end of the other array, which gets the larger of the two widths. |
| IntArrays.UpperLimitDecides | src/barq/array.cpp:341-347 | A width that holds the upper limit of another holds all its values. |
| MixedArrays.WordParts | src/barq/array_mixed.hpp:115-126 | Type, payload index and data are read back from a composite word, also for negative data. |
| MixedArrays.ErasePayload | src/barq/array_mixed.cpp:397-459 | Moving the last slot over the erased one, and redirecting its owner, keeps words and slots one to one and all other values. |
| MixedArrays.OwnerIsFirst | src/barq/array_mixed.cpp:382-395 | The first word that matches in `replace_index` is the live owner of the slot, whatever stale words follow. |
| MixedArrays.FillPayload | src/barq/array_mixed.cpp:461-573 | A new slot for one element keeps words and slots one to one and all other values. |
| MixedArrays.OpenHole | src/barq/array_mixed.cpp:92-108 | Inserting a word shifts the owners and keeps all values. |
| MixedArrays.CloseHole | src/barq/array_mixed.cpp:229-241 | Erasing a word shifts the owners and keeps all values. |
| MixedArrays.ArrayMixed.Get | src/barq/array_mixed.cpp:119-203 | The stored value, of its type. |
| MixedArrays.ArrayMixed.ReplaceIndex | src/barq/array_mixed.cpp:382-395 | The first matching word is redirected, and no other changes. |
| MixedArrays.ArrayMixed.EraseLinkedPayload | src/barq/array_mixed.cpp:397-459 | The payload of one element is given up; all other values, and words beyond the live part, stay. |
| MixedArrays.ArrayMixed.Store | src/barq/array_mixed.cpp:461-573 | The word decodes to the value, from the word alone or from one new slot. |
| MixedArrays.ArrayMixed.Insert | src/barq/array_mixed.cpp:92-108 | The contents become the old ones with the value inserted. |
| MixedArrays.ArrayMixed.Add | src/barq/array_mixed.cpp:52-59 | The value is appended. |
| MixedArrays.ArrayMixed.Set | src/barq/array_mixed.cpp:62-90 | One value is replaced. |
| MixedArrays.ArrayMixed.SetNull | src/barq/array_mixed.cpp:110-117 | One value becomes null. |
| MixedArrays.ArrayMixed.Erase | src/barq/array_mixed.cpp:229-241 | The contents become the old ones without the element. |
| MixedArrays.ArrayMixed.Move | src/barq/array_mixed.cpp:243-268 | The tail goes to the other leaf, although stale words remain while payloads are erased in descending order. |
| MixedArrays.ArrayMixed.Clear | src/barq/array_mixed.cpp:207-227 | The leaf is empty. |
| Bits.OddFactor | src/barq/array_integer.cpp:78-85 | A power of two that divides a product with an odd factor divides the other factor. |
| NullLeaves.CandidatesDiffer | src/barq/array_integer.cpp:78-85 | The first 2^64 null candidates are all different, from any start. |
| NullLeaves.FirstExists | src/barq/array_integer.cpp:88-104 | Of any n + 2 successive candidates one is neither stored nor incoming. |
| NullLeaves.NullWidthOK | src/barq/array_integer.cpp:137-150 | The width chosen is larger, holds the value, and has another upper limit than the value. |
| NullLeaves.ReadBackExact | src/barq/array_integer.hpp:184-215 | In any leaf, a value that was stored is read back if and only if it was not the null of a narrow leaf, below its upper limit. |
| NullLeaves.SafeExact | src/barq/array_integer.cpp:129-162 | With the null at the limit it stays there, or the leaf gets 64 bits, if and only if the value is not 0x7fffffff in a narrower leaf with a first usable candidate of at most 32 bits. |
| NullLeaves.AddAllExact | src/barq/array_integer.cpp:216-223 | Appending any values: all are read back if and only if none is the null that 0x7fffffff brought in, before a value that needs 64 bits; the null is at the limit again exactly when no such null is left. |
| NullLeaves.EarlyCandidate | src/barq/array_integer.cpp:88-104 | From a start below 2^62 the candidates tried for a leaf of at most 2^24 elements all need 64 bits. |
| NullLeaves.NothingLost | src/barq/array_integer.cpp:216-223 | So nothing is lost from such a start, nor without 0x7fffffff, nor in a leaf of 64 bits. |
| NullLeaves.SmallCandidate | src/barq/array_integer.cpp:88-104 | A start from which an empty leaf gets the null 5. |
| NullableInts.LosingRun | src/barq/array_integer.hpp:184-193 | From there the leaf stores 0x7fffffff and 5, and reads back 0x7fffffff and null. |
| NullableInts.ReplacedSame | src/barq/array_integer.cpp:111-126 | Replacing the null by a value that is not stored keeps exactly the null positions. |
| NullableInts.ArrayIntNull.constructor | src/barq/array_integer.cpp:50-54 | A new leaf is valid and empty. |
| NullableInts.ArrayIntNull.Get | src/barq/array_integer.hpp:222-229 | The stored option. |
| NullableInts.ArrayIntNull.CanUseAsNull | src/barq/array_integer.cpp:106-109 | True exactly when the candidate is not among the stored values; the null itself is not. |
| NullableInts.ArrayIntNull.ChooseRandomNull | src/barq/array_integer.cpp:88-104 | The first of the candidates, from any start, that is neither stored nor the incoming value; it is among the first n + 2. |
| NullableInts.ArrayIntNull.ReplaceNullsWith | src/barq/array_integer.cpp:111-126 | Slot 0 and exactly the null elements get the new null. |
| NullableInts.ArrayIntNull.AvoidNullCollision | src/barq/array_integer.cpp:129-162 | For any start and value, width and null are those of the specification and the options stay; the value then differs from slot 0 unless it is hidden. |
| NullableInts.ArrayIntNull.Insert | src/barq/array_integer.hpp:184-193 | For any start, the options become the old ones with the new one inserted, unless that is hidden; with the null at the limit nothing is hidden, and the null stays there exactly when the value does not break the leaf. |
| NullableInts.ArrayIntNull.Add | src/barq/array_integer.hpp:195-204 | The same for appending. |
| NullableInts.ArrayIntNull.Set | src/barq/array_integer.hpp:206-215 | The same for overwriting. |
| NullableInts.ArrayIntNull.Erase | src/barq/array_integer.hpp:253-256 | The options become the old ones without the element. |
| NullableInts.ArrayIntNull.Clear | src/barq/array_integer.hpp:263-267 | The leaf is empty, with 0 for null. |
| NullableInts.ArrayIntNull.Move | src/barq/array_integer.cpp:216-223 | For any start, the tail arrives in the other leaf, with its null at the limit before, if and only if nothing is lost as `NullLeaves.AddAllExact` says. |

## Left out

- File input and output, memory mapping, encryption, header validation and conversion of streaming files.
- The in-memory mode without a file, and `resize_file`.
- The SSE paths of the search and of `sum`; the scalar path makes the same promise.
- `Array::count`, aggregates, `get_chunk`, `lower_bound` and the other leaf arrays, which are easier relatives of what is here.
- The keys array of `ArrayMixed`, and who owns the memory of nested collections.
- `split_root` and `split_if_needed` of the B+-tree, `swap` and the traversals other than `find_first`.
- Relocation of nodes when they grow or are copied on write: a node keeps its ref, and the offsets array of a general node is part of its record.
- Searches in sorted offsets use one binary search for all widths.
- The state of the allocator after a failed allocation of bookkeeping memory, in which it refuses to work.
- TreeRuns.SameTrees: starts from empty trees and covers the operations that keep a tree compact.
- SlabAllocs.SlabAlloc.UpdateReaderView: does not wrap file sizes and refs at 2^64, where the code does not check them.
- NullableInts.ArrayIntNull.Move: takes one start for all elements, as the calls come from one place.
- MixedArrays.ArrayMixed.Store: floats, doubles, decimals, identifiers and timestamps are the raw integers or bytes that the code makes of them.
