# Sparse terrain voxel octree, LOD selection and supporting libraries

This project models the terrain engine of the Space-Survival-Game repository in Dafny. It covers:

- **the sparse voxel octree**: nodes of 16·2^mip voxels with eight optional children, dense 16³ blocks of `i8` densities at mip level 0, writes that create children lazily and mark the path dirty, reads that fall back to the default value, 64-bit path indices with 4 bits per level, and the 19³ sample lattice with its gutter;
- **the geometry helpers** of `OctreeFunctionLibrary`;
- **the LOD selection walk**, with the frustum test and the viewport-area heuristic as uninterpreted parameters;
- **the leaf file format**: a `{u32 version, u32 count}` header, then records of `{u64 index, 4096 bytes}`;
- **the polygonizer's result block**: one allocation carved into header, normals, positions, indices and samples;
- **the Transvoxel table accessors**: the packed vertex and triangle counts of Lengyel's "Voxel-Based Terrain for Real-Time Virtual Simulations", sections 3.2 and 4.3;
- **the first-fit block allocator** `BasicHeap`;
- **the run-length encoded voxel rows** of `TerrainVoxelVolume`.

## How things are modelled

- Nodes are immutable values, and a node is named by the sequence of octants leading to it from the root. Pointers become those paths or, in the allocator, byte offsets.
- Memory the engine never initialises is a parameter: a new node's mesh flag, a freshly allocated block, and a stale decode buffer. So is anything decided outside the shown code: the float oracles of the LOD walk, the iteration order of an `unordered_set`, whether a file opens, the allocator's return address and the size of the worker header.
- `PolygonizeCellSync` stops after sampling (Engine/src/TerrainPolygonizer.cpp:30-64), so it always yields zero vertices and zero indices.
- `FindMemoryBlockFromPtr` steps back one header from the pointer (Engine/src/BasicHeapAllocator.cpp:98-101) and cannot fail. The model looks up a header at that offset in the block list instead, so a block that has dropped out of the list is not found.
- `SetVoxelAt` builds its index by shifting a 32-bit `int` four bits per level (Engine/src/SparseTerrainVoxelOctree.cpp:66), which is defined only for roots at most 8 levels deep. Below a deeper root the write is modelled in full, and the index is `None`.
- `FindNodeFromIndex` shifts the 64-bit index right by four bits per level (Engine/src/SparseTerrainVoxelOctree.cpp:194), which is defined only for roots at most 16 levels deep. That bound is part of its precondition, together with the engine's other fault conditions, so saving an index and loading a record both require it.
- The octree constructor takes a `u32` width, but `GetMipLevel` takes an `i32` (Engine/include/OctreeFunctionLibrary.h:15, Engine/src/SparseTerrainVoxelOctree.cpp:22). A width of 2^31 turns negative there and fails the power-of-two assertion (Engine/src/OctreeFunctionLibrary.cpp:40), so `NewOctree` requires a width that fits an `i32`. That bound also keeps every node coordinate inside `i32`.
- `PopulateSingleMipLevel` and `CreateChildrenForFirstNMipLevels` give the result `BelowMipZero` when the code would give children to a mip-0 node. What the code builds from there is not a valid octree.
- Defects found while stating the intended contracts are listed under "Findings". Each one has two halves: a member that follows the code as written, with a concrete input that shows the problem, and a corrected member whose intended property is proved. The rest of the model uses the corrected member.

## Model

| member | source | states |
|---|---|---|
| TerrainTypes.VoxelByteRoundTrip | Engine/src/OctreeSerialisationLibrary.cpp:27-31 | Writing an `i8` density through a `char*` and reading it back gives the density again, and every byte arises this way. |
| OctreeFunctionLibrary.GetSizeInVoxels | Engine/src/OctreeFunctionLibrary.cpp:6-14 | The size is 16·2^m reduced modulo 2^32. It is exact up to mip 27 and wraps to 0 from mip 28 on. |
| OctreeFunctionLibrary.IsAPowerOfTwo | Engine/src/OctreeFunctionLibrary.cpp:23-36 | The test holds only for positive numbers. `IsAPowerOfTwoCorrect` states exactly which. |
| OctreeFunctionLibrary.IsAPowerOfTwoCorrect | Engine/src/OctreeFunctionLibrary.cpp:23-36 | The power-of-two test holds exactly when n = 2^k for some k ≥ 0. |
| OctreeFunctionLibrary.GetMipLevel | Engine/src/OctreeFunctionLibrary.cpp:38-48 | For a power of two of at least 16, the halving loop ends at the level m with 16·2^m equal to the width. |
| OctreeFunctionLibrary.MipLevelOfSize | Engine/src/OctreeFunctionLibrary.cpp:38-48 | Mip level and size are inverses: the mip level of 16·2^m is m. |
| OctreeFunctionLibrary.OctantPartition | Engine/src/OctreeFunctionLibrary.cpp:16-21 | A point of a cube of even size lies in the half-size sub-cube at corner + (x,y,z)·size/2 exactly when that octant is the one the midpoint comparison gives. |
| OctreeFunctionLibrary.FirstOctantContaining | Engine/src/SparseTerrainVoxelOctree.cpp:257-292 | The z/y/x search returns the first octant in index order whose sub-cube holds the point, and none before it does. |
| OctreeFunctionLibrary.FindChildMatchesOctantOf | Engine/src/SparseTerrainVoxelOctree.cpp:262-285 | For a point inside the cube the search always succeeds, and it finds the octant `x \| y<<1 \| z<<2` of the midpoint comparison. |
| OctreeIndex.NibbleOfIndex | Engine/src/SparseTerrainVoxelOctree.cpp:66 | Nibble k of the index built during a descent is the octant taken at depth k. |
| OctreeIndex.NibbleAboveIndex | Engine/src/SparseTerrainVoxelOctree.cpp:66 | Nibbles above the descent's depth are zero. |
| OctreeIndex.IndexRoundTrip | Engine/src/SparseTerrainVoxelOctree.cpp:195 | Reading nibbles back, as `FindNodeFromIndex` does, recovers the path. For depth ≤ 8 the index fits in 32 bits and is never the rejection value. |
| OctreeIndex.IndexInjective | Engine/src/SparseTerrainVoxelOctree.cpp:66 | Distinct paths of the same depth get distinct indices. |
| OctreeNode.NewNodeIsValidAndBare | Engine/include/SparseTerrainVoxelOctree.h:27-34 | A new node has all eight child slots null and no voxel block, is structurally valid, and its dirty flag is whatever the uninitialised mesh held. |
| OctreeNode.NewChild | Engine/src/SparseTerrainVoxelOctree.cpp:278-282 | A child created in slot i sits one mip level lower, at half the size and at the parent's corner plus the octant's offset, and is bare. |
| OctreeNode.NodeAt | Engine/include/SparseTerrainVoxelOctree.h:36 | Following `GetChild` along a path reaches a valid node whose mip level is the start's minus the path length. |
| SparseTerrainVoxelOctree.NewOctree | Engine/src/SparseTerrainVoxelOctree.cpp:18-30 | For a power-of-two width of at least 16 that fits the `i32` parameter of `GetMipLevel`, the constructor gives a bare valid root at the origin of the requested size; the default value is the high clamp value. |
| SparseTerrainVoxelOctree.ChildIndexFor | Engine/src/SparseTerrainVoxelOctree.cpp:257-292 | The slot the descent uses is the first octant whose cube holds the point. |
| SparseTerrainVoxelOctree.GetLocationWithinMipZeroCell | Engine/src/SparseTerrainVoxelOctree.cpp:313-321 | For a point inside a mip-0 node, the local offset has every coordinate in 0..15, and corner + offset is the point. |
| SparseTerrainVoxelOctree.VoxelDataIndexInjective | Engine/src/SparseTerrainVoxelOctree.cpp:83 | The flattening `x + 16y + 256z` maps distinct local positions to distinct samples of the block. |
| SparseTerrainVoxelOctree.WriteDown | Engine/include/SparseTerrainVoxelOctree.h:112-113 | A descent keeps the tree valid and takes exactly `MipLevel` steps, so the ancestor stack of `MipLevel + 1` entries never overflows. |
| SparseTerrainVoxelOctree.WriteThenLookup | Engine/src/SparseTerrainVoxelOctree.cpp:70-86 | After a write, the point holds the written value and its read path reaches a block. |
| SparseTerrainVoxelOctree.WriteFrame | Engine/src/SparseTerrainVoxelOctree.cpp:70-86 | A write changes the stored value of no other point; a freshly allocated block reads as the default elsewhere. |
| SparseTerrainVoxelOctree.WriteMarksAncestors | Engine/src/SparseTerrainVoxelOctree.cpp:58-61 | Every node on the write path above mip 0 ends up dirty. |
| SparseTerrainVoxelOctree.WriteMarksLeaf | Engine/src/SparseTerrainVoxelOctree.cpp:84-94 | The mip-0 node reached holds the point and a block. It is marked dirty when the stored value changed, and otherwise keeps its flag. |
| SparseTerrainVoxelOctree.WriteLeavesOtherNodes | Engine/src/SparseTerrainVoxelOctree.cpp:58-68 | A write creates, marks or changes no node at any other full-depth path. |
| SparseTerrainVoxelOctree.SetVoxelAt | Engine/src/SparseTerrainVoxelOctree.cpp:44-98 | The all-ones index comes back exactly when the value is outside the clamp range, and then the tree is unchanged. The index is undefined exactly for accepted writes below a root deeper than mip 8. Any root depth is accepted, and the tree stays valid. |
| SparseTerrainVoxelOctree.ClampToZero | Engine/src/SparseTerrainVoxelOctree.cpp:127-132 | Reads clamp negative coordinates to 0 and leave non-negative points alone. |
| SparseTerrainVoxelOctree.AllocatedIsReadable | Engine/src/SparseTerrainVoxelOctree.cpp:156 | In a tree whose every mip-0 node has a block, the read path's assertion that a block exists always holds. |
| SparseTerrainVoxelOctree.BareReadsDefault | Engine/src/SparseTerrainVoxelOctree.cpp:147-154 | A node with no children reads the default everywhere. |
| SparseTerrainVoxelOctree.SetThenGet | Engine/src/SparseTerrainVoxelOctree.cpp:44-98 | `GetVoxelAt` after an in-range `SetVoxelAt` at an in-root point returns the value written, for a root of any depth. |
| SparseTerrainVoxelOctree.GetVoxelAt | Engine/src/SparseTerrainVoxelOctree.cpp:125-160 | A tree whose root has no children reads the default value everywhere. `SetThenGet`, `SetFrame` and `NewOctreeReadsDefault` state the rest of its meaning. |
| SparseTerrainVoxelOctree.SetFrame | Engine/src/SparseTerrainVoxelOctree.cpp:125-160 | Any `SetVoxelAt`, accepted or rejected and at any root depth, leaves every other readable point reading what it read before, including points that clamp to a different location. |
| SparseTerrainVoxelOctree.NewOctreeReadsDefault | Engine/src/SparseTerrainVoxelOctree.cpp:136-154 | A new octree above mip 0 reads the default (the high clamp value) everywhere. A root that is itself mip 0 cannot be read before its first write. |
| SparseTerrainVoxelOctree.SetIndexFindsLeaf | Engine/src/SparseTerrainVoxelOctree.cpp:188-224 | For a root at most 8 levels deep, a write returns an index. That index, given to `FindNodeFromIndex` without creation, finds the mip-0 node holding the point, with its block. |
| SparseTerrainVoxelOctree.FindDownReaches | Engine/src/SparseTerrainVoxelOctree.cpp:192-222 | The walk returns the node its path leads to. With creation it always finds one; without creation it returns an existing node unchanged, or null. |
| SparseTerrainVoxelOctree.FindNodeFromIndex | Engine/src/SparseTerrainVoxelOctree.cpp:188-224 | For a root at most 16 levels deep, whose nibbles all name child slots, the walk keeps the tree valid and the clamp values as they were. `FindNodeFromIndexSpec` states what it finds. |
| SparseTerrainVoxelOctree.FindNodeFromIndexSpec | Engine/src/SparseTerrainVoxelOctree.cpp:188-224 | `FindNodeFromIndex` returns the node at the index's path. With creation it exists at mip 0. The root and every node before the last step exist and are marked dirty. Blocks are untouched, and no other full-depth node changes. |
| SparseTerrainVoxelOctree.FindDownMarksPath | Engine/src/SparseTerrainVoxelOctree.cpp:189-218 | Every node the loop visits before its last step, the root included, exists after the walk and has its dirty flag set. Without creation this holds when the path's last parent already exists. |
| SparseTerrainVoxelOctree.PopulateSingleMipLevel | Engine/src/SparseTerrainVoxelOctree.cpp:373-397 | A mip-0 node is refused, and only it. Above mip 0 all eight slots get a new bare child in their octant, whatever they held, and the node itself keeps its flag and block. |
| SparseTerrainVoxelOctree.PopulateMipZeroCounterexample | Engine/src/SparseTerrainVoxelOctree.cpp:384-385 | As written, the children of a mip-0 node get mip level 0xFFFF_FFFF and width 8, a width no node of the octree has. |
| SparseTerrainVoxelOctree.PopulateMatchesAsWritten | Engine/src/SparseTerrainVoxelOctree.cpp:384-385 | Above mip 0, each child's mip level and width are the ones the code computes. |
| SparseTerrainVoxelOctree.CreateChildrenForFirstNMipLevels | Engine/src/SparseTerrainVoxelOctree.cpp:358-371 | The walk reaches a mip-0 node exactly when onLevel ≥ n, where the counter never equals n, or when n − onLevel exceeds the node's mip level. Otherwise it keeps the tree valid and leaves the start node's place, flag and block as they were. |
| SparseTerrainVoxelOctree.CreateChildrenComplete | Engine/src/SparseTerrainVoxelOctree.cpp:358-371 | After a walk that stays above mip 0, every path of at most n − onLevel steps leads to a node, and the nodes at exactly that depth are bare. |
| SparseTerrainVoxelOctree.AllocateNodeVoxelData | Engine/src/SparseTerrainVoxelOctree.cpp:352-356 | The node gets a 4096-sample block holding whatever the allocator returned; nothing else about it changes. |
| SparseTerrainVoxelOctree.GetVoxelsForNode | Engine/src/SparseTerrainVoxelOctree.cpp:100-123 | The output has 19³ samples. Sample (ix, iy, iz), at index ix + 19·iy + 361·iz, is `GetVoxelAt` of corner + (i − 1)·size/16 on each axis. |
| TerrainLodSelection.GetChunksToRender | Engine/src/TerrainLODSelectionAndCullingAlgorithm.cpp:20-57 | The walk only appends to the render list and the callback list; what they held before stays as a prefix. |
| TerrainLodSelection.ChosenExclusive | Engine/src/TerrainLODSelectionAndCullingAlgorithm.cpp:38-56 | No node is both drawn for its size and reached as a mip-0 node: the walk stops at the former. |
| TerrainLodSelection.CopiesMeaning | Engine/src/TerrainLODSelectionAndCullingAlgorithm.cpp:20-57 | The recursive append counts match the reference description: once for a size-chosen node, the leaf count for a mip-0 node reached by the walk, and never otherwise. |
| TerrainLodSelection.RenderedAsWritten | Engine/src/TerrainLODSelectionAndCullingAlgorithm.cpp:38-56 | As written, a size-chosen node is appended once, and a reached mip-0 node eight times, once per null slot. The callback sees each size-chosen node needing regeneration once, and never a mip-0-branch node. |
| TerrainLodSelection.SkippedSubtrees | Engine/src/TerrainLODSelectionAndCullingAlgorithm.cpp:27-41 | A culled node and everything below it never appears in either list. Nor does anything below a node drawn for its size. |
| TerrainLodSelection.LeafRootAppendedEightTimes | Engine/src/TerrainLODSelectionAndCullingAlgorithm.cpp:53-56 | A walk started at a mip-0 node appends that node eight times. |
| TerrainLodSelection.LeafSlots | Engine/src/TerrainLODSelectionAndCullingAlgorithm.cpp:53-56 | At a mip-0 node every remaining slot iteration appends the node. |
| TerrainLodSelection.RenderedOnce | Engine/src/TerrainLODSelectionAndCullingAlgorithm.cpp:38-56 | The corrected walk appends exactly the chosen nodes, each once. It hands the callback exactly the size-chosen nodes that need regenerating. |
| OctreeSerialisationLibrary.LeRoundTrip | Engine/src/OctreeSerialisationLibrary.cpp:19-31 | A value that fits in n bytes, written little-endian and read back, is the same value. |
| OctreeSerialisationLibrary.LeBytesOfValue | Engine/src/OctreeSerialisationLibrary.cpp:52-68 | Bytes read as a number and written back give the same bytes. |
| OctreeSerialisationLibrary.VoxelBytes | Engine/src/OctreeSerialisationLibrary.cpp:30 | The block is written byte for byte, each byte reading back as its voxel. |
| OctreeSerialisationLibrary.WriteNode | Engine/src/OctreeSerialisationLibrary.cpp:27-31 | A record is exactly 8 + 4096 bytes. |
| OctreeSerialisationLibrary.OrderLength | Engine/src/OctreeSerialisationLibrary.cpp:42 | An iteration order of the index set visits each element once, so it is as long as the set. |
| OctreeSerialisationLibrary.Entries | Engine/src/OctreeSerialisationLibrary.cpp:42-47 | Entry i carries the i-th index and the block of the mip-0 node it names. |
| OctreeSerialisationLibrary.FindKeepsBlocks | Engine/src/OctreeSerialisationLibrary.cpp:44 | The lookup during saving changes no voxel block. |
| OctreeSerialisationLibrary.SaveNewlyGeneratedToFile | Engine/src/OctreeSerialisationLibrary.cpp:33-48 | When the file cannot be opened nothing is written. Otherwise the file is the header and one record per index in iteration order, and no block changes. A non-empty set needs a tree at most 16 levels deep. |
| OctreeSerialisationLibrary.CollectEntries | Engine/src/OctreeSerialisationLibrary.cpp:42-47 | The save loop collects exactly the entries for the order, with the tree's blocks unchanged. |
| OctreeSerialisationLibrary.PrefixExistsForIndex | Engine/src/OctreeSerialisationLibrary.cpp:44-45 | A savable index meets what `FindNodeFromIndex` needs, and finds a mip-0 node holding the block to write. |
| OctreeSerialisationLibrary.FileHeaderParses | Engine/src/OctreeSerialisationLibrary.cpp:12-25 | A written file is 8 + 4104·n bytes; its header reads back as version 0 and count n. |
| OctreeSerialisationLibrary.FileRecordParses | Engine/src/OctreeSerialisationLibrary.cpp:65-74 | Record k of a written file parses back to entry k's index and block. |
| OctreeSerialisationLibrary.SavedFileWellFormed | Engine/src/OctreeSerialisationLibrary.cpp:55-76 | A saved file is one the loader accepts: enough records, every index walkable, whatever the version check says. |
| OctreeSerialisationLibrary.LoadRecord | Engine/src/OctreeSerialisationLibrary.cpp:67-74 | Loading one record keeps the tree valid at the same depth. `LoadRecordEffect` states which block it sets. |
| OctreeSerialisationLibrary.LoadRecordEffect | Engine/src/OctreeSerialisationLibrary.cpp:67-74 | Loading one record sets the block at its index's path, creating nodes as needed, and no other block. |
| OctreeSerialisationLibrary.LoadFromFile | Engine/src/OctreeSerialisationLibrary.cpp:55-76 | After loading, the block at each full-depth path is the one from the last record for that path. Without such a record it is the tree's own. A file with records needs a tree at most 16 levels deep. |
| OctreeSerialisationLibrary.LoadedAgreeingRecords | Engine/src/OctreeSerialisationLibrary.cpp:65-76 | If some record among the first ones loaded is for a path, and all such records carry the same block, then loading leaves that block at the path. |
| OctreeSerialisationLibrary.LoadedSavedBlock | Engine/src/OctreeSerialisationLibrary.cpp:65-76 | Replaying a saved file's records restores, at each saved index's path, the block it had when saved. |
| OctreeSerialisationLibrary.SaveThenLoad | Engine/src/OctreeSerialisationLibrary.cpp:33-76 | Saving a set of leaves and loading the file into any tree of the same depth reproduces each saved leaf's block. |
| TerrainPolygonizer.PolygonizeCellSync | Engine/src/TerrainPolygonizer.cpp:30-64 | The regions abut in the order header, normals, positions, indices, samples and end at the block's end. Capacities are 5000 and 10000, both counts are 0, the pointer to free is the header, and the samples are the node's lattice. |
| TerrainPolygonizer.AbuttingRegionsTile | Engine/src/TerrainPolygonizer.cpp:40-50 | Regions laid end to end are pairwise disjoint and together cover exactly the allocation. |
| TerrainPolygonizer.CarvingTilesAllocation | Engine/src/TerrainPolygonizer.cpp:32-50 | The carved arrays are disjoint and fill the block after the header, and the request is header + 166859 bytes. |
| Transvoxel.RegularCountsRoundTrip | Engine/include/Transvoxel.h:6-20 | Packing a vertex count and a triangle count below 16 into a byte unpacks to the same pair. |
| Transvoxel.RegularCountsComplete | Engine/include/Transvoxel.h:11-19 | Every `geometryCounts` byte is the packing of its high and low nibbles. |
| Transvoxel.TransitionCountsRoundTrip | Engine/include/Transvoxel.h:27-41 | For the signed `long` counts any vertex count packs and unpacks, given a triangle count below 16. |
| Transvoxel.NegativeTransitionCounts | Engine/include/Transvoxel.h:32-40 | A negative count unpacks, by arithmetic shift and masking, to a negative vertex count and a triangle count in 0..15. |
| Transvoxel.RegularCellFor | Engine/include/Transvoxel.h:43-52 | A case's class always indexes one of the 16 `regularCellData` entries. |
| Transvoxel.TransitionClassOf | Engine/include/Transvoxel.h:61-71 | The low 7 bits of a transition class name one of the 56 `transitionCellData` entries. |
| Transvoxel.TransitionClassRoundTrip | Engine/include/Transvoxel.h:61-67 | Class index and reversed-winding bit together give back the table byte. |
| BasicHeapAllocator.RoundUpProperties | Engine/include/BasicHeapAllocator.h:19 | `ROUND_UP(n, s)` is a multiple of s, n ≤ it < n + s, it is idempotent, and it fixes multiples of s. |
| BasicHeapAllocator.RoundDownProperties | Engine/include/BasicHeapAllocator.h:20 | For an atomic argument, `ROUND_DOWN(n, s)` is the greatest multiple of s not above n. |
| BasicHeapAllocator.RoundDownOfSumCounterexample | Engine/include/BasicHeapAllocator.h:20 | The macro applied to `3 + 1` expands to 12, while the rounded-down sum is 4. |
| BasicHeapAllocator.PaddedHeaderSize | Engine/include/BasicHeapAllocator.h:31-33 | The padded header is a multiple of `Alignment` and less than `Alignment` above the unpadded size. |
| BasicHeapAllocator.NewHeap | Engine/src/BasicHeapAllocator.cpp:36-46 | A new heap has no blocks and is well formed. |
| BasicHeapAllocator.FindBlockOfData | Engine/src/BasicHeapAllocator.cpp:98-101 | A block's data pointer minus one header leads back to that block. |
| BasicHeapAllocator.IncreaseTopOfUsedMemory | Engine/src/BasicHeapAllocator.cpp:130-139 | The top moves by the amount even when it passes the end of the buffer, and nothing else changes. The report is true exactly when the new top lies past the end. A shrinking `Realloc` passes a wrapped `size_t` difference, which moves the top back. |
| BasicHeapAllocator.IncreaseTopTwice | Engine/src/BasicHeapAllocator.cpp:57-74 | Moving the top for the header and then for the data ends where one combined move does, with the same final report. An out-of-memory report on the header move is repeated by the data move. |
| BasicHeapAllocator.AppendBlock | Engine/src/BasicHeapAllocator.cpp:48-96 | Adding a block at the top moves the top past a header and the rounded size, through two calls of `IncreaseTopOfUsedMemory`. Its report is true exactly when the new top lies past the end of the buffer. |
| BasicHeapAllocator.MallocReportsOutOfMemory | Engine/src/BasicHeapAllocator.cpp:194-196 | When no free block fits, the append reports running out of memory exactly when the top plus a header plus the rounded size passes the end of the buffer. `Malloc` moves the top there and returns the pointer past the new header either way. |
| BasicHeapAllocator.FindFreeMemoryBlock | Engine/src/BasicHeapAllocator.cpp:116-128 | Returns the first block in list order that is free with enough capacity, or none when no block is. |
| BasicHeapAllocator.NewBlock | Engine/src/BasicHeapAllocator.cpp:67-69 | A new header records the size, and its capacity is that size rounded up to the alignment. |
| BasicHeapAllocator.AppendAfterLast | Engine/src/BasicHeapAllocator.cpp:48-96 | In a well-formed heap, adding a block at the top appends it after the last block. |
| BasicHeapAllocator.Malloc | Engine/src/BasicHeapAllocator.cpp:167-197 | `Malloc` never lowers the top, adds at most one block to the list, and returns a pointer past a header. |
| BasicHeapAllocator.MallocAsWritten | Engine/src/BasicHeapAllocator.cpp:167-197 | The code as written returns the same pointer, list and top as the corrected `Malloc`; only `EndBlock` can differ. |
| BasicHeapAllocator.MallocKeepsWellFormed | Engine/src/BasicHeapAllocator.cpp:167-197 | `Malloc` keeps the blocks tiling the used memory with aligned capacities, and `EndBlock` naming the last block. |
| BasicHeapAllocator.HeadersAligned | Engine/include/BasicHeapAllocator.h:12 | In a well-formed heap every header and every data pointer is 4-byte aligned. |
| BasicHeapAllocator.MallocGivesBlock | Engine/src/BasicHeapAllocator.cpp:167-197 | `Malloc` returns an aligned data pointer that leads to a block in use, recording the requested size, with room for it rounded up. |
| BasicHeapAllocator.MallocReuses | Engine/src/BasicHeapAllocator.cpp:173-193 | When a free block fits, the first one is reused in place without moving the top. When at least one byte remains after the request and a header, it is split into a used part and a free remainder that ends where the block ended. |
| BasicHeapAllocator.MallocAppends | Engine/src/BasicHeapAllocator.cpp:194-196 | When no free block fits, a used block of the rounded size is appended at the top, and the top advances by a header plus that size. |
| BasicHeapAllocator.MallocKeepsOtherBlocks | Engine/src/BasicHeapAllocator.cpp:173-196 | Every block other than the one reused stays in the list unchanged. |
| BasicHeapAllocator.MallocKeepsLiveBlock | Engine/src/BasicHeapAllocator.cpp:167-197 | A block in use before `Malloc` is still found from its pointer, unchanged. |
| BasicHeapAllocator.MallocGivesOtherPointer | Engine/src/BasicHeapAllocator.cpp:167-197 | `Malloc` never returns the pointer of a block already in use. |
| BasicHeapAllocator.MallocKeepsCoalesced | Engine/src/BasicHeapAllocator.cpp:184-191 | If no two neighbouring blocks were both free before `Malloc`, none are after. |
| BasicHeapAllocator.MergeFreeBlocks | Engine/src/BasicHeapAllocator.cpp:103-114 | Merging two free neighbours shortens the list by one, keeps the low block free at its place, and leaves the other blocks in order. |
| BasicHeapAllocator.MergeKeepsWellFormed | Engine/src/BasicHeapAllocator.cpp:103-114 | The corrected merge keeps the heap well formed, and the merged block ends where the high block ended. |
| BasicHeapAllocator.MergeFreeBlocksAsWritten | Engine/src/BasicHeapAllocator.cpp:103-114 | The merge as written shortens the list by one and keeps the low block free at its place. Its capacity is one header short of the corrected merge's, and `EndBlock` is left alone. |
| BasicHeapAllocator.MergeAsWrittenLosesHeader | Engine/src/BasicHeapAllocator.cpp:108 | The merge as written ends one header short of the next block, so the heap no longer tiles. |
| BasicHeapAllocator.Free | Engine/src/BasicHeapAllocator.cpp:236-256 | Freeing never moves the top and shortens the list by at most two blocks. |
| BasicHeapAllocator.FreeBlockAsWritten | Engine/src/BasicHeapAllocator.cpp:243-256 | `Free` as written shortens the list by one per free neighbour, and leaves a free block at the freed block's place, or at its previous neighbour's when that was free. |
| BasicHeapAllocator.FreeKeepsWellFormed | Engine/src/BasicHeapAllocator.cpp:243-256 | `Free`, with its neighbours checked, keeps the heap well formed. |
| BasicHeapAllocator.FreeCoalesces | Engine/src/BasicHeapAllocator.cpp:243-256 | `Free` replaces the block and its free neighbours by one free block spanning them, and every other block keeps its place. |
| BasicHeapAllocator.FreeKeepsCoalesced | Engine/src/BasicHeapAllocator.cpp:243-256 | If no two neighbouring blocks were both free before `Free`, none are after. |
| BasicHeapAllocator.FreeKeepsOtherBlocks | Engine/src/BasicHeapAllocator.cpp:236-256 | Freeing one pointer leaves every other block in use where it was, still found from its pointer. |
| BasicHeapAllocator.ReallocCopyLength | Engine/src/BasicHeapAllocator.cpp:231 | The corrected copy length is the smaller of the old size and the new size. |
| BasicHeapAllocator.Realloc | Engine/src/BasicHeapAllocator.cpp:199-234 | `Realloc` returns the old pointer or the one `Malloc` hands out. It copies nothing when the pointer stays, otherwise the smaller of the old and new sizes. |
| BasicHeapAllocator.ReallocKeepsWellFormed | Engine/src/BasicHeapAllocator.cpp:199-234 | `Realloc` keeps the heap well formed in all three cases. |
| BasicHeapAllocator.ReallocGivesBlock | Engine/src/BasicHeapAllocator.cpp:199-234 | `Realloc` returns a live block recording the new size, with room for it rounded up. The pointer is unchanged for the last block or when the size fits, and the copy fits both old contents and new block. |
| BasicHeapAllocator.ReallocMoves | Engine/src/BasicHeapAllocator.cpp:228-233 | In the moving case `Realloc` returns `Malloc`'s block, which survives freeing the old one. |
| BasicHeapAllocator.EndBlockCounterexample | Engine/src/BasicHeapAllocator.cpp:93 | As written, a mid-list split makes the remainder `EndBlock`; the next top allocation drops the block after it, still in use, from the list. The corrected `Malloc` keeps it. |
| BasicHeapAllocator.FreeAsWrittenBreaksTiling | Engine/src/BasicHeapAllocator.cpp:252-254 | Freeing as written next to a free previous block breaks the tiling, while the checked `Free` keeps the heap well formed. |
| BasicHeapAllocator.FreeOnlyBlockCounterexample | Engine/src/BasicHeapAllocator.cpp:248 | The only block of a heap has no neighbours for the unchecked `Free` to read; the checked `Free` leaves one free block. |
| BasicHeapAllocator.ReallocShrinkCounterexample | Engine/src/BasicHeapAllocator.cpp:231 | Shrinking a 100-byte block that is not last to 4 bytes copies 100 bytes into a 4-byte block as written, against 4 when corrected. |
| TerrainVoxelVolume.InitialRow | Engine/src/TerrainVoxelVolume.cpp:41-55 | A new row is one run of `dims` copies of the initial value, 3 bytes used of 32, and well formed. |
| TerrainVoxelVolume.GetValueBoundaryCounterexample | Engine/src/TerrainVoxelVolume.cpp:155 | With runs (2,5),(3,7), voxel 2 is 7, but the `>=` read returns 5. |
| TerrainVoxelVolume.GetValueAsWritten | Engine/src/TerrainVoxelVolume.cpp:146-162 | The read's `>=` comparison, walking the runs as if `DecodeRun` advanced, finds a run exactly when the runs reach the coordinate, and answers the value of one of the runs. |
| TerrainVoxelVolume.GetValueAsWrittenReads | Engine/src/TerrainVoxelVolume.cpp:146-162 | With the runs walked as if `DecodeRun` advanced, the `>=` comparison returns the voxel's own run value, except on the first voxel of any run but the first, where it returns the previous run's. |
| TerrainVoxelVolume.GetValue | Engine/src/TerrainVoxelVolume.cpp:146-162 | The corrected read returns exactly voxel z of the expanded row. |
| TerrainVoxelVolume.SetRunsIsUpdate | Engine/src/TerrainVoxelVolume.cpp:78-144 | The corrected write changes exactly voxel z to the new value, keeps every run non-empty, and adds at most two runs. |
| TerrainVoxelVolume.SetOneVoxelRun | Engine/src/TerrainVoxelVolume.cpp:88-92 | Overwriting a one-voxel run's value is the one-voxel update. |
| TerrainVoxelVolume.MergeIntoPrevious | Engine/src/TerrainVoxelVolume.cpp:101-111 | Moving one unit of length into a previous run already holding the new value is the one-voxel update at the run's first voxel. |
| TerrainVoxelVolume.MergeIntoNext | Engine/src/TerrainVoxelVolume.cpp:112-122 | Moving one unit into a next run holding the new value is the one-voxel update at the run's last voxel. |
| TerrainVoxelVolume.SplitInPlace | Engine/src/TerrainVoxelVolume.cpp:124-139 | Splitting the run around the voxel into at most three non-empty runs is the one-voxel update. |
| TerrainVoxelVolume.SameValueCounterexample | Engine/src/TerrainVoxelVolume.cpp:93 | As written, setting voxel 0 of 5 5 5 7 to 5 falls through to the next run and gives 5 5 5 5; the corrected write leaves the row alone. |
| TerrainVoxelVolume.SplitPlacementCounterexample | Engine/src/TerrainVoxelVolume.cpp:124-139 | As written, setting voxel 1 of (5,1) to 9 gives 1 1 1 1 9, where 1 9 1 1 1 is meant. |
| TerrainVoxelVolume.SetValue | Engine/src/TerrainVoxelVolume.cpp:124-139 | The corrected row write keeps the row well formed and updates exactly voxel z. The allocation stays or doubles. |
| TerrainVoxelVolume.SetRunsAsWritten | Engine/src/TerrainVoxelVolume.cpp:78-144 | The write as written keeps every run non-empty and adds at most one run. |
| TerrainVoxelVolume.SetValueAsWritten | Engine/src/TerrainVoxelVolume.cpp:124-139 | As written, the runs gain at most one while the recorded bytes in use and the allocation stay as they were. |
| TerrainVoxelVolume.SplitOccupiedCounterexample | Engine/src/TerrainVoxelVolume.cpp:126-131 | As written, a split leaves the row malformed, with its bytes in use standing for 4 voxels instead of 5. |
| TerrainVoxelVolume.DecodeRun | Engine/src/TerrainVoxelVolume.cpp:164-185 | The corrected decode advances by exactly one run and yields a length a row can hold. `DecodeEncodedRun` shows it inverts the encoding. |
| TerrainVoxelVolume.DecodeEncodedRun | Engine/src/TerrainVoxelVolume.cpp:164-185 | Decoding at the k-th run's offset of an encoded row gives that run and the offset of the next. |
| TerrainVoxelVolume.DecodeRunAsWritten | Engine/src/TerrainVoxelVolume.cpp:168-171 | The copy loop as written leaves the offset at 3 when it started below 3, and unchanged otherwise. |
| TerrainVoxelVolume.DecodeRunCounterexample | Engine/src/TerrainVoxelVolume.cpp:168-171 | For (2,5),(3,7), decoding at offset 3 should give (3,7) and offset 6; as written it gives (2,5) and offset 3. |
| TerrainVoxelVolume.DecodeRunAsWrittenIgnoresRow | Engine/src/TerrainVoxelVolume.cpp:168-176 | From offset 3 on, the run decoded as written depends only on the stale buffer, never on the row. |
| TerrainVoxelVolume.RowIndexInjective | Engine/src/TerrainVoxelVolume.cpp:65 | Column (x, y) maps to row x + y·dims, inside the volume, and distinct columns map to distinct rows. |
| TerrainVoxelVolume.InitializeArrays | Engine/src/TerrainVoxelVolume.cpp:31-57 | Initialising builds dims² well-formed rows, each expanding to dims voxels. |
| TerrainVoxelVolume.InitialVoxels | Engine/src/TerrainVoxelVolume.cpp:31-57 | Every voxel of a freshly initialised volume holds the initial value. |
| TerrainVoxelVolume.GetVolumeValue | Engine/src/TerrainVoxelVolume.cpp:69-76 | The volume read returns voxel z of column (x, y). |
| TerrainVoxelVolume.SetVolumeValue | Engine/src/TerrainVoxelVolume.cpp:60-67 | The volume write keeps every row well formed and the side length unchanged. |
| TerrainVoxelVolume.GetAfterSet | Engine/src/TerrainVoxelVolume.cpp:60-76 | After a write, the written voxel reads the new value and every other voxel reads what it read before. |

## Left out

- OctreeFunctionLibrary.GetMipLevel: requires a width of at least 16. For a power of two below 16, and for 0 (which the float `IsAPowerOfTwo` accepts), the engine's halving loop never reaches 16 and does not end (Engine/src/OctreeFunctionLibrary.cpp:42-46). A non-terminating call has no result to model.
- `IsAPowerOfTwo` is modelled on integers, not through the single-precision `log2`, `ceil` and `floor` the engine uses. The float version also accepts 0 and large non-powers that round to a power of two.
- `GetChunksToRender`'s frustum construction, `IsSphereInFrustum` and `ViewportAreaHeuristic` are floating-point. They enter the LOD walk as uninterpreted parameters, and the threshold as a real.
- The coordinating `SparseTerrainVoxelOctree::GetChunksToRender` is left out. It waits on the futures, uploads to the GPU, clears flags and frees buffers. So are `PolygonizeNodeAsync`, the thread pool and `SetVoxelMutex`: they are concurrency, GPU work and an unused lock.
- `Clear`, `ResizeAndClear` and `DeleteAllChildren` are not modelled. The teardown leaves the root's child slots dangling, and `ResizeAndClear` discards the new ancestor stack, so they have no contract worth stating.
- The isosurface extraction is not modelled because it does not exist: the polygonizer stops after sampling. The Transvoxel tables are declared `extern` with no contents, so they are parameters. `regularVertexData`, `transitionVertexData` and `transitionCornerData` are not used by any shown code and are not modelled.
- File streams are not modelled: the files are byte sequences. A file shorter than its header announces would leave the index uninitialised, so the loader requires whole records. The version mismatch message is not modelled, since loading goes on regardless.
- The allocator's memory contents are not modelled, so the `memcpy` of `Realloc` is reduced to its length. Out-of-memory is reported and otherwise ignored, as in the engine. The debug print routines are not modelled.
- BasicHeapAllocator.Realloc: requires a pointer to a block in use, because the engine does pointer arithmetic on whatever it is given.
- TerrainVoxelVolume.SetRunsAsWritten: the split's `memcpy` copies all `CurrentOccupiedLength` bytes from the found run's offset rather than the bytes after it, so it writes past the buffer. With 15 bytes in use, 32 allocated and the copy starting at offset 15, it writes bytes 18 to 32, the last of them past the end of the buffer. The copy is modelled as the intended shift.
- TerrainVoxelVolume.SetRunsAsWritten: walks the runs as if `DecodeRun` advanced correctly, so that the write's own case analysis can be examined; `DecodeRun`'s defect is modelled separately.
- TerrainVoxelVolume.GetValueAsWritten: walks the runs as if `DecodeRun` advanced correctly, so only the `>=` comparison of the read is examined. As written, `DecodeRun` stops advancing at offset 3 (Engine/src/TerrainVoxelVolume.cpp:168-171), so the read takes only the first run from the row and afterwards reads a stale buffer; `DecodeRunAsWritten` and `DecodeRunAsWrittenIgnoresRow` model that separately.
- TerrainVoxelVolume.GetValueAsWrittenReads: states what the read gives under the same idealisation of `DecodeRun`, not what the code as written returns past the first run.
- TerrainVoxelVolume.SetRunsAsWritten: a change at the first voxel of the first run would read 3 bytes before the buffer for the previous run. It is treated as no merge.
- TerrainVoxelVolume.SetRunsAsWritten: the length updates at lines 103 and 114 dereference a byte value as a pointer. They are modelled as the intended updates. The next-run merge compares the found run's own value, so it never fires.
- TerrainVoxelVolume.SetValue: the `u16` widths of the lengths and byte counts are not modelled beyond bounding a row to 65535 voxels. The overlapping `memcpy` is modelled as the intended shift.
- TerrainVoxelVolume.GetValue: requires the coordinate to be below the row's voxel count. The engine's assertion compares it with the byte count instead.
- A new node's uninitialised dirty flag is one parameter per operation, so all the nodes one call creates share it. Different garbage values within one call are not modelled.
- The little-endian byte order of the target platform is assumed for the file format and the run encoding.

## Findings

| source | as written | input that shows it | evidently intended | confidence | as-written member | corrected member |
|---|---|---|---|---|---|---|
| Engine/src/SparseTerrainVoxelOctree.cpp:358-397 | `PopulateSingleMipLevel` gives a mip-0 node children of mip level `0xFFFF_FFFF` and width 8. `CreateChildrenForFirstNMipLevels` stops only when its counter equals n, so it populates a mip-0 node whenever onLevel ≥ n or n − onLevel exceeds the start node's mip level | `PopulateSingleMipLevel` on any mip-0 node; `CreateChildrenForFirstNMipLevels(node, 1, 1)` | populate only above mip 0, and stop after n − onLevel levels | medium; not executed; no caller in the shown code | SparseTerrainVoxelOctree.PopulateMipZeroCounterexample | SparseTerrainVoxelOctree.CreateChildrenComplete |
| Engine/src/TerrainLODSelectionAndCullingAlgorithm.cpp:53-56 | every null child slot of a mip-0 node appends that node | any walk reaching a mip-0 node; one started at a mip-0 node appends it 8 times | each reached mip-0 node appended once | high; not executed | TerrainLodSelection.RenderedAsWritten | TerrainLodSelection.RenderedOnce |
| Engine/src/BasicHeapAllocator.cpp:93 | every new header becomes `EndBlock`, including a remainder split off mid-list | heap [100 used, 200 free, 100 used]; `Malloc(4)` then `Malloc(1000)` unlinks the third block | `EndBlock` moves only when the split block was last | high; not executed | BasicHeapAllocator.EndBlockCounterexample | BasicHeapAllocator.MallocKeepsWellFormed |
| Engine/src/BasicHeapAllocator.cpp:108 | merged capacity omits the high block's header | two free neighbours followed by a third block | capacity grows by the high block's header as well | high; not executed | BasicHeapAllocator.MergeAsWrittenLosesHeader | BasicHeapAllocator.MergeKeepsWellFormed |
| Engine/src/BasicHeapAllocator.cpp:248 | `Free` reads `Next` and `Previous` without null checks | freeing the only block of a heap | merge only with neighbours that exist | high; not executed | BasicHeapAllocator.FreeOnlyBlockCounterexample | BasicHeapAllocator.FreeKeepsWellFormed |
| Engine/src/BasicHeapAllocator.cpp:231 | `Realloc` copies the old size even when shrinking | 100-byte block, not last, resized to 4 | copy at most the new size | high; not executed | BasicHeapAllocator.ReallocShrinkCounterexample | BasicHeapAllocator.ReallocGivesBlock |
| Engine/include/BasicHeapAllocator.h:20 | `ROUND_DOWN` does not parenthesise its argument | `ROUND_DOWN(3 + 1, 4)` is 12 | 4; no caller in the shown code | medium; not executed | BasicHeapAllocator.RoundDownOfSumCounterexample | BasicHeapAllocator.RoundDownProperties |
| Engine/src/TerrainVoxelVolume.cpp:155 | a read stops at the first run whose running total is `>=` the coordinate | runs (2,5),(3,7), voxel 2 | strict `>` | high; not executed | TerrainVoxelVolume.GetValueBoundaryCounterexample | TerrainVoxelVolume.GetValue |
| Engine/src/TerrainVoxelVolume.cpp:124-139 | the split inserts the new voxel after the found run | run (5,1), voxel 1 set to 9 gives 1 1 1 1 9 | 1 9 1 1 1 | high; not executed | TerrainVoxelVolume.SplitPlacementCounterexample | TerrainVoxelVolume.SetRunsIsUpdate |
| Engine/src/TerrainVoxelVolume.cpp:126-131 | bytes in use and allocated length are not updated after a split | row (5,1), voxel 1 set to 9 | both updated | high; not executed | TerrainVoxelVolume.SplitOccupiedCounterexample | TerrainVoxelVolume.SetValue |
| Engine/src/TerrainVoxelVolume.cpp:93 | a run already holding the value is passed over, and the next run is changed | runs (3,5),(1,7), voxel 0 set to 5 gives 5 5 5 5 | row unchanged | high; not executed | TerrainVoxelVolume.SameValueCounterexample | TerrainVoxelVolume.SetRunsIsUpdate |
| Engine/src/TerrainVoxelVolume.cpp:168-171 | `DecodeRun` copies only bytes 0..2 and stops advancing at offset 3 | runs (2,5),(3,7) decoded at offset 3 | read bytes `ptr..ptr+2` and advance by 3 | high; not executed | TerrainVoxelVolume.DecodeRunCounterexample | TerrainVoxelVolume.DecodeEncodedRun |
