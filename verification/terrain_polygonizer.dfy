/** `TerrainPolygonizer::PolygonizeCellSync`: one allocation carved into the
    worker's header and its output arrays, with the node's sample lattice
    copied in. Addresses are byte offsets; the allocator is the caller's,
    so the address it returns is a parameter, as is the size of the header
    struct (it holds a `std::mutex`, whose size the platform decides).
    Isosurface extraction itself is not part of the engine yet, so the
    result always holds zero vertices and indices. */
module TerrainPolygonizer {
  import opened TerrainTypes
  import opened OctreeFunctionLibrary
  import opened OctreeNode
  import opened SparseTerrainVoxelOctree

  /** `TERRAIN_CELL_VERTEX_ARRAY_SIZE` and `TERRAIN_CELL_INDEX_ARRAY_SIZE`. */
  const VertexArraySize: nat := 5000
  const IndexArraySize: nat := 10000

  /** `sizeof(glm::vec3)` for positions and normals, and `sizeof(u32)`. */
  const Vec3Bytes: nat := 12
  const U32Bytes: nat := 4

  /** Bytes requested from the allocator for a header of `headerSize`
      bytes. */
  function AllocationSize(headerSize: nat): nat {
    headerSize + VertexArraySize * Vec3Bytes + VertexArraySize * Vec3Bytes
      + IndexArraySize * U32Bytes + TotalCellVolumeSize
  }

  /** `PolygonizeWorkerThreadData`: array addresses, capacities, counts,
      the node (by its place) and the sampled lattice. */
  datatype WorkerData = WorkerData(
    start: nat,
    normals: nat,
    positions: nat,
    indices: nat,
    voxelDataAt: nat,
    verticesSize: u32,
    indicesSize: u32,
    outputtedVertices: u32,
    outputtedIndices: u32,
    nodeCorner: Vec3,
    nodeSize: nat,
    voxelData: seq<i8>)
  {
    /** `GetPtrToDeallocate`: the header itself, which is where the block
        starts. */
    function PtrToDeallocate(): nat {
      start
    }
  }

  /** A byte range `[at, at + length)` of the allocation. */
  datatype Region = Region(at: nat, length: nat)

  /** The five parts of the block in address order: header, normals,
      positions, indices, samples. */
  function Regions(d: WorkerData, headerSize: nat): seq<Region> {
    [Region(d.start, headerSize),
     Region(d.normals, VertexArraySize * Vec3Bytes),
     Region(d.positions, VertexArraySize * Vec3Bytes),
     Region(d.indices, IndexArraySize * U32Bytes),
     Region(d.voxelDataAt, TotalCellVolumeSize)]
  }

  /** `PolygonizeCellSync` for a node of the tree `t`, with the allocator
      returning `start` and the header struct taking `headerSize` bytes. */
  method PolygonizeCellSync(t: Octree, node: Node, headerSize: nat, start: nat) returns (d: WorkerData)
    requires OctreeValid(t) && Valid(node)
    requires LatticeReadable(t, node.bottomLeftCorner, node.sizeInVoxels / BaseCellSize)
    ensures d.PtrToDeallocate() == start
    ensures var rs := Regions(d, headerSize);
      && rs[0].at == start
      && (forall k :: 0 <= k < 4 ==> rs[k].at + rs[k].length == rs[k + 1].at)
      && rs[4].at + rs[4].length == start + AllocationSize(headerSize)
    ensures d.verticesSize as nat == VertexArraySize && d.indicesSize as nat == IndexArraySize
    ensures d.outputtedVertices == 0 && d.outputtedIndices == 0
    ensures d.nodeCorner == node.bottomLeftCorner && d.nodeSize == node.sizeInVoxels
    ensures |d.voxelData| == TotalCellVolumeSize
    ensures forall ix, iy, iz :: 0 <= ix < TotalSideSize && 0 <= iy < TotalSideSize && 0 <= iz < TotalSideSize ==>
      d.voxelData[ix + TotalSideSize * iy + TotalSideSize * TotalSideSize * iz]
        == GetVoxelAt(t, LatticePoint(node.bottomLeftCorner, node.sizeInVoxels / BaseCellSize, ix, iy, iz))
  {
    var dataPtr := start + headerSize;
    var normals := dataPtr;
    dataPtr := dataPtr + VertexArraySize * Vec3Bytes;
    var positions := dataPtr;
    dataPtr := dataPtr + VertexArraySize * Vec3Bytes;
    var indices := dataPtr;
    dataPtr := dataPtr + IndexArraySize * U32Bytes;
    var voxelDataAt := dataPtr;
    NodeSizeIsWholeCells(node);
    var voxels := GetVoxelsForNode(t, node.bottomLeftCorner, node.sizeInVoxels);
    d := WorkerData(start, normals, positions, indices, voxelDataAt,
                    VertexArraySize as u32, IndexArraySize as u32, 0, 0,
                    node.bottomLeftCorner, node.sizeInVoxels, voxels);
  }

  /** A node's side is a whole number (at least one) of 16-voxel cells. */
  lemma NodeSizeIsWholeCells(n: Node)
    requires Valid(n)
    ensures n.sizeInVoxels >= BaseCellSize && n.sizeInVoxels % BaseCellSize == 0
  {
  }

  predicate InRegion(r: Region, a: nat) {
    r.at <= a < r.at + r.length
  }

  /** Some region of `rs` holds address `a`. */
  predicate Covered(rs: seq<Region>, a: nat) {
    exists k :: 0 <= k < |rs| && InRegion(rs[k], a)
  }

  /** Regions that follow one another end to end are pairwise disjoint and
      together cover exactly `[first start, last end)`. */
  lemma AbuttingRegionsTile(rs: seq<Region>, base: nat, total: nat)
    requires |rs| > 0 && rs[0].at == base
    requires forall k :: 0 <= k < |rs| - 1 ==> rs[k].at + rs[k].length == rs[k + 1].at
    requires rs[|rs| - 1].at + rs[|rs| - 1].length == base + total
    ensures forall k, l :: 0 <= k < l < |rs| ==> rs[k].at + rs[k].length <= rs[l].at
    ensures forall a: nat :: InRegion(Region(base, total), a) <==> Covered(rs, a)
  {
    forall k, l | 0 <= k < l < |rs|
      ensures rs[k].at + rs[k].length <= rs[l].at
    {
      RegionsOrdered(rs, k, l);
    }
    forall a: nat
      ensures InRegion(Region(base, total), a) <==> Covered(rs, a)
    {
      if InRegion(Region(base, total), a) {
        var k := RegionHolding(rs, base, a, 0);
      }
      if Covered(rs, a) {
        var k :| 0 <= k < |rs| && InRegion(rs[k], a);
        RegionsOrdered(rs, 0, k);
        RegionsOrdered(rs, k, |rs| - 1);
      }
    }
  }

  lemma {:induction false} RegionsOrdered(rs: seq<Region>, k: nat, l: nat)
    requires forall j :: 0 <= j < |rs| - 1 ==> rs[j].at + rs[j].length == rs[j + 1].at
    requires k <= l < |rs|
    ensures rs[k].at <= rs[l].at
    ensures k < l ==> rs[k].at + rs[k].length <= rs[l].at
    decreases l - k
  {
    if k < l {
      RegionsOrdered(rs, k + 1, l);
    }
  }

  /** The region an address of the block falls in, found from `from` on. */
  lemma {:induction false} RegionHolding(rs: seq<Region>, base: nat, a: nat, from: nat) returns (k: nat)
    requires forall j :: 0 <= j < |rs| - 1 ==> rs[j].at + rs[j].length == rs[j + 1].at
    requires from < |rs| && rs[from].at <= a < rs[|rs| - 1].at + rs[|rs| - 1].length
    ensures k < |rs| && rs[k].at <= a < rs[k].at + rs[k].length
    decreases |rs| - from
  {
    if a < rs[from].at + rs[from].length {
      k := from;
    } else {
      k := RegionHolding(rs, base, a, from + 1);
    }
  }

  /** The carved arrays are disjoint, in the order normals, positions,
      indices, samples, and fill the block from the header to its end. */
  lemma CarvingTilesAllocation(d: WorkerData, headerSize: nat)
    requires var rs := Regions(d, headerSize);
      && (forall k :: 0 <= k < 4 ==> rs[k].at + rs[k].length == rs[k + 1].at)
      && rs[4].at + rs[4].length == d.start + AllocationSize(headerSize)
    ensures var rs := Regions(d, headerSize);
      && (forall k, l :: 0 <= k < l < 5 ==> rs[k].at + rs[k].length <= rs[l].at)
      && (forall a: nat :: InRegion(Region(d.start, AllocationSize(headerSize)), a) <==> Covered(rs, a))
    ensures d.normals == d.start + headerSize
    ensures d.voxelDataAt == d.start + headerSize + 160000
    ensures AllocationSize(headerSize) == headerSize + 166859
  {
    var rs := Regions(d, headerSize);
    assert rs[0].at + rs[0].length == rs[1].at;
    assert rs[3].at + rs[3].length == rs[4].at;
    assert rs[2].at + rs[2].length == rs[3].at;
    assert rs[1].at + rs[1].length == rs[2].at;
    AbuttingRegionsTile(rs, d.start, AllocationSize(headerSize));
  }
}
