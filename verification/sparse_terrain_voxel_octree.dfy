/** `SparseTerrainVoxelOctree`: the sparse voxel store. Writes descend from
    the root to the mip-0 node holding a point, creating absent children on
    the way, and return the path index of that node; reads descend without
    creating anything and answer the default value (the high clamp value)
    wherever the tree is absent. */
module SparseTerrainVoxelOctree {
  import opened TerrainTypes
  import opened OctreeFunctionLibrary
  import opened OctreeNode
  import opened OctreeIndex

  /** The octree: the root node (`ParentNode`, always at the origin) and
      the clamp values; the default value is the high clamp value. */
  datatype Octree = Octree(parentNode: Node, voxelClampValueHigh: i8, voxelClampValueLow: i8)
  {
    function VoxelDefaultValue(): i8 {
      voxelClampValueHigh
    }
  }

  predicate OctreeValid(t: Octree) {
    Valid(t.parentNode) && t.parentNode.bottomLeftCorner == Vec3(0, 0, 0)
  }

  /** The constructor: a bare root at the origin whose mip level is derived
      from the requested width. `meshFlag` is the root's uninitialised
      dirty flag. The `u32` width passes through `GetMipLevel`'s `i32`
      parameter, where a width of 2^31 becomes negative and fails the
      power-of-two assertion, so the width must fit an `i32`. */
  function NewOctree(sizeVoxels: u32, clampValueHigh: i8, clampValueLow: i8, meshFlag: bool): (t: Octree)
    requires IsAPowerOfTwo(sizeVoxels) && BaseCellSize <= sizeVoxels <= I32_MAX
    ensures OctreeValid(t) && IsBare(t.parentNode)
    ensures t.parentNode.sizeInVoxels == sizeVoxels
    ensures t.VoxelDefaultValue() == clampValueHigh && t.voxelClampValueLow == clampValueLow
  {
    var mip := GetMipLevel(sizeVoxels);
    NewNodeIsValidAndBare(mip, Vec3(0, 0, 0), meshFlag);
    Octree(NewNode(mip, Vec3(0, 0, 0), sizeVoxels, meshFlag), clampValueHigh, clampValueLow)
  }

  predicate InNode(p: Vec3, n: Node) {
    IsPointInCube(p, n.bottomLeftCorner, n.sizeInVoxels)
  }

  /** A point inside a node above mip 0 lies in the child cube its octant
      names. */
  lemma DescendInside(n: Node, q: Vec3)
    requires Valid(n) && n.mipLevel > 0 && InNode(q, n)
    ensures IsPointInCube(q, ChildBottomLeft(n.bottomLeftCorner, n.sizeInVoxels, OctantOf(q, n.bottomLeftCorner, n.sizeInVoxels)), n.sizeInVoxels / 2)
    ensures FirstOctantContaining(q, n.bottomLeftCorner, n.sizeInVoxels, 0) == Some(OctantOf(q, n.bottomLeftCorner, n.sizeInVoxels))
  {
    SplitSize(n);
    ChildCubeInside(q, n.bottomLeftCorner, n.sizeInVoxels);
    FindChildMatchesOctantOf(q, n.bottomLeftCorner, n.sizeInVoxels);
  }

  /** `FindChildContainingPoint`'s result slot: the first octant, in index
      order, whose cube holds the point. */
  function ChildIndexFor(n: Node, q: Vec3): (i: Octant)
    requires Valid(n) && n.mipLevel > 0 && InNode(q, n)
    ensures IsPointInCube(q, ChildBottomLeft(n.bottomLeftCorner, n.sizeInVoxels, i), n.sizeInVoxels / 2)
    ensures forall j: Octant :: j < i ==> !IsPointInCube(q, ChildBottomLeft(n.bottomLeftCorner, n.sizeInVoxels, j), n.sizeInVoxels / 2)
  {
    DescendInside(n, q);
    OctantOf(q, n.bottomLeftCorner, n.sizeInVoxels)
  }

  /** `GetLocationWithinMipZeroCellFromWorldLocation`: the offset of a point
      from the corner of the mip-0 node that holds it. */
  function GetLocationWithinMipZeroCell(cell: Node, p: Vec3): (r: Vec3)
    requires Valid(cell) && cell.mipLevel == 0 && InNode(p, cell)
    ensures 0 <= r.x < BaseCellSize && 0 <= r.y < BaseCellSize && 0 <= r.z < BaseCellSize
    ensures cell.bottomLeftCorner.Add(r) == p
  {
    p.Sub(cell.bottomLeftCorner)
  }

  /** Position of a local voxel in the 16^3 block, x fastest. */
  function VoxelDataIndex(local: Vec3): (k: nat)
    requires 0 <= local.x < BaseCellSize && 0 <= local.y < BaseCellSize && 0 <= local.z < BaseCellSize
    ensures k < VoxelBlockSize
  {
    local.x + BaseCellSize * local.y + BaseCellSize * BaseCellSize * local.z
  }

  /** Distinct local positions occupy distinct samples of the block. */
  lemma VoxelDataIndexInjective(a: Vec3, b: Vec3)
    requires 0 <= a.x < BaseCellSize && 0 <= a.y < BaseCellSize && 0 <= a.z < BaseCellSize
    requires 0 <= b.x < BaseCellSize && 0 <= b.y < BaseCellSize && 0 <= b.z < BaseCellSize
    ensures VoxelDataIndex(a) == VoxelDataIndex(b) <==> a == b
  {
    if VoxelDataIndex(a) == VoxelDataIndex(b) {
      assert a.z == b.z;
      assert a.y == b.y;
    }
  }

  /** The slot of point `p` in the block of the mip-0 node `cell`. */
  function SlotOf(cell: Node, p: Vec3): (k: nat)
    requires Valid(cell) && cell.mipLevel == 0 && InNode(p, cell)
    ensures k < VoxelBlockSize
  {
    VoxelDataIndex(GetLocationWithinMipZeroCell(cell, p))
  }

  lemma SlotInjective(cell: Node, p: Vec3, q: Vec3)
    requires Valid(cell) && cell.mipLevel == 0 && InNode(p, cell) && InNode(q, cell)
    ensures SlotOf(cell, p) == SlotOf(cell, q) <==> p == q
  {
    VoxelDataIndexInjective(GetLocationWithinMipZeroCell(cell, p), GetLocationWithinMipZeroCell(cell, q));
  }

  /** The octants a descent from a cube of the given corner, size and mip
      level takes to reach the mip-0 cube holding `p`. */
  function PathToPoint(bl: Vec3, size: int, mip: nat, p: Vec3): (path: seq<Octant>)
    ensures |path| == mip
    decreases mip
  {
    if mip == 0 then []
    else
      var i := OctantOf(p, bl, size);
      [i] + PathToPoint(ChildBottomLeft(bl, size, i), size / 2, mip - 1, p)
  }

  function PathTo(n: Node, p: Vec3): (path: seq<Octant>)
    ensures |path| == n.mipLevel
  {
    PathToPoint(n.bottomLeftCorner, n.sizeInVoxels, n.mipLevel, p)
  }

  /** The value stored for `q` below `n` as a write sees it: an absent
      child, or a mip-0 node without a block, stands for the default. */
  function Lookup(n: Node, q: Vec3, default: i8): i8
    requires Valid(n) && InNode(q, n)
    decreases n.mipLevel
  {
    if n.mipLevel == 0 then
      match n.voxelData
      case None => default
      case Some(block) => block[SlotOf(n, q)]
    else
      match n.children[ChildIndexFor(n, q)]
      case None => default
      case Some(c) => Lookup(c, q, default)
  }

  /** The read path reaches either an absent child or a mip-0 node with a
      block: the engine asserts the block exists when it gets there. */
  predicate ReadableAt(n: Node, q: Vec3)
    requires Valid(n) && InNode(q, n)
    decreases n.mipLevel
  {
    if n.mipLevel == 0 then n.voxelData.Some?
    else
      match n.children[ChildIndexFor(n, q)]
      case None => true
      case Some(c) => ReadableAt(c, q)
  }

  /** A tree whose every mip-0 node holds a block can be read anywhere. */
  lemma {:induction false} AllocatedIsReadable(n: Node, q: Vec3)
    requires Valid(n) && InNode(q, n) && AllLeavesAllocated(n)
    ensures ReadableAt(n, q)
    decreases n.mipLevel
  {
    if n.mipLevel > 0 {
      var i := ChildIndexFor(n, q);
      if n.children[i].Some? {
        AllocatedIsReadable(n.children[i].value, q);
      }
    }
  }

  /** A bare node reads the default everywhere. */
  lemma BareReadsDefault(n: Node, q: Vec3, default: i8)
    requires Valid(n) && IsBare(n) && InNode(q, n)
    ensures Lookup(n, q, default) == default
  {
  }

  // ---------------------------------------------------------------------
  // Writing

  /** `SetVoxelAt_Internal`'s descent below node `n`: every node passed
      above mip 0 is marked dirty and an absent child is created in the
      octant holding `p`; the mip-0 node gets a default-filled block if it
      has none, and when the stored value differs it is overwritten and
      the mip-0 node marked dirty (the ancestors are dirty already).
      Returns the new subtree and the octants taken. */
  function WriteDown(n: Node, p: Vec3, value: i8, default: i8, meshFlag: bool): (r: (Node, seq<Octant>))
    requires Valid(n) && InNode(p, n)
    ensures Valid(r.0) && SamePlace(r.0, n)
    ensures r.1 == PathTo(n, p)
    decreases n.mipLevel
  {
    if n.mipLevel == 0 then
      var block := if n.voxelData.Some? then n.voxelData.value else seq(VoxelBlockSize, _ => default);
      var leaf := n.(voxelData := Some(block), children := NoChildren());
      var k := SlotOf(n, p);
      if block[k] != value then
        (leaf.(voxelData := Some(block[k := value]), needsRegenerating := true), [])
      else
        (leaf, [])
    else
      var i := ChildIndexFor(n, p);
      var c := if n.children[i].Some? then n.children[i].value else NewChild(n, i, meshFlag);
      var w := WriteDown(c, p, value, default, meshFlag);
      (WithChild(n, i, w.0, true), [i] + w.1)
  }

  /** After a write, `p` holds the written value and can be read. */
  lemma {:induction false} WriteThenLookup(n: Node, p: Vec3, value: i8, default: i8, meshFlag: bool)
    requires Valid(n) && InNode(p, n)
    ensures InNode(p, WriteDown(n, p, value, default, meshFlag).0)
    ensures Lookup(WriteDown(n, p, value, default, meshFlag).0, p, value) == value
    ensures Lookup(WriteDown(n, p, value, default, meshFlag).0, p, default) == value
    ensures ReadableAt(WriteDown(n, p, value, default, meshFlag).0, p)
    decreases n.mipLevel
  {
    if n.mipLevel > 0 {
      var i := ChildIndexFor(n, p);
      var c := if n.children[i].Some? then n.children[i].value else NewChild(n, i, meshFlag);
      WriteThenLookup(c, p, value, default, meshFlag);
    }
  }

  /** A write to `p` changes the value stored for no other point. */
  lemma {:induction false} WriteFrame(n: Node, p: Vec3, q: Vec3, value: i8, default: i8, meshFlag: bool)
    requires Valid(n) && InNode(p, n) && InNode(q, n) && q != p
    ensures Lookup(WriteDown(n, p, value, default, meshFlag).0, q, default) == Lookup(n, q, default)
    decreases n.mipLevel
  {
    if n.mipLevel == 0 {
      SlotInjective(n, p, q);
    } else {
      var i := ChildIndexFor(n, p);
      if ChildIndexFor(n, q) == i {
        var c := if n.children[i].Some? then n.children[i].value else NewChild(n, i, meshFlag);
        WriteFrame(c, p, q, value, default, meshFlag);
      }
    }
  }

  /** A write keeps every readable point readable. */
  lemma {:induction false} WriteKeepsReadable(n: Node, p: Vec3, q: Vec3, value: i8, default: i8, meshFlag: bool)
    requires Valid(n) && InNode(p, n) && InNode(q, n) && ReadableAt(n, q)
    ensures ReadableAt(WriteDown(n, p, value, default, meshFlag).0, q)
    decreases n.mipLevel
  {
    if n.mipLevel > 0 {
      var i := ChildIndexFor(n, p);
      if ChildIndexFor(n, q) == i {
        var c := if n.children[i].Some? then n.children[i].value else NewChild(n, i, meshFlag);
        if n.children[i].None? {
          FreshWriteReadable(c, p, q, value, default, meshFlag);
        } else {
          WriteKeepsReadable(c, p, q, value, default, meshFlag);
        }
      }
    }
  }

  /** Below a freshly created child, a write leaves every point of it
      readable: absent octants read the default, and the one mip-0 node it
      creates gets a full block. */
  lemma {:induction false} FreshWriteReadable(c: Node, p: Vec3, q: Vec3, value: i8, default: i8, meshFlag: bool)
    requires Valid(c) && IsBare(c) && InNode(p, c) && InNode(q, c)
    ensures ReadableAt(WriteDown(c, p, value, default, meshFlag).0, q)
    decreases c.mipLevel
  {
    if c.mipLevel > 0 {
      var i := ChildIndexFor(c, p);
      if ChildIndexFor(c, q) == i {
        FreshWriteReadable(NewChild(c, i, meshFlag), p, q, value, default, meshFlag);
      }
    }
  }

  /** Every node on the write path above the mip-0 node is left dirty. */
  lemma {:induction false} WriteMarksAncestors(n: Node, p: Vec3, value: i8, default: i8, meshFlag: bool, k: nat)
    requires Valid(n) && InNode(p, n) && k < n.mipLevel
    ensures NodeAt(WriteDown(n, p, value, default, meshFlag).0, PathTo(n, p)[..k]).Some?
    ensures NodeAt(WriteDown(n, p, value, default, meshFlag).0, PathTo(n, p)[..k]).value.needsRegenerating
    decreases n.mipLevel
  {
    var w := WriteDown(n, p, value, default, meshFlag);
    var i := ChildIndexFor(n, p);
    var c := if n.children[i].Some? then n.children[i].value else NewChild(n, i, meshFlag);
    var wc := WriteDown(c, p, value, default, meshFlag);
    assert w.0.children[i] == Some(wc.0);
    if k > 0 {
      var path := PathTo(n, p);
      assert path[..k] == [i] + wc.1[..k - 1];
      assert path[..k][1..] == wc.1[..k - 1];
      WriteMarksAncestors(c, p, value, default, meshFlag, k - 1);
    }
  }

  /** The mip-0 node a write reaches: it holds `p` and a block, and it is
      marked dirty when the stored value changed; otherwise its flag is
      what it was (or the fresh node's flag when it was just created). */
  lemma {:induction false} WriteMarksLeaf(n: Node, p: Vec3, value: i8, default: i8, meshFlag: bool)
    requires Valid(n) && InNode(p, n)
    ensures var w := WriteDown(n, p, value, default, meshFlag);
      && NodeAt(w.0, w.1).Some?
      && NodeAt(w.0, w.1).value.mipLevel == 0
      && InNode(p, NodeAt(w.0, w.1).value)
      && NodeAt(w.0, w.1).value.voxelData.Some?
      && (Lookup(n, p, default) != value ==> NodeAt(w.0, w.1).value.needsRegenerating)
      && (Lookup(n, p, default) == value ==>
            NodeAt(w.0, w.1).value.needsRegenerating ==
              (if NodeAt(n, w.1).Some? then NodeAt(n, w.1).value.needsRegenerating else meshFlag))
    decreases n.mipLevel
  {
    if n.mipLevel > 0 {
      var i := ChildIndexFor(n, p);
      var c := if n.children[i].Some? then n.children[i].value else NewChild(n, i, meshFlag);
      WriteMarksLeaf(c, p, value, default, meshFlag);
      var w := WriteDown(n, p, value, default, meshFlag);
      var wc := WriteDown(c, p, value, default, meshFlag);
      assert w.1 == [i] + wc.1;
      assert w.1[1..] == wc.1;
      if n.children[i].None? && |wc.1| > 0 {
        FreshAlongPath(c, p, wc.1);
      }
    }
  }

  /** Below a bare node, every path longer than zero leads nowhere. */
  lemma FreshAlongPath(c: Node, p: Vec3, path: seq<Octant>)
    requires Valid(c) && IsBare(c) && |path| > 0
    ensures NodeAt(c, path).None?
  {
  }

  /** A write leaves the node at every other full-depth path as it was:
      nothing outside the written path is created, marked or changed. */
  lemma {:induction false} WriteLeavesOtherNodes(n: Node, p: Vec3, value: i8, default: i8, meshFlag: bool, q: seq<Octant>)
    requires Valid(n) && InNode(p, n)
    requires |q| == n.mipLevel && q != PathTo(n, p)
    ensures NodeAt(WriteDown(n, p, value, default, meshFlag).0, q) == NodeAt(n, q)
    decreases n.mipLevel
  {
    if n.mipLevel > 0 {
      var i := ChildIndexFor(n, p);
      var c := if n.children[i].Some? then n.children[i].value else NewChild(n, i, meshFlag);
      var wc := WriteDown(c, p, value, default, meshFlag);
      var w := WriteDown(n, p, value, default, meshFlag).0;
      assert w == WithChild(n, i, wc.0, true);
      if q[0] == i {
        assert q[1..] != wc.1 by {
          assert q == [q[0]] + q[1..];
        }
        WriteLeavesOtherNodes(c, p, value, default, meshFlag, q[1..]);
        assert NodeAt(w, q) == NodeAt(wc.0, q[1..]);
        if n.children[i].None? {
          FreshAlongPath(c, p, q[1..]);
        } else {
          assert NodeAt(n, q) == NodeAt(c, q[1..]);
        }
      } else {
        assert w.children[q[0]] == n.children[q[0]];
      }
    }
  }

  /** `SetVoxelAt`: a value outside the clamp range is rejected with the
      all-ones index and changes nothing; otherwise the value is written
      and the path index of the mip-0 node holding `p` is returned. The
      descent asserts that `p` is inside the root. The source builds the
      index by shifting a 32-bit `int` by four bits per level, which is
      defined only for the first eight levels; below a root deeper than
      mip 8 the write still happens but the index is undefined, and the
      model returns `None` for it. `meshFlag` is the dirty flag of any node
      the write creates. */
  function SetVoxelAt(t: Octree, p: Vec3, value: i8, meshFlag: bool): (r: (Octree, Option<u64>))
    requires OctreeValid(t)
    requires t.voxelClampValueLow <= value <= t.voxelClampValueHigh ==> InNode(p, t.parentNode)
    ensures OctreeValid(r.0)
    ensures r.0.voxelClampValueHigh == t.voxelClampValueHigh && r.0.voxelClampValueLow == t.voxelClampValueLow
    ensures (value > t.voxelClampValueHigh || value < t.voxelClampValueLow) <==> r.1 == Some(InvalidIndex)
    ensures r.1.None? <==> t.voxelClampValueLow <= value <= t.voxelClampValueHigh && t.parentNode.mipLevel > 8
    ensures r.1 == Some(InvalidIndex) ==> r.0 == t
  {
    if value > t.voxelClampValueHigh || value < t.voxelClampValueLow then
      (t, Some(InvalidIndex))
    else
      var w := WriteDown(t.parentNode, p, value, t.VoxelDefaultValue(), meshFlag);
      if |w.1| > 8 then
        (t.(parentNode := w.0), None)
      else
        IndexRoundTrip(w.1);
        (t.(parentNode := w.0), Some(IndexOfPath(w.1)))
  }

  // ---------------------------------------------------------------------
  // Reading

  /** Negative coordinates are read as 0. */
  function ClampToZero(p: Vec3): (q: Vec3)
    ensures q.x >= 0 && q.y >= 0 && q.z >= 0
    ensures p.x >= 0 && p.y >= 0 && p.z >= 0 ==> q == p
  {
    Vec3(if p.x < 0 then 0 else p.x, if p.y < 0 then 0 else p.y, if p.z < 0 then 0 else p.z)
  }

  /** The engine's assertion on the read path holds for `p`. */
  predicate CanRead(t: Octree, p: Vec3)
    requires OctreeValid(t)
  {
    InNode(ClampToZero(p), t.parentNode) ==> ReadableAt(t.parentNode, ClampToZero(p))
  }

  /** `GetVoxelAt`: negative coordinates are clamped to 0; points outside
      the root and absent branches read the default value. */
  function GetVoxelAt(t: Octree, p: Vec3): (r: i8)
    requires OctreeValid(t) && CanRead(t, p)
    ensures IsBare(t.parentNode) ==> r == t.VoxelDefaultValue()
  {
    var q := ClampToZero(p);
    if !InNode(q, t.parentNode) then t.VoxelDefaultValue()
    else Lookup(t.parentNode, q, t.VoxelDefaultValue())
  }

  /** Setting a voxel then getting it returns the value set. */
  lemma SetThenGet(t: Octree, p: Vec3, value: i8, meshFlag: bool)
    requires OctreeValid(t)
    requires t.voxelClampValueLow <= value <= t.voxelClampValueHigh
    requires InNode(p, t.parentNode)
    ensures CanRead(SetVoxelAt(t, p, value, meshFlag).0, p)
    ensures GetVoxelAt(SetVoxelAt(t, p, value, meshFlag).0, p) == value
  {
    WriteThenLookup(t.parentNode, p, value, t.VoxelDefaultValue(), meshFlag);
  }

  /** Setting a voxel leaves every other readable location reading what it
      read before, the clamped negative locations included. */
  lemma SetFrame(t: Octree, p: Vec3, q: Vec3, value: i8, meshFlag: bool)
    requires OctreeValid(t)
    requires t.voxelClampValueLow <= value <= t.voxelClampValueHigh ==> InNode(p, t.parentNode)
    requires CanRead(t, q) && ClampToZero(q) != p
    ensures CanRead(SetVoxelAt(t, p, value, meshFlag).0, q)
    ensures GetVoxelAt(SetVoxelAt(t, p, value, meshFlag).0, q) == GetVoxelAt(t, q)
  {
    if t.voxelClampValueLow <= value <= t.voxelClampValueHigh {
      var c := ClampToZero(q);
      if InNode(c, t.parentNode) {
        WriteFrame(t.parentNode, p, c, value, t.VoxelDefaultValue(), meshFlag);
        WriteKeepsReadable(t.parentNode, p, c, value, t.VoxelDefaultValue(), meshFlag);
      }
    }
  }

  /** A freshly constructed octree above mip 0 reads the default value
      everywhere; one of a single mip-0 node cannot be read at all, since
      its block does not exist yet. */
  lemma NewOctreeReadsDefault(sizeVoxels: u32, clampValueHigh: i8, clampValueLow: i8, meshFlag: bool, p: Vec3)
    requires IsAPowerOfTwo(sizeVoxels) && BaseCellSize <= sizeVoxels <= I32_MAX
    ensures var t := NewOctree(sizeVoxels, clampValueHigh, clampValueLow, meshFlag);
      && (t.parentNode.mipLevel > 0 ==> CanRead(t, p) && GetVoxelAt(t, p) == clampValueHigh)
      && (t.parentNode.mipLevel == 0 && InNode(ClampToZero(p), t.parentNode) ==> !CanRead(t, p))
  {
  }

  /** The index a write returns leads back to the mip-0 node it wrote:
      `FindNodeFromIndex(index, false)` on the updated tree finds the node
      holding `p`, with its block. This needs a root at most 8 levels deep,
      the depth for which the index is defined. */
  lemma SetIndexFindsLeaf(t: Octree, p: Vec3, value: i8, meshFlag: bool, searchFlag: bool)
    requires OctreeValid(t)
    requires t.voxelClampValueLow <= value <= t.voxelClampValueHigh
    requires InNode(p, t.parentNode) && t.parentNode.mipLevel <= 8
    ensures var s := SetVoxelAt(t, p, value, meshFlag);
      && s.1.Some?
      && IsWalkableIndex(s.1.value, s.0.parentNode.mipLevel)
      && FindNodeFromIndexPrecondition(s.0, s.1.value, false)
      && var found := FindNodeFromIndex(s.0, s.1.value, false, searchFlag).1;
         found.Some? && found.value.mipLevel == 0 && InNode(p, found.value) && found.value.voxelData.Some?
  {
    var w := WriteDown(t.parentNode, p, value, t.VoxelDefaultValue(), meshFlag);
    IndexRoundTrip(w.1);
    WriteMarksLeaf(t.parentNode, p, value, t.VoxelDefaultValue(), meshFlag);
    if |w.1| > 0 {
      PrefixExists(w.0, w.1, |w.1| - 1);
    }
    FindDownReaches(w.0, w.1, false, searchFlag);
  }

  /** Every prefix of an existing path exists. */
  lemma {:induction false} PrefixExists(n: Node, path: seq<Octant>, k: nat)
    requires Valid(n) && NodeAt(n, path).Some? && k <= |path|
    ensures NodeAt(n, path[..k]).Some?
    decreases |path|
  {
    if k > 0 {
      assert path[..k][1..] == path[1..][..k - 1];
      PrefixExists(n.children[path[0]].value, path[1..], k - 1);
    }
  }

  // ---------------------------------------------------------------------
  // Finding nodes by index

  /** `FindNodeFromIndex`'s walk along `path` below `n`: every node visited
      before the last step is marked dirty; with `create`, absent children
      are created on the way (their dirty flag being `meshFlag`), without it
      an absent child ends the walk with null. */
  function FindDown(n: Node, path: seq<Octant>, create: bool, meshFlag: bool): (r: (Node, Option<Node>))
    requires Valid(n) && |path| <= n.mipLevel
    ensures Valid(r.0) && SamePlace(r.0, n)
    ensures r.0.voxelData == n.voxelData
    decreases |path|
  {
    if |path| == 0 then (n, Some(n))
    else
      var i := path[0];
      var marked := n.(needsRegenerating := true);
      var next := if n.children[i].Some? then n.children[i] else if create then Some(NewChild(n, i, meshFlag)) else None;
      match next
      case None => (marked, None)
      case Some(c) =>
        var w := FindDown(c, path[1..], create, meshFlag);
        var r := marked.(children := n.children[i := Some(w.0)]);
        assert forall j: Octant :: j != i ==> r.children[j] == n.children[j];
        (r, w.1)
  }

  /** The walk's result is the node the path now leads to. */
  lemma {:induction false} FindDownReaches(n: Node, path: seq<Octant>, create: bool, meshFlag: bool)
    requires Valid(n) && |path| <= n.mipLevel
    ensures FindDown(n, path, create, meshFlag).1 == NodeAt(FindDown(n, path, create, meshFlag).0, path)
    ensures create ==> FindDown(n, path, create, meshFlag).1.Some?
    ensures NodeAt(n, path).Some? ==> FindDown(n, path, create, meshFlag).1 == NodeAt(n, path)
    ensures !create && NodeAt(n, path).None? ==> FindDown(n, path, create, meshFlag).1.None?
    decreases |path|
  {
    if |path| > 0 {
      var i := path[0];
      if n.children[i].Some? {
        FindDownReaches(n.children[i].value, path[1..], create, meshFlag);
      } else if create {
        FindDownReaches(NewChild(n, i, meshFlag), path[1..], create, meshFlag);
      }
    }
  }

  /** The walk marks every node before the last step dirty, and leaves the
      node at every full-depth path other than its own as it was. */
  lemma {:induction false} FindDownMarks(n: Node, path: seq<Octant>, create: bool, meshFlag: bool, k: nat)
    requires Valid(n) && |path| <= n.mipLevel && k < |path|
    requires NodeAt(n, path[..k]).Some? || create
    ensures NodeAt(FindDown(n, path, create, meshFlag).0, path[..k]).Some?
    ensures NodeAt(FindDown(n, path, create, meshFlag).0, path[..k]).value.needsRegenerating
    decreases |path|
  {
    var i := path[0];
    if k > 0 {
      assert path[..k][1..] == path[1..][..k - 1];
      if n.children[i].Some? {
        FindDownMarks(n.children[i].value, path[1..], create, meshFlag, k - 1);
      } else {
        FindDownMarks(NewChild(n, i, meshFlag), path[1..], create, meshFlag, k - 1);
      }
    }
  }

  lemma {:induction false} FindDownFrame(n: Node, path: seq<Octant>, create: bool, meshFlag: bool, q: seq<Octant>)
    requires Valid(n) && |path| == n.mipLevel && |q| == |path| && q != path
    ensures NodeAt(FindDown(n, path, create, meshFlag).0, q) == NodeAt(n, q)
    decreases |path|
  {
    if |path| > 0 && q[0] == path[0] {
      var i := path[0];
      assert q[1..] != path[1..] by {
        assert q == [q[0]] + q[1..] && path == [path[0]] + path[1..];
      }
      if n.children[i].Some? {
        FindDownFrame(n.children[i].value, path[1..], create, meshFlag, q[1..]);
      } else if create {
        FindDownFrame(NewChild(n, i, meshFlag), path[1..], create, meshFlag, q[1..]);
        FreshAlongPath(NewChild(n, i, meshFlag), Vec3(0, 0, 0), q[1..]);
        FreshFindOffPath(NewChild(n, i, meshFlag), path[1..], meshFlag, q[1..]);
      }
    }
  }

  /** Below a freshly created child, a creating walk creates nothing off
      its path. */
  lemma {:induction false} FreshFindOffPath(c: Node, path: seq<Octant>, meshFlag: bool, q: seq<Octant>)
    requires Valid(c) && IsBare(c) && |path| == c.mipLevel && |q| == |path| && q != path
    ensures NodeAt(FindDown(c, path, true, meshFlag).0, q).None?
    decreases |path|
  {
    var i := path[0];
    if q[0] == i {
      assert q[1..] != path[1..] by {
        assert q == [q[0]] + q[1..] && path == [path[0]] + path[1..];
      }
      FreshFindOffPath(NewChild(c, i, meshFlag), path[1..], meshFlag, q[1..]);
    }
  }

  /** What the engine needs for `FindNodeFromIndex` not to fault: the
      root is at most 16 levels deep, since the walk shifts the 64-bit
      index right by four bits per level and a shift by 64 bits or more is
      undefined; every nibble it reads names a child slot; and without
      `create` every node before the last step exists. */
  predicate FindNodeFromIndexPrecondition(t: Octree, index: u64, create: bool)
    requires OctreeValid(t)
  {
    && t.parentNode.mipLevel <= INDEX_NIBBLES
    && IsWalkableIndex(index, t.parentNode.mipLevel)
    && (!create && t.parentNode.mipLevel > 0 ==>
          NodeAt(t.parentNode, PathOfIndex(index, t.parentNode.mipLevel)[..t.parentNode.mipLevel - 1]).Some?)
  }

  /** `FindNodeFromIndex`: walks `MipLevel` nibbles of the index from the
      root, marking the root and each node visited before the last step
      dirty, and returns the node reached (null when the last slot is empty
      and nothing is created). */
  function FindNodeFromIndex(t: Octree, index: u64, create: bool, meshFlag: bool): (r: (Octree, Option<Node>))
    requires OctreeValid(t) && FindNodeFromIndexPrecondition(t, index, create)
    ensures OctreeValid(r.0)
    ensures r.0.voxelClampValueHigh == t.voxelClampValueHigh && r.0.voxelClampValueLow == t.voxelClampValueLow
  {
    var root := t.parentNode.(needsRegenerating := true);
    var w := FindDown(root, PathOfIndex(index, root.mipLevel), create, meshFlag);
    (t.(parentNode := w.0), w.1)
  }

  /** What `FindNodeFromIndex` returns: the node at the index's path; it
      exists and sits at mip 0 when `create` is set; a mip-0 node that
      already existed below the root is returned as it was; the root and
      every node before the last step are marked dirty, and no node at any
      other full-depth path changes. */
  lemma FindNodeFromIndexSpec(t: Octree, index: u64, create: bool, meshFlag: bool, q: seq<Octant>)
    requires OctreeValid(t) && FindNodeFromIndexPrecondition(t, index, create)
    ensures var path := PathOfIndex(index, t.parentNode.mipLevel);
      var r := FindNodeFromIndex(t, index, create, meshFlag);
      && r.1 == NodeAt(r.0.parentNode, path)
      && (create ==> r.1.Some? && r.1.value.mipLevel == 0)
      && (|path| > 0 && NodeAt(t.parentNode, path).Some? ==> r.1 == NodeAt(t.parentNode, path))
      && (!create && NodeAt(t.parentNode, path).None? ==> r.1.None?)
      && r.0.parentNode.voxelData == t.parentNode.voxelData
      && r.0.parentNode.needsRegenerating
      && (forall k :: 0 <= k < |path| ==>
            NodeAt(r.0.parentNode, path[..k]).Some? && NodeAt(r.0.parentNode, path[..k]).value.needsRegenerating)
      && (|q| == |path| && q != path ==> NodeAt(r.0.parentNode, q) == NodeAt(t.parentNode, q))
  {
    var root := t.parentNode.(needsRegenerating := true);
    var path := PathOfIndex(index, root.mipLevel);
    FindDownReaches(root, path, create, meshFlag);
    if |path| > 0 {
      RemarkSameNodes(t.parentNode, path);
    }
    if |q| == |path| && q != path {
      FindDownFrame(root, path, create, meshFlag, q);
      if |q| > 0 {
        RemarkSameNodes(t.parentNode, q);
      }
    }
    if !create && |path| > 1 {
      RemarkSameNodes(t.parentNode, path[..|path| - 1]);
    }
    FindDownMarksPath(root, path, create, meshFlag);
  }

  /** Every node on the walk before the last step exists afterwards and is
      marked dirty, provided the walk creates or the path's last parent
      already exists. */
  lemma FindDownMarksPath(n: Node, path: seq<Octant>, create: bool, meshFlag: bool)
    requires Valid(n) && |path| <= n.mipLevel
    requires create || |path| == 0 || NodeAt(n, path[..|path| - 1]).Some?
    ensures forall k :: 0 <= k < |path| ==>
      NodeAt(FindDown(n, path, create, meshFlag).0, path[..k]).Some? &&
      NodeAt(FindDown(n, path, create, meshFlag).0, path[..k]).value.needsRegenerating
  {
    forall k | 0 <= k < |path|
      ensures NodeAt(FindDown(n, path, create, meshFlag).0, path[..k]).Some?
      ensures NodeAt(FindDown(n, path, create, meshFlag).0, path[..k]).value.needsRegenerating
    {
      if !create {
        PrefixExists(n, path[..|path| - 1], k);
        assert path[..|path| - 1][..k] == path[..k];
      }
      FindDownMarks(n, path, create, meshFlag, k);
    }
  }

  /** Re-marking the root changes no node below it. */
  lemma RemarkSameNodes(n: Node, path: seq<Octant>)
    requires Valid(n) && |path| > 0
    ensures NodeAt(n.(needsRegenerating := true), path) == NodeAt(n, path)
  {
  }

  // ---------------------------------------------------------------------
  // Pre-populating mip levels

  /** What pre-populating produces: the populated node, or `BelowMipZero`
      when the source gives children to a mip-0 node (see
      `ChildShapeAsWritten`). What it builds from there is not a valid
      octree and is not modelled further. */
  datatype PopulateOutcome = Populated(node: Node) | BelowMipZero

  /** The mip level and width `PopulateSingleMipLevel` gives each new child
      as written: the parent's `u32` mip level minus one, which wraps at
      0, and half the parent's width. */
  function ChildShapeAsWritten(n: Node): (nat, nat)
    requires n.mipLevel < U32_MODULUS
  {
    (if n.mipLevel == 0 then U32_MODULUS - 1 else n.mipLevel - 1, n.sizeInVoxels / 2)
  }

  /** As written, the children of a mip-0 node get mip level 0xFFFF_FFFF
      and a width of 8, narrower than any node of the octree. */
  lemma PopulateMipZeroCounterexample(n: Node)
    requires Valid(n) && n.mipLevel == 0
    ensures ChildShapeAsWritten(n) == (0xFFFF_FFFF, 8)
    ensures ChildShapeAsWritten(n).0 > n.mipLevel
    ensures forall c: Node :: Valid(c) ==> c.sizeInVoxels != ChildShapeAsWritten(n).1
  {
  }

  /** `PopulateSingleMipLevel`: all eight child slots get a new bare child
      in their octant, whatever they held before. A mip-0 node has no
      level below it, and the outcome says so. */
  function PopulateSingleMipLevel(n: Node, meshFlag: bool): (r: PopulateOutcome)
    requires Valid(n)
    ensures r.BelowMipZero? <==> n.mipLevel == 0
    ensures r.Populated? ==> Valid(r.node) && SamePlace(r.node, n)
    ensures r.Populated? ==> r.node.needsRegenerating == n.needsRegenerating && r.node.voxelData == n.voxelData
    ensures r.Populated? ==> forall i: Octant :: r.node.children[i].Some? && IsBare(r.node.children[i].value)
    ensures r.Populated? ==> forall i: Octant :: r.node.children[i].Some? && r.node.children[i].value.needsRegenerating == meshFlag
  {
    if n.mipLevel == 0 then BelowMipZero
    else Populated(n.(children := seq(8, i requires 0 <= i < 8 => Some(NewChild(n, i, meshFlag)))))
  }

  /** Above mip 0 the children `PopulateSingleMipLevel` creates (see
      `PopulatedChild`) have the mip level and width the source computes
      for them. */
  lemma PopulateMatchesAsWritten(n: Node, meshFlag: bool, i: Octant)
    requires Valid(n) && 0 < n.mipLevel < U32_MODULUS
    ensures ChildShapeAsWritten(n) == (NewChild(n, i, meshFlag).mipLevel, NewChild(n, i, meshFlag).sizeInVoxels)
  {
  }

  /** `CreateChildrenForFirstNMipLevels`: populates `n`, counts the level,
      and stops when the count reaches `levels`; otherwise recurses into
      each of the eight new children. The count reaches `levels` only when
      `onLevel < levels` to begin with and the node is at least
      `levels - onLevel` levels deep; in every other case the walk
      populates a mip-0 node, and the source then goes on recursing
      without end. */
  function CreateChildrenForFirstNMipLevels(n: Node, levels: int, onLevel: int, meshFlag: bool): (r: PopulateOutcome)
    requires Valid(n)
    ensures r.BelowMipZero? <==> onLevel >= levels || levels - onLevel > n.mipLevel
    ensures r.Populated? ==> Valid(r.node) && SamePlace(r.node, n)
    ensures r.Populated? ==> r.node.needsRegenerating == n.needsRegenerating && r.node.voxelData == n.voxelData
    decreases n.mipLevel
  {
    match PopulateSingleMipLevel(n, meshFlag)
    case BelowMipZero => BelowMipZero
    case Populated(p) =>
      if onLevel + 1 == levels then Populated(p)
      else if CreateChildrenForFirstNMipLevels(NewChild(n, 0, meshFlag), levels, onLevel + 1, meshFlag).BelowMipZero? then
        BelowMipZero
      else
        var kids := seq(8, i requires 0 <= i < 8 =>
          CreateChildrenForFirstNMipLevels(NewChild(n, i, meshFlag), levels, onLevel + 1, meshFlag));
        assert forall i :: 0 <= i < 8 ==> kids[i].Populated?;
        var r := p.(children := seq(8, i requires 0 <= i < 8 => Some(kids[i].node)));
        assert forall i: Octant :: IsChildOf(r, i, r.children[i].value) by {
          forall i: Octant ensures IsChildOf(r, i, r.children[i].value) {
            assert IsChildOf(n, i, NewChild(n, i, meshFlag));
          }
        }
        Populated(r)
  }

  /** The children `PopulateSingleMipLevel` creates are the new bare
      children of their octants. */
  lemma PopulatedChild(n: Node, meshFlag: bool, i: Octant)
    requires Valid(n) && n.mipLevel > 0
    ensures PopulateSingleMipLevel(n, meshFlag).node.children[i] == Some(NewChild(n, i, meshFlag))
  {
  }

  /** After a successful `CreateChildrenForFirstNMipLevels`, the tree is
      complete down to `levels - onLevel` levels: every path that short
      leads to a node, and the nodes at exactly that depth are bare. */
  lemma {:induction false} CreateChildrenComplete(n: Node, levels: int, onLevel: int, meshFlag: bool, path: seq<Octant>)
    requires Valid(n)
    ensures var r := CreateChildrenForFirstNMipLevels(n, levels, onLevel, meshFlag);
      r.Populated? && |path| <= levels - onLevel ==>
        && NodeAt(r.node, path).Some?
        && (|path| == levels - onLevel ==> IsBare(NodeAt(r.node, path).value))
    decreases n.mipLevel
  {
    var r := CreateChildrenForFirstNMipLevels(n, levels, onLevel, meshFlag);
    if r.Populated? && 0 < |path| <= levels - onLevel {
      var c := NewChild(n, path[0], meshFlag);
      PopulatedChild(n, meshFlag, path[0]);
      if onLevel + 1 < levels {
        CreateChildrenComplete(c, levels, onLevel + 1, meshFlag, path[1..]);
      }
    }
  }

  /** `AllocateNodeVoxelData`: gives a node a block whose contents are
      whatever the allocator returned (`garbage`). */
  function AllocateNodeVoxelData(n: Node, garbage: seq<i8>): (r: Node)
    requires Valid(n) && n.mipLevel == 0 && |garbage| == VoxelBlockSize
    ensures Valid(r) && SamePlace(r, n) && r.voxelData == Some(garbage)
    ensures r.children == n.children && r.needsRegenerating == n.needsRegenerating
  {
    n.(voxelData := Some(garbage))
  }

  // ---------------------------------------------------------------------
  // Sampling a node for the polygonizer

  /** Samples per axis: the 16 cells, one gutter sample below and two
      above. */
  const TotalSideSize: nat := 19
  const TotalCellVolumeSize: nat := 6859

  /** Sample (ix, iy, iz) of the lattice over a cube: `step` apart,
      starting one step below the corner. */
  function LatticePoint(bl: Vec3, step: int, ix: int, iy: int, iz: int): Vec3 {
    Vec3(bl.x + (ix - 1) * step, bl.y + (iy - 1) * step, bl.z + (iz - 1) * step)
  }

  /** The samples a lattice over `(bl, sizeInVoxels)` reads can all be
      read. */
  predicate LatticeReadable(t: Octree, bl: Vec3, step: int)
    requires OctreeValid(t)
  {
    forall ix, iy, iz :: 0 <= ix < TotalSideSize && 0 <= iy < TotalSideSize && 0 <= iz < TotalSideSize ==>
      CanRead(t, LatticePoint(bl, step, ix, iy, iz))
  }

  lemma StepCount(k: int, step: int)
    requires step >= 1 && 0 <= k
    ensures k * step < TotalSideSize * step <==> k < TotalSideSize
  {
    if k >= TotalSideSize {
      assert k * step >= TotalSideSize * step;
    }
  }

  /** `GetVoxelsForNode`: reads the 19^3 samples spaced `sizeInVoxels / 16`
      apart from one step below the node's corner to two steps above its far
      side, z slowest and x fastest. */
  method GetVoxelsForNode(t: Octree, bl: Vec3, sizeInVoxels: nat) returns (outVoxels: seq<i8>)
    requires OctreeValid(t)
    requires sizeInVoxels >= BaseCellSize && sizeInVoxels % BaseCellSize == 0
    requires LatticeReadable(t, bl, sizeInVoxels / BaseCellSize)
    ensures |outVoxels| == TotalCellVolumeSize
    ensures forall ix, iy, iz :: 0 <= ix < TotalSideSize && 0 <= iy < TotalSideSize && 0 <= iz < TotalSideSize ==>
      outVoxels[ix + TotalSideSize * iy + TotalSideSize * TotalSideSize * iz]
        == GetVoxelAt(t, LatticePoint(bl, sizeInVoxels / BaseCellSize, ix, iy, iz))
  {
    var step := sizeInVoxels / BaseCellSize;
    var initialZ := bl.z - step;
    var endZ := bl.z + sizeInVoxels + 2 * step;
    assert endZ == initialZ + TotalSideSize * step;
    outVoxels := [];
    var z := initialZ;
    ghost var iz := 0;
    while z < endZ
      invariant 0 <= iz <= TotalSideSize && z == initialZ + iz * step
      invariant |outVoxels| == TotalSideSize * TotalSideSize * iz
      invariant forall ix, iy, jz :: 0 <= ix < TotalSideSize && 0 <= iy < TotalSideSize && 0 <= jz < iz ==>
        outVoxels[ix + TotalSideSize * iy + TotalSideSize * TotalSideSize * jz]
          == GetVoxelAt(t, LatticePoint(bl, step, ix, iy, iz := jz))
      decreases endZ - z
    {
      StepCount(iz, step);
      var plane := GetPlane(t, bl, step, iz, z);
      outVoxels := outVoxels + plane;
      z := z + step;
      iz := iz + 1;
    }
    StepCount(iz, step);
  }

  /** One z plane of the lattice: 19 rows of 19 samples. */
  method GetPlane(t: Octree, bl: Vec3, step: int, ghost iz: int, z: int) returns (plane: seq<i8>)
    requires OctreeValid(t) && step >= 1 && 0 <= iz < TotalSideSize && z == bl.z + (iz - 1) * step
    requires LatticeReadable(t, bl, step)
    ensures |plane| == TotalSideSize * TotalSideSize
    ensures forall ix, iy :: 0 <= ix < TotalSideSize && 0 <= iy < TotalSideSize ==>
      plane[ix + TotalSideSize * iy] == GetVoxelAt(t, LatticePoint(bl, step, ix, iy, iz))
  {
    var initialY := bl.y - step;
    var endY := initialY + TotalSideSize * step;
    plane := [];
    var y := initialY;
    ghost var iy := 0;
    while y < endY
      invariant 0 <= iy <= TotalSideSize && y == initialY + iy * step
      invariant |plane| == TotalSideSize * iy
      invariant forall ix, jy :: 0 <= ix < TotalSideSize && 0 <= jy < iy ==>
        plane[ix + TotalSideSize * jy] == GetVoxelAt(t, LatticePoint(bl, step, ix, jy, iz))
      decreases endY - y
    {
      StepCount(iy, step);
      var row := GetRow(t, bl, step, iy, iz, y, z);
      plane := plane + row;
      y := y + step;
      iy := iy + 1;
    }
    StepCount(iy, step);
  }

  /** One x row of the lattice. */
  method GetRow(t: Octree, bl: Vec3, step: int, ghost iy: int, ghost iz: int, y: int, z: int) returns (row: seq<i8>)
    requires OctreeValid(t) && step >= 1 && 0 <= iy < TotalSideSize && 0 <= iz < TotalSideSize
    requires y == bl.y + (iy - 1) * step && z == bl.z + (iz - 1) * step
    requires LatticeReadable(t, bl, step)
    ensures |row| == TotalSideSize
    ensures forall ix :: 0 <= ix < TotalSideSize ==> row[ix] == GetVoxelAt(t, LatticePoint(bl, step, ix, iy, iz))
  {
    var initialX := bl.x - step;
    var endX := initialX + TotalSideSize * step;
    row := [];
    var x := initialX;
    ghost var ix := 0;
    while x < endX
      invariant 0 <= ix <= TotalSideSize && x == initialX + ix * step && |row| == ix
      invariant RowPrefix(t, bl, step, iy, iz, row)
      decreases endX - x
    {
      StepCount(ix, step);
      assert Vec3(x, y, z) == LatticePoint(bl, step, ix, iy, iz);
      assert CanRead(t, Vec3(x, y, z));
      var value := GetVoxelAt(t, Vec3(x, y, z));
      RowExtend(t, bl, step, iy, iz, row, value);
      row := row + [value];
      x := x + step;
      ix := ix + 1;
    }
    StepCount(ix, step);
  }

  /** `row` holds the first `|row|` samples of lattice row `(iy, iz)`. */
  ghost predicate RowPrefix(t: Octree, bl: Vec3, step: int, iy: int, iz: int, row: seq<i8>) {
    && OctreeValid(t) && LatticeReadable(t, bl, step)
    && 0 <= iy < TotalSideSize && 0 <= iz < TotalSideSize && |row| <= TotalSideSize
    && forall jx :: 0 <= jx < |row| ==> row[jx] == GetVoxelAt(t, LatticePoint(bl, step, jx, iy, iz))
  }

  lemma RowExtend(t: Octree, bl: Vec3, step: int, iy: int, iz: int, row: seq<i8>, value: i8)
    requires RowPrefix(t, bl, step, iy, iz, row) && |row| < TotalSideSize
    requires value == GetVoxelAt(t, LatticePoint(bl, step, |row|, iy, iz))
    ensures RowPrefix(t, bl, step, iy, iz, row + [value])
  {
  }
}
