/** `SparseTerrainOctreeNode`: one cube of the sparse voxel octree, its eight
    lazily created children and, at mip level 0 only, a dense 16^3 block.

    Nodes are values. A node is named by its path from the root, a sequence
    of octants, which plays the role the node pointer plays in the engine. */
module OctreeNode {
  import opened TerrainTypes
  import opened OctreeFunctionLibrary

  /** Samples in a mip-0 block: 16 * 16 * 16. */
  const VoxelBlockSize: nat := 4096

  /** `Mesh` is reduced to its `bNeedsRegenerating` flag; the GPU handles it
      also carries are not part of this model. */
  datatype Node = Node(
    mipLevel: nat,
    bottomLeftCorner: Vec3,
    sizeInVoxels: nat,
    children: seq<Option<Node>>,
    needsRegenerating: bool,
    voxelData: Option<seq<i8>>)
  {
    /** `GetChild(i)`: the child slot itself, null when absent. */
    function GetChild(i: Octant): Option<Node>
      requires |children| == 8
    {
      children[i]
    }

    /** `NeedsRegenerating()`: the mesh's dirty flag. */
    predicate NeedsRegenerating() {
      needsRegenerating
    }
  }

  /** Eight null child slots. */
  function NoChildren(): (r: seq<Option<Node>>)
    ensures |r| == 8 && forall i: Octant :: r[i].None?
  {
    seq(8, _ => None)
  }

  /** The node constructor. It sets mip level, corner and size, leaves all
      eight children null and the voxel block null, and does not initialise
      `Mesh`: `meshFlag` stands for whatever the uninitialised flag holds. */
  function NewNode(mipLevel: nat, bottomLeft: Vec3, sizeInVoxels: nat, meshFlag: bool): Node {
    Node(mipLevel, bottomLeft, sizeInVoxels, NoChildren(), meshFlag, None)
  }

  /** A node with no children and no voxel block. */
  predicate IsBare(n: Node) {
    && |n.children| == 8
    && (forall i: Octant :: n.children[i].None?)
    && n.voxelData.None?
  }

  /** `c` sits in slot `i` of `parent`: one mip level lower, half the size,
      at the parent's corner plus the octant's offset. */
  predicate IsChildOf(parent: Node, i: Octant, c: Node) {
    && c.mipLevel + 1 == parent.mipLevel
    && c.bottomLeftCorner == ChildBottomLeft(parent.bottomLeftCorner, parent.sizeInVoxels, i)
    && c.sizeInVoxels == parent.sizeInVoxels / 2
  }

  /** The structural invariant the octree keeps: sizes follow mip levels,
      children sit in their octants one level down, only mip-0 nodes hold a
      block (of exactly 4096 samples), and mip-0 nodes have no children. */
  predicate Valid(n: Node) {
    && |n.children| == 8
    && n.sizeInVoxels == BaseCellSize * Pow2(n.mipLevel)
    && (n.voxelData.Some? ==> n.mipLevel == 0 && |n.voxelData.value| == VoxelBlockSize)
    && (n.mipLevel == 0 ==> forall i: Octant :: n.children[i].None?)
    && forall i: Octant :: n.children[i].Some? ==>
         IsChildOf(n, i, n.children[i].value) && Valid(n.children[i].value)
  }

  /** A freshly constructed node of consistent size is a valid, bare
      subtree. */
  lemma NewNodeIsValidAndBare(mipLevel: nat, bottomLeft: Vec3, meshFlag: bool)
    ensures Valid(NewNode(mipLevel, bottomLeft, BaseCellSize * Pow2(mipLevel), meshFlag))
    ensures IsBare(NewNode(mipLevel, bottomLeft, BaseCellSize * Pow2(mipLevel), meshFlag))
    ensures NewNode(mipLevel, bottomLeft, BaseCellSize * Pow2(mipLevel), meshFlag).needsRegenerating == meshFlag
  {
  }

  /** Size facts of a valid node above mip 0: it splits evenly into halves
      that are valid sizes one level down. */
  lemma SplitSize(n: Node)
    requires Valid(n) && n.mipLevel > 0
    ensures n.sizeInVoxels >= 32 && n.sizeInVoxels % 2 == 0
    ensures n.sizeInVoxels / 2 == BaseCellSize * Pow2(n.mipLevel - 1)
  {
  }

  /** The child created for slot `i` of `n` during a descent. */
  function NewChild(n: Node, i: Octant, meshFlag: bool): (c: Node)
    requires Valid(n) && n.mipLevel > 0
    ensures Valid(c) && IsBare(c) && IsChildOf(n, i, c)
    ensures c.needsRegenerating == meshFlag
  {
    SplitSize(n);
    NewNode(n.mipLevel - 1, ChildBottomLeft(n.bottomLeftCorner, n.sizeInVoxels, i), n.sizeInVoxels / 2, meshFlag)
  }

  /** The node reached from `n` along `path`, or None when a slot on the way
      is null. */
  function NodeAt(n: Node, path: seq<Octant>): (r: Option<Node>)
    requires Valid(n)
    ensures r.Some? ==> Valid(r.value) && r.value.mipLevel + |path| == n.mipLevel
    decreases |path|
  {
    if |path| == 0 then Some(n)
    else match n.children[path[0]]
      case None => None
      case Some(c) => NodeAt(c, path[1..])
  }

  /** Two nodes that occupy the same place in the tree: same mip level,
      corner and size. */
  predicate SamePlace(a: Node, b: Node) {
    a.mipLevel == b.mipLevel && a.bottomLeftCorner == b.bottomLeftCorner && a.sizeInVoxels == b.sizeInVoxels
  }

  /** `n` with slot `i` holding `c`, a valid child for that octant, and
      its dirty flag set to `dirty`: again a valid node for the same place,
      with the other slots and the block unchanged. */
  function WithChild(n: Node, i: Octant, c: Node, dirty: bool): (r: Node)
    requires Valid(n) && Valid(c) && IsChildOf(n, i, c)
    ensures Valid(r) && SamePlace(r, n)
    ensures r.children[i] == Some(c) && r.needsRegenerating == dirty && r.voxelData == n.voxelData
    ensures forall j: Octant :: j != i ==> r.children[j] == n.children[j]
  {
    var r := n.(needsRegenerating := dirty, children := n.children[i := Some(c)]);
    assert forall j: Octant :: j != i ==> r.children[j] == n.children[j];
    r
  }

  /** `n` with the node at `path` replaced by `m`, a valid node for the
      same place; the result is again a valid tree for the root's place. */
  function ReplaceAt(n: Node, path: seq<Octant>, m: Node): (r: Node)
    requires Valid(n) && NodeAt(n, path).Some?
    requires Valid(m) && SamePlace(m, NodeAt(n, path).value)
    ensures Valid(r) && SamePlace(r, n)
    decreases |path|
  {
    if |path| == 0 then m
    else
      var c := n.children[path[0]].value;
      var c' := ReplaceAt(c, path[1..], m);
      var r := n.(children := n.children[path[0] := Some(c')]);
      assert forall i: Octant :: i != path[0] ==> r.children[i] == n.children[i];
      r
  }

  /** After the replacement, `path` leads to `m`. */
  lemma {:induction false} ReplaceAtReaches(n: Node, path: seq<Octant>, m: Node)
    requires Valid(n) && NodeAt(n, path).Some?
    requires Valid(m) && SamePlace(m, NodeAt(n, path).value)
    ensures NodeAt(ReplaceAt(n, path, m), path) == Some(m)
    decreases |path|
  {
    if |path| > 0 {
      ReplaceAtReaches(n.children[path[0]].value, path[1..], m);
    }
  }

  /** Replacing the node at one full-depth path leaves the node at every
      other path of that depth as it was. */
  lemma {:induction false} ReplaceAtFrame(n: Node, path: seq<Octant>, m: Node, q: seq<Octant>)
    requires Valid(n) && NodeAt(n, path).Some?
    requires Valid(m) && SamePlace(m, NodeAt(n, path).value)
    requires |q| == |path| && q != path
    ensures NodeAt(ReplaceAt(n, path, m), q) == NodeAt(n, q)
    decreases |path|
  {
    if |path| > 0 && q[0] == path[0] {
      assert q[1..] != path[1..] by {
        assert q == [q[0]] + q[1..] && path == [path[0]] + path[1..];
      }
      ReplaceAtFrame(n.children[path[0]].value, path[1..], m, q[1..]);
    }
  }

  /** Every existing mip-0 node holds a voxel block. */
  predicate AllLeavesAllocated(n: Node)
    requires Valid(n)
  {
    && (n.mipLevel == 0 ==> n.voxelData.Some?)
    && forall i: Octant :: n.children[i].Some? ==> AllLeavesAllocated(n.children[i].value)
  }
}
