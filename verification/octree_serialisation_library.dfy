/** `OctreeSerialisation`: saving the voxel blocks of a set of mip-0 nodes
    to a flat binary file and loading them back.

    The file is an 8-byte header (`u32` version, always 0, and `u32` node
    count) followed by one 4104-byte record per node: its `u64` path index
    and its 4096 voxels as raw bytes. The engine writes the header struct
    and the index straight from memory, so multi-byte fields are in the
    machine's byte order, little-endian on the platforms it targets. */
module OctreeSerialisationLibrary {
  import opened TerrainTypes
  import opened OctreeFunctionLibrary
  import opened OctreeNode
  import opened OctreeIndex
  import opened SparseTerrainVoxelOctree

  const CurrentFileFormatVersion: nat := 0
  const HeaderSize: nat := 8
  const RecordSize: nat := 4104

  // ---------------------------------------------------------------------
  // Little-endian integers

  function Pow256(n: nat): (r: nat)
    ensures r >= 1
  {
    if n == 0 then 1 else 256 * Pow256(n - 1)
  }

  lemma Pow256Values()
    ensures Pow256(4) == U32_MODULUS && Pow256(8) == U64_MODULUS
  {
    assert Pow256(1) == 256;
    assert Pow256(2) == 0x1_0000;
    assert Pow256(3) == 0x100_0000;
    assert Pow256(4) == 0x1_0000_0000;
    assert Pow256(5) == 0x100_0000_0000;
    assert Pow256(6) == 0x1_0000_0000_0000;
    assert Pow256(7) == 0x100_0000_0000_0000;
  }

  /** The low `n` bytes of `x`, least significant first. */
  function LeBytes(x: nat, n: nat): (b: seq<u8>)
    ensures |b| == n
  {
    if n == 0 then [] else [x % 256] + LeBytes(x / 256, n - 1)
  }

  /** The number whose little-endian bytes are `b`. */
  function LeValue(b: seq<u8>): (x: nat)
    ensures x < Pow256(|b|)
  {
    if |b| == 0 then 0 else b[0] + 256 * LeValue(b[1..])
  }

  /** Decoding the bytes of a number that fits gives the number back. */
  lemma {:induction false} LeRoundTrip(x: nat, n: nat)
    requires x < Pow256(n)
    ensures LeValue(LeBytes(x, n)) == x
  {
    if n > 0 {
      LeRoundTrip(x / 256, n - 1);
      assert LeBytes(x, n)[1..] == LeBytes(x / 256, n - 1);
    }
  }

  /** Encoding a decoded value gives the bytes back. */
  lemma {:induction false} LeBytesOfValue(b: seq<u8>)
    ensures LeBytes(LeValue(b), |b|) == b
  {
    if |b| > 0 {
      LeBytesOfValue(b[1..]);
      assert (b[0] + 256 * LeValue(b[1..])) / 256 == LeValue(b[1..]);
    }
  }

  /** Voxels written through a `char*`: each `i8` as its raw byte. */
  function VoxelBytes(block: seq<i8>): (b: seq<u8>)
    ensures |b| == |block|
    ensures forall i :: 0 <= i < |block| ==> VoxelOfByte(b[i]) == block[i]
  {
    seq(|block|, i requires 0 <= i < |block| => ByteOfVoxel(block[i]))
  }

  // ---------------------------------------------------------------------
  // Writing

  /** `WriteHeader`: version 0 and the set's size truncated to `u32`. */
  function WriteHeader(numNodes: nat): (b: seq<u8>)
    ensures |b| == HeaderSize
  {
    LeBytes(CurrentFileFormatVersion, 4) + LeBytes(numNodes % U32_MODULUS, 4)
  }

  /** `WriteNode`: the index, then the 4096 voxels. */
  function WriteNode(index: u64, block: seq<i8>): (b: seq<u8>)
    requires |block| == VoxelBlockSize
    ensures |b| == RecordSize
  {
    LeBytes(index, 8) + VoxelBytes(block)
  }

  /** The voxel block of the mip-0 node at a full-depth path, if that node
      exists and has one. */
  function BlockAt(t: Octree, path: seq<Octant>): (b: Option<seq<i8>>)
    requires OctreeValid(t)
    ensures b.Some? ==> |b.value| == VoxelBlockSize
  {
    match NodeAt(t.parentNode, path)
    case None => None
    case Some(n) => n.voxelData
  }

  /** The path an index names in `t`. */
  function PathIn(t: Octree, index: u64): seq<Octant>
    requires OctreeValid(t) && IsWalkableIndex(index, t.parentNode.mipLevel)
  {
    PathOfIndex(index, t.parentNode.mipLevel)
  }

  /** Every index to save names a mip-0 node that has a block: the engine
      reads the node's mip level and its block without checking. */
  predicate Savable(t: Octree, index: u64)
    requires OctreeValid(t)
  {
    IsWalkableIndex(index, t.parentNode.mipLevel) && BlockAt(t, PathIn(t, index)).Some?
  }

  /** `order` lists the set's elements once each: the iteration order of
      the `unordered_set` is not fixed, so it is a parameter. */
  predicate IsOrderOf(order: seq<u64>, setNodes: set<u64>) {
    && (forall i, j :: 0 <= i < j < |order| ==> order[i] != order[j])
    && (forall i :: 0 <= i < |order| ==> order[i] in setNodes)
    && (forall x :: x in setNodes ==> x in order)
  }

  lemma OrderLength(order: seq<u64>, setNodes: set<u64>)
    requires IsOrderOf(order, setNodes)
    ensures |order| == |setNodes|
  {
    var s := set i | 0 <= i < |order| :: order[i];
    assert s == setNodes;
    DistinctCard(order);
  }

  lemma {:induction false} DistinctCard(order: seq<u64>)
    requires forall i, j :: 0 <= i < j < |order| ==> order[i] != order[j]
    ensures |set i | 0 <= i < |order| :: order[i]| == |order|
  {
    if |order| > 0 {
      var init := order[..|order| - 1];
      DistinctCard(init);
      var s := set i | 0 <= i < |order| :: order[i];
      var si := set i | 0 <= i < |init| :: init[i];
      assert s == si + {order[|order| - 1]};
      assert order[|order| - 1] !in si;
    }
  }

  /** Every index of `order` can be saved. */
  predicate AllSavable(t: Octree, order: seq<u64>)
    requires OctreeValid(t)
  {
    forall i :: 0 <= i < |order| ==> Savable(t, order[i])
  }

  /** One node to write: its index and its block. */
  datatype Entry = Entry(index: u64, block: seq<i8>)

  predicate WellSized(entries: seq<Entry>) {
    forall i :: 0 <= i < |entries| ==> |entries[i].block| == VoxelBlockSize
  }

  /** The records for `entries`, laid end to end. */
  function Records(entries: seq<Entry>): (b: seq<u8>)
    requires WellSized(entries)
    ensures |b| == RecordSize * |entries|
  {
    if |entries| == 0 then []
    else
      var last := entries[|entries| - 1];
      Records(entries[..|entries| - 1]) + WriteNode(last.index, last.block)
  }

  /** What saving `order` writes for each index: the index and the block
      of the node it names. */
  function Entries(t: Octree, order: seq<u64>): (entries: seq<Entry>)
    requires OctreeValid(t) && AllSavable(t, order)
    ensures |entries| == |order| && WellSized(entries)
    ensures forall i :: 0 <= i < |order| ==>
      entries[i].index == order[i] && BlockAt(t, PathIn(t, order[i])) == Some(entries[i].block)
  {
    seq(|order|, i requires 0 <= i < |order| => Entry(order[i], BlockAt(t, PathIn(t, order[i])).value))
  }

  /** The whole file saved for `order`. */
  function SavedFile(t: Octree, order: seq<u64>): seq<u8>
    requires OctreeValid(t) && AllSavable(t, order)
  {
    FileOf(Entries(t, order))
  }

  /** A file holding `entries`: the header, then their records. */
  function FileOf(entries: seq<Entry>): seq<u8>
    requires WellSized(entries)
  {
    WriteHeader(|entries|) + Records(entries)
  }

  /** Two trees hold the same blocks at every full-depth path. */
  ghost predicate SameBlocks(a: Octree, b: Octree)
    requires OctreeValid(a) && OctreeValid(b)
  {
    && a.parentNode.mipLevel == b.parentNode.mipLevel
    && forall path: seq<Octant> :: |path| == a.parentNode.mipLevel ==> BlockAt(a, path) == BlockAt(b, path)
  }

  /** A non-creating `FindNodeFromIndex` changes no block. */
  lemma FindKeepsBlocks(t: Octree, index: u64, meshFlag: bool)
    requires OctreeValid(t) && FindNodeFromIndexPrecondition(t, index, false)
    ensures SameBlocks(FindNodeFromIndex(t, index, false, meshFlag).0, t)
  {
    var r := FindNodeFromIndex(t, index, false, meshFlag);
    var path := PathOfIndex(index, t.parentNode.mipLevel);
    forall q: seq<Octant> | |q| == t.parentNode.mipLevel
      ensures BlockAt(r.0, q) == BlockAt(t, q)
    {
      FindNodeFromIndexSpec(t, index, false, meshFlag, q);
    }
  }

  /** `SaveNewlyGeneratedToFile`: when the file cannot be opened nothing is
      written; otherwise the header and, in iteration order, one record per
      index holding that node's block. Looking the nodes up marks them
      dirty but changes no block. */
  method SaveNewlyGeneratedToFile(t: Octree, setNodes: set<u64>, order: seq<u64>, canOpen: bool)
    returns (r: Octree, file: Option<seq<u8>>)
    requires OctreeValid(t) && IsOrderOf(order, setNodes)
    requires forall index :: index in setNodes ==> Savable(t, index)
    requires setNodes != {} ==> t.parentNode.mipLevel <= INDEX_NIBBLES
    ensures AllSavable(t, order)
    ensures OctreeValid(r) && SameBlocks(r, t)
    ensures !canOpen ==> file.None?
    ensures canOpen ==> file == Some(SavedFile(t, order))
  {
    OrderSavable(t, setNodes, order);
    r := t;
    if !canOpen {
      file := None;
      return;
    }
    OrderLength(order, setNodes);
    var written;
    r, written := CollectEntries(t, order);
    file := Some(FileOf(written));
  }

  /** The save loop: look up each index in turn and collect its entry. */
  method CollectEntries(t: Octree, order: seq<u64>) returns (r: Octree, written: seq<Entry>)
    requires OctreeValid(t) && AllSavable(t, order)
    requires |order| > 0 ==> t.parentNode.mipLevel <= INDEX_NIBBLES
    ensures OctreeValid(r) && SameBlocks(r, t)
    ensures written == Entries(t, order)
  {
    r := t;
    written := [];
    var i := 0;
    while i < |order|
      invariant 0 <= i <= |order|
      invariant SavingFrom(t, order, i, r, written)
    {
      var block;
      r, block := SaveOneNode(r, t, order, i, written);
      written := written + [Entry(order[i], block)];
      i := i + 1;
    }
  }

  /** The state of the save loop after `i` indices: `r` still holds `t`'s
      blocks and `written` the first `i` entries. */
  ghost predicate SavingFrom(t: Octree, order: seq<u64>, i: nat, r: Octree, written: seq<Entry>) {
    && OctreeValid(t) && AllSavable(t, order) && i <= |order|
    && OctreeValid(r) && SameBlocks(r, t)
    && written == Entries(t, order)[..i]
  }

  /** One iteration of the save loop: find the node for index `i` of the
      order without creating anything and take its block. */
  method SaveOneNode(r: Octree, ghost t: Octree, order: seq<u64>, i: nat, ghost written: seq<Entry>)
    returns (r': Octree, block: seq<i8>)
    requires SavingFrom(t, order, i, r, written) && i < |order|
    requires t.parentNode.mipLevel <= INDEX_NIBBLES
    ensures SavingFrom(t, order, i + 1, r', written + [Entry(order[i], block)])
  {
    r', block := FindBlockToSave(r, order[i], t);
    SavingStep(t, order, i, r, written, r', block);
  }

  /** Taking the block of index `i` advances the save loop's state. */
  lemma SavingStep(t: Octree, order: seq<u64>, i: nat, r: Octree, written: seq<Entry>, r': Octree, block: seq<i8>)
    requires SavingFrom(t, order, i, r, written) && i < |order|
    requires OctreeValid(r') && SameBlocks(r', t)
    requires BlockAt(t, PathIn(t, order[i])) == Some(block)
    ensures SavingFrom(t, order, i + 1, r', written + [Entry(order[i], block)])
  {
    var entries := Entries(t, order);
    assert entries[i] == Entry(order[i], block);
    TakeOneMore(entries, i);
  }

  lemma TakeOneMore(s: seq<Entry>, i: nat)
    requires i < |s|
    ensures s[..i + 1] == s[..i] + [s[i]]
  {
  }

  lemma OrderSavable(t: Octree, setNodes: set<u64>, order: seq<u64>)
    requires OctreeValid(t) && IsOrderOf(order, setNodes)
    requires forall index :: index in setNodes ==> Savable(t, index)
    ensures AllSavable(t, order)
  {
  }

  /** Trees with the same blocks can save the same indices. */
  lemma SavableCarries(t: Octree, r: Octree, index: u64)
    requires OctreeValid(t) && OctreeValid(r) && SameBlocks(r, t) && Savable(t, index)
    ensures Savable(r, index) && BlockAt(r, PathIn(r, index)) == BlockAt(t, PathIn(t, index))
  {
  }

  /** One iteration of the save loop: look the node up (without creating)
      and take its block. */
  method FindBlockToSave(r: Octree, index: u64, ghost t: Octree) returns (r': Octree, block: seq<i8>)
    requires OctreeValid(r) && OctreeValid(t) && SameBlocks(r, t) && Savable(t, index)
    requires t.parentNode.mipLevel <= INDEX_NIBBLES
    ensures OctreeValid(r') && SameBlocks(r', t)
    ensures BlockAt(r, PathIn(r, index)) == Some(block)
    ensures BlockAt(t, PathIn(t, index)) == Some(block)
  {
    SavableCarries(t, r, index);
    PrefixExistsForIndex(r, index);
    FindKeepsBlocks(r, index, false);
    var found := FindNodeFromIndex(r, index, false, false);
    r' := found.0;
    block := found.1.value.voxelData.value;
  }

  /** A savable index satisfies what `FindNodeFromIndex` needs, and the node
      it finds is the mip-0 node holding the block. */
  lemma PrefixExistsForIndex(t: Octree, index: u64)
    requires OctreeValid(t) && Savable(t, index) && t.parentNode.mipLevel <= INDEX_NIBBLES
    ensures FindNodeFromIndexPrecondition(t, index, false)
    ensures var f := FindNodeFromIndex(t, index, false, false).1;
      f.Some? && f.value.mipLevel == 0 && f.value.voxelData == BlockAt(t, PathIn(t, index))
  {
    var path := PathIn(t, index);
    if |path| > 0 {
      PrefixExists(t.parentNode, path, |path| - 1);
    }
    FindNodeFromIndexSpec(t, index, false, false, []);
  }

  // ---------------------------------------------------------------------
  // Reading

  function FileVersion(file: seq<u8>): nat
    requires |file| >= HeaderSize
  {
    LeValue(file[0..4])
  }

  function FileNumNodes(file: seq<u8>): nat
    requires |file| >= HeaderSize
  {
    LeValue(file[4..8])
  }

  function RecordIndex(file: seq<u8>, k: nat): u64
    requires HeaderSize + RecordSize * (k + 1) <= |file|
  {
    Pow256Values();
    LeValue(file[HeaderSize + RecordSize * k .. HeaderSize + RecordSize * k + 8])
  }

  function RecordBlock(file: seq<u8>, k: nat): (block: seq<i8>)
    requires HeaderSize + RecordSize * (k + 1) <= |file|
    ensures |block| == VoxelBlockSize
  {
    var start := HeaderSize + RecordSize * k + 8;
    VoxelsOfBytes(file[start .. start + VoxelBlockSize])
  }

  /** Raw bytes read back into an `i8` buffer. */
  function VoxelsOfBytes(b: seq<u8>): (v: seq<i8>)
    ensures |v| == |b|
    ensures forall i :: 0 <= i < |b| ==> v[i] == VoxelOfByte(b[i])
  {
    if |b| == 0 then [] else [VoxelOfByte(b[0])] + VoxelsOfBytes(b[1..])
  }

  /** What loading needs of a file: the header, as many whole records as it
      announces, and record indices whose nibbles name child slots. A short
      file would leave the index uninitialised, and a nibble of 8 or more
      indexes past `Children`. A tree more than 16 levels deep cannot load
      any record, since `FindNodeFromIndex` would shift the index by 64 bits
      or more. The version is not required: a mismatch is only reported. */
  predicate WellFormedFile(file: seq<u8>, mipLevel: nat) {
    && |file| >= HeaderSize
    && |file| >= HeaderSize + RecordSize * FileNumNodes(file)
    && forall k :: 0 <= k < FileNumNodes(file) ==>
         mipLevel <= INDEX_NIBBLES && IsWalkableIndex(RecordIndex(file, k), mipLevel)
  }

  /** One iteration of `LoadFromFile`'s loop: find (creating) the node the
      index names, give it a block if it has none (`garbage` is the fresh
      allocation's contents), then overwrite the whole block with the
      record's voxels. */
  function LoadRecord(t: Octree, index: u64, block: seq<i8>, meshFlag: bool, garbage: seq<i8>): (r: Octree)
    requires OctreeValid(t) && t.parentNode.mipLevel <= INDEX_NIBBLES && IsWalkableIndex(index, t.parentNode.mipLevel)
    requires |block| == VoxelBlockSize && |garbage| == VoxelBlockSize
    ensures OctreeValid(r) && r.parentNode.mipLevel == t.parentNode.mipLevel
  {
    FindNodeFromIndexSpec(t, index, true, meshFlag, []);
    var found := FindNodeFromIndex(t, index, true, meshFlag);
    var path := PathOfIndex(index, t.parentNode.mipLevel);
    var node := found.1.value;
    var withBlock := if node.voxelData.None? then AllocateNodeVoxelData(node, garbage) else node;
    var filled := withBlock.(voxelData := Some(block));
    found.0.(parentNode := ReplaceAt(found.0.parentNode, path, filled))
  }

  /** Loading one record sets the block at its path and no other. */
  lemma LoadRecordEffect(t: Octree, index: u64, block: seq<i8>, meshFlag: bool, garbage: seq<i8>, q: seq<Octant>)
    requires OctreeValid(t) && t.parentNode.mipLevel <= INDEX_NIBBLES && IsWalkableIndex(index, t.parentNode.mipLevel)
    requires |block| == VoxelBlockSize && |garbage| == VoxelBlockSize
    requires |q| == t.parentNode.mipLevel
    ensures BlockAt(LoadRecord(t, index, block, meshFlag, garbage), q) ==
              if q == PathIn(t, index) then Some(block) else BlockAt(t, q)
  {
    FindNodeFromIndexSpec(t, index, true, meshFlag, q);
    var found := FindNodeFromIndex(t, index, true, meshFlag);
    var path := PathOfIndex(index, t.parentNode.mipLevel);
    var node := found.1.value;
    var withBlock := if node.voxelData.None? then AllocateNodeVoxelData(node, garbage) else node;
    var filled := withBlock.(voxelData := Some(block));
    if q == path {
      ReplaceAtReaches(found.0.parentNode, path, filled);
    } else {
      ReplaceAtFrame(found.0.parentNode, path, filled, q);
    }
  }

  /** The block the first `count` records leave at `path`: the last of
      those records for that path wins, and without one the tree's own
      block stays. */
  function LoadedBlock(t: Octree, file: seq<u8>, count: nat, path: seq<Octant>): Option<seq<i8>>
    requires OctreeValid(t) && WellFormedFile(file, t.parentNode.mipLevel)
    requires count <= FileNumNodes(file)
  {
    if count == 0 then BlockAt(t, path)
    else if PathOfIndex(RecordIndex(file, count - 1), t.parentNode.mipLevel) == path then
      Some(RecordBlock(file, count - 1))
    else LoadedBlock(t, file, count - 1, path)
  }

  /** `r` is a valid tree of the same depth as `t` and holds at every
      full-depth path the block the first `count` records of `file` leave
      there. */
  ghost predicate HoldsLoaded(t: Octree, file: seq<u8>, count: nat, r: Octree) {
    && OctreeValid(t) && WellFormedFile(file, t.parentNode.mipLevel)
    && count <= FileNumNodes(file)
    && OctreeValid(r) && r.parentNode.mipLevel == t.parentNode.mipLevel
    && forall path: seq<Octant> :: |path| == t.parentNode.mipLevel ==>
         BlockAt(r, path) == LoadedBlock(t, file, count, path)
  }

  /** Loading record `i` into a tree holding what the first `i` records
      leave gives what the first `i + 1` leave. */
  lemma LoadStep(t: Octree, r: Octree, file: seq<u8>, i: nat, meshFlag: bool, garbage: seq<i8>)
    requires HoldsLoaded(t, file, i, r)
    requires |garbage| == VoxelBlockSize && i < FileNumNodes(file)
    ensures HoldsLoaded(t, file, i + 1, LoadRecord(r, RecordIndex(file, i), RecordBlock(file, i), meshFlag, garbage))
  {
    var index := RecordIndex(file, i);
    var block := RecordBlock(file, i);
    forall path: seq<Octant> | |path| == t.parentNode.mipLevel
      ensures BlockAt(LoadRecord(r, index, block, meshFlag, garbage), path) == LoadedBlock(t, file, i + 1, path)
    {
      LoadRecordEffect(r, index, block, meshFlag, garbage, path);
    }
  }

  /** The loop body of `LoadFromFile`: record `i` loaded into a tree
      holding what the records before it leave. */
  function LoadNext(t: Octree, r: Octree, file: seq<u8>, i: nat, meshFlag: bool, garbage: seq<i8>): (r': Octree)
    requires HoldsLoaded(t, file, i, r)
    requires |garbage| == VoxelBlockSize && i < FileNumNodes(file)
    ensures HoldsLoaded(t, file, i + 1, r')
  {
    LoadStep(t, r, file, i, meshFlag, garbage);
    LoadRecord(r, RecordIndex(file, i), RecordBlock(file, i), meshFlag, garbage)
  }

  /** `LoadFromFile`: reads the header and then as many records as it
      announces, each overwriting the block of the node its index names
      (created if absent). */
  method LoadFromFile(t: Octree, file: seq<u8>, meshFlag: bool, garbage: seq<i8>) returns (r: Octree)
    requires OctreeValid(t) && WellFormedFile(file, t.parentNode.mipLevel)
    requires |garbage| == VoxelBlockSize
    ensures OctreeValid(r) && r.parentNode.mipLevel == t.parentNode.mipLevel
    ensures forall path: seq<Octant> :: |path| == t.parentNode.mipLevel ==>
      BlockAt(r, path) == LoadedBlock(t, file, FileNumNodes(file), path)
  {
    var numNodes := FileNumNodes(file);
    r := t;
    var i := 0;
    while i < numNodes
      invariant 0 <= i <= numNodes
      invariant HoldsLoaded(t, file, i, r)
    {
      r := LoadNext(t, r, file, i, meshFlag, garbage);
      i := i + 1;
    }
  }

  // ---------------------------------------------------------------------
  // Round trip

  /** Record k of the laid-out records is entry k's. */
  lemma {:induction false} RecordsSlice(entries: seq<Entry>, k: nat)
    requires WellSized(entries) && k < |entries|
    ensures Records(entries)[RecordSize * k .. RecordSize * (k + 1)]
              == WriteNode(entries[k].index, entries[k].block)
    decreases |entries|
  {
    var init := entries[..|entries| - 1];
    if k < |entries| - 1 {
      RecordsSlice(init, k);
      assert Records(entries)[RecordSize * k .. RecordSize * (k + 1)]
          == Records(init)[RecordSize * k .. RecordSize * (k + 1)];
    }
  }

  /** A written file's header parses back: version 0 and the count, and
      the file is exactly as long as the header and the records. */
  lemma FileHeaderParses(entries: seq<Entry>)
    requires WellSized(entries) && |entries| < U32_MODULUS
    ensures var file := FileOf(entries);
      && |file| == HeaderSize + RecordSize * |entries|
      && FileVersion(file) == CurrentFileFormatVersion
      && FileNumNodes(file) == |entries|
  {
    HeaderFields(entries);
    Pow256Values();
    LeRoundTrip(CurrentFileFormatVersion, 4);
    LeRoundTrip(|entries|, 4);
  }

  /** The first 8 bytes of a written file are the version and the count. */
  lemma HeaderFields(entries: seq<Entry>)
    requires WellSized(entries) && |entries| < U32_MODULUS
    ensures var file := FileOf(entries);
      && |file| == HeaderSize + RecordSize * |entries|
      && file[0..4] == LeBytes(CurrentFileFormatVersion, 4)
      && file[4..8] == LeBytes(|entries|, 4)
  {
    var n := |entries|;
    assert n % U32_MODULUS == n;
    assert FileOf(entries) == LeBytes(CurrentFileFormatVersion, 4) + LeBytes(n, 4) + Records(entries);
    FieldsOfConcat(LeBytes(CurrentFileFormatVersion, 4), LeBytes(n, 4), Records(entries));
  }

  /** The two 4-byte fields at the head of `a + b + c`. */
  lemma FieldsOfConcat(a: seq<u8>, b: seq<u8>, c: seq<u8>)
    requires |a| == 4 && |b| == 4
    ensures (a + b + c)[0..4] == a && (a + b + c)[4..8] == b
  {
  }

  /** Record k of a written file parses back to entry k. */
  lemma FileRecordParses(entries: seq<Entry>, k: nat)
    requires WellSized(entries) && k < |entries|
    ensures HeaderSize + RecordSize * (k + 1) <= |FileOf(entries)|
    ensures RecordIndex(FileOf(entries), k) == entries[k].index
    ensures RecordBlock(FileOf(entries), k) == entries[k].block
  {
    RecordFields(entries, k);
    Pow256Values();
    LeRoundTrip(entries[k].index, 8);
    VoxelBytesRoundTrip(entries[k].block);
  }

  /** The bytes of record k of a written file: entry k's index, then its
      voxels. */
  lemma RecordFields(entries: seq<Entry>, k: nat)
    requires WellSized(entries) && k < |entries|
    ensures var file := FileOf(entries);
      var start := HeaderSize + RecordSize * k;
      && start + RecordSize <= |file|
      && file[start .. start + 8] == LeBytes(entries[k].index, 8)
      && file[start + 8 .. start + 8 + VoxelBlockSize] == VoxelBytes(entries[k].block)
  {
    var file := FileOf(entries);
    var start := HeaderSize + RecordSize * k;
    RecordsSlice(entries, k);
    var rec := WriteNode(entries[k].index, entries[k].block);
    assert file[start .. start + RecordSize] == rec by {
      assert file == WriteHeader(|entries|) + Records(entries);
    }
    SubSlices(file, start, start + RecordSize, 8);
  }

  /** The two parts of a slice `s[a..b]` split at `m` bytes in. */
  lemma SubSlices(s: seq<u8>, a: nat, b: nat, m: nat)
    requires a + m <= b <= |s|
    ensures s[a .. a + m] == s[a..b][..m]
    ensures s[a + m .. b] == s[a..b][m..]
  {
  }

  /** Voxel bytes read back give the voxels written. */
  lemma VoxelBytesRoundTrip(block: seq<i8>)
    ensures VoxelsOfBytes(VoxelBytes(block)) == block
  {
  }

  /** The saved file is one the loader accepts. */
  lemma SavedFileWellFormed(t: Octree, order: seq<u64>)
    requires OctreeValid(t) && AllSavable(t, order)
    requires |order| < U32_MODULUS && (|order| > 0 ==> t.parentNode.mipLevel <= INDEX_NIBBLES)
    ensures WellFormedFile(SavedFile(t, order), t.parentNode.mipLevel)
    ensures FileNumNodes(SavedFile(t, order)) == |order|
  {
    var entries := Entries(t, order);
    FileHeaderParses(entries);
    forall k | 0 <= k < |order|
      ensures IsWalkableIndex(RecordIndex(SavedFile(t, order), k), t.parentNode.mipLevel)
    {
      FileRecordParses(entries, k);
    }
  }

  /** Replaying the first `count` records of a saved file leaves, at the
      path of each index among them, the block it had when saved. */
  lemma LoadedSavedBlock(t: Octree, t0: Octree, order: seq<u64>, count: nat, j: nat)
    requires OctreeValid(t) && AllSavable(t, order)
    requires OctreeValid(t0) && t0.parentNode.mipLevel == t.parentNode.mipLevel
    requires WellFormedFile(SavedFile(t, order), t.parentNode.mipLevel)
    requires FileNumNodes(SavedFile(t, order)) == |order|
    requires j < count <= |order|
    ensures LoadedBlock(t0, SavedFile(t, order), count, PathIn(t, order[j])) == BlockAt(t, PathIn(t, order[j]))
  {
    var file := SavedFile(t, order);
    var mip := t.parentNode.mipLevel;
    var path := PathIn(t, order[j]);
    assert Savable(t, order[j]);
    var block := BlockAt(t, path).value;
    SavedRecord(t, order, j);
    forall m | 0 <= m < count && PathOfIndex(RecordIndex(file, m), mip) == path
      ensures RecordBlock(file, m) == block
    {
      SavedRecord(t, order, m);
    }
    LoadedAgreeingRecords(t0, file, count, path, j, block);
  }

  /** When some record among the first `count` is for `path` and every
      such record carries `block`, loading them leaves `block` there. */
  lemma {:induction false} LoadedAgreeingRecords(t: Octree, file: seq<u8>, count: nat, path: seq<Octant>, j: nat, block: seq<i8>)
    requires OctreeValid(t) && WellFormedFile(file, t.parentNode.mipLevel)
    requires j < count <= FileNumNodes(file)
    requires PathOfIndex(RecordIndex(file, j), t.parentNode.mipLevel) == path
    requires forall m :: 0 <= m < count && PathOfIndex(RecordIndex(file, m), t.parentNode.mipLevel) == path ==>
      RecordBlock(file, m) == block
    ensures LoadedBlock(t, file, count, path) == Some(block)
    decreases count
  {
    if PathOfIndex(RecordIndex(file, count - 1), t.parentNode.mipLevel) != path {
      LoadedAgreeingRecords(t, file, count - 1, path, j, block);
    }
  }

  /** Record k of a saved file names index k of the order and holds the
      block at that index's path. */
  lemma SavedRecord(t: Octree, order: seq<u64>, k: nat)
    requires OctreeValid(t) && AllSavable(t, order) && k < |order|
    ensures HeaderSize + RecordSize * (k + 1) <= |SavedFile(t, order)|
    ensures RecordIndex(SavedFile(t, order), k) == order[k]
    ensures Some(RecordBlock(SavedFile(t, order), k)) == BlockAt(t, PathIn(t, order[k]))
  {
    FileRecordParses(Entries(t, order), k);
  }


  /** Saving a set of nodes and loading the file into any tree of the same
      depth restores every saved node's block. The header's count is a
      `u32`, so the set must have fewer than 2^32 elements. */
  method SaveThenLoad(t: Octree, setNodes: set<u64>, order: seq<u64>, t0: Octree, meshFlag: bool, garbage: seq<i8>)
    returns (saved: Octree, loaded: Octree)
    requires OctreeValid(t) && IsOrderOf(order, setNodes) && |setNodes| < U32_MODULUS
    requires forall index :: index in setNodes ==> Savable(t, index)
    requires setNodes != {} ==> t.parentNode.mipLevel <= INDEX_NIBBLES
    requires OctreeValid(t0) && t0.parentNode.mipLevel == t.parentNode.mipLevel
    requires |garbage| == VoxelBlockSize
    ensures OctreeValid(saved) && SameBlocks(saved, t)
    ensures OctreeValid(loaded)
    ensures forall index :: index in setNodes ==>
      Savable(t, index) && BlockAt(loaded, PathIn(t, index)) == BlockAt(t, PathIn(t, index))
  {
    var file;
    saved, file := SaveNewlyGeneratedToFile(t, setNodes, order, true);
    OrderLength(order, setNodes);
    SavedFileWellFormed(t, order);
    loaded := LoadFromFile(t0, file.value, meshFlag, garbage);
    forall index | index in setNodes
      ensures BlockAt(loaded, PathIn(t, index)) == BlockAt(t, PathIn(t, index))
    {
      var j :| 0 <= j < |order| && order[j] == index;
      LoadedSavedBlock(t, t0, order, |order|, j);
    }
  }
}
