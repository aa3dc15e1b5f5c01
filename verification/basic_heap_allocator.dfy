/** `BasicHeap`: a first-fit allocator over one raw buffer. Every block is a
    header followed inline by its data; the headers form a doubly linked
    list, modelled here as the sequence of blocks reachable from the list
    head by `Next` links. Addresses are byte offsets from the start of the
    buffer, and the header size is a parameter: it is a multiple of the
    4-byte alignment, but its exact value depends on the platform's pointer
    and `size_t` widths and on the compiler's struct alignment. */
module BasicHeapAllocator {
  import opened TerrainTypes

  /** `Alignment`. */
  const Alignment: nat := 4

  /** `ROUND_UP(N, S)`. */
  function RoundUp(n: nat, s: nat): nat
    requires s > 0
  {
    ((n + s - 1) / s) * s
  }

  /** `ROUND_UP` yields the least multiple of `s` not below `n`, so
      rounding twice changes nothing. */
  lemma RoundUpProperties(n: nat, s: nat)
    requires s > 0
    ensures RoundUp(n, s) % s == 0
    ensures n <= RoundUp(n, s) < n + s
    ensures RoundUp(RoundUp(n, s), s) == RoundUp(n, s)
    ensures n % s == 0 ==> RoundUp(n, s) == n
  {
    var q := (n + s - 1) / s;
    var r := (n + s - 1) % s;
    assert n + s - 1 == q * s + r;
    assert RoundUp(n, s) == q * s;
    MultipleMod(q, s);
    var m := q * s;
    assert (m + s - 1) / s == q by {
      assert m + s - 1 == q * s + (s - 1);
      DivOfMultiplePlus(q, s, s - 1);
    }
    if n % s == 0 {
      var k := n / s;
      assert n == k * s;
      assert (n + s - 1) / s == k by {
        DivOfMultiplePlus(k, s, s - 1);
      }
    }
  }

  lemma MultipleMod(q: nat, s: nat)
    requires s > 0
    ensures (q * s) % s == 0
  {
    DivOfMultiplePlus(q, s, 0);
  }

  lemma DivOfMultiplePlus(q: nat, s: nat, r: nat)
    requires r < s
    ensures (q * s + r) / s == q && (q * s + r) % s == r
  {
    var a := q * s + r;
    var d := a / s;
    var m := a % s;
    assert d * s + m == q * s + r;
    MulGap(q, d, s);
    MulGap(d, q, s);
  }

  lemma MulGap(a: nat, b: nat, s: nat)
    ensures a < b ==> a * s + s <= b * s
  {
    if a < b {
      assert (a + 1) * s == a * s + s;
      MulMonotone(a + 1, b, s);
    }
  }

  lemma MulMonotone(a: nat, b: nat, s: nat)
    requires a <= b
    ensures a * s <= b * s
  {
    assert b * s - a * s == (b - a) * s;
  }

  /** `ROUND_DOWN(N, S)` for an atomic `N`: the greatest multiple of `s`
      not above `n`. */
  function RoundDown(n: nat, s: nat): nat
    requires s > 0
  {
    (n / s) * s
  }

  lemma RoundDownProperties(n: nat, s: nat)
    requires s > 0
    ensures RoundDown(n, s) % s == 0
    ensures RoundDown(n, s) <= n < RoundDown(n, s) + s
  {
    MultipleMod(n / s, s);
  }

  /** `ROUND_DOWN(a + b, S)` as the preprocessor expands it: the macro
      does not parenthesise its argument, so only `b` is divided. */
  function RoundDownOfSumAsWritten(a: nat, b: nat, s: nat): nat
    requires s > 0
  {
    (a + b / s) * s
  }

  /** With `a = 3, b = 1, s = 4` the expansion gives 12, above `a + b`. */
  lemma RoundDownOfSumCounterexample()
    ensures RoundDownOfSumAsWritten(3, 1, 4) == 12
    ensures RoundDown(3 + 1, 4) == 4
  {
  }

  /** The header's unpadded size, `PrePaddingSize`: three pointers, two
      `size_t`s and the flag byte. */
  function PrePaddingSize(pointerBytes: nat, sizeTBytes: nat): nat {
    3 * pointerBytes + 2 * sizeTBytes + 1
  }

  /** The header with its `Padding` array,
      `ROUND_UP(PrePaddingSize, Alignment) - PrePaddingSize` bytes long. */
  function PaddedHeaderSize(pointerBytes: nat, sizeTBytes: nat): (r: nat)
    ensures r % Alignment == 0
    ensures PrePaddingSize(pointerBytes, sizeTBytes) <= r < PrePaddingSize(pointerBytes, sizeTBytes) + Alignment
  {
    var pre := PrePaddingSize(pointerBytes, sizeTBytes);
    RoundUpProperties(pre, Alignment);
    pre + (RoundUp(pre, Alignment) - pre)
  }

  // ---------------------------------------------------------------------
  // Heap state

  /** `BasicHeapBlockHeader`: where the header sits, the size last asked
      for, the usable bytes after the header and the free flag. Its data
      starts right after the header. */
  datatype Block = Block(at: nat, currentSize: nat, capacity: nat, isFree: bool)

  /** The heap: header size, buffer size, the list of blocks from
      `BlocksListHead`, `TopOfUsedMemory` and `EndBlock` (by address). */
  datatype Heap = Heap(headerSize: nat, maxSize: nat, blocks: seq<Block>, top: nat, endBlock: Option<nat>)
  {
    /** `Data` of a block. */
    function DataOf(b: Block): nat {
      b.at + headerSize
    }

    /** One past the last byte of a block's data. */
    function EndOf(b: Block): nat {
      b.at + headerSize + b.capacity
    }
  }

  /** The blocks follow one another without gaps from the start of the
      buffer to `TopOfUsedMemory`. */
  predicate Tiled(h: Heap) {
    var bs := h.blocks;
    && (|bs| == 0 ==> h.top == 0)
    && (|bs| > 0 ==> bs[0].at == 0 && h.EndOf(bs[|bs| - 1]) == h.top)
    && Abutting(h, bs)
  }

  /** Each block of `run` starts where the one before it ends. */
  predicate Abutting(h: Heap, run: seq<Block>) {
    forall i :: 0 <= i < |run| - 1 ==> h.EndOf(run[i]) == run[i + 1].at
  }

  /** Every capacity in `run` keeps the next header aligned. */
  predicate AlignedCapacities(run: seq<Block>) {
    forall i :: 0 <= i < |run| ==> run[i].capacity % Alignment == 0
  }

  /** The address `EndBlock` should hold: the last header of the list. */
  function LastHeader(bs: seq<Block>): Option<nat> {
    if |bs| == 0 then None else Some(bs[|bs| - 1].at)
  }

  /** The invariant the heap is meant to keep: a positive header size that
      keeps data aligned, aligned capacities, the blocks tiling the used
      memory, and `EndBlock` naming the last block of the list. */
  predicate WellFormed(h: Heap) {
    && h.headerSize > 0 && h.headerSize % Alignment == 0
    && AlignedCapacities(h.blocks)
    && Tiled(h)
    && h.endBlock == LastHeader(h.blocks)
  }

  /** The constructor: no blocks, top at the start of the buffer. */
  function NewHeap(maxSize: nat, headerSize: nat): (h: Heap)
    requires headerSize > 0 && headerSize % Alignment == 0
    ensures WellFormed(h) && |h.blocks| == 0
  {
    Heap(headerSize, maxSize, [], 0, None)
  }

  /** In a tiled heap, blocks later in the list lie wholly above earlier
      ones: no two blocks' header-and-data ranges overlap. */
  lemma {:induction false} BlocksDisjoint(h: Heap, i: nat, j: nat)
    requires Tiled(h) && i < j < |h.blocks|
    ensures h.EndOf(h.blocks[i]) <= h.blocks[j].at
    decreases j - i
  {
    if i + 1 < j {
      BlocksDisjoint(h, i + 1, j);
    }
  }

  /** The list position of the block whose header is at `at`. */
  function IndexOfBlockAt(blocks: seq<Block>, at: nat): (r: Option<nat>)
    ensures r.Some? ==> r.value < |blocks| && blocks[r.value].at == at
    ensures r.None? ==> forall i :: 0 <= i < |blocks| ==> blocks[i].at != at
  {
    if |blocks| == 0 then None
    else if blocks[|blocks| - 1].at == at then Some(|blocks| - 1)
    else IndexOfBlockAt(blocks[..|blocks| - 1], at)
  }

  /** In a tiled heap, headers have distinct addresses, so the lookup finds
      the one block at that address. */
  lemma IndexOfTiledBlock(h: Heap, k: nat)
    requires WellFormed(h) && k < |h.blocks|
    ensures IndexOfBlockAt(h.blocks, h.blocks[k].at) == Some(k)
  {
    var r := IndexOfBlockAt(h.blocks, h.blocks[k].at);
    if r.value < k {
      BlocksDisjoint(h, r.value, k);
    } else if r.value > k {
      BlocksDisjoint(h, k, r.value);
    }
  }

  /** `FindMemoryBlockFromPtr`: the header sits right before the data. The
      engine steps back one header from the pointer; the model searches
      the block list for a header at that offset, so a pointer whose
      header is not in the list finds nothing. */
  function FindMemoryBlockFromPtr(h: Heap, ptr: nat): Option<nat> {
    if ptr < h.headerSize then None else IndexOfBlockAt(h.blocks, ptr - h.headerSize)
  }

  /** A block's data pointer leads back to the block. */
  lemma FindBlockOfData(h: Heap, k: nat)
    requires WellFormed(h) && k < |h.blocks|
    ensures FindMemoryBlockFromPtr(h, h.DataOf(h.blocks[k])) == Some(k)
  {
    IndexOfTiledBlock(h, k);
  }

  /** `IncreaseTopOfUsedMemory`: the top always moves, even past the end
      of the buffer; the result reports whether it did, and every caller
      ignores the report. The amount is a `size_t`: a shrinking `Realloc`
      passes a wrapped-around difference, which moves the top back, so the
      model takes a signed amount that keeps the top inside the address
      space. */
  function IncreaseTopOfUsedMemory(h: Heap, amount: int): (r: (Heap, bool))
    requires h.top + amount >= 0
    ensures r.0.top - h.top == amount && r.0 == h.(top := r.0.top)
    ensures r.1 <==> r.0.top > h.maxSize
  {
    var top: nat := h.top + amount;
    (h.(top := top), top > h.maxSize)
  }

  /** Moving the top by `a` and then by `b` ends where one move by
      `a + b` does, with the same report at the end; for growing moves an
      out-of-memory report on the first one is repeated by the second. */
  lemma IncreaseTopTwice(h: Heap, a: nat, b: nat)
    ensures var (h1, r1) := IncreaseTopOfUsedMemory(h, a);
      var (h2, r2) := IncreaseTopOfUsedMemory(h1, b);
      && (h2, r2) == IncreaseTopOfUsedMemory(h, a + b)
      && (r1 ==> r2)
  {
  }

  // ---------------------------------------------------------------------
  // First fit

  predicate Fits(b: Block, minSizeInclusive: nat) {
    b.isFree && b.capacity >= minSizeInclusive
  }

  /** The first block from list position `from` on that is free and large
      enough. */
  function FirstFit(blocks: seq<Block>, minSizeInclusive: nat, from: nat): (r: Option<nat>)
    requires from <= |blocks|
    ensures r.Some? ==> from <= r.value < |blocks| && Fits(blocks[r.value], minSizeInclusive)
    ensures r.Some? ==> forall j :: from <= j < r.value ==> !Fits(blocks[j], minSizeInclusive)
    ensures r.None? ==> forall j :: from <= j < |blocks| ==> !Fits(blocks[j], minSizeInclusive)
    decreases |blocks| - from
  {
    if from == |blocks| then None
    else if Fits(blocks[from], minSizeInclusive) then Some(from)
    else FirstFit(blocks, minSizeInclusive, from + 1)
  }

  /** `FindFreeMemoryBlock`: walks the list from the head and stops at the
      first free block of at least the requested capacity. */
  method FindFreeMemoryBlock(blocks: seq<Block>, minSizeInclusive: nat) returns (r: Option<nat>)
    ensures r == FirstFit(blocks, minSizeInclusive, 0)
    ensures r.Some? ==> r.value < |blocks| && Fits(blocks[r.value], minSizeInclusive)
    ensures r.Some? ==> forall j :: 0 <= j < r.value ==> !Fits(blocks[j], minSizeInclusive)
    ensures r.None? ==> forall j :: 0 <= j < |blocks| ==> !Fits(blocks[j], minSizeInclusive)
  {
    var i := 0;
    while i < |blocks|
      invariant 0 <= i <= |blocks|
      invariant FirstFit(blocks, minSizeInclusive, 0) == FirstFit(blocks, minSizeInclusive, i)
    {
      if blocks[i].isFree && blocks[i].capacity >= minSizeInclusive {
        return Some(i);
      }
      i := i + 1;
    }
    return None;
  }

  // ---------------------------------------------------------------------
  // Splicing the list

  /** The list with the `n` blocks from position `k` replaced by `run`. */
  function Splice(bs: seq<Block>, k: nat, n: nat, run: seq<Block>): seq<Block>
    requires k + n <= |bs|
  {
    bs[..k] + run + bs[k + n..]
  }

  /** Replacing some neighbouring blocks by an abutting run of aligned
      blocks spanning exactly the same bytes keeps the heap well formed,
      once `EndBlock` names the new last header. */
  lemma SpliceKeepsWellFormed(h: Heap, k: nat, n: nat, run: seq<Block>)
    requires WellFormed(h) && 0 < n && k + n <= |h.blocks| && |run| > 0
    requires Abutting(h, run) && AlignedCapacities(run)
    requires run[0].at == h.blocks[k].at
    requires h.EndOf(run[|run| - 1]) == h.EndOf(h.blocks[k + n - 1])
    ensures var cs := Splice(h.blocks, k, n, run);
      WellFormed(h.(blocks := cs, endBlock := LastHeader(cs)))
  {
    var bs := h.blocks;
    var cs := Splice(bs, k, n, run);
    var m := |run|;
    var h' := h.(blocks := cs, endBlock := LastHeader(cs));
    assert |cs| == |bs| - n + m;
    forall i | 0 <= i < |cs|
      ensures cs[i] == (if i < k then bs[i] else if i < k + m then run[i - k] else bs[i - m + n])
    {
    }
    forall i | 0 <= i < |cs| - 1
      ensures h'.EndOf(cs[i]) == cs[i + 1].at
    {
      if i + 1 == k + m {
        assert cs[i] == run[m - 1];
      }
    }
    forall i | 0 <= i < |cs|
      ensures cs[i].capacity % Alignment == 0
    {
    }
  }

  // ---------------------------------------------------------------------
  // Adding blocks

  /** The header `AddNewMemoryBlock` writes for `sizeBytes` at `at`: the
      capacity is the size rounded up to the alignment. */
  function NewBlock(at: nat, sizeBytes: nat, isFree: bool): (b: Block)
    ensures b.at == at && b.currentSize == sizeBytes && b.isFree == isFree
    ensures b.capacity % Alignment == 0 && sizeBytes <= b.capacity < sizeBytes + Alignment
  {
    RoundUpProperties(sizeBytes, Alignment);
    Block(at, sizeBytes, RoundUp(sizeBytes, Alignment), isFree)
  }

  /** `AddNewMemoryBlock` at `TopOfUsedMemory` with `EndBlock` as the
      previous block and no next one: the header goes at the top, the top
      moves past header and data, and the new block is linked after
      whatever `EndBlock` names, which becomes the new block. When
      `EndBlock` is not the last header, the blocks after it drop out of
      the list; when it names no header at all, the new block is not
      reachable from the head. The top moves by two calls of
      `IncreaseTopOfUsedMemory`, one for the header and one for the data;
      the second result is whether either call reported running out of
      memory, which `Malloc` ignores. */
  function AppendBlock(h: Heap, size: nat): (r: (Heap, bool))
    ensures r.0.top == h.top + h.headerSize + RoundUp(size, Alignment)
    ensures r.1 <==> r.0.top > h.maxSize
    ensures r.0.headerSize == h.headerSize && r.0.maxSize == h.maxSize
  {
    var nb := NewBlock(h.top, size, false);
    var listed :=
      match h.endBlock
      case None => if |h.blocks| == 0 then [nb] else h.blocks
      case Some(e) =>
        match IndexOfBlockAt(h.blocks, e)
        case Some(i) => h.blocks[..i + 1] + [nb]
        case None => h.blocks;
    var (h1, headerReport) := IncreaseTopOfUsedMemory(h, h.headerSize);
    var (h2, dataReport) := IncreaseTopOfUsedMemory(h1, nb.capacity);
    IncreaseTopTwice(h, h.headerSize, nb.capacity);
    (h2.(blocks := listed, endBlock := Some(nb.at)), headerReport || dataReport)
  }

  /** The list after reusing free block `k` for `size` bytes, and the
      remainder's header address when the block is split: the remainder
      is what is left after the rounded request and a header, kept only
      when it is at least one byte. */
  function ReuseBlock(h: Heap, k: nat, size: nat): (r: (seq<Block>, Option<nat>))
    requires k < |h.blocks|
  {
    var b := h.blocks[k];
    var req := RoundUp(size, Alignment);
    var available: int := b.capacity - req - h.headerSize;
    if available >= 1 then
      var rem := NewBlock(b.at + h.headerSize + req, available as nat, true);
      (Splice(h.blocks, k, 1, [Block(b.at, size, req, false), rem]), Some(rem.at))
    else
      (h.blocks[k := Block(b.at, size, b.capacity, false)], None)
  }

  /** What `Malloc` hands back: the new heap and the data pointer. */
  datatype Allocation = Allocation(heap: Heap, ptr: nat)

  /** `Malloc` as written: first fit on the rounded size, splitting off a
      free remainder, else a new block at the top. Every split makes the
      remainder `EndBlock`, wherever it lies in the list. */
  function MallocAsWritten(h: Heap, size: nat): (r: Allocation)
    ensures r.ptr == Malloc(h, size).ptr && r.heap.top == Malloc(h, size).heap.top
    ensures r.heap.blocks == Malloc(h, size).heap.blocks
  {
    match FirstFit(h.blocks, RoundUp(size, Alignment), 0)
    case Some(k) =>
      var (bs, split) := ReuseBlock(h, k, size);
      Allocation(h.(blocks := bs, endBlock := if split.Some? then split else h.endBlock), h.DataOf(h.blocks[k]))
    case None =>
      Allocation(AppendBlock(h, size).0, h.top + h.headerSize)
  }

  /** `Malloc` with `EndBlock` moved to a split-off remainder only when the
      split block was the last one. */
  function Malloc(h: Heap, size: nat): (r: Allocation)
    ensures r.heap.headerSize == h.headerSize && r.heap.maxSize == h.maxSize
    ensures h.top <= r.heap.top && h.headerSize <= r.ptr
    ensures |r.heap.blocks| <= |h.blocks| + 1
  {
    match FirstFit(h.blocks, RoundUp(size, Alignment), 0)
    case Some(k) =>
      var (bs, split) := ReuseBlock(h, k, size);
      var endBlock := if split.Some? && h.endBlock == Some(h.blocks[k].at) then split else h.endBlock;
      Allocation(h.(blocks := bs, endBlock := endBlock), h.DataOf(h.blocks[k]))
    case None =>
      Allocation(AppendBlock(h, size).0, h.top + h.headerSize)
  }

  /** A remainder carved from an aligned capacity is itself aligned, so
      its rounded capacity is exactly what is left. */
  lemma RemainderAligned(capacity: nat, req: nat, headerSize: nat)
    requires capacity % Alignment == 0 && req % Alignment == 0 && headerSize % Alignment == 0
    requires capacity - req - headerSize >= 1
    ensures RoundUp(capacity - req - headerSize, Alignment) == capacity - req - headerSize
  {
    var available := capacity - req - headerSize;
    var q := capacity / Alignment - req / Alignment - headerSize / Alignment;
    assert available == q * Alignment;
    assert q >= 0;
    DivOfMultiplePlus(q, Alignment, 0);
    RoundUpProperties(available, Alignment);
  }

  /** Only the last block's header is at the last block's address. */
  lemma EndBlockIsLast(h: Heap, k: nat)
    requires WellFormed(h) && k < |h.blocks|
    ensures h.endBlock == Some(h.blocks[k].at) <==> k == |h.blocks| - 1
  {
    if k < |h.blocks| - 1 {
      BlocksDisjoint(h, k, |h.blocks| - 1);
    }
  }

  /** Appending to a well-formed heap adds the block after the last one. */
  lemma AppendAfterLast(h: Heap, size: nat)
    requires WellFormed(h)
    ensures AppendBlock(h, size).0.blocks == h.blocks + [NewBlock(h.top, size, false)]
  {
    if |h.blocks| > 0 {
      IndexOfTiledBlock(h, |h.blocks| - 1);
      assert h.blocks[..|h.blocks|] == h.blocks;
    }
  }

  /** Reusing a fitting free block keeps the heap well formed when
      `EndBlock` follows a remainder split off the last block. */
  lemma ReuseKeepsWellFormed(h: Heap, k: nat, size: nat)
    requires WellFormed(h) && k < |h.blocks| && Fits(h.blocks[k], RoundUp(size, Alignment))
    ensures var (bs, split) := ReuseBlock(h, k, size);
      WellFormed(h.(blocks := bs, endBlock := if split.Some? && h.endBlock == Some(h.blocks[k].at) then split else h.endBlock))
  {
    var b := h.blocks[k];
    var req := RoundUp(size, Alignment);
    if b.capacity - req - h.headerSize >= 1 {
      ReuseSplitKeepsWellFormed(h, k, size);
    } else {
      ReuseWholeKeepsWellFormed(h, k, size);
    }
  }

  /** The splitting case of `ReuseKeepsWellFormed`: the remainder is the
      new last block exactly when the reused block was. */
  lemma ReuseSplitKeepsWellFormed(h: Heap, k: nat, size: nat)
    requires WellFormed(h) && k < |h.blocks| && Fits(h.blocks[k], RoundUp(size, Alignment))
    requires h.blocks[k].capacity - RoundUp(size, Alignment) - h.headerSize >= 1
    ensures var (bs, split) := ReuseBlock(h, k, size);
      WellFormed(h.(blocks := bs, endBlock := if split.Some? && h.endBlock == Some(h.blocks[k].at) then split else h.endBlock))
  {
    var b := h.blocks[k];
    var req := RoundUp(size, Alignment);
    var rem := NewBlock(b.at + h.headerSize + req, (b.capacity - req - h.headerSize) as nat, true);
    var cs := Splice(h.blocks, k, 1, [Block(b.at, size, req, false), rem]);
    var e := if h.endBlock == Some(b.at) then Some(rem.at) else h.endBlock;
    assert ReuseBlock(h, k, size) == (cs, Some(rem.at));
    SplitLastHeader(h, k, size);
    assert LastHeader(cs) == e;
    SplitKeepsWellFormed(h, k, size);
    assert h.(blocks := cs, endBlock := e) == h.(blocks := cs, endBlock := LastHeader(cs));
  }

  /** After a split the last header is the remainder's exactly when the
      split block was last, and otherwise what `EndBlock` already named. */
  lemma SplitLastHeader(h: Heap, k: nat, size: nat)
    requires WellFormed(h) && k < |h.blocks|
    requires h.blocks[k].capacity - RoundUp(size, Alignment) - h.headerSize >= 1
    ensures var (bs, split) := ReuseBlock(h, k, size);
      LastHeader(bs) == if split.Some? && h.endBlock == Some(h.blocks[k].at) then split else h.endBlock
  {
    var b := h.blocks[k];
    var req := RoundUp(size, Alignment);
    var rem := NewBlock(b.at + h.headerSize + req, (b.capacity - req - h.headerSize) as nat, true);
    var cs := Splice(h.blocks, k, 1, [Block(b.at, size, req, false), rem]);
    assert ReuseBlock(h, k, size) == (cs, Some(rem.at));
    EndBlockIsLast(h, k);
    assert cs[|cs| - 1] == if k == |h.blocks| - 1 then rem else h.blocks[|h.blocks| - 1];
  }

  /** The case of `ReuseKeepsWellFormed` where the whole block is reused. */
  lemma ReuseWholeKeepsWellFormed(h: Heap, k: nat, size: nat)
    requires WellFormed(h) && k < |h.blocks| && Fits(h.blocks[k], RoundUp(size, Alignment))
    requires h.blocks[k].capacity - RoundUp(size, Alignment) - h.headerSize < 1
    ensures var (bs, split) := ReuseBlock(h, k, size);
      WellFormed(h.(blocks := bs, endBlock := if split.Some? && h.endBlock == Some(h.blocks[k].at) then split else h.endBlock))
  {
    var b := h.blocks[k];
    var run := [Block(b.at, size, b.capacity, false)];
    assert ReuseBlock(h, k, size) == (h.blocks[k := run[0]], None);
    assert h.blocks[k := run[0]] == Splice(h.blocks, k, 1, run);
    SpliceKeepsWellFormed(h, k, 1, run);
  }

  lemma SplitKeepsWellFormed(h: Heap, k: nat, size: nat)
    requires WellFormed(h) && k < |h.blocks| && Fits(h.blocks[k], RoundUp(size, Alignment))
    requires h.blocks[k].capacity - RoundUp(size, Alignment) - h.headerSize >= 1
    ensures var b := h.blocks[k];
      var req := RoundUp(size, Alignment);
      var rem := NewBlock(b.at + h.headerSize + req, (b.capacity - req - h.headerSize) as nat, true);
      var cs := Splice(h.blocks, k, 1, [Block(b.at, size, req, false), rem]);
      WellFormed(h.(blocks := cs, endBlock := LastHeader(cs)))
  {
    var b := h.blocks[k];
    var req := RoundUp(size, Alignment);
    var rem := NewBlock(b.at + h.headerSize + req, (b.capacity - req - h.headerSize) as nat, true);
    var run := [Block(b.at, size, req, false), rem];
    SplitRunFits(h, b, size, req, rem);
    SpliceKeepsWellFormed(h, k, 1, run);
  }

  /** The block in use and the remainder a split makes of `b` abut, keep
      their capacities aligned, and end where `b` ended. */
  lemma SplitRunFits(h: Heap, b: Block, size: nat, req: nat, rem: Block)
    requires h.headerSize % Alignment == 0 && b.capacity % Alignment == 0
    requires req == RoundUp(size, Alignment) && b.capacity - req - h.headerSize >= 1
    requires rem == NewBlock(b.at + h.headerSize + req, (b.capacity - req - h.headerSize) as nat, true)
    ensures var run := [Block(b.at, size, req, false), rem];
      && Abutting(h, run) && AlignedCapacities(run)
      && h.EndOf(run[|run| - 1]) == h.EndOf(b)
  {
    RoundUpProperties(size, Alignment);
    RemainderAligned(b.capacity, req, h.headerSize);
    assert rem.capacity == b.capacity - req - h.headerSize;
  }

  /** `Malloc` keeps the heap well formed. */
  lemma MallocKeepsWellFormed(h: Heap, size: nat)
    requires WellFormed(h)
    ensures WellFormed(Malloc(h, size).heap)
  {
    match FirstFit(h.blocks, RoundUp(size, Alignment), 0)
    case Some(k) =>
      ReuseKeepsWellFormed(h, k, size);
    case None =>
      AppendAfterLast(h, size);
  }

  /** Every header, and so every data pointer, of a well-formed heap is
      aligned. */
  lemma {:induction false} HeadersAligned(h: Heap, i: nat)
    requires WellFormed(h) && i < |h.blocks|
    ensures h.blocks[i].at % Alignment == 0
    ensures h.DataOf(h.blocks[i]) % Alignment == 0
  {
    var b := h.blocks[i];
    if i > 0 {
      var prev := h.blocks[i - 1];
      HeadersAligned(h, i - 1);
      assert AlignedCapacities(h.blocks) && Abutting(h, h.blocks);
      assert h.EndOf(prev) == b.at;
      AlignedSum(prev.at, h.headerSize, prev.capacity);
    } else {
      assert b.at == 0;
    }
    AlignedSum(b.at, h.headerSize, 0);
  }

  /** What `Malloc` returns: the data pointer of a block, found again from
      that pointer, that is in use, records the requested size and has room
      for it rounded up to the alignment; the pointer is aligned. */
  lemma MallocGivesBlock(h: Heap, size: nat)
    requires WellFormed(h)
    ensures var r := Malloc(h, size);
      var j := FindMemoryBlockFromPtr(r.heap, r.ptr);
      && j.Some? && j.value < |r.heap.blocks|
      && !r.heap.blocks[j.value].isFree
      && r.heap.blocks[j.value].currentSize == size
      && RoundUp(size, Alignment) <= r.heap.blocks[j.value].capacity
      && r.ptr % Alignment == 0
  {
    var r := Malloc(h, size);
    var chosen := FirstFit(h.blocks, RoundUp(size, Alignment), 0);
    MallocKeepsWellFormed(h, size);
    RoundUpProperties(size, Alignment);
    var j := if chosen.Some? then chosen.value else |h.blocks|;
    if chosen.Some? {
      MallocReuses(h, size, j);
    } else {
      MallocAppends(h, size);
    }
    assert j < |r.heap.blocks| && r.ptr == r.heap.DataOf(r.heap.blocks[j]);
    FindBlockOfData(r.heap, j);
    HeadersAligned(r.heap, j);
  }

  /** When a free block fits, `Malloc` reuses the first one in list order
      in place: the top does not move. The block keeps its capacity unless
      at least one byte is left past the rounded request and a header; then
      it shrinks to the rounded request and a free remainder follows it,
      ending where the block ended. */
  lemma MallocReuses(h: Heap, size: nat, k: nat)
    requires WellFormed(h) && FirstFit(h.blocks, RoundUp(size, Alignment), 0) == Some(k)
    ensures var r := Malloc(h, size);
      var b := h.blocks[k];
      var req := RoundUp(size, Alignment);
      var available: int := b.capacity - req - h.headerSize;
      && r.ptr == h.DataOf(b) && r.heap.top == h.top
      && (available >= 1 ==>
            && |r.heap.blocks| == |h.blocks| + 1
            && r.heap.blocks[k] == Block(b.at, size, req, false)
            && r.heap.blocks[k + 1] == Block(h.DataOf(b) + req, available as nat, available as nat, true)
            && r.heap.EndOf(r.heap.blocks[k + 1]) == h.EndOf(b))
      && (available < 1 ==>
            && |r.heap.blocks| == |h.blocks|
            && r.heap.blocks[k] == Block(b.at, size, b.capacity, false))
  {
    var b := h.blocks[k];
    var req := RoundUp(size, Alignment);
    if b.capacity - req - h.headerSize >= 1 {
      MallocReusesSplit(h, size, k);
    } else {
      MallocReusesWhole(h, size, k);
    }
  }

  /** The splitting case of `MallocReuses`. */
  lemma MallocReusesSplit(h: Heap, size: nat, k: nat)
    requires WellFormed(h) && FirstFit(h.blocks, RoundUp(size, Alignment), 0) == Some(k)
    requires h.blocks[k].capacity - RoundUp(size, Alignment) - h.headerSize >= 1
    ensures var r := Malloc(h, size);
      var b := h.blocks[k];
      var req := RoundUp(size, Alignment);
      var available: int := b.capacity - req - h.headerSize;
      && r.ptr == h.DataOf(b) && r.heap.top == h.top
      && |r.heap.blocks| == |h.blocks| + 1
      && r.heap.blocks[k] == Block(b.at, size, req, false)
      && r.heap.blocks[k + 1] == Block(h.DataOf(b) + req, available as nat, available as nat, true)
      && r.heap.EndOf(r.heap.blocks[k + 1]) == h.EndOf(b)
  {
    var r := Malloc(h, size);
    assert r.heap.blocks == ReuseBlock(h, k, size).0 && r.ptr == h.DataOf(h.blocks[k]) && r.heap.top == h.top
      && r.heap.headerSize == h.headerSize;
    SplitBlocks(h, k, size);
  }

  /** The blocks a split leaves at `k` and `k + 1`. */
  lemma SplitBlocks(h: Heap, k: nat, size: nat)
    requires WellFormed(h) && k < |h.blocks| && Fits(h.blocks[k], RoundUp(size, Alignment))
    requires h.blocks[k].capacity - RoundUp(size, Alignment) - h.headerSize >= 1
    ensures var bs := ReuseBlock(h, k, size).0;
      var b := h.blocks[k];
      var req := RoundUp(size, Alignment);
      var available: int := b.capacity - req - h.headerSize;
      && |bs| == |h.blocks| + 1
      && bs[k] == Block(b.at, size, req, false)
      && bs[k + 1] == Block(h.DataOf(b) + req, available as nat, available as nat, true)
      && h.EndOf(bs[k + 1]) == h.EndOf(b)
  {
    var b := h.blocks[k];
    var req := RoundUp(size, Alignment);
    var available: int := b.capacity - req - h.headerSize;
    assert b.capacity % Alignment == 0 by {
      assert AlignedCapacities(h.blocks);
    }
    RoundUpProperties(size, Alignment);
    RemainderAligned(b.capacity, req, h.headerSize);
    var rem := NewBlock(b.at + h.headerSize + req, available as nat, true);
    assert rem == Block(h.DataOf(b) + req, available as nat, available as nat, true);
    var bs := ReuseBlock(h, k, size).0;
    assert bs == h.blocks[..k] + [Block(b.at, size, req, false), rem] + h.blocks[k + 1..];
  }

  /** The case of `MallocReuses` where the whole block is taken. */
  lemma MallocReusesWhole(h: Heap, size: nat, k: nat)
    requires WellFormed(h) && FirstFit(h.blocks, RoundUp(size, Alignment), 0) == Some(k)
    requires h.blocks[k].capacity - RoundUp(size, Alignment) - h.headerSize < 1
    ensures var r := Malloc(h, size);
      var b := h.blocks[k];
      && r.ptr == h.DataOf(b) && r.heap.top == h.top
      && |r.heap.blocks| == |h.blocks|
      && r.heap.blocks[k] == Block(b.at, size, b.capacity, false)
  {
    assert Malloc(h, size).heap.blocks == h.blocks[k := Block(h.blocks[k].at, size, h.blocks[k].capacity, false)];
  }

  /** When no free block fits, `Malloc` puts a new block at the top of used
      memory and moves the top past its header and rounded size. */
  lemma MallocAppends(h: Heap, size: nat)
    requires WellFormed(h) && FirstFit(h.blocks, RoundUp(size, Alignment), 0).None?
    ensures var r := Malloc(h, size);
      && r.heap.blocks == h.blocks + [Block(h.top, size, RoundUp(size, Alignment), false)]
      && r.ptr == h.top + h.headerSize
      && r.heap.top == h.top + h.headerSize + RoundUp(size, Alignment)
  {
    AppendAfterLast(h, size);
  }

  /** When no free block fits and the buffer is too small, `Malloc` still
      moves the top past the new block: the append reports running out of
      memory exactly when the new top lies past the end of the buffer, and
      the allocation goes ahead either way. */
  lemma MallocReportsOutOfMemory(h: Heap, size: nat)
    requires FirstFit(h.blocks, RoundUp(size, Alignment), 0).None?
    ensures AppendBlock(h, size).1 <==> h.top + h.headerSize + RoundUp(size, Alignment) > h.maxSize
    ensures Malloc(h, size).heap.top == h.top + h.headerSize + RoundUp(size, Alignment)
    ensures Malloc(h, size).ptr == h.top + h.headerSize
  {
  }

  /** `Malloc` leaves every block other than the one it reuses where it
      was and as it was; in particular no block in use is disturbed. */
  lemma MallocKeepsOtherBlocks(h: Heap, size: nat)
    requires WellFormed(h)
    ensures var r := Malloc(h, size);
      var chosen := FirstFit(h.blocks, RoundUp(size, Alignment), 0);
      forall j :: 0 <= j < |h.blocks| && chosen != Some(j) ==> h.blocks[j] in r.heap.blocks
  {
    var r := Malloc(h, size);
    match FirstFit(h.blocks, RoundUp(size, Alignment), 0)
    case Some(k) =>
      MallocReuses(h, size, k);
      var b := h.blocks[k];
      var req := RoundUp(size, Alignment);
      if b.capacity - req - h.headerSize >= 1 {
        forall j | 0 <= j < |h.blocks| && j != k
          ensures h.blocks[j] in r.heap.blocks
        {
          if j < k {
            assert r.heap.blocks[j] == h.blocks[j];
          } else {
            assert r.heap.blocks[j + 1] == h.blocks[j];
          }
        }
      } else {
        forall j | 0 <= j < |h.blocks| && j != k
          ensures h.blocks[j] in r.heap.blocks
        {
          assert r.heap.blocks[j] == h.blocks[j];
        }
      }
    case None =>
      AppendAfterLast(h, size);
      forall j | 0 <= j < |h.blocks|
        ensures h.blocks[j] in r.heap.blocks
      {
        assert r.heap.blocks[j] == h.blocks[j];
      }
  }

  // ---------------------------------------------------------------------
  // Freeing

  /** `MergeFreeBlocks` as written: the low block takes over the high
      block's capacity, but not the bytes of the high block's header, and
      `EndBlock` is left alone. */
  function MergeFreeBlocksAsWritten(h: Heap, i: nat): (r: Heap)
    requires i + 1 < |h.blocks| && h.blocks[i].isFree && h.blocks[i + 1].isFree
    ensures |r.blocks| == |h.blocks| - 1 && r.blocks[i].isFree && r.blocks[i].at == h.blocks[i].at
    ensures r.blocks[..i] == h.blocks[..i] && r.endBlock == h.endBlock
    ensures r.blocks[i].capacity + h.headerSize == MergeFreeBlocks(h, i).blocks[i].capacity
  {
    var low := h.blocks[i];
    var high := h.blocks[i + 1];
    h.(blocks := Splice(h.blocks, i, 2, [Block(low.at, 0, low.capacity + high.capacity, true)]))
  }

  /** `MergeFreeBlocks` with the high block's header folded into the low
      block's capacity, and `EndBlock` moved down when the high block was
      the last. */
  function MergeFreeBlocks(h: Heap, i: nat): (r: Heap)
    requires i + 1 < |h.blocks| && h.blocks[i].isFree && h.blocks[i + 1].isFree
    ensures |r.blocks| == |h.blocks| - 1 && r.blocks[i].isFree && r.blocks[i].at == h.blocks[i].at
    ensures r.blocks[..i] == h.blocks[..i] && r.blocks[i + 1..] == h.blocks[i + 2..]
  {
    var low := h.blocks[i];
    var high := h.blocks[i + 1];
    var merged := Block(low.at, 0, low.capacity + h.headerSize + high.capacity, true);
    h.(blocks := Splice(h.blocks, i, 2, [merged]),
       endBlock := if h.endBlock == Some(high.at) then Some(low.at) else h.endBlock)
  }

  /** The merged block spans both blocks, headers included, and the heap
      stays well formed. */
  lemma MergeKeepsWellFormed(h: Heap, i: nat)
    requires WellFormed(h) && i + 1 < |h.blocks| && h.blocks[i].isFree && h.blocks[i + 1].isFree
    ensures var r := MergeFreeBlocks(h, i);
      && WellFormed(r)
      && r.EndOf(r.blocks[i]) == h.EndOf(h.blocks[i + 1])
  {
    var low := h.blocks[i];
    var high := h.blocks[i + 1];
    var merged := Block(low.at, 0, low.capacity + h.headerSize + high.capacity, true);
    assert AlignedCapacities(h.blocks) && Abutting(h, h.blocks);
    assert h.EndOf(low) == high.at;
    AlignedSum(low.capacity, h.headerSize, high.capacity);
    assert AlignedCapacities([merged]) && Abutting(h, [merged]);
    EndBlockIsLast(h, i + 1);
    var cs := Splice(h.blocks, i, 2, [merged]);
    assert cs[|cs| - 1] == if i + 2 == |h.blocks| then merged else h.blocks[|h.blocks| - 1];
    assert MergeFreeBlocks(h, i) == h.(blocks := cs, endBlock := LastHeader(cs));
    SpliceKeepsWellFormed(h, i, 2, [merged]);
  }

  /** Aligned pieces add up to an aligned whole. */
  lemma AlignedSum(a: nat, b: nat, c: nat)
    requires a % Alignment == 0 && b % Alignment == 0 && c % Alignment == 0
    ensures (a + b + c) % Alignment == 0
  {
    var q := a / Alignment + b / Alignment + c / Alignment;
    assert a + b + c == q * Alignment;
    DivOfMultiplePlus(q, Alignment, 0);
  }

  /** Merging as written leaves a gap of one header between the merged
      block's end and the next header: the heap no longer tiles. */
  lemma MergeAsWrittenLosesHeader(h: Heap, i: nat)
    requires WellFormed(h) && i + 2 < |h.blocks| && h.blocks[i].isFree && h.blocks[i + 1].isFree
    ensures var r := MergeFreeBlocksAsWritten(h, i);
      && r.EndOf(r.blocks[i]) + h.headerSize == r.blocks[i + 1].at
      && !Tiled(r)
  {
    var r := MergeFreeBlocksAsWritten(h, i);
    assert r.blocks[i + 1] == h.blocks[i + 2];
  }

  /** The block marked free with no recorded size. */
  function MarkFree(h: Heap, k: nat): (r: Heap)
    requires k < |h.blocks|
  {
    var b := h.blocks[k];
    h.(blocks := h.blocks[k := Block(b.at, 0, b.capacity, true)])
  }

  /** Merging a free block with the next one when that one is free. */
  function MergeWithNext(h: Heap, k: nat): (r: Heap)
    requires k < |h.blocks| && h.blocks[k].isFree
    ensures k < |r.blocks| && r.blocks[k].isFree && r.blocks[..k] == h.blocks[..k]
  {
    if k + 1 < |h.blocks| && h.blocks[k + 1].isFree then MergeFreeBlocks(h, k) else h
  }

  /** `Free` on a block, with the neighbour checks the code leaves out:
      mark it free, merge it with the next block if that is free, then
      with the previous one if that is free. */
  function FreeBlock(h: Heap, k: nat): (r: Heap)
    requires k < |h.blocks|
  {
    var h2 := MergeWithNext(MarkFree(h, k), k);
    if k > 0 && h2.blocks[k - 1].isFree then MergeFreeBlocks(h2, k - 1) else h2
  }

  /** Both neighbours the code reads through exist. */
  predicate HasBothNeighbours(h: Heap, k: nat) {
    0 < k && k + 1 < |h.blocks|
  }

  /** `Free(BasicHeapBlockHeader*)` as written: the neighbours are read
      without checks, and merging loses a header each time. */
  function FreeBlockAsWritten(h: Heap, k: nat): (r: Heap)
    requires HasBothNeighbours(h, k)
    ensures |r.blocks| == |h.blocks| - (if h.blocks[k - 1].isFree then 1 else 0) - (if h.blocks[k + 1].isFree then 1 else 0)
    ensures var j := if h.blocks[k - 1].isFree then k - 1 else k;
      r.blocks[j].isFree && r.blocks[j].at == h.blocks[j].at && r.blocks[..j] == h.blocks[..j]
  {
    var h1 := MarkFree(h, k);
    var h2 := if h1.blocks[k + 1].isFree then MergeFreeBlocksAsWritten(h1, k) else h1;
    if h2.blocks[k - 1].isFree then MergeFreeBlocksAsWritten(h2, k - 1) else h2
  }

  /** `Free(void*)`: the block whose header precedes the pointer. */
  function Free(h: Heap, ptr: nat): (r: Heap)
    requires FindMemoryBlockFromPtr(h, ptr).Some?
    ensures r.headerSize == h.headerSize && r.top == h.top
    ensures |h.blocks| - 2 <= |r.blocks| <= |h.blocks|
  {
    FreeBlock(h, FindMemoryBlockFromPtr(h, ptr).value)
  }

  /** Marking a block free moves nothing. */
  lemma MarkFreeKeepsWellFormed(h: Heap, k: nat)
    requires WellFormed(h) && k < |h.blocks|
    ensures WellFormed(MarkFree(h, k))
  {
    var b := h.blocks[k];
    var run := [Block(b.at, 0, b.capacity, true)];
    SpliceKeepsWellFormed(h, k, 1, run);
    assert h.blocks[k := run[0]] == Splice(h.blocks, k, 1, run);
  }

  /** `Free` keeps the heap well formed. */
  lemma FreeKeepsWellFormed(h: Heap, k: nat)
    requires WellFormed(h) && k < |h.blocks|
    ensures WellFormed(FreeBlock(h, k))
  {
    var h1 := MarkFree(h, k);
    MarkFreeKeepsWellFormed(h, k);
    var h2 := MergeWithNext(h1, k);
    if k + 1 < |h1.blocks| && h1.blocks[k + 1].isFree {
      MergeKeepsWellFormed(h1, k);
    }
    if k > 0 && h2.blocks[k - 1].isFree {
      MergeKeepsWellFormed(h2, k - 1);
    }
  }

  /** The first and last positions of the blocks `Free` coalesces: the
      freed block and whichever neighbours were already free. */
  function CoalescedLow(h: Heap, k: nat): nat
    requires k < |h.blocks|
  {
    if k > 0 && h.blocks[k - 1].isFree then k - 1 else k
  }

  function CoalescedHigh(h: Heap, k: nat): nat
    requires k < |h.blocks|
  {
    if k + 1 < |h.blocks| && h.blocks[k + 1].isFree then k + 1 else k
  }

  /** `r` is `h` with the blocks from `lo` to `hi` replaced by one free
      block with no recorded size, from `lo`'s header to `hi`'s end; every
      other block keeps its place in the list. */
  predicate Replaced(h: Heap, r: Heap, lo: nat, hi: nat)
    requires lo <= hi < |h.blocks|
  {
    && r.headerSize == h.headerSize
    && |r.blocks| == |h.blocks| - (hi - lo)
    && r.blocks[..lo] == h.blocks[..lo]
    && r.blocks[lo + 1..] == h.blocks[hi + 1..]
    && r.blocks[lo].isFree && r.blocks[lo].currentSize == 0
    && r.blocks[lo].at == h.blocks[lo].at
    && r.EndOf(r.blocks[lo]) == h.EndOf(h.blocks[hi])
  }

  /** `Free` replaces the freed block and its free neighbours by a single
      free block spanning them all. */
  lemma FreeCoalesces(h: Heap, k: nat)
    requires WellFormed(h) && k < |h.blocks|
    ensures Replaced(h, FreeBlock(h, k), CoalescedLow(h, k), CoalescedHigh(h, k))
  {
    var h1 := MarkFree(h, k);
    MarkFreeKeepsWellFormed(h, k);
    assert h1.blocks[..k] == h.blocks[..k];
    assert h1.blocks[k + 1..] == h.blocks[k + 1..];
    assert Replaced(h, h1, k, k);
    var h2 := MergeWithNext(h1, k);
    MergeWithNextShape(h1, k);
    var hi := CoalescedHigh(h, k);
    ReplacedThenGrowUp(h, h1, h2, k, k, hi - k);
    if k > 0 && h2.blocks[k - 1].isFree {
      assert h2.blocks[k - 1] == h2.blocks[..k][k - 1];
      MergeWithPreviousShape(h2, k);
      ReplacedThenGrowDown(h, h2, MergeFreeBlocks(h2, k - 1), k, hi);
    }
  }

  lemma ReplacedThenGrowUp(h: Heap, m: Heap, r: Heap, lo: nat, hi: nat, d: nat)
    requires lo <= hi && hi + d < |h.blocks|
    requires Replaced(h, m, lo, hi) && lo + d < |m.blocks| && Replaced(m, r, lo, lo + d)
    ensures Replaced(h, r, lo, hi + d)
  {
    assert m.blocks[lo + 1..][d..] == m.blocks[lo + d + 1..];
    assert h.blocks[hi + 1..][d..] == h.blocks[hi + d + 1..];
    if d > 0 {
      assert m.blocks[lo + d] == m.blocks[lo + 1..][d - 1] == h.blocks[hi + d];
    }
  }

  lemma ReplacedThenGrowDown(h: Heap, m: Heap, r: Heap, lo: nat, hi: nat)
    requires 0 < lo <= hi < |h.blocks|
    requires Replaced(h, m, lo, hi) && lo < |m.blocks| && Replaced(m, r, lo - 1, lo)
    ensures Replaced(h, r, lo - 1, hi)
  {
    assert m.blocks[..lo - 1] == m.blocks[..lo][..lo - 1];
    assert h.blocks[..lo - 1] == h.blocks[..lo][..lo - 1];
    assert m.blocks[lo - 1] == m.blocks[..lo][lo - 1];
  }

  /** Merging with the next block when it is free: the block keeps its
      place and header and now ends where the next one ended. */
  lemma MergeWithNextShape(h: Heap, k: nat)
    requires WellFormed(h) && k < |h.blocks| && h.blocks[k].isFree && h.blocks[k].currentSize == 0
    ensures var r := MergeWithNext(h, k);
      WellFormed(r) && Replaced(h, r, k, if k + 1 < |h.blocks| && h.blocks[k + 1].isFree then k + 1 else k)
  {
    if k + 1 < |h.blocks| && h.blocks[k + 1].isFree {
      MergeKeepsWellFormed(h, k);
      MergeShape(h, k);
    }
  }

  lemma MergeShape(h: Heap, i: nat)
    requires i + 1 < |h.blocks| && h.blocks[i].isFree && h.blocks[i + 1].isFree
    ensures var r := MergeFreeBlocks(h, i);
      && r.blocks[i].currentSize == 0
      && r.blocks[i + 1..] == h.blocks[i + 2..]
  {
  }

  /** Merging a free block into the previous one when that is free. */
  lemma MergeWithPreviousShape(h: Heap, k: nat)
    requires WellFormed(h) && 0 < k < |h.blocks| && h.blocks[k].isFree && h.blocks[k - 1].isFree
    ensures Replaced(h, MergeFreeBlocks(h, k - 1), k - 1, k)
  {
    MergeKeepsWellFormed(h, k - 1);
    MergeShape(h, k - 1);
  }

  /** No two neighbouring blocks are both free: what coalescing on every
      `Free` is for. */
  predicate Coalesced(h: Heap) {
    forall i :: 0 <= i < |h.blocks| - 1 ==> !(h.blocks[i].isFree && h.blocks[i + 1].isFree)
  }

  /** `Free` keeps neighbouring free blocks merged. */
  lemma FreeKeepsCoalesced(h: Heap, k: nat)
    requires WellFormed(h) && Coalesced(h) && k < |h.blocks|
    ensures Coalesced(FreeBlock(h, k))
  {
    var lo := CoalescedLow(h, k);
    var hi := CoalescedHigh(h, k);
    FreeCoalesces(h, k);
    ReplacedKeepsCoalesced(h, FreeBlock(h, k), lo, hi);
  }

  /** Replacing a stretch whose outer neighbours are in use by one free
      block leaves no two free blocks side by side. */
  lemma ReplacedKeepsCoalesced(h: Heap, r: Heap, lo: nat, hi: nat)
    requires lo <= hi < |h.blocks| && Coalesced(h) && Replaced(h, r, lo, hi)
    requires lo > 0 ==> !h.blocks[lo - 1].isFree
    requires hi + 1 < |h.blocks| ==> !h.blocks[hi + 1].isFree
    ensures Coalesced(r)
  {
    forall i | 0 <= i < |r.blocks| - 1
      ensures !(r.blocks[i].isFree && r.blocks[i + 1].isFree)
    {
      if i + 1 < lo {
        assert r.blocks[i] == r.blocks[..lo][i] && r.blocks[i + 1] == r.blocks[..lo][i + 1];
      } else if i + 1 == lo {
        assert r.blocks[i] == r.blocks[..lo][i];
      } else if i == lo {
        assert r.blocks[i + 1] == r.blocks[lo + 1..][0];
      } else {
        assert r.blocks[i] == r.blocks[lo + 1..][i - lo - 1];
        assert r.blocks[i + 1] == r.blocks[lo + 1..][i - lo];
      }
    }
  }

  /** `Malloc` never leaves two free blocks side by side: a remainder is
      split off a free block, whose next neighbour was in use. */
  lemma MallocKeepsCoalesced(h: Heap, size: nat)
    requires WellFormed(h) && Coalesced(h)
    ensures Coalesced(Malloc(h, size).heap)
  {
    var r := Malloc(h, size);
    match FirstFit(h.blocks, RoundUp(size, Alignment), 0)
    case Some(k) =>
      MallocReuses(h, size, k);
      var b := h.blocks[k];
      if b.capacity - RoundUp(size, Alignment) - h.headerSize >= 1 {
        forall i | 0 <= i < |r.heap.blocks| - 1
          ensures !(r.heap.blocks[i].isFree && r.heap.blocks[i + 1].isFree)
        {
          if i + 1 < k {
            assert r.heap.blocks[i] == h.blocks[i] && r.heap.blocks[i + 1] == h.blocks[i + 1];
          } else if i + 1 == k {
          } else if i == k {
          } else if i == k + 1 {
            assert r.heap.blocks[i + 1] == h.blocks[k + 1];
          } else {
            assert r.heap.blocks[i] == h.blocks[i - 1] && r.heap.blocks[i + 1] == h.blocks[i];
          }
        }
      } else {
        forall i | 0 <= i < |r.heap.blocks| - 1
          ensures !(r.heap.blocks[i].isFree && r.heap.blocks[i + 1].isFree)
        {
          if i != k && i + 1 != k {
            assert r.heap.blocks[i] == h.blocks[i] && r.heap.blocks[i + 1] == h.blocks[i + 1];
          }
        }
      }
    case None =>
      MallocAppends(h, size);
      forall i | 0 <= i < |r.heap.blocks| - 1
        ensures !(r.heap.blocks[i].isFree && r.heap.blocks[i + 1].isFree)
      {
        if i + 1 < |h.blocks| {
          assert r.heap.blocks[i] == h.blocks[i] && r.heap.blocks[i + 1] == h.blocks[i + 1];
        }
      }
  }

  // ---------------------------------------------------------------------
  // Reallocating

  /** `ptr` is the data pointer of a block in use. */
  predicate Live(h: Heap, ptr: nat) {
    var j := FindMemoryBlockFromPtr(h, ptr);
    j.Some? && j.value < |h.blocks| && !h.blocks[j.value].isFree
  }

  /** What `Realloc` hands back: the heap, the data pointer and how many
      bytes were copied from the old block to a new one. */
  datatype Reallocation = Reallocation(heap: Heap, ptr: nat, copied: nat)

  /** The number of bytes `Realloc` copies when it moves a block: all the
      old block's bytes, whatever the new size. */
  function ReallocCopyLengthAsWritten(moved: Block, newSize: nat): nat {
    moved.currentSize
  }

  /** The copy length bounded by the new size too. */
  function ReallocCopyLength(moved: Block, newSize: nat): (n: nat)
    ensures n <= moved.currentSize && n <= newSize
    ensures n == moved.currentSize || n == newSize
  {
    if moved.currentSize <= newSize then moved.currentSize else newSize
  }

  /** `Realloc`. The last block of the list grows or shrinks in place and
      the top moves by the change in capacity; a block whose capacity
      already holds a size no smaller than the current one just records
      it; otherwise a new block is allocated, the old contents copied and
      the old block freed. */
  function Realloc(h: Heap, ptr: nat, newSize: nat): (r: Reallocation)
    requires WellFormed(h) && Live(h, ptr)
    ensures r.ptr == ptr || r.ptr == Malloc(h, newSize).ptr
    ensures r.copied <= newSize && r.copied <= h.blocks[FindMemoryBlockFromPtr(h, ptr).value].currentSize
    ensures r.ptr != ptr ==> r.copied == ReallocCopyLength(h.blocks[FindMemoryBlockFromPtr(h, ptr).value], newSize)
  {
    var k := FindMemoryBlockFromPtr(h, ptr).value;
    var b := h.blocks[k];
    if k == |h.blocks| - 1 then
      var resized := Block(b.at, newSize, RoundUp(newSize, Alignment), b.isFree);
      assert h.top >= b.capacity by { assert Tiled(h); }
      var (grown, _) := IncreaseTopOfUsedMemory(h.(blocks := h.blocks[k := resized]), resized.capacity - b.capacity);
      Reallocation(grown, ptr, 0)
    else if b.currentSize <= newSize <= b.capacity then
      Reallocation(h.(blocks := h.blocks[k := b.(currentSize := newSize)]), ptr, 0)
    else
      var a := Malloc(h, newSize);
      MallocKeepsLiveBlock(h, newSize, ptr);
      Reallocation(Free(a.heap, ptr), a.ptr, ReallocCopyLength(b, newSize))
  }

  /** `Malloc` leaves a block in use where it was, so its pointer still
      finds it. */
  lemma MallocKeepsLiveBlock(h: Heap, size: nat, ptr: nat)
    requires WellFormed(h) && Live(h, ptr)
    ensures var a := Malloc(h, size);
      && WellFormed(a.heap) && Live(a.heap, ptr)
      && a.heap.blocks[FindMemoryBlockFromPtr(a.heap, ptr).value] == h.blocks[FindMemoryBlockFromPtr(h, ptr).value]
  {
    var a := Malloc(h, size);
    var k := FindMemoryBlockFromPtr(h, ptr).value;
    MallocKeepsWellFormed(h, size);
    MallocKeepsOtherBlocks(h, size);
    assert FirstFit(h.blocks, RoundUp(size, Alignment), 0) != Some(k);
    assert a.heap.headerSize == h.headerSize;
    StillFound(h, a.heap, ptr);
  }

  /** A block that is still in a well-formed heap with the same header
      size is found again from its data pointer. */
  lemma StillFound(h: Heap, h': Heap, ptr: nat)
    requires WellFormed(h') && Live(h, ptr) && h'.headerSize == h.headerSize
    requires h.blocks[FindMemoryBlockFromPtr(h, ptr).value] in h'.blocks
    ensures Live(h', ptr)
    ensures h'.blocks[FindMemoryBlockFromPtr(h', ptr).value] == h.blocks[FindMemoryBlockFromPtr(h, ptr).value]
  {
    var b := h.blocks[FindMemoryBlockFromPtr(h, ptr).value];
    var j :| 0 <= j < |h'.blocks| && h'.blocks[j] == b;
    FindBlockOfData(h', j);
  }

  /** Resizing the last block and moving the top to its new end keeps the
      heap well formed. */
  lemma ResizeLastKeepsWellFormed(h: Heap, b': Block)
    requires WellFormed(h) && |h.blocks| > 0
    requires b'.at == h.blocks[|h.blocks| - 1].at && b'.capacity % Alignment == 0
    ensures WellFormed(h.(blocks := h.blocks[|h.blocks| - 1 := b'], top := h.EndOf(b')))
  {
    var h' := h.(blocks := h.blocks[|h.blocks| - 1 := b'], top := h.EndOf(b'));
    forall i | 0 <= i < |h'.blocks| - 1
      ensures h'.EndOf(h'.blocks[i]) == h'.blocks[i + 1].at
    {
      assert h'.blocks[i] == h.blocks[i];
    }
  }

  /** A block outside a replaced stretch keeps its place, shifted down by
      the blocks the stretch lost when it lies above it. */
  lemma ReplacedKeepsOutside(h: Heap, r: Heap, lo: nat, hi: nat, m: nat)
    requires lo <= hi < |h.blocks| && Replaced(h, r, lo, hi)
    requires m < |h.blocks| && (m < lo || hi < m)
    ensures var m' := if m < lo then m else m - (hi - lo);
      m' < |r.blocks| && r.blocks[m'] == h.blocks[m]
  {
    if m < lo {
      assert r.blocks[m] == r.blocks[..lo][m];
    } else {
      assert r.blocks[m - (hi - lo)] == r.blocks[lo + 1..][m - hi - 1];
    }
  }

  /** `Realloc` keeps the heap well formed. */
  lemma ReallocKeepsWellFormed(h: Heap, ptr: nat, newSize: nat)
    requires WellFormed(h) && Live(h, ptr)
    ensures WellFormed(Realloc(h, ptr, newSize).heap)
  {
    var k := FindMemoryBlockFromPtr(h, ptr).value;
    var b := h.blocks[k];
    if k == |h.blocks| - 1 {
      ResizeLastInPlaceKeepsWellFormed(h, ptr, newSize);
    } else if b.currentSize <= newSize <= b.capacity {
      ResizeInPlaceKeepsWellFormed(h, ptr, newSize);
    } else {
      ResizeMovedKeepsWellFormed(h, ptr, newSize);
    }
  }

  /** The case of `ReallocKeepsWellFormed` where the data moves: a new
      block is taken and the old one freed. */
  lemma ResizeMovedKeepsWellFormed(h: Heap, ptr: nat, newSize: nat)
    requires WellFormed(h) && Live(h, ptr)
    requires var k := FindMemoryBlockFromPtr(h, ptr).value;
      k < |h.blocks| - 1 && !(h.blocks[k].currentSize <= newSize <= h.blocks[k].capacity)
    ensures WellFormed(Realloc(h, ptr, newSize).heap)
  {
    var a := Malloc(h, newSize);
    MallocKeepsLiveBlock(h, newSize, ptr);
    var j := FindMemoryBlockFromPtr(a.heap, ptr).value;
    FreeKeepsWellFormed(a.heap, j);
    assert Realloc(h, ptr, newSize).heap == FreeBlock(a.heap, j);
  }

  /** The case of `ReallocKeepsWellFormed` for the last block. */
  lemma ResizeLastInPlaceKeepsWellFormed(h: Heap, ptr: nat, newSize: nat)
    requires WellFormed(h) && Live(h, ptr) && FindMemoryBlockFromPtr(h, ptr).value == |h.blocks| - 1
    ensures WellFormed(Realloc(h, ptr, newSize).heap)
  {
    var k := FindMemoryBlockFromPtr(h, ptr).value;
    var b := h.blocks[k];
    RoundUpProperties(newSize, Alignment);
    var resized := Block(b.at, newSize, RoundUp(newSize, Alignment), b.isFree);
    assert Realloc(h, ptr, newSize).heap == h.(blocks := h.blocks[k := resized], top := h.top - b.capacity + resized.capacity);
    ResizeLastKeepsWellFormed(h, resized);
  }

  /** The case of `ReallocKeepsWellFormed` for a block that is not last and
      has room for the new size. */
  lemma ResizeInPlaceKeepsWellFormed(h: Heap, ptr: nat, newSize: nat)
    requires WellFormed(h) && Live(h, ptr)
    requires var k := FindMemoryBlockFromPtr(h, ptr).value;
      k < |h.blocks| - 1 && h.blocks[k].currentSize <= newSize <= h.blocks[k].capacity
    ensures WellFormed(Realloc(h, ptr, newSize).heap)
  {
    var k := FindMemoryBlockFromPtr(h, ptr).value;
    var b := h.blocks[k];
    var run := [b.(currentSize := newSize)];
    assert Realloc(h, ptr, newSize).heap == h.(blocks := h.blocks[k := run[0]]);
    assert h.blocks[k := run[0]] == Splice(h.blocks, k, 1, run);
    SpliceKeepsWellFormed(h, k, 1, run);
  }

  /** A block `Malloc` hands out is never the live block passed in. */
  lemma MallocGivesOtherPointer(h: Heap, size: nat, ptr: nat)
    requires WellFormed(h) && Live(h, ptr)
    ensures Malloc(h, size).ptr != ptr
  {
    var k := FindMemoryBlockFromPtr(h, ptr).value;
    match FirstFit(h.blocks, RoundUp(size, Alignment), 0)
    case Some(k0) =>
      MallocReuses(h, size, k0);
      if k0 < k {
        BlocksDisjoint(h, k0, k);
      } else {
        BlocksDisjoint(h, k, k0);
      }
    case None =>
      MallocAppends(h, size);
      if k < |h.blocks| - 1 {
        BlocksDisjoint(h, k, |h.blocks| - 1);
      }
  }

  /** What `Realloc` returns: a live block holding the new size with room
      for it rounded up, reached from the returned pointer; the same
      pointer when the block is resized in place; and a copy that fits both
      the old contents and the new block. */
  lemma ReallocGivesBlock(h: Heap, ptr: nat, newSize: nat)
    requires WellFormed(h) && Live(h, ptr)
    ensures var r := Realloc(h, ptr, newSize);
      var was := h.blocks[FindMemoryBlockFromPtr(h, ptr).value];
      && Live(r.heap, r.ptr)
      && var nb := r.heap.blocks[FindMemoryBlockFromPtr(r.heap, r.ptr).value];
      && nb.currentSize == newSize
      && RoundUp(newSize, Alignment) <= nb.capacity
      && r.copied <= was.currentSize && r.copied <= nb.capacity
      && (FindMemoryBlockFromPtr(h, ptr).value == |h.blocks| - 1 || was.currentSize <= newSize <= was.capacity ==> r.ptr == ptr)
  {
    var k := FindMemoryBlockFromPtr(h, ptr).value;
    var b := h.blocks[k];
    if k == |h.blocks| - 1 {
      ReallocLastGivesBlock(h, ptr, newSize);
    } else if b.currentSize <= newSize <= b.capacity {
      ReallocInPlaceGivesBlock(h, ptr, newSize);
    } else {
      ReallocMovedGivesBlock(h, ptr, newSize);
    }
    assert ReallocOutcome(h, ptr, newSize);
  }

  /** What `ReallocGivesBlock` states, as one predicate for its cases. */
  ghost predicate ReallocOutcome(h: Heap, ptr: nat, newSize: nat)
    requires WellFormed(h) && Live(h, ptr)
  {
    var r := Realloc(h, ptr, newSize);
    var was := h.blocks[FindMemoryBlockFromPtr(h, ptr).value];
    && Live(r.heap, r.ptr)
    && var nb := r.heap.blocks[FindMemoryBlockFromPtr(r.heap, r.ptr).value];
    && nb.currentSize == newSize
    && RoundUp(newSize, Alignment) <= nb.capacity
    && r.copied <= was.currentSize && r.copied <= nb.capacity
    && (FindMemoryBlockFromPtr(h, ptr).value == |h.blocks| - 1 || was.currentSize <= newSize <= was.capacity ==> r.ptr == ptr)
  }

  lemma ReallocLastGivesBlock(h: Heap, ptr: nat, newSize: nat)
    requires WellFormed(h) && Live(h, ptr) && FindMemoryBlockFromPtr(h, ptr).value == |h.blocks| - 1
    ensures ReallocOutcome(h, ptr, newSize)
  {
    var k := FindMemoryBlockFromPtr(h, ptr).value;
    var r := Realloc(h, ptr, newSize);
    ReallocKeepsWellFormed(h, ptr, newSize);
    RoundUpProperties(newSize, Alignment);
    assert r.heap.blocks[k].at == h.blocks[k].at;
    FindBlockOfData(r.heap, k);
  }

  lemma ReallocInPlaceGivesBlock(h: Heap, ptr: nat, newSize: nat)
    requires WellFormed(h) && Live(h, ptr)
    requires var k := FindMemoryBlockFromPtr(h, ptr).value;
      k < |h.blocks| - 1 && h.blocks[k].currentSize <= newSize <= h.blocks[k].capacity
    ensures ReallocOutcome(h, ptr, newSize)
  {
    var k := FindMemoryBlockFromPtr(h, ptr).value;
    var r := Realloc(h, ptr, newSize);
    ReallocKeepsWellFormed(h, ptr, newSize);
    RoundUpLeast(newSize, h.blocks[k].capacity);
    assert r.heap.blocks[k] == h.blocks[k].(currentSize := newSize);
    FindBlockOfData(r.heap, k);
  }

  lemma ReallocMovedGivesBlock(h: Heap, ptr: nat, newSize: nat)
    requires WellFormed(h) && Live(h, ptr)
    requires var k := FindMemoryBlockFromPtr(h, ptr).value;
      k < |h.blocks| - 1 && !(h.blocks[k].currentSize <= newSize <= h.blocks[k].capacity)
    ensures ReallocOutcome(h, ptr, newSize)
  {
    var k := FindMemoryBlockFromPtr(h, ptr).value;
    var b := h.blocks[k];
    RoundUpProperties(newSize, Alignment);
    ReallocMoves(h, ptr, newSize);
    MallocGivesBlock(h, newSize);
    MallocKeepsLiveBlock(h, newSize, ptr);
    var r := Realloc(h, ptr, newSize);
    assert r.copied == ReallocCopyLength(b, newSize);
  }

  /** The moving case of `Realloc`: the new block survives the old one's
      release. */
  lemma ReallocMoves(h: Heap, ptr: nat, newSize: nat)
    requires WellFormed(h) && Live(h, ptr)
    ensures var a := Malloc(h, newSize);
      var r := Realloc(h, ptr, newSize);
      var k := FindMemoryBlockFromPtr(h, ptr).value;
      (k < |h.blocks| - 1 && !(h.blocks[k].currentSize <= newSize <= h.blocks[k].capacity)) ==>
        && r.ptr == a.ptr && Live(a.heap, a.ptr) && Live(r.heap, r.ptr)
        && r.heap.blocks[FindMemoryBlockFromPtr(r.heap, r.ptr).value] == a.heap.blocks[FindMemoryBlockFromPtr(a.heap, a.ptr).value]
  {
    var k := FindMemoryBlockFromPtr(h, ptr).value;
    if k < |h.blocks| - 1 && !(h.blocks[k].currentSize <= newSize <= h.blocks[k].capacity) {
      var a := Malloc(h, newSize);
      MallocKeepsLiveBlock(h, newSize, ptr);
      MallocGivesBlock(h, newSize);
      MallocGivesOtherPointer(h, newSize, ptr);
      FreeKeepsOtherBlocks(a.heap, ptr, a.ptr);
    }
  }

  /** `Free` leaves every other block in use where it was, still found
      from its pointer. */
  lemma FreeKeepsOtherBlocks(h: Heap, freed: nat, kept: nat)
    requires WellFormed(h) && Live(h, freed) && Live(h, kept) && freed != kept
    ensures var r := Free(h, freed);
      && Live(r, kept)
      && r.blocks[FindMemoryBlockFromPtr(r, kept).value] == h.blocks[FindMemoryBlockFromPtr(h, kept).value]
  {
    var j := FindMemoryBlockFromPtr(h, freed).value;
    var m := FindMemoryBlockFromPtr(h, kept).value;
    var lo := CoalescedLow(h, j);
    var hi := CoalescedHigh(h, j);
    assert m != j by {
      FindBlockOfData(h, j);
      FindBlockOfData(h, m);
    }
    assert !h.blocks[m].isFree;
    assert m < lo || hi < m;
    var r := FreeBlock(h, j);
    FreeCoalesces(h, j);
    FreeKeepsWellFormed(h, j);
    ReplacedKeepsOutside(h, r, lo, hi, m);
    assert h.blocks[m] in r.blocks;
    StillFound(h, r, kept);
  }

  /** A size that fits an aligned capacity still fits once rounded up. */
  lemma RoundUpLeast(n: nat, c: nat)
    requires n <= c && c % Alignment == 0
    ensures RoundUp(n, Alignment) <= c
  {
    RoundUpProperties(n, Alignment);
  }

  // ---------------------------------------------------------------------
  // Where the code as written goes wrong

  /** Three allocations of 100, 200 and 100 bytes with 48-byte headers,
      then the middle one freed. */
  function ThreeBlocksMiddleFree(): Heap {
    Heap(48, 1048576,
         [Block(0, 100, 100, false), Block(148, 0, 200, true), Block(396, 100, 100, false)],
         544, Some(396))
  }

  lemma ThreeBlocksMiddleFreeReachable()
    ensures var h := NewHeap(1048576, 48);
      var a := Malloc(h, 100);
      var b := Malloc(a.heap, 200);
      var c := Malloc(b.heap, 100);
      FreeBlock(c.heap, 1) == ThreeBlocksMiddleFree()
  {
  }

  /** `Malloc(4)` as written splits the middle block and makes the
      remainder `EndBlock` though a block follows it; the next allocation
      that finds no free block is linked after that remainder, so the
      third block, still in use, is no longer in the list. With `EndBlock`
      kept on the last block the third block stays in the list. */
  lemma EndBlockCounterexample()
    ensures var h0 := ThreeBlocksMiddleFree();
      var h1 := MallocAsWritten(h0, 4).heap;
      var h2 := MallocAsWritten(h1, 1000).heap;
      && WellFormed(h0)
      && h1.endBlock == Some(200) && LastHeader(h1.blocks) == Some(396) && !WellFormed(h1)
      && forall i :: 0 <= i < |h2.blocks| ==> h2.blocks[i].at != 396
    ensures var h0 := ThreeBlocksMiddleFree();
      var h2 := Malloc(Malloc(h0, 4).heap, 1000).heap;
      |h2.blocks| > 3 && h2.blocks[3] == Block(396, 100, 100, false)
  {
    var h0 := ThreeBlocksMiddleFree();
    var h1 := MallocAsWritten(h0, 4).heap;
    assert FirstFit(h0.blocks, 4, 0) == Some(1);
    assert h1.blocks == [Block(0, 100, 100, false), Block(148, 4, 4, false), Block(200, 148, 148, true), Block(396, 100, 100, false)];
    assert FirstFit(h1.blocks, 1000, 0).None?;
    var h2 := MallocAsWritten(h1, 1000).heap;
    assert IndexOfBlockAt(h1.blocks, 200) == Some(2);
    assert h2.blocks == h1.blocks[..3] + [Block(544, 1000, 1000, false)];
    var c1 := Malloc(h0, 4).heap;
    assert c1.blocks == h1.blocks && c1.endBlock == Some(396);
    assert IndexOfBlockAt(c1.blocks, 396) == Some(3);
    var c2 := Malloc(c1, 1000).heap;
    assert c2.blocks == c1.blocks + [Block(544, 1000, 1000, false)];
  }

  /** `Free` as written, freeing a block whose previous neighbour is free
      and whose next one is in use, leaves the heap no longer tiled; the
      checked `Free` keeps it well formed. */
  lemma FreeAsWrittenBreaksTiling(h: Heap, k: nat)
    requires WellFormed(h) && HasBothNeighbours(h, k)
    requires h.blocks[k - 1].isFree && !h.blocks[k + 1].isFree
    ensures !Tiled(FreeBlockAsWritten(h, k))
    ensures WellFormed(FreeBlock(h, k))
  {
    var h1 := MarkFree(h, k);
    MarkFreeKeepsWellFormed(h, k);
    MergeAsWrittenLosesHeader(h1, k - 1);
    FreeKeepsWellFormed(h, k);
  }

  /** The only block of a heap has neither neighbour, so `Free` as
      written cannot be applied to it; the checked `Free` leaves one free
      block. */
  lemma FreeOnlyBlockCounterexample()
    ensures var a := Malloc(NewHeap(1024, 48), 100);
      && FindMemoryBlockFromPtr(a.heap, a.ptr) == Some(0)
      && !HasBothNeighbours(a.heap, 0)
      && FreeBlock(a.heap, 0).blocks == [Block(0, 0, 100, true)]
  {
  }

  /** Shrinking a block that is not last from 100 bytes to 4 moves it to a
      new 4-byte block, into which the code as written copies 100 bytes. */
  lemma ReallocShrinkCounterexample()
    ensures WellFormed(ShrinkHeap) && Live(ShrinkHeap, 48)
    ensures ReallocCopyLengthAsWritten(ShrinkHeap.blocks[0], 4) == 100
    ensures var r := Realloc(ShrinkHeap, 48, 4);
      && Live(r.heap, r.ptr)
      && r.heap.blocks[FindMemoryBlockFromPtr(r.heap, r.ptr).value].capacity == 4
      && r.copied == 4
  {
    var h := ShrinkHeap;
    ShrinkHeapWellFormed();
    assert FirstFit(h.blocks, 4, 0).None?;
    assert Realloc(h, 48, 4).copied == ReallocCopyLength(h.blocks[0], 4);
    ReallocGivesBlock(h, 48, 4);
  }

  /** The shrink example heap is well formed, and pointer 48 names its
      first block. */
  lemma ShrinkHeapWellFormed()
    ensures WellFormed(ShrinkHeap) && FindMemoryBlockFromPtr(ShrinkHeap, 48) == Some(0)
  {
    assert Tiled(ShrinkHeap);
  }

  /** Two blocks in use, of 100 and 8 bytes, behind 48-byte headers. */
  const ShrinkHeap: Heap := Heap(48, 1024, [Block(0, 100, 100, false), Block(148, 8, 8, false)], 204, Some(148))
}
