/** `TerrainOctreeIndex`: a 64-bit path code naming an octree node, four bits
    per tree level, the octant taken at depth k in bits 4k..4k+3. */
module OctreeIndex {
  import opened TerrainTypes
  import opened OctreeFunctionLibrary

  /** The value a rejected write returns: all 64 bits set. */
  const InvalidIndex: u64 := 0xffff_ffff_ffff_ffff

  /** The number of four-bit levels a 64-bit index holds. */
  const INDEX_NIBBLES: nat := 16

  /** 16^k. */
  function Pow16(k: nat): (r: nat)
    ensures r >= 1
  {
    if k == 0 then 1 else 16 * Pow16(k - 1)
  }

  /** The index a descent along `path` accumulates: octant `path[k]` is
      OR-ed in at bit `4k`. The octants are below 8, so the OR of the shifted
      values is their sum. */
  function IndexOfPath(path: seq<Octant>): (r: nat)
    ensures r < Pow16(|path|)
  {
    if |path| == 0 then 0 else path[0] + 16 * IndexOfPath(path[1..])
  }

  /** `(index >> (4 * i)) & 0x0f`: shifting right by 4i bits divides by 16
      i times. */
  function IndexNibble(index: nat, i: nat): (r: nat)
    ensures r < 16
  {
    if i == 0 then index % 16 else IndexNibble(index / 16, i - 1)
  }

  /** Nibble k of a path's index is the octant taken at depth k. */
  lemma {:induction false} NibbleOfIndex(path: seq<Octant>, k: nat)
    requires k < |path|
    ensures IndexNibble(IndexOfPath(path), k) == path[k]
  {
    if k > 0 {
      NibbleOfIndex(path[1..], k - 1);
    }
  }

  /** Nibbles above the path's depth are zero. */
  lemma {:induction false} NibbleAboveIndex(path: seq<Octant>, k: nat)
    requires k >= |path|
    ensures IndexNibble(IndexOfPath(path), k) == 0
  {
    if |path| == 0 {
      ZeroNibbles(k);
    } else {
      NibbleAboveIndex(path[1..], k - 1);
    }
  }

  lemma {:induction false} ZeroNibbles(k: nat)
    ensures IndexNibble(0, k) == 0
  {
    if k > 0 {
      ZeroNibbles(k - 1);
    }
  }

  /** Every nibble read by a walk of `depth` levels names a real child slot
      (the engine indexes `Children[thisIndex]` without a bound check). */
  predicate IsWalkableIndex(index: nat, depth: nat) {
    forall i :: 0 <= i < depth ==> IndexNibble(index, i) < 8
  }

  /** The octants a `depth`-level walk reads from `index`, root first. */
  function PathOfIndex(index: nat, depth: nat): (r: seq<Octant>)
    requires IsWalkableIndex(index, depth)
    ensures |r| == depth
    ensures forall i :: 0 <= i < depth ==> r[i] == IndexNibble(index, i)
  {
    seq(depth, i requires 0 <= i < depth => IndexNibble(index, i))
  }

  /** Encoding a path and walking the index back gives the same path, and
      the index fits in 64 bits and differs from the rejection value when
      the path is at most 8 levels deep. */
  lemma IndexRoundTrip(path: seq<Octant>)
    requires |path| <= 8
    ensures IsWalkableIndex(IndexOfPath(path), |path|)
    ensures PathOfIndex(IndexOfPath(path), |path|) == path
    ensures IndexOfPath(path) < 0x1_0000_0000 && IndexOfPath(path) != InvalidIndex
  {
    forall i | 0 <= i < |path|
      ensures IndexNibble(IndexOfPath(path), i) == path[i]
    {
      NibbleOfIndex(path, i);
    }
    Pow16Monotone(|path|, 8);
  }

  lemma {:induction false} Pow16Monotone(a: nat, b: nat)
    requires a <= b
    ensures Pow16(a) <= Pow16(b)
    decreases b - a
  {
    if a < b {
      Pow16Monotone(a + 1, b);
    }
  }

  /** Distinct paths of the same depth have distinct indices. */
  lemma IndexInjective(p: seq<Octant>, q: seq<Octant>)
    requires |p| == |q| <= 8
    requires IndexOfPath(p) == IndexOfPath(q)
    ensures p == q
  {
    IndexRoundTrip(p);
    IndexRoundTrip(q);
  }
}
