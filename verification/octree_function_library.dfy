/** The octree's pure geometry helpers: block size per mip level, the inverse
    mapping from a width to its mip level, the power-of-two test and the
    half-open point-in-cube test, plus the octant decomposition that the
    octree descent relies on. */
module OctreeFunctionLibrary {
  import opened TerrainTypes

  /** Width in voxels of a mip-0 block (`BASE_CELL_SIZE`). */
  const BaseCellSize: nat := 16

  /** Reference definition of 2^k. */
  function Pow2(k: nat): (r: nat)
    ensures r >= 1
  {
    if k == 0 then 1 else 2 * Pow2(k - 1)
  }

  lemma {:induction false} Pow2Monotone(a: nat, b: nat)
    requires a < b
    ensures Pow2(a) < Pow2(b)
  {
    if b == a + 1 {
    } else {
      Pow2Monotone(a, b - 1);
    }
  }

  lemma Pow2Injective(a: nat, b: nat)
    requires Pow2(a) == Pow2(b)
    ensures a == b
  {
    if a < b {
      Pow2Monotone(a, b);
    } else if b < a {
      Pow2Monotone(b, a);
    }
  }

  /** `GetSizeInVoxels`: doubles a `u32` starting from 16, once per mip
      level. The doubling wraps modulo 2^32, so the result is exact up to
      mip level 27 and zero from level 28 on. */
  method GetSizeInVoxels(mipLevel: nat) returns (size: u32)
    ensures mipLevel <= 27 ==> size == BaseCellSize * Pow2(mipLevel)
    ensures mipLevel >= 28 ==> size == 0
    ensures size == (BaseCellSize * Pow2(mipLevel)) % U32_MODULUS
  {
    size := BaseCellSize;
    var i: nat := 0;
    while i < mipLevel
      invariant i <= mipLevel
      invariant size == (BaseCellSize * Pow2(i)) % U32_MODULUS
    {
      DoubleModulo(BaseCellSize * Pow2(i));
      size := (size * 2) % U32_MODULUS;
      i := i + 1;
    }
    if mipLevel <= 27 {
      Pow2Bound(mipLevel);
    } else {
      Pow2Split(mipLevel);
    }
  }

  lemma DoubleModulo(a: nat)
    ensures ((a % U32_MODULUS) * 2) % U32_MODULUS == (a * 2) % U32_MODULUS
  {
  }

  lemma Pow2Bound(k: nat)
    requires k <= 27
    ensures BaseCellSize * Pow2(k) < U32_MODULUS
  {
    Pow2Of28();
    if k < 27 {
      Pow2Monotone(k, 27);
    }
  }

  lemma {:induction false} Pow2Split(k: nat)
    requires k >= 28
    ensures (BaseCellSize * Pow2(k)) % U32_MODULUS == 0
  {
    if k == 28 {
      Pow2Of28();
    } else {
      Pow2Split(k - 1);
      var a := BaseCellSize * Pow2(k - 1);
      assert BaseCellSize * Pow2(k) == 2 * a;
      assert a == (a / U32_MODULUS) * U32_MODULUS;
      assert 2 * a == (2 * (a / U32_MODULUS)) * U32_MODULUS;
    }
  }

  lemma Pow2Of28()
    ensures Pow2(28) == 0x1000_0000
  {
    Pow2Add4(0);
    assert Pow2(4) == 0x10;
    Pow2Add4(4);
    assert Pow2(8) == 0x100;
    Pow2Add4(8);
    assert Pow2(12) == 0x1000;
    Pow2Add4(12);
    assert Pow2(16) == 0x1_0000;
    Pow2Add4(16);
    assert Pow2(20) == 0x10_0000;
    Pow2Add4(20);
    assert Pow2(24) == 0x100_0000;
    Pow2Add4(24);
  }

  /** `IsAPowerOfTwo`, stated on integers: 1 is 2^0, and an even number is a
      power of two when its half is. */
  predicate IsAPowerOfTwo(n: int)
    ensures IsAPowerOfTwo(n) ==> n >= 1
    decreases if n < 0 then 0 else n
  {
    n == 1 || (n >= 2 && n % 2 == 0 && IsAPowerOfTwo(n / 2))
  }

  /** The recursive test agrees with the definition n = 2^k, in both
      directions. */
  lemma {:induction false} PowerOfTwoIsPow2(k: nat)
    ensures IsAPowerOfTwo(Pow2(k))
  {
    if k > 0 {
      PowerOfTwoIsPow2(k - 1);
    }
  }

  lemma {:induction false} PowerOfTwoHasExponent(n: int) returns (k: nat)
    requires IsAPowerOfTwo(n)
    ensures n == Pow2(k)
    decreases if n < 0 then 0 else n
  {
    if n == 1 {
      k := 0;
    } else {
      var h := PowerOfTwoHasExponent(n / 2);
      k := h + 1;
    }
  }

  lemma IsAPowerOfTwoCorrect(n: int)
    ensures IsAPowerOfTwo(n) <==> exists k: nat :: n == Pow2(k)
  {
    if IsAPowerOfTwo(n) {
      var k := PowerOfTwoHasExponent(n);
    }
    if exists k: nat :: n == Pow2(k) {
      var k: nat :| n == Pow2(k);
      PowerOfTwoIsPow2(k);
    }
  }

  /** `GetMipLevel`: halves a width until it reaches 16. The source asserts
      that the width is a power of two; a power of two below 16 would halve
      past 16 forever, so the width must also be at least 16. */
  function GetMipLevel(cellVoxelsWidth: int): (mipLevel: nat)
    requires IsAPowerOfTwo(cellVoxelsWidth) && cellVoxelsWidth >= BaseCellSize
    ensures BaseCellSize * Pow2(mipLevel) == cellVoxelsWidth
    decreases cellVoxelsWidth
  {
    if cellVoxelsWidth == BaseCellSize then 0
    else
      assert cellVoxelsWidth / 2 >= BaseCellSize by {
        var k := PowerOfTwoHasExponent(cellVoxelsWidth);
        assert Pow2(4) == 16;
        if k < 4 {
          Pow2Monotone(k, 4);
        } else if 4 < k - 1 {
          Pow2Monotone(4, k - 1);
        }
      }
      1 + GetMipLevel(cellVoxelsWidth / 2)
  }

  /** Mip level and block size are inverse to one another. */
  lemma MipLevelOfSize(m: nat)
    ensures IsAPowerOfTwo(BaseCellSize * Pow2(m))
    ensures GetMipLevel(BaseCellSize * Pow2(m)) == m
  {
    assert BaseCellSize * Pow2(m) == Pow2(m + 4) by { Pow2Add4(m); }
    PowerOfTwoIsPow2(m + 4);
    var r := GetMipLevel(BaseCellSize * Pow2(m));
    Pow2Injective(r, m);
  }

  lemma {:induction false} Pow2Add4(m: nat)
    ensures Pow2(m + 4) == BaseCellSize * Pow2(m)
  {
    if m == 0 {
      assert Pow2(4) == 16;
    } else {
      Pow2Add4(m - 1);
      assert Pow2(m + 4) == 2 * Pow2(m + 3);
    }
  }

  /** `IsPointInCube`: half-open on every axis. */
  predicate IsPointInCube(point: Vec3, cubeBottomLeft: Vec3, cubeSizeVoxels: int) {
    && cubeBottomLeft.x <= point.x < cubeBottomLeft.x + cubeSizeVoxels
    && cubeBottomLeft.y <= point.y < cubeBottomLeft.y + cubeSizeVoxels
    && cubeBottomLeft.z <= point.z < cubeBottomLeft.z + cubeSizeVoxels
  }

  /** An octant index 0..7: bit 0 selects the x half, bit 1 the y half and
      bit 2 the z half (`x | y << 1 | z << 2`). */
  type Octant = i: nat | i < 8

  function OctantBits(i: Octant): (r: Vec3)
    ensures 0 <= r.x <= 1 && 0 <= r.y <= 1 && 0 <= r.z <= 1
    ensures r.x + 2 * r.y + 4 * r.z == i
  {
    Vec3(i % 2, (i / 2) % 2, i / 4)
  }

  /** Bottom-left corner of octant `i` of a cube: `bl + (x,y,z) * size/2`. */
  function ChildBottomLeft(bl: Vec3, size: int, i: Octant): Vec3 {
    bl.Add(OctantBits(i).Scale(size / 2))
  }

  /** The octant of a cube that holds `p`, computed by comparing each axis
      with the cube's midpoint. */
  function OctantOf(p: Vec3, bl: Vec3, size: int): Octant {
    var half := size / 2;
    (if p.x >= bl.x + half then 1 else 0)
    + 2 * (if p.y >= bl.y + half then 1 else 0)
    + 4 * (if p.z >= bl.z + half then 1 else 0)
  }

  /** A point of a cube of even size lies in exactly one of its eight
      half-size sub-cubes, the one `OctantOf` names. */
  lemma OctantPartition(p: Vec3, bl: Vec3, size: int, i: Octant)
    requires size >= 2 && size % 2 == 0
    requires IsPointInCube(p, bl, size)
    ensures IsPointInCube(p, ChildBottomLeft(bl, size, i), size / 2) <==> i == OctantOf(p, bl, size)
  {
  }

  /** `FindChildContainingPoint`'s search: the z, y, x loops visit octants in
      increasing index order and stop at the first sub-cube holding the
      point. */
  function FirstOctantContaining(p: Vec3, bl: Vec3, size: int, from: nat): (r: Option<Octant>)
    requires from <= 8
    ensures r.Some? ==> from <= r.value && IsPointInCube(p, ChildBottomLeft(bl, size, r.value), size / 2)
    ensures r.Some? ==> forall j: Octant :: from <= j < r.value ==> !IsPointInCube(p, ChildBottomLeft(bl, size, j), size / 2)
    ensures r.None? ==> forall j: Octant :: from <= j ==> !IsPointInCube(p, ChildBottomLeft(bl, size, j), size / 2)
    decreases 8 - from
  {
    if from == 8 then None
    else if IsPointInCube(p, ChildBottomLeft(bl, size, from), size / 2) then Some(from)
    else FirstOctantContaining(p, bl, size, from + 1)
  }

  /** The search finds the octant the midpoint comparison computes. */
  lemma FindChildMatchesOctantOf(p: Vec3, bl: Vec3, size: int)
    requires size >= 2 && size % 2 == 0
    requires IsPointInCube(p, bl, size)
    ensures FirstOctantContaining(p, bl, size, 0) == Some(OctantOf(p, bl, size))
  {
    var o := OctantOf(p, bl, size);
    OctantPartition(p, bl, size, o);
    var r := FirstOctantContaining(p, bl, size, 0);
    if r.Some? {
      OctantPartition(p, bl, size, r.value);
    }
  }

  /** The child cube holding a point lies inside its parent. */
  lemma ChildCubeInside(p: Vec3, bl: Vec3, size: int)
    requires size >= 2 && size % 2 == 0
    requires IsPointInCube(p, bl, size)
    ensures IsPointInCube(p, ChildBottomLeft(bl, size, OctantOf(p, bl, size)), size / 2)
  {
    OctantPartition(p, bl, size, OctantOf(p, bl, size));
  }
}
