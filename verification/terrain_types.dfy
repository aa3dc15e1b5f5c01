/** Scalar and vector types shared by the terrain engine model.

    The engine's fixed-width integers are modelled as subsets of `int`, so
    arithmetic on them is exact; every place where the C++ code truncates or
    wraps does so explicitly in the module that models it. */
module TerrainTypes {

  /** A value that may be absent: a null pointer or a missing child. */
  datatype Option<+T> = None | Some(value: T)

  /** `i8`: a signed 8-bit voxel density. */
  type i8 = x: int | -128 <= x < 128

  /** `u8`: one byte of a file or of a heap block. */
  type u8 = x: int | 0 <= x < 256

  const U32_MODULUS: nat := 0x1_0000_0000
  const U64_MODULUS: nat := 0x1_0000_0000_0000_0000
  /** The largest value an `i32` holds. */
  const I32_MAX: nat := 0x7FFF_FFFF

  /** `u32` and `u64` as bounded naturals. */
  type u32 = x: int | 0 <= x < 0x1_0000_0000
  type u64 = x: int | 0 <= x < 0x1_0000_0000_0000_0000

  /** `glm::ivec3`: an integer point or offset in voxel units. */
  datatype Vec3 = Vec3(x: int, y: int, z: int) {
    function Add(o: Vec3): Vec3 { Vec3(x + o.x, y + o.y, z + o.z) }
    function Sub(o: Vec3): Vec3 { Vec3(x - o.x, y - o.y, z - o.z) }
    function Scale(k: int): Vec3 { Vec3(k * x, k * y, k * z) }
  }

  /** Two's-complement reinterpretation of a voxel as a raw byte, as happens
      when an `i8` buffer is written through a `char*`. */
  function ByteOfVoxel(v: i8): u8 {
    if v < 0 then v + 256 else v
  }

  function VoxelOfByte(b: u8): i8 {
    if b >= 128 then b - 256 else b
  }

  lemma VoxelByteRoundTrip(v: i8, b: u8)
    ensures VoxelOfByte(ByteOfVoxel(v)) == v
    ensures ByteOfVoxel(VoxelOfByte(b)) == b
  {
  }
}
