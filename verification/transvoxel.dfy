/** The Transvoxel table types of Lengyel's dissertation "Voxel-Based
    Terrain for Real-Time Virtual Simulations": the packed vertex and
    triangle counts of a cell class (sections 3.2 and 4.3) and the
    case-to-class tables. The tables' contents are defined outside the
    engine's headers, so they enter as parameters, constrained by the shape
    the headers declare. */
module Transvoxel {
  import opened TerrainTypes

  /** `RegularCellData`: an 8-bit `geometryCounts` (vertex count in the
      high nibble, triangle count in the low one) and 15 vertex indices,
      room for at most 5 triangles although the nibble could count 15. */
  datatype RegularCellData = RegularCellData(geometryCounts: u8, vertexIndex: seq<u8>)
  {
    /** `geometryCounts >> 4` on an unsigned byte. */
    function GetVertexCount(): (r: nat)
      ensures r < 16
    {
      geometryCounts as nat / 16
    }

    /** `geometryCounts & 0x0F`. */
    function GetTriangleCount(): (r: nat)
      ensures r < 16
    {
      geometryCounts as nat % 16
    }
  }

  /** `TransitionCellData`: the counts are a signed `long`, and 36 vertex
      indices follow, room for at most 12 triangles. `>>` on a signed value shifts arithmetically and `&`
      works on the two's-complement bits, which is division rounding down
      and the non-negative remainder: Dafny's `/` and `%` by a positive
      divisor. */
  datatype TransitionCellData = TransitionCellData(geometryCounts: int, vertexIndex: seq<u8>)
  {
    function GetVertexCount(): int {
      geometryCounts / 16
    }

    function GetTriangleCount(): (r: nat)
      ensures r < 16
    {
      geometryCounts % 16
    }
  }

  /** Packing a vertex count and a triangle count into one value. */
  function PackCounts(vertexCount: nat, triangleCount: nat): nat {
    vertexCount * 16 + triangleCount
  }

  /** A regular cell's counts unpack to what was packed, for counts that fit
      a nibble each; and every byte is such a packing. */
  lemma RegularCountsRoundTrip(v: nat, t: nat)
    requires v < 16 && t < 16
    ensures PackCounts(v, t) < 256
    ensures var c := RegularCellData(PackCounts(v, t) as u8, []);
      c.GetVertexCount() == v && c.GetTriangleCount() == t
  {
  }

  lemma RegularCountsComplete(c: RegularCellData)
    ensures PackCounts(c.GetVertexCount(), c.GetTriangleCount()) == c.geometryCounts as nat
  {
  }

  /** A transition cell's vertex count is not limited to a nibble: any
      count packs and unpacks, as long as the triangle count fits. */
  lemma TransitionCountsRoundTrip(v: nat, t: nat)
    requires t < 16
    ensures var c := TransitionCellData(PackCounts(v, t), []);
      c.GetVertexCount() == v && c.GetTriangleCount() == t
  {
  }

  /** A negative `long` count unpacks to a negative vertex count and a
      triangle count in 0..15. */
  lemma NegativeTransitionCounts(c: TransitionCellData)
    requires c.geometryCounts < 0
    ensures c.GetVertexCount() < 0 && c.GetTriangleCount() < 16
  {
  }

  // ---------------------------------------------------------------------
  // Case-to-class tables

  const RegularClassCount: nat := 16
  const TransitionClassCount: nat := 56

  /** `regularCellClass[256]`: every entry names one of the 16 entries of
      `regularCellData`. */
  predicate RegularClassTable(classes: seq<u8>) {
    |classes| == 256 && forall k :: 0 <= k < 256 ==> (classes[k] as nat) < RegularClassCount
  }

  /** `transitionCellClass[512]`: the low 7 bits name one of the 56 entries
      of `transitionCellData`, the high bit marks reversed winding. */
  predicate TransitionClassTable(classes: seq<u8>) {
    |classes| == 512 && forall k :: 0 <= k < 512 ==> (classes[k] as nat) % 128 < TransitionClassCount
  }

  /** The triangulation data for an 8-bit regular case. */
  function RegularCellFor(classes: seq<u8>, data: seq<RegularCellData>, caseIndex: u8): (c: RegularCellData)
    requires RegularClassTable(classes) && |data| == RegularClassCount
    ensures exists k :: 0 <= k < |data| && c == data[k]
  {
    data[classes[caseIndex]]
  }

  /** A transition class entry split into the class and the winding flag. */
  datatype TransitionClass = TransitionClass(index: nat, reversed: bool)

  function TransitionClassOf(classes: seq<u8>, caseIndex: nat): (r: TransitionClass)
    requires TransitionClassTable(classes) && caseIndex < 512
    ensures r.index < TransitionClassCount
  {
    var b := classes[caseIndex] as nat;
    TransitionClass(b % 128, b >= 128)
  }

  /** The split is lossless: class and flag give back the table byte. */
  lemma TransitionClassRoundTrip(classes: seq<u8>, caseIndex: nat)
    requires TransitionClassTable(classes) && caseIndex < 512
    ensures var r := TransitionClassOf(classes, caseIndex);
      classes[caseIndex] as nat == (if r.reversed then 128 else 0) + r.index
  {
  }
}
