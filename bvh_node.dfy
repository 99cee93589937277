/** Node records shared by the builder and its consumers (Source/BVHBuilder.h). */
module BVHNodes {

  /** Sentinel stored in a 32-bit index field that refers to no node and no primitive. */
  const InvalidMask: nat := 0xFFFF_FFFF

  /** High-bit leaf flag declared beside InvalidMask; the builder never applies it. */
  const LeafMask: nat := 0x8000_0000

  /** Number of distinct 32-bit words. */
  const WordModulus: nat := 0x1_0000_0000

  /** A position or extent; coordinates are exact reals standing for the source's floats. */
  datatype Vec3 = Vec3(x: real, y: real, z: real)

  const Zero: Vec3 := Vec3(0.0, 0.0, 0.0)

  function Coord(v: Vec3, axis: nat): real
    requires axis < 3
  {
    if axis == 0 then v.x else if axis == 1 then v.y else v.z
  }

  function Sub(a: Vec3, b: Vec3): Vec3
  {
    Vec3(a.x - b.x, a.y - b.y, a.z - b.z)
  }

  function MinReal(a: real, b: real): real { if a <= b then a else b }

  function MaxReal(a: real, b: real): real { if a >= b then a else b }

  function MinVec(a: Vec3, b: Vec3): Vec3
  {
    Vec3(MinReal(a.x, b.x), MinReal(a.y, b.y), MinReal(a.z, b.z))
  }

  function MaxVec(a: Vec3, b: Vec3): Vec3
  {
    Vec3(MaxReal(a.x, b.x), MaxReal(a.y, b.y), MaxReal(a.z, b.z))
  }

  /** A 32-bit unsigned sum, wrapping at 2^32. */
  function AddU32(a: nat, b: nat): nat
  {
    (a + b) % WordModulus
  }

  /** The linearised node handed to the caller: bounds, primitive id or InvalidMask, skip pointer. */
  datatype BVHNode = BVHNode(bboxMin: Vec3, prim: nat, bboxMax: Vec3, next: nat)

  predicate IsLeaf(n: BVHNode)
  {
    n.prim != InvalidMask
  }

  /** A default-constructed node: no primitive and no successor. */
  function DefaultNode(): (n: BVHNode)
    ensures !IsLeaf(n) && n.next == InvalidMask
  {
    BVHNode(Zero, InvalidMask, Zero, InvalidMask)
  }

  /**
   * One packed record: four 32-bit words. The first three words carry the
   * bit patterns of the three floats of `xyz`, the fourth is the integer `w`.
   */
  datatype PackedNode = PackedNode(xyz: Vec3, w: nat)
}
