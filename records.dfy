/** The plain records the build passes between host and device. Unsigned
    32-bit fields are `nat`; see README for the widths left unmodelled. */
module Records {
  import opened Aabb

  /** A triangle's box and its position in the index list. */
  datatype Primitive = Primitive(aabb: AABB, index: nat)

  /** What `primitives.resize` value-initialises an entry to. */
  function DefaultPrimitive(): Primitive { Primitive(Empty(), 0) }

  /** The per-triangle record uploaded to the key stage (a local struct of
      the build, its six floats held here as one box). */
  datatype Element = Element(primitiveIdx: nat, box: AABB)

  /** What `std::vector<Element>(n)` zero-initialises an entry to. */
  function DefaultElement(): Element { Element(0, AABB(Splat(0.0), Splat(0.0))) }

  datatype MortonCodeElement = MortonCodeElement(mortonCode: nat, elementIdx: nat)

  /** A float read back from the device: a real number, or NaN / +-Inf. */
  datatype Coord = Finite(value: real) | NonFinite

  datatype LBVHNode = LBVHNode(
    left: int, right: int, primitiveIdx: nat,
    aabbMinX: Coord, aabbMinY: Coord, aabbMinZ: Coord,
    aabbMaxX: Coord, aabbMaxY: Coord, aabbMaxZ: Coord)
}
