/** Points, sizes and rotation-free transforms, and the fixed layer heights. */
module Geometry {

  datatype Vec3 = Vec3(x: real, y: real, z: real)

  /** A point of a plane: trace points are (x, z) pairs, shape points are (x, y) of the board outline. */
  datatype Point2 = Point2(x: real, y: real)

  datatype Size = Size(w: real, h: real)

  /** An instance matrix built as makeScale followed by setPosition: a scale and a translation, no rotation. */
  datatype Transform = Transform(scale: Vec3, translation: Vec3)

  const Origin: Vec3 := Vec3(0.0, 0.0, 0.0)

  /** Layer heights of the layer constants table. */
  const TOP_COPPER: real := 0.05
  const TOP_PAD: real := 0.052
  const BOTTOM_COPPER: real := -0.05
  const BOTTOM_PAD: real := -0.052

  const TOP_LAYER: string := "top"

  /** Height of a pad instance: only the exact layer name "top" counts as top. */
  function PadHeight(layer: string): real
  {
    if layer == TOP_LAYER then TOP_PAD else BOTTOM_PAD
  }

  /** Height of a trace segment. */
  function CopperHeight(layer: string): real
  {
    if layer == TOP_LAYER then TOP_COPPER else BOTTOM_COPPER
  }

  function Midpoint(a: Vec3, b: Vec3): Vec3
  {
    Vec3((a.x + b.x) / 2.0, (a.y + b.y) / 2.0, (a.z + b.z) / 2.0)
  }

  function DistanceSquared(a: Vec3, b: Vec3): real
  {
    (b.x - a.x) * (b.x - a.x) + (b.y - a.y) * (b.y - a.y) + (b.z - a.z) * (b.z - a.z)
  }
}
