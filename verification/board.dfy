/** The board substrate: a rectangular outline perforated by one circular cutout per hole,
    extruded to the board thickness. */
module BoardShape {
  import opened Wrappers
  import opened Geometry
  import opened Records

  const DEFAULT_WIDTH: real := 100.0
  const DEFAULT_HEIGHT: real := 80.0
  const DEFAULT_THICKNESS: real := 1.6

  /** Constructor options; a missing option is None. */
  datatype BoardOptions = BoardOptions(width: Option<real>, height: Option<real>, thickness: Option<real>)

  datatype Circle = Circle(center: Point2, radius: real)

  /** The extruded shape: outline corners in drawing order, cutouts, extrusion depth. */
  datatype Shape = Shape(outline: seq<Point2>, cutouts: seq<Circle>, depth: real)

  datatype Board = Board(width: real, height: real, thickness: real, shape: Shape)

  /** `option || fallback`: a missing or zero option is falsy. */
  function OrDefault(o: Option<real>, fallback: real): real
  {
    if o.Some? && o.value != 0.0 then o.value else fallback
  }

  /** The outline path: moveTo and three lineTo calls, then closed. */
  function Outline(width: real, height: real): (r: seq<Point2>)
    ensures |r| == 4
    ensures r[0] == Point2(-width / 2.0, -height / 2.0)
    // every edge is axis-aligned
    ensures r[1].y == r[0].y && r[2].x == r[1].x && r[3].y == r[2].y && r[0].x == r[3].x
    // opposite corners are mirror images through the origin
    ensures r[2] == Point2(-r[0].x, -r[0].y) && r[3] == Point2(-r[1].x, -r[1].y)
  {
    [Point2(-width / 2.0, -height / 2.0), Point2(width / 2.0, -height / 2.0),
     Point2(width / 2.0, height / 2.0), Point2(-width / 2.0, height / 2.0)]
  }

  /** One cutout per hole, in hole order: centred at (pos[0], pos[2]) with half the diameter as radius. */
  function Cutouts(holes: seq<Hole>): (r: seq<Circle>)
    ensures |r| == |holes|
    ensures forall i :: 0 <= i < |r| ==>
      r[i].center == Point2(holes[i].pos.x, holes[i].pos.z) && r[i].radius * 2.0 == holes[i].diameter
  {
    if |holes| == 0 then []
    else [Circle(Point2(holes[0].pos.x, holes[0].pos.z), holes[0].diameter / 2.0)] + Cutouts(holes[1..])
  }

  /** create(holes) with the stored dimensions. */
  function Create(width: real, height: real, thickness: real, holes: seq<Hole>): Shape
  {
    Shape(Outline(width, height), Cutouts(holes), thickness)
  }

  /** The constructor: each dimension falls back to its own default, and no cutouts. */
  function NewBoard(opts: BoardOptions): (b: Board)
    ensures b.width == (if opts.width.Some? && opts.width.value != 0.0 then opts.width.value else 100.0)
    ensures b.height == (if opts.height.Some? && opts.height.value != 0.0 then opts.height.value else 80.0)
    ensures b.thickness == (if opts.thickness.Some? && opts.thickness.value != 0.0 then opts.thickness.value else 1.6)
    ensures b.shape.cutouts == [] && b.shape.depth == b.thickness
  {
    var w := OrDefault(opts.width, DEFAULT_WIDTH);
    var h := OrDefault(opts.height, DEFAULT_HEIGHT);
    var t := OrDefault(opts.thickness, DEFAULT_THICKNESS);
    Board(w, h, t, Create(w, h, t, []))
  }

  /** updateDimensions: store the three dimensions and rebuild the shape with the given holes. */
  function UpdateDimensions(b: Board, width: real, height: real, thickness: real, holes: seq<Hole>): (r: Board)
    ensures r.width == width && r.height == height && r.thickness == thickness
    ensures r.shape.depth == thickness && r.shape.outline == Outline(width, height)
    ensures |r.shape.cutouts| == |holes|
    ensures forall i :: 0 <= i < |holes| ==>
      r.shape.cutouts[i] == Circle(Point2(holes[i].pos.x, holes[i].pos.z), holes[i].diameter / 2.0)
  {
    Board(width, height, thickness, Create(width, height, thickness, holes))
  }
}
