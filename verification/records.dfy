/** The layout records: what a layout document holds and what the systems store. */
module Records {
  import opened Wrappers
  import opened Geometry

  const CIRCLE_TYPE: string := "smd_circle"
  const RECT_TYPE: string := "smd_rect"
  const PATH_TYPE: string := "path"
  const HOLE_TYPE: string := "hole"

  /** A surface-mount pad; `kind` is the record's `type` string. */
  datatype Pad = Pad(id: string, kind: string, pos: Vec3, size: Size, layer: string)

  /** A copper trace through a polyline of (x, z) points. */
  datatype Trace = Trace(id: string, kind: string, points: seq<Point2>, width: real, layer: string)

  /** A drill hole. */
  datatype Hole = Hole(id: string, pos: Vec3, diameter: real)

  datatype BoardDims = BoardDims(width: real, height: real, thickness: real)

  /** One entry of a document's component list. The variant fixes which fields the record carries;
      a record whose type is none of the known ones is `OtherRecord`. */
  datatype Component =
    | PadRecord(pad: Pad)
    | TraceRecord(trace: Trace)
    | HoleRecord(hole: Hole)
    | OtherRecord(kind: string)

  /** The `type` field of a component. */
  function TypeOf(c: Component): string
  {
    match c
    case PadRecord(p) => p.kind
    case TraceRecord(t) => t.kind
    case HoleRecord(_) => HOLE_TYPE
    case OtherRecord(k) => k
  }

  /** A layout document; a missing component list is the empty list. */
  datatype Document = Document(board: Option<BoardDims>, components: seq<Component>)

  function PadId(p: Pad): string { p.id }
  function TraceId(t: Trace): string { t.id }
}
