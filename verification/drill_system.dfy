/** The hole batch renderer: one instanced batch of open cylinders, one slot per hole. */
module Drills {
  import opened Wrappers
  import opened Geometry
  import opened Records

  /** Instances when the system is initialised without a count. */
  const DEFAULT_HOLE_CAPACITY: nat := 500

  /** The thickness the hole cylinders are sized for; fixed, whatever the board's own thickness. */
  const DRILL_THICKNESS: real := 1.6

  const HOLE_MESH: string := "PCB_DrillHoles"

  /** Prefix of generated hole ids; the random part is supplied from outside. */
  const HOLE_ID_PREFIX: string := "hole_"

  datatype HoleBatch = HoleBatch(slots: seq<Transform>, count: nat, visible: bool)

  datatype DrillSystem = DrillSystem(holes: seq<Hole>, capacity: nat, batch: HoleBatch) {
    /** One written slot per hole, within capacity, visible iff non-empty. */
    predicate Valid()
    {
      && |holes| <= capacity
      && batch.count == |holes| && |batch.slots| == |holes|
      && batch.visible == (|holes| > 0)
    }
  }

  /** init(count): an empty, invisible batch. */
  function Init(capacity: nat): (d: DrillSystem)
    ensures d.Valid() && d.holes == [] && d.capacity == capacity && !d.batch.visible
  {
    DrillSystem([], capacity, HoleBatch([], 0, false))
  }

  /** The instance matrix of one hole. */
  function HoleSlot(h: Hole): Transform
  {
    Transform(
      Vec3(h.diameter, DRILL_THICKNESS + 0.1, h.diameter),
      Vec3(h.pos.x, -DRILL_THICKNESS / 2.0, h.pos.z))
  }

  /** The forEach of updateHoles: slot i gets hole i, scaled by the diameter to a 1.7 high cylinder
      centred 0.8 below the top surface. */
  function WriteSlots(holes: seq<Hole>): (r: seq<Transform>)
    ensures |r| == |holes|
    ensures forall i :: 0 <= i < |r| ==>
      && r[i].scale == Vec3(holes[i].diameter, 1.7, holes[i].diameter)
      && r[i].translation == Vec3(holes[i].pos.x, -0.8, holes[i].pos.z)
  {
    if |holes| == 0 then [] else WriteSlots(holes[..|holes| - 1]) + [HoleSlot(holes[|holes| - 1])]
  }

  /** updateHoles: every hole in its own slot, count and visibility from the hole count;
      more holes than slots is reported instead of written past the end of the batch. */
  function UpdateHoles(d: DrillSystem): (r: Result<DrillSystem>)
    ensures r.Success? <==> |d.holes| <= d.capacity
    ensures r.Failure? ==> r.error == CapacityExceeded(HOLE_MESH, d.capacity)
    ensures r.Success? ==> r.value.Valid() && r.value.holes == d.holes && r.value.capacity == d.capacity
    ensures r.Success? ==> forall i :: 0 <= i < |d.holes| ==>
      && r.value.batch.slots[i].scale == Vec3(d.holes[i].diameter, 1.7, d.holes[i].diameter)
      && r.value.batch.slots[i].translation == Vec3(d.holes[i].pos.x, -0.8, d.holes[i].pos.z)
  {
    if |d.holes| > d.capacity then Failure(CapacityExceeded(HOLE_MESH, d.capacity))
    else Success(DrillSystem(d.holes, d.capacity, HoleBatch(WriteSlots(d.holes), |d.holes|, |d.holes| > 0)))
  }

  /** addHole: append a record of id, position and diameter only; a missing id is replaced by a generated one. */
  function AddHole(d: DrillSystem, h: Hole, suffix: string): (r: Result<DrillSystem>)
    ensures r.Success? <==> |d.holes| < d.capacity
    ensures r.Success? ==> r.value.Valid() && |r.value.holes| == |d.holes| + 1 && r.value.holes[..|d.holes|] == d.holes
    ensures r.Success? ==>
      var n := r.value.holes[|d.holes|];
      && n.pos == h.pos && n.diameter == h.diameter
      && n.id == (if h.id != "" then h.id else HOLE_ID_PREFIX + suffix)
  {
    var n := Hole(if h.id != "" then h.id else HOLE_ID_PREFIX + suffix, h.pos, h.diameter);
    assert (d.holes + [n])[..|d.holes|] == d.holes;
    UpdateHoles(d.(holes := d.holes + [n]))
  }
}
