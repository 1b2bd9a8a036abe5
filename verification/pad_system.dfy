/** The pad batch renderer: an ordered pad sequence projected into two instanced batches,
    one of circular pads and one of all other pads. */
module Pads {
  import opened Wrappers
  import opened Geometry
  import opened Records
  import Seqs

  /** Instances per batch when the system is initialised without a count. */
  const DEFAULT_CAPACITY: nat := 1000

  const CIRCLE_MESH: string := "SMD_Pads_Circle"
  const RECT_MESH: string := "SMD_Pads_Rect"

  datatype Batch = CircleBatch | RectBatch

  /** The batch a pad is drawn in: circles are exactly the `smd_circle` pads, every other type is drawn as a rectangle. */
  function BatchOf(p: Pad): Batch
  {
    if p.kind == CIRCLE_TYPE then CircleBatch else RectBatch
  }

  /** Reference definition of a batch's contents: the pads drawn by batch `b`, in sequence order. */
  function OfBatch(pads: seq<Pad>, b: Batch): seq<Pad>
  {
    if |pads| == 0 then []
    else (if BatchOf(pads[0]) == b then [pads[0]] else []) + OfBatch(pads[1..], b)
  }

  /** The pads whose type string is exactly `t`, in sequence order. */
  function OfType(pads: seq<Pad>, t: string): seq<Pad>
  {
    if |pads| == 0 then []
    else (if pads[0].kind == t then [pads[0]] else []) + OfType(pads[1..], t)
  }

  /** The instance matrix of a pad: footprint as x/z scale, x/z position, height from the layer. */
  function PadSlot(p: Pad): Transform
  {
    Transform(Vec3(p.size.w, 1.0, p.size.h), Vec3(p.pos.x, PadHeight(p.layer), p.pos.z))
  }

  function SlotsOf(ps: seq<Pad>): seq<Transform>
  {
    seq(|ps|, i requires 0 <= i < |ps| => PadSlot(ps[i]))
  }

  /** One instanced mesh: its written slots (exactly `count` of them), the visible flag and the
      slots whose hovered / selected attribute is 1. */
  datatype InstanceBatch = InstanceBatch(slots: seq<Transform>, count: nat, visible: bool, hovered: set<nat>, selected: set<nat>)

  datatype PadSystem = PadSystem(pads: seq<Pad>, capacity: nat, circles: InstanceBatch, rects: InstanceBatch) {

    function Get(b: Batch): InstanceBatch
    {
      if b == CircleBatch then circles else rects
    }

    function With(b: Batch, ib: InstanceBatch): PadSystem
    {
      if b == CircleBatch then this.(circles := ib) else this.(rects := ib)
    }

    /** Every batch counts exactly the pads it draws, within capacity, and is visible iff non-empty. */
    predicate Valid()
    {
      && BatchValid(circles, |OfBatch(pads, CircleBatch)|, capacity)
      && BatchValid(rects, |OfBatch(pads, RectBatch)|, capacity)
    }
  }

  /** Rebuilt batches: slot k of each batch holds the footprint of the k-th pad drawn by that batch. */
  predicate DrawsPads(s: PadSystem)
  {
    s.Valid() && forall b, k :: 0 <= k < s.Get(b).count ==> s.Get(b).slots[k] == PadSlot(OfBatch(s.pads, b)[k])
  }

  predicate BatchValid(ib: InstanceBatch, n: nat, capacity: nat)
  {
    ib.count == n && n <= capacity && |ib.slots| == n && ib.visible == (n > 0)
  }

  /** Both batches of `pads` fit the capacity. */
  predicate Fits(pads: seq<Pad>, capacity: nat)
  {
    |OfBatch(pads, CircleBatch)| <= capacity && |OfBatch(pads, RectBatch)| <= capacity
  }

  /** A freshly filled batch: count and visibility from the written slots, all flags 0. */
  function Filled(slots: seq<Transform>): InstanceBatch
  {
    InstanceBatch(slots, |slots|, |slots| > 0, {}, {})
  }

  /** init(count): empty, invisible batches of the given capacity. */
  function Init(capacity: nat): (s: PadSystem)
    ensures s.Valid() && s.pads == [] && s.capacity == capacity
    ensures forall b :: s.Get(b).count == 0 && !s.Get(b).visible
  {
    PadSystem([], capacity, Filled([]), Filled([]))
  }

  lemma SlotsOfCons(p: Pad, ps: seq<Pad>)
    ensures SlotsOf([p] + ps) == [PadSlot(p)] + SlotsOf(ps)
  {
    assert forall i :: 0 <= i < |ps| + 1 ==> ([p] + ps)[i] == if i == 0 then p else ps[i - 1];
  }

  /** The forEach of updatePads: each pad's matrix is appended to its batch's written slots. */
  function Fill(pads: seq<Pad>, circ: seq<Transform>, rect: seq<Transform>): (r: (seq<Transform>, seq<Transform>))
    ensures r.0 == circ + SlotsOf(OfBatch(pads, CircleBatch))
    ensures r.1 == rect + SlotsOf(OfBatch(pads, RectBatch))
    decreases |pads|
  {
    if |pads| == 0 then (circ, rect)
    else
      var p := pads[0];
      SlotsOfCons(p, OfBatch(pads[1..], BatchOf(p)));
      assert SlotsOf([] + OfBatch(pads[1..], if BatchOf(p) == CircleBatch then RectBatch else CircleBatch))
          == SlotsOf(OfBatch(pads[1..], if BatchOf(p) == CircleBatch then RectBatch else CircleBatch));
      if p.kind == CIRCLE_TYPE then Fill(pads[1..], circ + [PadSlot(p)], rect)
      else Fill(pads[1..], circ, rect + [PadSlot(p)])
  }

  /** updatePads: zero every flag, write each pad into the next slot of its batch, set counts and visibility.
      A batch that would exceed its capacity is reported instead of written past its end. */
  function UpdatePads(s: PadSystem): (r: Result<PadSystem>)
    ensures r.Success? <==> Fits(s.pads, s.capacity)
    ensures r.Failure? ==> r.error.capacity == s.capacity
    ensures r.Success? ==> r.value.Valid() && r.value.pads == s.pads && r.value.capacity == s.capacity
    ensures r.Success? ==> forall b :: r.value.Get(b).hovered == {} && r.value.Get(b).selected == {}
    ensures r.Success? ==> forall b, k :: 0 <= k < r.value.Get(b).count ==>
      var q := OfBatch(s.pads, b)[k];
      r.value.Get(b).slots[k] == Transform(Vec3(q.size.w, 1.0, q.size.h), Vec3(q.pos.x, PadHeight(q.layer), q.pos.z))
  {
    var (circ, rect) := Fill(s.pads, [], []);
    assert circ == SlotsOf(OfBatch(s.pads, CircleBatch));
    assert rect == SlotsOf(OfBatch(s.pads, RectBatch));
    if |circ| > s.capacity then Failure(CapacityExceeded(CIRCLE_MESH, s.capacity))
    else if |rect| > s.capacity then Failure(CapacityExceeded(RECT_MESH, s.capacity))
    else Success(PadSystem(s.pads, s.capacity, Filled(circ), Filled(rect)))
  }

  lemma {:induction false} OfBatchAppend(a: seq<Pad>, c: seq<Pad>, b: Batch)
    ensures OfBatch(a + c, b) == OfBatch(a, b) + OfBatch(c, b)
    decreases |a|
  {
    if |a| == 0 {
      assert a + c == c;
    } else {
      assert (a + c)[1..] == a[1..] + c;
      OfBatchAppend(a[1..], c, b);
    }
  }

  /** The two batches split the pad sequence: every pad is drawn by exactly one of them, so their
      counts add up to the number of pads, and the circle batch draws exactly the `smd_circle` pads. */
  lemma BatchesPartition(pads: seq<Pad>)
    ensures multiset(OfBatch(pads, CircleBatch)) + multiset(OfBatch(pads, RectBatch)) == multiset(pads)
    ensures |OfBatch(pads, CircleBatch)| + |OfBatch(pads, RectBatch)| == |pads|
    ensures OfBatch(pads, CircleBatch) == OfType(pads, CIRCLE_TYPE)
  {
    BatchesCover(pads);
    CircleBatchIsCircles(pads);
    assert |multiset(OfBatch(pads, CircleBatch))| + |multiset(OfBatch(pads, RectBatch))| == |multiset(pads)|;
  }

  lemma {:induction false} BatchesCover(pads: seq<Pad>)
    ensures multiset(OfBatch(pads, CircleBatch)) + multiset(OfBatch(pads, RectBatch)) == multiset(pads)
    decreases |pads|
  {
    if |pads| > 0 {
      var p, rest := pads[0], pads[1..];
      BatchesCover(rest);
      assert pads == [p] + rest;
      var c := if BatchOf(p) == CircleBatch then [p] else [];
      var r := if BatchOf(p) == RectBatch then [p] else [];
      assert multiset(c) + multiset(r) == multiset([p]);
      assert multiset(OfBatch(pads, CircleBatch)) == multiset(c) + multiset(OfBatch(rest, CircleBatch));
      assert multiset(OfBatch(pads, RectBatch)) == multiset(r) + multiset(OfBatch(rest, RectBatch));
    }
  }

  lemma {:induction false} CircleBatchIsCircles(pads: seq<Pad>)
    ensures OfBatch(pads, CircleBatch) == OfType(pads, CIRCLE_TYPE)
    decreases |pads|
  {
    if |pads| > 0 {
      CircleBatchIsCircles(pads[1..]);
    }
  }

  /** A batch draws exactly the pads of the sequence that belong to it. */
  lemma {:induction false} OfBatchMembers(pads: seq<Pad>, b: Batch)
    ensures forall p :: p in OfBatch(pads, b) <==> p in pads && BatchOf(p) == b
    decreases |pads|
  {
    if |pads| > 0 {
      OfBatchMembers(pads[1..], b);
      assert pads == [pads[0]] + pads[1..];
    }
  }

  /** addPad: the pad goes at the end of the sequence and the batches are rebuilt. */
  function AddPad(s: PadSystem, p: Pad): (r: Result<PadSystem>)
    ensures r.Success? <==> Fits(s.pads, s.capacity) && |OfBatch(s.pads, BatchOf(p))| < s.capacity
    ensures r.Success? ==> |r.value.pads| == |s.pads| + 1 && r.value.pads[..|s.pads|] == s.pads && r.value.pads[|s.pads|] == p
    ensures r.Success? ==> r.value.Valid() && r.value.capacity == s.capacity
    ensures r.Success? ==> forall b :: r.value.Get(b).hovered == {} && r.value.Get(b).selected == {}
    ensures r.Success? ==> r.value.Get(BatchOf(p)).count == |OfBatch(s.pads, BatchOf(p))| + 1
    ensures r.Success? ==> forall b :: b != BatchOf(p) ==> r.value.Get(b).count == |OfBatch(s.pads, b)|
    ensures r.Success? ==> DrawsPads(r.value)
  {
    OfBatchAppend(s.pads, [p], CircleBatch);
    OfBatchAppend(s.pads, [p], RectBatch);
    assert (s.pads + [p])[..|s.pads|] == s.pads;
    UpdatePads(s.(pads := s.pads + [p]))
  }

  /** The position of pads[j] inside its batch: how many earlier pads share its batch. */
  function SlotOf(pads: seq<Pad>, j: nat): nat
    requires j < |pads|
  {
    |OfBatch(pads[..j], BatchOf(pads[j]))|
  }

  /** Slot assignment: pads[j] is drawn in slot SlotOf(pads, j) of its own batch. */
  lemma PadOccupiesItsSlot(pads: seq<Pad>, j: nat)
    requires j < |pads|
    ensures SlotOf(pads, j) < |OfBatch(pads, BatchOf(pads[j]))|
    ensures OfBatch(pads, BatchOf(pads[j]))[SlotOf(pads, j)] == pads[j]
  {
    var b := BatchOf(pads[j]);
    assert pads == pads[..j] + pads[j..];
    OfBatchAppend(pads[..j], pads[j..], b);
    assert pads[j..][1..] == pads[j + 1..];
    assert OfBatch(pads[j..], b) == [pads[j]] + OfBatch(pads[j + 1..], b);
  }

  /** Slot order is sequence order: of two pads in the same batch, the earlier one has the lower slot. */
  lemma SlotOrderFollowsSequence(pads: seq<Pad>, i: nat, j: nat)
    requires i < j < |pads| && BatchOf(pads[i]) == BatchOf(pads[j])
    ensures SlotOf(pads, i) < SlotOf(pads, j)
  {
    var b := BatchOf(pads[i]);
    assert pads[..j] == pads[..i] + pads[i..j];
    OfBatchAppend(pads[..i], pads[i..j], b);
    assert pads[i..j][1..] == pads[i + 1..j];
    assert OfBatch(pads[i..j], b) == [pads[i]] + OfBatch(pads[i + 1..j], b);
  }

  /** The type string getPadByInstance looks for: derived from the mesh name. */
  function InstanceType(b: Batch): string
  {
    if b == CircleBatch then CIRCLE_TYPE else RECT_TYPE
  }

  /** The scan of getPadByInstance, having already passed `found` pads of type `t`. */
  function FindInstance(pads: seq<Pad>, t: string, i: nat, found: nat): (r: Option<Pad>)
    requires found <= i
    ensures r.Some? <==> i - found < |OfType(pads, t)|
    ensures r.Some? ==> r.value == OfType(pads, t)[i - found]
    decreases |pads|
  {
    if |pads| == 0 then None
    else if pads[0].kind == t then
      (if found == i then Some(pads[0]) else FindInstance(pads[1..], t, i, found + 1))
    else FindInstance(pads[1..], t, i, found)
  }

  /** getPadByInstance: the i-th pad, in sequence order, whose type is the batch's type string; None past the end. */
  function PadByInstance(pads: seq<Pad>, b: Batch, i: nat): (r: Option<Pad>)
    ensures r.Some? <==> i < |OfType(pads, InstanceType(b))|
    ensures r.Some? ==> r.value == OfType(pads, InstanceType(b))[i]
  {
    FindInstance(pads, InstanceType(b), i, 0)
  }

  /** Every pad has one of the two pad types that documents can carry. */
  predicate KnownTypes(pads: seq<Pad>)
  {
    forall k :: 0 <= k < |pads| ==> pads[k].kind == CIRCLE_TYPE || pads[k].kind == RECT_TYPE
  }

  lemma {:induction false} OfTypeIsOfBatch(pads: seq<Pad>, b: Batch)
    requires KnownTypes(pads)
    ensures OfType(pads, InstanceType(b)) == OfBatch(pads, b)
    decreases |pads|
  {
    if |pads| > 0 {
      assert KnownTypes(pads[1..]) by {
        forall k | 0 <= k < |pads[1..]| ensures pads[1..][k].kind == CIRCLE_TYPE || pads[1..][k].kind == RECT_TYPE {
          assert pads[1..][k] == pads[k + 1];
        }
      }
      OfTypeIsOfBatch(pads[1..], b);
    }
  }

  /** getPadByInstance inverts slot assignment: the slot lookup finds exactly the pad drawn there,
      and nothing past the batch's count. */
  lemma PadByInstanceInvertsSlots(pads: seq<Pad>, b: Batch, i: nat)
    requires KnownTypes(pads)
    ensures PadByInstance(pads, b, i) == if i < |OfBatch(pads, b)| then Some(OfBatch(pads, b)[i]) else None
  {
    OfTypeIsOfBatch(pads, b);
  }

  /** The round trip from a pad to its slot and back. */
  lemma PadByInstanceFindsEveryPad(pads: seq<Pad>, j: nat)
    requires KnownTypes(pads) && j < |pads|
    ensures PadByInstance(pads, BatchOf(pads[j]), SlotOf(pads, j)) == Some(pads[j])
  {
    PadOccupiesItsSlot(pads, j);
    PadByInstanceInvertsSlots(pads, BatchOf(pads[j]), SlotOf(pads, j));
  }

  /** A pad of any other type is drawn in the rectangle batch, but getPadByInstance, which looks for
      `smd_rect`, finds it in no slot. */
  lemma OtherTypeDrawnButNotFound(pads: seq<Pad>, p: Pad)
    requires p in pads && p.kind != CIRCLE_TYPE && p.kind != RECT_TYPE
    ensures p in OfBatch(pads, RectBatch)
    ensures forall i :: PadByInstance(pads, RectBatch, i) != Some(p)
  {
    OfBatchMembers(pads, RectBatch);
    OfTypeMembers(pads, RECT_TYPE);
  }

  /** OfType keeps exactly the pads of the sequence with that type. */
  lemma {:induction false} OfTypeMembers(pads: seq<Pad>, t: string)
    ensures forall q :: q in OfType(pads, t) <==> q in pads && q.kind == t
    decreases |pads|
  {
    if |pads| > 0 {
      OfTypeMembers(pads[1..], t);
      assert pads == [pads[0]] + pads[1..];
    }
  }

  lemma {:induction false} RemoveAtOfBatch(pads: seq<Pad>, k: nat, b: Batch)
    requires k < |pads|
    ensures |OfBatch(Seqs.RemoveAt(pads, k), b)| == |OfBatch(pads, b)| - (if BatchOf(pads[k]) == b then 1 else 0)
  {
    assert pads == pads[..k] + ([pads[k]] + pads[k + 1..]);
    OfBatchAppend(pads[..k], [pads[k]] + pads[k + 1..], b);
    OfBatchAppend([pads[k]], pads[k + 1..], b);
    OfBatchAppend(pads[..k], pads[k + 1..], b);
    assert OfBatch([pads[k]], b) == (if BatchOf(pads[k]) == b then [pads[k]] else []) + OfBatch([], b);
  }

  /** deletePad: remove the first pad with the id, keep the others in order and rebuild;
      nothing at all happens (not even a rebuild) when no pad has the id. */
  function DeletePad(s: PadSystem, id: string): (r: PadSystem)
    requires s.Valid()
    ensures r.Valid() && r.capacity == s.capacity
    ensures (forall j :: 0 <= j < |s.pads| ==> s.pads[j].id != id) ==> r == s
    ensures forall k :: 0 <= k < |s.pads| && s.pads[k].id == id && (forall j :: 0 <= j < k ==> s.pads[j].id != id) ==>
      && r.pads == s.pads[..k] + s.pads[k + 1..] && DrawsPads(r)
      && forall b :: r.Get(b).hovered == {} && r.Get(b).selected == {}
  {
    match Seqs.FirstIndexOf(s.pads, PadId, id)
    case None => s
    case Some(k) =>
      RemoveAtOfBatch(s.pads, k, CircleBatch);
      RemoveAtOfBatch(s.pads, k, RectBatch);
      UpdatePads(s.(pads := Seqs.RemoveAt(s.pads, k))).value
  }

  /** Replace pads[i] by a pad of the same type, without a rebuild (the selection write-back does this). */
  lemma {:induction false} ReplaceKeepsBatches(pads: seq<Pad>, i: nat, q: Pad, b: Batch)
    requires i < |pads| && q.kind == pads[i].kind
    ensures |OfBatch(pads[i := q], b)| == |OfBatch(pads, b)|
    decreases |pads|
  {
    if i > 0 {
      assert pads[i := q][1..] == pads[1..][i - 1 := q];
      ReplaceKeepsBatches(pads[1..], i - 1, q, b);
    }
  }
}
