/** The trace mesh builder: every consecutive point pair of a trace becomes one box-shaped
    scene node tagged with the trace's id. */
module Traces {
  import opened Wrappers
  import opened Geometry
  import opened Records
  import Seqs

  /** Box height of every segment. */
  const SEGMENT_THICKNESS: real := 0.01

  /** One segment node. `uid` is the node's identity in the scene; `position` starts at the midpoint of
      the pair, `facing` is the far end the node was turned toward, `lengthSq` the squared box length. */
  datatype Segment = Segment(
    uid: nat, tag: string, width: real, thickness: real, lengthSq: real,
    position: Vec3, facing: Vec3, hovered: bool, selected: bool)

  /** The trace records, the group of segment nodes and the next unused node identity. */
  datatype TraceSystem = TraceSystem(traces: seq<Trace>, group: seq<Segment>, nextUid: nat) {
    /** Node identities increase along the group and are all below nextUid. */
    predicate Valid()
    {
      && (forall i :: 0 <= i < |group| ==> group[i].uid < nextUid)
      && (forall i, j :: 0 <= i < j < |group| ==> group[i].uid < group[j].uid)
    }
  }

  /** An empty system whose new nodes get identities from `nextUid` on. */
  function Empty(nextUid: nat): (ts: TraceSystem)
    ensures ts.Valid() && ts.traces == [] && ts.group == []
  {
    TraceSystem([], [], nextUid)
  }

  /** A trace point lifted to the segment height. */
  function Lift(p: Point2, height: real): Vec3
  {
    Vec3(p.x, height, p.y)
  }

  function MakeSegment(t: Trace, i: nat, uid: nat): Segment
    requires i + 1 < |t.points|
  {
    var h := CopperHeight(t.layer);
    var p1 := Lift(t.points[i], h);
    var p2 := Lift(t.points[i + 1], h);
    Segment(uid, t.id, t.width, SEGMENT_THICKNESS, DistanceSquared(p1, p2), Midpoint(p1, p2), p2, false, false)
  }

  /** Node `s` is the box over points k and k+1 of `t`: tagged with the trace id, as wide as the trace,
      0.01 thick, as long as the pair is apart, centred on the pair at the layer's copper height, unflagged. */
  ghost predicate Spans(s: Segment, t: Trace, k: nat, uid: nat)
    requires k + 1 < |t.points|
  {
    var h := CopperHeight(t.layer);
    var a := t.points[k];
    var c := t.points[k + 1];
    && s.uid == uid && s.tag == t.id
    && s.width == t.width && s.thickness == 0.01
    && s.lengthSq == (c.x - a.x) * (c.x - a.x) + (c.y - a.y) * (c.y - a.y)
    && s.position == Vec3((a.x + c.x) / 2.0, h, (a.y + c.y) / 2.0)
    && s.facing == Vec3(c.x, h, c.y)
    && !s.hovered && !s.selected
  }

  lemma MakeSegmentSpans(t: Trace, k: nat, uid: nat)
    requires k + 1 < |t.points|
    ensures Spans(MakeSegment(t, k, uid), t, k, uid)
  {
    var h := CopperHeight(t.layer);
    assert (h - h) * (h - h) == 0.0;
    assert (h + h) / 2.0 == h;
  }

  /** The for-loop of addTrace from pair `i` on, numbering nodes from `uid`. */
  function Emit(t: Trace, i: nat, uid: nat): (r: seq<Segment>)
    ensures |r| == if i + 1 < |t.points| then |t.points| - 1 - i else 0
    ensures forall k :: 0 <= k < |r| ==> r[k] == MakeSegment(t, i + k, uid + k)
    decreases |t.points| - i
  {
    if i + 1 >= |t.points| then [] else [MakeSegment(t, i, uid)] + Emit(t, i + 1, uid + 1)
  }

  /** The segments of a trace of N points: max(N-1, 0) nodes, node k spanning points k and k+1,
      all tagged with the trace id and unflagged. */
  function SegmentsOf(t: Trace, firstUid: nat): (r: seq<Segment>)
    ensures |r| == if |t.points| > 0 then |t.points| - 1 else 0
    ensures forall k :: 0 <= k < |r| ==> Spans(r[k], t, k, firstUid + k)
  {
    var r := Emit(t, 0, firstUid);
    forall k | 0 <= k < |r|
      ensures Spans(r[k], t, k, firstUid + k)
    {
      MakeSegmentSpans(t, k, firstUid + k);
    }
    r
  }

  /** The record addTrace stores: the type defaults to `path` only when it is missing. */
  function Typed(t: Trace): (r: Trace)
    ensures r.kind == (if t.kind == "" then PATH_TYPE else t.kind)
    ensures r.(kind := t.kind) == t
  {
    if t.kind == "" then t.(kind := PATH_TYPE) else t
  }

  /** addTrace: append the record and one node per consecutive point pair. */
  function AddTrace(ts: TraceSystem, t: Trace): (r: TraceSystem)
    requires ts.Valid()
    ensures r.Valid()
    ensures r.traces == ts.traces + [Typed(t)]
    ensures r.group == ts.group + SegmentsOf(Typed(t), ts.nextUid)
    ensures r.nextUid == ts.nextUid + |SegmentsOf(Typed(t), ts.nextUid)|
  {
    var segs := SegmentsOf(Typed(t), ts.nextUid);
    var r := TraceSystem(ts.traces + [Typed(t)], ts.group + segs, ts.nextUid + |segs|);
    assert forall i :: 0 <= i < |r.group| ==> r.group[i].uid < r.nextUid by {
      forall i | 0 <= i < |r.group| ensures r.group[i].uid < r.nextUid {
        if i >= |ts.group| {
          assert r.group[i] == segs[i - |ts.group|];
        }
      }
    }
    r
  }

  /** The nodes addTrace builds for each trace of `ts` in turn, numbering them from `firstUid`. */
  function NodesOf(ts: seq<Trace>, firstUid: nat): seq<Segment>
  {
    if |ts| == 0 then []
    else SegmentsOf(ts[0], firstUid) + NodesOf(ts[1..], firstUid + |SegmentsOf(ts[0], firstUid)|)
  }

  /** Numbering traces in two runs gives the same nodes as numbering them in one, the second run
      starting where the first stopped. */
  lemma {:induction false} NodesOfAppend(a: seq<Trace>, c: seq<Trace>, firstUid: nat, restUid: nat)
    requires restUid == firstUid + |NodesOf(a, firstUid)|
    ensures NodesOf(a + c, firstUid) == NodesOf(a, firstUid) + NodesOf(c, restUid)
    decreases |a|
  {
    if |a| == 0 {
      assert a + c == c;
    } else {
      var head := SegmentsOf(a[0], firstUid);
      var next := firstUid + |head|;
      assert (a + c)[0] == a[0];
      assert (a + c)[1..] == a[1..] + c;
      NodesOfAppend(a[1..], c, next, restUid);
      Seqs.Associative(head, NodesOf(a[1..], next), NodesOf(c, restUid));
    }
  }

  /** The group without the nodes tagged `id`, in order. */
  function WithoutTag(group: seq<Segment>, id: string): (r: seq<Segment>)
    ensures forall s :: s in r <==> s in group && s.tag != id
    ensures |r| <= |group|
  {
    if |group| == 0 then []
    else if group[0].tag == id then WithoutTag(group[1..], id)
    else [group[0]] + WithoutTag(group[1..], id)
  }

  /** deleteTrace: when a record has the id, remove the first such record and every node tagged with it. */
  function DeleteTrace(ts: TraceSystem, id: string): (r: TraceSystem)
    requires ts.Valid()
    ensures r.Valid() && r.nextUid == ts.nextUid
    ensures (forall j :: 0 <= j < |ts.traces| ==> ts.traces[j].id != id) ==> r == ts
    ensures forall k :: 0 <= k < |ts.traces| && ts.traces[k].id == id && (forall j :: 0 <= j < k ==> ts.traces[j].id != id) ==>
      && r.traces == ts.traces[..k] + ts.traces[k + 1..]
      && forall s :: s in r.group <==> s in ts.group && s.tag != id
  {
    match Seqs.FirstIndexOf(ts.traces, TraceId, id)
    case None => ts
    case Some(k) =>
      var g := WithoutTag(ts.group, id);
      KeptInOrder(ts.group, id);
      TraceSystem(Seqs.RemoveAt(ts.traces, k), g, ts.nextUid)
  }

  /** Removing tagged nodes keeps the remaining identities increasing. */
  lemma {:induction false} KeptInOrder(group: seq<Segment>, id: string)
    requires forall i, j :: 0 <= i < j < |group| ==> group[i].uid < group[j].uid
    ensures forall i, j :: 0 <= i < j < |WithoutTag(group, id)| ==> WithoutTag(group, id)[i].uid < WithoutTag(group, id)[j].uid
    decreases |group|
  {
    if |group| > 0 {
      KeptInOrder(group[1..], id);
      var rest := WithoutTag(group[1..], id);
      forall s | s in rest ensures group[0].uid < s.uid {
        assert s in group[1..];
        var j :| 0 <= j < |group[1..]| && group[1..][j] == s;
        assert group[1..][j] == group[j + 1];
      }
    }
  }
}
