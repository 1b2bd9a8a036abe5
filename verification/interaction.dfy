/** The pointer and gizmo state machine of the editor: hover and selection highlighting over pad
    instances and trace segment nodes, the transform widget with its write-back, and the selection
    report handed to the side panel. The ray caster is an oracle: every pointer event carries the
    nearest hit, if any. */
module Interaction {
  import opened Wrappers
  import opened Geometry
  import opened Records
  import opened Pads
  import opened Traces
  import opened Layout

  /** Math.PI, as a real constant; floating-point rounding is not modelled. */
  const PI: real := 3.141592653589793

  const CIRCLE_LABEL: string := "Circular Pad"
  const PAD_LABEL: string := "Pad"

  /** What a ray can hit: one instance of a pad batch, or one trace segment node, named by its
      scene identity and the trace id it is tagged with. */
  datatype Target = Inst(batch: Batch, slot: nat) | Node(uid: nat, tag: string)

  /** The two per-target highlight flags: the aHovered / aSelected instance attributes of a batch,
      the uHovered / uSelected uniforms of a node. */
  datatype Flag = HoverFlag | SelectFlag

  /** Where the transform widget is attached: nowhere, to the proxy standing in for a pad instance,
      or directly to a segment node (whose position it carries). */
  datatype Widget = Detached | OnProxy | OnNode(uid: nat, position: Vec3)

  datatype Cursor = DefaultCursor | PointerCursor | AutoCursor

  /** The component data handed to the selection listener. */
  datatype Info = Info(id: string, kind: string, pos: Vec3, size: Size, area: real)

  /** The interaction manager over its layout. `callback` is the proxy's onUpdate hook, which
      remembers the instance it writes back to; `emitted` logs every call of the selection
      listener, None for a cleared selection. */
  datatype Engine = Engine(
    layout: Manager,
    hovered: Option<Target>,
    selected: Option<Target>,
    proxy: Transform,
    widget: Widget,
    callback: Option<Target>,
    dragging: bool,
    orbitEnabled: bool,
    cursor: Cursor,
    emitted: seq<Option<Info>>)

  // ---------------------------------------------------------------------------------------------
  // Flags

  function BatchFlags(ib: InstanceBatch, f: Flag): set<nat>
  {
    if f == HoverFlag then ib.hovered else ib.selected
  }

  function SegmentFlag(s: Segment, f: Flag): bool
  {
    if f == HoverFlag then s.hovered else s.selected
  }

  /** The nodes of a group whose flag `f` is 1. */
  function NodesFlagged(group: seq<Segment>, f: Flag): set<Target>
  {
    set s | s in group && SegmentFlag(s, f) :: Node(s.uid, s.tag)
  }

  /** Every target whose flag `f` is currently 1. */
  function Flagged(m: Manager, f: Flag): set<Target>
  {
    (set i | i in BatchFlags(m.pads.circles, f) :: Inst(CircleBatch, i))
    + (set i | i in BatchFlags(m.pads.rects, f) :: Inst(RectBatch, i))
    + NodesFlagged(m.traces.group, f)
  }

  lemma InstFlagged(m: Manager, f: Flag, b: Batch, i: nat)
    ensures Inst(b, i) in Flagged(m, f) <==> i in BatchFlags(m.pads.Get(b), f)
  {
    if i in BatchFlags(m.pads.Get(b), f) {
      if b == CircleBatch {
        assert Inst(b, i) in (set j | j in BatchFlags(m.pads.circles, f) :: Inst(CircleBatch, j));
      } else {
        assert Inst(b, i) in (set j | j in BatchFlags(m.pads.rects, f) :: Inst(RectBatch, j));
      }
    }
  }

  /** The first node of a group with the given identity and tag. */
  function NodeAt(group: seq<Segment>, uid: nat, tag: string): (r: Option<Segment>)
    ensures r.Some? ==> r.value in group && r.value.uid == uid && r.value.tag == tag
    ensures r.None? ==> forall s :: s in group ==> !(s.uid == uid && s.tag == tag)
  {
    if |group| == 0 then None
    else if group[0].uid == uid && group[0].tag == tag then Some(group[0])
    else NodeAt(group[1..], uid, tag)
  }

  /** A target the ray caster can report: a drawn instance, or a node still in the trace group. */
  predicate Pickable(m: Manager, t: Target)
  {
    match t
    case Inst(b, i) => i < |m.pads.Get(b).slots|
    case Node(u, g) => NodeAt(m.traces.group, u, g).Some?
  }

  function Plain(s: Segment): Segment
  {
    s.(hovered := false, selected := false)
  }

  /** Two groups that hold the same nodes, flags aside. */
  predicate SameNodes(g1: seq<Segment>, g2: seq<Segment>)
  {
    |g1| == |g2| && forall k :: 0 <= k < |g1| ==> Plain(g1[k]) == Plain(g2[k])
  }

  predicate SameBatch(a: InstanceBatch, c: InstanceBatch)
  {
    a.slots == c.slots && a.count == c.count && a.visible == c.visible
  }

  /** Two layouts that differ at most in their highlight flags. */
  predicate SameLayout(m: Manager, r: Manager)
  {
    && r.board == m.board && r.drills == m.drills
    && r.pads.pads == m.pads.pads && r.pads.capacity == m.pads.capacity
    && SameBatch(r.pads.circles, m.pads.circles) && SameBatch(r.pads.rects, m.pads.rects)
    && r.traces.traces == m.traces.traces && r.traces.nextUid == m.traces.nextUid
    && SameNodes(m.traces.group, r.traces.group)
  }

  lemma {:induction false} SameNodesFind(g1: seq<Segment>, g2: seq<Segment>, uid: nat, tag: string)
    requires SameNodes(g1, g2)
    ensures NodeAt(g1, uid, tag).Some? <==> NodeAt(g2, uid, tag).Some?
    ensures NodeAt(g1, uid, tag).Some? ==> Plain(NodeAt(g1, uid, tag).value) == Plain(NodeAt(g2, uid, tag).value)
    decreases |g1|
  {
    if |g1| > 0 {
      assert Plain(g1[0]) == Plain(g2[0]);
      assert SameNodes(g1[1..], g2[1..]) by {
        forall k | 0 <= k < |g1[1..]| ensures Plain(g1[1..][k]) == Plain(g2[1..][k]) {
          assert Plain(g1[k + 1]) == Plain(g2[k + 1]);
        }
      }
      SameNodesFind(g1[1..], g2[1..], uid, tag);
    }
  }

  /** Flags are drawn over the layout, not part of it: validity and pickability ignore them. */
  lemma SameLayoutKeeps(m: Manager, r: Manager)
    requires SameLayout(m, r)
    ensures m.Valid() <==> r.Valid()
    ensures forall t :: Pickable(m, t) <==> Pickable(r, t)
  {
    var g1, g2 := m.traces.group, r.traces.group;
    assert forall k :: 0 <= k < |g1| ==> g1[k].uid == Plain(g1[k]).uid == Plain(g2[k]).uid == g2[k].uid;
    forall t ensures Pickable(m, t) <==> Pickable(r, t) {
      if t.Node? {
        SameNodesFind(g1, g2, t.uid, t.tag);
      }
    }
  }

  function Put(s: set<nat>, i: nat, v: bool): set<nat>
  {
    if v then s + {i} else s - {i}
  }

  function SetFlag(s: Segment, f: Flag, v: bool): Segment
  {
    if f == HoverFlag then s.(hovered := v) else s.(selected := v)
  }

  function WriteBatchFlag(ib: InstanceBatch, i: nat, f: Flag, v: bool): InstanceBatch
  {
    if f == HoverFlag then ib.(hovered := Put(ib.hovered, i, v)) else ib.(selected := Put(ib.selected, i, v))
  }

  function MarkNodes(group: seq<Segment>, uid: nat, tag: string, f: Flag, v: bool): (r: seq<Segment>)
    ensures |r| == |group|
    ensures forall k :: 0 <= k < |group| ==>
      r[k] == if group[k].uid == uid && group[k].tag == tag then SetFlag(group[k], f, v) else group[k]
  {
    seq(|group|, k requires 0 <= k < |group| =>
      if group[k].uid == uid && group[k].tag == tag then SetFlag(group[k], f, v) else group[k])
  }

  /** Marking one node's segments keeps the group's nodes, leaves every other node's flag `f` and
      every other flag as it was, and sets flag `f` of the node to `v` (raising needs the node present). */
  lemma MarkNodesFlags(group: seq<Segment>, uid: nat, tag: string, f: Flag, v: bool)
    ensures SameNodes(group, MarkNodes(group, uid, tag, f, v))
    ensures forall x :: x != Node(uid, tag) ==> (x in NodesFlagged(MarkNodes(group, uid, tag, f, v), f) <==> x in NodesFlagged(group, f))
    ensures forall g :: g != f ==> NodesFlagged(MarkNodes(group, uid, tag, f, v), g) == NodesFlagged(group, g)
    ensures v && NodeAt(group, uid, tag).Some? ==> Node(uid, tag) in NodesFlagged(MarkNodes(group, uid, tag, f, v), f)
    ensures !v ==> Node(uid, tag) !in NodesFlagged(MarkNodes(group, uid, tag, f, v), f)
  {
    var r := MarkNodes(group, uid, tag, f, v);
    forall x | x != Node(uid, tag)
      ensures x in NodesFlagged(r, f) <==> x in NodesFlagged(group, f)
    {
      MarkNodesOtherNode(group, uid, tag, f, v, x);
    }
    forall g | g != f
      ensures NodesFlagged(r, g) == NodesFlagged(group, g)
    {
      MarkNodesOtherFlag(group, uid, tag, f, v, g);
    }
    if v && NodeAt(group, uid, tag).Some? {
      var s := NodeAt(group, uid, tag).value;
      var k :| 0 <= k < |group| && group[k] == s;
      assert r[k] == SetFlag(s, f, v);
    }
    if !v {
      forall s | s in r && s.uid == uid && s.tag == tag
        ensures !SegmentFlag(s, f)
      {
        var k :| 0 <= k < |r| && r[k] == s;
      }
    }
  }

  lemma MarkNodesOtherNode(group: seq<Segment>, uid: nat, tag: string, f: Flag, v: bool, x: Target)
    requires x != Node(uid, tag)
    ensures x in NodesFlagged(MarkNodes(group, uid, tag, f, v), f) <==> x in NodesFlagged(group, f)
  {
    var r := MarkNodes(group, uid, tag, f, v);
    if x in NodesFlagged(r, f) {
      var s :| s in r && SegmentFlag(s, f) && x == Node(s.uid, s.tag);
      var k :| 0 <= k < |r| && r[k] == s;
      assert group[k] == s;
    }
    if x in NodesFlagged(group, f) {
      var s :| s in group && SegmentFlag(s, f) && x == Node(s.uid, s.tag);
      var k :| 0 <= k < |group| && group[k] == s;
      assert r[k] == s;
    }
  }

  lemma MarkNodesOtherFlag(group: seq<Segment>, uid: nat, tag: string, f: Flag, v: bool, g: Flag)
    requires g != f
    ensures NodesFlagged(MarkNodes(group, uid, tag, f, v), g) == NodesFlagged(group, g)
  {
    var r := MarkNodes(group, uid, tag, f, v);
    forall x | x in NodesFlagged(r, g) ensures x in NodesFlagged(group, g) {
      var s :| s in r && SegmentFlag(s, g) && x == Node(s.uid, s.tag);
      var k :| 0 <= k < |r| && r[k] == s;
      assert SegmentFlag(group[k], g) && group[k].uid == s.uid && group[k].tag == s.tag;
    }
    forall x | x in NodesFlagged(group, g) ensures x in NodesFlagged(r, g) {
      var s :| s in group && SegmentFlag(s, g) && x == Node(s.uid, s.tag);
      var k :| 0 <= k < |group| && group[k] == s;
      assert SegmentFlag(r[k], g) && r[k].uid == s.uid && r[k].tag == s.tag;
    }
  }

  /** setHoverState and the selected-attribute writes: raise (v) or lower (!v) flag `f` of one target.
      An instance attribute is written whatever the batch's count; a node's uniform only if the node
      is still in the group. */
  function WriteFlag(m: Manager, t: Target, f: Flag, v: bool): (r: Manager)
    ensures SameLayout(m, r)
    ensures forall x :: x != t ==> (x in Flagged(r, f) <==> x in Flagged(m, f))
    ensures forall g :: g != f ==> Flagged(r, g) == Flagged(m, g)
    ensures v && Pickable(m, t) ==> t in Flagged(r, f)
    ensures !v ==> t !in Flagged(r, f)
  {
    match t
    case Inst(b, i) =>
      var r := m.(pads := m.pads.With(b, WriteBatchFlag(m.pads.Get(b), i, f, v)));
      forall x ensures x != t ==> (x in Flagged(r, f) <==> x in Flagged(m, f)) {
        if x.Inst? {
          InstFlagged(r, f, x.batch, x.slot);
          InstFlagged(m, f, x.batch, x.slot);
        }
      }
      forall g | g != f ensures Flagged(r, g) == Flagged(m, g) {
        forall x ensures x in Flagged(r, g) <==> x in Flagged(m, g) {
          if x.Inst? {
            InstFlagged(r, g, x.batch, x.slot);
            InstFlagged(m, g, x.batch, x.slot);
          }
        }
      }
      InstFlagged(r, f, b, i);
      r
    case Node(u, tag) =>
      var r := m.(traces := m.traces.(group := MarkNodes(m.traces.group, u, tag, f, v)));
      MarkNodesFlags(m.traces.group, u, tag, f, v);
      forall x ensures x != t ==> (x in Flagged(r, f) <==> x in Flagged(m, f)) {
        if x.Inst? {
          InstFlagged(r, f, x.batch, x.slot);
          InstFlagged(m, f, x.batch, x.slot);
        }
      }
      forall g | g != f ensures Flagged(r, g) == Flagged(m, g) {
        forall x ensures x in Flagged(r, g) <==> x in Flagged(m, g) {
          if x.Inst? {
            InstFlagged(r, g, x.batch, x.slot);
            InstFlagged(m, g, x.batch, x.slot);
          }
        }
      }
      r
  }

  /** A flag set inside the singleton of an optional target holds at most that one target. */
  lemma AtMostOne(s: set<Target>, o: Option<Target>)
    requires s <= AsSet(o)
    ensures |s| <= 1
  {
    if o.Some? && s != {} {
      assert s == {o.value};
    }
  }

  /** A structural operation that raises no flag leaves every flag set shrunk. */
  lemma FewerFlags(m: Manager, r: Manager, f: Flag)
    requires NoNewFlags(m, r)
    ensures Flagged(r, f) <= Flagged(m, f)
  {
    forall x | x in Flagged(r, f) ensures x in Flagged(m, f) {
      if x.Inst? {
        InstFlagged(r, f, x.batch, x.slot);
        InstFlagged(m, f, x.batch, x.slot);
      } else {
        var s :| s in r.traces.group && SegmentFlag(s, f) && x == Node(s.uid, s.tag);
        assert s in m.traces.group;
      }
    }
  }

  /** Two layouts with the same batch flags and the same flagged nodes have the same flag sets. */
  lemma SameFlags(m: Manager, r: Manager)
    requires forall b, f :: BatchFlags(r.pads.Get(b), f) == BatchFlags(m.pads.Get(b), f)
    requires forall f :: NodesFlagged(r.traces.group, f) == NodesFlagged(m.traces.group, f)
    ensures forall f :: Flagged(r, f) == Flagged(m, f)
  {
    forall f, x ensures x in Flagged(r, f) <==> x in Flagged(m, f) {
      if x.Inst? {
        InstFlagged(r, f, x.batch, x.slot);
        InstFlagged(m, f, x.batch, x.slot);
      }
    }
  }

  /** The identity, tag and flags of a node: all that flag sets look at. */
  function Marks(s: Segment): (nat, string, bool, bool)
  {
    (s.uid, s.tag, s.hovered, s.selected)
  }

  lemma SameMarks(g1: seq<Segment>, g2: seq<Segment>)
    requires |g1| == |g2| && forall k :: 0 <= k < |g1| ==> Marks(g1[k]) == Marks(g2[k])
    ensures forall f :: NodesFlagged(g1, f) == NodesFlagged(g2, f)
  {
    forall f, x ensures x in NodesFlagged(g1, f) <==> x in NodesFlagged(g2, f) {
      if x in NodesFlagged(g1, f) {
        var s :| s in g1 && SegmentFlag(s, f) && x == Node(s.uid, s.tag);
        var k :| 0 <= k < |g1| && g1[k] == s;
        assert Marks(g2[k]) == Marks(s);
        assert g2[k] in g2;
      }
      if x in NodesFlagged(g2, f) {
        var s :| s in g2 && SegmentFlag(s, f) && x == Node(s.uid, s.tag);
        var k :| 0 <= k < |g2| && g2[k] == s;
        assert Marks(g1[k]) == Marks(s);
        assert g1[k] in g1;
      }
    }
  }

  // ---------------------------------------------------------------------------------------------
  // Layout writes made by the widget

  /** The proxy's onUpdate: copy the proxy's matrix into one instance slot. A slot past the written
      ones is never drawn and is overwritten by the next rebuild, so it is left as it is. */
  function WriteSlot(m: Manager, b: Batch, i: nat, tr: Transform): (r: Manager)
    ensures m.Valid() ==> r.Valid()
    ensures i < |m.pads.Get(b).slots| ==> r.pads.Get(b).slots == m.pads.Get(b).slots[i := tr]
    ensures i >= |m.pads.Get(b).slots| ==> r == m
    ensures forall c :: c != b ==> r.pads.Get(c) == m.pads.Get(c)
    ensures r.pads.Get(b) == m.pads.Get(b).(slots := r.pads.Get(b).slots)
    ensures r.pads.pads == m.pads.pads && r.pads.capacity == m.pads.capacity
    ensures r.traces == m.traces && r.board == m.board && r.drills == m.drills
    ensures forall f :: Flagged(r, f) == Flagged(m, f)
    ensures forall t :: Pickable(r, t) <==> Pickable(m, t)
  {
    var ib := m.pads.Get(b);
    var r := if i < |ib.slots| then m.(pads := m.pads.With(b, ib.(slots := ib.slots[i := tr]))) else m;
    SameFlags(m, r);
    r
  }

  /** Store a changed record in place, without a rebuild; its type, hence its batch, is unchanged. */
  function SetPad(m: Manager, k: nat, q: Pad): (r: Manager)
    requires k < |m.pads.pads| && q.kind == m.pads.pads[k].kind
    ensures m.Valid() ==> r.Valid()
    ensures r.pads.pads == m.pads.pads[k := q]
    ensures r.pads.circles == m.pads.circles && r.pads.rects == m.pads.rects && r.pads.capacity == m.pads.capacity
    ensures r.traces == m.traces && r.board == m.board && r.drills == m.drills
    ensures forall f :: Flagged(r, f) == Flagged(m, f)
  {
    ReplaceKeepsBatches(m.pads.pads, k, q, CircleBatch);
    ReplaceKeepsBatches(m.pads.pads, k, q, RectBatch);
    var r := m.(pads := m.pads.(pads := m.pads.pads[k := q]));
    SameFlags(m, r);
    r
  }

  /** The widget dragging a segment node: the node with that identity moves to `p`. */
  function MoveNode(m: Manager, uid: nat, p: Vec3): (r: Manager)
    ensures m.Valid() ==> r.Valid()
    ensures |r.traces.group| == |m.traces.group|
    ensures forall k :: 0 <= k < |m.traces.group| ==>
      r.traces.group[k] == if m.traces.group[k].uid == uid then m.traces.group[k].(position := p) else m.traces.group[k]
    ensures r.pads == m.pads && r.traces.traces == m.traces.traces && r.traces.nextUid == m.traces.nextUid
    ensures r.board == m.board && r.drills == m.drills
    ensures forall f :: Flagged(r, f) == Flagged(m, f)
    ensures forall t :: Pickable(r, t) <==> Pickable(m, t)
  {
    var g := m.traces.group;
    var g2 := seq(|g|, k requires 0 <= k < |g| => if g[k].uid == uid then g[k].(position := p) else g[k]);
    var r := m.(traces := m.traces.(group := g2));
    SameMarks(g, g2);
    SameFlags(m, r);
    assert forall t :: Pickable(r, t) <==> Pickable(m, t) by {
      forall t: Target | t.Node? ensures Pickable(r, t) <==> Pickable(m, t) {
        MovedNodesFind(g, g2, t.uid, t.tag);
      }
    }
    r
  }

  lemma {:induction false} MovedNodesFind(g1: seq<Segment>, g2: seq<Segment>, uid: nat, tag: string)
    requires |g1| == |g2| && forall k :: 0 <= k < |g1| ==> g1[k].uid == g2[k].uid && g1[k].tag == g2[k].tag
    ensures NodeAt(g1, uid, tag).Some? <==> NodeAt(g2, uid, tag).Some?
    decreases |g1|
  {
    if |g1| > 0 {
      MovedNodesFind(g1[1..], g2[1..], uid, tag);
    }
  }

  // ---------------------------------------------------------------------------------------------
  // Hover

  /** clearHover: lower the hovered target's flag and forget it. */
  function ClearHover(e: Engine): (r: Engine)
    ensures r.hovered.None?
    ensures SameLayout(e.layout, r.layout)
    ensures Flagged(r.layout, HoverFlag) == Flagged(e.layout, HoverFlag) - AsSet(e.hovered)
    ensures Flagged(r.layout, SelectFlag) == Flagged(e.layout, SelectFlag)
    ensures r.(layout := e.layout, hovered := e.hovered) == e
  {
    match e.hovered
    case None => e
    case Some(t) => e.(layout := WriteFlag(e.layout, t, HoverFlag, false), hovered := None)
  }

  /** The body of checkHover once its guard has been evaluated to `refresh`: on a hit that passes
      the guard, clear the old hover and raise the new target; on a miss, clear any hover. */
  function HoverStep(e: Engine, hit: Option<Target>, refresh: bool): (r: Engine)
    requires hit.Some? ==> Pickable(e.layout, hit.value)
    ensures SameLayout(e.layout, r.layout)
    ensures Flagged(r.layout, SelectFlag) == Flagged(e.layout, SelectFlag)
    ensures hit.None? ==> r.hovered.None? && Flagged(r.layout, HoverFlag) == Flagged(e.layout, HoverFlag) - AsSet(e.hovered)
    ensures hit.Some? && refresh ==>
      r.hovered == hit && Flagged(r.layout, HoverFlag) == Flagged(e.layout, HoverFlag) - AsSet(e.hovered) + AsSet(hit)
    ensures hit.Some? && !refresh ==> r == e
    ensures r.(layout := e.layout, hovered := e.hovered, cursor := e.cursor) == e
  {
    match hit
    case Some(t) =>
      if refresh then
        var c := ClearHover(e);
        SameLayoutKeeps(e.layout, c.layout);
        var m := WriteFlag(c.layout, t, HoverFlag, true);
        c.(layout := m, hovered := Some(t), cursor := PointerCursor)
      else e
    case None =>
      if e.hovered.Some? then ClearHover(e).(cursor := AutoCursor) else e
  }

  /** checkHover as written: the guard compares the hit with the remembered hover only, so a target
      whose flag a rebuild has lowered is not raised again while the pointer stays on it. */
  function CheckHoverAsWritten(e: Engine, hit: Option<Target>): (r: Engine)
    requires hit.Some? ==> Pickable(e.layout, hit.value)
    ensures r.hovered == hit
    ensures SameLayout(e.layout, r.layout)
    ensures Flagged(e.layout, HoverFlag) <= AsSet(e.hovered) ==> Flagged(r.layout, HoverFlag) <= AsSet(hit)
  {
    HoverStep(e, hit, e.hovered != hit)
  }

  /** checkHover with the guard also testing the target's flag: the pointed target always ends up
      as the one hovered target. */
  function CheckHover(e: Engine, hit: Option<Target>): (r: Engine)
    requires hit.Some? ==> Pickable(e.layout, hit.value)
    ensures r.hovered == hit
    ensures SameLayout(e.layout, r.layout)
    ensures Flagged(r.layout, SelectFlag) == Flagged(e.layout, SelectFlag)
    ensures Flagged(e.layout, HoverFlag) <= AsSet(e.hovered) ==> Flagged(r.layout, HoverFlag) == AsSet(hit)
    ensures r.(layout := e.layout, hovered := e.hovered, cursor := e.cursor) == e
  {
    HoverStep(e, hit, hit.Some? && (e.hovered != hit || hit.value !in Flagged(e.layout, HoverFlag)))
  }

  // ---------------------------------------------------------------------------------------------
  // The record behind a selected instance

  lemma SlotOfTail(pads: seq<Pad>, j: nat)
    requires j + 1 < |pads|
    ensures pads[j + 1] == pads[1..][j]
    ensures SlotOf(pads, j + 1) == SlotOf(pads[1..], j) + (if BatchOf(pads[0]) == BatchOf(pads[j + 1]) then 1 else 0)
  {
    assert pads[..j + 1][1..] == pads[1..][..j];
  }

  /** The sequence index of the pad drawn in slot `i` of batch `b`, the record a selected instance stands for. */
  function SelectedPadIndex(pads: seq<Pad>, b: Batch, i: nat): (r: Option<nat>)
    ensures r.Some? <==> i < |OfBatch(pads, b)|
    ensures r.Some? ==> r.value < |pads| && BatchOf(pads[r.value]) == b && SlotOf(pads, r.value) == i
    decreases |pads|
  {
    if |pads| == 0 then None
    else if BatchOf(pads[0]) == b && i == 0 then
      assert pads[..0] == [];
      Some(0)
    else
      var k := SelectedPadIndex(pads[1..], b, if BatchOf(pads[0]) == b then i - 1 else i);
      if k.Some? then
        SlotOfTail(pads, k.value);
        Some(k.value + 1)
      else None
  }

  /** Every pad is found again from its own slot. */
  lemma {:induction false} SelectedPadIndexInvertsSlot(pads: seq<Pad>, j: nat)
    requires j < |pads|
    ensures SelectedPadIndex(pads, BatchOf(pads[j]), SlotOf(pads, j)) == Some(j)
  {
    var b := BatchOf(pads[j]);
    PadOccupiesItsSlot(pads, j);
    var r := SelectedPadIndex(pads, b, SlotOf(pads, j));
    var k := r.value;
    assert BatchOf(pads[k]) == b && SlotOf(pads, k) == SlotOf(pads, j);
    if k < j {
      SlotOrderFollowsSequence(pads, k, j);
    } else if j < k {
      SlotOrderFollowsSequence(pads, j, k);
    }
  }

  /** The index points at the pad drawn in the slot, which is what getPadByInstance returns for the
      slot whenever every pad has one of the two document pad types. */
  lemma SelectedPadIsDrawnThere(pads: seq<Pad>, b: Batch, i: nat)
    ensures SelectedPadIndex(pads, b, i).Some? ==> pads[SelectedPadIndex(pads, b, i).value] == OfBatch(pads, b)[i]
    ensures KnownTypes(pads) ==>
      PadByInstance(pads, b, i) == if SelectedPadIndex(pads, b, i).Some? then Some(pads[SelectedPadIndex(pads, b, i).value]) else None
  {
    var r := SelectedPadIndex(pads, b, i);
    if r.Some? {
      PadOccupiesItsSlot(pads, r.value);
    }
    if KnownTypes(pads) {
      PadByInstanceInvertsSlots(pads, b, i);
    }
  }

  /** pads[selectedInstanceId] as written: the instance index read as a position in the whole pad sequence. */
  function SelectedPadIndexAsWritten(pads: seq<Pad>, i: nat): (r: Option<nat>)
    ensures r.Some? ==> r.value < |pads|
  {
    if i < |pads| then Some(i) else None
  }

  lemma {:induction false} AllCirclesOneBatch(pads: seq<Pad>)
    requires forall k :: 0 <= k < |pads| ==> pads[k].kind == CIRCLE_TYPE
    ensures OfBatch(pads, CircleBatch) == pads
    decreases |pads|
  {
    if |pads| > 0 {
      assert forall k :: 0 <= k < |pads[1..]| ==> pads[1..][k] == pads[k + 1];
      AllCirclesOneBatch(pads[1..]);
    }
  }

  /** When every pad is circular the whole sequence is the circle batch, and the two lookups agree. */
  lemma AsWrittenAgreesOnCircles(pads: seq<Pad>, i: nat)
    requires forall k :: 0 <= k < |pads| ==> pads[k].kind == CIRCLE_TYPE
    ensures SelectedPadIndexAsWritten(pads, i) == SelectedPadIndex(pads, CircleBatch, i)
  {
    AllCirclesOneBatch(pads);
    if i < |pads| {
      assert forall k :: 0 <= k < |pads[..i]| ==> pads[..i][k] == pads[k];
      AllCirclesOneBatch(pads[..i]);
      SelectedPadIndexInvertsSlot(pads, i);
    }
  }

  /** With a rectangular pad before a circular one, circle instance 0 is the circular pad, but the
      lookup as written returns the rectangular pad. */
  lemma AsWrittenPicksWrongPad()
    ensures
      var pads := [Pad("A", RECT_TYPE, Origin, Size(2.0, 1.0), TOP_LAYER), Pad("B", CIRCLE_TYPE, Origin, Size(1.0, 1.0), TOP_LAYER)];
      && OfBatch(pads, CircleBatch) == [pads[1]]
      && SelectedPadIndex(pads, CircleBatch, 0) == Some(1)
      && SelectedPadIndexAsWritten(pads, 0) == Some(0) && pads[0].id != pads[1].id
  {
    RectThenCircle([Pad("A", RECT_TYPE, Origin, Size(2.0, 1.0), TOP_LAYER), Pad("B", CIRCLE_TYPE, Origin, Size(1.0, 1.0), TOP_LAYER)]);
  }

  /** Any rectangular pad followed by a circular one: circle instance 0 is the second pad, the lookup
      as written gives the first. */
  lemma RectThenCircle(pads: seq<Pad>)
    requires |pads| == 2 && pads[0].kind == RECT_TYPE && pads[1].kind == CIRCLE_TYPE
    ensures OfBatch(pads, CircleBatch) == [pads[1]]
    ensures SelectedPadIndex(pads, CircleBatch, 0) == Some(1)
    ensures SelectedPadIndexAsWritten(pads, 0) == Some(0)
  {
    assert pads[1..] == [pads[1]] && pads[1..][1..] == [];
    assert OfBatch([pads[1]], CircleBatch) == [pads[1]] + OfBatch([], CircleBatch);
    assert OfBatch(pads, CircleBatch) == [] + OfBatch([pads[1]], CircleBatch);
    SelectedPadIndexInvertsSlot(pads, 1);
    assert pads[..1] == [pads[0]];
  }

  // ---------------------------------------------------------------------------------------------
  // Selection

  /** The component data reported for a pad: its id, a label by type, its position and size, and the
      area of the circle whose diameter is the pad's first size component. */
  function PadInfo(q: Pad): (r: Info)
    ensures r.id == q.id && r.pos == q.pos && r.size == q.size
    ensures r.kind == CIRCLE_LABEL <==> q.kind == CIRCLE_TYPE
    ensures r.kind != CIRCLE_LABEL ==> r.kind == PAD_LABEL
    ensures r.area == PI * (q.size.w / 2.0) * (q.size.w / 2.0)
  {
    var radius := 0.5 * q.size.w;
    Info(q.id, if q.kind == CIRCLE_TYPE then CIRCLE_LABEL else PAD_LABEL, q.pos, q.size, PI * radius * radius)
  }

  /** Where the widget holds a node: the node's position (the origin when not on a node). */
  function WidgetPosition(w: Widget): Vec3
  {
    if w.OnNode? then w.position else Origin
  }

  /** updateSelectedData: for an instance, copy the proxy position into the record drawn in the
      selected slot (no rebuild) and report it; for a node, report its tag with placeholder size and
      area. Nothing is reported when no record stands behind the selected slot. */
  function UpdateSelectedData(e: Engine): (r: Engine)
    ensures e.selected.None? ==> r == e
    ensures e.selected.Some? && e.selected.value.Inst? ==>
      var pads := e.layout.pads.pads;
      var j := SelectedPadIndex(pads, e.selected.value.batch, e.selected.value.slot);
      && (j.None? ==> r == e)
      && (j.Some? ==>
            var q := pads[j.value].(pos := e.proxy.translation);
            && r.layout.pads.pads == pads[j.value := q]
            && r.emitted == e.emitted + [Some(PadInfo(q))])
    ensures e.selected.Some? && e.selected.value.Node? ==>
      && r.layout == e.layout
      && r.emitted == e.emitted + [Some(Info(e.selected.value.tag, PATH_TYPE, WidgetPosition(e.widget), Size(1.0, 1.0), 0.0))]
    ensures r.(layout := e.layout, emitted := e.emitted) == e
    ensures e.emitted <= r.emitted
    ensures e.layout.Valid() ==> r.layout.Valid()
    ensures r.layout.pads.circles == e.layout.pads.circles && r.layout.pads.rects == e.layout.pads.rects
    ensures r.layout.traces == e.layout.traces && r.layout.board == e.layout.board && r.layout.drills == e.layout.drills
    ensures forall f :: Flagged(r.layout, f) == Flagged(e.layout, f)
  {
    match e.selected
    case None => e
    case Some(Inst(b, i)) =>
      var pads := e.layout.pads.pads;
      (match SelectedPadIndex(pads, b, i)
       case None => e
       case Some(j) => MoveRecord(e, j))
    case Some(Node(_, tag)) =>
      e.(emitted := e.emitted + [Some(Info(tag, PATH_TYPE, WidgetPosition(e.widget), Size(1.0, 1.0), 0.0))])
  }

  /** Pad record `j` takes the proxy's position, without a rebuild, and is reported. */
  function MoveRecord(e: Engine, j: nat): (r: Engine)
    requires j < |e.layout.pads.pads|
    ensures r.layout.pads.pads == e.layout.pads.pads[j := e.layout.pads.pads[j].(pos := e.proxy.translation)]
    ensures r.emitted == e.emitted + [Some(PadInfo(r.layout.pads.pads[j]))]
  {
    var q := e.layout.pads.pads[j].(pos := e.proxy.translation);
    e.(layout := SetPad(e.layout, j, q), emitted := e.emitted + [Some(PadInfo(q))])
  }

  /** updateSelectedData as written: the record moved and reported is the one at the instance
      index in the whole pad sequence. */
  function UpdateSelectedDataAsWritten(e: Engine): (r: Engine)
    ensures e.selected.Some? && e.selected.value.Inst? ==>
      var pads := e.layout.pads.pads;
      var i := e.selected.value.slot;
      && (i >= |pads| ==> r == e)
      && (i < |pads| ==>
            && r.layout.pads.pads == pads[i := pads[i].(pos := e.proxy.translation)]
            && r.emitted == e.emitted + [Some(PadInfo(pads[i].(pos := e.proxy.translation)))])
    ensures e.selected.None? || e.selected.value.Node? ==> r == UpdateSelectedData(e)
  {
    match e.selected
    case Some(Inst(_, i)) =>
      (match SelectedPadIndexAsWritten(e.layout.pads.pads, i)
       case None => e
       case Some(j) => MoveRecord(e, j))
    case _ => UpdateSelectedData(e)
  }

  /** The proxy's onUpdate hook: write the proxy's matrix into the instance it was bound to. */
  function WriteBack(e: Engine): (r: Engine)
    ensures e.layout.Valid() ==> r.layout.Valid()
    ensures forall f :: Flagged(r.layout, f) == Flagged(e.layout, f)
    ensures forall t :: Pickable(r.layout, t) <==> Pickable(e.layout, t)
    ensures r.layout.pads.pads == e.layout.pads.pads && r.layout.traces == e.layout.traces
    ensures r.(layout := e.layout) == e
  {
    match e.callback
    case Some(Inst(b, i)) => e.(layout := WriteSlot(e.layout, b, i, e.proxy))
    case _ => e
  }

  /** The widget's change listener: an instance selection goes through the proxy's hook (write-back,
      then update), any other selection straight to the update. */
  function Changed(e: Engine): (r: Engine)
  {
    if e.selected.None? then e
    else if e.selected.value.Inst? && e.callback.Some? then UpdateSelectedData(WriteBack(e))
    else UpdateSelectedData(e)
  }

  /** One drag step of the widget to (x, z); the height handle is hidden, so y stays. The widget moves
      what it is attached to (the proxy or a node) and then fires its change listener. */
  function DragTick(e: Engine, x: real, z: real): (r: Engine)
  {
    match e.widget
    case Detached => e
    case OnProxy =>
      Changed(e.(proxy := e.proxy.(translation := Vec3(x, e.proxy.translation.y, z))))
    case OnNode(u, p) =>
      var np := Vec3(x, p.y, z);
      Changed(e.(layout := MoveNode(e.layout, u, np), widget := OnNode(u, np)))
  }

  /** The dragging-changed listener: orbiting is switched off for exactly as long as a drag lasts. */
  function DraggingChanged(e: Engine, value: bool): (r: Engine)
    ensures r.orbitEnabled != r.dragging && r.dragging == value
    ensures r.(dragging := e.dragging, orbitEnabled := e.orbitEnabled) == e
  {
    e.(dragging := value, orbitEnabled := !value)
  }

  /** deselect: when something is selected, lower its flag, detach the widget, drop the hook and
      report an empty selection once; otherwise nothing happens. */
  function Deselect(e: Engine): (r: Engine)
    ensures e.selected.None? ==> r == e
    ensures e.selected.Some? ==>
      && r.selected.None? && r.widget.Detached? && r.callback.None?
      && r.emitted == e.emitted + [None]
      && SameLayout(e.layout, r.layout)
      && Flagged(r.layout, HoverFlag) == Flagged(e.layout, HoverFlag)
      && Flagged(r.layout, SelectFlag) == Flagged(e.layout, SelectFlag) - {e.selected.value}
    ensures r.(layout := e.layout, selected := e.selected, widget := e.widget, callback := e.callback, emitted := e.emitted) == e
  {
    match e.selected
    case None => e
    case Some(t) =>
      e.(layout := WriteFlag(e.layout, t, SelectFlag, false), selected := None, widget := Detached,
         callback := None, emitted := e.emitted + [None])
  }

  /** select: deselect, raise the target's flag, attach the widget (to the proxy, placed on the
      instance's matrix and hooked to write back to it, or to the node itself), then update. */
  function Select(e: Engine, t: Target): (r: Engine)
    requires Pickable(e.layout, t)
    ensures r.selected == Some(t)
    ensures Flagged(r.layout, SelectFlag) == Flagged(e.layout, SelectFlag) - AsSet(e.selected) + {t}
    ensures Flagged(r.layout, HoverFlag) == Flagged(e.layout, HoverFlag)
    ensures e.layout.Valid() ==> r.layout.Valid()
    ensures r.hovered == e.hovered && r.dragging == e.dragging && r.orbitEnabled == e.orbitEnabled && r.cursor == e.cursor
  {
    var d := Deselect(e);
    SameLayoutKeeps(e.layout, d.layout);
    var a := Attach(d, t);
    SameLayoutKeeps(d.layout, a.layout);
    Raised(Flagged(d.layout, SelectFlag), Flagged(a.layout, SelectFlag), t);
    UpdateSelectedData(a)
  }

  /** Where select leaves the widget, the hook and the proxy, and what it reports: an empty selection
      first when something was selected before, then the new selection. */
  lemma SelectAttaches(e: Engine, t: Target)
    requires Pickable(e.layout, t)
    ensures var r := Select(e, t);
      && (t.Inst? ==> r.widget == OnProxy && r.callback == Some(t) && r.proxy == e.layout.pads.Get(t.batch).slots[t.slot])
      && (t.Node? ==> r.widget == OnNode(t.uid, NodeAt(e.layout.traces.group, t.uid, t.tag).value.position))
      && (t.Node? ==> r.callback == if e.selected.Some? then None else e.callback)
      && e.emitted <= r.emitted
      && (e.selected.Some? ==> e.emitted + [None] <= r.emitted)
  {
    var d := Deselect(e);
    assert d.emitted == if e.selected.Some? then e.emitted + [None] else e.emitted;
    assert d.callback == if e.selected.Some? then None else e.callback;
    assert t.Inst? ==> d.layout.pads.Get(t.batch).slots == e.layout.pads.Get(t.batch).slots;
    SameLayoutKeeps(e.layout, d.layout);
    SameNodesFind(e.layout.traces.group, d.layout.traces.group, if t.Node? then t.uid else 0, if t.Node? then t.tag else "");
    var a := Attach(d, t);
    var r := UpdateSelectedData(a);
    assert r == Select(e, t);
    assert r.widget == a.widget && r.callback == a.callback && r.proxy == a.proxy && a.emitted == d.emitted;
  }

  lemma Raised(before: set<Target>, after: set<Target>, t: Target)
    requires forall x :: x != t ==> (x in after <==> x in before)
    requires t in after
    ensures after == before + {t}
  {
  }

  /** The middle of select: raise the target's selected flag and attach the widget. */
  function Attach(d: Engine, t: Target): (r: Engine)
    requires Pickable(d.layout, t)
    ensures r.selected == Some(t)
    ensures forall x :: x != t ==> (x in Flagged(r.layout, SelectFlag) <==> x in Flagged(d.layout, SelectFlag))
    ensures t in Flagged(r.layout, SelectFlag)
    ensures Flagged(r.layout, HoverFlag) == Flagged(d.layout, HoverFlag)
    ensures SameLayout(d.layout, r.layout)
    ensures t.Inst? ==> r.widget == OnProxy && r.callback == Some(t) && r.proxy == d.layout.pads.Get(t.batch).slots[t.slot]
    ensures t.Node? ==> r.widget == OnNode(t.uid, NodeAt(d.layout.traces.group, t.uid, t.tag).value.position) && r.callback == d.callback
    ensures r.(layout := d.layout, selected := d.selected, proxy := d.proxy, widget := d.widget, callback := d.callback) == d
  {
    var m := WriteFlag(d.layout, t, SelectFlag, true);
    match t
    case Inst(b, i) => d.(layout := m, selected := Some(t), proxy := m.pads.Get(b).slots[i], widget := OnProxy, callback := Some(t))
    case Node(u, g) => d.(layout := m, selected := Some(t), widget := OnNode(u, NodeAt(d.layout.traces.group, u, g).value.position))
  }

  /** onMouseDown: refresh the hover from the ray, then select what is hovered; on a miss, deselect
      unless a drag is in progress. */
  function MouseDown(e: Engine, hit: Option<Target>): (r: Engine)
    requires hit.Some? ==> Pickable(e.layout, hit.value)
    ensures r.hovered == hit
    ensures hit.Some? ==> r.selected == hit
    ensures hit.None? && !e.dragging ==> r.selected.None?
    ensures hit.None? && e.dragging ==> r.selected == e.selected && r.widget == e.widget && r.emitted == e.emitted
  {
    var h := CheckHover(e, hit);
    SameLayoutKeeps(e.layout, h.layout);
    if h.hovered.Some? then Select(h, h.hovered.value)
    else if !h.dragging then Deselect(h)
    else h
  }

  /** The id deleteSelected looks up: that of the record drawn in the selected slot, or the selected
      node's tag; "" when there is none. */
  function SelectedId(e: Engine): string
  {
    match e.selected
    case None => ""
    case Some(Inst(b, i)) =>
      var j := SelectedPadIndex(e.layout.pads.pads, b, i);
      if j.Some? then e.layout.pads.pads[j.value].id else ""
    case Some(Node(_, tag)) => tag
  }

  /** The id deleteSelected looks up as written: that of the record at the instance index in the
      whole pad sequence. */
  function SelectedIdAsWritten(e: Engine): string
  {
    match e.selected
    case None => ""
    case Some(Inst(_, i)) =>
      var j := SelectedPadIndexAsWritten(e.layout.pads.pads, i);
      if j.Some? then e.layout.pads.pads[j.value].id else ""
    case Some(Node(_, tag)) => tag
  }

  /** deleteSelected: with a selection whose id is non-empty, delete the component with that id and
      deselect; otherwise nothing happens. */
  function DeleteSelected(e: Engine): (r: Engine)
    requires e.layout.Valid()
    ensures e.selected.None? || SelectedId(e) == "" ==> r == e
    ensures e.selected.Some? && SelectedId(e) != "" ==>
      && r.selected.None? && r.widget.Detached? && r.callback.None? && r.emitted == e.emitted + [None]
      && r.layout.Valid() && r.layout.board == e.layout.board && r.layout.drills == e.layout.drills
      && AtMostFirstRemoved(e.layout.pads.pads, r.layout.pads.pads, PadId, SelectedId(e))
      && AtMostFirstRemoved(e.layout.traces.traces, r.layout.traces.traces, TraceId, SelectedId(e))
      && Flagged(r.layout, HoverFlag) <= Flagged(e.layout, HoverFlag)
      && Flagged(r.layout, SelectFlag) <= Flagged(e.layout, SelectFlag) - {e.selected.value}
    ensures e.selected.Some? && SelectedId(e) != "" ==> DeletedNodes(e.layout, r.layout, SelectedId(e))
    ensures r.hovered == e.hovered && r.dragging == e.dragging && r.orbitEnabled == e.orbitEnabled
  {
    DeleteById(e, SelectedId(e))
  }

  /** deleteSelected as written, deleting by the id of the record at the instance index. */
  function DeleteSelectedAsWritten(e: Engine): (r: Engine)
    requires e.layout.Valid()
    ensures e.selected.None? || SelectedIdAsWritten(e) == "" ==> r == e
    ensures e.selected.Some? && SelectedIdAsWritten(e) != "" ==>
      && r.selected.None? && r.layout.Valid()
      && AtMostFirstRemoved(e.layout.pads.pads, r.layout.pads.pads, PadId, SelectedIdAsWritten(e))
      && AtMostFirstRemoved(e.layout.traces.traces, r.layout.traces.traces, TraceId, SelectedIdAsWritten(e))
  {
    DeleteById(e, SelectedIdAsWritten(e))
  }

  /** What deleting the component `id` does to the drawn scene, flags aside: with no pad of that id
      the pad batches draw what they drew, otherwise they are rebuilt from the remaining pads; with no
      trace of that id the nodes stay, otherwise exactly the nodes tagged `id` leave the group. */
  ghost predicate DeletedNodes(m: Manager, r: Manager, id: string)
  {
    && ((forall k :: 0 <= k < |m.pads.pads| ==> m.pads.pads[k].id != id) ==>
          SameBatch(r.pads.circles, m.pads.circles) && SameBatch(r.pads.rects, m.pads.rects))
    && ((exists k :: 0 <= k < |m.pads.pads| && m.pads.pads[k].id == id) ==> DrawsPads(r.pads))
    && ((forall k :: 0 <= k < |m.traces.traces| ==> m.traces.traces[k].id != id) ==> SameNodes(m.traces.group, r.traces.group))
    && ((exists k :: 0 <= k < |m.traces.traces| && m.traces.traces[k].id == id) ==>
          SameNodes(WithoutTag(m.traces.group, id), r.traces.group))
  }

  lemma DeletedUpToFlags(m: Manager, id: string, r: Manager)
    requires m.Valid() && SameLayout(DeleteComponent(m, id), r)
    ensures DeletedNodes(m, r, id)
  {
    var d := DeleteComponent(m, id);
    PadsSeenUpToFlags(d.pads, r.pads);
    if exists k :: 0 <= k < |m.traces.traces| && m.traces.traces[k].id == id {
      assert d.traces.group == WithoutTag(m.traces.group, id);
    } else {
      assert d.traces == m.traces;
    }
  }

  /** Rebuilt batches stay rebuilt when only their flags change. */
  lemma PadsSeenUpToFlags(d: PadSystem, r: PadSystem)
    requires r.pads == d.pads && r.capacity == d.capacity && SameBatch(r.circles, d.circles) && SameBatch(r.rects, d.rects)
    ensures DrawsPads(d) ==> DrawsPads(r)
  {
    assert forall b :: SameBatch(r.Get(b), d.Get(b));
  }

  /** The body of deleteSelected once the id is known. */
  function DeleteById(e: Engine, id: string): (r: Engine)
    requires e.layout.Valid()
    ensures e.selected.None? || id == "" ==> r == e
    ensures e.selected.Some? && id != "" ==>
      && r.selected.None? && r.widget.Detached? && r.callback.None? && r.emitted == e.emitted + [None]
      && r.layout.Valid() && r.layout.board == e.layout.board && r.layout.drills == e.layout.drills
      && AtMostFirstRemoved(e.layout.pads.pads, r.layout.pads.pads, PadId, id)
      && AtMostFirstRemoved(e.layout.traces.traces, r.layout.traces.traces, TraceId, id)
      && Flagged(r.layout, HoverFlag) <= Flagged(e.layout, HoverFlag)
      && Flagged(r.layout, SelectFlag) <= Flagged(e.layout, SelectFlag) - {e.selected.value}
    ensures e.selected.Some? && id != "" ==> DeletedNodes(e.layout, r.layout, id)
    ensures r.hovered == e.hovered && r.dragging == e.dragging && r.orbitEnabled == e.orbitEnabled
  {
    if e.selected.None? || id == "" then e
    else
      var m := DeleteComponent(e.layout, id);
      FewerFlags(e.layout, m, HoverFlag);
      FewerFlags(e.layout, m, SelectFlag);
      var d := Deselect(e.(layout := m));
      SameLayoutKeeps(m, d.layout);
      DeletedUpToFlags(e.layout, id, d.layout);
      d
  }

  /** Two pads, A rectangular and B circular, with distinct non-empty ids. */
  predicate RectThenCircleLayout(pads: seq<Pad>)
  {
    && |pads| == 2 && pads[0].kind == RECT_TYPE && pads[1].kind == CIRCLE_TYPE
    && pads[0].id != pads[1].id && pads[0].id != "" && pads[1].id != ""
  }

  /** With pad A (rectangular) before pad B (circular) and circle instance 0 selected, the update as
      written moves and reports A, while the record drawn in that slot, which the corrected update
      moves, is B. */
  lemma AsWrittenMovesWrongPad(e: Engine)
    requires e.selected == Some(Inst(CircleBatch, 0))
    requires RectThenCircleLayout(e.layout.pads.pads)
    ensures
      var a := e.layout.pads.pads[0];
      var b := e.layout.pads.pads[1];
      var p := e.proxy.translation;
      && UpdateSelectedDataAsWritten(e).layout.pads.pads == [a.(pos := p), b]
      && UpdateSelectedDataAsWritten(e).emitted == e.emitted + [Some(PadInfo(a.(pos := p)))]
      && UpdateSelectedData(e).layout.pads.pads == [a, b.(pos := p)]
      && UpdateSelectedData(e).emitted == e.emitted + [Some(PadInfo(b.(pos := p)))]
  {
    RectThenCircle(e.layout.pads.pads);
  }

  /** In such a layout, with circle instance 0 selected, deleteSelected as written deletes A. */
  lemma AsWrittenDeletesWrongPad(e: Engine)
    requires e.layout.Valid() && e.selected == Some(Inst(CircleBatch, 0))
    requires RectThenCircleLayout(e.layout.pads.pads)
    ensures SelectedIdAsWritten(e) == e.layout.pads.pads[0].id
    ensures DeleteSelectedAsWritten(e).layout.pads.pads == [e.layout.pads.pads[1]]
  {
    var pads := e.layout.pads.pads;
    assert pads[..0] + pads[1..] == [pads[1]];
    assert SelectedIdAsWritten(e) == pads[0].id;
    DeleteByIdRemovesFirst(e, 0);
  }

  /** In such a layout the corrected deleteSelected deletes B, the record drawn in the selected slot. */
  lemma DeletesDrawnPad(e: Engine)
    requires e.layout.Valid() && e.selected == Some(Inst(CircleBatch, 0))
    requires RectThenCircleLayout(e.layout.pads.pads)
    ensures SelectedId(e) == e.layout.pads.pads[1].id
    ensures DeleteSelected(e).layout.pads.pads == [e.layout.pads.pads[0]]
  {
    var pads := e.layout.pads.pads;
    assert pads[..1] + pads[2..] == [pads[0]];
    SelectsDrawnPad(e);
    DeleteByIdRemovesFirst(e, 1);
  }

  lemma SelectsDrawnPad(e: Engine)
    requires e.selected == Some(Inst(CircleBatch, 0))
    requires RectThenCircleLayout(e.layout.pads.pads)
    ensures SelectedId(e) == e.layout.pads.pads[1].id
  {
    RectThenCircle(e.layout.pads.pads);
  }

  /** Deleting by the id of pad k removes exactly that pad when no pad before it has the id. */
  lemma DeleteByIdRemovesFirst(e: Engine, k: nat)
    requires e.layout.Valid() && e.selected.Some?
    requires k < |e.layout.pads.pads| && e.layout.pads.pads[k].id != ""
    requires forall j :: 0 <= j < k ==> e.layout.pads.pads[j].id != e.layout.pads.pads[k].id
    ensures DeleteById(e, e.layout.pads.pads[k].id).layout.pads.pads == e.layout.pads.pads[..k] + e.layout.pads.pads[k + 1..]
  {
    var pads := e.layout.pads.pads;
    assert PadId(pads[k]) == pads[k].id;
    assert forall j :: 0 <= j < k ==> PadId(pads[j]) != pads[k].id;
  }

  // ---------------------------------------------------------------------------------------------
  // Layout changes made by the rest of the editor

  /** A pad added through the layout manager; a full batch leaves everything as it was. */
  function HostAddPad(e: Engine, p: Pad): (r: Engine)
    requires e.layout.Valid()
    ensures r.layout.Valid() && NoNewFlags(e.layout, r.layout)
    ensures r.(layout := e.layout) == e
    ensures r.layout.traces == e.layout.traces && r.layout.drills == e.layout.drills && r.layout.board == e.layout.board
    ensures Layout.AddPad(e.layout, p).Success? ==> r.layout.pads.pads == e.layout.pads.pads + [p] && DrawsPads(r.layout.pads)
    ensures Layout.AddPad(e.layout, p).Failure? ==> r == e
  {
    match Layout.AddPad(e.layout, p)
    case Success(m) => e.(layout := m)
    case Failure(_) => e
  }

  function HostAddTrace(e: Engine, t: Trace): (r: Engine)
    requires e.layout.Valid()
    ensures r.layout.Valid() && NoNewFlags(e.layout, r.layout)
    ensures r.(layout := e.layout) == e
    ensures r.layout.traces.traces == e.layout.traces.traces + [Typed(t)]
    ensures r.layout.traces.group == e.layout.traces.group + SegmentsOf(Typed(t), e.layout.traces.nextUid)
    ensures r.layout.pads == e.layout.pads && r.layout.drills == e.layout.drills && r.layout.board == e.layout.board
  {
    e.(layout := Layout.AddTrace(e.layout, t))
  }

  /** A document loaded into the layout (hole ids kept); a document that does not fit changes nothing. */
  function HostLoad(e: Engine, doc: Document, idSuffix: nat -> string): (r: Engine)
    requires e.layout.Valid()
    ensures r.layout.Valid() && NoNewFlags(e.layout, r.layout)
    ensures r.(layout := e.layout) == e
    ensures LoadDataKeepingIds(e.layout, doc, idSuffix).Success? ==>
      && r.layout.pads.pads == PadsIn(doc.components) && r.layout.traces.traces == TracesIn(doc.components)
      && r.layout.traces.group == NodesOf(TracesIn(doc.components), e.layout.traces.nextUid)
      && r.layout.drills.holes == Generated(HolesIn(doc.components), idSuffix, 0, true)
      && r.layout.board == LoadedBoard(e.layout.board, doc)
    ensures LoadDataKeepingIds(e.layout, doc, idSuffix).Failure? ==> r == e
  {
    match LoadDataKeepingIds(e.layout, doc, idSuffix)
    case Success(m) => e.(layout := m)
    case Failure(_) => e
  }

  function HostClear(e: Engine): (r: Engine)
    requires e.layout.Valid()
    ensures r.layout.Valid() && NoNewFlags(e.layout, r.layout)
    ensures r.(layout := e.layout) == e
    ensures r.layout.pads.pads == [] && r.layout.traces.traces == [] && r.layout.drills.holes == []
    ensures r.layout.traces.group == [] && r.layout.board == e.layout.board
  {
    e.(layout := Clear(e.layout))
  }

  // ---------------------------------------------------------------------------------------------
  // The invariant

  /** At most the remembered hover carries a hover flag and at most the selection a selected flag;
      the hook is bound exactly to a selected instance; the widget is attached exactly while
      something is selected, to the proxy for an instance and to the node itself for a node; and
      orbiting is on exactly when no drag is in progress. */
  predicate Inv(e: Engine)
  {
    && e.layout.Valid()
    && Flagged(e.layout, HoverFlag) <= AsSet(e.hovered)
    && Flagged(e.layout, SelectFlag) <= AsSet(e.selected)
    && e.callback == (if e.selected.Some? && e.selected.value.Inst? then e.selected else None)
    && (e.widget.Detached? <==> e.selected.None?)
    && (e.widget.OnProxy? <==> e.selected.Some? && e.selected.value.Inst?)
    && (e.widget.OnNode? ==> e.selected.Some? && e.selected.value.Node? && e.widget.uid == e.selected.value.uid)
    && e.orbitEnabled == !e.dragging
  }

  /** The engine as constructed over a fresh layout manager. */
  function Start(): (e: Engine)
    ensures Inv(e)
    ensures e.hovered.None? && e.selected.None? && e.emitted == [] && e.orbitEnabled
  {
    var m := NewManager();
    var e := Engine(m, None, None, Transform(Vec3(1.0, 1.0, 1.0), Origin), Detached, None, false, true, DefaultCursor, []);
    assert Flagged(m, HoverFlag) == {} && Flagged(m, SelectFlag) == {};
    e
  }

  /** Under the invariant, at most one target is hovered and at most one is selected. */
  lemma OneHoverOneSelection(e: Engine)
    requires Inv(e)
    ensures |Flagged(e.layout, HoverFlag)| <= 1 && |Flagged(e.layout, SelectFlag)| <= 1
  {
    AtMostOne(Flagged(e.layout, HoverFlag), e.hovered);
    AtMostOne(Flagged(e.layout, SelectFlag), e.selected);
  }

  lemma CheckHoverKeepsInv(e: Engine, hit: Option<Target>)
    requires Inv(e) && (hit.Some? ==> Pickable(e.layout, hit.value))
    ensures Inv(CheckHover(e, hit)) && Inv(CheckHoverAsWritten(e, hit))
  {
    SameLayoutKeeps(e.layout, CheckHover(e, hit).layout);
    SameLayoutKeeps(e.layout, CheckHoverAsWritten(e, hit).layout);
  }

  lemma DeselectKeepsInv(e: Engine)
    requires Inv(e)
    ensures Inv(Deselect(e))
  {
    SameLayoutKeeps(e.layout, Deselect(e).layout);
  }

  lemma SelectKeepsInv(e: Engine, t: Target)
    requires Inv(e) && Pickable(e.layout, t)
    ensures Inv(Select(e, t))
  {
    SelectAttaches(e, t);
  }

  lemma MouseDownKeepsInv(e: Engine, hit: Option<Target>)
    requires Inv(e) && (hit.Some? ==> Pickable(e.layout, hit.value))
    ensures Inv(MouseDown(e, hit))
  {
    var h := CheckHover(e, hit);
    CheckHoverKeepsInv(e, hit);
    SameLayoutKeeps(e.layout, h.layout);
    if h.hovered.Some? {
      SelectKeepsInv(h, h.hovered.value);
    } else if !h.dragging {
      DeselectKeepsInv(h);
    }
  }

  lemma DragTickKeepsInv(e: Engine, x: real, z: real)
    requires Inv(e)
    ensures Inv(DragTick(e, x, z))
  {
  }

  lemma DeleteSelectedKeepsInv(e: Engine)
    requires Inv(e)
    ensures Inv(DeleteSelected(e))
  {
  }

  lemma HostChangeKeepsInv(e: Engine, r: Engine)
    requires Inv(e) && r.layout.Valid() && NoNewFlags(e.layout, r.layout) && r.(layout := e.layout) == e
    ensures Inv(r)
  {
    FewerFlags(e.layout, r.layout, HoverFlag);
    FewerFlags(e.layout, r.layout, SelectFlag);
  }

  // ---------------------------------------------------------------------------------------------
  // Event runs

  /** What can happen to the editor: pointer moves and presses with the ray's nearest hit, the widget
      starting or ending a drag, a drag step, the delete key, and layout changes from elsewhere. */
  datatype Event =
    | PointerMove(hit: Option<Target>)
    | PointerDown(hit: Option<Target>)
    | DragChange(value: bool)
    | DragTo(x: real, z: real)
    | DeleteKey
    | PlacePad(pad: Pad)
    | PlaceTrace(trace: Trace)
    | Open(doc: Document, idSuffix: nat -> string)
    | ClearAll

  /** The ray caster only reports what is drawn. */
  predicate Enabled(e: Engine, ev: Event)
  {
    match ev
    case PointerMove(hit) => hit.None? || Pickable(e.layout, hit.value)
    case PointerDown(hit) => hit.None? || Pickable(e.layout, hit.value)
    case _ => true
  }

  function Next(e: Engine, ev: Event): Engine
    requires e.layout.Valid() && Enabled(e, ev)
  {
    match ev
    case PointerMove(hit) => CheckHover(e, hit)
    case PointerDown(hit) => MouseDown(e, hit)
    case DragChange(v) => DraggingChanged(e, v)
    case DragTo(x, z) => DragTick(e, x, z)
    case DeleteKey => DeleteSelected(e)
    case PlacePad(p) => HostAddPad(e, p)
    case PlaceTrace(t) => HostAddTrace(e, t)
    case Open(doc, idSuffix) => HostLoad(e, doc, idSuffix)
    case ClearAll => HostClear(e)
  }

  /** Every event keeps the invariant. */
  lemma NextKeepsInv(e: Engine, ev: Event)
    requires Inv(e) && Enabled(e, ev)
    ensures Inv(Next(e, ev))
  {
    match ev
    case PointerMove(hit) => CheckHoverKeepsInv(e, hit);
    case PointerDown(hit) => MouseDownKeepsInv(e, hit);
    case DragChange(v) =>
    case DragTo(x, z) => DragTickKeepsInv(e, x, z);
    case DeleteKey => DeleteSelectedKeepsInv(e);
    case PlacePad(p) => HostChangeKeepsInv(e, HostAddPad(e, p));
    case PlaceTrace(t) => HostChangeKeepsInv(e, HostAddTrace(e, t));
    case Open(doc, idSuffix) => HostChangeKeepsInv(e, HostLoad(e, doc, idSuffix));
    case ClearAll => HostChangeKeepsInv(e, HostClear(e));
  }

  /** Play a sequence of events; None when the ray caster would report an undrawn target. Along any
      run the invariant holds, so at most one target is ever hovered and at most one selected. */
  function Run(e: Engine, evs: seq<Event>): (r: Option<Engine>)
    requires Inv(e)
    ensures r.Some? ==> Inv(r.value)
    ensures r.Some? ==> |Flagged(r.value.layout, HoverFlag)| <= 1 && |Flagged(r.value.layout, SelectFlag)| <= 1
    decreases |evs|
  {
    if |evs| == 0 then
      OneHoverOneSelection(e);
      Some(e)
    else if !Enabled(e, evs[0]) then None
    else
      NextKeepsInv(e, evs[0]);
      Run(Next(e, evs[0]), evs[1..])
  }

  // ---------------------------------------------------------------------------------------------
  // Dragging

  /** Dragging a selected instance to (x, z): only the selected slot's matrix changes, to the proxy
      at its new place; the record drawn there gets the new position and is reported with its area. */
  lemma DragMovesSelectedPad(e: Engine, x: real, z: real)
    requires Inv(e) && e.selected.Some? && e.selected.value.Inst?
    ensures
      var b, i := e.selected.value.batch, e.selected.value.slot;
      var r := DragTick(e, x, z);
      var moved := e.proxy.(translation := Vec3(x, e.proxy.translation.y, z));
      var pads := e.layout.pads.pads;
      var j := SelectedPadIndex(pads, b, i);
      && r.proxy == moved
      && (i < |e.layout.pads.Get(b).slots| ==> r.layout.pads.Get(b).slots == e.layout.pads.Get(b).slots[i := moved])
      && (forall c :: c != b ==> r.layout.pads.Get(c).slots == e.layout.pads.Get(c).slots)
      && (j.Some? ==>
            var q := pads[j.value].(pos := moved.translation);
            && r.layout.pads.pads == pads[j.value := q]
            && r.emitted == e.emitted + [Some(PadInfo(q))])
      && (j.None? ==> r.layout.pads.pads == pads && r.emitted == e.emitted)
  {
  }

  /** Dragging a selected node moves that node (and the widget) to (x, z) at its own height and
      reports the node's tag at the new position. */
  lemma DragMovesSelectedNode(e: Engine, x: real, z: real)
    requires Inv(e) && e.selected.Some? && e.selected.value.Node?
    ensures
      var u := e.selected.value.uid;
      var np := Vec3(x, e.widget.position.y, z);
      var r := DragTick(e, x, z);
      && r.widget == OnNode(u, np)
      && |r.layout.traces.group| == |e.layout.traces.group|
      && (forall k :: 0 <= k < |e.layout.traces.group| ==>
            r.layout.traces.group[k] == if e.layout.traces.group[k].uid == u then e.layout.traces.group[k].(position := np) else e.layout.traces.group[k])
      && r.emitted == e.emitted + [Some(Info(e.selected.value.tag, PATH_TYPE, np, Size(1.0, 1.0), 0.0))]
  {
  }

  // ---------------------------------------------------------------------------------------------
  // The stale hover

  /** A pad added while the pointer rests on an instance: the rebuild lowers every flag, but the hover
      is still remembered, so checkHover as written, seeing the same target, does not raise it again. */
  lemma StaleHoverAsWritten(e: Engine, p: Pad, t: Target)
    requires Inv(e) && e.hovered == Some(t) && t.Inst?
    requires Layout.AddPad(e.layout, p).Success?
    requires Pickable(HostAddPad(e, p).layout, t)
    ensures t !in Flagged(CheckHoverAsWritten(HostAddPad(e, p), Some(t)).layout, HoverFlag)
  {
    var h := HostAddPad(e, p);
    InstFlagged(h.layout, HoverFlag, t.batch, t.slot);
  }

  /** With the guard also testing the flag, the same pointer move highlights the target again. */
  lemma HoverRestored(e: Engine, p: Pad, t: Target)
    requires Inv(e) && e.hovered == Some(t)
    requires Pickable(HostAddPad(e, p).layout, t)
    ensures Flagged(CheckHover(HostAddPad(e, p), Some(t)).layout, HoverFlag) == {t}
  {
    HostChangeKeepsInv(e, HostAddPad(e, p));
  }
}
