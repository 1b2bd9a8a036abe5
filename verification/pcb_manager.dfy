/** The layout projection manager: owns the board and the three systems, loads and exports
    documents and deletes components by id. */
module Layout {
  import opened Wrappers
  import opened Geometry
  import opened Records
  import opened Pads
  import opened Traces
  import opened Drills
  import opened BoardShape
  import Seqs

  datatype Manager = Manager(board: Board, pads: PadSystem, traces: TraceSystem, drills: DrillSystem) {
    predicate Valid()
    {
      pads.Valid() && traces.Valid() && drills.Valid()
    }
  }

  /** No structural operation raises a flag: pad flags can only be cleared, and every flagged node
      was already present, flagged, before. */
  ghost predicate NoNewFlags(before: Manager, after: Manager)
  {
    && (forall b :: after.pads.Get(b).hovered <= before.pads.Get(b).hovered)
    && (forall b :: after.pads.Get(b).selected <= before.pads.Get(b).selected)
    && (forall s :: s in after.traces.group && (s.hovered || s.selected) ==> s in before.traces.group)
  }

  /** Capacities are fixed once the systems are initialised. */
  predicate SameCapacity(before: Manager, after: Manager)
  {
    after.pads.capacity == before.pads.capacity && after.drills.capacity == before.drills.capacity
  }

  /** The constructor: default board, pad batches of 1000 and a hole batch of 500 instances, nothing loaded. */
  function NewManager(): (m: Manager)
    ensures m.Valid()
    ensures m.pads.pads == [] && m.traces.traces == [] && m.traces.group == [] && m.drills.holes == []
    ensures m.pads.capacity == 1000 && m.drills.capacity == 500
    ensures m.board.width == 100.0 && m.board.height == 80.0 && m.board.thickness == 1.6 && m.board.shape.cutouts == []
  {
    Manager(NewBoard(BoardOptions(None, None, None)), Pads.Init(DEFAULT_CAPACITY), Traces.Empty(0), Drills.Init(DEFAULT_HOLE_CAPACITY))
  }

  /** clear: empty pads, holes and traces (the trace system is replaced by a new one); the board stays. */
  function Clear(m: Manager): (r: Manager)
    ensures r.Valid() && r.board == m.board && SameCapacity(m, r)
    ensures r.pads.pads == [] && r.drills.holes == [] && r.traces.traces == [] && r.traces.group == []
    ensures forall b :: r.pads.Get(b).count == 0 && !r.pads.Get(b).visible
    ensures r.traces.nextUid == m.traces.nextUid
    ensures NoNewFlags(m, r)
  {
    var ps := UpdatePads(m.pads.(pads := [])).value;
    var ds := UpdateHoles(m.drills.(holes := [])).value;
    Manager(m.board, ps, Traces.Empty(m.traces.nextUid), ds)
  }

  predicate IsPadType(t: string)
  {
    t == CIRCLE_TYPE || t == RECT_TYPE
  }

  /** The trace record a load builds: the layer defaults to `top` when missing. */
  function LoadedTrace(t: Trace): Trace
  {
    t.(layer := if t.layer == "" then TOP_LAYER else t.layer)
  }

  /** What one component contributes, by type: the reference for loadData's dispatch. */
  function PadOf(c: Component): seq<Pad>
  {
    if c.PadRecord? && IsPadType(c.pad.kind) then [c.pad] else []
  }

  function TraceOf(c: Component): seq<Trace>
  {
    if c.TraceRecord? && c.trace.kind == PATH_TYPE then [LoadedTrace(c.trace)] else []
  }

  function HoleOf(c: Component): seq<Hole>
  {
    if c.HoleRecord? then [c.hole] else []
  }

  /** The record's variant agrees with its type wherever the type is one loadData acts on. A record
      typed `smd_circle` without pad fields, or a pad typed `path`, is not well typed. */
  predicate WellTyped(c: Component)
  {
    match c
    case PadRecord(p) => p.kind != PATH_TYPE && p.kind != HOLE_TYPE
    case TraceRecord(t) => !IsPadType(t.kind) && t.kind != HOLE_TYPE
    case HoleRecord(_) => true
    case OtherRecord(k) => !IsPadType(k) && k != PATH_TYPE && k != HOLE_TYPE
  }

  /** On well-typed records, dispatching by variant is loadData's dispatch by type: a record is
      loaded as a pad, a trace or a hole exactly when its type says so. Other records are skipped. */
  lemma Dispatch(c: Component)
    ensures WellTyped(c) ==>
      && (PadOf(c) != [] <==> IsPadType(TypeOf(c)))
      && (TraceOf(c) != [] <==> TypeOf(c) == PATH_TYPE)
      && (HoleOf(c) != [] <==> TypeOf(c) == HOLE_TYPE)
    ensures !WellTyped(c) ==> PadOf(c) == [] && TraceOf(c) == [] && HoleOf(c) == []
  {
  }

  function PadsIn(cs: seq<Component>): seq<Pad>
  {
    if |cs| == 0 then [] else PadOf(cs[0]) + PadsIn(cs[1..])
  }

  function TracesIn(cs: seq<Component>): seq<Trace>
  {
    if |cs| == 0 then [] else TraceOf(cs[0]) + TracesIn(cs[1..])
  }

  /** The hole-typed components, in document order. */
  function HolesIn(cs: seq<Component>): seq<Hole>
  {
    if |cs| == 0 then [] else HoleOf(cs[0]) + HolesIn(cs[1..])
  }

  lemma {:induction false} InAppend(a: seq<Component>, c: seq<Component>)
    ensures PadsIn(a + c) == PadsIn(a) + PadsIn(c)
    ensures TracesIn(a + c) == TracesIn(a) + TracesIn(c)
    ensures HolesIn(a + c) == HolesIn(a) + HolesIn(c)
  {
    PadsInAppend(a, c);
    TracesInAppend(a, c);
    HolesInAppend(a, c);
  }

  lemma {:induction false} PadsInAppend(a: seq<Component>, c: seq<Component>)
    ensures PadsIn(a + c) == PadsIn(a) + PadsIn(c)
    decreases |a|
  {
    if |a| == 0 {
      assert a + c == c;
    } else {
      assert (a + c)[0] == a[0];
      assert (a + c)[1..] == a[1..] + c;
      PadsInAppend(a[1..], c);
    }
  }

  lemma {:induction false} TracesInAppend(a: seq<Component>, c: seq<Component>)
    ensures TracesIn(a + c) == TracesIn(a) + TracesIn(c)
    decreases |a|
  {
    if |a| == 0 {
      assert a + c == c;
    } else {
      assert (a + c)[0] == a[0];
      assert (a + c)[1..] == a[1..] + c;
      TracesInAppend(a[1..], c);
    }
  }

  lemma {:induction false} HolesInAppend(a: seq<Component>, c: seq<Component>)
    ensures HolesIn(a + c) == HolesIn(a) + HolesIn(c)
    decreases |a|
  {
    if |a| == 0 {
      assert a + c == c;
    } else {
      assert (a + c)[0] == a[0];
      assert (a + c)[1..] == a[1..] + c;
      HolesInAppend(a[1..], c);
    }
  }

  /** The id a loaded hole gets: a generated one, unless ids are kept and the record has one. */
  function NewHoleId(h: Hole, suffix: string, keepIds: bool): string
  {
    if keepIds && h.id != "" then h.id else HOLE_ID_PREFIX + suffix
  }

  /** The records addHole stores for `hs`, the k-th drawing its generated id from idSuffix(base + k). */
  function Generated(hs: seq<Hole>, idSuffix: nat -> string, base: nat, keepIds: bool): seq<Hole>
  {
    seq(|hs|, k requires 0 <= k < |hs| => Hole(NewHoleId(hs[k], idSuffix(base + k), keepIds), hs[k].pos, hs[k].diameter))
  }

  /** `r` is `m` with the given records appended to its pads, traces and holes, and with the segment
      nodes of the appended traces added to the group under fresh identities: valid, on the same
      board, with the same capacities and no new flags. */
  ghost predicate Appended(m: Manager, r: Manager, ps: seq<Pad>, ts: seq<Trace>, hs: seq<Hole>)
  {
    r.Valid() && r.board == m.board && SameCapacity(m, r) && NoNewFlags(m, r) && Grown(m, r, ps, ts, hs)
  }

  /** The record sequences and the segment group of `r` extend those of `m` by exactly the given records. */
  ghost predicate Grown(m: Manager, r: Manager, ps: seq<Pad>, ts: seq<Trace>, hs: seq<Hole>)
  {
    && r.pads.pads == m.pads.pads + ps && r.traces.traces == m.traces.traces + ts && r.drills.holes == m.drills.holes + hs
    && r.traces.group == m.traces.group + NodesOf(ts, m.traces.nextUid)
    && r.traces.nextUid == m.traces.nextUid + |NodesOf(ts, m.traces.nextUid)|
  }

  lemma AppendedNothing(m: Manager)
    requires m.Valid()
    ensures Appended(m, m, [], [], [])
  {
    assert m.pads.pads + [] == m.pads.pads && m.traces.traces + [] == m.traces.traces && m.drills.holes + [] == m.drills.holes;
    assert m.traces.group + [] == m.traces.group;
  }

  /** One step of the forEach of loadData. */
  function AddComponent(m: Manager, c: Component, idSuffix: nat -> string, keepIds: bool): (r: Result<Manager>)
    requires m.Valid()
    ensures r.Success? <==>
      && (PadOf(c) == [] || |OfBatch(m.pads.pads, BatchOf(c.pad))| < m.pads.capacity)
      && (HoleOf(c) == [] || |m.drills.holes| < m.drills.capacity)
    ensures r.Success? ==> Appended(m, r.value, PadOf(c), TraceOf(c), Generated(HoleOf(c), idSuffix, |m.drills.holes|, keepIds))
  {
    var base := |m.drills.holes|;
    match c
    case PadRecord(p) =>
      GeneratedNone(idSuffix, base, keepIds);
      LoadPad(m, p)
    case TraceRecord(t) =>
      GeneratedNone(idSuffix, base, keepIds);
      Success(LoadTrace(m, t))
    case HoleRecord(h) =>
      GeneratedOne(h, idSuffix, base, keepIds);
      LoadHole(m, h, idSuffix(base), keepIds)
    case OtherRecord(_) =>
      GeneratedNone(idSuffix, base, keepIds);
      AppendedNothing(m);
      Success(m)
  }

  lemma GeneratedNone(idSuffix: nat -> string, base: nat, keepIds: bool)
    ensures Generated([], idSuffix, base, keepIds) == []
  {
  }

  lemma GeneratedOne(h: Hole, idSuffix: nat -> string, base: nat, keepIds: bool)
    ensures Generated([h], idSuffix, base, keepIds) == [Hole(NewHoleId(h, idSuffix(base), keepIds), h.pos, h.diameter)]
  {
  }

  /** A pad record is added when its type is one of the two pad types and skipped otherwise. */
  function LoadPad(m: Manager, p: Pad): (r: Result<Manager>)
    requires m.Valid()
    ensures r.Success? <==> !IsPadType(p.kind) || |OfBatch(m.pads.pads, BatchOf(p))| < m.pads.capacity
    ensures r.Success? ==> Appended(m, r.value, if IsPadType(p.kind) then [p] else [], [], [])
  {
    assert m.traces.traces + [] == m.traces.traces && m.drills.holes + [] == m.drills.holes && m.traces.group + [] == m.traces.group;
    if IsPadType(p.kind) then AddPad(m, p)
    else
      AppendedNothing(m);
      Success(m)
  }

  /** A path record is added as a trace on its layer (top when it has none); other trace types are skipped. */
  function LoadTrace(m: Manager, t: Trace): (r: Manager)
    requires m.Valid()
    ensures Appended(m, r, [], if t.kind == PATH_TYPE then [LoadedTrace(t)] else [], [])
  {
    assert m.pads.pads + [] == m.pads.pads && m.drills.holes + [] == m.drills.holes;
    if t.kind == PATH_TYPE then
      assert Typed(LoadedTrace(t)) == LoadedTrace(t);
      assert NodesOf([LoadedTrace(t)], m.traces.nextUid) == SegmentsOf(LoadedTrace(t), m.traces.nextUid) + [];
      AddTrace(m, LoadedTrace(t))
    else
      AppendedNothing(m);
      m
  }

  /** A hole record is added with its position and diameter, and with its id only when ids are kept. */
  function LoadHole(m: Manager, h: Hole, suffix: string, keepIds: bool): (r: Result<Manager>)
    requires m.Valid()
    ensures r.Success? <==> |m.drills.holes| < m.drills.capacity
    ensures r.Success? ==> Appended(m, r.value, [], [], [Hole(NewHoleId(h, suffix, keepIds), h.pos, h.diameter)])
  {
    assert m.pads.pads + [] == m.pads.pads && m.traces.traces + [] == m.traces.traces && m.traces.group + [] == m.traces.group;
    AddHole(m, Hole(if keepIds then h.id else "", h.pos, h.diameter), suffix)
  }

  /** addHole on the manager's drill system. */
  function AddHole(m: Manager, h: Hole, suffix: string): (r: Result<Manager>)
    requires m.Valid()
    ensures r.Success? <==> |m.drills.holes| < m.drills.capacity
    ensures r.Success? ==> r.value.Valid() && r.value.board == m.board && SameCapacity(m, r.value)
    ensures r.Success? ==> r.value.pads == m.pads && r.value.traces == m.traces
    ensures r.Success? ==> r.value.drills.holes == m.drills.holes + [Hole(if h.id != "" then h.id else HOLE_ID_PREFIX + suffix, h.pos, h.diameter)]
  {
    var ds :- Drills.AddHole(m.drills, h, suffix);
    assert ds.holes == ds.holes[..|m.drills.holes|] + [ds.holes[|m.drills.holes|]];
    Success(m.(drills := ds))
  }

  lemma GeneratedAppend(a: seq<Hole>, c: seq<Hole>, idSuffix: nat -> string, base: nat, keepIds: bool)
    ensures Generated(a + c, idSuffix, base, keepIds) == Generated(a, idSuffix, base, keepIds) + Generated(c, idSuffix, base + |a|, keepIds)
  {
  }

  /** The document's components fit the capacities left in `m`. */
  predicate DocFits(m: Manager, cs: seq<Component>)
  {
    Fits(m.pads.pads + PadsIn(cs), m.pads.capacity) && |m.drills.holes| + |HolesIn(cs)| <= m.drills.capacity
  }

  /** The forEach of loadData: components in document order; an overflowing batch stops the load with a failure. */
  function AddComponents(m: Manager, cs: seq<Component>, idSuffix: nat -> string, keepIds: bool): (r: Result<Manager>)
    requires m.Valid()
    ensures r.Success? <==> DocFits(m, cs)
    ensures r.Success? ==> Appended(m, r.value, PadsIn(cs), TracesIn(cs), Generated(HolesIn(cs), idSuffix, |m.drills.holes|, keepIds))
    decreases |cs|
  {
    if |cs| == 0 then
      AppendedNothing(m);
      Success(m)
    else
      match AddComponent(m, cs[0], idSuffix, keepIds)
      case Failure(e) =>
        StepFails(m, cs, idSuffix, keepIds);
        Failure(e)
      case Success(m1) =>
        StepSucceeds(m, cs, idSuffix, keepIds);
        var r := AddComponents(m1, cs[1..], idSuffix, keepIds);
        if r.Success? then
          NoNewFlagsTransitive(m, m1, r.value);
          NodesStep(m.traces, m1.traces, r.value.traces, cs);
          r
        else r
  }

  /** The nodes the first component's trace adds, followed by those the rest add, are the nodes of
      all the document's traces. */
  lemma NodesStep(a: TraceSystem, b: TraceSystem, c: TraceSystem, cs: seq<Component>)
    requires |cs| > 0
    requires b.group == a.group + NodesOf(TraceOf(cs[0]), a.nextUid) && b.nextUid == a.nextUid + |NodesOf(TraceOf(cs[0]), a.nextUid)|
    requires c.group == b.group + NodesOf(TracesIn(cs[1..]), b.nextUid) && c.nextUid == b.nextUid + |NodesOf(TracesIn(cs[1..]), b.nextUid)|
    ensures c.group == a.group + NodesOf(TracesIn(cs), a.nextUid) && c.nextUid == a.nextUid + |NodesOf(TracesIn(cs), a.nextUid)|
  {
    var first, rest := TraceOf(cs[0]), TracesIn(cs[1..]);
    TracesInStep(cs);
    NodesOfAppend(first, rest, a.nextUid, b.nextUid);
    Shift(a.group, NodesOf(first, a.nextUid), b.group, NodesOf(rest, b.nextUid));
  }

  lemma TracesInStep(cs: seq<Component>)
    requires |cs| > 0
    ensures TracesIn(cs) == TraceOf(cs[0]) + TracesIn(cs[1..])
  {
  }

  lemma NoNewFlagsTransitive(a: Manager, b: Manager, c: Manager)
    requires NoNewFlags(a, b) && NoNewFlags(b, c)
    ensures NoNewFlags(a, c)
  {
    forall s | s in c.traces.group && (s.hovered || s.selected) ensures s in a.traces.group {
      assert s in b.traces.group;
    }
  }

  lemma StepFails(m: Manager, cs: seq<Component>, idSuffix: nat -> string, keepIds: bool)
    requires m.Valid() && |cs| > 0 && AddComponent(m, cs[0], idSuffix, keepIds).Failure?
    ensures !DocFits(m, cs)
  {
    var c := cs[0];
    assert PadsIn(cs) == PadOf(c) + PadsIn(cs[1..]);
    assert HolesIn(cs) == HoleOf(c) + HolesIn(cs[1..]);
    if PadOf(c) != [] && |OfBatch(m.pads.pads, BatchOf(c.pad))| >= m.pads.capacity {
      var b := BatchOf(c.pad);
      assert m.pads.pads + PadsIn(cs) == m.pads.pads + [c.pad] + PadsIn(cs[1..]);
      OfBatchAppend(m.pads.pads + [c.pad], PadsIn(cs[1..]), b);
      OfBatchAppend(m.pads.pads, [c.pad], b);
      assert OfBatch([c.pad], b) == [c.pad] + OfBatch([], b);
    }
  }

  lemma StepSucceeds(m: Manager, cs: seq<Component>, idSuffix: nat -> string, keepIds: bool)
    requires m.Valid() && |cs| > 0 && AddComponent(m, cs[0], idSuffix, keepIds).Success?
    ensures
      var m1 := AddComponent(m, cs[0], idSuffix, keepIds).value;
      && (DocFits(m, cs) <==> DocFits(m1, cs[1..]))
      && m1.pads.pads + PadsIn(cs[1..]) == m.pads.pads + PadsIn(cs)
      && m1.traces.traces + TracesIn(cs[1..]) == m.traces.traces + TracesIn(cs)
      && m1.drills.holes + Generated(HolesIn(cs[1..]), idSuffix, |m1.drills.holes|, keepIds)
         == m.drills.holes + Generated(HolesIn(cs), idSuffix, |m.drills.holes|, keepIds)
  {
    var c := cs[0];
    var m1 := AddComponent(m, c, idSuffix, keepIds).value;
    Shift(m.pads.pads, PadOf(c), m1.pads.pads, PadsIn(cs[1..]));
    Shift(m.traces.traces, TraceOf(c), m1.traces.traces, TracesIn(cs[1..]));
    HolesShift(m.drills.holes, m1.drills.holes, HoleOf(c), HolesIn(cs[1..]), idSuffix, keepIds);
  }

  lemma Shift<T>(a: seq<T>, x: seq<T>, b: seq<T>, rest: seq<T>)
    requires b == a + x
    ensures b + rest == a + (x + rest)
  {
  }

  lemma HolesShift(a: seq<Hole>, b: seq<Hole>, x: seq<Hole>, rest: seq<Hole>, idSuffix: nat -> string, keepIds: bool)
    requires b == a + Generated(x, idSuffix, |a|, keepIds)
    ensures b + Generated(rest, idSuffix, |b|, keepIds) == a + Generated(x + rest, idSuffix, |a|, keepIds)
  {
    GeneratedAppend(x, rest, idSuffix, |a|, keepIds);
  }

  /** The board a load leaves: rebuilt from the document's dimensions, with one cutout per hole-typed
      component in document order, when the document has a board; untouched otherwise. */
  function LoadedBoard(b: Board, doc: Document): (r: Board)
    ensures doc.board.None? ==> r == b
    ensures doc.board.Some? ==>
      var hs := HolesIn(doc.components);
      && BoardDims(r.width, r.height, r.thickness) == doc.board.value
      && r.shape.depth == doc.board.value.thickness
      && |r.shape.cutouts| == |hs|
      && forall i :: 0 <= i < |hs| ==> r.shape.cutouts[i] == Circle(Point2(hs[i].pos.x, hs[i].pos.z), hs[i].diameter / 2.0)
  {
    if doc.board.Some? then
      UpdateDimensions(b, doc.board.value.width, doc.board.value.height, doc.board.value.thickness, HolesIn(doc.components))
    else b
  }

  /** loadData, with or without keeping hole ids: clear, rebuild the board from the hole-typed
      components when the document has a board, then add every component in document order. */
  function LoadWith(m: Manager, doc: Document, idSuffix: nat -> string, keepIds: bool): (r: Result<Manager>)
    ensures r.Success? <==> Fits(PadsIn(doc.components), m.pads.capacity) && |HolesIn(doc.components)| <= m.drills.capacity
    ensures r.Success? ==>
      && r.value.Valid() && SameCapacity(m, r.value) && NoNewFlags(m, r.value)
      && r.value.board == LoadedBoard(m.board, doc)
      && r.value.pads.pads == PadsIn(doc.components)
      && r.value.traces.traces == TracesIn(doc.components)
      && r.value.drills.holes == Generated(HolesIn(doc.components), idSuffix, 0, keepIds)
    ensures r.Success? ==> r.value.traces.group == NodesOf(TracesIn(doc.components), m.traces.nextUid)
  {
    var c := Clear(m);
    var c2 := c.(board := LoadedBoard(c.board, doc));
    assert c2.Valid() && NoNewFlags(m, c2) && SameCapacity(m, c2);
    assert [] + PadsIn(doc.components) == PadsIn(doc.components);
    assert [] + TracesIn(doc.components) == TracesIn(doc.components);
    assert [] + NodesOf(TracesIn(doc.components), m.traces.nextUid) == NodesOf(TracesIn(doc.components), m.traces.nextUid);
    AddComponents(c2, doc.components, idSuffix, keepIds)
  }

  /** loadData as written: hole records are added without their id, so every loaded hole gets a generated id. */
  function LoadData(m: Manager, doc: Document, idSuffix: nat -> string): (r: Result<Manager>)
    ensures r.Success? <==> Fits(PadsIn(doc.components), m.pads.capacity) && |HolesIn(doc.components)| <= m.drills.capacity
    ensures r.Success? ==> |r.value.drills.holes| == |HolesIn(doc.components)|
    ensures r.Success? ==> forall k :: 0 <= k < |r.value.drills.holes| ==>
      r.value.drills.holes[k] == Hole(HOLE_ID_PREFIX + idSuffix(k), HolesIn(doc.components)[k].pos, HolesIn(doc.components)[k].diameter)
  {
    LoadWith(m, doc, idSuffix, false)
  }

  /** loadData passing each hole's id on to addHole, which keeps it whenever it is present. */
  function LoadDataKeepingIds(m: Manager, doc: Document, idSuffix: nat -> string): (r: Result<Manager>)
    ensures r.Success? <==> Fits(PadsIn(doc.components), m.pads.capacity) && |HolesIn(doc.components)| <= m.drills.capacity
    ensures r.Success? ==> |r.value.drills.holes| == |HolesIn(doc.components)|
    ensures r.Success? ==> forall k :: 0 <= k < |r.value.drills.holes| ==>
      var h := HolesIn(doc.components)[k];
      r.value.drills.holes[k] == Hole(if h.id != "" then h.id else HOLE_ID_PREFIX + idSuffix(k), h.pos, h.diameter)
  {
    LoadWith(m, doc, idSuffix, true)
  }

  function PadRecords(ps: seq<Pad>): seq<Component>
  {
    seq(|ps|, i requires 0 <= i < |ps| => PadRecord(ps[i]))
  }

  function HoleRecords(hs: seq<Hole>): seq<Component>
  {
    seq(|hs|, i requires 0 <= i < |hs| => HoleRecord(hs[i]))
  }

  function TraceRecords(ts: seq<Trace>): seq<Component>
  {
    seq(|ts|, i requires 0 <= i < |ts| => TraceRecord(ts[i]))
  }

  /** Export order: pads first, then holes, then traces. */
  function Rank(c: Component): nat
  {
    match c
    case PadRecord(_) => 0
    case HoleRecord(_) => 1
    case TraceRecord(_) => 2
    case OtherRecord(_) => 3
  }

  /** exportJSON: the board's current dimensions; all pads, then all holes, then all traces. */
  function Export(m: Manager): (d: Document)
    ensures d.board == Some(BoardDims(m.board.width, m.board.height, m.board.thickness))
    ensures |d.components| == |m.pads.pads| + |m.drills.holes| + |m.traces.traces|
    ensures forall i, j :: 0 <= i < j < |d.components| ==> Rank(d.components[i]) <= Rank(d.components[j])
    ensures forall i :: 0 <= i < |m.pads.pads| ==> d.components[i] == PadRecord(m.pads.pads[i])
    ensures forall i :: 0 <= i < |m.drills.holes| ==> d.components[|m.pads.pads| + i] == HoleRecord(m.drills.holes[i])
    ensures forall i :: 0 <= i < |m.traces.traces| ==>
      d.components[|m.pads.pads| + |m.drills.holes| + i] == TraceRecord(m.traces.traces[i])
  {
    var ps := PadRecords(m.pads.pads);
    var hs := HoleRecords(m.drills.holes);
    var ts := TraceRecords(m.traces.traces);
    assert forall i :: 0 <= i < |hs| ==> (ps + hs + ts)[|ps| + i] == hs[i];
    assert forall i :: 0 <= i < |ts| ==> (ps + hs + ts)[|ps| + |hs| + i] == ts[i];
    assert forall i :: 0 <= i < |ps + hs + ts| ==>
      Rank((ps + hs + ts)[i]) == if i < |ps| then 0 else if i < |ps| + |hs| then 1 else 2;
    Document(Some(BoardDims(m.board.width, m.board.height, m.board.thickness)), ps + hs + ts)
  }

  /** The exported records are exactly the manager's holes, pads and traces (the pads and traces
      come back whenever their kinds are ones the loader accepts). */
  lemma ExportContents(m: Manager)
    ensures HolesIn(Export(m).components) == m.drills.holes
    ensures (forall i :: 0 <= i < |m.pads.pads| ==> IsPadType(m.pads.pads[i].kind)) ==> PadsIn(Export(m).components) == m.pads.pads
    ensures (forall i :: 0 <= i < |m.traces.traces| ==> m.traces.traces[i].kind == PATH_TYPE && m.traces.traces[i].layer != "") ==>
      TracesIn(Export(m).components) == m.traces.traces
  {
    assert Export(m).components == PadRecords(m.pads.pads) + HoleRecords(m.drills.holes) + TraceRecords(m.traces.traces);
    RecordsContents(m.pads.pads, m.drills.holes, m.traces.traces);
  }

  lemma RecordsContents(pads: seq<Pad>, holes: seq<Hole>, traces: seq<Trace>)
    ensures HolesIn(PadRecords(pads) + HoleRecords(holes) + TraceRecords(traces)) == holes
    ensures (forall i :: 0 <= i < |pads| ==> IsPadType(pads[i].kind)) ==>
      PadsIn(PadRecords(pads) + HoleRecords(holes) + TraceRecords(traces)) == pads
    ensures (forall i :: 0 <= i < |traces| ==> traces[i].kind == PATH_TYPE && traces[i].layer != "") ==>
      TracesIn(PadRecords(pads) + HoleRecords(holes) + TraceRecords(traces)) == traces
  {
    var ps := PadRecords(pads);
    var hs := HoleRecords(holes);
    var ts := TraceRecords(traces);
    InAppend(ps, hs);
    InAppend(ps + hs, ts);
    HolesOfRecords(holes);
    NoHolesAmongPads(pads);
    NoHolesAmongTraces(traces);
  }

  lemma {:induction false} HolesOfRecords(hs: seq<Hole>)
    ensures HolesIn(HoleRecords(hs)) == hs
    ensures PadsIn(HoleRecords(hs)) == [] && TracesIn(HoleRecords(hs)) == []
    decreases |hs|
  {
    if |hs| > 0 {
      assert HoleRecords(hs)[1..] == HoleRecords(hs[1..]);
      HolesOfRecords(hs[1..]);
    }
  }

  lemma {:induction false} NoHolesAmongPads(ps: seq<Pad>)
    ensures HolesIn(PadRecords(ps)) == [] && TracesIn(PadRecords(ps)) == []
    ensures (forall i :: 0 <= i < |ps| ==> IsPadType(ps[i].kind)) ==> PadsIn(PadRecords(ps)) == ps
    decreases |ps|
  {
    if |ps| > 0 {
      assert PadRecords(ps)[1..] == PadRecords(ps[1..]);
      NoHolesAmongPads(ps[1..]);
    }
  }

  lemma {:induction false} NoHolesAmongTraces(ts: seq<Trace>)
    ensures HolesIn(TraceRecords(ts)) == [] && PadsIn(TraceRecords(ts)) == []
    ensures (forall i :: 0 <= i < |ts| ==> ts[i].kind == PATH_TYPE && ts[i].layer != "") ==> TracesIn(TraceRecords(ts)) == ts
    decreases |ts|
  {
    if |ts| > 0 {
      assert TraceRecords(ts)[1..] == TraceRecords(ts[1..]);
      NoHolesAmongTraces(ts[1..]);
    }
  }

  lemma {:induction false} LoadedKinds(cs: seq<Component>)
    ensures forall i :: 0 <= i < |PadsIn(cs)| ==> IsPadType(PadsIn(cs)[i].kind)
    ensures forall i :: 0 <= i < |TracesIn(cs)| ==> TracesIn(cs)[i].kind == PATH_TYPE && TracesIn(cs)[i].layer != ""
    decreases |cs|
  {
    if |cs| > 0 {
      LoadedKinds(cs[1..]);
    }
  }

  /** Round trip: exporting a freshly loaded document gives back its board exactly, the same pad and
      trace records a load would build from it, and holes equal in position and diameter. */
  lemma ExportAfterLoad(m: Manager, doc: Document, idSuffix: nat -> string)
    requires doc.board.Some?
    requires Fits(PadsIn(doc.components), m.pads.capacity) && |HolesIn(doc.components)| <= m.drills.capacity
    ensures LoadData(m, doc, idSuffix).Success?
    ensures
      var e := Export(LoadData(m, doc, idSuffix).value);
      && e.board == doc.board
      && PadsIn(e.components) == PadsIn(doc.components)
      && TracesIn(e.components) == TracesIn(doc.components)
      && |HolesIn(e.components)| == |HolesIn(doc.components)|
      && forall k :: 0 <= k < |HolesIn(e.components)| ==>
           HolesIn(e.components)[k].pos == HolesIn(doc.components)[k].pos
           && HolesIn(e.components)[k].diameter == HolesIn(doc.components)[k].diameter
  {
    var l := LoadData(m, doc, idSuffix).value;
    LoadedKinds(doc.components);
    ExportContents(l);
  }

  /** Hole ids do not survive a round trip: the sample board's first mounting hole comes back under a generated id. */
  lemma LoadDropsHoleIds(m: Manager, idSuffix: nat -> string)
    requires m.drills.capacity >= 1
    ensures
      var doc := Document(Some(BoardDims(100.0, 80.0, 1.6)), [HoleRecord(Hole("mounting_hole_0", Vec3(-45.0, 0.0, -35.0), 4.0))]);
      var r := LoadData(m, doc, idSuffix);
      r.Success? && |HolesIn(Export(r.value).components)| == 1 && HolesIn(Export(r.value).components)[0].id != "mounting_hole_0"
  {
    var doc := Document(Some(BoardDims(100.0, 80.0, 1.6)), [HoleRecord(Hole("mounting_hole_0", Vec3(-45.0, 0.0, -35.0), 4.0))]);
    assert HolesIn(doc.components) == [Hole("mounting_hole_0", Vec3(-45.0, 0.0, -35.0), 4.0)];
    assert PadsIn(doc.components) == [];
    var id := (HOLE_ID_PREFIX + idSuffix(0));
    assert id[0] == 'h';
    assert id != "mounting_hole_0";
    var r := LoadData(m, doc, idSuffix);
    assert r.Success?;
    assert r.value.drills.holes[0].id == id;
    ExportContents(r.value);
  }

  /** Passing the id on makes holes round-trip exactly, ids included, whenever every hole has an id. */
  lemma ExportAfterLoadKeepingIds(m: Manager, doc: Document, idSuffix: nat -> string)
    requires Fits(PadsIn(doc.components), m.pads.capacity) && |HolesIn(doc.components)| <= m.drills.capacity
    requires forall k :: 0 <= k < |HolesIn(doc.components)| ==> HolesIn(doc.components)[k].id != ""
    ensures LoadDataKeepingIds(m, doc, idSuffix).Success?
    ensures HolesIn(Export(LoadDataKeepingIds(m, doc, idSuffix).value).components) == HolesIn(doc.components)
  {
    ExportContents(LoadDataKeepingIds(m, doc, idSuffix).value);
  }

  /** deleteComponent: try the pads, then the traces; holes and the board are never touched. */
  function DeleteComponent(m: Manager, id: string): (r: Manager)
    requires m.Valid()
    ensures r.Valid() && r.board == m.board && r.drills == m.drills && SameCapacity(m, r) && NoNewFlags(m, r)
    ensures AtMostFirstRemoved(m.pads.pads, r.pads.pads, PadId, id)
    ensures AtMostFirstRemoved(m.traces.traces, r.traces.traces, TraceId, id)
    ensures (forall k :: 0 <= k < |m.pads.pads| ==> m.pads.pads[k].id != id) ==> r.pads == m.pads
    ensures (exists k :: 0 <= k < |m.pads.pads| && m.pads.pads[k].id == id) ==> DrawsPads(r.pads)
    ensures (forall k :: 0 <= k < |m.traces.traces| ==> m.traces.traces[k].id != id) ==> r.traces == m.traces
    ensures (exists k :: 0 <= k < |m.traces.traces| && m.traces.traces[k].id == id) ==>
      && r.traces.group == WithoutTag(m.traces.group, id)
      && forall s :: s in r.traces.group <==> s in m.traces.group && s.tag != id
  {
    var ps := DeletePad(m.pads, id);
    var ts := DeleteTrace(m.traces, id);
    PadDeletion(m.pads, id);
    PadDeletionRebuilds(m.pads, id);
    TraceDeletion(m.traces, id);
    m.(pads := ps, traces := ts)
  }

  lemma PadDeletion(s: PadSystem, id: string)
    requires s.Valid()
    ensures AtMostFirstRemoved(s.pads, DeletePad(s, id).pads, PadId, id)
    ensures forall b :: DeletePad(s, id).Get(b).hovered <= s.Get(b).hovered && DeletePad(s, id).Get(b).selected <= s.Get(b).selected
  {
    var r := DeletePad(s, id);
    match Seqs.FirstIndexOf(s.pads, PadId, id)
    case None =>
      FirstRemoved(s.pads, r.pads, PadId, id);
    case Some(k) =>
      assert s.pads[k].id == id;
      assert forall j :: 0 <= j < k ==> s.pads[j].id != id;
      FirstRemoved(s.pads, r.pads, PadId, id);
  }

  lemma PadDeletionRebuilds(s: PadSystem, id: string)
    requires s.Valid()
    ensures (exists k :: 0 <= k < |s.pads| && s.pads[k].id == id) ==> DrawsPads(DeletePad(s, id))
  {
    var f := Seqs.FirstIndexOf(s.pads, PadId, id);
    if f.Some? {
      assert s.pads[f.value].id == id;
      assert forall j :: 0 <= j < f.value ==> s.pads[j].id != id;
    }
  }

  lemma TraceDeletion(ts: TraceSystem, id: string)
    requires ts.Valid()
    ensures AtMostFirstRemoved(ts.traces, DeleteTrace(ts, id).traces, TraceId, id)
    ensures forall s :: s in DeleteTrace(ts, id).group ==> s in ts.group
    ensures (exists k :: 0 <= k < |ts.traces| && ts.traces[k].id == id) ==>
      && DeleteTrace(ts, id).group == WithoutTag(ts.group, id)
      && forall s :: s in DeleteTrace(ts, id).group <==> s in ts.group && s.tag != id
  {
    var r := DeleteTrace(ts, id);
    match Seqs.FirstIndexOf(ts.traces, TraceId, id)
    case None =>
      FirstRemoved(ts.traces, r.traces, TraceId, id);
    case Some(k) =>
      assert ts.traces[k].id == id;
      assert forall j :: 0 <= j < k ==> ts.traces[j].id != id;
      FirstRemoved(ts.traces, r.traces, TraceId, id);
  }

  /** `r` is `s` without its first element keyed `id`, or `s` itself when no element has that key. */
  ghost predicate AtMostFirstRemoved<T>(s: seq<T>, r: seq<T>, key: T -> string, id: string)
  {
    && ((forall j :: 0 <= j < |s| ==> key(s[j]) != id) ==> r == s)
    && (forall k :: 0 <= k < |s| && key(s[k]) == id && (forall j :: 0 <= j < k ==> key(s[j]) != id) ==>
          r == s[..k] + s[k + 1..])
  }

  /** At most one record goes, and only when some record has the id. */
  lemma {:induction false} RemovedCount<T>(s: seq<T>, r: seq<T>, key: T -> string, id: string)
    requires AtMostFirstRemoved(s, r, key, id)
    ensures multiset(r) <= multiset(s)
    ensures |r| == |s| - (if exists j :: 0 <= j < |s| && key(s[j]) == id then 1 else 0)
  {
    var f := Seqs.FirstIndexOf(s, key, id);
    if f.None? {
      assert r == s;
    } else {
      var k := f.value;
      assert r == s[..k] + s[k + 1..];
      DropOne(s, k);
      assert key(s[k]) == id;
    }
  }

  lemma DropOne<T>(s: seq<T>, k: nat)
    requires k < |s|
    ensures |s[..k] + s[k + 1..]| == |s| - 1
    ensures multiset(s[..k] + s[k + 1..]) <= multiset(s)
  {
    assert s == s[..k] + [s[k]] + s[k + 1..];
    assert multiset(s) == multiset(s[..k]) + multiset([s[k]]) + multiset(s[k + 1..]);
  }

  lemma FirstRemoved<T>(s: seq<T>, r: seq<T>, key: T -> string, id: string)
    requires Seqs.FirstIndexOf(s, key, id).None? ==> r == s
    requires Seqs.FirstIndexOf(s, key, id).Some? ==> r == s[..Seqs.FirstIndexOf(s, key, id).value] + s[Seqs.FirstIndexOf(s, key, id).value + 1..]
    ensures AtMostFirstRemoved(s, r, key, id)
  {
    forall k | 0 <= k < |s| && key(s[k]) == id && (forall j :: 0 <= j < k ==> key(s[j]) != id)
      ensures r == s[..k] + s[k + 1..]
    {
      var f := Seqs.FirstIndexOf(s, key, id);
      assert f.Some?;
      assert !(f.value < k) && !(k < f.value);
    }
  }

  /** addPad through the manager. */
  function AddPad(m: Manager, p: Pad): (r: Result<Manager>)
    requires m.Valid()
    ensures r.Success? <==> |OfBatch(m.pads.pads, BatchOf(p))| < m.pads.capacity
    ensures r.Success? ==> r.value.Valid() && r.value.pads.pads == m.pads.pads + [p] && NoNewFlags(m, r.value)
    ensures r.Success? ==> r.value.traces == m.traces && r.value.drills == m.drills && r.value.board == m.board && SameCapacity(m, r.value)
    ensures r.Success? ==> forall b :: r.value.pads.Get(b).hovered == {} && r.value.pads.Get(b).selected == {}
    ensures r.Success? ==> DrawsPads(r.value.pads)
  {
    var ps :- Pads.AddPad(m.pads, p);
    assert ps.pads == ps.pads[..|m.pads.pads|] + [p];
    Success(m.(pads := ps))
  }

  /** addTrace through the manager. */
  function AddTrace(m: Manager, t: Trace): (r: Manager)
    requires m.Valid()
    ensures r.Valid() && r.traces.traces == m.traces.traces + [Typed(t)] && NoNewFlags(m, r)
    ensures r.traces.group == m.traces.group + SegmentsOf(Typed(t), m.traces.nextUid)
    ensures r.traces.nextUid == m.traces.nextUid + |SegmentsOf(Typed(t), m.traces.nextUid)|
    ensures r.pads == m.pads && r.drills == m.drills && r.board == m.board
  {
    assert forall s :: s in SegmentsOf(Typed(t), m.traces.nextUid) ==> !s.hovered && !s.selected;
    m.(traces := Traces.AddTrace(m.traces, t))
  }
}
