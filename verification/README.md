# PCB editor layout and interaction core, in Dafny

A model of the layout core of a browser PCB editor. It covers four pieces:

- The three renderers behind a board: instanced pad batches, trace segment nodes and an instanced drill-hole batch.
- The substrate with its cutouts.
- The layout manager, which loads, exports, clears and deletes components.
- The interaction manager: hover and selection highlighting, the transform widget and its write-back, and the selection report handed to the side panel.

The 3D scene is reduced to the state the editor's logic reads and writes:

- An instanced batch is its written slot matrices, its `count`, its `visible` flag, and the sets of slots whose `aHovered` / `aSelected` attribute is 1.
- A trace segment node is a record. It carries a scene identity, the trace id it is tagged with, its box dimensions, its position, the point it was turned toward, and its two highlight uniforms.
- A matrix is a scale and a translation, with no rotation.
- The ray caster is an oracle. Every pointer event carries the nearest hit, if any. The only thing assumed about it is that it reports drawn instances and live nodes (`Interaction.Pickable`).

Modules, one per source file:

| module | file |
|---|---|
| `Wrappers`, `Geometry`, `Records`, `Seqs` | shared datatypes, the layer heights of the layer constants table, `findIndex` / `splice` |
| `Pads` | `PadSystem.js` |
| `Traces` | `TraceSystem.js` |
| `Drills` | `DrillSystem.js` |
| `BoardShape` | `Board.js` |
| `Layout` | `PCBManager.js` |
| `Interaction` | `InteractionManager.js` |

Each module checks its operations against partners:

- **Reference filters.** `Pads.OfBatch` says which pads a batch draws. `Layout.PadsIn`, `TracesIn` and `HolesIn` say what a document contributes.
- **Representation invariants.** Each system has a `Valid`: counts match records, counts fit capacity, visibility tracks emptiness, and node identities increase. The manager's `NoNewFlags` states that structural changes only ever clear highlight flags.
- **Inverses.** Slot assignment is inverted by the instance lookup. Load is followed by export.
- **The engine invariant `Interaction.Inv`.** It is preserved by every event (`Interaction.NextKeepsInv`). It implies that at most one target is hovered and at most one is selected along any run (`Interaction.Run`).

Modelling conventions:

- Numbers are `real`. A segment keeps its squared length, because the model has no square root.
- A missing string field (id, type, layer) is the empty string.
- The random part of a generated hole id is a parameter `idSuffix: nat -> string`, indexed by the hole's position in the drill system.
- The trace system is replaced on `clear`. Its replacement keeps counting node identities from where the old one stopped, so a scene identity is never reused.

## Model

| member | source | states |
|---|---|---|
| BoardShape.NewBoard | src/engine/systems/Board.js:5-13 | each dimension is its option when present and non-zero, else 100, 80 or 1.6 independently; the initial shape has no cutouts and is extruded to the thickness |
| BoardShape.Outline | src/engine/systems/Board.js:16-21 | the outline has four corners starting at (-w/2, -h/2), its edges are axis-aligned and opposite corners mirror through the origin |
| BoardShape.Cutouts | src/engine/systems/Board.js:24-28 | one circular cutout per hole, in hole order, centred on the hole's x and z with half the diameter as radius |
| BoardShape.UpdateDimensions | src/engine/systems/Board.js:60-65 | the new dimensions are stored, the outline is rebuilt for them, the extrusion depth is the new thickness and cutout i is hole i's circle |
| Drills.Init | src/engine/systems/DrillSystem.js:11-26 | a new drill system holds no holes, has the requested capacity and an invisible batch |
| Drills.WriteSlots | src/engine/systems/DrillSystem.js:41-51 | slot i is hole i's cylinder: diameter-wide, 1.7 high and centred 0.8 below the surface, whatever the board's thickness |
| Drills.UpdateHoles | src/engine/systems/DrillSystem.js:37-57 | the rebuild succeeds exactly when the holes fit the batch; it keeps the holes, counts them, is visible iff there is one, and gives each hole's slot a scale of (diameter, 1.7, diameter) and a position at the hole's x and z, 0.8 below the top |
| Drills.AddHole | src/engine/systems/DrillSystem.js:28-35 | exactly one record is appended, the earlier ones stay; it keeps the position and diameter and the given id, generating `hole_...` only when the id is missing |
| Pads.Init | src/engine/systems/PadSystem.js:14-46 | both batches start empty, counted 0 and invisible, with the requested capacity |
| Pads.Fill | src/engine/systems/PadSystem.js:66-78 | after the forEach, each batch's slots are the matrices of exactly the pads it draws, in sequence order |
| Pads.BatchesPartition | src/engine/systems/PadSystem.js:73-80 | every pad is drawn by exactly one batch: the two batches together hold the pad sequence as a multiset, their counts add up to the number of pads, and the circle batch holds exactly the `smd_circle` pads |
| Pads.OfBatchMembers | src/engine/systems/PadSystem.js:73-77 | a batch draws a pad exactly when the pad is in the sequence and belongs to that batch |
| Pads.UpdatePads | src/engine/systems/PadSystem.js:53-94 | the rebuild succeeds exactly when both batches fit; all highlight flags are lowered; each batch counts exactly its pads, is visible iff non-empty, and slot k holds the k-th such pad's footprint, position and layer height |
| Pads.AddPad | src/engine/systems/PadSystem.js:48-51 | the pad is appended after the unchanged earlier pads; only its own batch grows by one, slot k of each rebuilt batch draws the k-th pad of that batch, and the call succeeds iff that batch had room |
| Pads.PadOccupiesItsSlot | src/engine/systems/PadSystem.js:73-77 | every pad is drawn in its own batch at the slot numbered by how many earlier pads share that batch |
| Pads.SlotOrderFollowsSequence | src/engine/systems/PadSystem.js:73-77 | within a batch, an earlier pad gets a lower slot |
| Pads.FindInstance | src/engine/systems/PadSystem.js:98-105 | the counting scan returns the pad of the searched type at the requested rank, and nothing when there are too few such pads |
| Pads.PadByInstance | src/engine/systems/PadSystem.js:96-106 | the lookup finds the i-th pad whose type is the batch's type string, and null past the last one |
| Pads.PadByInstanceInvertsSlots | src/engine/systems/PadSystem.js:96-106 | when every pad has a document pad type, the lookup of slot i returns exactly the pad drawn in that slot, and null past the batch's count |
| Pads.PadByInstanceFindsEveryPad | src/engine/systems/PadSystem.js:96-106 | round trip: looking up a pad's own slot returns that pad |
| Pads.OtherTypeDrawnButNotFound | src/engine/systems/PadSystem.js:96-106 | in any pad sequence, a pad of any other type is drawn in the rectangle batch, but the lookup, which searches for `smd_rect`, returns it for no instance index |
| Pads.DeletePad | src/engine/systems/PadSystem.js:108-114 | an unknown id changes nothing, not even the flags; otherwise only the first pad with the id is removed, the rest keep their order, and the rebuild lowers all flags and has slot k of each batch draw the k-th remaining pad of that batch |
| Seqs.FirstIndexOf | src/engine/systems/PadSystem.js:109 | the index found has the id and no earlier element does; none is found exactly when no element has it |
| Seqs.RemoveAt | src/engine/systems/PadSystem.js:111 | splicing one element out shortens by one and shifts exactly the later elements down |
| Traces.Empty | src/engine/systems/TraceSystem.js:6-12 | a new trace system holds no records and no nodes |
| Traces.SegmentsOf | src/engine/systems/TraceSystem.js:17-40 | a trace of N points gives max(N-1, 0) nodes; node k is the unflagged box over points k and k+1, with the trace's width, 0.01 thickness, the squared distance as length, at the copper height of the layer and tagged with the trace id |
| Traces.Typed | src/engine/systems/TraceSystem.js:15 | the stored record differs from the given one at most in its type, which becomes `path` exactly when it was missing |
| Traces.AddTrace | src/engine/systems/TraceSystem.js:14-41 | the record is appended and exactly its segment nodes are added after the existing ones, with new identities; the next free identity moves on by the number of nodes added |
| Traces.NodesOfAppend | src/engine/systems/TraceSystem.js:14-41 | adding two lists of traces one after the other builds the nodes of the first list, then those of the second, numbered from where the first stopped |
| Traces.WithoutTag | src/engine/systems/TraceSystem.js:48-60 | the remaining nodes are exactly those not tagged with the id |
| Traces.DeleteTrace | src/engine/systems/TraceSystem.js:43-62 | an unknown id changes nothing; otherwise the first record with the id is removed and every node tagged with it, and only those, leaves the group |
| Layout.NewManager | src/engine/systems/PCBManager.js:7-17 | a new manager has the default 100 x 80 x 1.6 board, pad batches of 1000 and a hole batch of 500, and nothing loaded |
| Layout.Clear | src/engine/systems/PCBManager.js:75-85 | pads, holes, trace records and nodes are all emptied, the batches hidden, the board and capacities kept, and no flag raised |
| Layout.Dispatch | src/engine/systems/PCBManager.js:34-55 | on a record whose variant agrees with its type, the record is loaded as a pad, a trace or a hole exactly when its type is a pad type, `path` or `hole`; any other record is skipped |
| Layout.AddComponent | src/engine/systems/PCBManager.js:33-56 | one component adds exactly its pad, its trace with that trace's segment nodes, or its hole (others are skipped), and fails exactly when the pad's batch or the hole batch is full |
| Layout.LoadPad | src/engine/systems/PCBManager.js:34-41 | a pad record is appended iff its type is `smd_rect` or `smd_circle` |
| Layout.LoadTrace | src/engine/systems/PCBManager.js:42-49 | a `path` record is appended with its layer defaulting to `top`, and its segment nodes are added to the group under new identities; any other trace is skipped and adds no node |
| Layout.LoadHole | src/engine/systems/PCBManager.js:50-55 | a hole record is appended with its position and diameter |
| Layout.AddComponents | src/engine/systems/PCBManager.js:32-57 | adding a component list in order appends exactly its pads, traces and holes, adds the segment nodes of its traces in order with new identities, and succeeds iff the document fits the capacities |
| Layout.LoadedBoard | src/engine/systems/PCBManager.js:24-29 | with a board entry, the board takes the document's dimensions with one cutout per hole-typed component in document order; without one, it is untouched |
| Layout.LoadWith | src/engine/systems/PCBManager.js:19-58 | a load clears everything, then holds exactly the document's pads, traces and holes in document order and exactly the segment nodes of its traces, and fails exactly when the document overflows a batch |
| Layout.LoadData | src/engine/systems/PCBManager.js:50-55 | as written: every loaded hole gets a generated id, whatever id the record carried |
| Layout.LoadDataKeepingIds | src/engine/systems/PCBManager.js:50-55 | corrected: a loaded hole keeps its record's id and gets a generated one only when it has none |
| Layout.Export | src/engine/systems/PCBManager.js:87-100 | the export carries the current board dimensions and one record per pad, hole and trace: the pads in order, then the holes in order, then the traces in order |
| Layout.ExportContents | src/engine/systems/PCBManager.js:93-98 | the exported holes are exactly the drill system's holes, and the exported pads and traces are exactly the stored ones when their types are ones a load accepts |
| Layout.ExportAfterLoad | src/engine/systems/PCBManager.js:19-100 | round trip: exporting a just-loaded document gives back its board and exactly the pads and traces a load builds, and holes equal in position and diameter |
| Layout.LoadDropsHoleIds | src/engine/systems/PCBManager.js:50-55 | the toolbar sample board's `mounting_hole_0` comes back from load and export under a different id |
| Layout.ExportAfterLoadKeepingIds | src/engine/systems/PCBManager.js:50-55 | with ids passed on, holes that all have ids round-trip exactly, ids included |
| Layout.DeleteComponent | src/engine/systems/PCBManager.js:68-73 | deleting removes at most the first pad and the first trace with the id, leaves holes and the board alone, and raises no flag; without a pad of that id the pad system is untouched, otherwise its batches are rebuilt from the remaining pads; without a trace of that id the trace system is untouched, otherwise exactly the segment nodes tagged with the id leave the group |
| Layout.RemovedCount | src/engine/systems/PadSystem.js:108-114 | a delete by id removes at most one record, and one exactly when some record has the id |
| Layout.AddPad | src/engine/systems/PCBManager.js:64-66 | the pad is appended and the batches rebuilt, with every flag lowered and slot k of each batch drawing the k-th pad of that batch; traces, holes and board are untouched |
| Layout.AddTrace | src/engine/systems/PCBManager.js:60-62 | the typed record is appended and its segment nodes are added after the existing ones; pads, holes and board are untouched and no flag is raised |
| Interaction.WriteFlag | src/engine/interaction/InteractionManager.js:89-99 | setting a highlight changes only that target's flag of that kind: raised when it is drawn, lowered always |
| Interaction.ClearHover | src/engine/interaction/InteractionManager.js:101-107 | the remembered hover is forgotten and only its flag is lowered |
| Interaction.HoverStep | src/engine/interaction/InteractionManager.js:70-86 | on a miss the hover is cleared; on a hit that passes the guard the old hover's flag is replaced by the new target's; otherwise nothing changes |
| Interaction.CheckHoverAsWritten | src/engine/interaction/InteractionManager.js:58-87 | as written: the hit becomes the remembered hover, but it is only known that at most the hit carries the hover flag |
| Interaction.CheckHover | src/engine/interaction/InteractionManager.js:74 | corrected guard: after a pointer move, the hovered flag set is exactly the pointed target (empty on a miss) and selection flags are untouched |
| Interaction.WriteSlot | src/engine/interaction/InteractionManager.js:144-147 | the write-back changes only the bound slot's matrix; records, flags and pickability are unchanged |
| Interaction.SetPad | src/engine/interaction/InteractionManager.js:189-195 | the record behind the selection is replaced in place without a rebuild, and the batches stay valid |
| Interaction.MoveNode | src/engine/interaction/InteractionManager.js:150-152 | dragging a node moves exactly the node with that identity; flags and pickability are unchanged |
| Interaction.SelectedPadIndex | src/engine/interaction/InteractionManager.js:186-187 | corrected: the record behind slot i of batch b is found exactly when the batch draws more than i pads, and it is the pad drawn in that slot |
| Interaction.SelectedPadIndexInvertsSlot | src/engine/interaction/InteractionManager.js:186-187 | every pad is found again from its own batch and slot |
| Interaction.SelectedPadIsDrawnThere | src/engine/systems/PadSystem.js:96-106 | the record found is the one drawn in the slot, and for document pad types it is what getPadByInstance returns |
| Interaction.SelectedPadIndexAsWritten | src/engine/interaction/InteractionManager.js:186-187 | as written: the instance index is read as a position in the whole pad sequence |
| Interaction.AsWrittenAgreesOnCircles | src/engine/interaction/InteractionManager.js:186-187 | when every pad is circular, the lookup as written and the corrected one agree |
| Interaction.AsWrittenPicksWrongPad | src/engine/interaction/InteractionManager.js:186-187 | with a rectangular pad before a circular one, selecting circle instance 0 reaches the rectangular pad as written and the circular one when corrected |
| Interaction.RectThenCircle | src/engine/interaction/InteractionManager.js:186-187 | the same for any rectangular pad followed by a circular one |
| Interaction.UpdateSelectedDataAsWritten | src/engine/interaction/InteractionManager.js:184-206 | as written: the record at the instance index in the whole pad sequence is moved to the proxy position and reported; nothing happens past the end of the sequence |
| Interaction.DeleteSelectedAsWritten | src/engine/interaction/InteractionManager.js:223-234 | as written: the component deleted is the one whose id is that of the record at the instance index |
| Interaction.AsWrittenMovesWrongPad | src/engine/interaction/InteractionManager.js:184-206 | with pad A (rectangular) before pad B (circular) and circle instance 0 selected, the update as written moves and reports A, the corrected one moves and reports B |
| Interaction.AsWrittenDeletesWrongPad | src/engine/interaction/InteractionManager.js:223-234 | in that layout, deleteSelected as written looks up A's id and deletes A |
| Interaction.DeletesDrawnPad | src/engine/interaction/InteractionManager.js:223-234 | in that layout, the corrected deleteSelected looks up B's id and deletes B |
| Interaction.DeleteByIdRemovesFirst | src/engine/systems/PCBManager.js:68-73 | deleting by a pad's id removes exactly that pad when no pad before it has the id |
| Interaction.MoveRecord | src/engine/interaction/InteractionManager.js:189-206 | the chosen pad record, and no other, takes the proxy position, and it is reported with its new position |
| Interaction.PadInfo | src/engine/interaction/InteractionManager.js:197-206 | the report carries the pad's id, position and size, is labelled `Circular Pad` exactly for circles and `Pad` otherwise, and gives the area of the circle whose diameter is the pad's width |
| Interaction.UpdateSelectedData | src/engine/interaction/InteractionManager.js:179-221 | an instance selection moves the record drawn in the slot to the proxy position and reports it, a node selection reports its tag at the node's position, nothing is reported when no record stands behind the slot, and earlier reports are kept |
| Interaction.WriteBack | src/engine/interaction/InteractionManager.js:144-149 | the proxy hook only ever changes slot matrices, never records, flags or what is pickable |
| Interaction.DraggingChanged | src/engine/interaction/InteractionManager.js:35-37 | orbiting is on exactly when no drag is in progress |
| Interaction.Deselect | src/engine/interaction/InteractionManager.js:157-177 | with a selection: its flag is lowered, the widget detached, the hook dropped and one empty selection reported; without one, nothing happens |
| Interaction.Attach | src/engine/interaction/InteractionManager.js:121-152 | the target's selected flag is raised and the widget attached to the proxy at the instance's matrix, hooked to it, or to the node itself |
| Interaction.Select | src/engine/interaction/InteractionManager.js:119-155 | after select, the target is the one selected and the only new selected flag; the previous selection's flag is lowered and hover flags are untouched |
| Interaction.SelectAttaches | src/engine/interaction/InteractionManager.js:134-154 | select leaves the widget on the proxy placed at the slot's matrix (instance) or on the node at its position; an earlier selection is first reported cleared |
| Interaction.MouseDown | src/engine/interaction/InteractionManager.js:109-117 | a press hovers and selects the hit; a miss deselects unless a drag is in progress, in which case the selection stays |
| Interaction.DeleteSelected | src/engine/interaction/InteractionManager.js:223-234 | with a selection whose id is non-empty, the first pad and first trace with that id go, the pad batches are rebuilt when a pad went, exactly the nodes tagged with the id leave the scene when a trace went (flags aside, nothing else drawn changes), and the selection is cleared and reported; otherwise nothing happens |
| Interaction.HostAddPad | src/engine/systems/PCBManager.js:64-66 | a pad added from elsewhere appends it, rebuilds the batches so that each slot draws its pad, and only lowers flags; traces, holes and board are untouched; a full batch leaves the editor unchanged |
| Interaction.HostAddTrace | src/engine/systems/PCBManager.js:60-62 | a trace added from elsewhere appends it and its segment nodes and raises no flag; pads, holes and board are untouched |
| Interaction.HostLoad | src/engine/systems/PCBManager.js:19-58 | loading replaces the layout by the document's pads, traces with their segment nodes, and holes (ids kept, generated when missing), and rebuilds the board from the document's dimensions and holes; it raises no flag; a document that does not fit changes nothing |
| Interaction.HostClear | src/engine/systems/PCBManager.js:75-85 | clearing empties pads, holes, traces and segment nodes, keeps the board and raises no flag |
| Interaction.Start | src/engine/interaction/InteractionManager.js:5-29 | the engine starts with nothing hovered or selected, orbiting enabled, nothing reported, and the invariant holding |
| Interaction.OneHoverOneSelection | src/engine/interaction/InteractionManager.js:74-78 | under the invariant at most one target is highlighted as hovered and at most one as selected |
| Interaction.CheckHoverKeepsInv | src/engine/interaction/InteractionManager.js:58-87 | a pointer move, with either guard, keeps the invariant |
| Interaction.DeselectKeepsInv | src/engine/interaction/InteractionManager.js:157-177 | deselect keeps the invariant |
| Interaction.SelectKeepsInv | src/engine/interaction/InteractionManager.js:119-155 | select keeps the invariant: only the selection flagged, the hook bound exactly to an instance selection, the widget attached accordingly |
| Interaction.MouseDownKeepsInv | src/engine/interaction/InteractionManager.js:109-117 | a press keeps the invariant |
| Interaction.DragTickKeepsInv | src/engine/interaction/InteractionManager.js:39-47 | a drag step keeps the invariant |
| Interaction.DeleteSelectedKeepsInv | src/engine/interaction/InteractionManager.js:223-234 | the delete key keeps the invariant |
| Interaction.HostChangeKeepsInv | src/engine/systems/PadSystem.js:61-64 | a layout change that only lowers flags keeps the invariant |
| Interaction.NextKeepsInv | src/engine/interaction/InteractionManager.js:31-47 | every event the editor reacts to keeps the invariant |
| Interaction.Run | src/engine/interaction/InteractionManager.js:31-47 | along any run of events the invariant holds, so at most one target is ever hovered and at most one selected |
| Interaction.DragMovesSelectedPad | src/engine/interaction/InteractionManager.js:39-47 | dragging a selected instance moves only its slot's matrix and the record drawn there, and reports the record at its new place |
| Interaction.DragMovesSelectedNode | src/engine/interaction/InteractionManager.js:208-215 | dragging a selected node moves exactly that node at its own height and reports its tag at the new position |
| Interaction.StaleHoverAsWritten | src/engine/interaction/InteractionManager.js:74 | as written: after a pad is added under a resting pointer, the next move over the same instance leaves it unhighlighted |
| Interaction.HoverRestored | src/engine/interaction/InteractionManager.js:74 | corrected guard: the same move highlights exactly that target again |

## Left out

- Three.js rendering is not modelled: materials, shaders, shadows, bounding spheres, `needsUpdate` and `dispose`. Only the state the editor reads back is kept.
- Ray casting is not modelled. The nearest hit is an input, assumed only to be a drawn instance or a live node.
- The mouse-coordinate normalisation is not modelled.
- Square roots are not modelled. A segment stores its squared length.
- Quaternions and `lookAt` rotations are not modelled. A segment stores the point it faces.
- Floating-point rounding is not modelled, including that of `Math.PI`. A `NaN` option, falsy in the source, is not modelled either.
- Layout.AddComponent: a record whose variant disagrees with its type is skipped. Examples are an `OtherRecord` typed `smd_circle` and a pad record typed `path`. The source dispatches on the type alone (src/engine/systems/PCBManager.js:24 and 34-55) and builds a pad, trace, hole or cutout from fields that are undefined; the model has no undefined fields. Layout.Dispatch states that the two dispatches agree on every well-typed record.
- Pads.UpdatePads: the early return when the meshes were never initialised is not modelled, because the manager always initialises both systems.
- Pads.UpdatePads reports a `CapacityExceeded` failure where the source would write past the end of the instance buffer. A load or add that fails this way leaves the engine unchanged.
- Drills.UpdateHoles does the same for holes.
- Interaction.WriteSlot: a write-back to a slot past the batch's count is dropped. That slot is never drawn and the next rebuild overwrites it.
- Interaction.UpdateSelectedData: the write-back copies the full proxy translation into the record. The source does the same, including the pad's layer height as `pos[1]`.
- Interaction.Select: the rotation and scale parts of the proxy are not separated. The proxy is the slot's matrix.
- The cursor style is recorded but nothing is proved about it.
- `onSelectionChange` is taken as always registered, and every report is logged.
- Random hole-id suffixes come from the `idSuffix` parameter.
- Edge rendering, the scene manager, the render loop and the React UI are not part of this model.

## Findings

| source | as written | input that shows it | evidently intended | confidence | as-written member | corrected member |
|---|---|---|---|---|---|---|
| src/engine/interaction/InteractionManager.js:186-187 | the selected instance index is used as an index into the whole pad sequence (also at line 226) | pads `[A: smd_rect, B: smd_circle]`, select circle instance 0: pad A is moved, reported and deleted instead of B | the record drawn in that instance slot of that batch | not executed; high | Interaction.SelectedPadIndexAsWritten, Interaction.UpdateSelectedDataAsWritten, Interaction.DeleteSelectedAsWritten, Interaction.AsWrittenMovesWrongPad, Interaction.AsWrittenDeletesWrongPad | Interaction.SelectedPadIndex, Interaction.SelectedPadIndexInvertsSlot, Interaction.UpdateSelectedData, Interaction.DeletesDrawnPad |
| src/engine/systems/PCBManager.js:50-55 | hole records are passed to addHole without their id | the toolbar sample board's `mounting_hole_0` is exported under a generated `hole_...` id after a load | addHole keeps the record's id, as it does for any caller that passes one | not executed; medium | Layout.LoadData, Layout.LoadDropsHoleIds | Layout.LoadDataKeepingIds, Layout.ExportAfterLoadKeepingIds |
| src/engine/interaction/InteractionManager.js:74 | the hover guard compares only the remembered object and instance | hover a pad, add a pad (the rebuild lowers every flag), move over the same pad: it stays unhighlighted | re-raise the hover flag whenever the pointed target is not highlighted | not executed; medium | Interaction.CheckHoverAsWritten, Interaction.StaleHoverAsWritten | Interaction.CheckHover, Interaction.HoverRestored |

Each event of the editor uses the corrected member: `Interaction.UpdateSelectedData` and `Interaction.SelectedId` use `SelectedPadIndex`, `Interaction.HostLoad` uses `LoadDataKeepingIds`, and pointer moves use `CheckHover`.
