# Graph editor: grid sampling, edge enumeration, save and load

This project models the graph-construction and persistence logic of the Unity
editor window `GraphEditor` (`Assets/Scripts/Graph/Editor/GraphEditor.cs`), and
proves properties of that model. The window does five things:

- **Grid sampling** (`CreateGraph`). It projects a `size x size` grid of sample
  points down onto the scene's surface. Slot `i*size+j` of a sparse node array
  gets a node at each hit; the slot stays null where the sample missed.
- **Walkability checks.** A node is switched off when the surface carries the
  No Walk layer (23), when the slope is too steep (`IsSlopeValid`), or when a
  No Walk wall is close (`IsNearWall`).
- **Edge enumeration** (`DrawEdges`). Every cell of the array links to its
  right, lower and two diagonal neighbours, where both slots hold a node.
- **Save** (`SaveXML`). The node array is copied into `Nodes`/`Connected`
  records.
- **Load** (`LoadXML`). The records are rebuilt into a new node array in two
  phases: first the nodes, then their neighbour lists. The edges are then drawn
  again.

Modules:

- `Geometry`: positions (`Vec3`, reals) and the raycast oracle. The physics
  engine is a function parameter from origin, direction and reach to a hit.
- `Validity`: `IsSlopeValid` and `IsNearWall`, as pure functions.
- `Grid`: slot arithmetic and the edge enumeration. The enumeration is stated
  over an occupancy mask (which slots are non-null), as the sequence of slot
  pairs DrawEdges creates, in creation order.
- `Records`: the save format, and `Relink`, which says what loading and saving
  again gives back.
- `Editor`: the classes `Node`, `GraphManager` and `GraphEditor`, whose methods
  update their fields and arrays in place. Nodes refer to their neighbours by
  reference, as in the source.

Each loop of the source is a `while`/`for` loop here. Each loop body that
carries its own invariant became a helper method:

- `SampleRow`/`Sample` for CreateGraph,
- `DrawRow`/`DrawCell` for DrawEdges,
- `SaveNode` for SaveXML,
- `Rebuild`, with `PlaceAll`/`Link`, for the two phases of LoadXML.

## Model

| member | source | states |
|---|---|---|
| `Validity.IsSlopeValid` | Assets/Scripts/Graph/Editor/GraphEditor.cs:162-175 | after folding slopes above 90 to 180 - slope, valid exactly when slope <= maxSlope or slope >= 180 - maxSlope |
| `Validity.SlopeBoundary` | Assets/Scripts/Graph/Editor/GraphEditor.cs:170-174 | the bound is inclusive: a slope of exactly maxSlope is valid, any steeper slope up to 90 is not |
| `Validity.SlopeFoldSymmetric` | Assets/Scripts/Graph/Editor/GraphEditor.cs:166-169 | an upside-down normal (180 - slope) is judged like the upright one |
| `Validity.Probes` | Assets/Scripts/Graph/Editor/GraphEditor.cs:185-188 | four probes, fired from maxBound below the node with reach maxBound |
| `Validity.IsNearWall` | Assets/Scripts/Graph/Editor/GraphEditor.cs:183-194 | the short-circuit chain of the four probes, of which only the first hit is tested; it answers true only when some probe hits layer 23, and `Validity.NearWallIsFirstHit` gives the exact rule |
| `Validity.NearWallIsFirstHit` | Assets/Scripts/Graph/Editor/GraphEditor.cs:183-194 | near a wall exactly when some probe is the first in the order forward, back, right, left to hit, and that hit is layer 23; no hit at all means not near a wall |
| `Validity.FirstHitMasks` | Assets/Scripts/Graph/Editor/GraphEditor.cs:185-192 | a forward hit on another layer decides "not near a wall", whatever the later probes would hit |
| `Grid.Slot` | Assets/Scripts/Graph/Editor/GraphEditor.cs:116-117 | slot i*size+j lies in [0, size*size), the array CreateGraph allocates |
| `Grid.SlotCell` | Assets/Scripts/Graph/Editor/GraphEditor.cs:116-117 | division and remainder by size give back i and j, so distinct samples get distinct slots |
| `Grid.CellBounds` | Assets/Scripts/Graph/Editor/GraphEditor.cs:209-222 | every slot DrawEdges reads at cell (i, j) under its guards is below size*size |
| `Grid.RowStep` | Assets/Scripts/Graph/Editor/GraphEditor.cs:207-223 | one inner-loop step appends the cell's edges to the pass so far |
| `Grid.GridStep` | Assets/Scripts/Graph/Editor/GraphEditor.cs:205-224 | one outer-loop step appends a full pass to the edges so far |
| `Grid.CellEdgesSpec` | Assets/Scripts/Graph/Editor/GraphEditor.cs:209-222 | a cell creates an edge exactly when it is one of its four patterns and both slots hold a node |
| `Grid.RowEdgesSpec` | Assets/Scripts/Graph/Editor/GraphEditor.cs:207-223 | the first j cells of a pass create exactly their linked pattern edges |
| `Grid.GridEdgesSpec` | Assets/Scripts/Graph/Editor/GraphEditor.cs:205-224 | the first i passes create exactly the linked pattern edges of their cells |
| `Grid.EdgePairsSpec` | Assets/Scripts/Graph/Editor/GraphEditor.cs:205-224 | an edge is created exactly when it is a grid pattern edge at some cell and both slots hold a node (both directions) |
| `Grid.PatternEndpoints` | Assets/Scripts/Graph/Editor/GraphEditor.cs:209-222 | each of the four patterns joins two distinct slots below size*size |
| `Grid.PatternCreated` | Assets/Scripts/Graph/Editor/GraphEditor.cs:205-224 | a pattern edge of any cell whose two slots hold nodes is among the created edges |
| `Grid.EdgesValid` | Assets/Scripts/Graph/Editor/GraphEditor.cs:205-224 | every created edge has distinct endpoints below size*size, both holding a node |
| `Grid.HoleIsolated` | Assets/Scripts/Graph/Editor/GraphEditor.cs:211-221 | a null slot is an endpoint of no created edge |
| `Grid.BlockComplete` | Assets/Scripts/Graph/Editor/GraphEditor.cs:209-222 | the four nodes of a fully occupied 2x2 block are pairwise joined |
| `Grid.CellCount` | Assets/Scripts/Graph/Editor/GraphEditor.cs:209-222 | on a full grid a cell creates 4 edges inside the grid, fewer on its last row or column |
| `Grid.RowPrefixCount` | Assets/Scripts/Graph/Editor/GraphEditor.cs:207-223 | on a full grid all cells of a pass but the last create the same number of edges |
| `Grid.FullRowCount` | Assets/Scripts/Graph/Editor/GraphEditor.cs:207-223 | on a full grid a pass creates 4*size-3 edges, and the last pass size-1 |
| `Grid.FullGridCount` | Assets/Scripts/Graph/Editor/GraphEditor.cs:205-224 | with no null slot DrawEdges creates 2*size*(size-1) + 2*(size-1)^2 edges |
| `Grid.TwoByTwo` | Assets/Scripts/Graph/Editor/GraphEditor.cs:205-224 | a full 2x2 grid has 6 edges joining all four nodes pairwise |
| `Grid.ThreeByThreeHole` | Assets/Scripts/Graph/Editor/GraphEditor.cs:211-221 | in a 3x3 grid with a missing centre, no edge touches slot 4 |
| `Records.Relink` | Assets/Scripts/Graph/Editor/GraphEditor.cs:303-312 | loading then saving keeps the number of records |
| `Records.RelinkIdentity` | Assets/Scripts/Graph/Editor/GraphEditor.cs:303-312 | when every record sits at the position its index names, loading and saving again gives the records back unchanged |
| `Records.RelinkByPosition` | Assets/Scripts/Graph/Editor/GraphEditor.cs:308 | otherwise a stored index resolves to the wrong node: a two-record example that changes |
| `Editor.Node.Instantiate` | Assets/Scripts/Graph/Editor/GraphEditor.cs:115 | a new node at the given point with the prefab's active flag and no neighbours |
| `Editor.GraphManager.SetNodes` | Assets/Scripts/Graph/Editor/GraphEditor.cs:145 | the manager holds the given array |
| `Editor.GraphEditor.constructor` | Assets/Scripts/Graph/Editor/GraphEditor.cs:26-44 | the defaults size 15, maxSlope 30, maxBound 5, granularity 10, no nodes and no edges |
| `Editor.GraphEditor.GenerateGraph` | Assets/Scripts/Graph/Editor/GraphEditor.cs:68-74 | a new array of size*size slots sampled as CreateGraph promises (index, position, flag), and exactly its edges, none left from before; nothing about the neighbour lists, which drawing the edges may change |
| `Editor.GraphEditor.CreateGraph` | Assets/Scripts/Graph/Editor/GraphEditor.cs:102-146 | size*size slots. Slot i*size+j is null exactly when the downward ray at seed+(i*g, 0, j*g) misses. Otherwise it holds a fresh node with that index, at the hit point, with an empty neighbour list, active exactly when the prefab is active and none of the three checks fails. The nodes are pairwise distinct, and the manager holds the array |
| `Editor.GraphEditor.SampleRow` | Assets/Scripts/Graph/Editor/GraphEditor.cs:109-143 | row i's slots are sampled as above; every other slot is unchanged |
| `Editor.GraphEditor.Sample` | Assets/Scripts/Graph/Editor/GraphEditor.cs:111-141 | one sample: null on a miss, else a fresh node whose flag is only ever cleared, by layer 23, an invalid slope or a nearby wall |
| `Editor.GraphEditor.DeleteGraph` | Assets/Scripts/Graph/Editor/GraphEditor.cs:148-156 | an empty node array and an empty edge list |
| `Editor.GraphEditor.DrawEdges` | Assets/Scripts/Graph/Editor/GraphEditor.cs:197-225 | appends exactly `Grid.EdgePairs` of the occupancy mask, the cells' edges in the source's loop order, whose meaning `Grid.EdgePairsSpec` gives; it may change only the edge list and the nodes' neighbour lists |
| `Editor.GraphEditor.DrawRow` | Assets/Scripts/Graph/Editor/GraphEditor.cs:207-223 | one pass appends the edges of cells (i, 0) .. (i, size-1) in order |
| `Editor.GraphEditor.DrawCell` | Assets/Scripts/Graph/Editor/GraphEditor.cs:209-222 | one cell appends its right, down, diagonal and anti-diagonal edges, each only when both slots hold a node |
| `Editor.GraphEditor.SaveXML` | Assets/Scripts/Graph/Editor/GraphEditor.cs:244-264 | one record per slot, in slot order, each copying index, active flag, position and the neighbour entries (neighbour index, weight) in order |
| `Editor.GraphEditor.SaveNode` | Assets/Scripts/Graph/Editor/GraphEditor.cs:249-263 | the record of one node, as above |
| `Editor.GraphEditor.LoadXML` | Assets/Scripts/Graph/Editor/GraphEditor.cs:279-316 | a new array of pairwise distinct fresh nodes, one per record, each with the record's index, flag and position; the edges of the new array are appended, and the manager holds it |
| `Editor.GraphEditor.Rebuild` | Assets/Scripts/Graph/Editor/GraphEditor.cs:287-312 | the two phases: a fresh node per record with its index, flag and position, whose neighbour k is the node at the array position that entry k names, with its weight |
| `Editor.GraphEditor.PlaceAll` | Assets/Scripts/Graph/Editor/GraphEditor.cs:293-302 | phase 1: a fresh node per record with its index, flag and position and no neighbours yet |
| `Editor.GraphEditor.Link` | Assets/Scripts/Graph/Editor/GraphEditor.cs:305-311 | phase 2 for one node: its stored entries in order, each resolved as an array position |
| `Editor.LoadThenSave` | Assets/Scripts/Graph/Editor/GraphEditor.cs:244-312 | saving the nodes the two load phases built writes exactly `Records.Relink` of the records, which are the records themselves when each sits at the position its index names |
| `Editor.SaveThenLoad` | Assets/Scripts/Graph/Editor/GraphEditor.cs:244-312 | when every node's index is its slot and every neighbour's index is a slot, the saved records are indexed by position and refer only to records, and the nodes the two load phases rebuild from them have the same index, flag, world (transform) position and neighbour (index, weight) lists |

## Left out

- Engine and UI calls are not modelled: OnGUI, Init, the game objects that
  group nodes and edges, SetParent, naming, Debug.Log, and the destruction of
  the old graph object in DeleteGraph. They hold no graph data.
- OnInspectorUpdate and UpdateEdges are not modelled: they only redraw edges.
- CreateEdge is modelled as appending the slot pair to the edge list.
  Edge.SetEdge is not part of this model, nor is any neighbour insertion or
  weight formula inside it. The edge-drawing methods may change the neighbour
  lists of the array's nodes in any way.
- GraphManager.SetNodes is not part of this model. It is taken to store the
  given array.
- Assets/Scripts/Ref.cs is not part of this model: it is a demo that only
  instantiates prefabs and draws lines.
- The XML serializer and the file are not modelled. SaveXML returns its record
  sequence, and LoadXML takes the sequence that was read.
- Physics.Raycast is an oracle parameter. Vector3.Angle and TransformDirection
  are folded into the hit's `slope`.
- Single-precision floats are reals. Int32 overflow of `size * size` and
  `i * size + j` is not modelled, because integers are unbounded.
- `Validity.IsNearWall`: the source tests the layer of the probe hit's
  transform. The model uses the same hit layer field as CreateGraph's
  collider test.
- `Editor.Node.Instantiate`: the prefab's own index and position are not
  known. The model sets them to 0 and the placement point, and both callers
  overwrite both. The prefab's neighbour list is taken to be empty.
- `Editor.GraphEditor.DrawEdges`: the `m == null` early return is not
  modelled, because arrays are never null here.
- `Editor.GraphEditor.DrawEdges` requires the array to be large enough for the
  editor's `size`. The source would throw an index exception whenever a
  non-null slot is paired with a slot past the end.
- `Editor.GraphEditor.DrawEdges`: Edge.SetEdge may add neighbour entries to
  the two nodes of each edge. The model lets the edge-drawing methods change
  the nodes' neighbour lists and promises nothing about them.
- `Editor.GraphEditor.GenerateGraph` promises nothing about the new nodes'
  neighbour lists, for the same reason. CreateGraph alone leaves them empty.
- `Editor.GraphEditor.LoadXML` promises the index, flag and position of each
  node, but not its neighbour list, because its final DrawEdges call may change
  the lists. `Editor.GraphEditor.Rebuild` states the lists the two load phases
  build. The round trips `Editor.LoadThenSave` and `Editor.SaveThenLoad` are
  stated for those lists, not for the lists after DrawEdges.
- `Editor.GraphEditor.SaveXML` requires every slot to hold a node. The source
  dereferences every slot, so a null slot, which CreateGraph leaves wherever a
  sample missed, throws. Records are not skipped for null slots.
- `Editor.GraphEditor.LoadXML` requires every stored neighbour index to be an
  array position, and the record count to fit the editor's `size`. The source
  throws otherwise; no deserialisation error is reported gracefully.
- Stored neighbour indices are resolved as array positions, not by looking up
  a node's stored index. `Records.RelinkByPosition` shows where the two
  differ.
- The node array is a field of the editor here, not a static field shared by
  every editor window.
- LoadXML does not clear the edge list before drawing, so loaded edges follow
  any earlier ones. The model keeps that.
