/**
 * The graph editor window (Assets/Scripts/Graph/Editor/GraphEditor.cs):
 * building the sparse node array from surface samples, enumerating edges,
 * saving the array as records and loading it back.
 *
 * Node components, the GraphManager singleton and the editor are classes
 * whose fields the methods update in place; a neighbour holds a reference
 * to another Node, as in the source.
 */
module Editor {
  import opened Geometry
  import opened Validity
  import opened Grid
  import opened Records

  /** One entry of a node's connectedList: the neighbouring node and the edge weight. */
  datatype Neighbor = Neighbor(node: Node, weight: real)

  /** The Node component of a vertex game object. */
  class Node {
    var index: int
    var active: bool
    /** Node.position, set by the editor. */
    var position: Vec3
    /** transform.position of the game object, where Instantiate placed it. */
    var worldPosition: Vec3
    var connectedList: seq<Neighbor>

    /**
     * Instantiate(node, at, Quaternion.identity): a copy of the vertex prefab
     * at `at`, whose active flag is the prefab's and whose neighbour list is
     * empty.
     */
    constructor Instantiate(prefabActive: bool, at: Vec3)
      ensures active == prefabActive && worldPosition == at && connectedList == []
    {
      index := 0;
      active := prefabActive;
      position := at;
      worldPosition := at;
      connectedList := [];
    }
  }

  /** GraphManager.singleton: the holder of the node array a consumer uses. */
  class GraphManager {
    var nodes: array<Node?>

    constructor ()
      ensures nodes.Length == 0
    {
      nodes := new Node?[0];
    }

    /** SetNodes: the manager now holds (an alias of) the given array. */
    method SetNodes(graph: array<Node?>)
      modifies this
      ensures nodes == graph
    {
      nodes := graph;
    }
  }

  /** Which slots of a node array hold a node. */
  function Occupancy(slots: seq<Node?>): (occupied: seq<bool>)
    ensures |occupied| == |slots|
  {
    seq(|slots|, k requires 0 <= k < |slots| => slots[k] != null)
  }

  /** The point CreateGraph samples for cell (i, j): seed + (i * granularity, 0, j * granularity). */
  function SamplePoint(seed: Vec3, granularity: real, i: int, j: int): Vec3 {
    seed.Add(Vec3(i as real * granularity, 0.0, j as real * granularity))
  }

  /**
   * What CreateGraph leaves in slot k given the downward raycast at its
   * sample point: null on a miss; otherwise a node with index k, placed
   * at the hit point, whose active flag is the prefab's,
   * cleared when the hit is on the No Walk layer, the slope is invalid or the
   * node is near a wall.
   */
  ghost predicate SampledSlot(slot: Node?, k: int, hit: Option<Hit>, prefabActive: bool,
                              physics: RaycastOracle, maxSlope: real, maxBound: real)
    reads slot
  {
    match hit
    case None => slot == null
    case Some(h) =>
      slot != null && slot.index == k && slot.position == h.point && slot.worldPosition == h.point
      && slot.active == (prefabActive && h.layer != NoWalkLayer && IsSlopeValid(h.slope, maxSlope)
                         && !IsNearWall(physics, h.point, maxBound))
  }

  /** The record SaveXML writes for node n. */
  ghost predicate SavedAs(record: Nodes, n: Node)
    reads n, set k | 0 <= k < |n.connectedList| :: n.connectedList[k].node
  {
    record.index == n.index && record.status == n.active && record.position == n.worldPosition
    && |record.connected| == |n.connectedList|
    && forall k | 0 <= k < |record.connected| ::
      record.connected[k] == Connected(n.connectedList[k].node.index, n.connectedList[k].weight)
  }

  /** Phase 1 of LoadXML has built slot n from record. */
  ghost predicate Placed(n: Node?, record: Nodes)
    reads n
  {
    n != null && n.index == record.index && n.active == record.status
    && n.position == record.position && n.worldPosition == record.position
  }

  /**
   * The first `count` neighbour entries of node n are those of the record,
   * each resolved to the node at the array position the entry names.
   */
  ghost predicate Resolved(n: Node, record: Nodes, slots: seq<Node?>, count: int)
    reads n
  {
    0 <= count <= |record.connected| && |n.connectedList| == count
    && forall k | 0 <= k < count ::
      0 <= record.connected[k].index < |slots|
      && n.connectedList[k] == Neighbor(n.connectedList[k].node, record.connected[k].value)
      && n.connectedList[k].node == slots[record.connected[k].index]
  }

  /** What LoadXML builds in slot i of `slots` from record i. */
  ghost predicate LoadedAs(n: Node?, record: Nodes, slots: seq<Node?>)
    reads n
  {
    Placed(n, record) && Resolved(n, record, slots, |record.connected|)
  }

  /**
   * Node n, rebuilt by LoadXML, agrees with node o as far as a record can
   * tell: the same index, active flag and position, and the same neighbour
   * entries in order, each with the same neighbour index and weight.
   */
  ghost predicate Restored(n: Node, o: Node)
    reads n, o, set k | 0 <= k < |n.connectedList| :: n.connectedList[k].node
    reads set k | 0 <= k < |o.connectedList| :: o.connectedList[k].node
  {
    n.index == o.index && n.active == o.active && n.worldPosition == o.worldPosition
    && |n.connectedList| == |o.connectedList|
    && forall k | 0 <= k < |n.connectedList| ::
      n.connectedList[k].node.index == o.connectedList[k].node.index
      && n.connectedList[k].weight == o.connectedList[k].weight
  }

  /**
   * Rebuilding records and saving the rebuilt nodes again writes back the
   * records with every stored neighbour index replaced by the index of the
   * record at that position; when every record sits at the position its
   * index names, the very records that were rebuilt.
   */
  lemma LoadThenSave(records: seq<Nodes>, slots: seq<Node?>, saved: seq<Nodes>)
    requires References(records) && |slots| == |records| && |saved| == |records|
    requires forall i | 0 <= i < |slots| :: LoadedAs(slots[i], records[i], slots)
    requires forall i | 0 <= i < |saved| :: slots[i] != null && SavedAs(saved[i], slots[i])
    ensures saved == Relink(records)
    ensures IndexedByPosition(records) ==> saved == records
  {
    var relinked := Relink(records);
    forall i | 0 <= i < |saved| ensures saved[i] == relinked[i] {
      var n, record := slots[i], records[i];
      assert LoadedAs(n, record, slots) && SavedAs(saved[i], n);
      forall k | 0 <= k < |record.connected| ensures saved[i].connected[k] == relinked[i].connected[k] {
        assert n.connectedList[k].node == slots[record.connected[k].index];
        assert Placed(slots[record.connected[k].index], records[record.connected[k].index]);
      }
    }
    if IndexedByPosition(records) {
      RelinkIdentity(records);
    }
  }

  /**
   * Saving a graph whose nodes carry their slot numbers as indices and whose
   * neighbours carry indices of slots gives records that sit at the
   * positions their indices name and refer only to records; rebuilding
   * them gives nodes that each restore the old node in the same slot.
   */
  lemma SaveThenLoad(graph: seq<Node?>, records: seq<Nodes>, rebuilt: seq<Node?>)
    requires |records| == |graph| && |rebuilt| == |graph|
    requires forall k | 0 <= k < |graph| :: graph[k] != null && graph[k].index == k
    requires forall k, q | 0 <= k < |graph| && 0 <= q < |graph[k].connectedList| ::
      0 <= graph[k].connectedList[q].node.index < |graph|
    requires forall k | 0 <= k < |graph| :: SavedAs(records[k], graph[k])
    requires forall k | 0 <= k < |rebuilt| :: LoadedAs(rebuilt[k], records[k], rebuilt)
    ensures IndexedByPosition(records) && References(records)
    ensures forall k | 0 <= k < |rebuilt| :: rebuilt[k] != null && Restored(rebuilt[k], graph[k])
  {
    forall k | 0 <= k < |rebuilt| ensures rebuilt[k] != null && Restored(rebuilt[k], graph[k]) {
      var record := records[k];
      assert SavedAs(record, graph[k]) && LoadedAs(rebuilt[k], record, rebuilt);
      forall q | 0 <= q < |record.connected|
        ensures rebuilt[k].connectedList[q].node.index == graph[k].connectedList[q].node.index
      {
        assert rebuilt[k].connectedList[q].node == rebuilt[record.connected[q].index];
        assert Placed(rebuilt[record.connected[q].index], records[record.connected[q].index]);
      }
    }
  }

  /** The editor window, with the fields the graph operations use. */
  class GraphEditor {
    var size: int
    var maxSlope: real
    var maxBound: real
    var granularity: real
    /** initialVertex.transform.position, the seed of the grid. */
    var seed: Vec3
    /** The active flag of the vertex prefab `node`. */
    var prefabActive: bool
    /** The static node array; a slot is null where no surface was found. */
    var nodes: array<Node?>
    /** The edges created so far, by the slots of their endpoints. */
    var edges: seq<Edge>
    const manager: GraphManager

    /** The window's field initialisers. */
    constructor (manager: GraphManager, seed: Vec3, prefabActive: bool)
      ensures size == 15 && maxSlope == 30.0 && maxBound == 5.0 && granularity == 10.0
      ensures this.manager == manager && this.seed == seed && this.prefabActive == prefabActive
      ensures nodes.Length == 0 && edges == []
    {
      size := 15;
      maxSlope := 30.0;
      maxBound := 5.0;
      granularity := 10.0;
      this.seed := seed;
      this.prefabActive := prefabActive;
      nodes := new Node?[0];
      edges := [];
      this.manager := manager;
    }

    /**
     * CreateGraph: sample a size x size grid from the seed, project every
     * sample down onto the surface, and store a node in slot i*size+j for
     * every sample that hit; then hand the array to the manager.
     */
    method CreateGraph(size: int, physics: RaycastOracle)
      modifies this`nodes, manager
      ensures fresh(nodes) && nodes.Length == size * size
      ensures forall i, j | 0 <= i < size && 0 <= j < size ::
        SampledSlot(nodes[Slot(size, i, j)], Slot(size, i, j),
                    physics(SamplePoint(seed, granularity, i, j), Down, Unlimited),
                    prefabActive, physics, maxSlope, maxBound)
      ensures size <= 0 ==> forall k | 0 <= k < nodes.Length :: nodes[k] == null
      ensures forall k | 0 <= k < nodes.Length && nodes[k] != null :: fresh(nodes[k]) && nodes[k].connectedList == []
      ensures forall k, l | 0 <= k < l < nodes.Length && nodes[k] != null :: nodes[k] != nodes[l]
      ensures manager.nodes == nodes
    {
      var a := new Node?[size * size](_ => null);
      nodes := a;
      var i := 0;
      while i < size
        invariant 0 <= i && (i == 0 || i <= size)
        invariant nodes == a
        invariant forall r, c | 0 <= r < i && 0 <= c < size ::
          SampledSlot(a[Slot(size, r, c)], Slot(size, r, c),
                      physics(SamplePoint(seed, granularity, r, c), Down, Unlimited),
                      prefabActive, physics, maxSlope, maxBound)
        invariant forall k | i * size <= k < a.Length :: a[k] == null
        invariant forall k | 0 <= k < a.Length && a[k] != null :: fresh(a[k]) && a[k].connectedList == []
        invariant forall k, l | 0 <= k < l < a.Length && a[k] != null :: a[k] != a[l]
      {
        SlotBound(size, i, size - 1);
        SampleRow(a, size, i, physics);
        forall r, c | 0 <= r < i && 0 <= c < size
          ensures Slot(size, r, c) < i * size
        {
          RowsBefore(size, r, c, i);
        }
        assert (i + 1) * size == i * size + size;
        i := i + 1;
      }
      manager.SetNodes(a);
    }

    /**
     * The Generate Graph button: delete the old graph, sample a new one of
     * the editor's size and draw its edges. The edge list then holds exactly
     * the edges of the new array, none left over from before.
     */
    method GenerateGraph(physics: RaycastOracle)
      modifies this`nodes, this`edges, manager
      ensures fresh(nodes) && nodes.Length == size * size
      ensures forall i, j | 0 <= i < size && 0 <= j < size ::
        SampledSlot(nodes[Slot(size, i, j)], Slot(size, i, j),
                    physics(SamplePoint(seed, granularity, i, j), Down, Unlimited),
                    prefabActive, physics, maxSlope, maxBound)
      ensures edges == EdgePairs(Occupancy(nodes[..]), size)
      ensures manager.nodes == nodes
    {
      DeleteGraph();
      CreateGraph(size, physics);
      DrawEdges(nodes);
    }

    /**
     * One pass of CreateGraph's outer loop: sample the points (i, 0) ..
     * (i, size - 1) of row i into slots i*size .. i*size+size-1, which are
     * null on entry. Every other slot keeps its node.
     */
    method SampleRow(a: array<Node?>, size: int, i: int, physics: RaycastOracle)
      requires 0 <= i < size && 0 <= i * size && i * size + size <= a.Length
      requires forall k | i * size <= k < i * size + size :: a[k] == null
      modifies a
      ensures forall c | 0 <= c < size ::
        SampledSlot(a[i * size + c], i * size + c,
                    physics(SamplePoint(seed, granularity, i, c), Down, Unlimited),
                    prefabActive, physics, maxSlope, maxBound)
      ensures forall k | 0 <= k < a.Length && !(i * size <= k < i * size + size) :: a[k] == old(a[k])
      ensures forall k | i * size <= k < i * size + size && a[k] != null :: fresh(a[k]) && a[k].connectedList == []
      ensures forall k, l | i * size <= k < l < i * size + size && a[k] != null :: a[k] != a[l]
    {
      var columns := size;
      var j := 0;
      while j < columns
        invariant 0 <= j <= size
        invariant forall c | 0 <= c < j ::
          SampledSlot(a[i * size + c], i * size + c,
                      physics(SamplePoint(seed, granularity, i, c), Down, Unlimited),
                      prefabActive, physics, maxSlope, maxBound)
        invariant forall k | 0 <= k < a.Length && !(i * size <= k < i * size + j) :: a[k] == old(a[k])
        invariant forall k | i * size <= k < i * size + j && a[k] != null :: fresh(a[k]) && a[k].connectedList == []
        invariant forall k, l | i * size <= k < l < i * size + j && a[k] != null :: a[k] != a[l]
      {
        var posNode := SamplePoint(seed, granularity, i, j);
        var newNode := Sample(posNode, i * size + j, physics);
        if newNode != null {
          a[i * size + j] := newNode;
        }
        j := j + 1;
      }
    }

    /**
     * The body of CreateGraph's inner loop for one sample point: project it
     * down onto the surface and, on a hit, build the node for slot k and
     * clear its active flag when the hit is on the No Walk layer, too steep,
     * or near a wall. A miss leaves the slot null.
     */
    method Sample(posNode: Vec3, k: int, physics: RaycastOracle) returns (newNode: Node?)
      ensures SampledSlot(newNode, k, physics(posNode, Down, Unlimited), prefabActive, physics, maxSlope, maxBound)
      ensures newNode != null ==> fresh(newNode) && newNode.connectedList == []
    {
      var hit := physics(posNode, Down, Unlimited);
      newNode := null;
      if hit.Some? {
        var h := hit.value;
        newNode := new Node.Instantiate(prefabActive, h.point);
        newNode.index := k;
        newNode.position := h.point;
        if h.layer == NoWalkLayer {
          newNode.active := false;
        }
        if !IsSlopeValid(h.slope, maxSlope) {
          newNode.active := false;
        }
        if IsNearWall(physics, newNode.worldPosition, maxBound) {
          newNode.active := false;
        }
      }
    }

    /** DeleteGraph: an empty node array and no edges. */
    method DeleteGraph()
      modifies this`nodes, this`edges
      ensures fresh(nodes) && nodes.Length == 0 && edges == []
    {
      nodes := new Node?[0];
      edges := [];
    }

    /**
     * The nodes held by an array. CreateEdge hands two of them to
     * Edge.SetEdge, which is not part of this model and may change their
     * neighbour lists; the edge-drawing methods are therefore allowed to.
     */
    function NodesOf(m: array<Node?>): set<Node?>
      reads m
    {
      set k | 0 <= k < m.Length && m[k] != null :: m[k]
    }

    /**
     * DrawEdges: visit every cell and create its right, down, diagonal and
     * anti-diagonal edges whose two slots hold nodes. The array must be
     * large enough for the editor's `size`.
     */
    method DrawEdges(m: array<Node?>)
      requires Fits(m.Length, size)
      modifies this`edges, NodesOf(m)`connectedList
      ensures edges == old(edges) + EdgePairs(Occupancy(m[..]), size)
    {
      ghost var occupied := Occupancy(m[..]);
      var rows := size;
      var i := 0;
      while i < rows
        invariant 0 <= i && (i == 0 || i <= size)
        invariant edges == old(edges) + GridEdges(occupied, size, i)
      {
        DrawRow(m, i);
        GridStep(occupied, size, i, old(edges));
        i := i + 1;
      }
      assert GridEdges(occupied, size, i) == EdgePairs(occupied, size);
    }

    /** One pass of DrawEdges' outer loop: the cells (i, 0) .. (i, size - 1) in order. */
    method DrawRow(m: array<Node?>, i: int)
      requires 0 <= i < size && Fits(m.Length, size)
      modifies this`edges, NodesOf(m)`connectedList
      ensures edges == old(edges) + RowEdges(Occupancy(m[..]), size, i, size)
    {
      ghost var occupied := Occupancy(m[..]);
      var columns := size;
      var j := 0;
      while j < columns
        invariant 0 <= j <= size
        invariant edges == old(edges) + RowEdges(occupied, size, i, j)
      {
        DrawCell(m, i, j);
        RowStep(occupied, size, i, j, old(edges));
        j := j + 1;
      }
    }

    /** One step of DrawEdges' inner loop: the edges of cell (i, j), in the order the source creates them. */
    method DrawCell(m: array<Node?>, i: int, j: int)
      requires 0 <= i < size && 0 <= j < size && Fits(m.Length, size)
      modifies this`edges, NodesOf(m)`connectedList
      ensures edges == old(edges) + CellEdges(Occupancy(m[..]), size, i, j)
    {
      ghost var occupied := Occupancy(m[..]);
      CellBounds(size, i, j);
      var here := (j * size) + i;
      var right := [];
      if i + 1 < size {
        if m[here] != null && m[here + 1] != null {
          right := [Edge(here, here + 1)];
        }
      }
      assert right == RightEdge(occupied, size, i, j);
      var down := [];
      if j + 1 < size {
        if m[here] != null && m[here + size] != null {
          down := [Edge(here, here + size)];
        }
      }
      assert down == DownEdge(occupied, size, i, j);
      var diagonal := [];
      var antiDiagonal := [];
      if i + 1 < size && j + 1 < size {
        if m[here] != null && m[here + size + 1] != null {
          diagonal := [Edge(here, here + size + 1)];
        }
        if m[here + size] != null && m[here + 1] != null {
          antiDiagonal := [Edge(here + size, here + 1)];
        }
      }
      assert diagonal == DiagonalEdge(occupied, size, i, j);
      assert antiDiagonal == AntiDiagonalEdge(occupied, size, i, j);
      var cell := right + down + diagonal + antiDiagonal;
      assert cell == CellEdges(occupied, size, i, j);
      edges := edges + cell;
    }

    /**
     * SaveXML without the serializer: one record per slot, in slot order,
     * copying index, active flag, position and the neighbour entries in
     * order. Every slot must hold a node (the source dereferences each one).
     */
    method SaveXML() returns (savedData: seq<Nodes>)
      requires forall k | 0 <= k < nodes.Length :: nodes[k] != null
      ensures |savedData| == nodes.Length
      ensures forall i | 0 <= i < |savedData| :: SavedAs(savedData[i], nodes[i])
    {
      var saved := new Nodes[nodes.Length];
      for i := 0 to saved.Length
        invariant forall p | 0 <= p < i :: SavedAs(saved[p], nodes[p])
      {
        saved[i] := SaveNode(nodes[i]);
      }
      savedData := saved[..];
    }

    /**
     * The body of SaveXML's loop for one node: its index, active flag and
     * world position, and a Connected entry per neighbour, in order, holding
     * the neighbour's index and the weight.
     */
    method SaveNode(node: Node) returns (record: Nodes)
      ensures SavedAs(record, node)
    {
      var connected := new Connected[|node.connectedList|];
      for k := 0 to connected.Length
        invariant forall q | 0 <= q < k ::
          connected[q] == Connected(node.connectedList[q].node.index, node.connectedList[q].weight)
      {
        connected[k] := Connected(node.connectedList[k].node.index, node.connectedList[k].weight);
      }
      record := Nodes(node.index, node.active, node.worldPosition, connected[..]);
    }

    /**
     * LoadXML without the file: rebuild the records into a new array, draw
     * its edges and hand it to the manager. Drawing the edges may change the
     * nodes' neighbour lists (see NodesOf), so what phase 2 built is stated
     * by Rebuild; every other field of each node is as phase 1 set it.
     */
    method LoadXML(loadedData: seq<Nodes>)
      requires References(loadedData)
      requires Fits(|loadedData|, size)
      modifies this`nodes, this`edges, manager
      ensures fresh(nodes) && nodes.Length == |loadedData|
      ensures forall i | 0 <= i < nodes.Length :: nodes[i] != null && fresh(nodes[i])
      ensures forall i, l | 0 <= i < l < nodes.Length :: nodes[i] != nodes[l]
      ensures forall i | 0 <= i < nodes.Length :: Placed(nodes[i], loadedData[i])
      ensures edges == old(edges) + EdgePairs(Occupancy(nodes[..]), size)
      ensures manager.nodes == nodes
    {
      var a := Rebuild(loadedData);
      nodes := a;
      DrawEdges(a);
      manager.SetNodes(a);
    }

    /**
     * The two phases of LoadXML: phase 1 creates one node per record with
     * the record's index, flag and position; phase 2 appends each record's
     * neighbour entries, resolving a stored index as a position in the new
     * array.
     */
    method Rebuild(loadedData: seq<Nodes>) returns (a: array<Node?>)
      requires References(loadedData)
      ensures fresh(a) && a.Length == |loadedData|
      ensures forall i | 0 <= i < a.Length :: a[i] != null && fresh(a[i])
      ensures forall i, l | 0 <= i < l < a.Length :: a[i] != a[l]
      ensures forall i | 0 <= i < a.Length :: LoadedAs(a[i], loadedData[i], a[..])
    {
      a := PlaceAll(loadedData);
      ghost var slots := a[..];
      for i := 0 to a.Length
        invariant a[..] == slots
        invariant forall r | 0 <= r < a.Length :: Placed(a[r], loadedData[r]) && fresh(a[r])
        invariant forall r, l | 0 <= r < l < a.Length :: a[r] != a[l]
        invariant forall r | 0 <= r < i :: Resolved(a[r], loadedData[r], slots, |loadedData[r].connected|)
        invariant forall r | i <= r < a.Length :: a[r].connectedList == []
      {
        Link(a[i], loadedData[i], a);
      }
    }

    /**
     * Phase 1 of LoadXML: a new array with one fresh node per record,
     * carrying the record's index, active flag and position, and no
     * neighbours yet.
     */
    method PlaceAll(loadedData: seq<Nodes>) returns (a: array<Node?>)
      ensures fresh(a) && a.Length == |loadedData|
      ensures forall r | 0 <= r < a.Length ::
        Placed(a[r], loadedData[r]) && fresh(a[r]) && a[r].connectedList == []
      ensures forall r, l | 0 <= r < l < a.Length :: a[r] != a[l]
    {
      a := new Node?[|loadedData|];
      for i := 0 to a.Length
        invariant forall r | 0 <= r < i :: Placed(a[r], loadedData[r]) && fresh(a[r]) && a[r].connectedList == []
        invariant forall r, l | 0 <= r < l < i :: a[r] != a[l]
      {
        var newNode := new Node.Instantiate(prefabActive, loadedData[i].position);
        newNode.index := loadedData[i].index;
        newNode.position := loadedData[i].position;
        newNode.active := loadedData[i].status;
        a[i] := newNode;
      }
    }

    /**
     * Phase 2 of LoadXML for one node: append a neighbour per stored entry,
     * in order, taking the node at the array position the entry names.
     */
    method Link(node: Node?, record: Nodes, a: array<Node?>)
      requires node != null && node.connectedList == []
      requires forall k | 0 <= k < |record.connected| :: 0 <= record.connected[k].index < a.Length
      requires forall k | 0 <= k < a.Length :: a[k] != null
      modifies node`connectedList
      ensures Resolved(node, record, a[..], |record.connected|)
    {
      for k := 0 to |record.connected|
        invariant Resolved(node, record, a[..], k)
      {
        var entry := record.connected[k];
        var target := a[entry.index];
        node.connectedList := node.connectedList + [Neighbor(target, entry.value)];
      }
    }
  }
}
