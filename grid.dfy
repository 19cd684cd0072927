/**
 * Slot arithmetic of the sparse node array and the edge enumeration of
 * GraphEditor.DrawEdges, stated over an occupancy mask (true where the slot
 * holds a node, false where it is null).
 */
module Grid {

  /**
   * An array of the given length can be indexed by DrawEdges: for size 0 or 1
   * DrawEdges reads no slot, otherwise it reads every slot below size*size.
   */
  predicate Fits(length: int, size: int) {
    size <= 1 || size * size <= length
  }

  lemma SlotBound(size: int, row: int, col: int)
    requires 0 <= row < size && 0 <= col < size
    ensures 0 <= row * size + col < size * size
  {
    assert 0 <= row * size;
    assert row * size + size == (row + 1) * size;
    assert (row + 1) * size <= size * size;
  }

  /**
   * The slot CreateGraph uses for the sample in row `row`, column `col`; it
   * lies in the array, and `SlotCell` recovers the row and column from it.
   */
  function Slot(size: int, row: int, col: int): (k: int)
    requires 0 <= row < size && 0 <= col < size
    ensures 0 <= k < size * size
  {
    SlotBound(size, row, col);
    row * size + col
  }

  lemma MulAtLeast(a: int, b: int)
    requires 1 <= a && 0 < b
    ensures b <= a * b
  {
    assert a * b == (a - 1) * b + b;
  }

  /** The slots of rows before row i all lie below i * size. */
  lemma RowsBefore(size: int, row: int, col: int, i: int)
    requires 0 <= row < i && 0 <= col < size
    ensures row * size + col < i * size
  {
    MulAtLeast(i - row, size);
    assert (i - row) * size == i * size - row * size;
  }

  /** Division and remainder by size recover the row and column of a slot: distinct cells get distinct slots. */
  lemma SlotCell(size: int, row: int, col: int)
    requires 0 <= row < size && 0 <= col < size
    ensures Slot(size, row, col) / size == row
    ensures Slot(size, row, col) % size == col
  {
    var n := row * size + col;
    var q, r := n / size, n % size;
    assert n == q * size + r;
    if q > row {
      MulAtLeast(q - row, size);
    } else if q < row {
      MulAtLeast(row - q, size);
    }
  }

  /** An undirected edge created by DrawEdges, by slot numbers. */
  datatype Edge = Edge(a: int, b: int)

  /** Both endpoints are slots of the array that hold a node. */
  predicate Linked(occupied: seq<bool>, e: Edge) {
    0 <= e.a < |occupied| && 0 <= e.b < |occupied| && occupied[e.a] && occupied[e.b]
  }

  /**
   * The slots DrawEdges reads at cell (i, j): here = j*size+i, its right
   * neighbour here+1, the one below here+size, and the diagonal here+size+1.
   */
  lemma CellBounds(size: int, i: int, j: int)
    requires 0 <= i < size && 0 <= j < size
    ensures 0 <= j * size + i < size * size
    ensures (j + 1) * size + i == j * size + i + size
    ensures i + 1 < size ==> j * size + i + 1 < size * size
    ensures j + 1 < size ==> j * size + i + size < size * size
    ensures i + 1 < size && j + 1 < size ==> j * size + i + size + 1 < size * size
  {
    SlotBound(size, j, i);
    if i + 1 < size {
      SlotBound(size, j, i + 1);
    }
    if j + 1 < size {
      SlotBound(size, j + 1, i);
      if i + 1 < size {
        SlotBound(size, j + 1, i + 1);
      }
    }
  }

  /** The edge to the right neighbour of cell (i, j), if both slots hold nodes. */
  function RightEdge(occupied: seq<bool>, size: int, i: int, j: int): seq<Edge> {
    var here := j * size + i;
    if i + 1 < size && Linked(occupied, Edge(here, here + 1)) then [Edge(here, here + 1)] else []
  }

  /** The edge to the neighbour below cell (i, j), if both slots hold nodes. */
  function DownEdge(occupied: seq<bool>, size: int, i: int, j: int): seq<Edge> {
    var here := j * size + i;
    if j + 1 < size && Linked(occupied, Edge(here, here + size)) then [Edge(here, here + size)] else []
  }

  /** The main-diagonal edge of cell (i, j), if both slots hold nodes. */
  function DiagonalEdge(occupied: seq<bool>, size: int, i: int, j: int): seq<Edge> {
    var here := j * size + i;
    if i + 1 < size && j + 1 < size && Linked(occupied, Edge(here, here + size + 1))
    then [Edge(here, here + size + 1)] else []
  }

  /** The anti-diagonal edge of cell (i, j), if both slots hold nodes. */
  function AntiDiagonalEdge(occupied: seq<bool>, size: int, i: int, j: int): seq<Edge> {
    var here := j * size + i;
    if i + 1 < size && j + 1 < size && Linked(occupied, Edge(here + size, here + 1))
    then [Edge(here + size, here + 1)] else []
  }

  /**
   * The edges DrawEdges creates while visiting cell (i, j), in the order it
   * creates them: right, down, main diagonal, anti-diagonal. Each is created
   * only when both of its slots hold a node.
   */
  function CellEdges(occupied: seq<bool>, size: int, i: int, j: int): seq<Edge> {
    RightEdge(occupied, size, i, j) + DownEdge(occupied, size, i, j)
    + DiagonalEdge(occupied, size, i, j) + AntiDiagonalEdge(occupied, size, i, j)
  }

  /** parts[0] + parts[1] + ...: the output of consecutive loop steps, in order. */
  function Flatten(parts: seq<seq<Edge>>): seq<Edge>
    decreases |parts|
  {
    if |parts| == 0 then [] else Flatten(parts[..|parts| - 1]) + parts[|parts| - 1]
  }

  /** Concatenation regroups: appending c after a + b is appending b + c after a. */
  lemma Associative(a: seq<Edge>, b: seq<Edge>, c: seq<Edge>)
    ensures a + b + c == a + (b + c)
  {
  }

  /** One more step appends its output. */
  lemma FlattenSnoc(parts: seq<seq<Edge>>, last: seq<Edge>)
    ensures Flatten(parts + [last]) == Flatten(parts) + last
  {
    assert (parts + [last])[..|parts|] == parts;
  }

  /** Everything in the concatenation comes from one of the parts. */
  lemma {:induction false} FlattenSound(parts: seq<seq<Edge>>, e: Edge)
    requires e in Flatten(parts)
    ensures exists k | 0 <= k < |parts| :: e in parts[k]
  {
    var front := parts[..|parts| - 1];
    if e !in parts[|parts| - 1] {
      FlattenSound(front, e);
      var k :| 0 <= k < |front| && e in front[k];
      assert parts[k] == front[k];
    }
  }

  /** Everything in one of the parts is in the concatenation. */
  lemma {:induction false} FlattenComplete(parts: seq<seq<Edge>>, k: int, e: Edge)
    requires 0 <= k < |parts| && e in parts[k]
    ensures e in Flatten(parts)
  {
    var front := parts[..|parts| - 1];
    if k < |parts| - 1 {
      assert front[k] == parts[k];
      FlattenComplete(front, k, e);
    }
  }

  /** Parts of width w concatenate to |parts| * w elements. */
  lemma {:induction false} FlattenLength(parts: seq<seq<Edge>>, w: int)
    requires forall k | 0 <= k < |parts| :: |parts[k]| == w
    ensures |Flatten(parts)| == |parts| * w
  {
    if |parts| > 0 {
      var front := parts[..|parts| - 1];
      forall k | 0 <= k < |front| ensures |front[k]| == w {
        assert front[k] == parts[k];
      }
      FlattenLength(front, w);
      StepProduct(|parts|, w);
    }
  }

  lemma StepProduct(a: int, b: int)
    ensures (a - 1) * b + b == a * b
  {
  }

  /** The number of steps a loop `for (k = 0; k < n; k++)` takes. */
  function Extent(n: int): nat {
    if n < 0 then 0 else n
  }

  /** The outputs of cells (i, 0) .. (i, j - 1), one entry per step of the inner loop. */
  function CellList(occupied: seq<bool>, size: int, i: int, j: int): seq<seq<Edge>> {
    seq(Extent(j), c => CellEdges(occupied, size, i, c))
  }

  /** The edges of cells (i, 0) .. (i, j - 1), the first j steps of the inner loop. */
  function RowEdges(occupied: seq<bool>, size: int, i: int, j: int): seq<Edge> {
    Flatten(CellList(occupied, size, i, j))
  }

  /** The outputs of passes 0 .. i - 1 of the inner loop, one entry per outer step. */
  function RowList(occupied: seq<bool>, size: int, i: int): seq<seq<Edge>> {
    seq(Extent(i), r => RowEdges(occupied, size, r, size))
  }

  /** The edges of passes 0 .. i - 1, the first i steps of the outer loop. */
  function GridEdges(occupied: seq<bool>, size: int, i: int): seq<Edge> {
    Flatten(RowList(occupied, size, i))
  }

  /** Everything one call of DrawEdges creates: size passes of size cells. */
  function EdgePairs(occupied: seq<bool>, size: int): seq<Edge> {
    GridEdges(occupied, size, size)
  }

  /** One step of DrawEdges' inner loop extends the pass by the edges of cell (i, j). */
  lemma RowStep(occupied: seq<bool>, size: int, i: int, j: int, prefix: seq<Edge>)
    requires 0 <= j
    ensures prefix + RowEdges(occupied, size, i, j) + CellEdges(occupied, size, i, j)
      == prefix + RowEdges(occupied, size, i, j + 1)
  {
    assert CellList(occupied, size, i, j + 1) == CellList(occupied, size, i, j) + [CellEdges(occupied, size, i, j)];
    FlattenSnoc(CellList(occupied, size, i, j), CellEdges(occupied, size, i, j));
    Associative(prefix, RowEdges(occupied, size, i, j), CellEdges(occupied, size, i, j));
  }

  /** One step of DrawEdges' outer loop extends the edges by pass i. */
  lemma GridStep(occupied: seq<bool>, size: int, i: int, prefix: seq<Edge>)
    requires 0 <= i
    ensures prefix + GridEdges(occupied, size, i) + RowEdges(occupied, size, i, size)
      == prefix + GridEdges(occupied, size, i + 1)
  {
    assert RowList(occupied, size, i + 1) == RowList(occupied, size, i) + [RowEdges(occupied, size, i, size)];
    FlattenSnoc(RowList(occupied, size, i), RowEdges(occupied, size, i, size));
    Associative(prefix, GridEdges(occupied, size, i), RowEdges(occupied, size, i, size));
  }

  /**
   * The four shapes of edge the grid has at cell (i, j), by slot numbers:
   * right, down, main diagonal and anti-diagonal.
   */
  predicate PatternAt(size: int, i: int, j: int, e: Edge) {
    var here := j * size + i;
    (i + 1 < size && e == Edge(here, here + 1))
    || (j + 1 < size && e == Edge(here, here + size))
    || (i + 1 < size && j + 1 < size && e == Edge(here, here + size + 1))
    || (i + 1 < size && j + 1 < size && e == Edge(here + size, here + 1))
  }

  /** e is one of the grid's edges at some cell. */
  ghost predicate GridEdge(size: int, e: Edge) {
    exists i, j | 0 <= i < size && 0 <= j < size :: PatternAt(size, i, j, e)
  }

  /** A grid edge joins two distinct slots below size*size. */
  lemma PatternEndpoints(size: int, i: int, j: int, e: Edge)
    requires 0 <= i < size && 0 <= j < size && PatternAt(size, i, j, e)
    ensures 0 <= e.a < size * size && 0 <= e.b < size * size && e.a != e.b
  {
    CellBounds(size, i, j);
  }

  /** Cell (i, j) creates exactly its pattern edges whose two slots hold nodes. */
  lemma CellEdgesSpec(occupied: seq<bool>, size: int, i: int, j: int, e: Edge)
    ensures e in CellEdges(occupied, size, i, j) <==> PatternAt(size, i, j, e) && Linked(occupied, e)
  {
  }

  /** The first j cells for outer index i create exactly their pattern edges between present nodes. */
  lemma RowEdgesSpec(occupied: seq<bool>, size: int, i: int, j: int, e: Edge)
    requires 0 <= j
    ensures e in RowEdges(occupied, size, i, j) <==>
      Linked(occupied, e) && exists c | 0 <= c < j :: PatternAt(size, i, c, e)
  {
    var cells := CellList(occupied, size, i, j);
    if e in RowEdges(occupied, size, i, j) {
      FlattenSound(cells, e);
      var c :| 0 <= c < |cells| && e in cells[c];
      CellEdgesSpec(occupied, size, i, c, e);
    }
    if Linked(occupied, e) && exists c | 0 <= c < j :: PatternAt(size, i, c, e) {
      var c :| 0 <= c < j && PatternAt(size, i, c, e);
      CellEdgesSpec(occupied, size, i, c, e);
      FlattenComplete(cells, c, e);
    }
  }

  /** The first i passes create exactly their cells' pattern edges between present nodes. */
  lemma GridEdgesSpec(occupied: seq<bool>, size: int, i: int, e: Edge)
    requires 0 <= i
    ensures e in GridEdges(occupied, size, i) <==>
      Linked(occupied, e) && exists r, c | 0 <= r < i && 0 <= c < size :: PatternAt(size, r, c, e)
  {
    var rows := RowList(occupied, size, i);
    if e in GridEdges(occupied, size, i) {
      FlattenSound(rows, e);
      var r :| 0 <= r < |rows| && e in rows[r];
      RowEdgesSpec(occupied, size, r, size, e);
    }
    if Linked(occupied, e) && exists r, c | 0 <= r < i && 0 <= c < size :: PatternAt(size, r, c, e) {
      var r, c :| 0 <= r < i && 0 <= c < size && PatternAt(size, r, c, e);
      RowEdgesSpec(occupied, size, r, size, e);
      FlattenComplete(rows, r, e);
    }
  }

  /**
   * DrawEdges creates exactly the grid edges whose two slots both hold a
   * node: each edge it creates is one of the four shapes at some cell with
   * both endpoints present, and every such edge is created.
   */
  lemma EdgePairsSpec(occupied: seq<bool>, size: int, e: Edge)
    ensures e in EdgePairs(occupied, size) <==> GridEdge(size, e) && Linked(occupied, e)
  {
    if 0 <= size {
      GridEdgesSpec(occupied, size, size, e);
    } else {
      assert GridEdges(occupied, size, size) == [];
    }
  }

  /**
   * Every created edge joins two distinct slots below size*size, both of
   * which hold a node.
   */
  lemma EdgesValid(occupied: seq<bool>, size: int, e: Edge)
    requires e in EdgePairs(occupied, size)
    ensures 0 <= e.a < size * size && 0 <= e.b < size * size && e.a != e.b
    ensures Linked(occupied, e)
  {
    EdgePairsSpec(occupied, size, e);
    var r, c :| 0 <= r < size && 0 <= c < size && PatternAt(size, r, c, e);
    PatternEndpoints(size, r, c, e);
  }

  /** A null slot is an endpoint of no created edge. */
  lemma HoleIsolated(occupied: seq<bool>, size: int, k: int)
    requires 0 <= k < |occupied| && !occupied[k]
    ensures forall e | e in EdgePairs(occupied, size) :: e.a != k && e.b != k
  {
    forall e | e in EdgePairs(occupied, size) ensures e.a != k && e.b != k {
      EdgesValid(occupied, size, e);
    }
  }

  /** x and y are joined by a created edge, in either orientation. */
  predicate Joined(edges: seq<Edge>, x: int, y: int) {
    Edge(x, y) in edges || Edge(y, x) in edges
  }

  /**
   * When all four corners of the 2x2 block at cell (i, j) hold nodes, the
   * six pairs of corners are all joined: the block is a complete graph.
   */
  lemma BlockComplete(occupied: seq<bool>, size: int, i: int, j: int)
    requires 0 <= i && i + 1 < size && 0 <= j && j + 1 < size
    requires CornersOccupied(occupied, size, i, j)
    ensures var edges := EdgePairs(occupied, size);
      var here := j * size + i;
      var right, down, diagonal := here + 1, here + size, here + size + 1;
      Joined(edges, here, right) && Joined(edges, here, down) && Joined(edges, here, diagonal)
      && Joined(edges, down, right) && Joined(edges, down, diagonal) && Joined(edges, right, diagonal)
  {
    CellBounds(size, i, j);
    var here := j * size + i;
    var right, down, diagonal := here + 1, here + size, here + size + 1;
    PatternCreated(occupied, size, i, j, Edge(here, right));
    PatternCreated(occupied, size, i, j, Edge(here, down));
    PatternCreated(occupied, size, i, j, Edge(here, diagonal));
    PatternCreated(occupied, size, i, j, Edge(down, right));
    assert (j + 1) * size + i + 1 == diagonal;
    PatternCreated(occupied, size, i, j + 1, Edge(down, diagonal));
    PatternCreated(occupied, size, i + 1, j, Edge(right, diagonal));
  }

  /** A pattern edge of a cell whose two slots hold nodes is created. */
  lemma PatternCreated(occupied: seq<bool>, size: int, i: int, j: int, e: Edge)
    requires 0 <= i < size && 0 <= j < size && PatternAt(size, i, j, e) && Linked(occupied, e)
    ensures e in EdgePairs(occupied, size)
  {
    EdgePairsSpec(occupied, size, e);
  }

  /** The four corner slots of the 2x2 block at cell (i, j) hold nodes. */
  predicate CornersOccupied(occupied: seq<bool>, size: int, i: int, j: int) {
    var here := j * size + i;
    Linked(occupied, Edge(here, here + size + 1)) && Linked(occupied, Edge(here + size, here + 1))
  }

  /** Every slot below size*size holds a node: no sample missed the surface. */
  predicate Full(occupied: seq<bool>, size: int) {
    size * size <= |occupied| && forall k | 0 <= k < size * size :: occupied[k]
  }

  lemma CellCount(occupied: seq<bool>, size: int, i: int, j: int)
    requires 0 <= i < size && 0 <= j < size && Full(occupied, size)
    ensures |CellEdges(occupied, size, i, j)| ==
      (if i + 1 < size then 1 else 0) + (if j + 1 < size then 1 else 0)
      + (if i + 1 < size && j + 1 < size then 2 else 0)
  {
    CellBounds(size, i, j);
  }

  /** On a full grid every cell but the last of a pass has the same number of edges. */
  lemma RowPrefixCount(occupied: seq<bool>, size: int, i: int)
    requires 0 <= i < size && Full(occupied, size)
    ensures |RowEdges(occupied, size, i, size - 1)| == (size - 1) * (if i + 1 < size then 4 else 1)
  {
    var cells := CellList(occupied, size, i, size - 1);
    var w := if i + 1 < size then 4 else 1;
    forall c | 0 <= c < size - 1 ensures |cells[c]| == w {
      CellCount(occupied, size, i, c);
    }
    FlattenLength(cells, w);
  }

  /**
   * A full pass of the inner loop on a full grid: 4 edges per cell but the
   * last, which has only its right edge; on the last pass, 1 edge per cell
   * but the last, which has none.
   */
  lemma FullRowCount(occupied: seq<bool>, size: int, i: int)
    requires 0 <= i < size && Full(occupied, size)
    ensures |RowEdges(occupied, size, i, size)| == if i + 1 < size then 4 * size - 3 else size - 1
  {
    RowStep(occupied, size, i, size - 1, []);
    RowPrefixCount(occupied, size, i);
    CellCount(occupied, size, i, size - 1);
  }

  lemma FullCountArithmetic(n: int)
    ensures (n - 1) * (4 * n - 3) + (n - 1) == 2 * n * (n - 1) + 2 * (n - 1) * (n - 1)
  {
  }

  /**
   * On a grid of size at least 1 with no missing slot DrawEdges creates
   * 2*size*(size-1) + 2*(size-1)^2 edges: size-1 right edges and size-1 down
   * edges per row and column, and two diagonals per 2x2 block.
   */
  lemma FullGridCount(occupied: seq<bool>, size: int)
    requires 1 <= size && Full(occupied, size)
    ensures |EdgePairs(occupied, size)| == 2 * size * (size - 1) + 2 * (size - 1) * (size - 1)
  {
    var rows := RowList(occupied, size, size - 1);
    forall r | 0 <= r < size - 1 ensures |rows[r]| == 4 * size - 3 {
      FullRowCount(occupied, size, r);
    }
    FlattenLength(rows, 4 * size - 3);
    FullRowCount(occupied, size, size - 1);
    GridStep(occupied, size, size - 1, []);
    FullCountArithmetic(size);
  }

  /** A full 2x2 grid has 6 edges, which join all four nodes pairwise. */
  lemma TwoByTwo(occupied: seq<bool>)
    requires Full(occupied, 2)
    ensures |EdgePairs(occupied, 2)| == 6
    ensures var edges := EdgePairs(occupied, 2);
      Joined(edges, 0, 1) && Joined(edges, 0, 2) && Joined(edges, 0, 3)
      && Joined(edges, 1, 2) && Joined(edges, 1, 3) && Joined(edges, 2, 3)
  {
    FullGridCount(occupied, 2);
    BlockComplete(occupied, 2, 0, 0);
  }

  /** A 3x3 grid whose centre sample missed: no edge touches slot 4. */
  lemma ThreeByThreeHole(occupied: seq<bool>)
    requires |occupied| == 9 && forall k | 0 <= k < 9 :: occupied[k] == (k != 4)
    ensures forall e | e in EdgePairs(occupied, 3) :: e.a != 4 && e.b != 4
  {
    HoleIsolated(occupied, 3, 4);
  }
}
