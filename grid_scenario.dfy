/**
 * The scenario of GridWithRoughBoundaries_test.cpp, on the grid model: a
 * rejected write on the boundary row, then every edge written with its
 * position in the traversal and read back.
 */
module GridScenario {
  import opened Wrappers
  import opened RoughGrid

  /**
   * Writes weight k to the k-th edge of the traversal. Since the k-th edge
   * owns slot k, the store ends up holding i at every slot i, and each
   * traversed edge reads back its own position.
   */
  method WriteCountersInTraversalOrder(g: Grid) returns (edges: seq<(Vertex, Vertex)>)
    requires g.Valid()
    modifies g.weights
    ensures g.n >= 1 ==> |edges| == g.weights.Length
    ensures forall k :: 0 <= k < |edges| ==> CheckedStorageIndex(g.n, edges[k].0, edges[k].1) == Some(k)
    ensures forall k :: 0 <= k < |edges| ==> g.EdgeWeight(edges[k].0, edges[k].1) == Finite(k as real)
    ensures g.n >= 1 ==> forall i :: 0 <= i < g.weights.Length ==> g.weights[i] == i as real
    ensures g.n < 1 ==> g.weights[..] == old(g.weights[..])
  {
    edges := g.TraverseEdges();
    var counter := 0;
    while counter < |edges|
      invariant 0 <= counter <= |edges|
      invariant g.Valid()
      invariant forall j :: 0 <= j < counter ==> g.weights[j] == j as real
      invariant counter == 0 ==> g.weights[..] == old(g.weights[..])
    {
      var r := g.SetEdgeWeight(edges[counter].0, edges[counter].1, counter as real);
      counter := counter + 1;
    }
  }

  /**
   * The whole test on a grid of side 7. The write to {0,0}-{0,1} (two nodes of
   * row 0, which has no horizontal edges) fails naming both vertices. After the
   * counters are written, a second traversal finds at position k an edge whose
   * storage index, as the source computes it, is k and whose weight is k.
   */
  method RoughGridScenario() returns (g: Grid, invalidWrite: Outcome<GridError>, checked: seq<(Vertex, Vertex)>)
    ensures g.Valid() && g.n == 7
    ensures invalidWrite == Fail(NotNeighbours(Vertex(0, 0), Vertex(0, 1)))
    ensures |checked| == ComputeNumEdges(7)
    ensures forall k :: 0 <= k < |checked| ==> StorageIndexForWeight(7, checked[k].0, checked[k].1) == Some(k)
    ensures forall k :: 0 <= k < |checked| ==> g.EdgeWeight(checked[k].0, checked[k].1) == Finite(k as real)
  {
    g := new Grid(7);
    invalidWrite := g.SetEdgeWeight(Vertex(0, 0), Vertex(0, 1), 1.0);
    var written := WriteCountersInTraversalOrder(g);
    checked := g.TraverseEdges();
  }
}
