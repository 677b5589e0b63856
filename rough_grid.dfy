/**
 * The rough-boundary grid of GridWithRoughBoundaries.cpp: an n-per-side grid
 * whose first and last rows have vertical edges only, with a dense weight
 * store addressed by a closed-form storage index.
 */
module RoughGrid {
  import opened Wrappers

  /** A grid position. Like the source's `struct Vertex`, any integers are allowed. */
  datatype Vertex = Vertex(row: int, col: int)

  /** A stored weight, or the +infinity the getter returns for a non-edge. */
  datatype Weighted = Finite(value: real) | Infinite

  /** Raised by the setter: the two vertices, in call order, are not an edge of the grid. */
  datatype GridError = NotNeighbours(s: Vertex, t: Vertex)

  function Abs(x: int): int { if x < 0 then -x else x }
  function Min(a: int, b: int): int { if a <= b then a else b }
  function Max(a: int, b: int): int { if a <= b then b else a }

  // ---------------------------------------------------------------------------
  // The free functions of namespace `detail`, as written
  // ---------------------------------------------------------------------------

  /** Size of the weight store of an n-per-side grid: vertical plus interior horizontal edges. */
  function ComputeNumEdges(n: int): (r: int)
    ensures r >= 0
  {
    NumEdgesIsTwiceSquare(n);
    (n - 1) * n + (n - 1) * (n - 2)
  }

  /** a and b differ by exactly one. */
  predicate Step(a: int, b: int) { a - b == 1 || b - a == 1 }

  /**
   * are_grid_neighbours: one coordinate equal and the other one step apart.
   * The source writes it as a product test plus a sum of absolute values;
   * NeighbourTestAsWritten shows the two agree on every pair.
   */
  predicate AreGridNeighbours(s: Vertex, t: Vertex)
  {
    (s.row == t.row && Step(s.col, t.col)) || (s.col == t.col && Step(s.row, t.row))
  }

  /** The product-and-absolute-value form in which the source writes are_grid_neighbours. */
  predicate NeighbourTestAsWritten(s: Vertex, t: Vertex)
  {
    (s.row - t.row) * (s.col - t.col) == 0 && Abs(s.row - t.row) + Abs(s.col - t.col) == 1
  }

  lemma NeighbourTestAgrees(s: Vertex, t: Vertex)
    ensures NeighbourTestAsWritten(s, t) <==> AreGridNeighbours(s, t)
  {
    ProductIsZero(s.row - t.row, s.col - t.col);
  }

  lemma ProductIsZero(a: int, b: int)
    ensures a * b == 0 <==> a == 0 || b == 0
  {
    if a != 0 && b != 0 {
      if a > 0 && b > 0 { MulMonotone(a, 1, b); }
      else if a > 0 { MulMonotone(a, b, -1); }
      else if b > 0 { MulMonotone(b, a, -1); assert a * b == b * a; }
      else { MulMonotone(-a, 1, -b); assert (-a) * (-b) == a * b; }
    }
  }

  /**
   * Both on row 0 or both on row n-1: the rows without horizontal edges. Two
   * on-grid neighbours are joined by an edge exactly when this does not hold.
   */
  predicate AreVerticalBoundaryNodes(n: int, s: Vertex, t: Vertex): (b: bool)
    ensures InGrid(n, s) && InGrid(n, t) && AreGridNeighbours(s, t) ==> (b <==> !IsEdge(n, s, t))
  {
    (s.row == 0 && t.row == 0) || (s.row == n - 1 && t.row == n - 1)
  }

  /**
   * get_storage_index_for_weight exactly as the source computes it. It never
   * checks that the vertices lie on the grid (see OffGridPairAliasesEdge).
   */
  function StorageIndexForWeight(n: int, s: Vertex, t: Vertex): Option<int>
  {
    if !AreGridNeighbours(s, t) || AreVerticalBoundaryNodes(n, s, t) then None
    else if Min(s.col, t.col) == Max(s.col, t.col) then Some((n - 1) * Min(s.col, t.col) + Min(s.row, t.row))
    else if Min(s.row, t.row) == Max(s.row, t.row) then Some((n - 1) * n + (Min(s.row, t.row) - 1) * (n - 1) + Min(s.col, t.col))
    else None
  }

  // ---------------------------------------------------------------------------
  // Reference definitions of the grid's topology
  // ---------------------------------------------------------------------------

  predicate InGrid(n: int, v: Vertex) { 0 <= v.row < n && 0 <= v.col < n }

  /** Manhattan distance one. */
  predicate Adjacent(s: Vertex, t: Vertex)
  {
    Abs(s.row - t.row) + Abs(s.col - t.col) == 1
  }

  /**
   * The rough-boundary rule: an edge joins two adjacent on-grid vertices, and a
   * horizontal step exists only on the interior rows 1 .. n-2.
   */
  predicate IsEdge(n: int, s: Vertex, t: Vertex)
  {
    && InGrid(n, s) && InGrid(n, t)
    && ((s.col == t.col && Step(s.row, t.row))
        || (s.row == t.row && Step(s.col, t.col) && 0 < s.row < n - 1))
  }

  /** The same unordered pair of vertices. */
  predicate SameEdge(s: Vertex, t: Vertex, s': Vertex, t': Vertex)
  {
    (s == s' && t == t') || (s == t' && t == s')
  }

  /**
   * The storage index with the on-grid check the source leaves out; the grid
   * class uses this one. A slot exists exactly for the edges of the grid, and
   * it lies in the store.
   */
  function CheckedStorageIndex(n: int, s: Vertex, t: Vertex): (r: Option<int>)
    ensures r.Some? <==> IsEdge(n, s, t)
    ensures r.Some? ==> 0 <= r.value < ComputeNumEdges(n)
  {
    if InGrid(n, s) && InGrid(n, t) then OnGridSlot(n, s, t); StorageIndexForWeight(n, s, t)
    else None
  }

  /** On the grid, the source's index has a slot exactly for the edges, and it lies in the store. */
  lemma OnGridSlot(n: int, s: Vertex, t: Vertex)
    requires InGrid(n, s) && InGrid(n, t)
    ensures StorageIndexForWeight(n, s, t).Some? <==> IsEdge(n, s, t)
    ensures StorageIndexForWeight(n, s, t).Some? ==> 0 <= StorageIndexForWeight(n, s, t).value < ComputeNumEdges(n)
  {
    if IsEdge(n, s, t) {
      if s.col == t.col {
        VerticalSlot(n, s, t);
      } else {
        HorizontalSlot(n, s, t);
      }
    } else {
      StorageIndexNoneIff(n, s, t);
    }
  }

  // ---------------------------------------------------------------------------
  // Arithmetic helpers
  // ---------------------------------------------------------------------------

  lemma NumEdgesIsTwiceSquare(n: int)
    ensures (n - 1) * n + (n - 1) * (n - 2) == 2 * ((n - 1) * (n - 1))
    ensures (n - 1) * (n - 1) >= 0
  {
    assert (n - 1) * n + (n - 1) * (n - 2) == (n - 1) * (2 * n - 2);
    if n - 1 < 0 {
      assert (n - 1) * (n - 1) == (1 - n) * (1 - n);
    }
  }

  lemma MulMonotone(a: int, b: int, c: int)
    requires 0 <= a && b <= c
    ensures a * b <= a * c
  {
    assert a * c - a * b == a * (c - b);
  }

  /** Quotient and remainder of a division by m > 0 are unique. */
  lemma QuotRemUnique(m: int, q1: int, r1: int, q2: int, r2: int)
    requires m > 0 && 0 <= r1 < m && 0 <= r2 < m
    requires m * q1 + r1 == m * q2 + r2
    ensures q1 == q2 && r1 == r2
  {
    if q1 < q2 {
      MulMonotone(m, 1, q2 - q1);
      assert false;
    } else if q2 < q1 {
      MulMonotone(m, 1, q1 - q2);
      assert false;
    }
  }

  // ---------------------------------------------------------------------------
  // Properties of the storage index
  // ---------------------------------------------------------------------------

  /** The source's neighbour test is exactly Manhattan adjacency. */
  lemma NeighboursAreAdjacent(s: Vertex, t: Vertex)
    ensures AreGridNeighbours(s, t) <==> Adjacent(s, t)
  {
  }

  /**
   * As written, no slot exactly when the vertices are not Manhattan-adjacent or
   * both lie in row 0 or both in row n-1; the final `return std::nullopt` is dead.
   */
  lemma StorageIndexNoneIff(n: int, s: Vertex, t: Vertex)
    ensures StorageIndexForWeight(n, s, t).None?
            <==> !Adjacent(s, t) || AreVerticalBoundaryNodes(n, s, t)
  {
    NeighboursAreAdjacent(s, t);
  }

  /** Only the min/max corners are used, so the argument order does not matter. */
  lemma StorageIndexSymmetric(n: int, s: Vertex, t: Vertex)
    ensures StorageIndexForWeight(n, s, t) == StorageIndexForWeight(n, t, s)
    ensures CheckedStorageIndex(n, s, t) == CheckedStorageIndex(n, t, s)
  {
    NeighboursAreAdjacent(s, t);
    NeighboursAreAdjacent(t, s);
  }

  /** A vertical edge of the grid lives at (n-1)*col + min(row), inside [0, (n-1)*n). */
  lemma VerticalSlot(n: int, s: Vertex, t: Vertex)
    requires InGrid(n, s) && InGrid(n, t) && s.col == t.col && Step(s.row, t.row)
    ensures StorageIndexForWeight(n, s, t) == Some((n - 1) * s.col + Min(s.row, t.row))
    ensures 0 <= (n - 1) * s.col + Min(s.row, t.row) < (n - 1) * n <= ComputeNumEdges(n)
  {
    NeighboursAreAdjacent(s, t);
    MulMonotone(n - 1, 0, s.col);
    MulMonotone(n - 1, s.col, n - 1);
    MulMonotone(n - 1, 0, n - 2);
    assert (n - 1) * n == (n - 1) * (n - 1) + (n - 1);
  }

  /**
   * A horizontal edge on interior row r lives at (n-1)*n + (r-1)*(n-1) + min(col),
   * inside [(n-1)*n, ComputeNumEdges(n)).
   */
  lemma HorizontalSlot(n: int, s: Vertex, t: Vertex)
    requires InGrid(n, s) && InGrid(n, t) && s.row == t.row && Step(s.col, t.col)
    requires 0 < s.row < n - 1
    ensures StorageIndexForWeight(n, s, t)
            == Some((n - 1) * n + (s.row - 1) * (n - 1) + Min(s.col, t.col))
    ensures (n - 1) * n <= (n - 1) * n + (s.row - 1) * (n - 1) + Min(s.col, t.col) < ComputeNumEdges(n)
  {
    NeighboursAreAdjacent(s, t);
    MulMonotone(n - 1, 0, s.row - 1);
    MulMonotone(n - 1, s.row - 1, n - 3);
    assert (s.row - 1) * (n - 1) == (n - 1) * (s.row - 1);
    assert (n - 1) * (n - 2) == (n - 1) * (n - 3) + (n - 1);
  }

  /** Distinct edges get distinct slots: with the range above, the map is a bijection. */
  lemma SlotInjective(n: int, s: Vertex, t: Vertex, s': Vertex, t': Vertex)
    requires IsEdge(n, s, t) && IsEdge(n, s', t')
    requires CheckedStorageIndex(n, s, t) == CheckedStorageIndex(n, s', t')
    ensures SameEdge(s, t, s', t')
  {
    if s.col == t.col {
      VerticalSlot(n, s, t);
      if s'.col == t'.col {
        VerticalSlot(n, s', t');
        QuotRemUnique(n - 1, s.col, Min(s.row, t.row), s'.col, Min(s'.row, t'.row));
      } else {
        HorizontalSlot(n, s', t');
      }
    } else {
      HorizontalSlot(n, s, t);
      if s'.col == t'.col {
        VerticalSlot(n, s', t');
      } else {
        HorizontalSlot(n, s', t');
        assert (s.row - 1) * (n - 1) == (n - 1) * (s.row - 1);
        assert (s'.row - 1) * (n - 1) == (n - 1) * (s'.row - 1);
        QuotRemUnique(n - 1, s.row - 1, Min(s.col, t.col), s'.row - 1, Min(s'.col, t'.col));
      }
    }
  }

  /**
   * As written, a pair of vertices off the grid can share the slot of a real
   * edge: {0,n}-{1,n} lands on the slot of {1,0}-{1,1}; and {-1,0}-{0,0} gets
   * slot -1, outside the store, on which `weights_.at` throws.
   */
  lemma OffGridPairAliasesEdge(n: int)
    requires n >= 3
    ensures !InGrid(n, Vertex(0, n)) && IsEdge(n, Vertex(1, 0), Vertex(1, 1))
    ensures StorageIndexForWeight(n, Vertex(0, n), Vertex(1, n)) == Some((n - 1) * n)
    ensures StorageIndexForWeight(n, Vertex(1, 0), Vertex(1, 1)) == Some((n - 1) * n)
    ensures StorageIndexForWeight(n, Vertex(-1, 0), Vertex(0, 0)) == Some(-1)
    ensures CheckedStorageIndex(n, Vertex(0, n), Vertex(1, n)) == None
  {
  }

  // ---------------------------------------------------------------------------
  // C++ integer division
  // ---------------------------------------------------------------------------

  /** C++ `/` on int: truncates toward zero. */
  function CDiv(a: int, b: int): int
    requires b != 0
  {
    var q := Abs(a) / Abs(b);
    if (a < 0) == (b < 0) then q else -q
  }

  /** C++ `%` on int: the remainder takes the sign of the dividend. */
  function CMod(a: int, b: int): int
    requires b != 0
  {
    var r := Abs(a) % Abs(b);
    if a < 0 then -r else r
  }

  /** C++ guarantees (a/b)*b + a%b == a; so do CDiv and CMod. */
  lemma CDivModIdentity(a: int, b: int)
    requires b != 0
    ensures CDiv(a, b) * b + CMod(a, b) == a
  {
    var q, r := Abs(a) / Abs(b), Abs(a) % Abs(b);
    assert Abs(b) * q + r == Abs(a);
    if b < 0 {
      assert Abs(b) * q == -(b * q);
    } else {
      assert Abs(b) * q == b * q;
    }
  }

  // ---------------------------------------------------------------------------
  // The grid object
  // ---------------------------------------------------------------------------

  /** The k-th pair of the list has slot k. */
  predicate SlotsInOrder(n: int, edges: seq<(Vertex, Vertex)>)
  {
    forall k :: 0 <= k < |edges| ==> CheckedStorageIndex(n, edges[k].0, edges[k].1) == Some(k)
  }

  /** Every pair names its upper or left endpoint first. */
  predicate UpperLeftFirst(edges: seq<(Vertex, Vertex)>)
  {
    forall k :: 0 <= k < |edges| ==> edges[k].0.row <= edges[k].1.row && edges[k].0.col <= edges[k].1.col
  }

  /** What the traversal has produced so far: pairs in storage order, upper or left endpoint first. */
  predicate TraversedInOrder(n: int, edges: seq<(Vertex, Vertex)>)
  {
    SlotsInOrder(n, edges) && UpperLeftFirst(edges)
  }

  lemma TraversedInOrderAppend(n: int, edges: seq<(Vertex, Vertex)>, s: Vertex, t: Vertex)
    requires TraversedInOrder(n, edges) && StorageIndexForWeight(n, s, t) == Some(|edges|)
    requires InGrid(n, s) && InGrid(n, t) && s.row <= t.row && s.col <= t.col
    ensures TraversedInOrder(n, edges + [(s, t)])
  {
    SlotsInOrderAppend(n, edges, s, t);
    UpperLeftFirstAppend(edges, s, t);
  }

  /** The vertical sweep appends the edge below (row, col) at slot (n - 1) * col + row. */
  lemma VerticalAppend(n: int, edges: seq<(Vertex, Vertex)>, row: int, col: int)
    requires TraversedInOrder(n, edges)
    requires 0 <= row < n - 1 && 0 <= col < n && |edges| == (n - 1) * col + row
    ensures TraversedInOrder(n, edges + [(Vertex(row, col), Vertex(row + 1, col))])
  {
    VerticalSlot(n, Vertex(row, col), Vertex(row + 1, col));
    TraversedInOrderAppend(n, edges, Vertex(row, col), Vertex(row + 1, col));
  }

  /** The horizontal sweep appends the edge right of (row, col) at slot (n - 1) * n + (row - 1) * (n - 1) + col. */
  lemma HorizontalAppend(n: int, edges: seq<(Vertex, Vertex)>, row: int, col: int)
    requires TraversedInOrder(n, edges)
    requires 0 < row < n - 1 && 0 <= col < n - 1 && |edges| == (n - 1) * n + (row - 1) * (n - 1) + col
    ensures TraversedInOrder(n, edges + [(Vertex(row, col), Vertex(row, col + 1))])
  {
    HorizontalSlot(n, Vertex(row, col), Vertex(row, col + 1));
    TraversedInOrderAppend(n, edges, Vertex(row, col), Vertex(row, col + 1));
  }

  lemma UpperLeftFirstAppend(edges: seq<(Vertex, Vertex)>, s: Vertex, t: Vertex)
    requires UpperLeftFirst(edges) && s.row <= t.row && s.col <= t.col
    ensures UpperLeftFirst(edges + [(s, t)])
  {
    var all := edges + [(s, t)];
    forall k | 0 <= k < |all|
      ensures all[k].0.row <= all[k].1.row && all[k].0.col <= all[k].1.col
    {
      if k < |edges| {
        assert all[k] == edges[k];
      }
    }
  }

  lemma SlotsInOrderAppend(n: int, edges: seq<(Vertex, Vertex)>, s: Vertex, t: Vertex)
    requires SlotsInOrder(n, edges) && StorageIndexForWeight(n, s, t) == Some(|edges|)
    requires InGrid(n, s) && InGrid(n, t)
    ensures SlotsInOrder(n, edges + [(s, t)])
  {
    var all := edges + [(s, t)];
    forall k | 0 <= k < |all|
      ensures CheckedStorageIndex(n, all[k].0, all[k].1) == Some(k)
    {
      if k < |edges| {
        assert all[k] == edges[k];
      }
    }
  }

  class Grid {
    /** side_length_ */
    const n: int
    /** weights_: one slot per edge, addressed by CheckedStorageIndex. */
    const weights: array<real>

    ghost predicate Valid()
    {
      weights.Length == ComputeNumEdges(n)
    }

    /** Allocates the store of ComputeNumEdges(n) weights, all 0. */
    constructor (sideNodesCount: int)
      ensures n == sideNodesCount && Valid() && fresh(weights)
      ensures forall i :: 0 <= i < weights.Length ==> weights[i] == 0.0
    {
      n := sideNodesCount;
      weights := new real[ComputeNumEdges(sideNodesCount)](_ => 0.0);
    }

    function NumEdges(): (r: int)
      requires Valid()
      ensures r == weights.Length
    {
      ComputeNumEdges(n)
    }

    /** The getter: the stored weight of an edge, +infinity for anything else. */
    function EdgeWeight(s: Vertex, t: Vertex): (w: Weighted)
      requires Valid()
      reads weights
      ensures w == Infinite <==> !IsEdge(n, s, t)
      ensures IsEdge(n, s, t) ==> w == Finite(weights[CheckedStorageIndex(n, s, t).value])
    {
      match CheckedStorageIndex(n, s, t)
      case Some(i) => Finite(weights[i])
      case None => Infinite
    }

    lemma EdgeWeightSymmetric(s: Vertex, t: Vertex)
      requires Valid()
      ensures EdgeWeight(s, t) == EdgeWeight(t, s)
    {
      StorageIndexSymmetric(n, s, t);
    }

    /**
     * The setter: overwrites the slot of an edge and nothing else, or raises
     * NotNeighbours naming both vertices and leaves the store unchanged.
     */
    method SetEdgeWeight(s: Vertex, t: Vertex, x: real) returns (r: Outcome<GridError>)
      requires Valid()
      modifies weights
      ensures r == if IsEdge(n, s, t) then Pass else Fail(NotNeighbours(s, t))
      ensures r.Pass? ==> weights[..] == old(weights[..])[CheckedStorageIndex(n, s, t).value := x]
      ensures r.Fail? ==> weights[..] == old(weights[..])
      ensures r.Pass? ==> EdgeWeight(s, t) == Finite(x)
      ensures forall s', t' :: !SameEdge(s, t, s', t') ==> EdgeWeight(s', t') == old(EdgeWeight(s', t'))
    {
      var maybeIdx := CheckedStorageIndex(n, s, t);
      if maybeIdx.Some? {
        weights[maybeIdx.value] := x;
        r := Pass;
        forall s', t' | !SameEdge(s, t, s', t')
          ensures EdgeWeight(s', t') == old(EdgeWeight(s', t'))
        {
          if IsEdge(n, s', t') && CheckedStorageIndex(n, s', t') == maybeIdx {
            SlotInjective(n, s, t, s', t');
          }
        }
        return;
      }
      r := Fail(NotNeighbours(s, t));
    }

    /** Row-major label of a vertex. */
    function Label(v: Vertex): int
    {
      v.row * n + v.col
    }

    /** Inverse of Label, with C++'s truncating division; Label undoes it for every l. */
    function VertexFromLabel(l: int): (v: Vertex)
      requires n != 0
      ensures Label(v) == l
    {
      CDivModIdentity(l, n);
      Vertex(CDiv(l, n), CMod(l, n))
    }

    /** Labels of on-grid vertices come back to the same vertex, and fill [0, n*n). */
    lemma LabelRoundTrip(v: Vertex)
      requires InGrid(n, v)
      ensures 0 <= Label(v) < n * n
      ensures VertexFromLabel(Label(v)) == v
    {
      var l := Label(v);
      MulMonotone(n, 0, v.row);
      MulMonotone(n, v.row, n - 1);
      assert v.row * n == n * v.row;
      assert n * n == n * (n - 1) + n;
      QuotRemUnique(n, l / n, l % n, v.row, v.col);
    }

    /** On a grid with n > 0, every label in [0, n*n) names an on-grid vertex. */
    lemma VertexFromLabelInGrid(l: int)
      requires n > 0 && 0 <= l < n * n
      ensures InGrid(n, VertexFromLabel(l))
    {
      var q, r := l / n, l % n;
      assert CDiv(l, n) == q && CMod(l, n) == r;
      assert n * q + r == l;
      assert 0 <= r < n;
      if q < 0 {
        MulMonotone(n, q, -1);
        assert false;
      }
      if q >= n {
        MulMonotone(n, n, q);
        assert false;
      }
      assert VertexFromLabel(l) == Vertex(q, r);
    }

    /**
     * traverse_edges: vertical edges column by column, then horizontal edges of
     * the interior rows row by row. The k-th pair visited has slot k, and all
     * ComputeNumEdges(n) slots are visited.
     */
    method TraverseEdges() returns (edges: seq<(Vertex, Vertex)>)
      ensures n >= 1 ==> |edges| == ComputeNumEdges(n)
      ensures n < 1 ==> edges == []
      ensures forall k :: 0 <= k < |edges| ==> CheckedStorageIndex(n, edges[k].0, edges[k].1) == Some(k)
      ensures UpperLeftFirst(edges)
    {
      edges := [];
      var col := 0;
      while col < n
        invariant 0 <= col <= Max(n, 0)
        invariant |edges| == (n - 1) * col
        invariant TraversedInOrder(n, edges)
      {
        ghost var colStart := |edges|;
        var row := 0;
        while row < n - 1
          invariant 0 <= row <= n - 1
          invariant |edges| == colStart + row
          invariant TraversedInOrder(n, edges)
        {
          VerticalAppend(n, edges, row, col);
          edges := edges + [(Vertex(row, col), Vertex(row + 1, col))];
          row := row + 1;
        }
        assert (n - 1) * (col + 1) == (n - 1) * col + (n - 1);
        col := col + 1;
      }
      ghost var vertical := |edges|;
      var row := 1;
      while row < n - 1
        invariant 1 <= row && (n >= 2 ==> row <= n - 1)
        invariant n < 2 ==> row == 1
        invariant n >= 1 ==> vertical == (n - 1) * n
        invariant n < 1 ==> edges == []
        invariant |edges| == vertical + (row - 1) * (n - 1)
        invariant TraversedInOrder(n, edges)
      {
        ghost var rowStart := |edges|;
        var c := 0;
        while c < n - 1
          invariant 0 <= c <= n - 1
          invariant |edges| == rowStart + c
          invariant TraversedInOrder(n, edges)
        {
          HorizontalAppend(n, edges, row, c);
          edges := edges + [(Vertex(row, c), Vertex(row, c + 1))];
          c := c + 1;
        }
        assert row * (n - 1) == (row - 1) * (n - 1) + (n - 1);
        row := row + 1;
      }
      if n >= 1 {
        if n >= 2 {
          assert (n - 2) * (n - 1) == (n - 1) * (n - 2);
        } else {
          assert (n - 1) * (n - 2) == 0;
        }
      }
    }

    /** Column-major position of a vertex in the traversal of the nodes. */
    function NodePosition(v: Vertex): int
    {
      v.col * n + v.row
    }

    /**
     * traverse_nodes: every on-grid vertex once, column by column; the vertex
     * v sits at position col*n + row.
     */
    method TraverseNodes() returns (nodes: seq<Vertex>)
      ensures |nodes| == Max(n, 0) * Max(n, 0)
      ensures forall k :: 0 <= k < |nodes| ==> InGrid(n, nodes[k])
      ensures forall v :: InGrid(n, v) ==> 0 <= NodePosition(v) < |nodes| && nodes[NodePosition(v)] == v
    {
      nodes := [];
      var col := 0;
      while col < n
        invariant 0 <= col <= Max(n, 0)
        invariant |nodes| == col * n
        invariant forall k :: 0 <= k < |nodes| ==> InGrid(n, nodes[k])
        invariant forall v :: InGrid(n, v) && v.col < col ==>
                    0 <= NodePosition(v) < |nodes| && nodes[NodePosition(v)] == v
      {
        var row := 0;
        while row < n
          invariant 0 <= row <= n
          invariant |nodes| == col * n + row
          invariant forall k :: 0 <= k < |nodes| ==> InGrid(n, nodes[k])
          invariant forall v :: InGrid(n, v) && (v.col < col || (v.col == col && v.row < row)) ==>
                      0 <= NodePosition(v) < |nodes| && nodes[NodePosition(v)] == v
        {
          nodes := nodes + [Vertex(row, col)];
          row := row + 1;
        }
        assert (col + 1) * n == col * n + n;
        col := col + 1;
      }
    }
  }
}
