# Rough-boundary grid and Johnson reduction, in Dafny

This project models two pieces of a shortest-path toolkit.

**The rough-boundary grid** (`GridWithRoughBoundaries`). An n-per-side grid whose first
and last rows have vertical edges only. Every edge owns one slot of a dense weight store:
- vertical edges come first, column by column;
- then the horizontal edges of the interior rows, row by row.

The closed-form `get_storage_index_for_weight` maps an edge to its slot. The getter returns
+infinity for a non-edge and the setter throws for one. `label` and `vertex_from_label`
number the vertices row-major. `traverse_edges` visits the edges in slot order.
- Module `RoughGrid` (`rough_grid.dfy`) holds the free functions as pure functions and a
  `Grid` class that holds the store as an array.
- Module `GridScenario` (`grid_scenario.dfy`) replays the repository's grid test on that
  class.

**The driver `jhonsonX.cpp`**. It reads an edge file and a source file, each in DIMACS form or
a plain form. It computes all-pairs distances, which the model takes as an input matrix. It
then reduces them to two tables:
- every unordered pair of sources with its distance;
- every source with its nearest boundary node.

Module `Loaders` (`loaders.dfy`) models the line rules of `LoadFile` and `LoadSourceInfo`
over lines that are already split into tokens. Each loader is:
- a function stating how a whole file reads;
- an imperative method with the source's single pass over the lines, proved equal to that
  function.

Module `Reduction` (`reduction.dfy`) models the loops at the end of `main` over arrays,
proved against:
- the reference order of source pairs;
- a nearest-boundary predicate.

`wrappers.dfy` holds `Option`, `Result` and `Outcome`.

Weights of the grid are `real` (the source's `double`, without rounding); infinity is the
`Infinite` constructor. Integers are unbounded.

## Model

| member | source | states |
|---|---|---|
| RoughGrid.ComputeNumEdges | GridWithRoughBoundaries.cpp:16-20 | the store size (n-1)n vertical plus (n-1)(n-2) horizontal slots, never negative for any n |
| RoughGrid.AreGridNeighbours | GridWithRoughBoundaries.cpp:35-39 | one coordinate equal and the other one step apart; NeighbourTestAgrees shows it is the source's test and NeighboursAreAdjacent that it is Manhattan distance one |
| RoughGrid.NeighbourTestAsWritten | GridWithRoughBoundaries.cpp:37-38 | the source's product-and-absolute-value test as written, proved equal to AreGridNeighbours by NeighbourTestAgrees |
| RoughGrid.AreVerticalBoundaryNodes | GridWithRoughBoundaries.cpp:42-45 | for two on-grid neighbours it holds exactly when they are not joined by an edge of the grid, the rows 0 and n-1 having no horizontal edges |
| RoughGrid.StorageIndexForWeight | GridWithRoughBoundaries.cpp:49-84 | the index as written: the min/max corners, the null case, the vertical and horizontal formulas and the final null; what it computes is proved by StorageIndexNoneIff, VerticalSlot, HorizontalSlot, OnGridSlot and OffGridPairAliasesEdge |
| RoughGrid.NumEdgesIsTwiceSquare | GridWithRoughBoundaries.cpp:16-20 | the store size (n-1)n + (n-1)(n-2) equals 2(n-1)², so it is never negative |
| RoughGrid.NeighbourTestAgrees | GridWithRoughBoundaries.cpp:35-39 | the source's product-and-absolute-value test holds exactly when one coordinate is equal and the other differs by one |
| RoughGrid.NeighboursAreAdjacent | GridWithRoughBoundaries.cpp:35-39 | the neighbour test is exactly Manhattan distance one |
| RoughGrid.StorageIndexNoneIff | GridWithRoughBoundaries.cpp:49-84 | the index is absent exactly when the vertices are not Manhattan-adjacent or both lie in row 0 or both in row n-1; the final `nullopt` is unreachable |
| RoughGrid.StorageIndexSymmetric | GridWithRoughBoundaries.cpp:53-54 | swapping the two vertices gives the same index, for the source's index and for the checked one |
| RoughGrid.VerticalSlot | GridWithRoughBoundaries.cpp:59-68 | a vertical edge of the grid gets (n-1)·col + min(row), which lies in [0, (n-1)n) |
| RoughGrid.HorizontalSlot | GridWithRoughBoundaries.cpp:70-80 | a horizontal edge on interior row r gets (n-1)n + (r-1)(n-1) + min(col), which lies in [(n-1)n, num_edges) |
| RoughGrid.SlotInjective | GridWithRoughBoundaries.cpp:49-84 | two edges of the grid with the same slot are the same unordered pair, so with the ranges above the index is a bijection onto the store |
| RoughGrid.OnGridSlot | GridWithRoughBoundaries.cpp:49-84 | for on-grid vertices the source's index is present exactly for the edges of the grid, and then lies in [0, num_edges) |
| RoughGrid.CheckedStorageIndex | GridWithRoughBoundaries.cpp:49-84 | the index with an on-grid check: present exactly for the edges of the grid, always inside the store |
| RoughGrid.OffGridPairAliasesEdge | GridWithRoughBoundaries.cpp:49-84 | as written, the off-grid pair {0,n}-{1,n} gets the slot of the edge {1,0}-{1,1}, and {-1,0}-{0,0} gets slot -1 |
| RoughGrid.CDivModIdentity | GridWithRoughBoundaries.cpp:138-140 | C++ truncating `/` and `%` satisfy (a/b)·b + a%b == a |
| RoughGrid.Grid.constructor | GridWithRoughBoundaries.cpp:110-112 | the store has compute_num_edges(n) slots, all 0 |
| RoughGrid.Grid.NumEdges | GridWithRoughBoundaries.cpp:143-146 | num_edges is the size of the store |
| RoughGrid.Grid.EdgeWeight | GridWithRoughBoundaries.cpp:115-119 | infinity exactly for a non-edge; otherwise the weight in the edge's slot |
| RoughGrid.Grid.EdgeWeightSymmetric | GridWithRoughBoundaries.cpp:115-119 | the getter does not depend on the order of the two vertices |
| RoughGrid.Grid.SetEdgeWeight | GridWithRoughBoundaries.cpp:121-131 | an edge gets the new value in its slot and every other pair reads as before; a non-edge raises NotNeighbours(s, t) and the store is unchanged |
| RoughGrid.Grid.Label | GridWithRoughBoundaries.cpp:134-136 | the row-major label row·n + col; LabelRoundTrip shows it lies in [0, n²) for on-grid vertices and VertexFromLabel undoes it |
| RoughGrid.Grid.VertexFromLabel | GridWithRoughBoundaries.cpp:138-140 | for n ≠ 0, label(vertex_from_label(l)) == l for every l, with the C++ truncating division |
| RoughGrid.Grid.LabelRoundTrip | GridWithRoughBoundaries.cpp:134-140 | an on-grid vertex has a label in [0, n²) and vertex_from_label gives it back |
| RoughGrid.Grid.VertexFromLabelInGrid | GridWithRoughBoundaries.cpp:138-140 | on a grid with n > 0, every label in [0, n²) names an on-grid vertex |
| RoughGrid.Grid.TraverseEdges | GridWithRoughBoundaries.cpp:88-99 | for n ≥ 1 it visits compute_num_edges(n) pairs (none for n < 1), the k-th pair visited has slot k, and every pair names its upper or left endpoint first |
| RoughGrid.Grid.TraverseNodes | GridWithRoughBoundaries.cpp:101-106 | it visits n² on-grid vertices, each once, vertex v at position col·n + row |
| GridScenario.WriteCountersInTraversalOrder | GridWithRoughBoundaries_test.cpp:32-38 | writing the counter in traversal order fills slot i with i, and every traversed edge reads back its position; on a grid with n < 1 the store is unchanged |
| GridScenario.RoughGridScenario | GridWithRoughBoundaries_test.cpp:18-45 | on a 7-grid the write to {0,0}-{0,1} fails naming both vertices; after the counters are written, a second traversal visits compute_num_edges(7) pairs and the k-th has, as the source computes it, storage index k and weight k |
| Loaders.IsComment | jhonsonX.cpp:37 | a line whose first character is `c`; CommentLinesIgnored shows such a line never changes what either loader returns |
| Loaders.ReadHeader | jhonsonX.cpp:40-49 | `p edge %d %d` (DIMACS form) for a line starting with `p`, `%d %d` (plain form) otherwise; a line that reads as a header is never a comment, and its format is DIMACS exactly when it starts with `p` |
| Loaders.ReadEdgeRecord | jhonsonX.cpp:59-66 | `e %d %d %d` with the endpoints made 0-based in DIMACS form, `%d %d %d` in plain form; a line that reads as a record is never a comment |
| Loaders.ReadLabel | jhonsonX.cpp:116-122 | `e %d` made 0-based in DIMACS form, `%d` in plain form; a line that reads as a label is never a comment |
| Loaders.HeaderLineExactly | jhonsonX.cpp:40-49 | a line reads as header h exactly when it begins with the tokens of h in h's form: `p edge first second` for DIMACS, `first second` for plain; anything after them is ignored |
| Loaders.RecordLineExactly | jhonsonX.cpp:59-66 | a line reads as edge record x exactly when it begins with x's tokens in the header's form (`e u+1 v+1 w` for DIMACS, `u v w` for plain); only `e` lines count in DIMACS form |
| Loaders.LabelLineExactly | jhonsonX.cpp:116-122 | a line reads as label x exactly when it begins with x's tokens in the header's form (`e x+1` for DIMACS, `x` for plain); only `e` lines count in DIMACS form |
| Loaders.UnreadRecordLineSkipped | jhonsonX.cpp:59-66 | once a header has been read, removing a line that does not scan as a record leaves LoadEdgeFile's result unchanged |
| Loaders.UnreadLabelLineSkipped | jhonsonX.cpp:116-122 | once a header has been read, removing a line that does not scan as a label leaves LoadSourceFile's result unchanged |
| Loaders.EdgesFlat | jhonsonX.cpp:67-68 | record e's endpoints sit at positions 2e and 2e+1 |
| Loaders.Weights | jhonsonX.cpp:69 | record e's weight sits at position e |
| Loaders.LoadEdgeFile | jhonsonX.cpp:24-76 | a file that loads has node_num > 0, edge_num ≥ 0, 2·edge_num endpoints and edge_num weights |
| Loaders.LoadSourceFile | jhonsonX.cpp:78-140 | a file that loads has at least one source |
| Loaders.CommentLinesIgnored | jhonsonX.cpp:37 | inserting a line that starts with `c` anywhere changes nothing for either loader |
| Loaders.MalformedHeaderRejected | jhonsonX.cpp:40-49 | a first line that is not `p edge %d %d` (when it starts with `p`), or else not `%d %d`, fails both loaders |
| Loaders.NonPositiveCountsRejected | jhonsonX.cpp:52 | a header with a first count ≤ 0 or a second count < 0 fails both loaders, whatever follows |
| Loaders.RecordLineReadBack | jhonsonX.cpp:59-66 | an `e` line with 1-based endpoints in DIMACS form, or a bare line in plain form, reads back as the 0-based record |
| Loaders.LabelLineReadBack | jhonsonX.cpp:116-122 | the same for a label line of the source file |
| Loaders.EdgeLinesReadBack | jhonsonX.cpp:57-71 | a list of written records reads back as the same records, in order |
| Loaders.LabelLinesReadBack | jhonsonX.cpp:114-125 | a list of written labels reads back as the same labels, in order |
| Loaders.HeaderReadBack | jhonsonX.cpp:40-49 | a written header is not a comment and reads back with its format and both counts |
| Loaders.EdgeFileRoundTrip | jhonsonX.cpp:24-76 | with accepted counts, a header plus records loads back exactly those records when the declared count matches, and fails with the count mismatch otherwise |
| Loaders.SourceFileRoundTrip | jhonsonX.cpp:78-140 | a header declaring both counts, then the sources and the boundaries, loads back the same two lists |
| Loaders.ZeroBoundariesAccepted | jhonsonX.cpp:108 | a source file declaring one source and zero boundaries loads, with an empty boundary list |
| Loaders.EdgeScanEnd | jhonsonX.cpp:74 | after the last line, fewer or more records than edge_num is the count mismatch; otherwise the arrays are the file's reading |
| Loaders.LoadFile | jhonsonX.cpp:24-76 | the single pass over the lines, with the header step, the allocation and the array writes, returns exactly LoadEdgeFile of the lines |
| Loaders.SplitLoadedList | jhonsonX.cpp:136-137 | sources are the first source_num entries and boundaries the next boundary_num, in order |
| Loaders.SourceScanEnd | jhonsonX.cpp:128 | after the last line, a label count other than source_num + boundary_num is the count mismatch; otherwise all_list is the file's labels |
| Loaders.LoadSourceInfo | jhonsonX.cpp:78-140 | the single pass over the lines followed by the split returns exactly LoadSourceFile of the lines |
| Reduction.SourcePairsCount | jhonsonX.cpp:225 | there are S(S-1)/2 source pairs |
| Reduction.PairAt | jhonsonX.cpp:252-259 | the pair written at iteration (ii, jj) is entry \|pairs of rows < ii\| + jj - 1 of the pair order, and that entry is (ii, ii+jj) |
| Reduction.PairsBeforeOrdered | jhonsonX.cpp:244-262 | the listed pairs are strictly increasing, ii-major then jj |
| Reduction.PairsBeforeComplete | jhonsonX.cpp:244-262 | every pair i < j with i in an earlier row is listed |
| Reduction.SourcePairsAreAllPairsInOrder | jhonsonX.cpp:244-262 | the pair order contains exactly the pairs of positions i < j < S, each once, in ii-major then jj order |
| Reduction.CountPairs | jhonsonX.cpp:225 | pair_num = 1 + … + (S-1) equals S(S-1)/2, which is the number of source pairs |
| Reduction.NearestBoundary | jhonsonX.cpp:265-273 | with at least one boundary, the result is the minimum distance over the boundary list, reached first at the returned boundary, and strictly smaller than at every earlier position |
| Reduction.NearestIsUnique | jhonsonX.cpp:265-273 | that description fixes the boundary and the weight |
| Reduction.ListPairsOfSource | jhonsonX.cpp:252-262 | the jj loop writes the pairs of row ii and their matrix distances into the next slots, and advances pp by S-ii-1 |
| Reduction.StoreNearest | jhonsonX.cpp:275-277 | record ii of sb_pairs_flat / sb_pairs_weight is (sources[ii], closest_b, closest_b_weight), and earlier records are kept |
| Reduction.ReduceSource | jhonsonX.cpp:247-277 | one outer iteration extends the listed pairs and the nearest-boundary records by source ii |
| Reduction.Reduce | jhonsonX.cpp:223-279 | pair_num is the number of source pairs, S(S-1)/2. Pair p holds (sources[i], sources[j]) and d[sources[i]][sources[j]] for the p-th pair (i, j) in ii-major order. Record ii holds sources[ii], its nearest boundary and that distance. It fails exactly when there are sources but no boundary |

## Left out

- Johnson's algorithm (the Boost call at jhonsonX.cpp:242): the distance matrix is an input of `Reduction.Reduce`. The graph construction from the edge arrays is not modelled.
- File handles, `fgets` and `fopen` are not modelled, and neither is `fprintf` in SaveDijkstra. The `exit(1)` calls become `Failure` values. Command-line parsing and ShowUsage are left out. makeGrid.cpp and benchmark.py are not part of this model.
- Loaders: `sscanf` lexing is replaced by lines of `Word`/`Num` tokens. So the model does not reproduce these lexical cases:
  - `e12 3 4` read as a record;
  - `pedge`;
  - a header line starting with `p` but followed by other text;
  - a line with leading blanks. The source tests the raw first character `LINE[0]` (jhonsonX.cpp:37, 40, 61, 96, 118), and a line of tokens has no leading blank. So the model reads such a line as if the blanks were absent:
    - ` c x` is a comment in the model. The source does not treat it as one.
    - ` p edge 3 4` is a DIMACS header in the model. The source reads it as a plain header, and the `%d %d` read then fails (jhonsonX.cpp:48).
    - ` e 1 2 3` is read as a record in DIMACS form. The source skips it (jhonsonX.cpp:61).
  A record line in DIMACS form must have `e` as its first token.
- Loaders.LoadFile: when a file holds more records than edge_num declares, the source writes past the end of edges_flat and weights. The model stops storing but keeps counting, and the count check then fails.
- Loaders.LoadSourceInfo: the same holds for all_list.
- Loaders.LoadSourceInfo: boundary_num is uninitialised in the source until a header is read. The model starts it at 0, so a file without a header fails the count check, as LoadFile's does.
- main does not require a source file. Without one, source_num is uninitialised; the model always takes the source list as an input.
- Node, source and boundary labels are not checked against node_num by the source. `Reduction.Reduce` requires them to index the matrix, as vector indexing does.
- Integer widths: pair_num, the array sizes, the labels and `row*n + col` are C `int`. They are unbounded here, so overflow is not modelled.
- RoughGrid.Grid.constructor: n ≤ 0 is accepted as in the source. The store has the (non-negative) size compute_num_edges(n).
- RoughGrid.Grid.VertexFromLabelInGrid: stated for n > 0 only, because a grid with n ≤ 0 has no vertices (InGrid holds of none), so no label can name an on-grid vertex there.
- RoughGrid.Grid.EdgeWeight and RoughGrid.Grid.SetEdgeWeight use the on-grid-checked index (see Findings). So an off-grid pair reads as infinity and is refused by the setter. It never aliases an edge, and the `std::out_of_range` of `weights_.at` cannot occur.
- The traversal callbacks of traverse_edges and traverse_nodes are replaced by the returned sequence of visited pairs or vertices.
- `double` weights are `real`, without rounding; the error message text of `operator<<` is replaced by the two vertices carried in `NotNeighbours`.
- Memory leaks, stack arrays and `delete` have no counterpart.

## Findings

| source | as written | input that shows it | evidently intended | confidence | as-written member | corrected member |
|---|---|---|---|---|---|---|
| GridWithRoughBoundaries.cpp:49-84 | the storage index never checks that the vertices lie on the grid | on an n-grid with n ≥ 3, {0,n}-{1,n} gets slot (n-1)n, the slot of edge {1,0}-{1,1}, so the getter and setter act on that edge; {-1,0}-{0,0} gets slot -1 | a pair that is not an edge of the grid has no slot, so the getter returns infinity and the setter raises the error | not executed; high | RoughGrid.OffGridPairAliasesEdge | RoughGrid.CheckedStorageIndex |
| jhonsonX.cpp:108 | the count check accepts boundary_num == 0 | a source file with header `1 0` and one label loads, then main reads `boundaries[0]` of an empty array at line 265 | at least one boundary, or no nearest-boundary step without one | not executed; medium | Loaders.ZeroBoundariesAccepted | Reduction.Reduce |
