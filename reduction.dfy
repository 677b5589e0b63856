/**
 * The reduction at the end of main in jhonsonX.cpp. Given the all-pairs
 * distance matrix (computed by a library call outside this model), it
 * lists every unordered pair of sources with its distance, and pairs every
 * source with its nearest boundary node.
 */
module Reduction {
  import opened Wrappers

  /** A V x V matrix of distances; row s holds the distances from vertex s. */
  predicate IsSquare(dist: seq<seq<int>>)
  {
    forall s :: 0 <= s < |dist| ==> |dist[s]| == |dist|
  }

  predicate LabelsIn(labels: seq<int>, v: int)
  {
    forall i :: 0 <= i < |labels| ==> 0 <= labels[i] < v
  }

  // ---------------------------------------------------------------------------
  // The order in which the source pairs are listed
  // ---------------------------------------------------------------------------

  /** The pairs (ii, ii+jj), 0 < jj < count-ii, of positions in the source list. */
  function RowPairs(count: nat, ii: nat): seq<(int, int)>
  {
    if ii < count then seq(count - ii - 1, k => (ii, ii + k + 1)) else []
  }

  /** The pairs listed by the iterations 0 .. ii-1 of the outer loop. */
  function PairsBefore(count: nat, ii: nat): seq<(int, int)>
  {
    if ii == 0 then [] else PairsBefore(count, ii - 1) + RowPairs(count, ii - 1)
  }

  /** Every pair of positions i < j, ii-major then jj. */
  function SourcePairs(count: nat): seq<(int, int)>
  {
    PairsBefore(count, count)
  }

  /** Strictly increasing in the order (i, j) < (i', j') when i < i', or i == i' and j < j'. */
  predicate LexLess(a: (int, int), b: (int, int))
  {
    a.0 < b.0 || (a.0 == b.0 && a.1 < b.1)
  }

  lemma {:induction false} PairsBeforeLength(count: nat, ii: nat)
    requires ii <= count
    ensures 2 * |PairsBefore(count, ii)| == ii * (2 * count - ii - 1)
  {
    if ii > 0 {
      PairsBeforeLength(count, ii - 1);
      assert ii * (2 * count - ii - 1) == (ii - 1) * (2 * count - (ii - 1) - 1) + 2 * (count - ii);
    }
  }

  /** There are count*(count-1)/2 source pairs. */
  lemma SourcePairsCount(count: nat)
    ensures 2 * |SourcePairs(count)| == count * (count - 1)
  {
    PairsBeforeLength(count, count);
  }

  lemma {:induction false} PairsBeforePrefix(count: nat, ii: nat, ii': nat)
    requires ii <= ii'
    ensures PairsBefore(count, ii) <= PairsBefore(count, ii')
  {
    if ii < ii' {
      PairsBeforePrefix(count, ii, ii' - 1);
    }
  }

  /** The pair built at iteration (ii, jj) of the loop is entry |PairsBefore(count, ii)| + jj - 1. */
  lemma PairAt(count: nat, ii: nat, jj: int)
    requires ii < count && 1 <= jj < count - ii
    ensures |PairsBefore(count, ii)| + jj - 1 < |SourcePairs(count)|
    ensures SourcePairs(count)[|PairsBefore(count, ii)| + jj - 1] == (ii, ii + jj)
  {
    PairsBeforePrefix(count, ii + 1, count);
    assert PairsBefore(count, ii + 1) == PairsBefore(count, ii) + RowPairs(count, ii);
  }

  lemma {:induction false} PairsBeforeRange(count: nat, ii: nat)
    requires ii <= count
    ensures forall k :: 0 <= k < |PairsBefore(count, ii)| ==>
              0 <= PairsBefore(count, ii)[k].0 < PairsBefore(count, ii)[k].1 < count
              && PairsBefore(count, ii)[k].0 < ii
  {
    if ii > 0 {
      PairsBeforeRange(count, ii - 1);
      var before, row := PairsBefore(count, ii - 1), RowPairs(count, ii - 1);
      assert PairsBefore(count, ii) == before + row;
    }
  }

  lemma {:induction false} PairsBeforeOrdered(count: nat, ii: nat)
    requires ii <= count
    ensures forall k, k' :: 0 <= k < k' < |PairsBefore(count, ii)| ==>
              LexLess(PairsBefore(count, ii)[k], PairsBefore(count, ii)[k'])
  {
    if ii > 0 {
      PairsBeforeOrdered(count, ii - 1);
      PairsBeforeRange(count, ii - 1);
      var before, row := PairsBefore(count, ii - 1), RowPairs(count, ii - 1);
      var all := before + row;
      assert PairsBefore(count, ii) == all;
      forall k, k' | 0 <= k < k' < |all|
        ensures LexLess(all[k], all[k'])
      {
        if k' < |before| {
          assert all[k] == before[k] && all[k'] == before[k'];
        } else if k < |before| {
          assert all[k] == before[k] && all[k'] == row[k' - |before|];
        } else {
          assert all[k] == row[k - |before|] && all[k'] == row[k' - |before|];
        }
      }
    }
  }

  lemma {:induction false} PairsBeforeComplete(count: nat, ii: nat)
    requires ii <= count
    ensures forall i, j :: 0 <= i < ii && i < j < count ==> (i, j) in PairsBefore(count, ii)
  {
    if ii > 0 {
      PairsBeforeComplete(count, ii - 1);
      var before, row := PairsBefore(count, ii - 1), RowPairs(count, ii - 1);
      assert PairsBefore(count, ii) == before + row;
      forall i, j | 0 <= i < ii && i < j < count
        ensures (i, j) in PairsBefore(count, ii)
      {
        if i == ii - 1 {
          assert row[j - ii] == (i, j);
        }
      }
    }
  }

  /**
   * The listed pairs are exactly the pairs of positions i < j, each once, in
   * ii-major then jj order.
   */
  lemma SourcePairsAreAllPairsInOrder(count: nat)
    ensures forall k :: 0 <= k < |SourcePairs(count)| ==>
              0 <= SourcePairs(count)[k].0 < SourcePairs(count)[k].1 < count
    ensures forall i, j :: 0 <= i < j < count ==> (i, j) in SourcePairs(count)
    ensures forall k, k' :: 0 <= k < k' < |SourcePairs(count)| ==>
              LexLess(SourcePairs(count)[k], SourcePairs(count)[k'])
  {
    PairsBeforeRange(count, count);
    PairsBeforeOrdered(count, count);
    PairsBeforeComplete(count, count);
  }

  // ---------------------------------------------------------------------------
  // The loops
  // ---------------------------------------------------------------------------

  /** Line 225: pair_num accumulates 1 + 2 + ... + (source_num - 1). */
  method CountPairs(sourceNum: int) returns (pairNum: int)
    ensures sourceNum >= 0 ==> pairNum == |SourcePairs(sourceNum)|
    ensures 2 * pairNum == if sourceNum > 0 then sourceNum * (sourceNum - 1) else 0
  {
    pairNum := 0;
    var kk := 1;
    while kk < sourceNum
      invariant 1 <= kk && (sourceNum >= 1 ==> kk <= sourceNum)
      invariant sourceNum < 1 ==> kk == 1
      invariant 2 * pairNum == kk * (kk - 1)
    {
      pairNum := pairNum + kk;
      assert (kk + 1) * kk == kk * (kk - 1) + 2 * kk;
      kk := kk + 1;
    }
    if sourceNum >= 0 {
      SourcePairsCount(sourceNum);
    }
  }

  /**
   * closest_b and its distance: the distance is d at closest_b, no boundary
   * is nearer, and closest_b is the earliest boundary of the list at that
   * distance (an equal distance later in the list does not replace it).
   */
  predicate IsNearest(d: seq<int>, boundaries: seq<int>, b: int, w: int)
    requires LabelsIn(boundaries, |d|)
  {
    && (forall q :: 0 <= q < |boundaries| ==> w <= d[boundaries[q]])
    && exists p :: 0 <= p < |boundaries| && boundaries[p] == b && d[b] == w
                   && forall q :: 0 <= q < p ==> w < d[boundaries[q]]
  }

  /** The nearest boundary is determined by the distances and the order of the list. */
  lemma NearestIsUnique(d: seq<int>, boundaries: seq<int>, b: int, w: int, b': int, w': int)
    requires LabelsIn(boundaries, |d|)
    requires IsNearest(d, boundaries, b, w) && IsNearest(d, boundaries, b', w')
    ensures b == b' && w == w'
  {
    var p :| 0 <= p < |boundaries| && boundaries[p] == b && d[b] == w
             && forall q :: 0 <= q < p ==> w < d[boundaries[q]];
    var p' :| 0 <= p' < |boundaries| && boundaries[p'] == b' && d[b'] == w'
              && forall q :: 0 <= q < p' ==> w' < d[boundaries[q]];
    assert d[boundaries[p]] == w && d[boundaries[p']] == w';
  }

  /** Lines 265-273: a linear scan keeping the first strictly smaller distance. */
  method NearestBoundary(d: seq<int>, boundaries: seq<int>) returns (closestB: int, closestBWeight: int)
    requires |boundaries| >= 1 && LabelsIn(boundaries, |d|)
    ensures IsNearest(d, boundaries, closestB, closestBWeight)
  {
    closestB := boundaries[0];
    closestBWeight := d[closestB];
    ghost var pos := 0;
    var bb := 1;
    while bb < |boundaries|
      invariant 1 <= bb <= |boundaries|
      invariant 0 <= pos < bb && boundaries[pos] == closestB && d[closestB] == closestBWeight
      invariant forall q :: 0 <= q < pos ==> closestBWeight < d[boundaries[q]]
      invariant forall q :: 0 <= q < bb ==> closestBWeight <= d[boundaries[q]]
    {
      if d[boundaries[bb]] < closestBWeight {
        closestB := boundaries[bb];
        closestBWeight := d[closestB];
        pos := bb;
      }
      bb := bb + 1;
    }
  }

  /** The output of the reduction, the arrays handed to SaveDijkstra. */
  datatype Reduced = Reduced(
    pairNum: int,
    pairsFlat: seq<int>,
    dijkstraWeights: seq<int>,
    sbPairsFlat: seq<int>,
    sbPairsWeight: seq<int>)

  /** A source list that is not empty with an empty boundary list: there is no nearest boundary. */
  datatype ReduceError = EmptyBoundarySet

  /** Everything the reduction promises about its output. */
  predicate ReducedCorrectly(dist: seq<seq<int>>, sources: seq<int>, boundaries: seq<int>, out: Reduced)
    requires IsSquare(dist) && LabelsIn(sources, |dist|) && LabelsIn(boundaries, |dist|)
  {
    var pairs := SourcePairs(|sources|);
    && out.pairNum == |pairs|
    && |out.pairsFlat| == 2 * out.pairNum && |out.dijkstraWeights| == out.pairNum
    && (forall p :: 0 <= p < |pairs| ==>
          0 <= pairs[p].0 < pairs[p].1 < |sources|
          && out.pairsFlat[2 * p] == sources[pairs[p].0]
          && out.pairsFlat[2 * p + 1] == sources[pairs[p].1]
          && out.dijkstraWeights[p] == dist[sources[pairs[p].0]][sources[pairs[p].1]])
    && |out.sbPairsFlat| == 2 * |sources| && |out.sbPairsWeight| == |sources|
    && (forall ii :: 0 <= ii < |sources| ==>
          out.sbPairsFlat[2 * ii] == sources[ii]
          && IsNearest(dist[sources[ii]], boundaries, out.sbPairsFlat[2 * ii + 1], out.sbPairsWeight[ii]))
  }

  /** The first pp entries of pairs_flat and dijkstra_weights hold the first pp source pairs. */
  ghost predicate PairsListed(dist: seq<seq<int>>, sources: seq<int>, pairsFlat: seq<int>, dijkstraWeights: seq<int>, pp: int)
  {
    var pairs := SourcePairs(|sources|);
    && IsSquare(dist) && LabelsIn(sources, |dist|)
    && 0 <= pp <= |pairs| && |pairsFlat| == 2 * |pairs| && |dijkstraWeights| == |pairs|
    && forall p :: 0 <= p < pp ==>
         0 <= pairs[p].0 < pairs[p].1 < |sources|
         && pairsFlat[2 * p] == sources[pairs[p].0]
         && pairsFlat[2 * p + 1] == sources[pairs[p].1]
         && dijkstraWeights[p] == dist[sources[pairs[p].0]][sources[pairs[p].1]]
  }

  /** Writing source pair pp into its slots extends the listed prefix by one. */
  lemma PairsListedExtend(dist: seq<seq<int>>, sources: seq<int>, pairsFlat: seq<int>, dijkstraWeights: seq<int>,
                          pp: int, i: int, j: int)
    requires PairsListed(dist, sources, pairsFlat, dijkstraWeights, pp)
    requires pp < |SourcePairs(|sources|)| && SourcePairs(|sources|)[pp] == (i, j) && 0 <= i < j < |sources|
    ensures PairsListed(dist, sources,
                        pairsFlat[2 * pp := sources[i]][2 * pp + 1 := sources[j]],
                        dijkstraWeights[pp := dist[sources[i]][sources[j]]], pp + 1)
  {
  }

  /** Lines 252-262: the pairs of source ii with each later source, and their distances. */
  method ListPairsOfSource(dist: seq<seq<int>>, sources: seq<int>, ii: int,
                           pairsFlat: array<int>, dijkstraWeights: array<int>, ppStart: int)
    returns (pp: int)
    requires 0 <= ii < |sources| && pairsFlat != dijkstraWeights
    requires ppStart == |PairsBefore(|sources|, ii)|
    requires PairsListed(dist, sources, pairsFlat[..], dijkstraWeights[..], ppStart)
    modifies pairsFlat, dijkstraWeights
    ensures pp == |PairsBefore(|sources|, ii + 1)|
    ensures PairsListed(dist, sources, pairsFlat[..], dijkstraWeights[..], pp)
  {
    var sourceNum := |sources|;
    ghost var pairs := SourcePairs(sourceNum);
    PairsBeforeRange(sourceNum, sourceNum);
    var d := dist[sources[ii]];
    pp := ppStart;
    var jj := 1;
    while jj < sourceNum - ii
      invariant 1 <= jj <= sourceNum - ii
      invariant pp == ppStart + jj - 1
      invariant PairsListed(dist, sources, pairsFlat[..], dijkstraWeights[..], pp)
    {
      PairAt(sourceNum, ii, jj);
      PairsListedExtend(dist, sources, pairsFlat[..], dijkstraWeights[..], pp, ii, ii + jj);
      pairsFlat[2 * pp] := sources[ii];
      pairsFlat[2 * pp + 1] := sources[ii + jj];
      dijkstraWeights[pp] := d[sources[ii + jj]];
      pp := pp + 1;
      jj := jj + 1;
    }
    assert PairsBefore(sourceNum, ii + 1) == PairsBefore(sourceNum, ii) + RowPairs(sourceNum, ii);
  }

  /** The first n records of sb_pairs_flat and sb_pairs_weight pair each source with the given boundary and weight. */
  ghost predicate SbListed(sources: seq<int>, sbPairsFlat: array<int>, sbPairsWeight: array<int>,
                           nearB: seq<int>, nearW: seq<int>, n: int)
    reads sbPairsFlat, sbPairsWeight
  {
    && 0 <= n <= |sources| && n <= |nearB| && n <= |nearW|
    && sbPairsFlat.Length == 2 * |sources| && sbPairsWeight.Length == |sources|
    && forall q :: 0 <= q < n ==>
         sbPairsFlat[2 * q] == sources[q] && sbPairsFlat[2 * q + 1] == nearB[q] && sbPairsWeight[q] == nearW[q]
  }

  /** Entries 0 .. n-1 of nearB and nearW are the nearest boundaries of the first n sources. */
  ghost predicate AllNearest(dist: seq<seq<int>>, sources: seq<int>, boundaries: seq<int>,
                             nearB: seq<int>, nearW: seq<int>, n: int)
  {
    && IsSquare(dist) && LabelsIn(sources, |dist|) && LabelsIn(boundaries, |dist|)
    && 0 <= n <= |sources| && n <= |nearB| && n <= |nearW|
    && forall q :: 0 <= q < n ==> IsNearest(dist[sources[q]], boundaries, nearB[q], nearW[q])
  }

  lemma AllNearestExtend(dist: seq<seq<int>>, sources: seq<int>, boundaries: seq<int>,
                         nearB: seq<int>, nearW: seq<int>, n: int, b: int, w: int)
    requires AllNearest(dist, sources, boundaries, nearB, nearW, n) && n < |sources|
    requires |nearB| == n && |nearW| == n
    requires IsNearest(dist[sources[n]], boundaries, b, w)
    ensures AllNearest(dist, sources, boundaries, nearB + [b], nearW + [w], n + 1)
  {
    var nb, nw := nearB + [b], nearW + [w];
    forall q | 0 <= q < n + 1
      ensures IsNearest(dist[sources[q]], boundaries, nb[q], nw[q])
    {
      if q < n {
        assert nb[q] == nearB[q] && nw[q] == nearW[q];
      }
    }
  }

  /** Lines 275-277: record ii of sb_pairs_flat and sb_pairs_weight. */
  method StoreNearest(sources: seq<int>, sbPairsFlat: array<int>, sbPairsWeight: array<int>, ii: int, b: int, w: int,
                      ghost nearB: seq<int>, ghost nearW: seq<int>)
    requires sbPairsFlat != sbPairsWeight && |nearB| == ii && |nearW| == ii
    requires SbListed(sources, sbPairsFlat, sbPairsWeight, nearB, nearW, ii) && ii < |sources|
    modifies sbPairsFlat, sbPairsWeight
    ensures SbListed(sources, sbPairsFlat, sbPairsWeight, nearB + [b], nearW + [w], ii + 1)
  {
    sbPairsFlat[2 * ii] := sources[ii];
    sbPairsFlat[2 * ii + 1] := b;
    sbPairsWeight[ii] := w;
  }

  /** What the outer loop of the reduction keeps after ii sources: pp pairs listed, ii nearest boundaries stored. */
  ghost predicate ReductionState(dist: seq<seq<int>>, sources: seq<int>, boundaries: seq<int>,
                                 pairsFlat: array<int>, dijkstraWeights: array<int>,
                                 sbPairsFlat: array<int>, sbPairsWeight: array<int>,
                                 nearB: seq<int>, nearW: seq<int>, ii: int, pp: int)
    reads pairsFlat, dijkstraWeights, sbPairsFlat, sbPairsWeight
  {
    && pairsFlat != dijkstraWeights && sbPairsFlat != sbPairsWeight
    && sbPairsFlat != pairsFlat && sbPairsFlat != dijkstraWeights
    && sbPairsWeight != pairsFlat && sbPairsWeight != dijkstraWeights
    && 0 <= ii <= |sources| && pp == |PairsBefore(|sources|, ii)|
    && PairsListed(dist, sources, pairsFlat[..], dijkstraWeights[..], pp)
    && |nearB| == ii && |nearW| == ii
    && AllNearest(dist, sources, boundaries, nearB, nearW, ii)
    && SbListed(sources, sbPairsFlat, sbPairsWeight, nearB, nearW, ii)
  }

  /** One iteration of the outer loop (lines 247-277): the pairs of source ii, then its nearest boundary. */
  method ReduceSource(dist: seq<seq<int>>, sources: seq<int>, boundaries: seq<int>,
                      pairsFlat: array<int>, dijkstraWeights: array<int>,
                      sbPairsFlat: array<int>, sbPairsWeight: array<int>,
                      ghost nearB: seq<int>, ghost nearW: seq<int>, ii: int, ppStart: int)
    returns (pp: int, ghost b: int, ghost w: int)
    requires ii < |sources| && |boundaries| >= 1
    requires ReductionState(dist, sources, boundaries, pairsFlat, dijkstraWeights, sbPairsFlat, sbPairsWeight,
                            nearB, nearW, ii, ppStart)
    modifies pairsFlat, dijkstraWeights, sbPairsFlat, sbPairsWeight
    ensures ReductionState(dist, sources, boundaries, pairsFlat, dijkstraWeights, sbPairsFlat, sbPairsWeight,
                           nearB + [b], nearW + [w], ii + 1, pp)
  {
    pp := ListPairsOfSource(dist, sources, ii, pairsFlat, dijkstraWeights, ppStart);
    ghost var listed := (pairsFlat[..], dijkstraWeights[..]);
    var closestB, closestBWeight := NearestBoundary(dist[sources[ii]], boundaries);
    StoreNearest(sources, sbPairsFlat, sbPairsWeight, ii, closestB, closestBWeight, nearB, nearW);
    assert (pairsFlat[..], dijkstraWeights[..]) == listed;
    AllNearestExtend(dist, sources, boundaries, nearB, nearW, ii, closestB, closestBWeight);
    b, w := closestB, closestBWeight;
  }

  /** After the last source, the arrays are the reduction's output. */
  lemma ReductionComplete(dist: seq<seq<int>>, sources: seq<int>, boundaries: seq<int>,
                          pairsFlat: array<int>, dijkstraWeights: array<int>,
                          sbPairsFlat: array<int>, sbPairsWeight: array<int>,
                          nearB: seq<int>, nearW: seq<int>, pp: int)
    requires IsSquare(dist) && LabelsIn(sources, |dist|) && LabelsIn(boundaries, |dist|)
    requires ReductionState(dist, sources, boundaries, pairsFlat, dijkstraWeights, sbPairsFlat, sbPairsWeight,
                            nearB, nearW, |sources|, pp)
    ensures ReducedCorrectly(dist, sources, boundaries,
                             Reduced(pp, pairsFlat[..], dijkstraWeights[..], sbPairsFlat[..], sbPairsWeight[..]))
  {
  }

  /**
   * Lines 223-279: for every source, the pairs with the later sources and
   * their distances, then the nearest boundary. The source reads
   * boundaries[0] even when there are none; here that case is an error.
   */
  method Reduce(dist: seq<seq<int>>, sources: seq<int>, boundaries: seq<int>)
    returns (out: Result<Reduced, ReduceError>)
    requires IsSquare(dist) && LabelsIn(sources, |dist|) && LabelsIn(boundaries, |dist|)
    ensures out.Failure? <==> |sources| > 0 && |boundaries| == 0
    ensures out.Success? ==> ReducedCorrectly(dist, sources, boundaries, out.value)
  {
    var sourceNum := |sources|;
    if sourceNum > 0 && |boundaries| == 0 {
      return Failure(EmptyBoundarySet);
    }
    var pairNum := CountPairs(sourceNum);
    var pairsFlat := new int[2 * pairNum];
    var dijkstraWeights := new int[pairNum];
    var sbPairsFlat := new int[2 * sourceNum];
    var sbPairsWeight := new int[sourceNum];
    ghost var nearB: seq<int> := [];
    ghost var nearW: seq<int> := [];
    var pp := 0;
    var ii := 0;
    while ii < sourceNum
      invariant 0 <= ii <= sourceNum
      invariant ReductionState(dist, sources, boundaries, pairsFlat, dijkstraWeights, sbPairsFlat, sbPairsWeight,
                               nearB, nearW, ii, pp)
    {
      ghost var b, w;
      pp, b, w := ReduceSource(dist, sources, boundaries, pairsFlat, dijkstraWeights, sbPairsFlat, sbPairsWeight,
                               nearB, nearW, ii, pp);
      nearB, nearW := nearB + [b], nearW + [w];
      ii := ii + 1;
    }
    ReductionComplete(dist, sources, boundaries, pairsFlat, dijkstraWeights, sbPairsFlat, sbPairsWeight, nearB, nearW, pp);
    assert pp == pairNum;
    out := Success(Reduced(pairNum, pairsFlat[..], dijkstraWeights[..], sbPairsFlat[..], sbPairsWeight[..]));
  }
}
