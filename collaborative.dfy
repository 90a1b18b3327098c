/**
 * The collaborative engine (`CollaborativeRecommender`): the titles are the
 * columns of the user-by-title rating pivot table, in ascending id order.
 * `Fit` keeps the item-item correlation matrix (an input here) and the two
 * maps between title ids and matrix positions.
 */
module Collaborative {
  import opened Catalog
  import opened Ranking

  /** The ids of the titles that have at least one rating. */
  function RatedIds(ratings: seq<Interaction>): (s: set<int>)
  {
    set r | r in ratings :: r.animeId
  }

  /** The pivot table's columns: every rated title id, ascending. */
  function ItemIds(ratings: seq<Interaction>): (ids: seq<int>)
    ensures forall id :: id in ids <==> id in RatedIds(ratings)
    ensures forall i, j :: 0 <= i < j < |ids| ==> ids[i] < ids[j]
  {
    SortedIds(RatedIds(ratings))
  }

  ghost predicate Distinct(ids: seq<int>)
  {
    forall i, j :: 0 <= i < j < |ids| ==> ids[i] != ids[j]
  }

  /** `anime_id_to_idx = {id_: i for i, id_ in enumerate(index)}`. */
  function IdToIndex(ids: seq<int>): map<int, nat>
  {
    if ids == [] then map[] else IdToIndex(ids[..|ids| - 1])[ids[|ids| - 1] := |ids| - 1]
  }

  /** `idx_to_anime_id = {i: id_ for i, id_ in enumerate(index)}`. */
  function IndexToId(ids: seq<int>): map<nat, int>
  {
    if ids == [] then map[] else IndexToId(ids[..|ids| - 1])[|ids| - 1 := ids[|ids| - 1]]
  }

  /**
   * Every id of the index is a key of `anime_id_to_idx`, and each key is
   * mapped to a position that holds it.
   */
  lemma {:induction false} IdToIndexSpec(ids: seq<int>)
    ensures forall id :: id in IdToIndex(ids) <==> id in ids
    ensures forall id :: id in IdToIndex(ids) ==> IdToIndex(ids)[id] < |ids| && ids[IdToIndex(ids)[id]] == id
  {
    if ids != [] {
      var init := ids[..|ids| - 1];
      IdToIndexSpec(init);
      assert ids == init + [ids[|ids| - 1]];
    }
  }

  /** The keys of `idx_to_anime_id` are the positions, each mapped to its id. */
  lemma {:induction false} IndexToIdSpec(ids: seq<int>)
    ensures forall i: nat :: i in IndexToId(ids) <==> i < |ids|
    ensures forall i :: 0 <= i < |ids| ==> IndexToId(ids)[i] == ids[i]
  {
    if ids != [] {
      var init := ids[..|ids| - 1];
      IndexToIdSpec(init);
      assert forall i :: 0 <= i < |init| ==> init[i] == ids[i];
    }
  }

  /** `anime_id_to_idx[anime_id]`: the matrix position of a rated title. */
  function PositionOf(ids: seq<int>, animeId: int): (q: nat)
    requires animeId in ids
    ensures q < |ids| && ids[q] == animeId
  {
    IdToIndexSpec(ids);
    IdToIndex(ids)[animeId]
  }

  /** The two maps undo each other over the item index. */
  lemma IndexMapsAreInverse(ids: seq<int>)
    requires Distinct(ids)
    ensures forall id :: id in IdToIndex(ids) ==>
      IdToIndex(ids)[id] in IndexToId(ids) && IndexToId(ids)[IdToIndex(ids)[id]] == id
    ensures forall i :: i in IndexToId(ids) ==>
      IndexToId(ids)[i] in IdToIndex(ids) && IdToIndex(ids)[IndexToId(ids)[i]] == i
  {
    IdToIndexSpec(ids);
    IndexToIdSpec(ids);
    var toIdx := IdToIndex(ids);
    forall i | i in IndexToId(ids)
      ensures toIdx[ids[i]] == i
    {
      assert ids[toIdx[ids[i]]] == ids[i];
    }
  }

  /** `np.argsort(corr_vector)[::-1]`: the positions by descending correlation. */
  function CorrelationOrder(row: seq<real>): (order: seq<nat>)
    ensures IsDescendingOrder(row, order)
  {
    ReversedAscendingIsDescending(row, Argsort(row));
    Reverse(Argsort(row))
  }

  /** The kept positions `sorted_indices[1:top_n+1]`. */
  function TopCorrelated(row: seq<real>, n: nat): (top: seq<nat>)
    ensures |top| == if |row| == 0 then 0 else Min(n, |row| - 1)
    ensures forall k :: 0 <= k < |top| ==> top[k] < |row|
    ensures forall i, j :: 0 <= i < j < |top| ==> top[i] != top[j]
  {
    var order := CorrelationOrder(row);
    TopAfterFirst(row, order, n);
    var top := Slice(order, 1, n + 1);
    assert forall k :: 0 <= k < |top| ==> top[k] in top;
    top
  }

  /** `zip(rec_ids, scores)`: each kept position as (title id, correlation). */
  function CorrelatedPairs(ids: seq<int>, row: seq<real>, n: nat): (ps: seq<(int, real)>)
    requires Distinct(ids) && |row| == |ids|
    ensures |ps| == |TopCorrelated(row, n)|
    ensures forall k :: 0 <= k < |ps| ==> ps[k] == (ids[TopCorrelated(row, n)[k]], row[TopCorrelated(row, n)[k]])
    ensures forall i, j :: 0 <= i < j < |ps| ==> ps[i].0 != ps[j].0
  {
    var top := TopCorrelated(row, n);
    var toId := IndexToId(ids);
    IndexToIdSpec(ids);
    seq(|top|, k requires 0 <= k < |top| => (toId[top[k]], row[top[k]]))
  }

  /**
   * `get_recommendations`: nothing for a title that was never rated,
   * otherwise exactly `min(n, titles - 1)` titles.
   */
  function Correlated(ids: seq<int>, corr: seq<seq<real>>, animeId: int, n: nat): (r: map<int, real>)
    requires Distinct(ids) && IsSquare(corr, |ids|)
    ensures animeId !in ids ==> r == map[]
    ensures animeId in ids ==> |r| == Min(n, |ids| - 1)
    ensures forall k :: k in r ==> k in ids
  {
    var toIdx := IdToIndex(ids);
    IdToIndexSpec(ids);
    if animeId !in toIdx then
      map[]
    else
      var ps := CorrelatedPairs(ids, corr[toIdx[animeId]], n);
      ToMapDistinct(ps);
      ToMap(ps)
  }

  lemma CorrelatedIsToMap(ids: seq<int>, corr: seq<seq<real>>, animeId: int, n: nat)
    requires Distinct(ids) && IsSquare(corr, |ids|) && animeId in ids
    ensures Correlated(ids, corr, animeId, n) == ToMap(CorrelatedPairs(ids, corr[PositionOf(ids, animeId)], n))
  {
  }

  /** The kept positions' titles are exactly the keys, each with its correlation. */
  lemma PairsKeepTop(ids: seq<int>, row: seq<real>, n: nat)
    requires Distinct(ids) && |row| == |ids|
    ensures var top := TopCorrelated(row, n);
      var m := ToMap(CorrelatedPairs(ids, row, n));
      (forall k :: 0 <= k < |top| ==> ids[top[k]] in m && m[ids[top[k]]] == row[top[k]])
      && (forall id :: id in m ==> exists p :: p in top && ids[p] == id && m[id] == row[p])
  {
    var top := TopCorrelated(row, n);
    var ps := CorrelatedPairs(ids, row, n);
    ToMapDistinct(ps);
    forall id | id in ToMap(ps)
      ensures exists p :: p in top && ids[p] == id && ToMap(ps)[id] == row[p]
    {
      var q := KeptPosition(ids, row, top, ps, id);
    }
  }

  /** No kept title scores above the dropped first position. */
  lemma PairsBelowFirst(ids: seq<int>, row: seq<real>, n: nat)
    requires Distinct(ids) && |row| == |ids|
    ensures var m := ToMap(CorrelatedPairs(ids, row, n));
      |ids| > 0 ==> forall id :: id in m ==> m[id] <= row[CorrelationOrder(row)[0]]
  {
    var order := CorrelationOrder(row);
    var top := TopCorrelated(row, n);
    var ps := CorrelatedPairs(ids, row, n);
    var m := ToMap(ps);
    TopAfterFirst(row, order, n);
    forall id | id in m
      ensures m[id] <= row[order[0]]
    {
      var q := KeptPosition(ids, row, top, ps, id);
    }
  }

  /** No kept title scores below a title that was left out, other than the dropped one. */
  lemma PairsAboveLeftOut(ids: seq<int>, row: seq<real>, n: nat)
    requires Distinct(ids) && |row| == |ids|
    ensures var m := ToMap(CorrelatedPairs(ids, row, n));
      |ids| > 0 ==>
        forall id, p :: id in m && 0 <= p < |ids| && ids[p] !in m && p != CorrelationOrder(row)[0] ==> row[p] <= m[id]
  {
    var order := CorrelationOrder(row);
    var top := TopCorrelated(row, n);
    var ps := CorrelatedPairs(ids, row, n);
    var m := ToMap(ps);
    TopAfterFirst(row, order, n);
    forall id, p | id in m && 0 <= p < |ids| && ids[p] !in m && p != order[0]
      ensures row[p] <= m[id]
    {
      var q := KeptPosition(ids, row, top, ps, id);
      LeftOutPosition(ids, row, top, ps, p);
    }
  }

  /**
   * Pairs built one per kept position: every key of their map comes from a
   * kept position, with that position's correlation.
   */
  lemma KeptPosition(ids: seq<int>, row: seq<real>, top: seq<nat>, ps: seq<(int, real)>, id: int) returns (q: nat)
    requires |ps| == |top|
    requires forall k :: 0 <= k < |ps| ==> top[k] < |ids| && top[k] < |row| && ps[k] == (ids[top[k]], row[top[k]])
    requires id in ToMap(ps)
    ensures q in top && q < |ids| && ids[q] == id && ToMap(ps)[id] == row[q]
  {
    var k := KeyPosition(ps, id);
    q := top[k];
    assert q in top;
  }

  /** A position whose title is not a key of those pairs was not kept. */
  lemma LeftOutPosition(ids: seq<int>, row: seq<real>, top: seq<nat>, ps: seq<(int, real)>, p: nat)
    requires |ps| == |top|
    requires forall k :: 0 <= k < |ps| ==> top[k] < |ids| && top[k] < |row| && ps[k] == (ids[top[k]], row[top[k]])
    requires p < |ids| && ids[p] !in ToMap(ps)
    ensures p !in top
  {
    forall j | 0 <= j < |top|
      ensures top[j] != p
    {
      assert (ps[j].0, ps[j].1) in ps;
    }
  }

  /**
   * What the collaborative engine returns for a rated title: exactly the
   * titles at positions 1 to `n` of a descending order of its correlation
   * row, each with its correlation; none above the dropped first position,
   * none below a title that was left out.
   */
  lemma CorrelatedEntries(ids: seq<int>, corr: seq<seq<real>>, animeId: int, n: nat)
    requires Distinct(ids) && IsSquare(corr, |ids|) && animeId in ids
    ensures var row := corr[PositionOf(ids, animeId)];
      var top := TopCorrelated(row, n);
      var r := Correlated(ids, corr, animeId, n);
      (forall k :: 0 <= k < |top| ==> ids[top[k]] in r && r[ids[top[k]]] == row[top[k]])
      && (forall id :: id in r ==> exists p :: p in top && ids[p] == id && r[id] == row[p])
      && (forall id :: id in r ==> r[id] <= row[CorrelationOrder(row)[0]])
      && (forall id, p :: id in r && 0 <= p < |ids| && ids[p] !in r && p != CorrelationOrder(row)[0] ==> row[p] <= r[id])
  {
    var row := corr[PositionOf(ids, animeId)];
    CorrelatedIsToMap(ids, corr, animeId, n);
    PairsKeepTop(ids, row, n);
    PairsBelowFirst(ids, row, n);
    PairsAboveLeftOut(ids, row, n);
  }

  /**
   * The query title is not excluded by id: whatever sorts first is dropped.
   * When the title correlates strictly best with itself (the diagonal of a
   * correlation matrix is 1), that is the title itself.
   */
  lemma QueryDroppedWhenStrictlyFirst(ids: seq<int>, corr: seq<seq<real>>, animeId: int, n: nat)
    requires Distinct(ids) && IsSquare(corr, |ids|) && animeId in ids
    requires var q := PositionOf(ids, animeId);
      forall p :: 0 <= p < |ids| && p != q ==> corr[q][p] < corr[q][q]
    ensures animeId !in Correlated(ids, corr, animeId, n)
  {
    var q := PositionOf(ids, animeId);
    var row := corr[q];
    assert |row| == |ids|;
    StrictBestDropped(row, CorrelationOrder(row), q, n);
    CorrelatedIsToMap(ids, corr, animeId, n);
    PairsKeepTop(ids, row, n);
    forall p | p in TopCorrelated(row, n)
      ensures ids[p] != animeId
    {
      assert p != q;
    }
  }

  /**
   * `CollaborativeRecommender`: `corr` stands for `np.corrcoef` of the
   * reduced item vectors; `itemIds` for the pivot table's column index.
   */
  class CollaborativeRecommender {
    var ratings: seq<Interaction>
    var corr: seq<seq<real>>
    var itemIds: seq<int>
    var animeIdToIdx: map<int, nat>
    var idxToAnimeId: map<nat, int>
    var fitted: bool

    ghost predicate Valid()
      reads this
    {
      fitted ==>
        itemIds == ItemIds(ratings) && IsSquare(corr, |itemIds|)
        && animeIdToIdx == IdToIndex(itemIds) && idxToAnimeId == IndexToId(itemIds)
    }

    constructor (ratings: seq<Interaction>)
      ensures Valid() && !fitted && this.ratings == ratings
    {
      this.ratings := ratings;
      corr := [];
      itemIds := [];
      animeIdToIdx := map[];
      idxToAnimeId := map[];
      fitted := false;
    }

    /** Keeps the correlation matrix and builds the two id/position maps. */
    method Fit(corr: seq<seq<real>>)
      requires IsSquare(corr, |ItemIds(ratings)|)
      modifies this
      ensures Valid() && fitted && ratings == old(ratings) && this.corr == corr
      ensures itemIds == ItemIds(ratings)
      ensures animeIdToIdx == IdToIndex(itemIds) && idxToAnimeId == IndexToId(itemIds)
    {
      var ids := ItemIds(ratings);
      itemIds := ids;
      this.corr := corr;
      animeIdToIdx := IdToIndex(ids);
      idxToAnimeId := IndexToId(ids);
      fitted := true;
    }

    /**
     * After `Fit`, the keys of `anime_id_to_idx` are exactly the rated
     * titles, and the two maps undo each other.
     */
    lemma FittedMaps()
      requires Valid() && fitted
      ensures forall id :: id in animeIdToIdx <==> id in RatedIds(ratings)
      ensures forall id :: id in animeIdToIdx ==>
        animeIdToIdx[id] in idxToAnimeId && idxToAnimeId[animeIdToIdx[id]] == id
      ensures forall i :: i in idxToAnimeId ==>
        idxToAnimeId[i] in animeIdToIdx && animeIdToIdx[idxToAnimeId[i]] == i
    {
      IdToIndexSpec(itemIds);
      IndexMapsAreInverse(itemIds);
    }

    function GetRecommendations(animeId: int, topN: nat): (r: map<int, real>)
      reads this
      requires Valid() && fitted
      ensures animeId !in animeIdToIdx ==> r == map[]
      ensures animeId in animeIdToIdx ==> |r| == Min(topN, |itemIds| - 1)
      ensures forall k :: k in r ==> k in animeIdToIdx
    {
      IdToIndexSpec(itemIds);
      Correlated(itemIds, corr, animeId, topN)
    }
  }
}
