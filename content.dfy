/**
 * The content-based engine (`ContentRecommender`): it fills in missing
 * catalog fields when fitted, and answers "most similar titles by content"
 * from one row of the cosine-similarity matrix of the titles' TF-IDF
 * vectors. That matrix is an input of `Fit` here.
 */
module Content {
  import opened Wrappers
  import opened Catalog
  import opened Ranking

  /** `fillna('')` on the text columns and `fillna(0)` on the rating. */
  function FillDefaults(a: Anime): (r: Anime)
  {
    a.(genre := Some(a.genre.GetOr("")),
       kind := Some(a.kind.GetOr("")),
       synopsis := Some(a.synopsis.GetOr("")),
       rating := if a.rating.Missing? then Numeric(0.0) else a.rating)
  }

  function FillMissing(rows: seq<Anime>): (r: seq<Anime>)
    ensures |r| == |rows|
    ensures forall i :: 0 <= i < |rows| ==> r[i] == FillDefaults(rows[i])
  {
    seq(|rows|, i requires 0 <= i < |rows| => FillDefaults(rows[i]))
  }

  /** No row has a missing text field or a missing rating. */
  ghost predicate IsFilled(rows: seq<Anime>)
  {
    forall i :: 0 <= i < |rows| ==>
      rows[i].genre.Some? && rows[i].kind.Some? && rows[i].synopsis.Some? && !rows[i].rating.Missing?
  }

  /**
   * Filling only replaces missing values: ids, names, order, present text
   * and present ratings are kept, and no value is missing afterwards.
   */
  lemma FillMissingKeepsRows(rows: seq<Anime>)
    ensures IsFilled(FillMissing(rows))
    ensures forall i :: 0 <= i < |rows| ==>
      FillMissing(rows)[i].animeId == rows[i].animeId && FillMissing(rows)[i].name == rows[i].name
    ensures forall i :: 0 <= i < |rows| && !rows[i].rating.Missing? ==> FillMissing(rows)[i].rating == rows[i].rating
    ensures forall i :: 0 <= i < |rows| && rows[i].rating.Missing? ==> FillMissing(rows)[i].rating == Numeric(0.0)
    ensures forall i :: 0 <= i < |rows| && rows[i].genre.Some? ==> FillMissing(rows)[i].genre == rows[i].genre
    ensures forall i :: 0 <= i < |rows| && rows[i].kind.Some? ==> FillMissing(rows)[i].kind == rows[i].kind
    ensures forall i :: 0 <= i < |rows| && rows[i].synopsis.Some? ==> FillMissing(rows)[i].synopsis == rows[i].synopsis
    ensures forall i :: 0 <= i < |rows| && rows[i].genre.None? ==> FillMissing(rows)[i].genre == Some("")
    ensures forall i :: 0 <= i < |rows| && rows[i].kind.None? ==> FillMissing(rows)[i].kind == Some("")
    ensures forall i :: 0 <= i < |rows| && rows[i].synopsis.None? ==> FillMissing(rows)[i].synopsis == Some("")
  {
  }

  /**
   * The row positions kept as recommendations: positions 1 to `n` of the
   * stable descending order of the similarity row (`sim_scores[1:top_n+1]`).
   */
  function TopPositions(simRow: seq<real>, n: nat): (top: seq<nat>)
  {
    Slice(DescendingOrder(simRow), 1, n + 1)
  }

  /**
   * The kept positions as (id, score) pairs, best first: pair `k` is the id
   * of the `k`-th kept row with that row's similarity score.
   */
  function Ranked(rows: seq<Anime>, simRow: seq<real>, n: nat): (ps: seq<(int, real)>)
    requires |simRow| == |rows|
    ensures var top := TopPositions(simRow, n);
      |ps| == |top|
      && forall k :: 0 <= k < |top| ==> top[k] < |rows| && ps[k] == (rows[top[k]].animeId, simRow[top[k]])
  {
    var top := TopPositions(simRow, n);
    DescendingOrderBounds(simRow, top, n);
    seq(|top|, k requires 0 <= k < |top| => (rows[top[k]].animeId, simRow[top[k]]))
  }

  lemma DescendingOrderBounds(simRow: seq<real>, top: seq<nat>, n: nat)
    requires top == TopPositions(simRow, n)
    ensures forall k :: 0 <= k < |top| ==> top[k] < |simRow|
    ensures forall i, j :: 0 <= i < j < |top| ==> top[i] != top[j]
  {
    var order := DescendingOrder(simRow);
    TopAfterFirst(simRow, order, n);
    assert forall k :: 0 <= k < |top| ==> top[k] in top;
    forall i, j | 0 <= i < j < |top|
      ensures top[i] != top[j]
    {
      assert top[i] == order[1 + i] && top[j] == order[1 + j];
    }
  }

  /**
   * `get_recommendations` with the query row found by position: nothing for
   * an unknown id, otherwise at most `n` titles.
   */
  function Similar(rows: seq<Anime>, sim: seq<seq<real>>, animeId: int, n: nat): (r: map<int, real>)
    requires IsSquare(sim, |rows|)
    ensures !HasRow(rows, animeId) ==> r == map[]
    ensures |r| <= n
  {
    match FirstRow(rows, animeId)
    case None => map[]
    case Some(q) =>
      TopAfterFirst(sim[q], DescendingOrder(sim[q]), n);
      ToMap(Ranked(rows, sim[q], n))
  }

  /**
   * The titles the content engine returns are exactly the ids of the rows at
   * positions 1 to `n` of the stable descending order: each returned title
   * is such a row's id with that row's similarity score, and each such
   * row's id is returned.
   */
  lemma SimilarEntries(rows: seq<Anime>, sim: seq<seq<real>>, animeId: int, n: nat)
    requires IsSquare(sim, |rows|)
    ensures HasRow(rows, animeId) ==>
      var q := FirstRow(rows, animeId).value;
      forall k :: k in Similar(rows, sim, animeId, n) ==>
        exists p :: p in TopPositions(sim[q], n) && p < |rows| && rows[p].animeId == k
          && Similar(rows, sim, animeId, n)[k] == sim[q][p]
    ensures HasRow(rows, animeId) ==>
      var top := TopPositions(sim[FirstRow(rows, animeId).value], n);
      forall k :: 0 <= k < |top| ==> top[k] < |rows| && rows[top[k]].animeId in Similar(rows, sim, animeId, n)
  {
    if HasRow(rows, animeId) {
      var q := FirstRow(rows, animeId).value;
      var top := TopPositions(sim[q], n);
      var ps := Ranked(rows, sim[q], n);
      assert Similar(rows, sim, animeId, n) == ToMap(ps);
      KeptRowsAreKeys(rows, sim[q], top, ps);
    }
  }

  /**
   * For pairs built from kept positions, the keys of the map are exactly
   * the ids of the kept rows, each with one such row's score.
   */
  lemma KeptRowsAreKeys(rows: seq<Anime>, simRow: seq<real>, top: seq<nat>, ps: seq<(int, real)>)
    requires |simRow| == |rows| && |ps| == |top|
    requires forall k :: 0 <= k < |top| ==> top[k] < |rows| && ps[k] == (rows[top[k]].animeId, simRow[top[k]])
    ensures forall key :: key in ToMap(ps) ==>
      exists p :: p in top && p < |rows| && rows[p].animeId == key && ToMap(ps)[key] == simRow[p]
    ensures forall k :: 0 <= k < |top| ==> rows[top[k]].animeId in ToMap(ps)
  {
    forall key | key in ToMap(ps)
      ensures exists p :: p in top && p < |rows| && rows[p].animeId == key && ToMap(ps)[key] == simRow[p]
    {
      var i := KeyPosition(ps, key);
      assert top[i] in top;
    }
    forall k | 0 <= k < |top|
      ensures rows[top[k]].animeId in ToMap(ps)
    {
      assert ps[k] in ps;
    }
  }

  /**
   * With unique ids (as the cleaned catalog has), every kept row's id maps
   * to that row's similarity score, and `min(n, len - 1)` titles come back.
   */
  lemma SimilarUniqueIds(rows: seq<Anime>, sim: seq<seq<real>>, animeId: int, n: nat)
    requires IsSquare(sim, |rows|) && UniqueIds(rows) && HasRow(rows, animeId)
    ensures |Similar(rows, sim, animeId, n)| == Min(n, |rows| - 1)
    ensures var q := FirstRow(rows, animeId).value;
      var top := TopPositions(sim[q], n);
      forall k :: 0 <= k < |top| ==>
        top[k] < |rows| && rows[top[k]].animeId in Similar(rows, sim, animeId, n)
        && Similar(rows, sim, animeId, n)[rows[top[k]].animeId] == sim[q][top[k]]
  {
    var q := FirstRow(rows, animeId).value;
    var ps := Ranked(rows, sim[q], n);
    var top := TopPositions(sim[q], n);
    DescendingOrderBounds(sim[q], top, n);
    TopAfterFirst(sim[q], DescendingOrder(sim[q]), n);
    assert Similar(rows, sim, animeId, n) == ToMap(ps);
    DistinctRowsKeepScores(rows, sim[q], top, ps);
  }

  /** Pairs from distinct kept rows of a catalog with unique ids keep every score. */
  lemma DistinctRowsKeepScores(rows: seq<Anime>, simRow: seq<real>, top: seq<nat>, ps: seq<(int, real)>)
    requires UniqueIds(rows) && |simRow| == |rows| && |ps| == |top|
    requires forall i, j :: 0 <= i < j < |top| ==> top[i] != top[j]
    requires forall k :: 0 <= k < |top| ==> top[k] < |rows| && ps[k] == (rows[top[k]].animeId, simRow[top[k]])
    ensures |ToMap(ps)| == |top|
    ensures forall k :: 0 <= k < |top| ==>
      rows[top[k]].animeId in ToMap(ps) && ToMap(ps)[rows[top[k]].animeId] == simRow[top[k]]
  {
    forall i, j | 0 <= i < j < |ps|
      ensures ps[i].0 != ps[j].0
    {
      if top[i] < top[j] {
        assert rows[top[i]].animeId != rows[top[j]].animeId;
      } else {
        assert rows[top[j]].animeId != rows[top[i]].animeId;
      }
    }
    ToMapDistinct(ps);
  }

  /** The number of titles returned, for any catalog. */
  lemma SimilarSize(rows: seq<Anime>, sim: seq<seq<real>>, animeId: int, n: nat)
    requires IsSquare(sim, |rows|)
    ensures UniqueIds(rows) && HasRow(rows, animeId) ==> |Similar(rows, sim, animeId, n)| == Min(n, |rows| - 1)
    ensures |Similar(rows, sim, animeId, n)| <= n
  {
    if UniqueIds(rows) && HasRow(rows, animeId) {
      SimilarUniqueIds(rows, sim, animeId, n);
    }
  }

  /** The dropped first position scores highest in the row. */
  lemma DroppedIsHighest(simRow: seq<real>)
    requires |simRow| > 0
    ensures forall p :: 0 <= p < |simRow| ==> simRow[p] <= simRow[DescendingOrder(simRow)[0]]
  {
    var order := DescendingOrder(simRow);
    forall p | 0 <= p < |simRow|
      ensures simRow[p] <= simRow[order[0]]
    {
      assert p in order;
      var j :| 0 <= j < |order| && order[j] == p;
    }
  }

  /** No returned score is above that of the dropped first position. */
  lemma SimilarBelowFirst(rows: seq<Anime>, sim: seq<seq<real>>, animeId: int, n: nat)
    requires IsSquare(sim, |rows|)
    ensures HasRow(rows, animeId) ==>
      var q := FirstRow(rows, animeId).value;
      forall k :: k in Similar(rows, sim, animeId, n) ==>
        Similar(rows, sim, animeId, n)[k] <= sim[q][DescendingOrder(sim[q])[0]]
  {
    if HasRow(rows, animeId) {
      var q := FirstRow(rows, animeId).value;
      SimilarEntries(rows, sim, animeId, n);
      DroppedIsHighest(sim[q]);
    }
  }

  /**
   * The kept positions are the best ones after the first: there are
   * `min(n, len - 1)` of them, every position left out (other than the
   * dropped first) scores no higher than every kept one, and among equal
   * scores the earlier catalog row is kept.
   */
  lemma TopPositionsAreBest(simRow: seq<real>, n: nat)
    requires |simRow| > 0
    ensures |TopPositions(simRow, n)| == Min(n, |simRow| - 1)
    ensures forall k, p ::
      (k in TopPositions(simRow, n) && 0 <= p < |simRow| && p !in TopPositions(simRow, n)
        && p != DescendingOrder(simRow)[0])
      ==> simRow[p] <= simRow[k] && (simRow[p] == simRow[k] ==> k < p)
  {
    var order := DescendingOrder(simRow);
    var top := TopPositions(simRow, n);
    TopAfterFirst(simRow, order, n);
    forall k, p | k in top && 0 <= p < |simRow| && p !in top && p != order[0] && simRow[p] == simRow[k]
      ensures k < p
    {
      var i, j := KeptBefore(simRow, order, n, k, p);
    }
  }

  /**
   * The engine does not exclude the query title by id: it drops whatever
   * sorts first. When the query row is strictly the most similar to itself,
   * that is the query, and it is not recommended.
   */
  lemma QueryDroppedWhenStrictlyFirst(rows: seq<Anime>, sim: seq<seq<real>>, animeId: int, n: nat)
    requires IsSquare(sim, |rows|) && HasRow(rows, animeId)
    requires var q := FirstRow(rows, animeId).value;
      forall p :: 0 <= p < |rows| && p != q ==> sim[q][p] < sim[q][q]
    ensures FirstRow(rows, animeId).value !in TopPositions(sim[FirstRow(rows, animeId).value], n)
  {
    var q := FirstRow(rows, animeId).value;
    assert |sim[q]| == |rows|;
    forall p | 0 <= p < |rows| && p != q
      ensures sim[q][p] < sim[q][q]
    {
      assert p != FirstRow(rows, animeId).value;
    }
    StrictBestDropped(sim[q], DescendingOrder(sim[q]), q, n);
  }

  /**
   * A title whose TF-IDF vector is zero (every one of its terms was pruned)
   * is equally similar to everything, so the catalog order decides: rows 1
   * to `n` are kept and row 0 is dropped, whichever row the query is. The
   * query title is therefore recommended when its own row is among rows 1
   * to `n`, and (with unique ids) only then.
   */
  lemma ZeroVectorRecommendsItself(rows: seq<Anime>, sim: seq<seq<real>>, animeId: int, q: nat, n: nat)
    requires IsSquare(sim, |rows|) && FirstRow(rows, animeId) == Some(q)
    requires forall p :: 0 <= p < |rows| ==> sim[q][p] == 0.0
    ensures |TopPositions(sim[q], n)| == Min(n, |rows| - 1)
    ensures forall k :: 0 <= k < |TopPositions(sim[q], n)| ==> TopPositions(sim[q], n)[k] == k + 1
    ensures 1 <= q <= n ==> animeId in Similar(rows, sim, animeId, n)
    ensures UniqueIds(rows) && animeId in Similar(rows, sim, animeId, n) ==> 1 <= q <= n
  {
    ConstantRowTop(sim[q], n);
    if 1 <= q <= n {
      ZeroVectorQueryKept(rows, sim, animeId, q, n);
    }
    if UniqueIds(rows) && animeId in Similar(rows, sim, animeId, n) {
      ZeroVectorQueryInRange(rows, sim, animeId, q, n);
    }
  }

  lemma ZeroVectorQueryKept(rows: seq<Anime>, sim: seq<seq<real>>, animeId: int, q: nat, n: nat)
    requires IsSquare(sim, |rows|) && FirstRow(rows, animeId) == Some(q) && 1 <= q <= n
    requires forall p :: 0 <= p < |rows| ==> sim[q][p] == 0.0
    ensures animeId in Similar(rows, sim, animeId, n)
  {
    var top := TopPositions(sim[q], n);
    ConstantRowTop(sim[q], n);
    SimilarEntries(rows, sim, animeId, n);
    assert top[q - 1] == q;
  }

  lemma ZeroVectorQueryInRange(rows: seq<Anime>, sim: seq<seq<real>>, animeId: int, q: nat, n: nat)
    requires IsSquare(sim, |rows|) && FirstRow(rows, animeId) == Some(q) && UniqueIds(rows)
    requires forall p :: 0 <= p < |rows| ==> sim[q][p] == 0.0
    requires animeId in Similar(rows, sim, animeId, n)
    ensures 1 <= q <= n
  {
    var top := TopPositions(sim[q], n);
    ConstantRowTop(sim[q], n);
    SimilarEntries(rows, sim, animeId, n);
    var p :| p in top && p < |rows| && rows[p].animeId == animeId;
    var k :| 0 <= k < |top| && top[k] == p;
    assert rows[p].animeId == rows[q].animeId;
  }

  /** When every position scores the same, the kept positions are 1 to `min(n, len - 1)`. */
  lemma ConstantRowTop(row: seq<real>, n: nat)
    requires |row| > 0
    requires forall p :: 0 <= p < |row| ==> row[p] == row[0]
    ensures |TopPositions(row, n)| == Min(n, |row| - 1)
    ensures forall k :: 0 <= k < |TopPositions(row, n)| ==> TopPositions(row, n)[k] == k + 1
  {
    var order := DescendingOrder(row);
    ConstantRowOrder(row);
    TopAfterFirst(row, order, n);
  }

  /** The result of the code as written: a map, or an exception. */
  datatype Outcome = Returned(scores: map<int, real>) | RaisesIndexError

  /**
   * `get_recommendations` as written: `anime_df.index[...]` yields the
   * pandas index LABEL of the query row, which then selects a ROW POSITION
   * of the TF-IDF matrix (`tfidf_matrix[idx]`).
   */
  function SimilarAsWritten(rows: seq<Anime>, sim: seq<seq<real>>, animeId: int, n: nat): Outcome
    requires IsSquare(sim, |rows|)
  {
    match FirstRow(rows, animeId)
    case None => Returned(map[])
    case Some(q) =>
      var idx := rows[q].indexLabel;
      if idx < |sim| then Returned(ToMap(Ranked(rows, sim[idx], n))) else RaisesIndexError
  }

  /**
   * In a three-title catalog with distinct similarities, the most similar
   * position is dropped and the other two are kept, the more similar first,
   * for any `top_n >= 2`.
   */
  lemma ThreePositionOrder(row: seq<real>, n: nat, x: nat, y: nat, z: nat)
    requires |row| == 3 && x < 3 && y < 3 && z < 3
    requires row[x] > row[y] > row[z] && n >= 2
    ensures TopPositions(row, n) == [y, z]
  {
    var order := DescendingOrder(row);
    assert x in order && z in order;
    var i :| 0 <= i < 3 && order[i] == x;
    var k :| 0 <= k < 3 && order[k] == z;
    assert row[order[0]] >= row[order[i]];
    assert row[order[k]] >= row[order[2]];
    assert order[0] == x && order[2] == z;
    assert order[1] == y;
    assert TopPositions(row, n) == order[1..3];
  }

  /**
   * Once cleanup has dropped raw row 0 (a duplicate id or a missing name),
   * the labels are 1, 2 and 3 while the positions are 0, 1 and 2. Asking for
   * title 10 then reads title 20's similarities and recommends title 10
   * itself; asking for title 30 reads past the end of the matrix.
   */
  lemma LabelUsedAsPosition()
    ensures var a := Anime(1, 10, "Alpha", None, None, None, Missing, "", None);
      var b := Anime(2, 20, "Beta", None, None, None, Missing, "", None);
      var c := Anime(3, 30, "Gamma", None, None, None, Missing, "", None);
      var sim := [[1.0, 0.2, 0.1], [0.2, 1.0, 0.3], [0.1, 0.3, 1.0]];
      SimilarAsWritten([a, b, c], sim, 10, 20) == Returned(map[30 := 0.3, 10 := 0.2])
      && SimilarAsWritten([a, b, c], sim, 30, 20) == RaisesIndexError
  {
    var a := Anime(1, 10, "Alpha", None, None, None, Missing, "", None);
    var b := Anime(2, 20, "Beta", None, None, None, Missing, "", None);
    var c := Anime(3, 30, "Gamma", None, None, None, Missing, "", None);
    var rows := [a, b, c];
    var sim := [[1.0, 0.2, 0.1], [0.2, 1.0, 0.3], [0.1, 0.3, 1.0]];
    forall i | 0 <= i < |sim|
      ensures |sim[i]| == |rows|
    {
      assert i == 0 || i == 1 || i == 2;
    }
    assert IsSquare(sim, |rows|);
    assert rows[0].animeId == 10 && FirstRow(rows, 10) == Some(0);
    AsWrittenReadsLabelRow(rows, sim, 10, 20);
    LabelReadsNextRow(rows, sim);
    assert rows[2].animeId == 30 && rows[0].animeId != 30 && rows[1].animeId != 30;
    assert HasRow(rows, 30);
    var v := FirstRow(rows, 30).value;
    assert v == 0 || v == 1 || v == 2;
    assert v == 2;
    AsWrittenReadsLabelRow(rows, sim, 30, 20);
  }

  /** As written, a found query reads the similarity row its label names, or raises past the end. */
  lemma AsWrittenReadsLabelRow(rows: seq<Anime>, sim: seq<seq<real>>, animeId: int, n: nat)
    requires IsSquare(sim, |rows|) && HasRow(rows, animeId)
    ensures var idx := rows[FirstRow(rows, animeId).value].indexLabel;
      SimilarAsWritten(rows, sim, animeId, n)
        == if idx < |sim| then Returned(ToMap(Ranked(rows, sim[idx], n))) else RaisesIndexError
  {
  }

  /** The query at label 1 and position 0 reads the similarity row at position 1. */
  lemma LabelReadsNextRow(rows: seq<Anime>, sim: seq<seq<real>>)
    requires |rows| == 3 && rows[0].animeId == 10 && rows[1].animeId == 20 && rows[2].animeId == 30
    requires sim == [[1.0, 0.2, 0.1], [0.2, 1.0, 0.3], [0.1, 0.3, 1.0]]
    ensures ToMap(Ranked(rows, sim[1], 20)) == map[30 := 0.3, 10 := 0.2]
  {
    var row := sim[1];
    assert row == [0.2, 1.0, 0.3];
    ThreePositionOrder(row, 20, 1, 2, 0);
    var ps := Ranked(rows, row, 20);
    assert |ps| == 2 && ps[0] == (30, 0.3) && ps[1] == (10, 0.2);
    assert ps[..1] == [(30, 0.3)] && ps[..1][..0] == [];
    assert ToMap(ps[..1]) == map[30 := 0.3];
  }

  /** By position, the same question about title 10 is answered from its own row. */
  lemma PositionGivesOtherTitle()
    ensures var a := Anime(1, 10, "Alpha", None, None, None, Missing, "", None);
      var b := Anime(2, 20, "Beta", None, None, None, Missing, "", None);
      var c := Anime(3, 30, "Gamma", None, None, None, Missing, "", None);
      Similar([a, b, c], [[1.0, 0.2, 0.1], [0.2, 1.0, 0.3], [0.1, 0.3, 1.0]], 10, 20) == map[20 := 0.2, 30 := 0.1]
  {
    var a := Anime(1, 10, "Alpha", None, None, None, Missing, "", None);
    var b := Anime(2, 20, "Beta", None, None, None, Missing, "", None);
    var c := Anime(3, 30, "Gamma", None, None, None, Missing, "", None);
    var rows := [a, b, c];
    var sim := [[1.0, 0.2, 0.1], [0.2, 1.0, 0.3], [0.1, 0.3, 1.0]];
    forall i | 0 <= i < |sim|
      ensures |sim[i]| == |rows|
    {
      assert i == 0 || i == 1 || i == 2;
    }
    assert IsSquare(sim, |rows|);
    assert rows[0].animeId == 10 && FirstRow(rows, 10) == Some(0);
    SimilarReadsPositionRow(rows, sim, 10, 20);
    PositionReadsOwnRow(rows, sim);
  }

  /** A found query reads the similarity row at its own position. */
  lemma SimilarReadsPositionRow(rows: seq<Anime>, sim: seq<seq<real>>, animeId: int, n: nat)
    requires IsSquare(sim, |rows|) && HasRow(rows, animeId)
    ensures Similar(rows, sim, animeId, n) == ToMap(Ranked(rows, sim[FirstRow(rows, animeId).value], n))
  {
  }

  /** The query at position 0 reads the similarity row at position 0. */
  lemma PositionReadsOwnRow(rows: seq<Anime>, sim: seq<seq<real>>)
    requires |rows| == 3 && rows[0].animeId == 10 && rows[1].animeId == 20 && rows[2].animeId == 30
    requires sim == [[1.0, 0.2, 0.1], [0.2, 1.0, 0.3], [0.1, 0.3, 1.0]]
    ensures ToMap(Ranked(rows, sim[0], 20)) == map[20 := 0.2, 30 := 0.1]
  {
    var row := sim[0];
    assert row == [1.0, 0.2, 0.1];
    ThreePositionOrder(row, 20, 0, 1, 2);
    var ps := Ranked(rows, row, 20);
    assert |ps| == 2 && ps[0] == (20, 0.2) && ps[1] == (30, 0.1);
    assert ps[..1] == [(20, 0.2)] && ps[..1][..0] == [];
    assert ToMap(ps[..1]) == map[20 := 0.2];
  }

  /**
   * `ContentRecommender`: `catalog` is the shared `anime_df`, `similarity`
   * stands for the cosine similarities of the rows of `tfidf_matrix`.
   */
  class ContentRecommender {
    var catalog: seq<Anime>
    var similarity: seq<seq<real>>
    var fitted: bool

    ghost predicate Valid()
      reads this
    {
      fitted ==> IsSquare(similarity, |catalog|) && IsFilled(catalog)
    }

    constructor (catalog: seq<Anime>)
      ensures Valid() && !fitted && this.catalog == catalog
    {
      this.catalog := catalog;
      similarity := [];
      fitted := false;
    }

    /**
     * Fills the missing values of the shared catalog in place and keeps the
     * similarity matrix computed from it.
     */
    method Fit(sim: seq<seq<real>>)
      requires IsSquare(sim, |catalog|)
      modifies this
      ensures Valid() && fitted
      ensures catalog == FillMissing(old(catalog)) && similarity == sim
    {
      FillMissingKeepsRows(catalog);
      catalog := FillMissing(catalog);
      similarity := sim;
      fitted := true;
    }

    function GetRecommendations(animeId: int, topN: nat): (r: map<int, real>)
      reads this
      requires Valid() && fitted
      ensures !HasRow(catalog, animeId) ==> r == map[]
      ensures |r| <= topN
      ensures forall k :: k in r ==> HasRow(catalog, k)
      ensures HasRow(catalog, animeId) ==>
        var top := TopPositions(similarity[FirstRow(catalog, animeId).value], topN);
        forall k :: 0 <= k < |top| ==> top[k] < |catalog| && catalog[top[k]].animeId in r
      ensures UniqueIds(catalog) && HasRow(catalog, animeId) ==> |r| == Min(topN, |catalog| - 1)
    {
      SimilarEntries(catalog, similarity, animeId, topN);
      SimilarSize(catalog, similarity, animeId, topN);
      Similar(catalog, similarity, animeId, topN)
    }
  }
}
