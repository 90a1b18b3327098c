/**
 * The hybrid engine (`HybridRecommender.recommend`): resolves a free-text
 * title, asks both engines for candidates, blends and boosts their scores,
 * sorts them, and emits the best `top_k` that do not look like sequels of
 * the resolved title.
 */
module Hybrid {
  import opened Wrappers
  import opened Text
  import opened Catalog
  import opened Ranking
  import Content
  import Collaborative

  const NotFoundMessage: string := "Anime not found. Try a more specific name."
  /** How many titles each engine is asked for (`top_n=50`). */
  const CandidatePool: nat := 50
  /** `top_k` when the caller gives none. */
  const DefaultTopK: nat := 3
  /** Ratings strictly above this are boosted. */
  const BoostThreshold: real := 8.0
  const BoostFactor: real := 1.1
  /** Share of the target's tokens above which a title counts as a sequel. */
  const OverlapLimit: real := 0.6

  /** The `weights` dictionary: `{'content': 0.4, 'collab': 0.6}` by default. */
  datatype Weights = Weights(content: real, collab: real)

  const DefaultWeights: Weights := Weights(0.4, 0.6)

  /** One result dictionary: title, genres, rating, episodes, type, image URL and score. */
  datatype Recommendation = Recommendation(
    title: string,
    genres: Option<string>,
    rating: Rating,
    episodes: string,
    kind: Option<string>,
    imageUrl: Option<string>,
    score: real)

  /** `name.str.contains(query, case=False, regex=False)` */
  predicate Matches(a: Anime, query: string)
  {
    ContainsIgnoreCase(a.name, query)
  }

  /**
   * `a` sorts no later than `b` under `sort_values(by='rating',
   * ascending=False)`: numbers from high to low, then everything that is
   * not a number.
   */
  predicate RanksAtLeast(a: Rating, b: Rating)
  {
    match ParseRating(a)
    case Some(x) => ParseRating(b).None? || x >= ParseRating(b).value
    case None => ParseRating(b).None?
  }

  /**
   * The first best-rated row among the first `n` rows whose name contains
   * the query.
   */
  function BestMatch(rows: seq<Anime>, query: string, n: nat): (t: Option<nat>)
    requires n <= |rows|
    ensures t.None? <==> forall i :: 0 <= i < n ==> !Matches(rows[i], query)
    ensures t.Some? ==> t.value < n && Matches(rows[t.value], query)
    ensures t.Some? ==> forall i :: 0 <= i < n && Matches(rows[i], query) ==>
      RanksAtLeast(rows[t.value].rating, rows[i].rating)
  {
    if n == 0 then
      None
    else
      var best := BestMatch(rows, query, n - 1);
      if !Matches(rows[n - 1], query) then
        best
      else if best.None? || !RanksAtLeast(rows[best.value].rating, rows[n - 1].rating) then
        Some(n - 1)
      else
        best
  }

  /**
   * Title resolution: nothing when no name contains the query, otherwise a
   * matching row whose rating is at least that of every matching row.
   * pandas does not fix which of several equally rated rows comes first;
   * this picks the first in catalog order.
   */
  function Resolve(rows: seq<Anime>, query: string): (t: Option<nat>)
    ensures t.None? <==> forall i :: 0 <= i < |rows| ==> !ContainsIgnoreCase(rows[i].name, query)
    ensures t.Some? ==> t.value < |rows| && ContainsIgnoreCase(rows[t.value].name, query)
    ensures t.Some? ==> forall i :: 0 <= i < |rows| && ContainsIgnoreCase(rows[i].name, query) ==>
      RanksAtLeast(rows[t.value].rating, rows[i].rating)
  {
    BestMatch(rows, query, |rows|)
  }

  /** `scores.get(aid, 0)` */
  function ScoreOrZero(scores: map<int, real>, id: int): real
  {
    if id in scores then scores[id] else 0.0
  }

  /** The blended score before the boost. */
  function Blend(c: map<int, real>, cl: map<int, real>, w: Weights, id: int): real
  {
    ScoreOrZero(c, id) * w.content + ScoreOrZero(cl, id) * w.collab
  }

  /** `final_score *= 1.1` when `float(rating) > 8.0`; no change otherwise. */
  function Boost(rating: Rating, score: real): real
  {
    match ParseRating(rating)
    case Some(v) => if v > BoostThreshold then score * BoostFactor else score
    case None => score
  }

  /**
   * The boost applies exactly when the rating is a number strictly above
   * 8.0: a rating of 8.0, a missing one or one that is not a number leaves
   * the score as it is.
   */
  lemma BoostOnlyAboveThreshold(rating: Rating, score: real)
    ensures score != 0.0 ==>
      (Boost(rating, score) == score * BoostFactor <==> rating.Numeric? && rating.value > BoostThreshold)
    ensures Boost(rating, score) != score ==> rating.Numeric? && rating.value > BoostThreshold
    ensures rating == Numeric(8.0) ==> Boost(rating, score) == score
  {
  }

  /** The entry a candidate adds to `final_scores`, none when it has no catalog row. */
  function Entry(rows: seq<Anime>, c: map<int, real>, cl: map<int, real>, w: Weights, id: int): Option<(int, real)>
  {
    match FirstRow(rows, id)
    case None => None
    case Some(q) => Some((id, Boost(rows[q].rating, Blend(c, cl, w, id))))
  }

  /** `final_scores` after the merge loop has visited the candidates `ids` in order. */
  function Scored(rows: seq<Anime>, c: map<int, real>, cl: map<int, real>, w: Weights, ids: seq<int>): (ps: seq<(int, real)>)
    ensures |ps| <= |ids|
    ensures forall p :: p in ps ==> p.0 in ids
    ensures (forall i, j :: 0 <= i < j < |ids| ==> ids[i] != ids[j]) ==>
      forall i, j :: 0 <= i < j < |ps| ==> ps[i].0 != ps[j].0
  {
    if ids == [] then
      []
    else
      var init := Scored(rows, c, cl, w, ids[..|ids| - 1]);
      match Entry(rows, c, cl, w, ids[|ids| - 1])
      case None => init
      case Some(e) =>
        assert e.0 == ids[|ids| - 1];
        init + [e]
  }

  /**
   * The merge keeps exactly the candidates that have a catalog row, each
   * with its blended score, boosted by the rating of its first row.
   */
  lemma {:induction false} ScoredEntries(rows: seq<Anime>, c: map<int, real>, cl: map<int, real>, w: Weights, ids: seq<int>)
    ensures forall p :: p in Scored(rows, c, cl, w, ids) ==>
      p.0 in ids && HasRow(rows, p.0)
      && p.1 == Boost(rows[FirstRow(rows, p.0).value].rating, Blend(c, cl, w, p.0))
    ensures forall id :: id in ids && HasRow(rows, id) ==> exists s :: (id, s) in Scored(rows, c, cl, w, ids)
  {
    if ids != [] {
      var init := ids[..|ids| - 1];
      var last := ids[|ids| - 1];
      ScoredEntries(rows, c, cl, w, init);
      assert ids == init + [last];
      forall id | id in ids && HasRow(rows, id)
        ensures exists s :: (id, s) in Scored(rows, c, cl, w, ids)
      {
        if id != last {
          assert id in init;
          var s :| (id, s) in Scored(rows, c, cl, w, init);
          assert (id, s) in Scored(rows, c, cl, w, ids);
        } else {
          var e := Entry(rows, c, cl, w, id).value;
          assert e in Scored(rows, c, cl, w, ids);
        }
      }
    }
  }

  /** `set(content_scores.keys()) | set(collab_scores.keys())`, visited in ascending id order. */
  function Candidates(c: map<int, real>, cl: map<int, real>): (ids: seq<int>)
    ensures forall id :: id in ids <==> id in c || id in cl
    ensures forall i, j :: 0 <= i < j < |ids| ==> ids[i] < ids[j]
  {
    SortedIds(c.Keys + cl.Keys)
  }

  /** `len(target_words & rec_words) / len(target_words)` */
  function Overlap(targetWords: set<string>, recWords: set<string>): real
    requires targetWords != {}
  {
    (|targetWords * recWords| as real) / (|targetWords| as real)
  }

  /** The sequel test: both token sets non-empty and an overlap above 0.6. */
  predicate Suppressed(targetWords: set<string>, recWords: set<string>)
  {
    targetWords != {} && recWords != {} && Overlap(targetWords, recWords) > OverlapLimit
  }

  /** The 60% test in integers: more than three fifths of the target's tokens are shared. */
  lemma SuppressedInIntegers(targetWords: set<string>, recWords: set<string>)
    ensures Suppressed(targetWords, recWords) <==>
      targetWords != {} && recWords != {} && 5 * |targetWords * recWords| > 3 * |targetWords|
  {
    if targetWords != {} {
      var x := |targetWords * recWords| as real;
      var y := |targetWords| as real;
      assert y > 0.0;
      assert x / y * y == x;
      assert x / y > OverlapLimit <==> x > OverlapLimit * y;
    }
  }

  /** The result dictionary built from a catalog row and its final score. */
  function ToRecommendation(a: Anime, score: real): Recommendation
  {
    Recommendation(a.name, a.genre, a.rating, a.episodes, a.kind, a.imageUrl, score)
  }

  /** Every scored id has a catalog row (`.iloc[0]` cannot fail). */
  ghost predicate AllHaveRows(rows: seq<Anime>, ps: seq<(int, real)>)
  {
    forall p :: p in ps ==> HasRow(rows, p.0)
  }

  /** The catalog row `meta` the emission loop reads for a scored id. */
  function RowOf(rows: seq<Anime>, id: int): (a: Anime)
    requires HasRow(rows, id)
    ensures a in rows && a.animeId == id
  {
    rows[FirstRow(rows, id).value]
  }

  /**
   * The emission loop over the sorted scores with `k` places left: stop when
   * no place is left, skip a suspected sequel, emit anything else.
   */
  function Emit(rows: seq<Anime>, targetWords: set<string>, ps: seq<(int, real)>, k: nat): (rs: seq<Recommendation>)
    requires AllHaveRows(rows, ps)
    ensures |rs| <= k && |rs| <= |ps|
  {
    if ps == [] || k == 0 then
      []
    else
      var a := RowOf(rows, ps[0].0);
      if Suppressed(targetWords, Tokens(a.name)) then
        Emit(rows, targetWords, ps[1..], k)
      else
        [ToRecommendation(a, ps[0].1)] + Emit(rows, targetWords, ps[1..], k - 1)
  }

  /** Scores that never go up. */
  ghost predicate ScoresNonIncreasing(rs: seq<Recommendation>)
  {
    forall i, j :: 0 <= i < j < |rs| ==> rs[i].score >= rs[j].score
  }

  /**
   * Every emitted result is a scored title, built from its catalog row and
   * its score, and is not a suspected sequel of the target.
   */
  lemma {:induction false} EmitSound(rows: seq<Anime>, targetWords: set<string>, ps: seq<(int, real)>, k: nat)
    requires AllHaveRows(rows, ps)
    ensures forall r :: r in Emit(rows, targetWords, ps, k) ==>
      !Suppressed(targetWords, Tokens(r.title))
      && exists p :: p in ps && HasRow(rows, p.0) && r == ToRecommendation(RowOf(rows, p.0), p.1)
  {
    if ps != [] && k != 0 {
      var a := RowOf(rows, ps[0].0);
      assert ps[0] in ps;
      EmitSound(rows, targetWords, ps[1..], if Suppressed(targetWords, Tokens(a.name)) then k else k - 1);
      forall p | p in ps[1..]
        ensures p in ps
      {
      }
    }
  }

  /** No emitted score is above a bound on all the scored titles. */
  lemma {:induction false} EmitBounded(rows: seq<Anime>, targetWords: set<string>, ps: seq<(int, real)>, k: nat, bound: real)
    requires AllHaveRows(rows, ps)
    requires forall p :: p in ps ==> p.1 <= bound
    ensures forall r :: r in Emit(rows, targetWords, ps, k) ==> r.score <= bound
  {
    if ps != [] && k != 0 {
      assert ps[0] in ps;
      var a := RowOf(rows, ps[0].0);
      EmitBounded(rows, targetWords, ps[1..], if Suppressed(targetWords, Tokens(a.name)) then k else k - 1, bound);
    }
  }

  /** Emission keeps the order of the sorted scores. */
  lemma {:induction false} EmitKeepsOrder(rows: seq<Anime>, targetWords: set<string>, ps: seq<(int, real)>, k: nat)
    requires AllHaveRows(rows, ps) && NonIncreasing(ps)
    ensures ScoresNonIncreasing(Emit(rows, targetWords, ps, k))
  {
    if ps != [] && k != 0 {
      var a := RowOf(rows, ps[0].0);
      var k' := if Suppressed(targetWords, Tokens(a.name)) then k else k - 1;
      var rest := Emit(rows, targetWords, ps[1..], k');
      assert NonIncreasing(ps[1..]);
      EmitKeepsOrder(rows, targetWords, ps[1..], k');
      FirstIsHighest(ps);
      EmitBounded(rows, targetWords, ps[1..], k', ps[0].1);
      if !Suppressed(targetWords, Tokens(a.name)) {
        var rs := Emit(rows, targetWords, ps, k);
        assert rs == [ToRecommendation(a, ps[0].1)] + rest;
        forall i, j | 0 <= i < j < |rs|
          ensures rs[i].score >= rs[j].score
        {
          assert rs[j] == rest[j - 1];
          if i > 0 {
            assert rs[i] == rest[i - 1];
          } else {
            assert rest[j - 1] in rest;
          }
        }
      }
    }
  }

  /**
   * A target without any token of four or more characters suppresses
   * nothing: the results are the first `k` scored titles, in order.
   */
  lemma {:induction false} EmitWithoutTargetTokens(rows: seq<Anime>, ps: seq<(int, real)>, k: nat)
    requires AllHaveRows(rows, ps)
    ensures |Emit(rows, {}, ps, k)| == Min(k, |ps|)
    ensures forall i :: 0 <= i < |Emit(rows, {}, ps, k)| ==>
      HasRow(rows, ps[i].0) && Emit(rows, {}, ps, k)[i] == ToRecommendation(RowOf(rows, ps[i].0), ps[i].1)
  {
    if ps != [] && k != 0 {
      assert ps[0] in ps;
      EmitWithoutTargetTokens(rows, ps[1..], k - 1);
      forall i | 1 <= i < |Emit(rows, {}, ps, k)|
        ensures ps[i] == ps[1..][i - 1]
      {
      }
    }
  }

  /**
   * The loop stops early only when `k` results have been emitted: with
   * places left over, every scored title that is not a suspected sequel was
   * emitted.
   */
  lemma {:induction false} EmitComplete(rows: seq<Anime>, targetWords: set<string>, ps: seq<(int, real)>, k: nat)
    requires AllHaveRows(rows, ps)
    ensures |Emit(rows, targetWords, ps, k)| < k ==>
      forall p :: p in ps && !Suppressed(targetWords, Tokens(RowOf(rows, p.0).name)) ==>
        ToRecommendation(RowOf(rows, p.0), p.1) in Emit(rows, targetWords, ps, k)
  {
    if ps != [] && k != 0 {
      var a := RowOf(rows, ps[0].0);
      var k' := if Suppressed(targetWords, Tokens(a.name)) then k else k - 1;
      EmitComplete(rows, targetWords, ps[1..], k');
      forall p | p in ps
        ensures p == ps[0] || p in ps[1..]
      {
        var i :| 0 <= i < |ps| && ps[i] == p;
        if i > 0 {
          assert ps[1..][i - 1] == p;
        }
      }
    }
  }

  /**
   * The scored titles the emission loop does not skip, in their order: those
   * that are not suspected sequels of the target.
   */
  function NonSequels(rows: seq<Anime>, targetWords: set<string>, ps: seq<(int, real)>): (r: seq<(int, real)>)
    requires AllHaveRows(rows, ps)
    ensures |r| <= |ps| && AllHaveRows(rows, r)
    ensures forall p :: p in r <==> p in ps && !Suppressed(targetWords, Tokens(RowOf(rows, p.0).name))
  {
    if ps == [] then
      []
    else
      assert forall p :: p in ps <==> p == ps[0] || p in ps[1..];
      var rest := NonSequels(rows, targetWords, ps[1..]);
      if Suppressed(targetWords, Tokens(RowOf(rows, ps[0].0).name)) then rest else [ps[0]] + rest
  }

  /** Result dictionaries for scored titles, one for one. */
  function ToRecommendations(rows: seq<Anime>, ps: seq<(int, real)>): (rs: seq<Recommendation>)
    requires AllHaveRows(rows, ps)
    ensures |rs| == |ps|
    ensures forall i :: 0 <= i < |ps| ==> rs[i] == ToRecommendation(RowOf(rows, ps[i].0), ps[i].1)
  {
    if ps == [] then
      []
    else
      assert forall p :: p in ps[1..] ==> p in ps;
      [ToRecommendation(RowOf(rows, ps[0].0), ps[0].1)] + ToRecommendations(rows, ps[1..])
  }

  /** A prefix of a list whose titles all have rows. */
  lemma PrefixHasRows(rows: seq<Anime>, ps: seq<(int, real)>, m: nat)
    requires AllHaveRows(rows, ps) && m <= |ps|
    ensures AllHaveRows(rows, ps[..m])
  {
    forall p | p in ps[..m]
      ensures p in ps
    {
      var i :| 0 <= i < m && ps[..m][i] == p;
      assert ps[i] == p;
    }
  }

  /** The first `k` titles that are not suspected sequels, or all of them when there are fewer. */
  function FirstNonSequels(rows: seq<Anime>, targetWords: set<string>, ps: seq<(int, real)>, k: nat): (r: seq<(int, real)>)
    requires AllHaveRows(rows, ps)
    ensures AllHaveRows(rows, r)
    ensures var ns := NonSequels(rows, targetWords, ps); r == ns[..Min(k, |ns|)]
  {
    var ns := NonSequels(rows, targetWords, ps);
    PrefixHasRows(rows, ns, Min(k, |ns|));
    ns[..Min(k, |ns|)]
  }

  /**
   * The emission is exactly the first `k` scored titles that are not
   * suspected sequels (all of them when there are fewer), in order.
   */
  lemma {:induction false} EmitIsFirstNonSequels(rows: seq<Anime>, targetWords: set<string>, ps: seq<(int, real)>, k: nat)
    requires AllHaveRows(rows, ps)
    ensures Emit(rows, targetWords, ps, k) == ToRecommendations(rows, FirstNonSequels(rows, targetWords, ps, k))
  {
    if ps == [] || k == 0 {
      assert FirstNonSequels(rows, targetWords, ps, k) == [];
    } else {
      TailHasRows(rows, ps);
      var skip := Suppressed(targetWords, Tokens(RowOf(rows, ps[0].0).name));
      var k' := if skip then k else k - 1;
      EmitIsFirstNonSequels(rows, targetWords, ps[1..], k');
      EmitStep(rows, targetWords, ps, k);
    }
  }

  /** The titles after the first of a list whose titles all have rows. */
  lemma TailHasRows(rows: seq<Anime>, ps: seq<(int, real)>)
    requires AllHaveRows(rows, ps) && ps != []
    ensures AllHaveRows(rows, ps[1..])
  {
    assert forall p :: p in ps[1..] ==> p in ps;
  }

  /** One step of the induction: the claim for the tail gives the claim for the whole list. */
  lemma EmitStep(rows: seq<Anime>, targetWords: set<string>, ps: seq<(int, real)>, k: nat)
    requires AllHaveRows(rows, ps) && ps != [] && 1 <= k && AllHaveRows(rows, ps[1..])
    requires var k' := if Suppressed(targetWords, Tokens(RowOf(rows, ps[0].0).name)) then k else k - 1;
      Emit(rows, targetWords, ps[1..], k') == ToRecommendations(rows, FirstNonSequels(rows, targetWords, ps[1..], k'))
    ensures Emit(rows, targetWords, ps, k) == ToRecommendations(rows, FirstNonSequels(rows, targetWords, ps, k))
  {
    if Suppressed(targetWords, Tokens(RowOf(rows, ps[0].0).name)) {
      SkipUnfolds(rows, targetWords, ps, k);
    } else {
      KeepUnfolds(rows, targetWords, ps, k);
    }
  }

  /** A suspected sequel at the head is neither emitted nor counted towards `k`. */
  lemma SkipUnfolds(rows: seq<Anime>, targetWords: set<string>, ps: seq<(int, real)>, k: nat)
    requires AllHaveRows(rows, ps) && ps != [] && 1 <= k
    requires Suppressed(targetWords, Tokens(RowOf(rows, ps[0].0).name))
    ensures Emit(rows, targetWords, ps, k) == Emit(rows, targetWords, ps[1..], k)
    ensures FirstNonSequels(rows, targetWords, ps, k) == FirstNonSequels(rows, targetWords, ps[1..], k)
  {
    assert NonSequels(rows, targetWords, ps) == NonSequels(rows, targetWords, ps[1..]);
  }

  /** With a kept head, the emission, the kept titles and their results all start with that head. */
  lemma KeepUnfolds(rows: seq<Anime>, targetWords: set<string>, ps: seq<(int, real)>, k: nat)
    requires AllHaveRows(rows, ps) && ps != [] && 1 <= k
    requires !Suppressed(targetWords, Tokens(RowOf(rows, ps[0].0).name))
    ensures var head := ToRecommendation(RowOf(rows, ps[0].0), ps[0].1);
      Emit(rows, targetWords, ps, k) == [head] + Emit(rows, targetWords, ps[1..], k - 1)
      && ToRecommendations(rows, FirstNonSequels(rows, targetWords, ps, k))
        == [head] + ToRecommendations(rows, FirstNonSequels(rows, targetWords, ps[1..], k - 1))
  {
    var a := RowOf(rows, ps[0].0);
    var rest := NonSequels(rows, targetWords, ps[1..]);
    assert NonSequels(rows, targetWords, ps) == [ps[0]] + rest;
    ConsPrefix(ps[0], rest, k);
    var tailFirst := FirstNonSequels(rows, targetWords, ps[1..], k - 1);
    assert FirstNonSequels(rows, targetWords, ps, k) == [ps[0]] + tailFirst;
    assert ([ps[0]] + tailFirst)[1..] == tailFirst;
    assert ToRecommendations(rows, [ps[0]] + tailFirst) == [ToRecommendation(a, ps[0].1)] + ToRecommendations(rows, tailFirst);
  }

  /** Taking `k` items of a non-empty list keeps its head and `k - 1` items of its tail. */
  lemma ConsPrefix<T>(h: T, t: seq<T>, k: nat)
    requires 1 <= k
    ensures ([h] + t)[..Min(k, |t| + 1)] == [h] + t[..Min(k - 1, |t|)]
  {
    assert Min(k, |t| + 1) == Min(k - 1, |t|) + 1;
  }

  /** Dropping suspected sequels keeps a descending list descending. */
  lemma {:induction false} NonSequelsNonIncreasing(rows: seq<Anime>, targetWords: set<string>, ps: seq<(int, real)>)
    requires AllHaveRows(rows, ps) && NonIncreasing(ps)
    ensures NonIncreasing(NonSequels(rows, targetWords, ps))
  {
    if ps != [] {
      var rest := NonSequels(rows, targetWords, ps[1..]);
      NonSequelsNonIncreasing(rows, targetWords, ps[1..]);
      if !Suppressed(targetWords, Tokens(RowOf(rows, ps[0].0).name)) {
        forall y | y in rest
          ensures y.1 <= ps[0].1
        {
          var i :| 0 <= i < |ps[1..]| && ps[1..][i] == y;
          assert ps[i + 1] == y;
        }
        ConsNonIncreasing(ps[0], rest);
      }
    }
  }

  /** `final_scores` after the in-place sort by score, high to low (stable). */
  function Ranked(rows: seq<Anime>, c: map<int, real>, cl: map<int, real>, w: Weights): (ps: seq<(int, real)>)
    ensures NonIncreasing(ps) && AllHaveRows(rows, ps)
    ensures multiset(ps) == multiset(Scored(rows, c, cl, w, Candidates(c, cl)))
  {
    var scored := Scored(rows, c, cl, w, Candidates(c, cl));
    var ps := SortDesc(scored);
    ScoredEntries(rows, c, cl, w, Candidates(c, cl));
    forall p | p in ps
      ensures p in scored
    {
      assert p in multiset(ps);
    }
    ps
  }

  /** What `recommend` returns for the resolved row `t`, given both engines' answers. */
  function RecommendFrom(rows: seq<Anime>, c: map<int, real>, cl: map<int, real>, w: Weights, t: nat, topK: nat): (rs: seq<Recommendation>)
    requires t < |rows|
    ensures |rs| <= topK
  {
    Emit(rows, Tokens(rows[t].name), Ranked(rows, c, cl, w), topK)
  }

  /**
   * What a resolved query yields: at most `top_k` results with scores that
   * never go up, none a suspected sequel of the target, each a candidate of
   * one of the engines built from its catalog row with its boosted blend;
   * and when the target has no token of four or more characters, simply the
   * best `top_k` candidates.
   */
  lemma RecommendFromProperties(rows: seq<Anime>, c: map<int, real>, cl: map<int, real>, w: Weights, t: nat, topK: nat)
    requires t < |rows|
    ensures ScoresNonIncreasing(RecommendFrom(rows, c, cl, w, t, topK))
    ensures forall r :: r in RecommendFrom(rows, c, cl, w, t, topK) ==>
      !Suppressed(Tokens(rows[t].name), Tokens(r.title))
    ensures forall r :: r in RecommendFrom(rows, c, cl, w, t, topK) ==>
      exists id :: (id in c || id in cl) && HasRow(rows, id)
        && r == ToRecommendation(RowOf(rows, id), Boost(RowOf(rows, id).rating, Blend(c, cl, w, id)))
    ensures Tokens(rows[t].name) == {} ==>
      |RecommendFrom(rows, c, cl, w, t, topK)| == Min(topK, |Scored(rows, c, cl, w, Candidates(c, cl))|)
  {
    var ids := Candidates(c, cl);
    var scored := Scored(rows, c, cl, w, ids);
    var ps := Ranked(rows, c, cl, w);
    var targetWords := Tokens(rows[t].name);
    var rs := RecommendFrom(rows, c, cl, w, t, topK);
    EmitKeepsOrder(rows, targetWords, ps, topK);
    EmitSound(rows, targetWords, ps, topK);
    ScoredEntries(rows, c, cl, w, ids);
    forall r | r in rs
      ensures exists id ::
        (id in c || id in cl) && HasRow(rows, id)
        && r == ToRecommendation(RowOf(rows, id), Boost(RowOf(rows, id).rating, Blend(c, cl, w, id)))
    {
      var p :| p in ps && HasRow(rows, p.0) && r == ToRecommendation(RowOf(rows, p.0), p.1);
      assert p in multiset(ps);
      assert p in scored;
    }
    if targetWords == {} {
      EmitWithoutTargetTokens(rows, ps, topK);
      assert |ps| == |multiset(ps)| == |multiset(scored)| == |scored|;
    }
  }

  /**
   * The recommendations are the `topK` best-scoring candidates that are not
   * suspected sequels, in descending order of score: no candidate left out
   * for lack of room scores above one that was kept.
   */
  lemma RecommendFromIsBestNonSequels(rows: seq<Anime>, c: map<int, real>, cl: map<int, real>, w: Weights, t: nat, topK: nat)
    requires t < |rows|
    ensures RecommendFrom(rows, c, cl, w, t, topK)
      == ToRecommendations(rows, FirstNonSequels(rows, Tokens(rows[t].name), Ranked(rows, c, cl, w), topK))
    ensures var ns := NonSequels(rows, Tokens(rows[t].name), Ranked(rows, c, cl, w));
      var first := FirstNonSequels(rows, Tokens(rows[t].name), Ranked(rows, c, cl, w), topK);
      forall p, q :: p in first && q in ns && q !in first ==> q.1 <= p.1
  {
    var targetWords := Tokens(rows[t].name);
    var ps := Ranked(rows, c, cl, w);
    EmitIsFirstNonSequels(rows, targetWords, ps, topK);
    NonSequelsNonIncreasing(rows, targetWords, ps);
    var ns := NonSequels(rows, targetWords, ps);
    PrefixIsBest(ns, Min(topK, |ns|));
  }

  /** In a descending list, nothing after a prefix scores above anything in it. */
  lemma PrefixIsBest<K>(xs: seq<(K, real)>, m: nat)
    requires NonIncreasing(xs) && m <= |xs|
    ensures forall p, q :: p in xs[..m] && q in xs && q !in xs[..m] ==> q.1 <= p.1
  {
    forall p, q | p in xs[..m] && q in xs && q !in xs[..m]
      ensures q.1 <= p.1
    {
      var i :| 0 <= i < m && xs[..m][i] == p;
      var j :| 0 <= j < |xs| && xs[j] == q;
      assert xs[i] == p;
    }
  }

  /** One more candidate visited by the merge loop. */
  lemma ScoredStep(rows: seq<Anime>, c: map<int, real>, cl: map<int, real>, w: Weights, ids: seq<int>, i: nat)
    requires i < |ids|
    ensures Entry(rows, c, cl, w, ids[i]).None? ==>
      Scored(rows, c, cl, w, ids[..i + 1]) == Scored(rows, c, cl, w, ids[..i])
    ensures Entry(rows, c, cl, w, ids[i]).Some? ==>
      Scored(rows, c, cl, w, ids[..i + 1]) == Scored(rows, c, cl, w, ids[..i]) + [Entry(rows, c, cl, w, ids[i]).value]
  {
    assert ids[..i + 1][..i] == ids[..i];
  }

  /**
   * The body of the merge loop for one candidate: no entry when it has no
   * catalog row, otherwise its blend, multiplied by 1.1 when the rating of
   * its first row is a number above 8.0.
   */
  method ScoreCandidate(rows: seq<Anime>, c: map<int, real>, cl: map<int, real>, w: Weights, aid: int)
    returns (entry: Option<(int, real)>)
    ensures entry == Entry(rows, c, cl, w, aid)
  {
    var score := Blend(c, cl, w, aid);
    var meta := FirstRow(rows, aid);
    if meta.None? {
      return None;
    }
    var rating := ParseRating(rows[meta.value].rating);
    if rating.Some? && rating.value > BoostThreshold {
      score := score * BoostFactor;
    }
    return Some((aid, score));
  }

  /**
   * The merge loop: visits the candidates, skips those without a catalog
   * row, and appends each other one with its blended, possibly boosted score.
   */
  method MergeScores(rows: seq<Anime>, c: map<int, real>, cl: map<int, real>, w: Weights, candidates: seq<int>)
    returns (finalScores: seq<(int, real)>)
    ensures finalScores == Scored(rows, c, cl, w, candidates)
  {
    finalScores := [];
    var i := 0;
    while i < |candidates|
      invariant 0 <= i <= |candidates|
      invariant finalScores == Scored(rows, c, cl, w, candidates[..i])
    {
      ScoredStep(rows, c, cl, w, candidates, i);
      var entry := ScoreCandidate(rows, c, cl, w, candidates[i]);
      if entry.Some? {
        finalScores := finalScores + [entry.value];
      }
      i := i + 1;
    }
    assert candidates[..i] == candidates;
  }

  /** The emission loop at position `j` with `k` places left. */
  lemma EmitSkip(rows: seq<Anime>, targetWords: set<string>, ps: seq<(int, real)>, j: nat,
                 results: seq<Recommendation>, k: nat, whole: seq<Recommendation>)
    requires AllHaveRows(rows, ps) && j < |ps| && |results| < k
    requires HasRow(rows, ps[j].0) && Suppressed(targetWords, Tokens(RowOf(rows, ps[j].0).name))
    requires AllHaveRows(rows, ps[j..]) && results + Emit(rows, targetWords, ps[j..], k - |results|) == whole
    ensures AllHaveRows(rows, ps[j + 1..])
    ensures results + Emit(rows, targetWords, ps[j + 1..], k - |results|) == whole
  {
    assert ps[j..][1..] == ps[j + 1..];
    assert ps[j..][0] == ps[j];
  }

  lemma EmitKeep(rows: seq<Anime>, targetWords: set<string>, ps: seq<(int, real)>, j: nat,
                 results: seq<Recommendation>, k: nat, whole: seq<Recommendation>, r: seq<Recommendation>)
    requires AllHaveRows(rows, ps) && j < |ps| && |results| < k
    requires HasRow(rows, ps[j].0) && !Suppressed(targetWords, Tokens(RowOf(rows, ps[j].0).name))
    requires AllHaveRows(rows, ps[j..]) && results + Emit(rows, targetWords, ps[j..], k - |results|) == whole
    requires r == results + [ToRecommendation(RowOf(rows, ps[j].0), ps[j].1)]
    ensures AllHaveRows(rows, ps[j + 1..])
    ensures r + Emit(rows, targetWords, ps[j + 1..], k - |r|) == whole
  {
    assert ps[j..][1..] == ps[j + 1..];
    assert ps[j..][0] == ps[j];
    var x := ToRecommendation(RowOf(rows, ps[j].0), ps[j].1);
    var rest := Emit(rows, targetWords, ps[j + 1..], k - |results| - 1);
    assert Emit(rows, targetWords, ps[j..], k - |results|) == [x] + rest;
    assert results + [x] + rest == results + ([x] + rest);
  }

  /** The overlap test of the emission loop for one candidate's tokens. */
  method IsSequel(targetWords: set<string>, recWords: set<string>) returns (sequel: bool)
    ensures sequel <==> Suppressed(targetWords, recWords)
  {
    sequel := false;
    if targetWords != {} && recWords != {} {
      var overlap := Overlap(targetWords, recWords);
      if overlap > OverlapLimit {
        sequel := true;
      }
    }
  }

  /**
   * One pass of the emission loop at position `j` with `results` collected
   * so far: the title's row is looked up, and it is appended unless the
   * overlap test marks it as a sequel of the target.
   */
  method EmitOne(rows: seq<Anime>, targetWords: set<string>, ps: seq<(int, real)>, j: nat,
                 results: seq<Recommendation>, topK: nat)
    returns (next: seq<Recommendation>)
    requires AllHaveRows(rows, ps) && j < |ps| && |results| < topK
    requires AllHaveRows(rows, ps[j..])
    ensures |next| <= topK && AllHaveRows(rows, ps[j + 1..])
    ensures next + Emit(rows, targetWords, ps[j + 1..], topK - |next|)
      == results + Emit(rows, targetWords, ps[j..], topK - |results|)
  {
    ghost var whole := results + Emit(rows, targetWords, ps[j..], topK - |results|);
    var aid := ps[j].0;
    var score := ps[j].1;
    assert ps[j] in ps;
    var meta := RowOf(rows, aid);
    var sequel := IsSequel(targetWords, Tokens(meta.name));
    if sequel {
      EmitSkip(rows, targetWords, ps, j, results, topK, whole);
      return results;
    }
    next := results + [ToRecommendation(meta, score)];
    EmitKeep(rows, targetWords, ps, j, results, topK, whole, next);
  }

  /**
   * The emission loop: stops once `top_k` results are collected, skips
   * suspected sequels of the target, and appends the rest.
   */
  method EmitResults(rows: seq<Anime>, targetWords: set<string>, finalScores: seq<(int, real)>, topK: nat)
    returns (results: seq<Recommendation>)
    requires AllHaveRows(rows, finalScores)
    ensures results == Emit(rows, targetWords, finalScores, topK)
  {
    results := [];
    var j := 0;
    assert finalScores[0..] == finalScores;
    while j < |finalScores|
      invariant 0 <= j <= |finalScores| && |results| <= topK
      invariant AllHaveRows(rows, finalScores[j..])
      invariant results + Emit(rows, targetWords, finalScores[j..], topK - |results|)
        == Emit(rows, targetWords, finalScores, topK)
    {
      if |results| >= topK {
        break;
      }
      results := EmitOne(rows, targetWords, finalScores, j, results, topK);
      j := j + 1;
    }
  }


  /**
   * `HybridRecommender`. Its `anime_df` is the same table object as the
   * content engine's, which `fit` fills in place, so the catalog is read
   * through `contentEngine.catalog` here.
   */
  class HybridRecommender {
    const contentEngine: Content.ContentRecommender
    const collabEngine: Collaborative.CollaborativeRecommender

    ghost predicate Valid()
      reads this, contentEngine, collabEngine
    {
      contentEngine.Valid() && collabEngine.Valid()
    }

    constructor (catalog: seq<Anime>, ratings: seq<Interaction>)
      ensures Valid() && fresh(contentEngine) && fresh(collabEngine)
      ensures contentEngine.catalog == catalog && !contentEngine.fitted
      ensures collabEngine.ratings == ratings && !collabEngine.fitted
    {
      contentEngine := new Content.ContentRecommender(catalog);
      collabEngine := new Collaborative.CollaborativeRecommender(ratings);
    }

    /** Fits both engines, given the similarity and correlation matrices. */
    method Fit(sim: seq<seq<real>>, corr: seq<seq<real>>)
      requires Valid()
      requires IsSquare(sim, |contentEngine.catalog|)
      requires IsSquare(corr, |Collaborative.ItemIds(collabEngine.ratings)|)
      modifies contentEngine, collabEngine
      ensures Valid() && contentEngine.fitted && collabEngine.fitted
      ensures contentEngine.catalog == Content.FillMissing(old(contentEngine.catalog))
      ensures contentEngine.similarity == sim
      ensures collabEngine.ratings == old(collabEngine.ratings) && collabEngine.corr == corr
      ensures collabEngine.itemIds == Collaborative.ItemIds(collabEngine.ratings)
    {
      contentEngine.Fit(sim);
      collabEngine.Fit(corr);
    }

    /**
     * `recommend(anime_name, weights, top_k)`: the not-found message when no
     * title matches, otherwise the emitted results and the resolved title.
     */
    method Recommend(query: string, w: Weights := DefaultWeights, topK: nat := DefaultTopK) returns (results: seq<Recommendation>, message: string)
      requires Valid() && contentEngine.fitted && collabEngine.fitted
      ensures Resolve(contentEngine.catalog, query).None? ==> results == [] && message == NotFoundMessage
      ensures Resolve(contentEngine.catalog, query).Some? ==>
        var rows := contentEngine.catalog;
        var t := Resolve(rows, query).value;
        message == rows[t].name
        && results == RecommendFrom(rows,
          contentEngine.GetRecommendations(rows[t].animeId, CandidatePool),
          collabEngine.GetRecommendations(rows[t].animeId, CandidatePool), w, t, topK)
    {
      var rows := contentEngine.catalog;
      var resolved := Resolve(rows, query);
      if resolved.None? {
        return [], NotFoundMessage;
      }
      var target := rows[resolved.value];
      var c := contentEngine.GetRecommendations(target.animeId, CandidatePool);
      var cl := collabEngine.GetRecommendations(target.animeId, CandidatePool);

      var finalScores := MergeScores(rows, c, cl, w, Candidates(c, cl));
      finalScores := SortDesc(finalScores);
      assert finalScores == Ranked(rows, c, cl, w);
      results := EmitResults(rows, Tokens(target.name), finalScores, topK);
      message := target.name;
    }
  }
}
