# Anime-Codex recommender core in Dafny

Anime-Codex recommends anime titles. A free-text query is resolved to a catalog
title. Two engines then score candidate titles:

- a content engine, which uses the cosine similarity of TF-IDF vectors built
  from genre, type and synopsis;
- a collaborative engine, which uses the item–item correlation of an SVD of the
  user × title rating matrix.

The hybrid engine blends the two scores and boosts highly rated titles. It
sorts the result, drops titles that look like sequels of the query title, and
returns the best `top_k`. Before any of this, a loader cleans the raw tables:

- it removes duplicate titles and titles without a name;
- it keeps positive ratings, read chunk by chunk up to a row limit;
- it keeps ratings of catalogued titles by users with at least ten ratings.

This project models that core. The similarity and correlation matrices are
inputs. Scores are `real`. Every operation is proved against a contract.

Modules, one per file:

- `Wrappers` (`wrappers.dfy`): `Option`.
- `Text` (`text.dfy`): case-insensitive substring search (`str.contains(case=False)`) and the word tokens of `\b\w{4,}\b` (ASCII only).
- `Catalog` (`catalog.dfy`): a catalog row `Anime`, a rating `Interaction`, and the three kinds of catalog rating:
  - missing;
  - numeric;
  - present but not a number, such as `UNKNOWN`.
- `Ranking` (`ranking.dfy`): stable descending sort, `argsort` reversed, the slice `[1:n+1]`, `dict(zip(...))`, and ascending iteration over a set of ids.
- `Content` (`content.dfy`): `ContentRecommender` as a class. `Fit` fills in missing fields in place. `GetRecommendations` is a function of the fitted state.
- `Collaborative` (`collaborative.dfy`): `CollaborativeRecommender` as a class. `Fit` builds the id↔index maps.
- `Hybrid` (`hybrid.dfy`): resolution, merge, boost, sort, sequel filter, and `HybridRecommender.Recommend`. The two loops of `recommend` are methods proved against the functions `Scored` and `Emit`.
- `DataLoader` (`data_loader.dfy`): the cleaning steps of `_process_raw_data`, over in-memory tables. The chunk loop is a method proved against `ChunksRead`. The whole-table filters are boolean masks.

Behaviour worth knowing:

- **The query title can be recommended.** The comment `# Top N (excluding self)` (src/models.py:56) states the intent to leave the query out. Neither engine excludes the query title by id, though: each drops whatever sorts first in the query's row. That is the query when it is strictly the most similar to itself (`QueryDroppedWhenStrictlyFirst`). In the content engine it is also the query when it ties for the highest score and comes first in the catalog among the tied rows, because `sorted` is stable (src/models.py:54). The collaborative engine's `np.argsort(...)[::-1]` (src/models.py:110) leaves the order of tied correlations open, so there a query that ties for the top may be kept or dropped. Otherwise another title is dropped. A title whose TF-IDF vector is zero is equally similar to everything, so catalog order decides: row 0 is dropped and rows 1 to `top_n` are kept. Such a title is recommended to itself when its own row is among positions 1 to `top_n`, and, with unique ids as after cleanup, only then (`ZeroVectorRecommendsItself`). The model follows the code.
- **Short titles suppress nothing.** Sequel suppression uses only tokens of four or more word characters. A target named "A" has no tokens, so nothing is suppressed for it. Even a title named "A Sequel" is returned.
- **A nameless first row can cost a title.** Deduplication runs before rows with no name are dropped. If a title's first row has no name and a later row does, the title disappears from the catalog (`NamelessFirstRowLosesTitle`).

## Model

| member | source | states |
|---|---|---|
| Text.Lower | src/models.py:193 | lower-cases character by character and keeps the length |
| Text.Contains | src/models.py:134 | true iff the pattern occurs at some offset of the text |
| Text.ContainsIgnoreCase | src/models.py:134 | true iff the upper-cased query occurs in the upper-cased name (`case=False`, `regex=False`) |
| Text.WordPrefixLength | src/models.py:193 | the leading run of word characters is maximal: all word characters, followed by a non-word character or the end |
| Text.WordsAreMaximalRuns | src/models.py:193 | the words found are exactly the maximal runs of word characters (`\b\w+\b`), each in both directions |
| Text.TokensAreLongWords | src/models.py:193-203 | a token is exactly a maximal word run of the lower-cased name with at least 4 characters |
| Catalog.ParseRating | src/models.py:173-178 | a numeric rating gives its value; a missing or non-numeric rating gives no number, so the boost test fails as it does for `NaN > 8.0` and for the `except` branch |
| Catalog.FirstRow | src/models.py:167-170 | `meta.iloc[0]`: absent iff no row has the id, otherwise the first row with that id |
| Ranking.SortDesc | src/models.py:54 | the sort result is a permutation of its input, ordered by non-increasing score |
| Ranking.SortDescStable | src/models.py:54 | `sorted(..., reverse=True)` is stable: equal scores keep their original order |
| Ranking.DescendingOrder | src/models.py:53-54 | positions of the enumerated row sorted by descending score, each exactly once, ties in position order |
| Ranking.SortedEnumeration | src/models.py:53-54 | sorting `enumerate(row)` gives every position once, in descending score order, ties by position |
| Ranking.Argsort | src/models.py:110 | `np.argsort`: every position once, in ascending score order |
| Ranking.ConstantRowOrder | src/models.py:53-54 | when every score is equal, the stable descending order is the catalog order |
| Ranking.Reverse | src/models.py:110 | `[::-1]` reverses the sequence element by element |
| Ranking.ReversedAscendingIsDescending | src/models.py:110 | an ascending argsort reversed is a descending order of the row |
| Ranking.Slice | src/models.py:57 | Python slicing `xs[lo:hi]`: its length, clipped at the end, and its elements |
| Ranking.TopAfterFirst | src/models.py:57 | `order[1:n+1]` has `min(n, len-1)` positions; none scores above `order[0]`; none scores below a left-out position |
| Ranking.StrictBestDropped | src/models.py:57 | a position strictly better than all others sorts first and is not kept |
| Ranking.ToMap | src/models.py:64 | `dict(zip(ids, scores))`: its keys are the pair keys, every entry comes from a pair, and it has at most as many entries as pairs |
| Ranking.ToMapDistinct | src/models.py:64 | with distinct keys, every pair appears in the map with its own score |
| Ranking.ToMapLastWins | src/models.py:64 | a key given more than once keeps the score of its last pair: its score comes from a pair after which the key does not occur again |
| Ranking.SortedIds | src/models.py:155-158 | the candidate set as a strictly increasing sequence with exactly its members |
| Content.FillMissing | src/models.py:21-24 | every row is filled, one for one, in place |
| Content.FillMissingKeepsRows | src/models.py:21-24 | filling keeps ids, names, present ratings and present genre, type and synopsis; a missing text field becomes the empty string and a missing rating becomes 0 |
| Content.Ranked | src/models.py:59-63 | one pair per kept position, in order: pair `k` is the id of the `k`-th kept row with that row's similarity |
| Content.DescendingOrderBounds | src/models.py:53-56 | the kept positions are rows of the catalog, each kept once |
| Content.Similar | src/models.py:41-64 | an unknown id gives `{}`; otherwise at most `top_n` entries |
| Content.SimilarEntries | src/models.py:41-64 | the returned ids are exactly the ids of the rows at kept positions of the query's own row: each returned id is such a row's id with that row's similarity, and each such row's id is returned |
| Content.KeptRowsAreKeys | src/models.py:59-64 | `dict(zip(rec_ids, scores))` has as keys exactly the ids of the kept rows, each with one kept row's score |
| Content.SimilarUniqueIds | src/models.py:41-64 | with unique ids, exactly `min(top_n, len-1)` entries, and each kept row's id maps to that row's own similarity |
| Content.DistinctRowsKeepScores | src/models.py:62-64 | distinct kept rows of a catalog with unique ids give a dictionary with one entry per row and that row's score |
| Content.SimilarSize | src/models.py:56-64 | never more than `top_n` entries; with unique ids exactly `min(top_n, len-1)` |
| Content.DroppedIsHighest | src/models.py:54-57 | the dropped first position has the highest similarity of the row |
| Content.SimilarBelowFirst | src/models.py:41-64 | no returned score is above the similarity of the dropped first position |
| Content.TopPositionsAreBest | src/models.py:54-57 | kept positions are `min(n, len-1)` in number and beat every left-out position other than the dropped one; ties favour the earlier catalog row |
| Content.QueryDroppedWhenStrictlyFirst | src/models.py:50-57 | when the query is strictly most similar to itself, its position is not kept |
| Content.ZeroVectorRecommendsItself | src/models.py:50-64 | with an all-zero similarity row the kept positions are 1 to `min(top_n, len-1)`; the query title is returned when its row is among positions 1 to `top_n`, and with unique ids only then |
| Content.ZeroVectorQueryKept | src/models.py:50-64 | with an all-zero similarity row and the query's row among positions 1 to `top_n`, the query title is returned |
| Content.ZeroVectorQueryInRange | src/models.py:50-64 | with an all-zero similarity row and unique ids, a returned query title has its row among positions 1 to `top_n` |
| Content.ConstantRowTop | src/models.py:53-56 | when every position scores the same, the kept positions are 1 to `min(top_n, len-1)` |
| Content.ThreePositionOrder | src/models.py:53-57 | in a three-title catalog with distinct similarities, the most similar position is dropped and the other two are kept, the more similar first, for any `top_n >= 2` |
| Content.LabelUsedAsPosition | src/models.py:43-50 | as written, the index label selects a matrix row: the wrong title's row is read, or an IndexError is raised |
| Content.PositionGivesOtherTitle | src/models.py:43-50 | by position, the same query is answered from its own row |
| Content.AsWrittenReadsLabelRow | src/models.py:43-50 | as written, a found query reads the similarity row its index label names, and raises IndexError when the label is past the end |
| Content.SimilarReadsPositionRow | src/models.py:43-50 | the corrected lookup reads the similarity row at the query's own position |
| Content.ContentRecommender.constructor | src/models.py:12-15 | holds the catalog, unfitted |
| Content.ContentRecommender.Fit | src/models.py:17-38 | fills missing fields of the shared catalog in place and stores the similarity matrix |
| Content.ContentRecommender.GetRecommendations | src/models.py:41-64 | unknown id gives `{}`; at most `top_n` entries; every key is a catalogued title; every kept row's id is a key; with unique ids exactly `min(top_n, len-1)` entries |
| Collaborative.ItemIds | src/models.py:82-85 | the pivot table's columns: exactly the rated ids, strictly increasing |
| Collaborative.IdToIndexSpec | src/models.py:95 | `anime_id_to_idx` maps exactly the item ids, each to its own index |
| Collaborative.IndexToIdSpec | src/models.py:96 | `idx_to_anime_id` maps exactly the indices `0..len-1`, each to its own id |
| Collaborative.IndexMapsAreInverse | src/models.py:95-96 | the two maps are mutual inverses in both directions |
| Collaborative.PositionOf | src/models.py:104 | the index of a known id holds that id |
| Collaborative.CorrelationOrder | src/models.py:110 | `argsort(row)[::-1]` orders every position by descending correlation |
| Collaborative.TopCorrelated | src/models.py:113 | `min(n, len-1)` distinct in-range positions |
| Collaborative.CorrelatedPairs | src/models.py:115-116 | the k-th pair is the id and correlation of the k-th kept position; ids are distinct |
| Collaborative.Correlated | src/models.py:100-118 | unknown id gives `{}`; otherwise exactly `min(top_n, len-1)` entries, each a known id |
| Collaborative.CorrelatedIsToMap | src/models.py:115-118 | the result is `dict(zip(rec_ids, scores))` over the query's own row |
| Collaborative.PairsKeepTop | src/models.py:113-118 | every kept position's id is returned with its correlation, and every returned id comes from a kept position |
| Collaborative.PairsBelowFirst | src/models.py:110-118 | no returned score exceeds the dropped first position's |
| Collaborative.PairsAboveLeftOut | src/models.py:110-118 | no returned score is below that of a left-out title other than the dropped one |
| Collaborative.CorrelatedEntries | src/models.py:100-118 | all of the above for the query's row: kept entries, their origin, and both score bounds |
| Collaborative.QueryDroppedWhenStrictlyFirst | src/models.py:107-113 | when the query correlates strictly best with itself, it is not returned |
| Collaborative.CollaborativeRecommender.constructor | src/models.py:68-72 | holds the ratings, unfitted |
| Collaborative.CollaborativeRecommender.Fit | src/models.py:74-96 | stores the correlation matrix and builds both index maps over the pivot's item ids |
| Collaborative.CollaborativeRecommender.FittedMaps | src/models.py:95-96 | after fitting, the maps cover exactly the rated ids and are mutual inverses |
| Collaborative.CollaborativeRecommender.GetRecommendations | src/models.py:100-118 | an id not in `anime_id_to_idx` gives `{}`; otherwise exactly `min(top_n, items-1)` entries, each a known id |
| Hybrid.BestMatch | src/models.py:134-141 | no result iff no row matches; otherwise a matching row rated at least as high as every matching row |
| Hybrid.Resolve | src/models.py:134-143 | not found iff no name contains the query case-insensitively; otherwise a matching title with a maximal rating |
| Hybrid.BoostOnlyAboveThreshold | src/models.py:172-178 | ×1.1 iff the rating is a number strictly above 8.0; 8.0, missing and non-numeric ratings leave the score unchanged |
| Hybrid.Scored | src/models.py:155-184 | at most one entry per candidate, every entry's id is a candidate, and distinct candidate ids (`all_ids` is a set) give entries with distinct ids |
| Hybrid.ScoredEntries | src/models.py:155-184 | every entry is a catalogued candidate scored `c*w_content + cl*w_collab` (missing as 0) and then boosted; every catalogued candidate gets an entry |
| Hybrid.Candidates | src/models.py:155 | exactly the union of both maps' keys, in increasing order |
| Hybrid.SuppressedInIntegers | src/models.py:206-208 | `overlap > 0.6` iff both token sets are non-empty and 5·\|T∩R\| > 3·\|T\| |
| Hybrid.RowOf | src/models.py:199 | the row found carries the candidate's id |
| Hybrid.Emit | src/models.py:195-219 | at most `top_k` results, and no more than there are candidates |
| Hybrid.EmitSound | src/models.py:195-219 | every result is a scored candidate built from its row, and none is a suspected sequel |
| Hybrid.EmitBounded | src/models.py:211-219 | results never score above a bound that holds for every candidate |
| Hybrid.EmitKeepsOrder | src/models.py:187-219 | from a descending list, the results' scores are non-increasing |
| Hybrid.EmitWithoutTargetTokens | src/models.py:206 | a target without tokens suppresses nothing: the first `min(top_k, n)` candidates, in order |
| Hybrid.NonSequels | src/models.py:195-209 | the scored titles that are not suspected sequels, in order: a pair is kept iff it was scored and is not a suspected sequel |
| Hybrid.ToRecommendations | src/models.py:211-219 | one result dictionary per scored title, in order, each built from that title's row and score |
| Hybrid.FirstNonSequels | src/models.py:192-209 | the first `top_k` titles that are not suspected sequels, or all of them when there are fewer |
| Hybrid.EmitIsFirstNonSequels | src/models.py:192-219 | the emission is exactly the results for the first `top_k` titles that are not suspected sequels, in order |
| Hybrid.SkipUnfolds | src/models.py:206-209 | a suspected sequel at the head is neither emitted nor counted towards `top_k`: both the emission and the first non-sequels are those of the rest |
| Hybrid.KeepUnfolds | src/models.py:192-219 | a kept head is emitted first, followed by the emission of `top_k - 1` from the rest, and the same holds of the results for the first non-sequels |
| Hybrid.NonSequelsNonIncreasing | src/models.py:187-209 | filtering suspected sequels out of a descending list keeps it descending |
| Hybrid.EmitComplete | src/models.py:195-209 | if fewer than `top_k` are returned, every candidate that is not a sequel is returned |
| Hybrid.Ranked | src/models.py:186-187 | a non-increasing permutation of the scored candidates, each with a catalog row |
| Hybrid.RecommendFrom | src/models.py:186-219 | at most `top_k` results |
| Hybrid.RecommendFromProperties | src/models.py:131-221 | results are in non-increasing score order, none is a sequel of the target, each is a candidate with its blended and boosted score, and all `min(top_k, n)` appear when the target has no tokens |
| Hybrid.RecommendFromIsBestNonSequels | src/models.py:186-219 | the results are the first `top_k` non-sequels of the sorted scores, and no non-sequel left out for lack of room scores above a returned one |
| Hybrid.ScoredStep | src/models.py:158-184 | one loop pass appends the candidate's entry, or nothing when it has no row |
| Hybrid.ScoreCandidate | src/models.py:159-184 | computes the entry for one candidate: skipped without a row, else blended and boosted |
| Hybrid.MergeScores | src/models.py:156-184 | the loop builds exactly the scored list over the candidates |
| Hybrid.IsSequel | src/models.py:203-209 | the overlap test is true iff the candidate is a suspected sequel |
| Hybrid.EmitOne | src/models.py:195-219 | one loop pass keeps the emitted prefix plus what remains equal to the whole emission |
| Hybrid.EmitResults | src/models.py:190-219 | the loop with `break` and `continue` produces exactly the emission |
| Hybrid.HybridRecommender.constructor | src/models.py:122-125 | builds both engines, unfitted, over the catalog and ratings |
| Hybrid.HybridRecommender.Fit | src/models.py:127-129 | fits both engines; the content engine's catalog is filled in place |
| Hybrid.HybridRecommender.Recommend | src/models.py:131-221 | not found gives `[]` and the exact message; otherwise the resolved title's name and the emission over both engines' top-50 maps; weights default to 0.4/0.6 and `top_k` to 3 |
| DataLoader.Positions | src/data_loader.py:119-124 | the selected positions: all and only the true mask entries, strictly increasing |
| DataLoader.Select | src/data_loader.py:119-124 | boolean indexing only removes rows and keeps the order of the rest |
| DataLoader.SelectMembers | src/data_loader.py:119-124 | a row survives iff it sits at a selected position |
| DataLoader.FirstOccurrences | src/data_loader.py:53 | a row is marked iff no earlier row has its id |
| DataLoader.DedupeUnique | src/data_loader.py:53 | after `drop_duplicates(subset=['anime_id'])` ids are unique |
| DataLoader.DedupeKeepsFirst | src/data_loader.py:53 | every kept row is the first row with its id |
| DataLoader.DedupeKeepsIds | src/data_loader.py:53 | no id is lost by deduplication |
| DataLoader.Named | src/data_loader.py:54 | a row is marked iff its name is present |
| DataLoader.ToAnime | src/data_loader.py:54 | a named raw row becomes a catalog row with the same label, id, name, genre, type, synopsis, rating, episodes and image |
| DataLoader.CleanCatalogUnique | src/data_loader.py:52-54 | catalog ids are unique |
| DataLoader.CleanCatalogFromFirstRows | src/data_loader.py:52-54 | every catalog row is the first raw row of its id, and that row has a name |
| DataLoader.CatalogSource | src/data_loader.py:52-54 | catalog row `k` is built from a named raw row that is the first of its id |
| DataLoader.CleanCatalogKeepsOrder | src/data_loader.py:52-54 | later catalog rows come from later raw rows: cleaning keeps the raw order |
| DataLoader.CleanCatalogKeepsNamedFirstRows | src/data_loader.py:52-54 | the first raw row of every id is kept when it has a name, as the source of some catalog row |
| DataLoader.NamelessFirstRowLosesTitle | src/data_loader.py:52-54 | dedupe before dropna: a title whose first row is nameless is lost |
| DataLoader.PositiveMask | src/data_loader.py:96 | a rating is marked iff `my_score > 0` |
| DataLoader.PositiveMembers | src/data_loader.py:96 | a rating survives the chunk filter iff it is in the chunk and positive |
| DataLoader.KeptChunks | src/data_loader.py:94-97 | each chunk, filtered to positive ratings |
| DataLoader.Concat | src/data_loader.py:102 | `pd.concat` has as many rows as the chunks together |
| DataLoader.ConcatMembers | src/data_loader.py:102 | a rating is in the concatenation iff it is in one of the chunks |
| DataLoader.ChunksRead | src/data_loader.py:91-100 | the number of chunks the loop reads is within the remaining chunks |
| DataLoader.ChunksReadStops | src/data_loader.py:91-100 | the loop continues while the running count is below 2,000,000 and stops at the first chunk that reaches it |
| DataLoader.ChunkLoopBounds | src/data_loader.py:91-100 | before each chunk read the count is below the limit; stopping early means the limit was reached; the total is below the limit plus the last chunk |
| DataLoader.OvershootBelowOneChunk | src/data_loader.py:80-100 | with chunks of at most 500,000 rows, fewer than 2,500,000 ratings are collected |
| DataLoader.CollectedArePositive | src/data_loader.py:96-102 | every collected rating has a positive score |
| DataLoader.CollectRatings | src/data_loader.py:89-102 | the loop collects exactly the filtered chunks up to and including the one that reaches the limit; no chunks gives no table |
| DataLoader.KeepCataloguedMembers | src/data_loader.py:119 | a rating survives iff it is in the input and its title is in the catalog |
| DataLoader.CountOf | src/data_loader.py:122 | a user's count is at most the table's length |
| DataLoader.CountPositive | src/data_loader.py:122 | a user with a rating in the table has a positive count |
| DataLoader.ActiveMask | src/data_loader.py:122-124 | a rating is marked iff its user has at least 10 ratings |
| DataLoader.CountSelectAll | src/data_loader.py:124 | a filter that keeps all of a user's rows keeps that user's count |
| DataLoader.ActiveUsersKept | src/data_loader.py:121-124 | a rating survives iff its user has at least 10 ratings, and every user left still has at least 10 |
| DataLoader.CleanRatingsProperties | src/data_loader.py:117-124 | after cleanup: every rating is an input rating of a catalogued title, every user has at least 10 ratings, and no rating of an active user's catalogued title is lost |
| DataLoader.ProcessRawData | src/data_loader.py:52-124 | the cleaned catalog and the cleaned ratings of the collected chunks; no chunks gives no result |
| DataLoader.ProcessedTablesAgree | src/data_loader.py:52-124 | every cleaned rating is of a catalogued title, is positive, and its user has at least 10 ratings |

## Left out

- TF-IDF vectorisation, cosine similarity, TruncatedSVD and `np.corrcoef` (src/models.py:34-35, 50, 88-92) are library numerics. The similarity and correlation matrices are parameters of `Fit`. The text "soup" (src/models.py:28-32) only feeds the vectoriser and is not modelled.
- `ContentRecommender.indices` (src/models.py:38) is never read by the core and is not modelled.
- Floating-point rounding: scores, weights, 1.1 and 0.6 are exact reals.
- All file access: pickle caching, CSV reading, path checks, the fallback CSV files, `FileNotFoundError`, and the renaming of columns (src/data_loader.py:17-50, 62-79, 104-115, 129-130). The loader's inputs are in-memory tables: raw catalog rows, and the rating file's chunks in order. `print` logging is left out.
- `pd.concat` of no chunks raises an error. Here it is the `None` result of `CollectRatings` and `ProcessRawData`.
- The commented-out popularity penalty (src/models.py:180-182) is not code.
- `src/ui_components.py` and `app.py` are presentation and are not part of this model.
- Text handling is ASCII only: case mapping and `\w` do not cover non-ASCII letters or digits.
- Hybrid.Resolve: pandas `sort_values` is not stable, so the source leaves open which of several equally rated matches is chosen. The model picks the first in catalog order, and its contract promises only a maximal rating. The model compares numeric ratings as numbers and puts the others after them. When the rating column holds text (a file with `UNKNOWN` scores), pandas compares the ratings as strings instead; that ordering is not modelled.
- Hybrid.Candidates: Python iterates the set of candidate ids in hash order. The model uses ascending id order. This fixes only the order of equal scores after the stable sort.
- Collaborative.CorrelationOrder: `np.argsort` does not fix the order of equal correlations. The model uses a stable ascending order, reversed, and its contract promises only a descending order.
- Hybrid.HybridRecommender.Recommend: `weights` is a record with both fields, so a missing `'content'` or `'collab'` key (a `KeyError`) cannot occur. `top_k` is a natural number; a negative `top_k` returns `[]` exactly like 0.
- Content.ContentRecommender.GetRecommendations: finds the query's similarity row by the query row's position, the corrected lookup of the finding below. This agrees with the code as written only when index labels equal positions, which holds before cleanup drops any row. `Content.SimilarAsWritten` models the lookup by label as written. A title id repeated in the catalog would let `dict(zip(...))` keep the later score (`Ranking.ToMapLastWins`), so the exact size and scores are promised for unique ids only. The cleaned catalog has unique ids (`CleanCatalogUnique`).
- Content.Similar: the same corrected lookup by position as `GetRecommendations`, agreeing with the code only when labels equal positions; `Content.SimilarAsWritten` is the code as written. Its own contract states only the empty result and the bound. `SimilarEntries`, `SimilarUniqueIds` and `SimilarSize` state the entries and the size.

## Findings

| source | as written | input that shows it | evidently intended | confidence | as-written member | corrected member |
|---|---|---|---|---|---|---|
| src/models.py:43-50 | the pandas index label of the query row selects a row position of the TF-IDF matrix | cleanup drops raw row 0, so labels are 1, 2 and 3 and positions are 0, 1 and 2; ids 10, 20 and 30 with similarities [[1, 0.2, 0.1], [0.2, 1, 0.3], [0.1, 0.3, 1]] (three titles, so `min_df=3` can keep a term they share): asking for 10 reads 20's row and recommends 30 and 10 itself, and asking for 30 raises IndexError | the query row's own position selects the similarity row | not executed | Content.LabelUsedAsPosition | Content.SimilarEntries |
