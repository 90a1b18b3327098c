/**
 * The tables the recommender works on: catalog rows (one per title) and
 * user ratings, as the data loader leaves them.
 */
module Catalog {
  import opened Wrappers

  /**
   * A title's quality score as stored in the catalog: missing (NaN), a
   * number, or text that is not a number (such as "UNKNOWN").
   */
  datatype Rating = Missing | Numeric(value: real) | NonNumeric

  /**
   * The score as a number, where `float(rating)` gives one that compares:
   * text raises and NaN compares false with everything, so both are None.
   */
  function ParseRating(r: Rating): (v: Option<real>)
    ensures v.Some? <==> r.Numeric?
    ensures v.Some? ==> v.value == r.value
  {
    match r
    case Numeric(x) => Some(x)
    case _ => None
  }

  /** One catalog row. `indexLabel` is the pandas index label the row was read with. */
  datatype Anime = Anime(
    indexLabel: nat,
    animeId: int,
    name: string,
    genre: Option<string>,
    kind: Option<string>,
    synopsis: Option<string>,
    rating: Rating,
    episodes: string,
    imageUrl: Option<string>)

  /** One rating of a title by a user. */
  datatype Interaction = Interaction(userId: int, animeId: int, rating: int)

  /** Some row of `rows` has id `id`. */
  ghost predicate HasRow(rows: seq<Anime>, id: int)
  {
    exists i :: 0 <= i < |rows| && rows[i].animeId == id
  }

  /**
   * The position of the first row with id `id`: what
   * `df[df['anime_id'] == id].iloc[0]` selects.
   */
  function FirstRow(rows: seq<Anime>, id: int): (r: Option<nat>)
    ensures r.None? <==> !HasRow(rows, id)
    ensures r.Some? ==> r.value < |rows| && rows[r.value].animeId == id
    ensures r.Some? ==> forall i :: 0 <= i < r.value ==> rows[i].animeId != id
  {
    if rows == [] then
      None
    else if rows[0].animeId == id then
      Some(0)
    else
      match FirstRow(rows[1..], id)
      case None =>
        assert forall i :: 1 <= i < |rows| ==> rows[i] == rows[1..][i - 1];
        None
      case Some(k) =>
        assert rows[1..][k] == rows[k + 1];
        Some(k + 1)
  }

  /** No two rows share an id. */
  ghost predicate UniqueIds(rows: seq<Anime>)
  {
    forall i, j :: 0 <= i < j < |rows| ==> rows[i].animeId != rows[j].animeId
  }

  /** `m` has `n` rows of `n` entries each. */
  ghost predicate IsSquare(m: seq<seq<real>>, n: nat)
  {
    |m| == n && forall i :: 0 <= i < |m| ==> |m[i]| == n
  }
}
