/**
 * The cleaning steps of `DataLoader._process_raw_data`, on in-memory
 * tables: the catalog is deduplicated by id and rows without a name are
 * dropped; ratings are read chunk by chunk, keeping positive scores, until
 * two million have been kept; then only ratings of catalogued titles by
 * users with at least ten of them are kept.
 *
 * Every pandas filter `df[mask]` is `Select(rows, mask)`: the rows at the
 * positions where the mask is true, in their original order.
 */
module DataLoader {
  import opened Wrappers
  import opened Catalog

  /** `limit_rows`: the chunk loop stops once this many ratings are kept. */
  const RowLimit: nat := 2_000_000

  /** `chunk_size` of the chunked CSV reader. */
  const ChunkSize: nat := 500_000

  /** Users with fewer ratings than this are dropped. */
  const MinRatings: nat := 10

  /** A catalog row as read from the CSV, before cleaning: the name may be null. */
  datatype RawAnime = RawAnime(
    indexLabel: nat,
    animeId: int,
    name: Option<string>,
    genre: Option<string>,
    kind: Option<string>,
    synopsis: Option<string>,
    rating: Rating,
    episodes: string,
    imageUrl: Option<string>)

  // ---------------------------------------------------------------------
  // Boolean-mask selection
  // ---------------------------------------------------------------------

  /** The positions where `mask` is true, in increasing order. */
  function Positions(mask: seq<bool>): (ps: seq<nat>)
    ensures |ps| <= |mask|
    ensures forall k :: 0 <= k < |ps| ==> ps[k] < |mask| && mask[ps[k]]
    ensures forall i :: 0 <= i < |mask| && mask[i] ==> i in ps
    ensures forall k, l :: 0 <= k < l < |ps| ==> ps[k] < ps[l]
  {
    if mask == [] then
      []
    else
      var init := Positions(mask[..|mask| - 1]);
      if mask[|mask| - 1] then init + [|mask| - 1] else init
  }

  /**
   * `df[mask]`: the rows at the true positions of the mask, so the rows
   * kept are exactly those the mask selects, in their original order.
   */
  function Select<T>(rows: seq<T>, mask: seq<bool>): (r: seq<T>)
    requires |mask| == |rows|
    ensures |r| == |Positions(mask)|
    ensures forall k :: 0 <= k < |r| ==> r[k] == rows[Positions(mask)[k]]
  {
    var ps := Positions(mask);
    seq(|ps|, k requires 0 <= k < |ps| => rows[ps[k]])
  }

  /** Selecting over one more row adds that row at the end when the mask keeps it. */
  lemma {:induction false} SelectSnoc<T>(rows: seq<T>, mask: seq<bool>)
    requires |mask| == |rows| && rows != []
    ensures var s := Select(rows[..|rows| - 1], mask[..|mask| - 1]);
      Select(rows, mask) == if mask[|mask| - 1] then s + [rows[|rows| - 1]] else s
  {
    var init := rows[..|rows| - 1];
    var s := Select(init, mask[..|mask| - 1]);
    var ps := Positions(mask[..|mask| - 1]);
    assert forall k :: 0 <= k < |ps| ==> rows[ps[k]] == init[ps[k]];
  }

  /** A value is kept by a selection iff it sits at a position the mask selects. */
  lemma {:induction false} SelectMembers<T>(rows: seq<T>, mask: seq<bool>, x: T)
    requires |mask| == |rows|
    ensures x in Select(rows, mask) <==> exists i :: 0 <= i < |rows| && mask[i] && rows[i] == x
  {
    var r := Select(rows, mask);
    var ps := Positions(mask);
    if x in r {
      var k :| 0 <= k < |r| && r[k] == x;
      assert mask[ps[k]] && rows[ps[k]] == x;
    }
    if exists i :: 0 <= i < |rows| && mask[i] && rows[i] == x {
      var i :| 0 <= i < |rows| && mask[i] && rows[i] == x;
      assert i in ps;
      var k :| 0 <= k < |ps| && ps[k] == i;
      assert r[k] == x;
    }
  }

  // ---------------------------------------------------------------------
  // Catalog: drop_duplicates(subset=['anime_id']) and dropna(subset=['name'])
  // ---------------------------------------------------------------------

  function IdsOf(rows: seq<RawAnime>): set<int>
  {
    set r | r in rows :: r.animeId
  }

  /** Row `i` is the first row of `rows` with its id. */
  ghost predicate IsFirstOfId(rows: seq<RawAnime>, i: int)
    requires 0 <= i < |rows|
  {
    forall j :: 0 <= j < i ==> rows[j].animeId != rows[i].animeId
  }

  /** `~duplicated(subset=['anime_id'])`: true exactly at the first row of each id. */
  function FirstOccurrences(rows: seq<RawAnime>): (mask: seq<bool>)
    ensures |mask| == |rows|
    ensures forall i :: 0 <= i < |rows| ==> (mask[i] <==> IsFirstOfId(rows, i))
  {
    var mask := seq(|rows|, i requires 0 <= i < |rows| => rows[i].animeId !in IdsOf(rows[..i]));
    forall i | 0 <= i < |rows|
      ensures mask[i] <==> IsFirstOfId(rows, i)
    {
      if !mask[i] {
        var r :| r in rows[..i] && r.animeId == rows[i].animeId;
        var j :| 0 <= j < i && rows[..i][j] == r;
        assert rows[j].animeId == rows[i].animeId;
      }
    }
    mask
  }

  /** `drop_duplicates(subset=['anime_id'])`, keeping the first row of each id. */
  function Dedupe(rows: seq<RawAnime>): seq<RawAnime>
  {
    Select(rows, FirstOccurrences(rows))
  }

  /** The earliest row with a given id. */
  lemma {:induction false} FirstWithId(rows: seq<RawAnime>, id: int) returns (i: nat)
    requires id in IdsOf(rows)
    ensures i < |rows| && rows[i].animeId == id && IsFirstOfId(rows, i)
  {
    var init := rows[..|rows| - 1];
    if id in IdsOf(init) {
      i := FirstWithId(init, id);
      assert rows[i] == init[i];
      assert forall j :: 0 <= j < i ==> rows[j] == init[j];
    } else {
      i := |rows| - 1;
      forall j | 0 <= j < i
        ensures rows[j].animeId != id
      {
        assert rows[j] == init[j] && init[j] in init;
      }
    }
  }

  /** After deduplication ids are unique. */
  lemma {:induction false} DedupeUnique(rows: seq<RawAnime>)
    ensures var r := Dedupe(rows);
      forall k, l :: 0 <= k < l < |r| ==> r[k].animeId != r[l].animeId
  {
    var mask := FirstOccurrences(rows);
    var r := Dedupe(rows);
    var ps := Positions(mask);
    forall k, l | 0 <= k < l < |r|
      ensures r[k].animeId != r[l].animeId
    {
      assert ps[k] < ps[l] && IsFirstOfId(rows, ps[l]);
    }
  }

  /** Each row kept by deduplication is the first row of the input with its id. */
  lemma {:induction false} DedupeKeepsFirst(rows: seq<RawAnime>, k: nat) returns (i: nat)
    requires k < |Dedupe(rows)|
    ensures i < |rows| && rows[i] == Dedupe(rows)[k] && IsFirstOfId(rows, i)
  {
    var mask := FirstOccurrences(rows);
    i := Positions(mask)[k];
  }

  /** Deduplication loses no id. */
  lemma {:induction false} DedupeKeepsIds(rows: seq<RawAnime>)
    ensures IdsOf(Dedupe(rows)) == IdsOf(rows)
  {
    var mask := FirstOccurrences(rows);
    var r := Dedupe(rows);
    forall id | id in IdsOf(rows)
      ensures id in IdsOf(r)
    {
      var i := FirstWithId(rows, id);
      SelectMembers(rows, mask, rows[i]);
    }
    forall id | id in IdsOf(r)
      ensures id in IdsOf(rows)
    {
      var x :| x in r && x.animeId == id;
      SelectMembers(rows, mask, x);
    }
  }

  /** `notna()` on the name column. */
  function Named(rows: seq<RawAnime>): (mask: seq<bool>)
    ensures |mask| == |rows|
    ensures forall i :: 0 <= i < |rows| ==> (mask[i] <==> rows[i].name.Some?)
  {
    seq(|rows|, i requires 0 <= i < |rows| => rows[i].name.Some?)
  }

  /** A raw row whose name is present, as a catalog row. */
  function ToAnime(raw: RawAnime): (a: Anime)
    requires raw.name.Some?
    ensures a.indexLabel == raw.indexLabel && a.animeId == raw.animeId && a.name == raw.name.value
    ensures a.rating == raw.rating && a.synopsis == raw.synopsis
    ensures a.genre == raw.genre && a.kind == raw.kind && a.episodes == raw.episodes && a.imageUrl == raw.imageUrl
  {
    Anime(raw.indexLabel, raw.animeId, raw.name.value, raw.genre, raw.kind, raw.synopsis,
          raw.rating, raw.episodes, raw.imageUrl)
  }

  /** The catalog after `drop_duplicates` and then `dropna(subset=['name'])`. */
  function CleanCatalog(raw: seq<RawAnime>): (catalog: seq<Anime>)
  {
    var deduped := Dedupe(raw);
    var named := Select(deduped, Named(deduped));
    seq(|named|, k requires 0 <= k < |named| => (SelectNamed(deduped, k); ToAnime(named[k])))
  }

  /** Row `k` of the name filter is the named row at its `k`-th selected position. */
  lemma {:induction false} SelectNamed(rows: seq<RawAnime>, k: nat)
    requires k < |Select(rows, Named(rows))|
    ensures var p := Positions(Named(rows))[k];
      p < |rows| && Select(rows, Named(rows))[k] == rows[p] && rows[p].name.Some?
  {
  }

  /** The cleaned catalog has unique ids. */
  lemma {:induction false} CleanCatalogUnique(raw: seq<RawAnime>)
    ensures UniqueIds(CleanCatalog(raw))
  {
    var deduped := Dedupe(raw);
    var ps := Positions(Named(deduped));
    var catalog := CleanCatalog(raw);
    DedupeUnique(raw);
    forall k, l | 0 <= k < l < |catalog|
      ensures catalog[k].animeId != catalog[l].animeId
    {
      SelectNamed(deduped, k);
      SelectNamed(deduped, l);
      assert ps[k] < ps[l];
    }
  }

  /**
   * Every row of the cleaned catalog is the first raw row of its id, and
   * that row has a name.
   */
  lemma {:induction false} CleanCatalogFromFirstRows(raw: seq<RawAnime>, k: nat) returns (i: nat)
    requires k < |CleanCatalog(raw)|
    ensures i < |raw| && raw[i].name.Some? && CleanCatalog(raw)[k] == ToAnime(raw[i]) && IsFirstOfId(raw, i)
  {
    var deduped := Dedupe(raw);
    SelectNamed(deduped, k);
    var d := Positions(Named(deduped))[k];
    i := DedupeKeepsFirst(raw, d);
  }

  /**
   * The raw row that catalog row `k` comes from: the first raw row of its
   * id, which has a name.
   */
  function CatalogSource(raw: seq<RawAnime>, k: nat): (i: nat)
    requires k < |CleanCatalog(raw)|
    ensures i < |raw| && raw[i].name.Some? && CleanCatalog(raw)[k] == ToAnime(raw[i]) && IsFirstOfId(raw, i)
  {
    var deduped := Dedupe(raw);
    SelectNamed(deduped, k);
    Positions(FirstOccurrences(raw))[Positions(Named(deduped))[k]]
  }

  /** Cleaning keeps the raw order: later catalog rows come from later raw rows. */
  lemma {:induction false} CleanCatalogKeepsOrder(raw: seq<RawAnime>, k: nat, l: nat)
    requires k < l < |CleanCatalog(raw)|
    ensures CatalogSource(raw, k) < CatalogSource(raw, l)
  {
    var deduped := Dedupe(raw);
    var ps := Positions(Named(deduped));
    SelectNamed(deduped, l);
    assert ps[k] < ps[l];
  }

  /**
   * Completeness: the first raw row of an id is kept when it has a name,
   * and it is the source of some catalog row.
   */
  lemma {:induction false} CleanCatalogKeepsNamedFirstRows(raw: seq<RawAnime>, i: nat)
    requires i < |raw| && raw[i].name.Some? && IsFirstOfId(raw, i)
    ensures ToAnime(raw[i]) in CleanCatalog(raw)
    ensures exists k :: 0 <= k < |CleanCatalog(raw)| && CatalogSource(raw, k) == i
  {
    var firsts := Positions(FirstOccurrences(raw));
    var deduped := Dedupe(raw);
    assert i in firsts;
    var d :| 0 <= d < |firsts| && firsts[d] == i;
    assert deduped[d] == raw[i];
    var named := Positions(Named(deduped));
    assert d in named;
    var k :| 0 <= k < |named| && named[k] == d;
    assert CatalogSource(raw, k) == i;
  }

  /**
   * Deduplication runs before the null-name drop: a title whose first row
   * has no name is dropped entirely, even when a later row with the same
   * id has one.
   */
  lemma {:induction false} NamelessFirstRowLosesTitle()
    ensures var first := RawAnime(0, 7, None, None, None, None, Missing, "", None);
      var second := RawAnime(1, 7, Some("Seven"), None, None, None, Missing, "", None);
      CleanCatalog([first, second]) == []
  {
    var first := RawAnime(0, 7, None, None, None, None, Missing, "", None);
    var second := RawAnime(1, 7, Some("Seven"), None, None, None, Missing, "", None);
    var raw := [first, second];
    var mask := FirstOccurrences(raw);
    assert IsFirstOfId(raw, 0) && !IsFirstOfId(raw, 1);
    assert mask == [true, false];
    assert mask[..1] == [true] && [true][..0] == [];
    assert Positions(mask) == [0];
    var deduped := Dedupe(raw);
    assert deduped == [first];
    assert Named(deduped) == [false] && [false][..0] == [];
    assert Positions(Named(deduped)) == [];
  }

  // ---------------------------------------------------------------------
  // Ratings: the chunk loop
  // ---------------------------------------------------------------------

  /** `chunk[chunk['my_score'] > 0]` */
  function PositiveMask(chunk: seq<Interaction>): (mask: seq<bool>)
    ensures |mask| == |chunk|
    ensures forall i :: 0 <= i < |chunk| ==> (mask[i] <==> chunk[i].rating > 0)
  {
    seq(|chunk|, i requires 0 <= i < |chunk| => chunk[i].rating > 0)
  }

  function Positive(chunk: seq<Interaction>): seq<Interaction>
  {
    Select(chunk, PositiveMask(chunk))
  }

  /** A rating survives the chunk filter iff it is in the chunk and its score is positive. */
  lemma {:induction false} PositiveMembers(chunk: seq<Interaction>, x: Interaction)
    ensures x in Positive(chunk) <==> x in chunk && x.rating > 0
  {
    var mask := PositiveMask(chunk);
    SelectMembers(chunk, mask, x);
    if x in chunk && x.rating > 0 {
      var i :| 0 <= i < |chunk| && chunk[i] == x;
      assert mask[i];
    }
  }

  /** Each chunk with its non-positive scores removed. */
  function KeptChunks(chunks: seq<seq<Interaction>>): (kept: seq<seq<Interaction>>)
    ensures |kept| == |chunks|
    ensures forall i :: 0 <= i < |chunks| ==> kept[i] == Positive(chunks[i])
  {
    seq(|chunks|, i requires 0 <= i < |chunks| => Positive(chunks[i]))
  }

  /** The number of rows in a list of tables. */
  function Total(css: seq<seq<Interaction>>): nat
  {
    if css == [] then 0 else Total(css[..|css| - 1]) + |css[|css| - 1]|
  }

  /** `pd.concat(chunks)`: the tables one after another. */
  function Concat(css: seq<seq<Interaction>>): (r: seq<Interaction>)
    ensures |r| == Total(css)
  {
    if css == [] then [] else Concat(css[..|css| - 1]) + css[|css| - 1]
  }

  /** A row of a concatenation comes from one of its tables, and every table's rows are in it. */
  lemma {:induction false} ConcatMembers(css: seq<seq<Interaction>>, x: Interaction)
    ensures x in Concat(css) <==> exists c :: c in css && x in c
  {
    if css != [] {
      var init := css[..|css| - 1];
      ConcatMembers(init, x);
      if x in Concat(css) && x !in css[|css| - 1] {
        var c :| c in init && x in c;
        assert c in css;
      }
      if exists c :: c in css && x in c {
        var c :| c in css && x in c;
        if c != css[|css| - 1] {
          var i :| 0 <= i < |css| && css[i] == c;
          assert c == init[i];
        }
      }
    }
  }

  /**
   * How many chunks the loop has read when it ends, if it is about to read
   * chunk `i` with `processed` rows counted so far: it reads a chunk, adds
   * its kept rows, and stops once the count reaches the limit or the
   * chunks run out.
   */
  function ChunksRead(kept: seq<seq<Interaction>>, i: nat, processed: nat): (n: nat)
    requires i <= |kept|
    ensures i <= n <= |kept|
    decreases |kept| - i
  {
    if i == |kept| then i
    else if processed + |kept[i]| >= RowLimit then i + 1
    else ChunksRead(kept, i + 1, processed + |kept[i]|)
  }

  /**
   * The loop's stopping rule: before its last chunk the count was below
   * the limit, and it stops before the end only once the count has
   * reached the limit.
   */
  lemma {:induction false} ChunksReadStops(kept: seq<seq<Interaction>>, i: nat, processed: nat)
    requires i <= |kept| && processed == Total(kept[..i]) && processed < RowLimit
    ensures var n := ChunksRead(kept, i, processed);
      (forall m :: i <= m < n ==> Total(kept[..m]) < RowLimit)
      && (n < |kept| ==> Total(kept[..n]) >= RowLimit)
    decreases |kept| - i
  {
    if i < |kept| {
      assert kept[..i + 1][..i] == kept[..i];
      if processed + |kept[i]| < RowLimit {
        ChunksReadStops(kept, i + 1, processed + |kept[i]|);
      }
    }
  }

  /**
   * What the chunk loop keeps: the first `n` filtered chunks whole, where
   * every chunk before the `n`-th left the count below two million, the
   * loop stopped early only at or past two million, and the total
   * overshoots the limit by less than the last chunk's kept rows; every
   * kept rating has a positive score.
   */
  lemma {:induction false} ChunkLoopBounds(chunks: seq<seq<Interaction>>)
    ensures var kept := KeptChunks(chunks);
      var n := ChunksRead(kept, 0, 0);
      (forall m :: 0 <= m < n ==> Total(kept[..m]) < RowLimit)
      && (n < |kept| ==> Total(kept[..n]) >= RowLimit)
      && (n > 0 ==> Total(kept[..n]) < RowLimit + |kept[n - 1]|)
  {
    var kept := KeptChunks(chunks);
    var n := ChunksRead(kept, 0, 0);
    assert kept[..0] == [];
    ChunksReadStops(kept, 0, 0);
    if n > 0 {
      assert kept[..n][..n - 1] == kept[..n - 1];
    }
  }

  /** Every rating the chunk loop keeps has a positive score. */
  lemma {:induction false} CollectedArePositive(chunks: seq<seq<Interaction>>, n: nat)
    requires n <= |chunks|
    ensures forall x :: x in Concat(KeptChunks(chunks)[..n]) ==> x.rating > 0
  {
    var kept := KeptChunks(chunks);
    forall x | x in Concat(kept[..n])
      ensures x.rating > 0
    {
      ConcatMembers(kept[..n], x);
      var c :| c in kept[..n] && x in c;
      var i :| 0 <= i < n && kept[..n][i] == c;
      PositiveMembers(chunks[i], x);
    }
  }

  /** Chunks of at most `chunk_size` rows overshoot the limit by less than one chunk. */
  lemma {:induction false} OvershootBelowOneChunk(chunks: seq<seq<Interaction>>)
    requires forall i :: 0 <= i < |chunks| ==> |chunks[i]| <= ChunkSize
    ensures var kept := KeptChunks(chunks);
      Total(kept[..ChunksRead(kept, 0, 0)]) < RowLimit + ChunkSize
  {
    var kept := KeptChunks(chunks);
    var n := ChunksRead(kept, 0, 0);
    ChunkLoopBounds(chunks);
    if n > 0 {
      assert |Positive(chunks[n - 1])| <= |chunks[n - 1]|;
    } else {
      assert kept[..0] == [];
    }
  }

  /** Reading one more chunk adds its rows to the collected chunks and to the count. */
  lemma {:induction false} CollectStep(kept: seq<seq<Interaction>>, i: nat, collected: seq<seq<Interaction>>)
    requires i < |kept| && collected == kept[..i]
    ensures collected + [kept[i]] == kept[..i + 1]
    ensures Total(kept[..i + 1]) == Total(collected) + |kept[i]|
  {
    assert kept[..i + 1][..i] == kept[..i];
  }

  /**
   * The number of chunks read is `n` when the count stayed below the
   * limit before each of the first `n` chunks and either the chunks ran
   * out or the `n`-th chunk brought the count to the limit.
   */
  lemma {:induction false} ChunksReadIs(kept: seq<seq<Interaction>>, i: nat, processed: nat, n: nat)
    requires i <= n <= |kept| && processed == Total(kept[..i])
    requires i < n ==> Total(kept[..n - 1]) < RowLimit
    requires n == |kept| || (i < n && Total(kept[..n]) >= RowLimit)
    ensures ChunksRead(kept, i, processed) == n
    decreases |kept| - i
  {
    if i < |kept| {
      CollectStep(kept, i, kept[..i]);
      if processed + |kept[i]| < RowLimit {
        ChunksReadIs(kept, i + 1, processed + |kept[i]|, n);
      } else if i + 1 < n {
        TotalMonotone(kept, i + 1, n - 1);
      }
    }
  }

  /** Counts of longer prefixes are no smaller. */
  lemma {:induction false} TotalMonotone(kept: seq<seq<Interaction>>, m: nat, n: nat)
    requires m <= n <= |kept|
    ensures Total(kept[..m]) <= Total(kept[..n])
    decreases n - m
  {
    if m < n {
      CollectStep(kept, n - 1, kept[..n - 1]);
      TotalMonotone(kept, m, n - 1);
    }
  }

  /**
   * The chunk loop. `chunks` are the successive chunks of the ratings CSV.
   * `pd.concat` of an empty list raises, so reading no chunk at all is an
   * error (None).
   */
  method CollectRatings(chunks: seq<seq<Interaction>>) returns (ratings: Option<seq<Interaction>>)
    ensures chunks == [] <==> ratings.None?
    ensures ratings.Some? ==>
      var kept := KeptChunks(chunks);
      ratings.value == Concat(kept[..ChunksRead(kept, 0, 0)])
  {
    ghost var kept := KeptChunks(chunks);
    var collected: seq<seq<Interaction>> := [];
    var processedRows: nat := 0;
    var i := 0;
    assert kept[..0] == [];
    while i < |chunks|
      invariant 0 <= i <= |chunks|
      invariant collected == kept[..i] && processedRows == Total(collected)
      invariant processedRows < RowLimit && (i > 0 ==> Total(kept[..i - 1]) < RowLimit)
    {
      var chunk := Positive(chunks[i]);
      CollectStep(kept, i, collected);
      collected := collected + [chunk];
      processedRows := processedRows + |chunk|;
      i := i + 1;
      if processedRows >= RowLimit {
        break;
      }
    }
    ChunksReadIs(kept, 0, 0, i);
    if collected == [] {
      return None;
    }
    ratings := Some(Concat(collected));
  }


  // ---------------------------------------------------------------------
  // Final cleanup: catalogued titles, active users
  // ---------------------------------------------------------------------

  function CatalogIds(catalog: seq<Anime>): set<int>
  {
    set a | a in catalog :: a.animeId
  }

  /** `ratings_df[ratings_df['anime_id'].isin(anime_df['anime_id'])]` */
  function KeepCatalogued(ratings: seq<Interaction>, catalog: seq<Anime>): seq<Interaction>
  {
    var ids := CatalogIds(catalog);
    Select(ratings, seq(|ratings|, i requires 0 <= i < |ratings| => ratings[i].animeId in ids))
  }

  /** A rating survives the catalog filter iff its title is in the catalog. */
  lemma {:induction false} KeepCataloguedMembers(ratings: seq<Interaction>, catalog: seq<Anime>, x: Interaction)
    ensures x in KeepCatalogued(ratings, catalog) <==> x in ratings && x.animeId in CatalogIds(catalog)
  {
    var ids := CatalogIds(catalog);
    var mask := seq(|ratings|, i requires 0 <= i < |ratings| => ratings[i].animeId in ids);
    SelectMembers(ratings, mask, x);
    if x in ratings && x.animeId in ids {
      var i :| 0 <= i < |ratings| && ratings[i] == x;
      assert mask[i];
    }
  }

  /** `value_counts()` of the user column, for one user. */
  function CountOf(ratings: seq<Interaction>, user: int): (n: nat)
    ensures n <= |ratings|
  {
    if ratings == [] then 0
    else CountOf(ratings[..|ratings| - 1], user) + (if ratings[|ratings| - 1].userId == user then 1 else 0)
  }

  /** A user with a rating in the table is counted at least once. */
  lemma {:induction false} CountPositive(ratings: seq<Interaction>, x: Interaction)
    requires x in ratings
    ensures CountOf(ratings, x.userId) > 0
  {
    var init := ratings[..|ratings| - 1];
    if ratings[|ratings| - 1] != x {
      var i :| 0 <= i < |ratings| && ratings[i] == x;
      assert init[i] == x;
      CountPositive(init, x);
    }
  }

  /** `isin(active_users)` where `active_users` are the users counted at least ten times. */
  function ActiveMask(ratings: seq<Interaction>): (mask: seq<bool>)
    ensures |mask| == |ratings|
    ensures forall i :: 0 <= i < |ratings| ==> (mask[i] <==> CountOf(ratings, ratings[i].userId) >= MinRatings)
  {
    seq(|ratings|, i requires 0 <= i < |ratings| => CountOf(ratings, ratings[i].userId) >= MinRatings)
  }

  function KeepActiveUsers(ratings: seq<Interaction>): seq<Interaction>
  {
    Select(ratings, ActiveMask(ratings))
  }

  /** Appending a row adds one to its user's count and nothing to the others. */
  lemma CountSnoc(s: seq<Interaction>, x: Interaction, user: int)
    ensures CountOf(s + [x], user) == CountOf(s, user) + (if x.userId == user then 1 else 0)
  {
    assert (s + [x])[..|s|] == s;
  }

  /** A selection that keeps every row of a user keeps that user's count. */
  lemma {:induction false} CountSelectAll(rows: seq<Interaction>, mask: seq<bool>, user: int)
    requires |mask| == |rows|
    requires forall i :: 0 <= i < |rows| && rows[i].userId == user ==> mask[i]
    ensures CountOf(Select(rows, mask), user) == CountOf(rows, user)
  {
    if rows != [] {
      var init := rows[..|rows| - 1];
      var minit := mask[..|mask| - 1];
      var last := rows[|rows| - 1];
      forall i | 0 <= i < |init| && init[i].userId == user
        ensures minit[i]
      {
        assert init[i] == rows[i];
      }
      CountSelectAll(init, minit, user);
      SelectSnoc(rows, mask);
      CountSnoc(init, last, user);
      var s := Select(init, minit);
      if mask[|mask| - 1] {
        CountSnoc(s, last, user);
      }
    }
  }

  /**
   * The active-user filter keeps a rating iff its user has at least ten
   * ratings in its input, and every user left has at least ten ratings in
   * the filtered table.
   */
  lemma {:induction false} ActiveUsersKept(ratings: seq<Interaction>)
    ensures var r := KeepActiveUsers(ratings);
      (forall x :: x in r <==> x in ratings && CountOf(ratings, x.userId) >= MinRatings)
      && (forall x :: x in r ==> CountOf(r, x.userId) >= MinRatings)
  {
    var mask := ActiveMask(ratings);
    var r := KeepActiveUsers(ratings);
    forall x
      ensures x in r <==> x in ratings && CountOf(ratings, x.userId) >= MinRatings
    {
      SelectMembers(ratings, mask, x);
    }
    forall x | x in r
      ensures CountOf(r, x.userId) >= MinRatings
    {
      CountSelectAll(ratings, mask, x.userId);
    }
  }

  /** Both final filters, in the order the loader applies them. */
  function CleanRatings(ratings: seq<Interaction>, catalog: seq<Anime>): seq<Interaction>
  {
    KeepActiveUsers(KeepCatalogued(ratings, catalog))
  }

  /**
   * After cleanup every rating is of a catalogued title by a user with at
   * least ten ratings left, and no rating of a catalogued title by a user
   * with at least ten ratings of catalogued titles is lost.
   */
  lemma {:induction false} CleanRatingsProperties(ratings: seq<Interaction>, catalog: seq<Anime>)
    ensures var c := KeepCatalogued(ratings, catalog);
      var r := CleanRatings(ratings, catalog);
      (forall x :: x in r ==> x in ratings && x.animeId in CatalogIds(catalog))
      && (forall x :: x in r ==> CountOf(r, x.userId) >= MinRatings)
      && (forall x :: x in ratings && x.animeId in CatalogIds(catalog) && CountOf(c, x.userId) >= MinRatings ==> x in r)
  {
    var c := KeepCatalogued(ratings, catalog);
    ActiveUsersKept(c);
    forall x
      ensures x in c <==> x in ratings && x.animeId in CatalogIds(catalog)
    {
      KeepCataloguedMembers(ratings, catalog, x);
    }
  }

  /**
   * `_process_raw_data` without the files: the raw catalog rows and the
   * chunks of the ratings file in, the cleaned catalog and ratings out;
   * None where `pd.concat` of no chunk raises.
   */
  method ProcessRawData(raw: seq<RawAnime>, chunks: seq<seq<Interaction>>)
    returns (result: Option<(seq<Anime>, seq<Interaction>)>)
    ensures chunks == [] <==> result.None?
    ensures result.Some? ==>
      var kept := KeptChunks(chunks);
      result.value.0 == CleanCatalog(raw)
      && result.value.1 == CleanRatings(Concat(kept[..ChunksRead(kept, 0, 0)]), CleanCatalog(raw))
  {
    var catalog := CleanCatalog(raw);
    var collected := CollectRatings(chunks);
    if collected.None? {
      return None;
    }
    var ratings := KeepCatalogued(collected.value, catalog);
    ratings := KeepActiveUsers(ratings);
    result := Some((catalog, ratings));
  }

  /**
   * The tables the loader returns agree: every rating is of a title in the
   * catalog, has a positive score, and its user has at least ten ratings.
   */
  lemma {:induction false} ProcessedTablesAgree(raw: seq<RawAnime>, chunks: seq<seq<Interaction>>)
    ensures var kept := KeptChunks(chunks);
      var catalog := CleanCatalog(raw);
      var r := CleanRatings(Concat(kept[..ChunksRead(kept, 0, 0)]), catalog);
      forall x :: x in r ==>
        x.animeId in CatalogIds(catalog) && x.rating > 0 && CountOf(r, x.userId) >= MinRatings
  {
    var kept := KeptChunks(chunks);
    var catalog := CleanCatalog(raw);
    CollectedArePositive(chunks, ChunksRead(kept, 0, 0));
    CleanRatingsProperties(Concat(kept[..ChunksRead(kept, 0, 0)]), catalog);
  }
}
