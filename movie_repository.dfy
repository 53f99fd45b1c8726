/**
 * `MovieRepo`: the queries over the `movies` table and the three writes
 * (insert, delete by id, merge), each followed by its commit.
 */
module MovieRepository {
  import opened Wrappers
  import opened MovieModel
  import Table
  import Store

  /** `fetch_movie_by_id`: the movie with that id, or None when there is none. */
  function FetchMovieById(movies: seq<Movie>, id: int): (r: Option<Movie>)
    ensures r.None? <==> forall i :: 0 <= i < |movies| ==> movies[i].id != id
    ensures r.Some? ==> r.value in movies && r.value.id == id
  {
    Table.First(movies, (m: Movie) => m.id == id)
  }

  /** `fetch_by_title`: the first movie, in table order, whose title equals `title`. */
  function FetchByTitle(movies: seq<Movie>, title: string): (r: Option<Movie>)
    ensures r.None? <==> forall i :: 0 <= i < |movies| ==> movies[i].title != title
    ensures r.Some? ==>
      exists i :: 0 <= i < |movies| && movies[i] == r.value && r.value.title == title &&
        forall j :: 0 <= j < i ==> movies[j].title != title
  {
    Table.First(movies, (m: Movie) => m.title == title)
  }

  /**
   * `fetch_by_title_and_subtitle`. The two conditions are joined with Python's
   * `and`, which hands the ORM only the first one: the subtitle is never
   * compared.
   */
  function FetchByTitleAndSubtitle(movies: seq<Movie>, title: string, subtitle: Option<string>): (r: Option<Movie>)
    ensures r.None? <==> forall i :: 0 <= i < |movies| ==> movies[i].title != title
    ensures r.Some? ==>
      exists i :: 0 <= i < |movies| && movies[i] == r.value && r.value.title == title &&
        forall j :: 0 <= j < i ==> movies[j].title != title
  {
    var byTitle := Table.Equals((m: Movie) => m.title == title);
    var bySubtitle := Table.Equals((m: Movie) => m.subtitle == subtitle);
    Table.First(movies, Table.PyAnd(byTitle, bySubtitle).holds)
  }

  /** The title-and-subtitle lookup is the title lookup. */
  lemma TitleAndSubtitleIsTitle(movies: seq<Movie>, title: string, subtitle: Option<string>)
    ensures FetchByTitleAndSubtitle(movies, title, subtitle) == FetchByTitle(movies, title)
  {
    Table.FirstPointwise(movies,
      Table.PyAnd(Table.Equals((m: Movie) => m.title == title), Table.Equals((m: Movie) => m.subtitle == subtitle)).holds,
      (m: Movie) => m.title == title);
  }

  /** A stored movie with the same title and another subtitle still counts as the same movie. */
  lemma SubtitleIgnored(m: Movie, subtitle: Option<string>)
    requires m.subtitle != subtitle
    ensures FetchByTitleAndSubtitle([m], m.title, subtitle) == Some(m)
  {
    TitleAndSubtitleIsTitle([m], m.title, subtitle);
  }

  /** `fetch_all(skip=0, limit=50)`: at most `limit` movies, from position `skip` on, in table order. */
  function FetchAll(movies: seq<Movie>, skip: nat := 0, limit: nat := 50): (r: seq<Movie>)
    ensures |r| <= limit
    ensures skip <= |movies| ==> |r| == Table.Min(limit, |movies| - skip)
    ensures skip <= |movies| ==> r <= movies[skip..]
    ensures skip >= |movies| ==> r == []
  {
    var w := Table.Window(movies, skip, limit);
    assert skip < |movies| ==> w == movies[skip..][..|w|];
    w
  }

  /**
   * `create`: one row appended, its fields copied from the request, under a
   * key larger than every key already present; the new row is returned.
   */
  method Create(db: Store.Db, movie: MovieCreate) returns (m: Movie)
    requires db.Valid()
    modifies db`movies
    ensures db.Valid()
    ensures m.title == movie.title && m.subtitle == movie.subtitle
    ensures m.price == movie.price && m.description == movie.description
    ensures forall i :: 0 <= i < |old(db.movies)| ==> old(db.movies)[i].id < m.id
    ensures db.movies == old(db.movies) + [m]
  {
    m := Movie(Table.NextId(db.movies, MovieId), movie.title, movie.subtitle, movie.price, movie.description);
    Table.AppendNextId(db.movies, MovieId, m);
    db.movies := db.movies + [m];
  }

  /**
   * `delete`: finds the row by id and deletes it. With no such row the
   * session is asked to delete None, which raises: `ok` is false and the
   * table is unchanged.
   */
  method Delete(db: Store.Db, id: int) returns (ok: bool)
    requires db.Valid()
    modifies db`movies
    ensures db.Valid()
    ensures ok <==> exists i :: 0 <= i < |old(db.movies)| && old(db.movies)[i].id == id
    ensures ok ==> db.movies == Table.Without(old(db.movies), MovieId, id)
    ensures ok ==> |db.movies| == |old(db.movies)| - 1
    ensures !ok ==> db.movies == old(db.movies)
  {
    var found := Table.FindFirst(db.movies, (m: Movie) => m.id == id);
    match found
    case None =>
      ok := false;
    case Some(i) =>
      Table.RemoveAtIsWithout(db.movies, MovieId, i);
      Table.RemoveAtAscending(db.movies, MovieId, i);
      db.movies := db.movies[..i] + db.movies[i + 1..];
      ok := true;
  }

  /**
   * `update`: `merge` then commit. The row with the same id is overwritten
   * in place, leaving every other row and the row count as they were; a row
   * with an unknown id would be inserted at its place in key order.
   */
  method Update(db: Store.Db, movieData: Movie) returns (r: Movie)
    requires db.Valid()
    modifies db`movies
    ensures db.Valid()
    ensures r == movieData
    ensures forall i :: 0 <= i < |old(db.movies)| && old(db.movies)[i].id == movieData.id ==>
      db.movies == old(db.movies)[i := movieData]
    ensures !Table.HasId(old(db.movies), MovieId, movieData.id) ==>
      db.movies == Table.InsertById(old(db.movies), MovieId, movieData)
  {
    ghost var before := db.movies;
    db.movies := Table.Merge(db.movies, MovieId, movieData);
    forall i | 0 <= i < |before| && before[i].id == movieData.id
      ensures db.movies == before[i := movieData]
    {
      Table.MergeExisting(before, MovieId, movieData, i);
    }
    if Table.HasId(before, MovieId, movieData.id) {
      var i :| 0 <= i < |before| && MovieId(before[i]) == movieData.id;
      Table.MergeExisting(before, MovieId, movieData, i);
    } else {
      Table.MergeAbsent(before, MovieId, movieData);
    }
    r := movieData;
  }
}
