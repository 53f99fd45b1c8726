/**
 * The `movies` table: one record per movie. `title` and `price` are NOT NULL,
 * `subtitle` and `description` are nullable, and `title` is deliberately not
 * unique. The `String(n)` widths are declarations SQLite does not enforce,
 * so they are no part of the table invariant.
 */
module MovieModel {
  import opened Wrappers
  import Table

  /** `Float(precision=2)`: carried as a value, never computed with. */
  type Price = real

  /** A stored row; the id is the INTEGER PRIMARY KEY. */
  datatype Movie = Movie(
    id: int,
    title: string,
    subtitle: Option<string>,
    price: Price,
    description: Option<string>)

  /** The fields a client supplies when creating a movie (no id). */
  datatype MovieCreate = MovieCreate(
    title: string,
    subtitle: Option<string>,
    price: Price,
    description: Option<string>)

  function MovieId(m: Movie): int
  {
    m.id
  }

  /** The table invariant: primary keys unique, rows in key order. No other column is unique. */
  ghost predicate TableValid(movies: seq<Movie>): (b: bool)
    ensures b ==> Table.Distinct(movies, MovieId)
  {
    Table.IdsAscending(movies, MovieId)
  }

  /** Two movies with the same title (and even the same subtitle) can both be stored. */
  lemma DuplicateTitlesAllowed(t: string, s: Option<string>, p: Price, d: Option<string>)
    ensures TableValid([Movie(1, t, s, p, d), Movie(2, t, s, p, d)])
  {
    var rows := [Movie(1, t, s, p, d), Movie(2, t, s, p, d)];
    forall i, j | 0 <= i < j < |rows| ensures MovieId(rows[i]) < MovieId(rows[j]) {
      assert i == 0 && j == 1;
    }
  }
}
