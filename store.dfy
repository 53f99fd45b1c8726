/**
 * The database session the repositories are handed: the two tables, each a
 * sequence of rows in rowid order. Every request works on it as one atomic
 * step; a failed commit leaves both tables as they were.
 */
module Store {
  import MovieModel
  import ApiKeyModel
  import Table

  class Db {
    var movies: seq<MovieModel.Movie>
    var apiKeys: seq<ApiKeyModel.ApiKey>

    /** Both tables satisfy their column constraints. */
    ghost predicate Valid(): (b: bool)
      reads this
      ensures b ==> Table.Distinct(movies, MovieModel.MovieId) && Table.Distinct(apiKeys, ApiKeyModel.KeyId)
    {
      MovieModel.TableValid(movies) && ApiKeyModel.TableValid(apiKeys)
    }

    /** `create_all`: both tables exist and are empty. */
    constructor ()
      ensures Valid()
      ensures movies == [] && apiKeys == []
    {
      movies := [];
      apiKeys := [];
    }
  }
}
