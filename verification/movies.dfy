/**
 The movie catalog of the service: an ordered list of records held for the
 life of the process, listed whole by `get_movies` and read by 1-based
 position by `get_movie`.
 */
module Movies {
  import PyList
  import Decimal

  /** One catalog record: the `{"id", "name", "year"}` dictionary. */
  datatype Movie = Movie(id: string, name: string, year: int)

  /** What `get_movie` returns: the record itself, or the error object
      `{"error": ...}` built when the subscript raises `IndexError`. */
  datatype MovieReply = Found(movie: Movie) | NotFound(error: string)

  const NotFoundMessage: string := "Movie not found"

  /** The catalog the process starts with. */
  const Seed: seq<Movie> := [
    Movie("1", "The Godfather", 1972),
    Movie("2", "The Shawshank Redemption", 1994),
    Movie("3", "Schindler's List", 1993)
  ]

  /** `get_movie`: subscripts the catalog with `movieId - 1` under Python's
      rules, turning `IndexError` into the not-found error object. The id is
      not bounded, so zero and negative ids reach the subscript. */
  function GetMovie(movies: seq<Movie>, movieId: int): (r: MovieReply)
    ensures r.Found? <==> 1 - |movies| <= movieId <= |movies|
    ensures r.Found? ==> r.movie in movies
    ensures r.NotFound? ==> r.error == NotFoundMessage
  {
    match PyList.Get(movies, movieId - 1)
    case Some(m) => Found(m)
    case None => NotFound(NotFoundMessage)
  }

  /** `get_movies`: the catalog, as it stands. The listing holds exactly the
      catalog's records, in catalog order: the record at listing position
      `k` is the one `get_movie(k)` returns. */
  function GetMovies(movies: seq<Movie>): (r: seq<Movie>)
    ensures |r| == |movies|
    ensures forall k :: 1 <= k <= |movies| ==> GetMovie(movies, k) == Found(r[k - 1])
    ensures forall m :: m in r <==> m in movies
  {
    movies
  }

  /** An id between 1 and the catalog length reads the record at position `id`. */
  lemma LookupInRange(movies: seq<Movie>, movieId: int)
    requires 1 <= movieId <= |movies|
    ensures GetMovie(movies, movieId) == Found(movies[movieId - 1])
  {
  }

  /** An id past the end is not found. */
  lemma LookupPastEnd(movies: seq<Movie>, movieId: int)
    requires movieId > |movies|
    ensures GetMovie(movies, movieId) == NotFound(NotFoundMessage)
  {
  }

  /** Id 0 subscripts with -1 and so reads the last record instead of
      reporting not-found. */
  lemma LookupZeroIsLast(movies: seq<Movie>)
    requires |movies| > 0
    ensures GetMovie(movies, 0) == Found(movies[|movies| - 1])
  {
  }

  /** Ids from `1 - n` to 0 count back from the end of the catalog; ids below
      `1 - n` fall outside Python's negative range and are not found. */
  lemma LookupNonPositive(movies: seq<Movie>, movieId: int)
    requires movieId <= 0
    ensures 1 - |movies| <= movieId ==> GetMovie(movies, movieId) == Found(movies[|movies| + movieId - 1])
    ensures movieId < 1 - |movies| ==> GetMovie(movies, movieId) == NotFound(NotFoundMessage)
  {
  }

  /** Every record's id is `str` of its 1-based position. */
  predicate IdsArePositions(movies: seq<Movie>) {
    forall i :: 0 <= i < |movies| ==> movies[i].id == Decimal.Str(i + 1)
  }

  /** When ids are positions the records are pairwise distinct, so each one
      is returned for exactly two ids: its position `k` and the
      wrapped-around `k - n`. */
  lemma TwoIdsPerRecord(movies: seq<Movie>, movieId: int, k: int)
    requires IdsArePositions(movies)
    requires 1 <= k <= |movies|
    ensures GetMovie(movies, movieId) == Found(movies[k - 1]) <==> movieId == k || movieId == k - |movies|
  {
    var n := |movies|;
    if GetMovie(movies, movieId) == Found(movies[k - 1]) {
      var j := PyList.Resolve(n, movieId - 1).value;
      assert movies[j] == movies[k - 1];
      Decimal.StrInjective(j + 1, k);
      PyList.ExactlyTwoSubscripts(n, movieId - 1, k - 1);
    }
  }

  lemma SeedIdsArePositions()
    ensures IdsArePositions(Seed)
  {
  }

  /** On a catalog whose ids are their positions, a positive in-range id
      returns the one record whose `id` is `str(movieId)`. */
  lemma LookupMatchesIdField(movies: seq<Movie>, movieId: int)
    requires IdsArePositions(movies)
    requires 1 <= movieId <= |movies|
    ensures GetMovie(movies, movieId).Found?
    ensures GetMovie(movies, movieId).movie.id == Decimal.IntStr(movieId)
    ensures forall i :: 0 <= i < |movies| && movies[i].id == Decimal.IntStr(movieId) ==> i == movieId - 1
  {
    forall i | 0 <= i < |movies| && movies[i].id == Decimal.IntStr(movieId)
      ensures i == movieId - 1
    {
      Decimal.StrInjective(i + 1, movieId);
    }
  }

  /** On the same kind of catalog, a non-positive id that is found returns a
      record whose `id` differs from `str(movieId)`. */
  lemma WrappedLookupMismatchesIdField(movies: seq<Movie>, movieId: int)
    requires IdsArePositions(movies)
    requires 1 - |movies| <= movieId <= 0
    ensures GetMovie(movies, movieId).Found?
    ensures GetMovie(movies, movieId).movie.id != Decimal.IntStr(movieId)
  {
  }

  /** On the seed catalog: ids 1 to 3 return the record whose id is that
      number, id 0 returns the third record, and 4 and -3 are not found. */
  lemma SeedLookups()
    ensures forall k :: 1 <= k <= 3 ==> GetMovie(Seed, k).Found? && GetMovie(Seed, k).movie.id == Decimal.IntStr(k)
    ensures GetMovie(Seed, 0) == Found(Movie("3", "Schindler's List", 1993))
    ensures GetMovie(Seed, 4) == NotFound(NotFoundMessage)
    ensures GetMovie(Seed, -3) == NotFound(NotFoundMessage)
  {
  }
}
