/**
 The catalog as process state across a run of requests to the two read
 endpoints. Both read the module-level list and neither writes it.
 */
module Session {
  import opened Movies

  datatype Call = ListMovies | ShowMovie(movieId: int)

  datatype Reply = Listing(movies: seq<Movie>) | Single(reply: MovieReply)

  /** One call against the catalog: the catalog afterwards and the reply. */
  function Step(catalog: seq<Movie>, call: Call): (seq<Movie>, Reply)
  {
    match call
    case ListMovies => (catalog, Listing(GetMovies(catalog)))
    case ShowMovie(id) => (catalog, Single(GetMovie(catalog, id)))
  }

  /** A run of calls in order, threading the catalog through each. */
  function Serve(catalog: seq<Movie>, calls: seq<Call>): (r: (seq<Movie>, seq<Reply>))
    ensures |r.1| == |calls|
    decreases |calls|
  {
    if |calls| == 0 then (catalog, [])
    else
      var (next, reply) := Step(catalog, calls[0]);
      var (last, replies) := Serve(next, calls[1..]);
      (last, [reply] + replies)
  }

  /** Any run leaves the catalog as it found it, and every reply is the one
      its call gets on that catalog alone: replies do not depend on the calls
      made before. */
  lemma {:induction false} ServeLeavesCatalogUnchanged(catalog: seq<Movie>, calls: seq<Call>)
    ensures Serve(catalog, calls).0 == catalog
    ensures forall i :: 0 <= i < |calls| ==> Serve(catalog, calls).1[i] == Step(catalog, calls[i]).1
    decreases |calls|
  {
    if |calls| > 0 {
      ServeLeavesCatalogUnchanged(catalog, calls[1..]);
      var rest := Serve(catalog, calls[1..]).1;
      assert Serve(catalog, calls).1 == [Step(catalog, calls[0]).1] + rest;
      forall i | 1 <= i < |calls|
        ensures Serve(catalog, calls).1[i] == Step(catalog, calls[i]).1
      {
        assert calls[1..][i - 1] == calls[i];
      }
    }
  }
}
