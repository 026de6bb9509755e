# Movie catalog lookup

A model of the read side of a small movies HTTP service. The service keeps
an ordered, process-local list of movie records (`id`, `name`, `year`),
seeded with three films. `get_movies` returns the whole list. `get_movie`
takes an integer `movie_id`, subscripts the list with `movie_id - 1`, and
returns the error object `{"error": "Movie not found"}` when the subscript
raises `IndexError`.

The id is declared as a bare `int`, so zero and negative ids reach the
subscript, and Python's negative indexing applies to them: id `0` reads
index `-1` and returns the last film, and ids from `1 - n` to `0` (for a
catalog of `n` records) count back from the end. Only ids above `n` or
below `1 - n` are not found. The model follows this code. Later revisions
of the service reject non-positive positions before the lookup (the bound
`0 < id < 200`); that bound is not in the modelled code, so the model does
not apply it.

Files:

- `pylist.dfy` (`PyList`): Python list subscription for any integer index,
  with `None` standing for `IndexError`.
- `decimal.dfy` (`Decimal`): Python `str()` on integers and its inverse on
  digit strings, used to relate record ids to positions.
- `movies.dfy` (`Movies`): the record and reply datatypes, the seed catalog,
  `GetMovies`, `GetMovie` and the lemmas about each id range.
- `session.dfy` (`Session`): a run of calls to the two endpoints against
  the catalog as process state.

Both read handlers are pure functions in this model. They cannot write the
catalog by construction, not by proof. `Session` threads the catalog through
a run of calls so that the non-mutation property can be stated over any
run.

## Model

| member | source | states |
|---|---|---|
| PyList.Resolve | main.py:26 | A subscript is accepted exactly when `-n <= i < n`; the accepted position is below `n` and is either `i` or `n + i`, which fixes it uniquely |
| PyList.Get | main.py:26 | `xs[i]` yields an element exactly when `-n <= i < n`; a non-negative `i` reads `xs[i]`, a negative one reads `xs[n + i]`; any element yielded is in the list; all other `i` raise `IndexError` |
| PyList.ExactlyTwoSubscripts | main.py:26 | Each position `k` of a list is addressed by exactly two subscripts, `k` and `k - n`, in both directions |
| Decimal.Str | main.py:7-9 | `str(n)` of a natural is a non-empty string of decimal digits with no leading zero unless `n` is 0 |
| Decimal.ValueOfStr | main.py:7-9 | Reading the decimal string of `n` back gives `n` |
| Decimal.StrInjective | main.py:7-9 | Two naturals have the same decimal string if and only if they are equal |
| Movies.GetMovie | main.py:23-28 | A reply carries a record exactly when `1 - n <= movie_id <= n`; that record is in the catalog; every other id gets the error object with message "Movie not found" |
| Movies.GetMovies | main.py:19-20 | The listing has the catalog's length and exactly its records, in catalog order: listing position `k` holds what `get_movie(k)` returns, for every `k` in `1..n` |
| Movies.LookupInRange | main.py:26 | For `1 <= movie_id <= n` the reply is the record at index `movie_id - 1` |
| Movies.LookupPastEnd | main.py:25-28 | For `movie_id > n` the reply is the not-found error object, not a record |
| Movies.LookupZeroIsLast | main.py:26 | On a non-empty catalog, id 0 returns the last record rather than not-found |
| Movies.LookupNonPositive | main.py:24-28 | For `1 - n <= movie_id <= 0` the reply is the record at index `n + movie_id - 1`; below `1 - n` it is the not-found error object |
| Movies.TwoIdsPerRecord | main.py:24-26 | When ids are positions, the record at position `k` is returned for exactly the ids `k` and `k - n`, and for no other id |
| Movies.SeedIdsArePositions | main.py:6-10 | In the seed catalog every record's `id` is `str` of its 1-based position |
| Movies.LookupMatchesIdField | main.py:24-26 | When ids are positions, an id in `1..n` returns a record whose `id` is `str(movie_id)`, and it is the only record with that `id` |
| Movies.WrappedLookupMismatchesIdField | main.py:24-26 | When ids are positions, an id in `1 - n..0` still returns a record, and that record's `id` is never `str(movie_id)` |
| Movies.SeedLookups | main.py:6-28 | On the seed catalog, ids 1 to 3 return the record whose `id` is that number, id 0 returns "Schindler's List", and ids 4 and -3 are not found |
| Session.ServeLeavesCatalogUnchanged | main.py:6-28 | After any run of calls the catalog is identical to the one before, and each reply equals the reply its call gets on that catalog alone, whatever came before it |

## Left out

- The web framework: the application object, route decorators, tags and path dispatch. These are framework plumbing with no catalog logic.
- `root` and `HTMLResponse`: a constant HTML page with no logic.
- Conversion of the path segment to `int` and the validation error for a non-integer segment. The framework does this before `get_movie` runs, so the model takes `movie_id` as an integer.
- JSON encoding of replies and HTTP status codes. The framework chooses these; the error object is returned with the framework's default status.
- Aliasing: `get_movies` returns the module-level list object itself, and each `Found` reply of `get_movie` is the record dictionary object stored in that list. The model returns the same values. A caller that mutated either would mutate the catalog, but the framework only serialises them.
- Create, update, delete, category filters and field bounds. They belong to other revisions of the service and are not in the modelled code.
