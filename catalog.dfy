/**
 * The movie list page: all movies, narrowed by the optional `search`,
 * `genre` and `language` query parameters.
 */
module Catalog {
  import opened Wrappers
  import opened Text

  datatype Movie = Movie(id: nat, name: string, genre: string, language: string, trailerUrl: Option<string>)

  /** The query parameters of the movie list page; an absent parameter is None. */
  datatype MovieQuery = MovieQuery(search: Option<string>, genre: Option<string>, language: Option<string>)

  /** One `.filter(...)` applied to the movie query set. */
  datatype Criterion = NameContains(text: string) | GenreIs(genre: string) | LanguageIs(language: string)

  /** `name__icontains` (ASCII case folding), `genre=` and `language=` lookups. */
  predicate Satisfies(m: Movie, c: Criterion) {
    match c
    case NameContains(text) => ContainsIgnoreCase(m.name, text)
    case GenreIs(g) => m.genre == g
    case LanguageIs(l) => m.language == l
  }

  /** The query set narrowed by one criterion, order kept. */
  function Filter(movies: seq<Movie>, c: Criterion): (r: seq<Movie>)
    ensures |r| <= |movies|
    ensures forall m :: m in r <==> m in movies && Satisfies(m, c)
  {
    if movies == [] then []
    else (if Satisfies(movies[0], c) then [movies[0]] else []) + Filter(movies[1..], c)
  }

  /** The view's filter chain: each truthy parameter adds one filter. */
  function MovieList(movies: seq<Movie>, q: MovieQuery): seq<Movie>
  {
    var bySearch := if Truthy(q.search) then Filter(movies, NameContains(q.search.value)) else movies;
    var byGenre := if Truthy(q.genre) then Filter(bySearch, GenreIs(q.genre.value)) else bySearch;
    if Truthy(q.language) then Filter(byGenre, LanguageIs(q.language.value)) else byGenre
  }

  /** A movie matches a query when it meets every parameter that is supplied and not empty. */
  predicate Matches(m: Movie, q: MovieQuery) {
    && (Truthy(q.search) ==> ContainsIgnoreCase(m.name, q.search.value))
    && (Truthy(q.genre) ==> m.genre == q.genre.value)
    && (Truthy(q.language) ==> m.language == q.language.value)
  }

  /** Reference definition: the matching movies, in their original order. */
  function Select(movies: seq<Movie>, q: MovieQuery): seq<Movie>
  {
    if movies == [] then []
    else (if Matches(movies[0], q) then [movies[0]] else []) + Select(movies[1..], q)
  }

  lemma {:induction false} FilterAppend(a: seq<Movie>, b: seq<Movie>, c: Criterion)
    ensures Filter(a + b, c) == Filter(a, c) + Filter(b, c)
  {
    if a == [] {
      assert a + b == b;
    } else {
      assert (a + b)[1..] == a[1..] + b;
      FilterAppend(a[1..], b, c);
    }
  }

  lemma {:induction false} SelectMembers(movies: seq<Movie>, q: MovieQuery)
    ensures forall m :: m in Select(movies, q) <==> m in movies && Matches(m, q)
  {
    if movies != [] {
      SelectMembers(movies[1..], q);
      assert movies == [movies[0]] + movies[1..];
    }
  }

  /**
   * The filter chain keeps exactly the movies that match every supplied
   * parameter, in their original order; with no parameters it keeps them all.
   */
  lemma {:induction false} MovieListSelects(movies: seq<Movie>, q: MovieQuery)
    ensures MovieList(movies, q) == Select(movies, q)
    ensures forall m :: m in MovieList(movies, q) <==> m in movies && Matches(m, q)
    ensures !Truthy(q.search) && !Truthy(q.genre) && !Truthy(q.language) ==> MovieList(movies, q) == movies
  {
    SelectMembers(movies, q);
    if movies != [] {
      var m, rest := movies[0], movies[1..];
      assert movies == [m] + rest;
      MovieListSelects(rest, q);
      var head := MovieList([m], q);
      assert head == if Matches(m, q) then [m] else [];
      var bySearch := if Truthy(q.search) then Filter(movies, NameContains(q.search.value)) else movies;
      if Truthy(q.search) {
        FilterAppend([m], rest, NameContains(q.search.value));
      }
      var byGenre := if Truthy(q.genre) then Filter(bySearch, GenreIs(q.genre.value)) else bySearch;
      if Truthy(q.genre) {
        var s1 := if Truthy(q.search) then Filter([m], NameContains(q.search.value)) else [m];
        var s2 := if Truthy(q.search) then Filter(rest, NameContains(q.search.value)) else rest;
        FilterAppend(s1, s2, GenreIs(q.genre.value));
      }
      if Truthy(q.language) {
        var s1 := if Truthy(q.search) then Filter([m], NameContains(q.search.value)) else [m];
        var s2 := if Truthy(q.search) then Filter(rest, NameContains(q.search.value)) else rest;
        var g1 := if Truthy(q.genre) then Filter(s1, GenreIs(q.genre.value)) else s1;
        var g2 := if Truthy(q.genre) then Filter(s2, GenreIs(q.genre.value)) else s2;
        FilterAppend(g1, g2, LanguageIs(q.language.value));
      }
    }
  }
}
