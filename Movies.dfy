/** The movie list page (Movies.js): the fetched list sorted newest first,
    then a search filter on the title and one of four sort orders applied to
    a copy of the filtered list. */
module Movies {
  import opened Sorting

  /** A movie as the list reads it; the release date is an integer timestamp. */
  datatype Movie = Movie(title: string, releaseDate: int)

  // ---------------------------------------------------------------- search

  /** `toLowerCase` on one character, for the letters A to Z. */
  function LowerChar(c: char): char {
    if 'A' <= c <= 'Z' then (c as int + 32) as char else c
  }

  function ToLower(s: string): (r: string)
    ensures |r| == |s|
    ensures forall i :: 0 <= i < |s| ==> !('A' <= r[i] <= 'Z')
  {
    seq(|s|, i requires 0 <= i < |s| => LowerChar(s[i]))
  }

  /** Lower-casing twice is lower-casing once. */
  lemma ToLowerIdempotent(s: string)
    ensures ToLower(ToLower(s)) == ToLower(s)
  {
  }

  predicate StartsWith(text: string, prefix: string) {
    |prefix| <= |text| && text[..|prefix|] == prefix
  }

  /** `String.prototype.includes`: `needle` occurs somewhere in `text`. */
  predicate Includes(text: string, needle: string) {
    StartsWith(text, needle) || (|text| > 0 && Includes(text[1..], needle))
  }

  /** `needle` occurs in `text` starting at index `i`. */
  predicate OccursAt(text: string, needle: string, i: int) {
    0 <= i <= |text| - |needle| && text[i..i + |needle|] == needle
  }

  /** `Includes` holds exactly when `needle` occurs at some index of `text`. */
  lemma {:induction false} IncludesAt(text: string, needle: string)
    ensures Includes(text, needle) <==> exists i :: OccursAt(text, needle, i)
  {
    if StartsWith(text, needle) {
      assert OccursAt(text, needle, 0);
    } else if |text| > 0 {
      IncludesAt(text[1..], needle);
      if exists i :: OccursAt(text, needle, i) {
        var i :| OccursAt(text, needle, i);
        assert i > 0;
        assert OccursAt(text[1..], needle, i - 1) by {
          assert text[1..][i - 1..i - 1 + |needle|] == text[i..i + |needle|];
        }
      }
      if Includes(text[1..], needle) {
        var i :| OccursAt(text[1..], needle, i);
        assert OccursAt(text, needle, i + 1) by {
          assert text[1..][i..i + |needle|] == text[i + 1..i + 1 + |needle|];
        }
      }
    }
  }

  /** The search keeps a movie when its lower-cased title contains the
      lower-cased search term. */
  predicate MatchesSearch(m: Movie, searchTerm: string) {
    Includes(ToLower(m.title), ToLower(searchTerm))
  }

  /** The search filter: the matching movies, in their order. */
  function FilterBySearch(movies: seq<Movie>, searchTerm: string): (r: seq<Movie>)
    ensures |r| <= |movies|
    ensures forall m :: m in r <==> m in movies && MatchesSearch(m, searchTerm)
  {
    if movies == [] then []
    else
      assert forall k :: 1 <= k < |movies| ==> movies[k] == movies[1..][k - 1];
      (if MatchesSearch(movies[0], searchTerm) then [movies[0]] else [])
        + FilterBySearch(movies[1..], searchTerm)
  }

  /** Every movie is kept as often as it occurs when it matches, and not at
      all otherwise. */
  lemma {:induction false} FilterCount(movies: seq<Movie>, searchTerm: string, m: Movie)
    ensures multiset(FilterBySearch(movies, searchTerm))[m]
      == if MatchesSearch(m, searchTerm) then multiset(movies)[m] else 0
  {
    if movies != [] {
      assert movies == [movies[0]] + movies[1..];
      FilterCount(movies[1..], searchTerm, m);
    }
  }

  /** Filtering a list in two pieces filters each piece in place: the
      filtered list keeps the order of the source list. */
  lemma {:induction false} FilterAppend(a: seq<Movie>, b: seq<Movie>, searchTerm: string)
    ensures FilterBySearch(a + b, searchTerm) == FilterBySearch(a, searchTerm) + FilterBySearch(b, searchTerm)
  {
    if a == [] {
      assert a + b == b;
    } else {
      assert (a + b)[1..] == a[1..] + b;
      FilterAppend(a[1..], b, searchTerm);
    }
  }

  /** An empty search term keeps every movie, in order. */
  lemma {:induction false} EmptySearchKeepsAll(movies: seq<Movie>)
    ensures FilterBySearch(movies, "") == movies
  {
    if movies != [] {
      assert StartsWith(ToLower(movies[0].title), ToLower(""));
      EmptySearchKeepsAll(movies[1..]);
      assert movies == [movies[0]] + movies[1..];
    }
  }

  /** The search ignores the case of A to Z in the term. */
  lemma SearchIgnoresTermCase(m: Movie, searchTerm: string)
    ensures MatchesSearch(m, searchTerm) == MatchesSearch(m, ToLower(searchTerm))
  {
    ToLowerIdempotent(searchTerm);
  }

  // ----------------------------------------------------------------- sort

  /** The newest-first comparator: the difference of the release dates, later first. */
  function NewestFirst(a: Movie, b: Movie): int {
    b.releaseDate - a.releaseDate
  }

  /** The comparator of the second effect. `localeCompare` is the string
      collation of the browser, taken as a parameter. */
  function MovieComparator(sortOrder: string, localeCompare: (string, string) -> int): (Movie, Movie) -> int {
    (a: Movie, b: Movie) =>
      if sortOrder == "newest" then NewestFirst(a, b)
      else if sortOrder == "oldest" then a.releaseDate - b.releaseDate
      else if sortOrder == "a-z" then localeCompare(a.title, b.title)
      else if sortOrder == "z-a" then localeCompare(b.title, a.title)
      else 0
  }

  /** The list the page shows: filter, then sort a copy. */
  function VisibleMovies(movies: seq<Movie>, searchTerm: string, sortOrder: string,
                         localeCompare: (string, string) -> int): (r: seq<Movie>)
    ensures multiset(r) == multiset(FilterBySearch(movies, searchTerm))
    ensures forall m :: m in r <==> m in movies && MatchesSearch(m, searchTerm)
  {
    var filtered := FilterBySearch(movies, searchTerm);
    var r := SortBy(filtered, MovieComparator(sortOrder, localeCompare));
    assert forall m :: m in r <==> m in multiset(filtered);
    r
  }

  /** 'newest' lists release dates from the latest down. */
  lemma NewestOrder(movies: seq<Movie>, searchTerm: string, localeCompare: (string, string) -> int)
    ensures var r := VisibleMovies(movies, searchTerm, "newest", localeCompare);
      forall i, j :: 0 <= i < j < |r| ==> r[i].releaseDate >= r[j].releaseDate
  {
    var cmp := MovieComparator("newest", localeCompare);
    assert forall a, b :: cmp(a, b) == NewestFirst(a, b);
    SortBySorted(FilterBySearch(movies, searchTerm), cmp);
  }

  /** 'oldest' lists release dates from the earliest up. */
  lemma OldestOrder(movies: seq<Movie>, searchTerm: string, localeCompare: (string, string) -> int)
    ensures var r := VisibleMovies(movies, searchTerm, "oldest", localeCompare);
      forall i, j :: 0 <= i < j < |r| ==> r[i].releaseDate <= r[j].releaseDate
  {
    var cmp := MovieComparator("oldest", localeCompare);
    assert forall a, b :: cmp(a, b) == a.releaseDate - b.releaseDate;
    SortBySorted(FilterBySearch(movies, searchTerm), cmp);
  }

  /** 'a-z' lists titles in ascending collation order, provided the collation
      is a total preorder. */
  lemma AToZOrder(movies: seq<Movie>, searchTerm: string, localeCompare: (string, string) -> int)
    requires IsTotalPreorder(localeCompare)
    ensures var r := VisibleMovies(movies, searchTerm, "a-z", localeCompare);
      forall i, j :: 0 <= i < j < |r| ==> localeCompare(r[i].title, r[j].title) <= 0
  {
    var cmp := MovieComparator("a-z", localeCompare);
    assert forall a, b :: cmp(a, b) == localeCompare(a.title, b.title);
    SortBySorted(FilterBySearch(movies, searchTerm), cmp);
  }

  /** 'z-a' lists titles in descending collation order. */
  lemma ZToAOrder(movies: seq<Movie>, searchTerm: string, localeCompare: (string, string) -> int)
    requires IsTotalPreorder(localeCompare)
    ensures var r := VisibleMovies(movies, searchTerm, "z-a", localeCompare);
      forall i, j :: 0 <= i < j < |r| ==> localeCompare(r[j].title, r[i].title) <= 0
  {
    var cmp := MovieComparator("z-a", localeCompare);
    assert forall a, b :: cmp(a, b) == localeCompare(b.title, a.title);
    SortBySorted(FilterBySearch(movies, searchTerm), cmp);
  }

  /** Any other sort key compares every pair as equal, and the stable sort
      leaves the filtered order as it is. */
  lemma UnknownOrderKeepsFilterOrder(movies: seq<Movie>, searchTerm: string, sortOrder: string,
                                     localeCompare: (string, string) -> int)
    requires sortOrder !in ["newest", "oldest", "a-z", "z-a"]
    ensures VisibleMovies(movies, searchTerm, sortOrder, localeCompare) == FilterBySearch(movies, searchTerm)
  {
    SortByAllEqual(FilterBySearch(movies, searchTerm), MovieComparator(sortOrder, localeCompare));
  }

  // ----------------------------------------------------------- first load

  /** The fetched list, sorted in place newest first before it is stored. */
  function LoadMovies(fetched: seq<Movie>): (r: seq<Movie>)
    ensures multiset(r) == multiset(fetched)
    ensures forall i, j :: 0 <= i < j < |r| ==> r[i].releaseDate >= r[j].releaseDate
  {
    SortBySorted(fetched, NewestFirst);
    SortBy(fetched, NewestFirst)
  }

  /** With the initial empty term and the initial order 'newest', the page
      shows the loaded list exactly. */
  lemma InitialViewIsLoadedList(fetched: seq<Movie>, localeCompare: (string, string) -> int)
    ensures VisibleMovies(LoadMovies(fetched), "", "newest", localeCompare) == LoadMovies(fetched)
  {
    var loaded := LoadMovies(fetched);
    EmptySearchKeepsAll(loaded);
    var cmp := MovieComparator("newest", localeCompare);
    assert forall a, b :: cmp(a, b) == NewestFirst(a, b);
    assert Sorted(loaded, cmp);
    SortByKeepsSorted(loaded, cmp);
  }
}
