/** Grouping of a movie's shows by theater (groupShowsByTheater in
    Booking.js): one bucket per theater name, each sorted by start time. */
module Showtimes {
  import opened Wrappers
  import opened Sorting

  /** A show; its start time is an integer timestamp. */
  datatype Show = Show(id: string, theaterName: string, startTime: int)

  /** The fetched movie details as far as grouping reads them: the shows
      field may be missing. */
  datatype MovieDetails = MovieDetails(shows: Option<seq<Show>>)

  /** The bucket comparator: the difference of the start times, earlier first. */
  function ByStartTime(a: Show, b: Show): int {
    a.startTime - b.startTime
  }

  lemma ByStartTimeIsTotalPreorder()
    ensures IsTotalPreorder(ByStartTime)
  {
  }

  /** The shows of theater `name`, in their original order. */
  function ShowsAt(shows: seq<Show>, name: string): (r: seq<Show>)
    ensures forall k :: 0 <= k < |r| ==> r[k].theaterName == name && r[k] in shows
  {
    if shows == [] then []
    else
      var last := shows[|shows| - 1];
      assert shows == shows[..|shows| - 1] + [last];
      ShowsAt(shows[..|shows| - 1], name) + Own(last, name)
  }

  function TheaterNames(shows: seq<Show>): set<string> {
    set s | s in shows :: s.theaterName
  }

  /** What the grouping returns: no movie or no shows field gives the empty
      map; otherwise one entry per theater name, holding that theater's shows
      sorted by start time. */
  function GroupShows(movie: Option<MovieDetails>): map<string, seq<Show>> {
    if movie.None? || movie.value.shows.None? then map[]
    else
      var shows := movie.value.shows.value;
      map name | name in TheaterNames(shows) :: SortBy(ShowsAt(shows, name), ByStartTime)
  }

  /** groupShowsByTheater: push every show into its theater's bucket, then
      sort each bucket in place. */
  method GroupShowsByTheater(movie: Option<MovieDetails>) returns (groups: map<string, seq<Show>>)
    ensures groups == GroupShows(movie)
  {
    if movie.None? || movie.value.shows.None? {
      return map[];
    }
    var shows := movie.value.shows.value;
    var buckets := BucketShows(shows);
    groups := SortEachBucket(buckets);
    var spec := GroupShows(movie);
    assert spec.Keys == TheaterNames(shows);
    assert forall n :: n in spec ==> spec[n] == SortBy(ShowsAt(shows, n), ByStartTime);
    assert groups.Keys == spec.Keys;
  }

  /** The first pass: a bucket per theater name, filled in show order. */
  method BucketShows(shows: seq<Show>) returns (buckets: map<string, seq<Show>>)
    ensures BucketsOf(buckets, shows)
  {
    buckets := map[];
    for i := 0 to |shows|
      invariant BucketsOf(buckets, shows[..i])
    {
      var show := shows[i];
      var name := show.theaterName;
      ghost var before := buckets;
      if name !in buckets {
        buckets := buckets[name := []];
      }
      buckets := buckets[name := buckets[name] + [show]];
      PushShow(shows, i, before, buckets);
    }
    assert shows[..|shows|] == shows;
  }

  /** The second pass: sort every bucket by start time, one key at a time. */
  method SortEachBucket(buckets: map<string, seq<Show>>) returns (groups: map<string, seq<Show>>)
    ensures groups.Keys == buckets.Keys
    ensures forall name :: name in groups ==> groups[name] == SortBy(buckets[name], ByStartTime)
  {
    groups := buckets;
    var unsorted := groups.Keys;
    while unsorted != {}
      invariant unsorted <= groups.Keys
      invariant groups.Keys == buckets.Keys
      invariant forall name :: name in groups ==>
        groups[name] == if name in unsorted then buckets[name] else SortBy(buckets[name], ByStartTime)
      decreases unsorted
    {
      var name :| name in unsorted;
      groups := groups[name := SortBy(groups[name], ByStartTime)];
      unsorted := unsorted - {name};
    }
  }

  function Own(show: Show, name: string): seq<Show> {
    if show.theaterName == name then [show] else []
  }

  lemma NoShowsAtOtherTheaters(shows: seq<Show>, name: string)
    requires name !in TheaterNames(shows)
    ensures ShowsAt(shows, name) == []
  {
  }

  /** `buckets` has one entry per theater name of `shows`, holding that
      theater's shows in order. */
  ghost predicate BucketsOf(buckets: map<string, seq<Show>>, shows: seq<Show>) {
    && buckets.Keys == TheaterNames(shows)
    && forall name :: name in buckets ==> buckets[name] == ShowsAt(shows, name)
  }

  /** One more show: its theater joins the names, and it joins the end of its
      theater's bucket and no other. */
  lemma PushShow(shows: seq<Show>, i: int, before: map<string, seq<Show>>, after: map<string, seq<Show>>)
    requires 0 <= i < |shows|
    requires BucketsOf(before, shows[..i])
    requires var name := shows[i].theaterName;
      after == before[name := (if name in before then before[name] else []) + [shows[i]]]
    ensures BucketsOf(after, shows[..i + 1])
  {
    var prefix, show, p := shows[..i], shows[i], shows[..i + 1];
    var name := show.theaterName;
    assert p == prefix + [show];
    assert p[..|p| - 1] == prefix;
    forall n ensures n in TheaterNames(p) <==> n in TheaterNames(prefix) + {name} {
      if n in TheaterNames(p) {
        var s :| s in p && s.theaterName == n;
        if s != show {
          assert s in prefix;
        }
      }
      if n in TheaterNames(prefix) {
        var s :| s in prefix && s.theaterName == n;
        assert s in p;
      }
    }
    forall n | n in after ensures after[n] == ShowsAt(p, n) {
      PushShowAt(shows, i, n);
      if n != name {
        assert Own(show, n) == [];
      } else if name !in before {
        NoShowsAtOtherTheaters(prefix, name);
      }
    }
  }

  lemma PushShowAt(shows: seq<Show>, i: int, name: string)
    requires 0 <= i < |shows|
    ensures ShowsAt(shows[..i + 1], name) == ShowsAt(shows[..i], name) + Own(shows[i], name)
  {
    assert shows[..i + 1][..i] == shows[..i];
  }

  /** Each show of theater `name` is kept as often as it occurs; any other
      show is dropped. */
  lemma {:induction false} ShowsAtCount(shows: seq<Show>, name: string, s: Show)
    ensures multiset(ShowsAt(shows, name))[s] == if s.theaterName == name then multiset(shows)[s] else 0
  {
    if shows != [] {
      var prefix, last := shows[..|shows| - 1], shows[|shows| - 1];
      assert shows == prefix + [last];
      ShowsAtCount(prefix, name, s);
    }
  }

  /** Every show lands in the group of its own theater, as many times as it
      occurs among the movie's shows: no show is lost or duplicated. */
  lemma GroupingKeepsEveryShow(shows: seq<Show>, s: Show)
    requires s in shows
    ensures var groups := GroupShows(Some(MovieDetails(Some(shows))));
      s.theaterName in groups && multiset(groups[s.theaterName])[s] == multiset(shows)[s]
  {
    assert s.theaterName in TheaterNames(shows);
    ShowsAtCount(shows, s.theaterName, s);
  }

  /** A group holds only shows of its own theater, taken from the movie's
      shows, and is never empty. */
  lemma GroupHoldsOnlyItsTheater(shows: seq<Show>, name: string)
    ensures var groups := GroupShows(Some(MovieDetails(Some(shows))));
      name in groups ==>
        && groups[name] != []
        && forall k :: 0 <= k < |groups[name]| ==>
             groups[name][k].theaterName == name && groups[name][k] in shows
  {
    var groups := GroupShows(Some(MovieDetails(Some(shows))));
    if name in groups {
      var s :| s in shows && s.theaterName == name;
      ShowsAtCount(shows, name, s);
      var at := ShowsAt(shows, name);
      var g := groups[name];
      assert multiset(g) == multiset(at);
      assert s in multiset(g);
      forall k | 0 <= k < |g| ensures g[k].theaterName == name && g[k] in shows {
        assert g[k] in multiset(g);
        assert g[k] in multiset(at);
        var m :| 0 <= m < |at| && at[m] == g[k];
      }
    }
  }

  /** Each group lists its shows by non-decreasing start time. */
  lemma GroupsOrderedByStartTime(shows: seq<Show>, name: string)
    ensures var groups := GroupShows(Some(MovieDetails(Some(shows))));
      name in groups ==>
        forall i, j :: 0 <= i < j < |groups[name]| ==>
          groups[name][i].startTime <= groups[name][j].startTime
  {
    ByStartTimeIsTotalPreorder();
    SortBySorted(ShowsAt(shows, name), ByStartTime);
  }
}
