/** The model of `Array.prototype.sort` with a comparator, as both pages use it.
    A comparator returns a negative number when its first argument goes first,
    a positive number when its second goes first, and zero when either order
    will do. The ECMAScript sort is stable (ECMAScript 2019 onwards), so it is
    modelled by a stable insertion sort: `SortBy` inserts each element in front
    of the first element it does not compare after. */
module Sorting {

  /** The comparator never claims both `x` after `y` and `y` after `x`, and
      "goes no later than" is transitive: what a comparator must satisfy for
      the sort to produce an ordered result. */
  ghost predicate IsTotalPreorder<T(!new)>(cmp: (T, T) -> int) {
    && (forall x, y :: cmp(x, y) <= 0 || cmp(y, x) <= 0)
    && (forall x, y, z :: cmp(x, y) <= 0 && cmp(y, z) <= 0 ==> cmp(x, z) <= 0)
  }

  /** Every element goes no later than every element after it. */
  predicate Sorted<T>(s: seq<T>, cmp: (T, T) -> int) {
    forall i, j :: 0 <= i < j < |s| ==> cmp(s[i], s[j]) <= 0
  }

  function Insert<T>(x: T, ys: seq<T>, cmp: (T, T) -> int): (r: seq<T>)
    ensures |r| == |ys| + 1
    ensures multiset(r) == multiset(ys) + multiset{x}
  {
    if ys == [] then [x]
    else if cmp(x, ys[0]) <= 0 then [x] + ys
    else
      assert ys == [ys[0]] + ys[1..];
      [ys[0]] + Insert(x, ys[1..], cmp)
  }

  /** The sorted copy: a permutation of `s`. */
  function SortBy<T>(s: seq<T>, cmp: (T, T) -> int): (r: seq<T>)
    ensures |r| == |s|
    ensures multiset(r) == multiset(s)
  {
    if s == [] then []
    else
      assert s == [s[0]] + s[1..];
      Insert(s[0], SortBy(s[1..], cmp), cmp)
  }

  /** Case of `Insert` where `x` goes in front: it goes no later than the
      first element, so no later than any. */
  lemma InsertInFront<T(!new)>(x: T, ys: seq<T>, cmp: (T, T) -> int)
    requires IsTotalPreorder(cmp)
    requires Sorted(ys, cmp)
    requires ys != [] && cmp(x, ys[0]) <= 0
    ensures Sorted([x] + ys, cmp)
  {
    var r := [x] + ys;
    forall j | 1 <= j < |r| ensures cmp(x, r[j]) <= 0 {
      if j > 1 {
        assert cmp(ys[0], ys[j - 1]) <= 0;
      }
    }
    forall i, j | 0 <= i < j < |r| ensures cmp(r[i], r[j]) <= 0 {
      if i > 0 {
        assert r[i] == ys[i - 1] && r[j] == ys[j - 1];
      }
    }
  }

  /** Case of `Insert` where `x` goes behind the first element `y`: `y` goes
      no later than `x` and than the rest of `ys`. */
  lemma InsertBehind<T(!new)>(y: T, rest: seq<T>, x: T, tail: seq<T>, cmp: (T, T) -> int)
    requires Sorted(rest, cmp)
    requires cmp(y, x) <= 0
    requires forall k :: 0 <= k < |tail| ==> cmp(y, tail[k]) <= 0
    requires multiset(rest) == multiset(tail) + multiset{x}
    ensures Sorted([y] + rest, cmp)
  {
    forall k | 0 <= k < |rest| ensures cmp(y, rest[k]) <= 0 {
      assert rest[k] in multiset(rest);
      if rest[k] != x {
        assert rest[k] in multiset(tail);
        var m :| 0 <= m < |tail| && tail[m] == rest[k];
      }
    }
    var r := [y] + rest;
    forall i, j | 0 <= i < j < |r| ensures cmp(r[i], r[j]) <= 0 {
      if i > 0 {
        assert r[i] == rest[i - 1] && r[j] == rest[j - 1];
      }
    }
  }

  lemma {:induction false} InsertSorted<T(!new)>(x: T, ys: seq<T>, cmp: (T, T) -> int)
    requires IsTotalPreorder(cmp)
    requires Sorted(ys, cmp)
    ensures Sorted(Insert(x, ys, cmp), cmp)
  {
    if ys == [] {
    } else if cmp(x, ys[0]) <= 0 {
      InsertInFront(x, ys, cmp);
    } else {
      InsertSorted(x, ys[1..], cmp);
      assert cmp(ys[0], x) <= 0;
      InsertBehind(ys[0], Insert(x, ys[1..], cmp), x, ys[1..], cmp);
    }
  }

  /** With a comparator that is a total preorder the sort's result is ordered. */
  lemma {:induction false} SortBySorted<T(!new)>(s: seq<T>, cmp: (T, T) -> int)
    requires IsTotalPreorder(cmp)
    ensures Sorted(SortBy(s, cmp), cmp)
  {
    if s != [] {
      SortBySorted(s[1..], cmp);
      InsertSorted(s[0], SortBy(s[1..], cmp), cmp);
    }
  }

  /** An input that is already ordered comes back unchanged: a stable sort
      moves nothing that need not move. */
  lemma {:induction false} SortByKeepsSorted<T>(s: seq<T>, cmp: (T, T) -> int)
    requires Sorted(s, cmp)
    ensures SortBy(s, cmp) == s
  {
    if s != [] {
      assert Sorted(s[1..], cmp);
      SortByKeepsSorted(s[1..], cmp);
      assert s == [s[0]] + s[1..];
    }
  }

  /** A comparator that answers zero for every pair leaves the order as it was. */
  lemma {:induction false} SortByAllEqual<T(!new)>(s: seq<T>, cmp: (T, T) -> int)
    requires forall x, y :: cmp(x, y) == 0
    ensures SortBy(s, cmp) == s
  {
    if s != [] {
      SortByAllEqual(s[1..], cmp);
      assert s == [s[0]] + s[1..];
    }
  }

  /** Sorting a second time changes nothing. */
  lemma SortByIdempotent<T(!new)>(s: seq<T>, cmp: (T, T) -> int)
    requires IsTotalPreorder(cmp)
    ensures SortBy(SortBy(s, cmp), cmp) == SortBy(s, cmp)
  {
    SortBySorted(s, cmp);
    SortByKeepsSorted(SortBy(s, cmp), cmp);
  }
}
