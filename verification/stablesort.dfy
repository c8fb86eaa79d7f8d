/** `Array.prototype.sort` with a consistent comparator. JavaScript's sort
    is stable, so sorting by a comparator that compares a rank is the
    stable sort by that rank: elements of equal rank keep their input
    order. Ranks are compared lexicographically on three integer keys,
    which covers every comparator in the modelled code. */
module StableSort {
  import opened Seqs

  datatype Rank = Rank(primary: int, secondary: int, tertiary: int)

  /** `a` sorts strictly before `b` (the comparator returns a negative number). */
  predicate Before(a: Rank, b: Rank) {
    a.primary < b.primary
    || (a.primary == b.primary && a.secondary < b.secondary)
    || (a.primary == b.primary && a.secondary == b.secondary && a.tertiary < b.tertiary)
  }

  /** No element is ranked strictly before an element to its left. */
  ghost predicate Sorted<T>(s: seq<T>, rank: T -> Rank) {
    forall i, j | 0 <= i < j < |s| :: !Before(rank(s[j]), rank(s[i]))
  }

  /** The elements of `s` whose rank is `k`, in their order in `s`. */
  function OfRank<T>(s: seq<T>, rank: T -> Rank, k: Rank): seq<T> {
    if |s| == 0 then []
    else (if rank(s[0]) == k then [s[0]] else []) + OfRank(s[1..], rank, k)
  }

  lemma OfRankCons<T>(y: T, t: seq<T>, rank: T -> Rank, k: Rank)
    ensures OfRank([y] + t, rank, k) == (if rank(y) == k then [y] else []) + OfRank(t, rank, k)
  {
    assert ([y] + t)[1..] == t;
  }

  /** One step of `InsertOfRank`: an element ranked strictly before `x`
      passes in front of it without changing either rank class. */
  lemma OfRankSkip<T>(x: T, y: T, t: seq<T>, v: seq<T>, rank: T -> Rank, k: Rank)
    requires Before(rank(y), rank(x))
    requires OfRank(t, rank, k) == (if rank(x) == k then [x] else []) + OfRank(v, rank, k)
    ensures (if rank(y) == k then [y] else []) + OfRank(t, rank, k)
         == (if rank(x) == k then [x] else []) + ((if rank(y) == k then [y] else []) + OfRank(v, rank, k))
  {
    var u := OfRank(v, rank, k);
    var e: seq<T> := [];
    if rank(y) == k {
      assert rank(x) != k;
      assert OfRank(t, rank, k) == e + u;
      assert e + u == u;
    } else {
      assert e + u == u;
      assert e + OfRank(t, rank, k) == OfRank(t, rank, k);
    }
  }

  /** Places `x` before the first element not ranked strictly before it. */
  function Insert<T>(x: T, s: seq<T>, rank: T -> Rank): (r: seq<T>)
    ensures multiset(r) == multiset(s) + multiset{x}
  {
    if |s| == 0 then [x]
    else if Before(rank(s[0]), rank(x)) then
      assert s == [s[0]] + s[1..];
      [s[0]] + Insert(x, s[1..], rank)
    else [x] + s
  }

  /** Inserting into a sorted list keeps it sorted. */
  lemma {:induction false} InsertSorted<T>(x: T, s: seq<T>, rank: T -> Rank)
    requires Sorted(s, rank)
    ensures Sorted(Insert(x, s, rank), rank)
  {
    if |s| > 0 {
      var r := Insert(x, s, rank);
      if Before(rank(s[0]), rank(x)) {
        var t := Insert(x, s[1..], rank);
        assert Sorted(s[1..], rank);
        InsertSorted(x, s[1..], rank);
        assert r == [s[0]] + t;
        forall j | 0 < j < |r|
          ensures !Before(rank(r[j]), rank(s[0]))
        {
          var y := r[j];
          assert y == t[j - 1];
          assert y in multiset(t);
          assert y in multiset(s[1..]) + multiset{x};
          if y != x {
            assert y in s[1..];
            var m :| 0 <= m < |s[1..]| && s[1..][m] == y;
            assert s[m + 1] == y;
          }
        }
      } else {
        assert r == [x] + s;
        forall j | 0 < j < |r|
          ensures !Before(rank(r[j]), rank(x))
        {
          assert r[j] == s[j - 1];
          if j - 1 > 0 {
            assert !Before(rank(s[j - 1]), rank(s[0]));
          }
        }
      }
    }
  }

  /** Insertion adds `x` in front of the elements of its own rank and moves
      no element of any other rank. */
  lemma {:induction false} InsertOfRank<T>(x: T, s: seq<T>, rank: T -> Rank, k: Rank)
    ensures OfRank(Insert(x, s, rank), rank, k) == (if rank(x) == k then [x] else []) + OfRank(s, rank, k)
  {
    if |s| == 0 {
      OfRankCons(x, [], rank, k);
    } else if Before(rank(s[0]), rank(x)) {
      var t := Insert(x, s[1..], rank);
      InsertOfRank(x, s[1..], rank, k);
      assert Insert(x, s, rank) == [s[0]] + t;
      OfRankCons(s[0], t, rank, k);
      assert s == [s[0]] + s[1..];
      OfRankCons(s[0], s[1..], rank, k);
      OfRankSkip(x, s[0], t, s[1..], rank, k);
    } else {
      OfRankCons(x, s, rank, k);
    }
  }

  /** The stable sort of `s` by `rank`: a permutation of `s`, sorted, and
      keeping the input order among elements of equal rank. */
  function SortBy<T>(s: seq<T>, rank: T -> Rank): (r: seq<T>)
    ensures |r| == |s|
    ensures multiset(r) == multiset(s)
    ensures Sorted(r, rank)
    ensures forall k :: OfRank(r, rank, k) == OfRank(s, rank, k)
  {
    if |s| == 0 then []
    else
      var t := SortBy(s[1..], rank);
      assert s == [s[0]] + s[1..];
      InsertSorted(s[0], t, rank);
      var r := Insert(s[0], t, rank);
      forall k
        ensures OfRank(r, rank, k) == OfRank(s, rank, k)
      {
        InsertOfRank(s[0], t, rank, k);
        OfRankCons(s[0], s[1..], rank, k);
      }
      assert multiset(r) == multiset(s[1..]) + multiset{s[0]} == multiset(s);
      r
  }

  /** Sorting leaves an already sorted list unchanged. */
  lemma {:induction false} SortBySorted<T>(s: seq<T>, rank: T -> Rank)
    requires Sorted(s, rank)
    ensures SortBy(s, rank) == s
  {
    if |s| > 0 {
      assert Sorted(s[1..], rank);
      SortBySorted(s[1..], rank);
      var t := s[1..];
      if |t| > 0 {
        assert !Before(rank(t[0]), rank(s[0]));
      }
    }
  }
}
