/** Sequence operations shared by the modelled code: `Array.prototype.filter`,
    the two de-duplication idioms the repository uses
    (`Array.from(new Set(xs))` and `xs.filter((x, i, a) => a.indexOf(x) === i)`),
    and the subsequence relation that states "same order, some left out". */
module Seqs {

  /** `c` can be obtained from `t` by deleting elements: its elements occur
      in `t` at strictly increasing positions. */
  predicate IsSubseq<T(==)>(c: seq<T>, t: seq<T>)
    decreases |t|
  {
    if |c| == 0 then true
    else if |t| == 0 then false
    else (c[0] == t[0] && IsSubseq(c[1..], t[1..])) || IsSubseq(c, t[1..])
  }

  /** No element occurs twice. */
  predicate Distinct<T(==)>(s: seq<T>) {
    forall i, j | 0 <= i < j < |s| :: s[i] != s[j]
  }

  lemma {:induction false} SubseqElements<T>(c: seq<T>, t: seq<T>)
    requires IsSubseq(c, t)
    ensures |c| <= |t|
    ensures forall x | x in c :: x in t
  {
    if |c| > 0 {
      if c[0] == t[0] && IsSubseq(c[1..], t[1..]) {
        SubseqElements(c[1..], t[1..]);
        forall x | x in c
          ensures x in t
        {
          if x != c[0] {
            assert x in c[1..];
          }
        }
      } else {
        SubseqElements(c, t[1..]);
      }
    }
  }

  lemma {:induction false} SubseqRefl<T>(t: seq<T>)
    ensures IsSubseq(t, t)
  {
    if |t| > 0 {
      SubseqRefl(t[1..]);
    }
  }

  lemma {:induction false} SubseqTrans<T>(a: seq<T>, b: seq<T>, c: seq<T>)
    requires IsSubseq(a, b) && IsSubseq(b, c)
    ensures IsSubseq(a, c)
    decreases |c|
  {
    if |a| > 0 {
      if IsSubseq(b, c[1..]) {
        SubseqTrans(a, b, c[1..]);
      } else if a[0] == b[0] && IsSubseq(a[1..], b[1..]) {
        SubseqTrans(a[1..], b[1..], c[1..]);
      } else {
        SubseqTrans(a, b[1..], c[1..]);
      }
    }
  }

  /** A subsequence of a list without repetitions has none either. */
  lemma {:induction false} SubseqDistinct<T>(c: seq<T>, t: seq<T>)
    requires IsSubseq(c, t) && Distinct(t)
    ensures Distinct(c)
  {
    if |c| > 0 {
      assert Distinct(t[1..]) by {
        forall i, j | 0 <= i < j < |t| - 1
          ensures t[1..][i] != t[1..][j]
        {
          assert t[i + 1] != t[j + 1];
        }
      }
      if c[0] == t[0] && IsSubseq(c[1..], t[1..]) {
        SubseqDistinct(c[1..], t[1..]);
        SubseqElements(c[1..], t[1..]);
        forall j | 0 < j < |c|
          ensures c[0] != c[j]
        {
          assert c[j] == c[1..][j - 1];
          assert c[j] in t[1..];
          var k :| 0 <= k < |t| - 1 && t[1..][k] == c[j];
          assert t[k + 1] == c[j];
        }
      } else {
        SubseqDistinct(c, t[1..]);
      }
    }
  }

  /** `s.filter(p)`. */
  function Filter<T>(s: seq<T>, p: T -> bool): (r: seq<T>)
    ensures |r| <= |s|
    ensures forall x | x in r :: x in s && p(x)
    ensures forall x | x in s && p(x) :: x in r
  {
    if |s| == 0 then []
    else (if p(s[0]) then [s[0]] else []) + Filter(s[1..], p)
  }

  /** Filtering a concatenation filters each part. */
  lemma {:induction false} FilterAppend<T>(a: seq<T>, b: seq<T>, p: T -> bool)
    ensures Filter(a + b, p) == Filter(a, p) + Filter(b, p)
  {
    if |a| > 0 {
      FilterAppend(a[1..], b, p);
      assert (a + b)[1..] == a[1..] + b;
    } else {
      assert a + b == b;
    }
  }

  lemma FilterSnoc<T>(s: seq<T>, x: T, p: T -> bool)
    ensures Filter(s + [x], p) == Filter(s, p) + (if p(x) then [x] else [])
  {
    FilterAppend(s, [x], p);
    assert [x][1..] == [];
  }

  lemma {:induction false} FilterNone<T>(s: seq<T>, p: T -> bool)
    requires forall x | x in s :: !p(x)
    ensures Filter(s, p) == []
  {
    if |s| > 0 {
      assert forall x | x in s[1..] :: x in s;
      FilterNone(s[1..], p);
    }
  }

  /** The filtered list keeps the original order. */
  lemma {:induction false} FilterIsSubseq<T>(s: seq<T>, p: T -> bool)
    ensures IsSubseq(Filter(s, p), s)
  {
    if |s| > 0 {
      FilterIsSubseq(s[1..], p);
      var f := Filter(s[1..], p);
      if p(s[0]) {
        assert Filter(s, p) == [s[0]] + f;
        assert ([s[0]] + f)[1..] == f;
      } else {
        assert Filter(s, p) == f;
        if |f| > 0 {
          assert IsSubseq(f, s[1..]);
        }
      }
    }
  }

  /** Filtering by a predicate every element satisfies changes nothing. */
  lemma {:induction false} FilterAll<T>(s: seq<T>, p: T -> bool)
    requires forall x | x in s :: p(x)
    ensures Filter(s, p) == s
  {
    if |s| > 0 {
      assert s[0] in s;
      FilterAll(s[1..], p);
    }
  }

  /** Filtering twice is filtering once by both tests. */
  lemma {:induction false} FilterFilter<T>(s: seq<T>, p: T -> bool, q: T -> bool, both: T -> bool)
    requires forall x :: both(x) == (p(x) && q(x))
    ensures Filter(Filter(s, p), q) == Filter(s, both)
  {
    if |s| > 0 {
      FilterFilter(s[1..], p, q, both);
      var f := Filter(s[1..], p);
      assert both(s[0]) == (p(s[0]) && q(s[0]));
      if p(s[0]) {
        var g := [s[0]] + f;
        assert Filter(s, p) == g;
        assert g[0] == s[0] && g[1..] == f;
        assert Filter(g, q) == (if q(s[0]) then [s[0]] else []) + Filter(f, q);
      } else {
        assert Filter(s, p) == f;
      }
    }
  }

  /** The position of the first `x` in `s`, or `|s|` when there is none
      (JavaScript's `indexOf`, with -1 written as `|s|`). */
  function FirstIndexOf<T(==)>(s: seq<T>, x: T): (r: nat)
    ensures r <= |s|
    ensures r < |s| ==> s[r] == x
    ensures forall j | 0 <= j < r :: s[j] != x
    ensures r == |s| <==> x !in s
  {
    if |s| == 0 then 0
    else if s[0] == x then 0
    else 1 + FirstIndexOf(s[1..], x)
  }

  lemma FirstIndexOfPrefix<T>(s: seq<T>, n: nat, x: T)
    requires n <= |s| && x in s[..n]
    ensures FirstIndexOf(s, x) == FirstIndexOf(s[..n], x)
  {
    var k := FirstIndexOf(s[..n], x);
    assert s[..n][k] == x;
    assert forall j | 0 <= j < k :: s[j] == s[..n][j];
  }

  /** `Array.from(new Set(s))`: the distinct elements of `s` in order of
      first occurrence. */
  function Dedup<T(==)>(s: seq<T>): (r: seq<T>)
    ensures Distinct(r)
    ensures forall x | x in r :: x in s
    ensures forall x | x in s :: x in r
  {
    if |s| == 0 then []
    else
      var d := Dedup(s[..|s| - 1]);
      if s[|s| - 1] in d then d else d + [s[|s| - 1]]
  }

  /** The de-duplicated list orders elements by their first occurrence. */
  lemma {:induction false} DedupFirstOccurrenceOrder<T>(s: seq<T>)
    ensures forall i, j | 0 <= i < j < |Dedup(s)| :: FirstIndexOf(s, Dedup(s)[i]) < FirstIndexOf(s, Dedup(s)[j])
  {
    if |s| > 0 {
      var n := |s| - 1;
      var d := Dedup(s[..n]);
      var x := s[n];
      DedupFirstOccurrenceOrder(s[..n]);
      assert s == s[..n] + [x];
      forall y | y in d
        ensures FirstIndexOf(s, y) == FirstIndexOf(s[..n], y) < n
      {
        FirstIndexOfPrefix(s, n, y);
      }
      if x !in d {
        assert forall j | 0 <= j < n :: s[j] != x by {
          forall j | 0 <= j < n
            ensures s[j] != x
          {
            assert s[j] == s[..n][j];
          }
        }
        assert FirstIndexOf(s, x) == n;
        var r := d + [x];
        assert Dedup(s) == r;
        forall i, j | 0 <= i < j < |r|
          ensures FirstIndexOf(s, r[i]) < FirstIndexOf(s, r[j])
        {
          assert r[i] == d[i];
          if j < |d| {
            assert r[j] == d[j];
          }
        }
      }
    }
  }

  /** Every element of the de-duplicated list sits at its first occurrence
      order; the list is a subsequence of the input. */
  lemma {:induction false} DedupIsSubseq<T>(s: seq<T>)
    ensures IsSubseq(Dedup(s), s)
  {
    if |s| > 0 {
      var n := |s| - 1;
      DedupIsSubseq(s[..n]);
      assert s == s[..n] + [s[n]];
      if s[n] in Dedup(s[..n]) {
        SubseqAppend(Dedup(s[..n]), s[..n], [], [s[n]]);
        assert Dedup(s[..n]) + [] == Dedup(s[..n]);
      } else {
        SubseqAppend(Dedup(s[..n]), s[..n], [s[n]], [s[n]]);
        SubseqRefl([s[n]]);
      }
    }
  }

  lemma {:induction false} SubseqAppend<T>(c: seq<T>, t: seq<T>, c2: seq<T>, t2: seq<T>)
    requires IsSubseq(c, t) && IsSubseq(c2, t2)
    ensures IsSubseq(c + c2, t + t2)
    decreases |t|
  {
    if |c| == 0 {
      SubseqSuffix(c2, t2, t);
      assert c + c2 == c2;
    } else if c[0] == t[0] && IsSubseq(c[1..], t[1..]) {
      SubseqAppend(c[1..], t[1..], c2, t2);
      assert (c + c2)[1..] == c[1..] + c2;
      assert (t + t2)[1..] == t[1..] + t2;
    } else {
      SubseqAppend(c, t[1..], c2, t2);
      assert (t + t2)[1..] == t[1..] + t2;
    }
  }

  lemma {:induction false} SubseqSuffix<T>(c: seq<T>, t: seq<T>, pre: seq<T>)
    requires IsSubseq(c, t)
    ensures IsSubseq(c, pre + t)
    decreases |pre|
  {
    if |pre| > 0 {
      SubseqSuffix(c, t, pre[1..]);
      var u := pre + t;
      assert u[1..] == pre[1..] + t;
      assert IsSubseq(c, u[1..]);
      assert |u| > 0;
    } else {
      assert pre + t == t;
    }
  }

  /** Appending an element not seen before appends it to the de-duplication. */
  lemma DedupSnoc<T>(s: seq<T>)
    requires |s| > 0 && s[|s| - 1] !in s[..|s| - 1]
    ensures Dedup(s) == Dedup(s[..|s| - 1]) + [s[|s| - 1]]
  {
  }

  /** A list without repetitions is its own de-duplication. */
  lemma {:induction false} DedupDistinct<T>(s: seq<T>)
    requires Distinct(s)
    ensures Dedup(s) == s
  {
    if |s| > 0 {
      var n := |s| - 1;
      var p := s[..n];
      assert Distinct(p) by {
        forall i, j | 0 <= i < j < n
          ensures p[i] != p[j]
        {
          assert p[i] == s[i] && p[j] == s[j];
        }
      }
      DedupDistinct(p);
      assert s[n] !in p by {
        forall i | 0 <= i < n
          ensures p[i] != s[n]
        {
          assert p[i] == s[i];
        }
      }
      DedupSnoc(s);
      assert s == p + [s[n]];
    }
  }

  /** `s.filter((x, i, a) => a.indexOf(x) === i)` restricted to the first
      `n` positions. */
  function KeepFirstUpTo<T(==)>(s: seq<T>, n: nat): seq<T>
    requires n <= |s|
  {
    if n == 0 then []
    else KeepFirstUpTo(s, n - 1) + (if FirstIndexOf(s, s[n - 1]) == n - 1 then [s[n - 1]] else [])
  }

  /** `s.filter((x, i, a) => a.indexOf(x) === i)`. */
  function KeepFirst<T(==)>(s: seq<T>): seq<T> {
    KeepFirstUpTo(s, |s|)
  }

  /** The `indexOf` filter and the `Set` round trip de-duplicate alike. */
  lemma {:induction false} KeepFirstIsDedup<T>(s: seq<T>)
    ensures KeepFirst(s) == Dedup(s)
  {
    assert s[..|s|] == s;
    KeepFirstUpToIsDedup(s, |s|);
  }

  lemma {:induction false} KeepFirstUpToIsDedup<T>(s: seq<T>, n: nat)
    requires n <= |s|
    ensures KeepFirstUpTo(s, n) == Dedup(s[..n])
  {
    if n > 0 {
      KeepFirstUpToIsDedup(s, n - 1);
      var x := s[n - 1];
      var p := s[..n - 1];
      assert s[..n][..n - 1] == p;
      assert s[..n][n - 1] == x;
      if x in p {
        FirstIndexOfPrefix(s, n - 1, x);
        assert FirstIndexOf(s, x) < n - 1;
      } else {
        assert s[..n] == p + [x];
        assert forall j | 0 <= j < n - 1 :: s[j] != x by {
          forall j | 0 <= j < n - 1
            ensures s[j] != x
          {
            assert s[j] == p[j];
          }
        }
        assert FirstIndexOf(s, x) == n - 1;
      }
    }
  }

  /** `p.map(r => [v, ...r])`. */
  function PrependEach<T>(v: T, p: seq<seq<T>>): (r: seq<seq<T>>)
    ensures |r| == |p|
    ensures forall i | 0 <= i < |p| :: r[i] == [v] + p[i]
  {
    seq(|p|, i requires 0 <= i < |p| => [v] + p[i])
  }

  /** A one-element subsequence is a member. */
  lemma {:induction false} SubseqSingleton<T>(x: T, t: seq<T>)
    ensures IsSubseq([x], t) <==> x in t
  {
    if |t| > 0 {
      SubseqSingleton(x, t[1..]);
      assert [x][1..] == [];
      assert x in t <==> x == t[0] || x in t[1..];
    }
  }

  /** A filter that keeps as many elements as it was given kept them all. */
  lemma {:induction false} FilterKeepsAll<T>(s: seq<T>, p: T -> bool)
    requires |Filter(s, p)| == |s|
    ensures forall x | x in s :: p(x)
  {
    if |s| > 0 {
      assert |Filter(s[1..], p)| <= |s| - 1;
      FilterKeepsAll(s[1..], p);
      forall x | x in s
        ensures p(x)
      {
        if x != s[0] {
          assert x in s[1..];
        }
      }
    }
  }
}
