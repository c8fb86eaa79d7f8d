/** A JavaScript object used as a string-keyed dictionary, modelled as its
    `Object.entries` list: keys are distinct and listed in insertion order
    (this holds for keys that are not array indices). Assigning to a key
    already present replaces its value in place; a new key goes last. */
module Entries {
  import opened Wrappers
  import opened Strings
  import opened Seqs

  type Entry<V> = (string, V)

  function Keys<V>(m: seq<Entry<V>>): (ks: seq<string>)
    ensures |ks| == |m|
    ensures forall i | 0 <= i < |m| :: ks[i] == m[i].0
  {
    seq(|m|, i requires 0 <= i < |m| => m[i].0)
  }

  predicate DistinctKeys<V>(m: seq<Entry<V>>) {
    forall i, j | 0 <= i < j < |m| :: m[i].0 != m[j].0
  }

  /** `obj[k] = v`. */
  function Put<V>(m: seq<Entry<V>>, k: string, v: V): (r: seq<Entry<V>>)
    requires DistinctKeys(m)
    ensures DistinctKeys(r)
    ensures (k, v) in r
    ensures forall e | e in r :: e == (k, v) || (e in m && e.0 != k)
    ensures forall e | e in m && e.0 != k :: e in r
    ensures k !in Keys(m) ==> r == m + [(k, v)]
    ensures k in Keys(m) ==> |r| == |m| && Keys(r) == Keys(m)
  {
    var i := FirstIndexOf(Keys(m), k);
    if i == |m| then m + [(k, v)]
    else
      var r := m[i := (k, v)];
      assert Keys(r) == Keys(m);
      assert forall e | e in m && e.0 != k :: e in r by {
        forall e | e in m && e.0 != k
          ensures e in r
        {
          var j :| 0 <= j < |m| && m[j] == e;
          assert r[j] == e;
        }
      }
      r
  }

  /** After `obj[k] = v` the keys are the old keys and `k`. */
  lemma PutKeys<V>(m: seq<Entry<V>>, k: string, v: V)
    requires DistinctKeys(m)
    ensures forall x :: x in Keys(Put(m, k, v)) <==> x in Keys(m) || x == k
  {
    var r := Put(m, k, v);
    forall x
      ensures x in Keys(r) <==> x in Keys(m) || x == k
    {
      if x in Keys(r) {
        var i :| 0 <= i < |r| && Keys(r)[i] == x;
        assert r[i] in r;
      }
      if x in Keys(m) && x != k {
        var i :| 0 <= i < |m| && Keys(m)[i] == x;
        assert m[i] in m;
        var j :| 0 <= j < |r| && r[j] == m[i];
        assert Keys(r)[j] == x;
      }
      if x == k {
        var j :| 0 <= j < |r| && r[j] == (k, v);
        assert Keys(r)[j] == x;
      }
    }
  }

  /** `obj[k]`: the value under `k`, if any. */
  function Get<V>(m: seq<Entry<V>>, k: string): (r: Option<V>)
    ensures r.Some? <==> k in Keys(m)
    ensures r.Some? ==> (k, r.value) in m
  {
    var i := FirstIndexOf(Keys(m), k);
    if i == |m| then None else Some(m[i].1)
  }

  /** Reading a key just assigned gives the assigned value. */
  lemma GetPut<V>(m: seq<Entry<V>>, k: string, v: V)
    requires DistinctKeys(m)
    ensures Get(Put(m, k, v), k) == Some(v)
  {
    var r := Put(m, k, v);
    var i := FirstIndexOf(Keys(m), k);
    if i == |m| {
      assert Keys(r) == Keys(m) + [k];
      assert FirstIndexOf(Keys(r), k) == |m|;
    } else {
      assert Keys(r) == Keys(m);
      assert r[i] == (k, v);
    }
  }

  /** Assigning a key the value it already has changes nothing. */
  lemma PutPresent<V>(m: seq<Entry<V>>, k: string, v: V)
    requires DistinctKeys(m) && Get(m, k) == Some(v)
    ensures Put(m, k, v) == m
  {
    var i := FirstIndexOf(Keys(m), k);
    assert m[i] == (k, v);
  }

  /** The object built by visiting `combos` in order and, for each
      combination the callback accepts, assigning the callback's value to
      the key `combination.join(" + ")`: the pattern shared by both
      tag-combination engines. */
  function Collect<V>(combos: seq<seq<string>>, entry: seq<string> -> Option<V>): (r: seq<Entry<V>>)
    ensures DistinctKeys(r)
    ensures forall e | e in r :: exists c | c in combos :: e.0 == Join(c, " + ") && entry(c) == Some(e.1)
    ensures forall c | c in combos && entry(c).Some? :: Join(c, " + ") in Keys(r)
  {
    if |combos| == 0 then []
    else
      var n := |combos| - 1;
      var acc := Collect(combos[..n], entry);
      var c := combos[n];
      assert combos == combos[..n] + [c];
      match entry(c)
      case None => acc
      case Some(v) =>
        var r := Put(acc, Join(c, " + "), v);
        PutKeys(acc, Join(c, " + "), v);
        r
  }

  /** At most one key per combination. */
  lemma {:induction false} CollectLength<V>(combos: seq<seq<string>>, entry: seq<string> -> Option<V>)
    ensures |Collect(combos, entry)| <= |combos|
  {
    if |combos| > 0 {
      var n := |combos| - 1;
      CollectLength(combos[..n], entry);
    }
  }

  /** When no two accepted combinations share a key, nothing is
      overwritten: the object lists the accepted combinations in visiting
      order. */
  function Accepted<V>(combos: seq<seq<string>>, entry: seq<string> -> Option<V>): seq<Entry<V>> {
    if |combos| == 0 then []
    else
      var n := |combos| - 1;
      Accepted(combos[..n], entry)
      + (match entry(combos[n]) case None => [] case Some(v) => [(Join(combos[n], " + "), v)])
  }

  lemma {:induction false} AcceptedKeys<V>(combos: seq<seq<string>>, entry: seq<string> -> Option<V>)
    ensures forall e | e in Accepted(combos, entry) :: exists c | c in combos :: e.0 == Join(c, " + ")
  {
    if |combos| > 0 {
      var n := |combos| - 1;
      AcceptedKeys(combos[..n], entry);
      forall e | e in Accepted(combos, entry)
        ensures exists c | c in combos :: e.0 == Join(c, " + ")
      {
        if e in Accepted(combos[..n], entry) {
          var c :| c in combos[..n] && e.0 == Join(c, " + ");
          assert c in combos;
        } else {
          assert combos[n] in combos;
        }
      }
    }
  }

  lemma {:induction false} CollectWithoutCollisions<V>(combos: seq<seq<string>>, entry: seq<string> -> Option<V>)
    requires forall i, j | 0 <= i < j < |combos| :: Join(combos[i], " + ") != Join(combos[j], " + ")
    ensures Collect(combos, entry) == Accepted(combos, entry)
  {
    if |combos| > 0 {
      var n := |combos| - 1;
      var c := combos[n];
      CollectWithoutCollisions(combos[..n], entry);
      AcceptedKeys(combos[..n], entry);
      var acc := Collect(combos[..n], entry);
      if entry(c).Some? {
        forall i | 0 <= i < |acc|
          ensures Keys(acc)[i] != Join(c, " + ")
        {
          assert acc[i] in Accepted(combos[..n], entry);
          var d :| d in combos[..n] && acc[i].0 == Join(d, " + ");
          var m :| 0 <= m < n && combos[..n][m] == d;
          assert combos[m] == d;
        }
      }
    }
  }

  /** `key.split(" + ").length`, the number of items a key was joined from. */
  function ItemCount(key: string): nat {
    |Split(key, " + ")|
  }

  /** A group key made of items without '+' (every vocabulary item, by
      `VocabularyHasNoPlus`) splits back into as many items as the
      combination has, so the final sort compares combination sizes. */
  lemma ItemCountOfKey(c: seq<string>)
    requires |c| > 0
    requires forall x | x in c :: '+' !in x
    ensures ItemCount(Join(c, " + ")) == |c|
  {
    forall k | 0 <= k < |c|
      ensures NoSepBefore(c[k], " + ")
    {
      assert c[k] in c;
      NoSepBeforeFromChar(c[k], " + ");
    }
    SplitJoinCount(c, " + ");
  }

  lemma KeyOfPermutation<V>(a: seq<Entry<V>>, b: seq<Entry<V>>, k: string)
    requires multiset(a) == multiset(b) && k in Keys(a)
    ensures k in Keys(b)
  {
    var i :| 0 <= i < |a| && Keys(a)[i] == k;
    assert a[i] in multiset(b);
    var j :| 0 <= j < |b| && b[j] == a[i];
    assert Keys(b)[j] == k;
  }

  /** A permutation of a list with distinct keys has distinct keys. */
  lemma DistinctKeysPermutation<V>(a: seq<Entry<V>>, b: seq<Entry<V>>, i: int, j: int)
    requires DistinctKeys(a) && multiset(a) == multiset(b)
    requires 0 <= i < j < |b|
    ensures b[i].0 != b[j].0
  {
    assert b[i] in multiset(a) && b[j] in multiset(a);
    EntryOccursOnce(a, b[i]);
    OccursOnceAt(b, i, j);
    DistinctEntriesDistinctKeys(a, b[i], b[j]);
  }

  /** With distinct keys, every entry occurs exactly once. */
  lemma {:induction false} EntryOccursOnce<V>(a: seq<Entry<V>>, e: Entry<V>)
    requires DistinctKeys(a) && e in a
    ensures multiset(a)[e] == 1
  {
    assert a == [a[0]] + a[1..];
    assert forall k | 0 <= k < |a| - 1 :: a[1..][k] != a[0] by {
      forall k | 0 <= k < |a| - 1
        ensures a[1..][k] != a[0]
      {
        assert a[0].0 != a[k + 1].0;
      }
    }
    assert a[0] !in a[1..];
    if e != a[0] {
      EntryOccursOnce(a[1..], e);
    }
  }

  /** An element occurring once in `b` is not repeated at a later index. */
  lemma OccursOnceAt<T>(b: seq<T>, i: int, j: int)
    requires 0 <= i < j < |b| && multiset(b)[b[i]] == 1
    ensures b[i] != b[j]
  {
    assert b == b[..j] + [b[j]] + b[j + 1..];
    assert b[..j][i] == b[i];
    assert multiset(b[..j])[b[i]] >= 1;
  }

  lemma DistinctEntriesDistinctKeys<V>(a: seq<Entry<V>>, x: Entry<V>, y: Entry<V>)
    requires DistinctKeys(a) && x in a && y in a && x != y
    ensures x.0 != y.0
  {
    var p :| 0 <= p < |a| && a[p] == x;
    var q :| 0 <= q < |a| && a[q] == y;
    assert p != q;
    assert p < q ==> a[p].0 != a[q].0;
    assert q < p ==> a[q].0 != a[p].0;
  }
}
