/** The live filter (src/hooks/useFilterOperators.ts): for every non-empty
    sub-combination of the user's selection, the roster operators that
    satisfy every item of it, grouped under the key
    `items.join(" + ")` and ordered by item count, largest first. */
module LiveFilter {
  import opened Wrappers
  import opened Strings
  import opened Seqs
  import opened StableSort
  import opened Entries
  import opened Roster

  /** `operator.tags.includes(item)`: list membership for a list, substring
      search for the legacy string form. Any other value has no `includes`
      and throws; `FilterOperators` requires that it does not occur. */
  predicate TagsInclude(tags: TagField, item: string) {
    match tags
    case TagList(l) => item in l
    case TagString(s) => Contains(s, item)
    case TagOther => false
  }

  /** The per-item test: the two rarity aliases first, then the gate that
      hides rarity-6 operators from combinations without the Senior Elite
      alias, then literal tag or profession membership. */
  predicate ItemMatches(op: Operator, combo: seq<string>, item: string) {
    if item == Elite && op.rarity == 5 then true
    else if item == SeniorElite && op.rarity == 6 then true
    else if op.rarity == 6 && SeniorElite !in combo then false
    else TagsInclude(op.tags, item) || op.profession == item
  }

  /** `combination.every(item => ...)`. */
  predicate Matches(op: Operator, combo: seq<string>) {
    forall i | 0 <= i < |combo| :: ItemMatches(op, combo, combo[i])
  }

  /** The roster-order list of operators satisfying every item of `combo`. */
  function MatchingOperators(roster: seq<Operator>, combo: seq<string>): (g: seq<Operator>)
    ensures forall op | op in g :: op in roster && Matches(op, combo)
    ensures forall op | op in roster && Matches(op, combo) :: op in g
    ensures IsSubseq(g, roster)
  {
    FilterIsSubseq(roster, op => Matches(op, combo));
    Filter(roster, op => Matches(op, combo))
  }

  function Pow2(n: nat): (r: nat)
    ensures r >= 1
  {
    if n == 0 then 1 else 2 * Pow2(n - 1)
  }

  function Reverse<T>(s: seq<T>): (r: seq<T>)
    ensures |r| == |s|
    ensures forall i | 0 <= i < |s| :: r[i] == s[|s| - 1 - i]
  {
    if |s| == 0 then [] else [s[|s| - 1]] + Reverse(s[..|s| - 1])
  }

  /** `items.reduce((a, v) => a.concat(a.map(r => [v, ...r])), [[]])`:
      every subset of `items`, the empty one included, each listing its
      items in reverse selection order. */
  function Combinations(items: seq<string>): (r: seq<seq<string>>)
    ensures |r| == Pow2(|items|)
    ensures |r| > 0 && r[0] == []
  {
    if |items| == 0 then [[]]
    else
      var p := Combinations(items[..|items| - 1]);
      p + PrependEach(items[|items| - 1], p)
  }

  /** `.filter(c => c.length > 0)` over the combinations. */
  function NonEmptyCombinations(items: seq<string>): seq<seq<string>> {
    Filter(Combinations(items), c => |c| > 0)
  }

  /** The group a combination contributes, if any operator matches it. */
  function Group(roster: seq<Operator>, combo: seq<string>): Option<seq<Operator>> {
    var g := MatchingOperators(roster, combo);
    if |g| > 0 then Some(g) else None
  }

  /** The sort order: more items first. */
  function SizeRank(e: Entry<seq<Operator>>): Rank {
    Rank(-(ItemCount(e.0) as int), 0, 0)
  }

  /** The groups in generation order, before the final sort. */
  function Grouped(roster: seq<Operator>, selected: seq<string>): seq<Entry<seq<Operator>>> {
    Collect(NonEmptyCombinations(selected), c => Group(roster, c))
  }

  /** No operator's `tags` is a value without an `includes` method. */
  predicate TagsReadable(roster: seq<Operator>) {
    forall i | 0 <= i < |roster| :: !roster[i].tags.TagOther?
  }

  /** `useFilterOperators(recruitData, selectedItems)`: no roster or no
      selection gives the empty object; otherwise the collected groups,
      stably sorted so that longer combinations come first. */
  function FilterOperators(roster: Option<seq<Operator>>, selected: seq<string>): (r: seq<Entry<seq<Operator>>>)
    requires roster.Some? ==> TagsReadable(roster.value)
    ensures roster.None? || |selected| == 0 ==> r == []
    ensures roster.Some? && |selected| > 0 ==> multiset(r) == multiset(Grouped(roster.value, selected))
    ensures Sorted(r, SizeRank)
    ensures roster.Some? && |selected| > 0 ==> forall k :: OfRank(r, SizeRank, k) == OfRank(Grouped(roster.value, selected), SizeRank, k)
  {
    if roster.None? || |selected| == 0 then []
    else SortBy(Grouped(roster.value, selected), SizeRank)
  }

  /** There are fewer groups than subsets of the selection, the empty one
      being left out; with the selection capped at six items
      (src/components/recruit.tsx), at most 63. */
  lemma GroupCountBound(roster: Option<seq<Operator>>, selected: seq<string>)
    requires roster.Some? ==> TagsReadable(roster.value)
    ensures |FilterOperators(roster, selected)| < Pow2(|selected|)
    ensures |selected| <= 6 ==> |FilterOperators(roster, selected)| <= 63
  {
    if roster.Some? && |selected| > 0 {
      var r := FilterOperators(roster, selected);
      var cs := Combinations(selected);
      assert |r| == |multiset(r)| == |Grouped(roster.value, selected)|;
      CollectLength(NonEmptyCombinations(selected), c => Group(roster.value, c));
      assert NonEmptyCombinations(selected) == Filter(cs[1..], c => |c| > 0);
    }
    if |selected| <= 6 {
      Pow2Monotone(|selected|, 6);
      assert Pow2(6) == 64;
    }
  }

  lemma {:induction false} Pow2Monotone(m: nat, n: nat)
    requires m <= n
    ensures Pow2(m) <= Pow2(n)
  {
    if m < n {
      Pow2Monotone(m, n - 1);
    }
  }

  /** Every group of the result is a non-empty combination of the
      selection under its joined key, holding exactly the roster-order
      list of operators that match it, and that list is not empty. */
  lemma FilterOperatorsSound(roster: seq<Operator>, selected: seq<string>, e: Entry<seq<Operator>>)
    requires TagsReadable(roster)
    requires e in FilterOperators(Some(roster), selected)
    ensures exists c | c in Combinations(selected) ::
      |c| > 0 && e.0 == Join(c, " + ") && e.1 == MatchingOperators(roster, c) && |e.1| > 0
  {
    var r := FilterOperators(Some(roster), selected);
    assert e in multiset(r);
    var c :| c in NonEmptyCombinations(selected) && e.0 == Join(c, " + ") && Group(roster, c) == Some(e.1);
  }

  /** Every non-empty combination some operator matches has a group. */
  lemma FilterOperatorsComplete(roster: seq<Operator>, selected: seq<string>, c: seq<string>)
    requires TagsReadable(roster)
    requires c in Combinations(selected) && |c| > 0 && |MatchingOperators(roster, c)| > 0
    ensures Join(c, " + ") in Keys(FilterOperators(Some(roster), selected))
  {
    assert c in NonEmptyCombinations(selected);
    assert Group(roster, c).Some?;
    KeyOfPermutation(Grouped(roster, selected), FilterOperators(Some(roster), selected), Join(c, " + "));
  }

  /** The result is an object: no key occurs twice. */
  lemma FilterOperatorsDistinctKeys(roster: Option<seq<Operator>>, selected: seq<string>)
    requires roster.Some? ==> TagsReadable(roster.value)
    ensures DistinctKeys(FilterOperators(roster, selected))
  {
    if roster.Some? && |selected| > 0 {
      var grouped := Grouped(roster.value, selected);
      var r := FilterOperators(roster, selected);
      forall i, j | 0 <= i < j < |r|
        ensures r[i].0 != r[j].0
      {
        DistinctKeysPermutation(grouped, r, i, j);
      }
    }
  }

  /** Every combination lists some of the selected items, in reverse
      selection order. */
  lemma {:induction false} CombinationsSound(items: seq<string>)
    ensures forall c | c in Combinations(items) :: IsSubseq(c, Reverse(items))
  {
    if |items| > 0 {
      var n := |items| - 1;
      var v := items[n];
      var p := Combinations(items[..n]);
      CombinationsSound(items[..n]);
      var rev := Reverse(items);
      assert rev == [v] + Reverse(items[..n]);
      forall c | c in Combinations(items)
        ensures IsSubseq(c, rev)
      {
        if c in p {
          SubseqSuffix(c, Reverse(items[..n]), [v]);
        } else {
          var i :| 0 <= i < |p| && c == PrependEach(v, p)[i];
          assert c == [v] + p[i];
          assert c[1..] == p[i];
          assert p[i] in p;
        }
      }
    }
  }

  /** Every way of picking some selected items, in reverse selection order,
      is one of the combinations. */
  lemma {:induction false} CombinationsComplete(items: seq<string>, c: seq<string>)
    requires IsSubseq(c, Reverse(items))
    ensures c in Combinations(items)
  {
    if |items| == 0 {
      assert c == [];
    } else {
      var n := |items| - 1;
      var v := items[n];
      var p := Combinations(items[..n]);
      var rev := Reverse(items);
      assert rev == [v] + Reverse(items[..n]);
      assert rev[1..] == Reverse(items[..n]);
      if |c| == 0 {
        assert c == p[0];
      } else if c[0] == v && IsSubseq(c[1..], rev[1..]) {
        CombinationsComplete(items[..n], c[1..]);
        var i :| 0 <= i < |p| && p[i] == c[1..];
        assert c == [v] + c[1..];
        assert PrependEach(v, p)[i] == c;
        assert c in PrependEach(v, p);
      } else {
        CombinationsComplete(items[..n], c);
      }
    }
  }

  /** Selecting two items yields, in order, the first alone, the second
      alone, and both with the later one first. */
  lemma CombinationsOfTwo(a: string, b: string)
    ensures NonEmptyCombinations([a, b]) == [[a], [b], [b, a]]
  {
    assert [a, b][..1] == [a];
    assert [a][..0] == [];
    assert [a] + [] == [a];
    assert PrependEach(a, [[]]) == [[a]];
    assert Combinations([a]) == [[], [a]];
    var q := PrependEach(b, [[], [a]]);
    assert q[0] == [b] + [] == [b];
    assert q[1] == [b] + [a] == [b, a];
    assert q == [[b], [b, a]];
    var all := Combinations([a, b]);
    assert all == [[], [a], [b], [b, a]];
    assert all[1..] == [[a], [b], [b, a]];
    FilterAll(all[1..], (c: seq<string>) => |c| > 0);
  }

  /** A rarity-6 operator satisfies no combination that lacks the Senior
      Elite alias, and satisfies the alias itself. */
  lemma SeniorEliteGate(op: Operator, combo: seq<string>)
    requires op.rarity == 6 && |combo| > 0
    ensures Matches(op, combo) ==> SeniorElite in combo
    ensures Matches(op, [SeniorElite])
  {
    assert combo[0] in combo;
    assert ItemMatches(op, combo, combo[0]) <== Matches(op, combo);
    assert [SeniorElite][0] == SeniorElite;
  }

  /** Selected alone, the Elite alias admits every rarity-5 operator,
      never a rarity-6 one, and otherwise falls back to the literal test. */
  lemma EliteAlias(op: Operator)
    ensures op.rarity == 5 ==> Matches(op, [Elite])
    ensures op.rarity == 6 ==> !Matches(op, [Elite])
    ensures op.rarity < 5 ==> (Matches(op, [Elite]) <==> TagsInclude(op.tags, Elite) || op.profession == Elite)
  {
    assert [Elite][0] == Elite;
    assert SeniorElite !in [Elite];
  }

  /** Below rarity 6 an item's test does not look at the rest of the
      combination, so an operator matching a combination matches every
      combination made of some of its items. */
  lemma MatchesFewerItems(op: Operator, c: seq<string>, d: seq<string>)
    requires op.rarity != 6
    requires Matches(op, c)
    requires forall x | x in d :: x in c
    ensures Matches(op, d)
  {
    forall i | 0 <= i < |d|
      ensures ItemMatches(op, d, d[i])
    {
      assert d[i] in d;
      var k :| 0 <= k < |c| && c[k] == d[i];
      assert ItemMatches(op, c, c[k]);
    }
  }

  /** When no selected item contains '+', groups from larger combinations
      come before groups from smaller ones. */
  lemma LargerCombinationsFirst(roster: seq<Operator>, selected: seq<string>, i: int, j: int, ci: seq<string>, cj: seq<string>)
    requires TagsReadable(roster)
    requires 0 <= i < j < |FilterOperators(Some(roster), selected)|
    requires forall x | x in selected :: '+' !in x
    requires ci in Combinations(selected) && |ci| > 0 && FilterOperators(Some(roster), selected)[i].0 == Join(ci, " + ")
    requires cj in Combinations(selected) && |cj| > 0 && FilterOperators(Some(roster), selected)[j].0 == Join(cj, " + ")
    ensures |ci| >= |cj|
  {
    CombinationsSound(selected);
    SubseqElements(ci, Reverse(selected));
    SubseqElements(cj, Reverse(selected));
    ReverseElements(selected);
    ItemCountOfKey(ci);
    ItemCountOfKey(cj);
  }

  lemma ReverseElements(s: seq<string>)
    ensures forall x | x in Reverse(s) :: x in s
  {
    forall x | x in Reverse(s)
      ensures x in s
    {
      var i :| 0 <= i < |s| && Reverse(s)[i] == x;
      assert s[|s| - 1 - i] == x;
    }
  }

}
