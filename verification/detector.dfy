/** The recommendation detector (src/lib/recommendTags.ts): every
    combination of one, two or three tags or professions seen in the
    roster whose matching operators, rarity 6 set aside, are all of rarity
    4 or more. Each such combination is reported with those operators,
    lowest rarity first; the report lists the surest combinations first. */
module Detector {
  import opened Wrappers
  import opened Strings
  import opened Seqs
  import opened StableSort
  import opened Entries
  import opened Roster
  import opened TagText

  /** The aliases left out of the tag universe. */
  const Excluded: seq<string> := [SeniorElite, Elite, Robot]

  /** The tags of an operator as the detector reads them: parsed from the
      string form, taken as they are from a list, none otherwise. */
  function OperatorTags(op: Operator): seq<string> {
    match op.tags
    case TagString(s) => ParseTagString(s)
    case TagList(l) => l
    case TagOther => []
  }

  /** `filterByCombination`'s per-item test: the profession first, then the
      parsed or listed tags. */
  predicate ItemMatches(op: Operator, item: string) {
    op.profession == item || item in OperatorTags(op)
  }

  /** `combination.every(...)`. */
  predicate Matches(op: Operator, combo: seq<string>) {
    forall i | 0 <= i < |combo| :: ItemMatches(op, combo[i])
  }

  /** The roster's tags with the aliases removed, one entry per tag
      occurrence, in roster order. */
  function TagOccurrences(roster: seq<Operator>): (r: seq<string>)
    ensures forall t | t in r :: t !in Excluded
    ensures forall t | t in r :: exists op | op in roster :: t in OperatorTags(op)
    ensures forall op, t | op in roster && t in OperatorTags(op) && t !in Excluded :: t in r
  {
    if |roster| == 0 then []
    else TagOccurrences(roster[..|roster| - 1]) + Filter(OperatorTags(roster[|roster| - 1]), t => t !in Excluded)
  }

  /** The roster's professions, one per operator. */
  function ProfessionsOf(roster: seq<Operator>): (r: seq<string>)
    ensures |r| == |roster|
    ensures forall i | 0 <= i < |roster| :: r[i] == roster[i].profession
  {
    seq(|roster|, i requires 0 <= i < |roster| => roster[i].profession)
  }

  /** `[...allTags, ...allTypes]`: the distinct non-alias tags in order of
      first appearance, then the distinct professions likewise. */
  function Universe(roster: seq<Operator>): seq<string> {
    Dedup(TagOccurrences(roster)) + Dedup(ProfessionsOf(roster))
  }

  /** Every tag that is not an alias and every profession of the roster is
      in the universe, and nothing else is; the tag part and the
      profession part are each without repetition. */
  lemma UniverseContents(roster: seq<Operator>, x: string)
    ensures x in Universe(roster) <==>
      (exists op | op in roster :: x in OperatorTags(op) && x !in Excluded)
      || (exists op | op in roster :: x == op.profession)
    ensures Distinct(Dedup(TagOccurrences(roster))) && Distinct(Dedup(ProfessionsOf(roster)))
  {
    var ts := TagOccurrences(roster);
    var ps := ProfessionsOf(roster);
    if exists op | op in roster :: x == op.profession {
      var op :| op in roster && x == op.profession;
      var i :| 0 <= i < |roster| && roster[i] == op;
      assert ps[i] == x;
    }
    if x in Dedup(ps) {
      var i :| 0 <= i < |ps| && ps[i] == x;
      assert roster[i] in roster;
    }
  }

  /** Combinations of one: `[tag]` for each element, in order. */
  function Singles(u: seq<string>): (r: seq<seq<string>>)
    ensures |r| == |u|
    ensures forall i | 0 <= i < |u| :: r[i] == [u[i]]
  {
    seq(|u|, i requires 0 <= i < |u| => [u[i]])
  }

  /** `[u[i], u[j]]` for `i < j`, ordered by `i` then `j`, as the nested
      loops produce them. */
  function Pairs(u: seq<string>): seq<seq<string>> {
    if |u| == 0 then []
    else PrependEach(u[0], Singles(u[1..])) + Pairs(u[1..])
  }

  /** `[u[i], u[j], u[k]]` for `i < j < k`, in loop order. */
  function Triples(u: seq<string>): seq<seq<string>> {
    if |u| == 0 then []
    else PrependEach(u[0], Pairs(u[1..])) + Triples(u[1..])
  }

  /** All combinations the detector examines, in the order it examines
      them: every single, then every pair, then every triple. */
  function Combos(u: seq<string>): seq<seq<string>> {
    Singles(u) + Pairs(u) + Triples(u)
  }

  lemma SinglesIff(u: seq<string>, c: seq<string>)
    ensures c in Singles(u) <==> |c| == 1 && IsSubseq(c, u)
  {
    if |c| == 1 {
      SubseqSingleton(c[0], u);
      assert c == [c[0]];
      if c[0] in u {
        var i :| 0 <= i < |u| && u[i] == c[0];
        assert Singles(u)[i] == c;
      }
    }
  }

  lemma {:induction false} PairsIff(u: seq<string>, c: seq<string>)
    ensures c in Pairs(u) <==> |c| == 2 && IsSubseq(c, u)
  {
    if |u| > 0 {
      var first := PrependEach(u[0], Singles(u[1..]));
      PairsIff(u[1..], c);
      if |c| == 2 {
        SinglesIff(u[1..], c[1..]);
        assert c == [c[0]] + c[1..];
        if c[0] == u[0] && IsSubseq(c[1..], u[1..]) {
          var i :| 0 <= i < |u| - 1 && Singles(u[1..])[i] == c[1..];
          assert first[i] == c;
        }
        if c in first {
          var i :| 0 <= i < |first| && first[i] == c;
          assert c[1..] == Singles(u[1..])[i];
        }
      } else {
        assert forall d | d in first :: |d| == 2;
      }
    }
  }

  lemma {:induction false} TriplesIff(u: seq<string>, c: seq<string>)
    ensures c in Triples(u) <==> |c| == 3 && IsSubseq(c, u)
  {
    if |u| > 0 {
      var first := PrependEach(u[0], Pairs(u[1..]));
      TriplesIff(u[1..], c);
      if |c| > 0 {
        PairsIff(u[1..], c[1..]);
        assert c == [c[0]] + c[1..];
        if |c| == 3 && c[0] == u[0] && IsSubseq(c[1..], u[1..]) {
          var i :| 0 <= i < |Pairs(u[1..])| && Pairs(u[1..])[i] == c[1..];
          assert first[i] == c;
        }
        if c in first {
          var i :| 0 <= i < |first| && first[i] == c;
          assert c[1..] == Pairs(u[1..])[i];
        }
      } else {
        assert forall d | d in first :: |d| > 0;
      }
    }
  }

  /** The detector examines exactly the combinations of one to three
      universe elements taken in universe order. */
  lemma CombosIff(u: seq<string>, c: seq<string>)
    ensures c in Combos(u) <==> 1 <= |c| <= 3 && IsSubseq(c, u)
  {
    SinglesIff(u, c);
    PairsIff(u, c);
    TriplesIff(u, c);
  }

  /** There are n + n(n-1)/2 + n(n-1)(n-2)/6 of them for a universe of n. */
  lemma CombosCount(u: seq<string>)
    ensures 6 * |Combos(u)| == 6 * |u| + 3 * (|u| * (|u| - 1)) + |u| * (|u| - 1) * (|u| - 2)
  {
    PairsCount(u);
    TriplesCount(u);
    assert |Combos(u)| == |u| + |Pairs(u)| + |Triples(u)|;
  }

  lemma {:induction false} PairsCount(u: seq<string>)
    ensures 2 * |Pairs(u)| == |u| * (|u| - 1)
  {
    if |u| > 0 {
      PairsCount(u[1..]);
      var n := |u| - 1;
      assert |Pairs(u)| == n + |Pairs(u[1..])|;
      assert 2 * n + n * (n - 1) == (n + 1) * n;
    }
  }

  lemma {:induction false} TriplesCount(u: seq<string>)
    ensures 6 * |Triples(u)| == |u| * (|u| - 1) * (|u| - 2)
  {
    if |u| > 0 {
      TriplesCount(u[1..]);
      PairsCount(u[1..]);
      var n := |u| - 1;
      var m := n * (n - 1);
      assert |Triples(u)| == |Pairs(u[1..])| + |Triples(u[1..])|;
      assert 6 * |Triples(u[1..])| == m * (n - 2);
      assert 6 * |Triples(u)| == 3 * m + m * (n - 2);
      TriplesStep(n, m);
    }
  }

  lemma TriplesStep(n: int, m: int)
    requires m == n * (n - 1)
    ensures 3 * m + m * (n - 2) == (n + 1) * n * (n - 1)
  {
    assert 3 * m + m * (n - 2) == m * (n + 1);
    assert (n + 1) * n * (n - 1) == (n + 1) * (n * (n - 1));
  }

  /** `op => op.rarity` as the ascending sort key. */
  function RarityRank(op: Operator): Rank {
    Rank(op.rarity, 0, 0)
  }

  /** The combination's verdict: among the matching operators of rarity
      other than 6, every one has rarity 4 or more and there is at least
      one; the value is that list, stably sorted by ascending rarity. */
  function Recommendation(roster: seq<Operator>, c: seq<string>): Option<seq<Operator>> {
    var filtered := Filter(roster, op => Matches(op, c));
    var valid := Filter(filtered, (op: Operator) => op.rarity != 6);
    var high := Filter(valid, (op: Operator) => op.rarity >= 4);
    if |high| > 0 && |high| == |valid| then Some(SortBy(high, RarityRank)) else None
  }

  /** The operators of rarity other than 6 that match every item. */
  predicate Eligible(op: Operator, c: seq<string>) {
    Matches(op, c) && op.rarity != 6
  }

  /** `v` lists only eligible operators of rarity 4 or 5, and every
      eligible operator of the roster. */
  predicate Guarantees(roster: seq<Operator>, c: seq<string>, v: seq<Operator>) {
    (forall op | op in v :: op in roster && Eligible(op, c) && 4 <= op.rarity <= 5)
    && (forall op | op in roster && Eligible(op, c) :: op in v)
  }

  /** A combination is recommended exactly when some eligible operator
      exists and none has rarity below 4; the recommended list holds the
      eligible operators, each as often as in the roster, sorted by
      ascending rarity. */
  lemma RecommendationIff(roster: seq<Operator>, c: seq<string>)
    ensures Recommendation(roster, c).Some? <==>
      (exists op | op in roster :: Eligible(op, c))
      && (forall op | op in roster && Eligible(op, c) :: op.rarity >= 4)
    ensures Recommendation(roster, c).Some? ==>
      var v := Recommendation(roster, c).value;
      |v| > 0 && Sorted(v, RarityRank) && Guarantees(roster, c, v)
  {
    var filtered := Filter(roster, op => Matches(op, c));
    var valid := Filter(filtered, (op: Operator) => op.rarity != 6);
    var high := Filter(valid, (op: Operator) => op.rarity >= 4);
    assert forall op | op in valid :: op in roster && Eligible(op, c);
    assert forall op | op in roster && Eligible(op, c) :: op in valid;
    if |high| > 0 && |high| == |valid| {
      FilterKeepsAll(valid, (op: Operator) => op.rarity >= 4);
      var v := SortBy(high, RarityRank);
      forall op | op in v
        ensures op in high
      {
        assert op in multiset(v);
      }
      forall op | op in high
        ensures op in v
      {
        assert op in multiset(high);
      }
    }
    if (exists op | op in roster :: Eligible(op, c)) && (forall op | op in roster && Eligible(op, c) :: op.rarity >= 4) {
      var op :| op in roster && Eligible(op, c);
      assert op in high;
      FilterAll(valid, (op: Operator) => op.rarity >= 4);
    }
  }

  /** The recommended list is the eligible operators sorted by ascending
      rarity, each exactly as often as in the roster; the sort is stable, so
      operators of equal rarity keep their roster order. */
  lemma RecommendedList(roster: seq<Operator>, c: seq<string>)
    requires Recommendation(roster, c).Some?
    ensures multiset(Recommendation(roster, c).value) == multiset(Filter(roster, op => Eligible(op, c)))
    ensures Sorted(Recommendation(roster, c).value, RarityRank)
    ensures forall k :: OfRank(Recommendation(roster, c).value, RarityRank, k) == OfRank(Filter(roster, op => Eligible(op, c)), RarityRank, k)
  {
    var filtered := Filter(roster, op => Matches(op, c));
    var valid := Filter(filtered, (op: Operator) => op.rarity != 6);
    var high := Filter(valid, (op: Operator) => op.rarity >= 4);
    FilterFilter(roster, op => Matches(op, c), (op: Operator) => op.rarity != 6, op => Eligible(op, c));
    FilterKeepsAll(valid, (op: Operator) => op.rarity >= 4);
    FilterAll(valid, (op: Operator) => op.rarity >= 4);
    assert high == valid;
  }

  /** `Math.min(...ops.map(op => op.rarity))`; 7 stands for the `Infinity`
      of an empty list, which never reaches the comparator. */
  function MinRarity(ops: seq<Operator>): (m: int)
    ensures |ops| > 0 ==> exists i | 0 <= i < |ops| :: ops[i].rarity == m
    ensures forall op | op in ops :: m <= op.rarity
    ensures |ops| == 0 ==> m == 7
  {
    if |ops| == 0 then 7
    else
      var rest := MinRarity(ops[1..]);
      assert forall op | op in ops :: op == ops[0] || op in ops[1..];
      if ops[0].rarity <= rest then ops[0].rarity
      else
        var i :| 0 <= i < |ops| - 1 && ops[1..][i].rarity == rest;
        assert ops[i + 1].rarity == rest;
        rest
  }

  /** The report order: higher minimum rarity first, then fewer items,
      then fewer operators. */
  function ReportRank(e: Entry<seq<Operator>>): Rank {
    Rank(-MinRarity(e.1), ItemCount(e.0), |e.1|)
  }

  /** The recommended combinations in the order they were examined. */
  function Recommended(roster: seq<Operator>): seq<Entry<seq<Operator>>> {
    Collect(Combos(Universe(roster)), c => Recommendation(roster, c))
  }

  /** `detectRecommendedTags(recruitData)`. */
  function DetectRecommendedTags(roster: Option<seq<Operator>>): (r: seq<Entry<seq<Operator>>>)
    ensures roster.None? || |roster.value| == 0 ==> r == []
    ensures roster.Some? && |roster.value| > 0 ==> multiset(r) == multiset(Recommended(roster.value))
    ensures Sorted(r, ReportRank)
    ensures roster.Some? && |roster.value| > 0 ==> forall k :: OfRank(r, ReportRank, k) == OfRank(Recommended(roster.value), ReportRank, k)
  {
    if roster.None? || |roster.value| == 0 then []
    else SortBy(Recommended(roster.value), ReportRank)
  }

  /** Every reported entry is a combination of one to three universe
      elements, in universe order, under its joined key, with the
      recommendation for it. */
  lemma DetectSound(roster: seq<Operator>, e: Entry<seq<Operator>>)
    requires e in DetectRecommendedTags(Some(roster))
    ensures exists c | 1 <= |c| <= 3 && IsSubseq(c, Universe(roster)) ::
      e.0 == Join(c, " + ") && Recommendation(roster, c) == Some(e.1)
  {
    var r := DetectRecommendedTags(Some(roster));
    assert e in multiset(r);
    var c :| c in Combos(Universe(roster)) && e.0 == Join(c, " + ") && Recommendation(roster, c) == Some(e.1);
    CombosIff(Universe(roster), c);
  }

  /** The universe elements a reported key is joined from. */
  lemma DetectKeyItems(roster: seq<Operator>, e: Entry<seq<Operator>>) returns (c: seq<string>)
    requires e in DetectRecommendedTags(Some(roster))
    ensures 1 <= |c| <= 3
    ensures forall k | 0 <= k < |c| :: c[k] in Universe(roster)
    ensures e.0 == Join(c, " + ")
  {
    DetectSound(roster, e);
    c :| 1 <= |c| <= 3 && IsSubseq(c, Universe(roster)) && e.0 == Join(c, " + ") && Recommendation(roster, c) == Some(e.1);
    SubseqElements(c, Universe(roster));
    forall k | 0 <= k < |c|
      ensures c[k] in Universe(roster)
    {
      assert c[k] in c;
    }
  }

  /** Every reported list guarantees rarity 4 or more: its operators have
      rarity 4 or 5, and every operator of rarity other than 6 that
      matches the key's items is in it. */
  lemma DetectGuarantee(roster: seq<Operator>, e: Entry<seq<Operator>>)
    requires e in DetectRecommendedTags(Some(roster))
    ensures |e.1| > 0 && 4 <= MinRarity(e.1) <= 5
    ensures exists c | 1 <= |c| <= 3 && IsSubseq(c, Universe(roster)) && e.0 == Join(c, " + ") ::
      Guarantees(roster, c, e.1)
  {
    DetectSound(roster, e);
    var c :| 1 <= |c| <= 3 && IsSubseq(c, Universe(roster)) && e.0 == Join(c, " + ") && Recommendation(roster, c) == Some(e.1);
    RecommendationIff(roster, c);
    MinRarityBounds(e.1);
  }

  lemma MinRarityBounds(ops: seq<Operator>)
    requires |ops| > 0 && forall op | op in ops :: 4 <= op.rarity <= 5
    ensures 4 <= MinRarity(ops) <= 5
  {
    var i :| 0 <= i < |ops| && ops[i].rarity == MinRarity(ops);
    assert ops[i] in ops;
  }

  /** Every recommended combination of universe elements is reported. */
  lemma DetectComplete(roster: seq<Operator>, c: seq<string>)
    requires 1 <= |c| <= 3 && IsSubseq(c, Universe(roster))
    requires exists op | op in roster :: Eligible(op, c)
    requires forall op | op in roster && Eligible(op, c) :: op.rarity >= 4
    ensures Join(c, " + ") in Keys(DetectRecommendedTags(Some(roster)))
  {
    RecommendationIff(roster, c);
    CombosIff(Universe(roster), c);
    KeyOfPermutation(Recommended(roster), DetectRecommendedTags(Some(roster)), Join(c, " + "));
  }

  /** The report is an object: no key occurs twice. */
  lemma DetectDistinctKeys(roster: Option<seq<Operator>>)
    ensures DistinctKeys(DetectRecommendedTags(roster))
  {
    if roster.Some? && |roster.value| > 0 {
      var a := Recommended(roster.value);
      var r := DetectRecommendedTags(roster);
      forall i, j | 0 <= i < j < |r|
        ensures r[i].0 != r[j].0
      {
        DistinctKeysPermutation(a, r, i, j);
      }
    }
  }

  /** An operator whose `tags` is neither a list nor a string matches a
      combination only through its profession. */
  lemma UnreadableTagsMatchByProfession(op: Operator, c: seq<string>)
    requires op.tags.TagOther?
    ensures Matches(op, c) <==> forall i | 0 <= i < |c| :: c[i] == op.profession
  {
  }

  /** When no profession is one of the aliases, no reported key is made
      from an alias. */
  lemma ReportedKeysAvoidAliases(roster: seq<Operator>, e: Entry<seq<Operator>>) returns (c: seq<string>)
    requires forall op | op in roster :: op.profession !in Excluded
    requires e in DetectRecommendedTags(Some(roster))
    ensures e.0 == Join(c, " + ") && 1 <= |c| <= 3
    ensures forall k | 0 <= k < |c| :: c[k] !in Excluded
  {
    c := DetectKeyItems(roster, e);
    forall k | 0 <= k < |c|
      ensures c[k] !in Excluded
    {
      UniverseContents(roster, c[k]);
    }
  }

  /** The legacy string form of a non-empty list of plain tags matches
      exactly the combinations the list form matches. */
  lemma StringFormMatchesLikeList(op: Operator, ts: seq<string>, c: seq<string>)
    requires |ts| > 0 && forall i | 0 <= i < |ts| :: PlainTag(ts[i])
    ensures Matches(op.(tags := TagString(FormatTagString(ts))), c) <==> Matches(op.(tags := TagList(ts)), c)
  {
    ParseFormat(ts);
  }
}
