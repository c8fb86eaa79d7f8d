/** The data side of the recommendation page
    (src/components/recommend-tags.tsx): sorting the reported combinations
    into the "rarity 5 guaranteed" and "rarity 4 or more guaranteed"
    sections by the label their key carries, and finding the optimized
    image component for an operator's icon. */
module RecommendView {
  import opened Wrappers
  import opened Strings
  import opened Seqs
  import opened Entries
  import opened Roster
  import opened Detector
  import opened ComponentName

  const Label5: string := "[星5確定]"
  const Label4: string := "[星4以上確定]"
  /** What is cut from a key: the label with the space before it. */
  const Suffix5: string := " [星5確定]"
  const Suffix4: string := " [星4以上確定]"

  datatype Tier = Star5 | Star4Plus

  /** One card of a section: the key without its label, and the operators. */
  datatype Card = Card(tags: string, operators: seq<Operator>)

  /** `grouped`: the two sections. */
  datatype Sections = Sections(star5: seq<Card>, star4plus: seq<Card>)

  /** The section a key belongs to; the rarity-5 label wins when a key
      carries both, and a key with neither belongs nowhere. */
  function Classify(key: string): Option<Tier> {
    if Contains(key, Label5) then Some(Star5)
    else if Contains(key, Label4) then Some(Star4Plus)
    else None
  }

  function SuffixOf(tier: Tier): string {
    match tier
    case Star5 => Suffix5
    case Star4Plus => Suffix4
  }

  /** The heading shown on a card: the key with the first occurrence of
      its section's suffix removed. */
  function CardOf(e: Entry<seq<Operator>>, tier: Tier): Card {
    Card(ReplaceFirst(e.0, SuffixOf(tier), ""), e.1)
  }

  /** The body of `groupedByRarity`: each entry, in order, pushed onto the
      section its key names, or skipped. */
  function GroupByRarity(entries: seq<Entry<seq<Operator>>>): (g: Sections)
    ensures |g.star5| + |g.star4plus| <= |entries|
  {
    if |entries| == 0 then Sections([], [])
    else
      var g := GroupByRarity(entries[..|entries| - 1]);
      var e := entries[|entries| - 1];
      match Classify(e.0)
      case Some(Star5) => Sections(g.star5 + [CardOf(e, Star5)], g.star4plus)
      case Some(Star4Plus) => Sections(g.star5, g.star4plus + [CardOf(e, Star4Plus)])
      case None => g
  }

  /** The cards of one section, described without the loop: the entries
      classified into it, in order, each turned into its card. */
  function SectionOf(entries: seq<Entry<seq<Operator>>>, tier: Tier): (r: seq<Card>)
    ensures |r| <= |entries|
  {
    if |entries| == 0 then []
    else
      var e := entries[|entries| - 1];
      SectionOf(entries[..|entries| - 1], tier) + (if Classify(e.0) == Some(tier) then [CardOf(e, tier)] else [])
  }

  /** Each section holds exactly the entries classified into it, in input
      order, with the operator lists passed through. */
  lemma {:induction false} GroupByRaritySections(entries: seq<Entry<seq<Operator>>>)
    ensures GroupByRarity(entries).star5 == SectionOf(entries, Star5)
    ensures GroupByRarity(entries).star4plus == SectionOf(entries, Star4Plus)
  {
    if |entries| > 0 {
      GroupByRaritySections(entries[..|entries| - 1]);
    }
  }

  /** A key with no '[' carries neither label and is dropped. */
  lemma UnlabelledKeyDropped(key: string)
    requires '[' !in key
    ensures Classify(key) == None
  {
    NotContainsFirstChar(key, Label5);
    NotContainsFirstChar(key, Label4);
  }

  /** A key made of a heading that does not contain the rarity-5 label,
      followed by the rarity-5 suffix, goes to the rarity-5 section and is
      shown as exactly that heading. */
  lemma Star5LabelRoundTrip(t: string, ops: seq<Operator>)
    requires !Contains(t, Label5)
    ensures Classify(t + Suffix5) == Some(Star5)
    ensures CardOf((t + Suffix5, ops), Star5) == Card(t, ops)
  {
    assert Suffix5 == [' '] + Label5;
    ReplaceAppendedLabel(t, Label5);
    ContainsIff(t + Suffix5, Label5);
  }

  /** A key made of a heading that contains neither label, followed by the
      rarity-4 suffix, goes to the rarity-4 section and is shown as exactly
      that heading. */
  lemma Star4LabelRoundTrip(t: string, ops: seq<Operator>)
    requires !Contains(t, Label5) && !Contains(t, Label4)
    ensures Classify(t + Suffix4) == Some(Star4Plus)
    ensures CardOf((t + Suffix4, ops), Star4Plus) == Card(t, ops)
  {
    var s := t + Suffix4;
    assert Suffix4 == [' '] + Label4;
    ReplaceAppendedLabel(t, Label4);
    ContainsIff(s, Label4);
    forall j | 0 <= j
      ensures !At(s, Label5, j)
    {
      NoLabel5InStar4Key(t, j);
    }
    ContainsIff(s, Label5);
  }

  /** The step of `Star4LabelRoundTrip` for one start `j`: the rarity-5
      label neither lies in `t` nor straddles the space or the rarity-4
      suffix, whose digit is '4'. */
  lemma NoLabel5InStar4Key(t: string, j: nat)
    requires !Contains(t, Label5)
    ensures !At(t + Suffix4, Label5, j)
  {
    var s := t + Suffix4;
    if j + |Label5| <= |t| {
      ContainsIff(t, Label5);
      AtPrefix(t, Suffix4, Label5, j);
    } else if j < |t| {
      var k := |t| - j;
      assert s[j + k] == ' ';
      NotAtMismatch(s, Label5, j, k);
    } else if j == |t| + 1 {
      assert j + 2 < |s| ==> s[j + 2] == '4';
      NotAtMismatch(s, Label5, j, 2);
    } else {
      assert j < |s| ==> s[j] == Suffix4[j - |t|];
      NotAtMismatch(s, Label5, j, 0);
    }
  }

  /** The recommendation page as written: the detector's report handed to
      the grouping unchanged. */
  function RecommendPage(roster: seq<Operator>): Sections {
    GroupByRarity(DetectRecommendedTags(Some(roster)))
  }

  /** No tag or profession of the roster contains a square bracket. */
  predicate BracketFree(roster: seq<Operator>) {
    forall x | x in Universe(roster) :: '[' !in x && ']' !in x
  }

  /** Report keys are joined universe elements, so without a '[' in the
      roster's tags and professions no key carries a label. */
  lemma ReportKeysUnlabelled(roster: seq<Operator>, e: Entry<seq<Operator>>)
    requires forall x | x in Universe(roster) :: '[' !in x
    requires e in DetectRecommendedTags(Some(roster))
    ensures '[' !in e.0
  {
    KeyAvoids(roster, e, '[');
  }

  /** A character in no tag or profession of the roster and not in the
      " + " separator is in no report key. */
  lemma KeyAvoids(roster: seq<Operator>, e: Entry<seq<Operator>>, ch: char)
    requires forall x | x in Universe(roster) :: ch !in x
    requires ch != ' ' && ch != '+'
    requires e in DetectRecommendedTags(Some(roster))
    ensures ch !in e.0
  {
    var c := DetectKeyItems(roster, e);
    JoinedItemsAvoid(c, Universe(roster), ch);
  }

  lemma JoinedItemsAvoid(c: seq<string>, u: seq<string>, ch: char)
    requires forall k | 0 <= k < |c| :: c[k] in u
    requires forall x | x in u :: ch !in x
    requires ch != ' ' && ch != '+'
    ensures ch !in Join(c, " + ")
  {
    forall k | 0 <= k < |c|
      ensures ch !in c[k]
    {
      assert c[k] in u;
    }
    assert ch !in " + " by {
      assert " + " == [' ', '+', ' '];
    }
    JoinAvoids(c, " + ", ch);
  }

  /** As written, the page shows both sections empty whatever the
      detector reports. */
  lemma RecommendPageDropsEverything(roster: seq<Operator>)
    requires forall x | x in Universe(roster) :: '[' !in x
    ensures RecommendPage(roster) == Sections([], [])
  {
    var r := DetectRecommendedTags(Some(roster));
    forall e | e in r
      ensures Classify(e.0) == None
    {
      ReportKeysUnlabelled(roster, e);
      UnlabelledKeyDropped(e.0);
    }
    NothingClassified(r);
  }

  lemma {:induction false} NothingClassified(entries: seq<Entry<seq<Operator>>>)
    requires forall e | e in entries :: Classify(e.0) == None
    ensures GroupByRarity(entries) == Sections([], [])
  {
    if |entries| > 0 {
      assert entries[|entries| - 1] in entries;
      NothingClassified(entries[..|entries| - 1]);
    }
  }

  /** A one-operator roster of rarity 5 gets a report, yet the page shows
      nothing: the discrepancy on a concrete input. */
  lemma LoneRarity5Operator(op: Operator)
    requires op.rarity == 5 && op.tags == TagList([]) && '[' !in op.profession
    ensures |DetectRecommendedTags(Some([op]))| > 0
    ensures RecommendPage([op]) == Sections([], [])
  {
    LoneReported(op);
    LoneUniverse(op);
    assert forall x | x in Universe([op]) :: '[' !in x;
    RecommendPageDropsEverything([op]);
  }

  lemma LoneReported(op: Operator)
    requires op.rarity == 5 && op.tags == TagList([])
    ensures |DetectRecommendedTags(Some([op]))| > 0
  {
    LoneUniverse(op);
    var c := [op.profession];
    LoneRecommended(op, c);
    DetectComplete([op], c);
    var k := Join(c, " + ");
    assert k in Keys(DetectRecommendedTags(Some([op])));
  }

  /** An operator without tags contributes only its profession. */
  lemma LoneUniverse(op: Operator)
    requires op.tags == TagList([])
    ensures Universe([op]) == [op.profession]
  {
    assert TagOccurrences([op][..0]) == [];
    assert Filter(OperatorTags(op), t => t !in Excluded) == [];
    assert TagOccurrences([op]) == [];
    assert ProfessionsOf([op]) == [op.profession];
    assert [op.profession][..0] == [];
  }

  lemma LoneRecommended(op: Operator, c: seq<string>)
    requires op.rarity == 5 && c == [op.profession]
    ensures 1 <= |c| <= 3 && IsSubseq(c, c)
    ensures exists o | o in [op] :: Eligible(o, c)
    ensures forall o | o in [op] && Eligible(o, c) :: o.rarity >= 4
  {
    SubseqRefl(c);
    assert Eligible(op, c);
  }

  /** The label an entry evidently should carry: the rarity-5 suffix when
      every operator is of rarity 5, the rarity-4 suffix otherwise. */
  function Labelled(e: Entry<seq<Operator>>): Entry<seq<Operator>> {
    (e.0 + (if MinRarity(e.1) >= 5 then Suffix5 else Suffix4), e.1)
  }

  function LabelAll(entries: seq<Entry<seq<Operator>>>): (r: seq<Entry<seq<Operator>>>)
    ensures |r| == |entries|
    ensures forall i | 0 <= i < |entries| :: r[i] == Labelled(entries[i])
  {
    seq(|entries|, i requires 0 <= i < |entries| => Labelled(entries[i]))
  }

  /** The page with each reported key labelled by its minimum rarity. */
  function LabelledRecommendPage(roster: seq<Operator>): Sections {
    GroupByRarity(LabelAll(DetectRecommendedTags(Some(roster))))
  }

  /** The tier a reported entry evidently belongs to. */
  function TierOf(e: Entry<seq<Operator>>): Tier {
    if MinRarity(e.1) >= 5 then Star5 else Star4Plus
  }

  /** The cards of the entries of tier `tier`, in order, under their
      unlabelled keys. */
  function Expected(entries: seq<Entry<seq<Operator>>>, tier: Tier): seq<Card> {
    if |entries| == 0 then []
    else
      var e := entries[|entries| - 1];
      Expected(entries[..|entries| - 1], tier) + (if TierOf(e) == tier then [Card(e.0, e.1)] else [])
  }

  /** With labels, every reported combination reaches the section of its
      minimum rarity, under its own key, in report order. */
  lemma LabelledRecommendPageComplete(roster: seq<Operator>)
    requires BracketFree(roster)
    ensures LabelledRecommendPage(roster).star5 == Expected(DetectRecommendedTags(Some(roster)), Star5)
    ensures LabelledRecommendPage(roster).star4plus == Expected(DetectRecommendedTags(Some(roster)), Star4Plus)
  {
    var r := DetectRecommendedTags(Some(roster));
    forall e | e in r
      ensures '[' !in e.0 && ']' !in e.0
    {
      KeyAvoids(roster, e, '[');
      KeyAvoids(roster, e, ']');
    }
    GroupByRaritySections(LabelAll(r));
    LabelledSections(r, Star5);
    LabelledSections(r, Star4Plus);
  }

  /** A labelled entry is classified into its tier and shown under its
      own key. */
  lemma LabelledEntry(e: Entry<seq<Operator>>)
    requires '[' !in e.0 && ']' !in e.0
    ensures Classify(Labelled(e).0) == Some(TierOf(e))
    ensures CardOf(Labelled(e), TierOf(e)) == Card(e.0, e.1)
  {
    NotContainsFirstChar(e.0, Label5);
    NotContainsFirstChar(e.0, Label4);
    if MinRarity(e.1) >= 5 {
      Star5LabelRoundTrip(e.0, e.1);
    } else {
      Star4LabelRoundTrip(e.0, e.1);
    }
  }

  lemma {:induction false} LabelledSections(entries: seq<Entry<seq<Operator>>>, tier: Tier)
    requires forall e | e in entries :: '[' !in e.0 && ']' !in e.0
    ensures SectionOf(LabelAll(entries), tier) == Expected(entries, tier)
  {
    if |entries| > 0 {
      var n := |entries| - 1;
      var e := entries[n];
      assert e in entries;
      assert forall x | x in entries[..n] :: x in entries;
      LabelledSections(entries[..n], tier);
      var l := LabelAll(entries);
      assert l[..n] == LabelAll(entries[..n]);
      assert l[n] == Labelled(e);
      LabelledStep(e, tier);
    }
  }

  /** The contribution of one labelled entry to a section. */
  lemma LabelledStep(e: Entry<seq<Operator>>, tier: Tier)
    requires '[' !in e.0 && ']' !in e.0
    ensures (if Classify(Labelled(e).0) == Some(tier) then [CardOf(Labelled(e), tier)] else [])
      == (if TierOf(e) == tier then [Card(e.0, e.1)] else [])
  {
    LabelledEntry(e);
  }

  /** `operator.imgPath.match(/\/(\d+)\.png$/)?.[1]`: the digits between
      the last '/' and a final ".png", when there are some and nothing
      else sits between them. */
  function GetImageId(path: string): Option<string> {
    if !EndsWith(path, ".png") then None
    else
      var stem := path[..|path| - 4];
      var n := TrailingDigits(stem);
      if n > 0 && n < |stem| && stem[|stem| - n - 1] == '/' then Some(stem[|stem| - n..])
      else None
  }

  /** The length of the run of digits that ends `s`. */
  function TrailingDigits(s: string): (n: nat)
    ensures n <= |s|
    ensures AllDigits(s[|s| - n..])
    ensures n < |s| ==> !IsDigit(s[|s| - n - 1])
  {
    if |s| == 0 || !IsDigit(s[|s| - 1]) then 0
    else
      var m := TrailingDigits(s[..|s| - 1]);
      assert s[..|s| - 1][|s| - 1 - m..] + [s[|s| - 1]] == s[|s| - m - 1..];
      m + 1
  }

  /** The id is found exactly when the path is some prefix, '/', a
      non-empty run of digits and ".png"; the id is that run. */
  lemma GetImageIdIff(path: string, id: string)
    ensures GetImageId(path) == Some(id) <==>
      (|id| > 0 && AllDigits(id) && exists pre :: path == pre + "/" + id + ".png")
  {
    if GetImageId(path) == Some(id) {
      GetImageIdSound(path, id);
    }
    if |id| > 0 && AllDigits(id) && exists pre :: path == pre + "/" + id + ".png" {
      var pre :| path == pre + "/" + id + ".png";
      GetImageIdOf(pre, id);
    }
  }

  lemma GetImageIdSound(path: string, id: string)
    requires GetImageId(path) == Some(id)
    ensures |id| > 0 && AllDigits(id) && |id| + 5 <= |path|
    ensures path == path[..|path| - |id| - 5] + "/" + id + ".png"
  {
    var stem := path[..|path| - 4];
    var pre := stem[..|stem| - |id| - 1];
    assert stem == pre + "/" + id;
    assert path == stem + ".png";
  }

  lemma GetImageIdOf(pre: string, id: string)
    requires |id| > 0 && AllDigits(id)
    ensures GetImageId(pre + "/" + id + ".png") == Some(id)
  {
    var path := pre + "/" + id + ".png";
    var stem := pre + "/" + id;
    assert path[..|path| - 4] == stem;
    assert path[|path| - 4..] == ".png";
    TrailingDigitsAfterSlash(pre, id);
  }

  lemma TrailingDigitsAfterSlash(pre: string, id: string)
    requires |id| > 0 && AllDigits(id)
    ensures TrailingDigits(pre + "/" + id) == |id|
    decreases |id|
  {
    var s := pre + "/" + id;
    var n := |id| - 1;
    assert s[..|s| - 1] == pre + "/" + id[..n];
    assert IsDigit(s[|s| - 1]);
    if n > 0 {
      TrailingDigitsAfterSlash(pre, id[..n]);
    } else {
      assert s[..|s| - 1][|s| - 2] == '/';
    }
  }

  /** `Image${imageId}`: the export the icon is looked up under. */
  function LookupName(id: string): string {
    "Image" + id
  }

  /** The name looked up for an icon `<id>.png` is the name the component
      generator gives the image file `<id>`. */
  lemma LookupMatchesGeneratedName(path: string, id: string)
    requires GetImageId(path) == Some(id)
    ensures LookupName(id) == GenerateComponentName(id)
  {
    GetImageIdSound(path, id);
  }
}
