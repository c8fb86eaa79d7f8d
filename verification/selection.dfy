/** The tag selection: the normaliser applied to tags read from a
    screenshot (src/hooks/useOcrTagApplicator.ts) and the selection state
    kept in the URL (src/hooks/useCheckboxState.ts). `isValidTag` is
    membership in the tag vocabulary, given as a parameter. */
module Selection {
  import opened Wrappers
  import opened Strings
  import opened Seqs
  import opened Entries

  /** `rawTag.trim()` for every tag. */
  function TrimAll(xs: seq<string>): (r: seq<string>)
    ensures |r| == |xs|
    ensures forall i | 0 <= i < |xs| :: r[i] == Trim(xs[i])
  {
    seq(|xs|, i requires 0 <= i < |xs| => Trim(xs[i]))
  }

  /** A trimmed tag worth keeping: non-empty and in the vocabulary. */
  predicate Usable(valid: set<string>, t: string) {
    |t| > 0 && t in valid
  }

  /** The list `applyOcrTags` selects: the trimmed tags, without the empty
      and unknown ones, each once. */
  function NormalizeOcrTags(ocr: seq<string>, valid: set<string>): (r: seq<string>)
    ensures Distinct(r)
    ensures forall t | t in r :: IsTrimmed(t) && Usable(valid, t)
    ensures forall x | x in ocr && Usable(valid, Trim(x)) :: Trim(x) in r
    ensures forall t | t in r :: exists x | x in ocr :: Trim(x) == t
  {
    var trimmed := TrimAll(ocr);
    var r := Dedup(Filter(trimmed, t => Usable(valid, t)));
    assert forall x | x in ocr :: Trim(x) in trimmed by {
      forall x | x in ocr
        ensures Trim(x) in trimmed
      {
        var i :| 0 <= i < |ocr| && ocr[i] == x;
        assert trimmed[i] == Trim(x);
      }
    }
    r
  }

  /** The selection lists the trimmed tags in the order in which each
      first appears among the trimmed input. */
  lemma NormalizeFirstOccurrenceOrder(ocr: seq<string>, valid: set<string>)
    ensures forall i, j | 0 <= i < j < |NormalizeOcrTags(ocr, valid)| ::
      FirstIndexOf(TrimAll(ocr), NormalizeOcrTags(ocr, valid)[i]) < FirstIndexOf(TrimAll(ocr), NormalizeOcrTags(ocr, valid)[j])
  {
    var p := t => Usable(valid, t);
    assert Dedup(Filter(TrimAll(ocr), p)) == NormalizeOcrTags(ocr, valid);
    KeptInFirstOccurrenceOrder(TrimAll(ocr), p);
  }

  /** Filtering keeps the relative order of first occurrences of the
      elements it keeps. */
  lemma {:induction false} FilterFirstIndex<T>(s: seq<T>, p: T -> bool, x: T, y: T)
    requires x in s && p(x) && y in s && p(y)
    ensures FirstIndexOf(Filter(s, p), x) < FirstIndexOf(Filter(s, p), y) <==> FirstIndexOf(s, x) < FirstIndexOf(s, y)
  {
    if s[0] != x && s[0] != y {
      FilterFirstIndex(s[1..], p, x, y);
      var f := Filter(s, p);
      var g := Filter(s[1..], p);
      FirstIndexOfTail(s, x);
      FirstIndexOfTail(s, y);
      if p(s[0]) {
        assert f == [s[0]] + g;
        FirstIndexOfTail(f, x);
        FirstIndexOfTail(f, y);
      } else {
        assert f == g;
      }
    }
  }

  /** Past a different first element, the first index is one more than in
      the tail. */
  lemma FirstIndexOfTail<T>(s: seq<T>, x: T)
    requires |s| > 0 && s[0] != x
    ensures FirstIndexOf(s, x) == FirstIndexOf(s[1..], x) + 1
  {
    var k := FirstIndexOf(s[1..], x);
    if k < |s| - 1 {
      assert s[k + 1] == s[1..][k];
    }
    assert forall j | 1 <= j < k + 1 :: s[j] == s[1..][j - 1];
  }

  /** Normalising a normalised selection changes nothing. */
  lemma NormalizeIdempotent(ocr: seq<string>, valid: set<string>)
    ensures NormalizeOcrTags(NormalizeOcrTags(ocr, valid), valid) == NormalizeOcrTags(ocr, valid)
  {
    var r := NormalizeOcrTags(ocr, valid);
    var trimmed := TrimAll(r);
    assert trimmed == r;
    FilterAll(r, t => Usable(valid, t));
    DedupDistinct(r);
  }

  /** What the query state holds: `null` or a list of tags. */
  type Stored = Option<seq<string>>

  /** `selectedItemsRaw ?? []`. */
  function SelectedItems(stored: Stored): seq<string> {
    stored.GetOr([])
  }

  /** The argument of `setSelectedItems`: a new list, or a function of the
      current one. */
  datatype Update = Value(items: seq<string>) | Updater(f: seq<string> -> seq<string>)

  /** The valid items of `next`, each at its first occurrence: listed in
      the order in which they first appear in `next`. */
  function Sanitize(next: seq<string>, valid: set<string>): (r: seq<string>)
    ensures Distinct(r)
    ensures forall t | t in r :: t in next && t in valid
    ensures forall t | t in next && t in valid :: t in r
    ensures IsSubseq(r, next)
    ensures forall i, j | 0 <= i < j < |r| :: FirstIndexOf(next, r[i]) < FirstIndexOf(next, r[j])
  {
    SanitizeKeeps(next, valid);
    KeepFirst(Filter(next, t => t in valid))
  }

  lemma SanitizeKeeps(next: seq<string>, valid: set<string>)
    ensures var r := KeepFirst(Filter(next, t => t in valid));
      && Distinct(r)
      && (forall t | t in r :: t in next && t in valid)
      && (forall t | t in next && t in valid :: t in r)
      && IsSubseq(r, next)
      && forall i, j | 0 <= i < j < |r| :: FirstIndexOf(next, r[i]) < FirstIndexOf(next, r[j])
  {
    var p := t => t in valid;
    var f := Filter(next, p);
    KeepFirstIsDedup(f);
    DedupIsSubseq(f);
    FilterIsSubseq(next, p);
    SubseqTrans(KeepFirst(f), f, next);
    KeptInFirstOccurrenceOrder(next, p);
  }

  /** Keeping the first occurrences of the items that pass `p` lists them
      in first-occurrence order of the unfiltered list. */
  lemma KeptInFirstOccurrenceOrder(next: seq<string>, p: string -> bool)
    ensures var r := Dedup(Filter(next, p));
      forall i, j | 0 <= i < j < |r| :: FirstIndexOf(next, r[i]) < FirstIndexOf(next, r[j])
  {
    var f := Filter(next, p);
    var r := Dedup(f);
    DedupFirstOccurrenceOrder(f);
    forall i, j | 0 <= i < j < |r|
      ensures FirstIndexOf(next, r[i]) < FirstIndexOf(next, r[j])
    {
      assert r[i] in f && r[j] in f;
      FilterFirstIndex(next, p, r[i], r[j]);
    }
  }

  /** The stored state after `setSelectedItems(u)` from state `prev`: an
      updater sees the current list, `[]` for `null`; the result is
      sanitised, and an empty result is stored as `null`. */
  function SetSelectedItems(prev: Stored, u: Update, valid: set<string>): (r: Stored)
    ensures r.None? <==> forall t | t in Next(prev, u) :: t !in valid
    ensures r.Some? ==> |r.value| > 0 && Distinct(r.value) && IsSubseq(r.value, Next(prev, u))
    ensures r.Some? ==> forall i, j | 0 <= i < j < |r.value| ::
      FirstIndexOf(Next(prev, u), r.value[i]) < FirstIndexOf(Next(prev, u), r.value[j])
    ensures forall t :: t in SelectedItems(r) <==> t in Next(prev, u) && t in valid
  {
    var s := Sanitize(Next(prev, u), valid);
    if |s| == 0 then None else Some(s)
  }

  /** The list an update proposes. */
  function Next(prev: Stored, u: Update): seq<string> {
    match u
    case Value(items) => items
    case Updater(f) => f(SelectedItems(prev))
  }

  /** An updater sees `[]` when the state is `null`, the stored list
      otherwise. */
  lemma UpdaterSeesCurrent(prev: Stored, f: seq<string> -> seq<string>, valid: set<string>)
    ensures SetSelectedItems(prev, Updater(f), valid) == SetSelectedItems(None, Value(f(SelectedItems(prev))), valid)
    ensures prev.None? ==> SetSelectedItems(prev, Updater(f), valid) == SetSelectedItems(None, Value(f([])), valid)
  {
  }

  /** A stored list is left as it is by an updater that returns its
      argument. */
  lemma IdentityUpdateKeeps(prev: seq<string>, valid: set<string>)
    requires |prev| > 0 && Distinct(prev) && forall t | t in prev :: t in valid
    ensures SetSelectedItems(Some(prev), Updater(xs => xs), valid) == Some(prev)
  {
    FilterAll(prev, t => t in valid);
    KeepFirstIsDedup(prev);
    DedupDistinct(prev);
  }

  /** `clearSelectedItems`: the state becomes `null`, read back as the
      empty selection. */
  function ClearSelectedItems(): (r: Stored)
    ensures SelectedItems(r) == [] && SelectedCount(r) == 0
  {
    None
  }

  /** `selectedCount`. */
  function SelectedCount(stored: Stored): nat {
    |SelectedItems(stored)|
  }

  /** `checkedItems`: `acc[item] = true` for each selected item in turn. */
  function CheckedItems(selected: seq<string>): (r: seq<Entry<bool>>)
    ensures DistinctKeys(r)
    ensures forall e | e in r :: e.1
    ensures forall k :: k in Keys(r) <==> k in selected
  {
    if |selected| == 0 then []
    else
      var acc := CheckedItems(selected[..|selected| - 1]);
      var k := selected[|selected| - 1];
      var r := Put(acc, k, true);
      assert selected == selected[..|selected| - 1] + [k];
      PutKeys(acc, k, true);
      r
  }

  /** A stored selection has one checked entry per selected item, so the
      count of checked boxes is `selectedCount`. */
  lemma CheckedItemsCount(prev: Stored, u: Update, valid: set<string>)
    ensures |CheckedItems(SelectedItems(SetSelectedItems(prev, u, valid)))| == SelectedCount(SetSelectedItems(prev, u, valid))
  {
    var s := SelectedItems(SetSelectedItems(prev, u, valid));
    DistinctCheckedItems(s);
  }

  lemma {:induction false} DistinctCheckedItems(selected: seq<string>)
    requires Distinct(selected)
    ensures |CheckedItems(selected)| == |selected|
  {
    if |selected| > 0 {
      var n := |selected| - 1;
      var k := selected[n];
      assert Distinct(selected[..n]);
      DistinctCheckedItems(selected[..n]);
      assert k !in selected[..n];
      assert k !in Keys(CheckedItems(selected[..n]));
    }
  }

  /** Applying screenshot tags through the selection setter: the previous
      selection is discarded, and the normalised list is already sanitised,
      so it is stored as it is (or as `null` when empty). */
  lemma OcrTagsThroughSetter(prev: Stored, ocr: seq<string>, valid: set<string>)
    ensures var n := NormalizeOcrTags(ocr, valid);
      SetSelectedItems(prev, Updater(_ => n), valid) == if |n| == 0 then None else Some(n)
  {
    var n := NormalizeOcrTags(ocr, valid);
    FilterAll(n, t => t in valid);
    KeepFirstIsDedup(n);
    DedupDistinct(n);
  }
}
