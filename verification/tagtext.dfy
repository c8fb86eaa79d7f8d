/** The legacy string form of an operator's tags, as a Python list prints
    it ("['近距離', '支援']"), and the parser the detector applies to it
    (src/lib/recommendTags.ts, in both `detectRecommendedTags` and
    `filterByCombination`). */
module TagText {
  import opened Strings

  /** `.replace(/'/g, '"').replace(/\[|\]/g, '').split(', ')
      .map(tag => tag.replace(/"/g, '').trim())`. */
  function ParseTagString(s: string): (r: seq<string>)
    ensures |r| >= 1
    ensures forall i | 0 <= i < |r| :: IsTrimmed(r[i]) && '"' !in r[i]
  {
    var pieces := Split(Unbracket(s), ", ");
    seq(|pieces|, i requires 0 <= i < |pieces| => CleanTag(pieces[i]))
  }

  /** The two global replacements before the split. */
  function Unbracket(s: string): (r: string)
    ensures '\'' !in r && '[' !in r && ']' !in r
  {
    RemoveChars(ReplaceChar(s, '\'', '"'), {'[', ']'})
  }

  /** One piece with its double quotes removed, trimmed. */
  function CleanTag(p: string): (t: string)
    ensures IsTrimmed(t) && '"' !in t
  {
    var u := RemoveChars(p, {'"'});
    TrimKeepsOut(u, '"');
    Trim(u)
  }

  lemma TrimKeepsOut(u: string, c: char)
    requires c !in u
    ensures c !in Trim(u)
  {
    var i, j :| 0 <= i <= j <= |u| && Trim(u) == u[i..j];
    forall k | 0 <= k < j - i
      ensures u[i..j][k] != c
    {
      assert u[i..j][k] == u[i + k];
    }
  }

  /** Each tag wrapped in the quote character `q`. */
  function Quoted(ts: seq<string>, q: char): (r: seq<string>)
    ensures |r| == |ts|
    ensures forall i | 0 <= i < |ts| :: r[i] == [q] + ts[i] + [q]
  {
    seq(|ts|, i requires 0 <= i < |ts| => [q] + ts[i] + [q])
  }

  /** The printed form of a tag list: `str(list)` in Python. */
  function FormatTagString(ts: seq<string>): string {
    "[" + Join(Quoted(ts, '\''), ", ") + "]"
  }

  /** What a tag must avoid for its printed form to parse back to it: the
      characters the parser rewrites or removes, an occurrence of the
      separator ", " that would split it, and surrounding white space that
      `trim` would strip. A lone comma is harmless. */
  predicate PlainTag(t: string) {
    '\'' !in t && '"' !in t && '[' !in t && ']' !in t && IsTrimmed(t)
    && forall j | 0 <= j < |t| :: !At(t, ", ", j)
  }

  /** Parsing the printed form of a non-empty list of plain tags gives the
      list back. */
  lemma ParseFormat(ts: seq<string>)
    requires |ts| > 0
    requires forall i | 0 <= i < |ts| :: PlainTag(ts[i])
    ensures ParseTagString(FormatTagString(ts)) == ts
  {
    var single := Join(Quoted(ts, '\''), ", ");
    var double := Join(Quoted(ts, '"'), ", ");
    ReplaceCharJoin(ts);
    assert ReplaceChar(FormatTagString(ts), '\'', '"') == "[" + double + "]";
    BracketFree(ts);
    RemoveCharsAppend("[" + double, "]", {'[', ']'});
    RemoveCharsAppend("[", double, {'[', ']'});
    RemoveCharsNone(double, {'[', ']'});
    assert RemoveChars("[" + double + "]", {'[', ']'}) == double;
    forall k | 0 <= k < |ts|
      ensures NoSepBefore(Quoted(ts, '"')[k], ", ")
    {
      NoSepBeforeQuoted(ts[k]);
    }
    SplitJoin(Quoted(ts, '"'), ", ");
    var r := ParseTagString(FormatTagString(ts));
    assert |r| == |ts|;
    forall i | 0 <= i < |ts|
      ensures r[i] == ts[i]
    {
      var t := ts[i];
      RemoveCharsAppend(['"'] + t, ['"'], {'"'});
      RemoveCharsAppend(['"'], t, {'"'});
      RemoveCharsNone(t, {'"'});
      assert RemoveChars(['"'] + t + ['"'], {'"'}) == t;
    }
  }

  /** A list printed with no element is "[]", which parses to one empty
      tag rather than to no tag. */
  lemma ParseEmptyList()
    ensures ParseTagString(FormatTagString([])) == [""]
  {
    FormatEmptyList();
    ParseBrackets();
  }

  lemma FormatEmptyList()
    ensures FormatTagString([]) == "[]"
  {
    var q := Quoted([], '\'');
    assert q == [];
    assert Join(q, ", ") == "";
    assert "[" + "" + "]" == "[]";
  }

  lemma ParseBrackets()
    ensures ParseTagString("[]") == [""]
  {
    UnbracketEmptyList();
    SplitEmpty();
    CleanEmpty();
  }

  lemma UnbracketEmptyList()
    ensures Unbracket("[]") == ""
  {
    var s := "[]";
    assert ReplaceChar(s, '\'', '"') == s;
    assert s[1..] == "]";
  }

  lemma SplitEmpty()
    ensures Split("", ", ") == [""]
  {
    assert IndexOf("", ", ", 0).None?;
  }

  lemma CleanEmpty()
    ensures CleanTag("") == ""
  {
    assert RemoveChars("", {'"'}) == "";
  }

  /** A quoted tag with no ", " inside cannot hide an early occurrence of
      the separator: the quotes themselves are neither ',' nor ' '. */
  lemma NoSepBeforeQuoted(t: string)
    requires forall j | 0 <= j < |t| :: !At(t, ", ", j)
    ensures NoSepBefore(['"'] + t + ['"'], ", ")
  {
    var x := ['"'] + t + ['"'];
    forall i | 0 <= i < |x|
      ensures !At(x + ", ", ", ", i)
    {
      NotSepInQuoted(t, i);
    }
  }

  lemma NotSepInQuoted(t: string, i: int)
    requires forall j | 0 <= j < |t| :: !At(t, ", ", j)
    requires 0 <= i < |t| + 2
    ensures !At(['"'] + t + ['"'] + ", ", ", ", i)
  {
    var y := ['"'] + t + ['"'] + ", ";
    assert y[i] == if i == 0 || i == |t| + 1 then '"' else t[i - 1];
    if 1 <= i < |t| {
      assert y[i + 1] == t[i];
      assert !At(t, ", ", i - 1);
      assert t[i - 1..i + 1] != ", ";
      assert [t[i - 1], t[i]] != ", " by {
        assert t[i - 1..i + 1] == [t[i - 1], t[i]];
      }
      assert y[i..i + 2] == [y[i], y[i + 1]];
    } else if i == |t| {
      assert y[i + 1] == '"';
      assert y[i..i + 2] == [y[i], y[i + 1]];
    }
  }

  lemma ReplaceCharAppend(a: string, b: string, x: char, y: char)
    ensures ReplaceChar(a + b, x, y) == ReplaceChar(a, x, y) + ReplaceChar(b, x, y)
  {
  }

  /** Turning the single quotes of the printed list into double quotes. */
  lemma {:induction false} ReplaceCharJoin(ts: seq<string>)
    requires forall i | 0 <= i < |ts| :: '\'' !in ts[i]
    ensures ReplaceChar("[" + Join(Quoted(ts, '\''), ", ") + "]", '\'', '"') == "[" + Join(Quoted(ts, '"'), ", ") + "]"
    decreases |ts|
  {
    var single := Join(Quoted(ts, '\''), ", ");
    ReplaceCharAppend("[" + single, "]", '\'', '"');
    ReplaceCharAppend("[", single, '\'', '"');
    assert ReplaceChar(single, '\'', '"') == Join(Quoted(ts, '"'), ", ") by {
      JoinQuotedReplace(ts);
    }
  }

  lemma {:induction false} JoinQuotedReplace(ts: seq<string>)
    requires forall i | 0 <= i < |ts| :: '\'' !in ts[i]
    ensures ReplaceChar(Join(Quoted(ts, '\''), ", "), '\'', '"') == Join(Quoted(ts, '"'), ", ")
    decreases |ts|
  {
    if |ts| > 0 {
      var t := ts[0];
      var one := ['\''] + t + ['\''];
      assert ReplaceChar(one, '\'', '"') == ['"'] + t + ['"'];
      if |ts| > 1 {
        assert Quoted(ts, '\'')[1..] == Quoted(ts[1..], '\'');
        assert Quoted(ts, '"')[1..] == Quoted(ts[1..], '"');
        JoinQuotedReplace(ts[1..]);
        var rest := Join(Quoted(ts[1..], '\''), ", ");
        ReplaceCharAppend(one + ", ", rest, '\'', '"');
        ReplaceCharAppend(one, ", ", '\'', '"');
      }
    }
  }

  /** The double-quoted list has no brackets. */
  lemma {:induction false} BracketFree(ts: seq<string>)
    requires forall i | 0 <= i < |ts| :: PlainTag(ts[i])
    ensures forall c | c in Join(Quoted(ts, '"'), ", ") :: c !in {'[', ']'}
    decreases |ts|
  {
    if |ts| > 0 {
      if |ts| > 1 {
        assert Quoted(ts, '"')[1..] == Quoted(ts[1..], '"');
        BracketFree(ts[1..]);
      }
    }
  }
}
