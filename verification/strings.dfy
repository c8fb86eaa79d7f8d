/** The JavaScript string operations the modelled code relies on, over
    `string` (= `seq<char>`): `trim`, `indexOf`/`includes`, `startsWith`,
    `endsWith`, `split` and `join` with a string separator, `replace` with a
    string pattern (first occurrence), and per-character mapping.
    Characters are Unicode scalar values; JavaScript's UTF-16 code units
    are not modelled. */
module Strings {
  import opened Wrappers

  /** JavaScript's WhiteSpace and LineTerminator code points: what `trim()`
      strips, what the regular-expression class `\s` matches and what
      `parseInt` skips. */
  predicate IsJsSpace(c: char) {
    var n := c as int;
    n == 0x09 || n == 0x0A || n == 0x0B || n == 0x0C || n == 0x0D || n == 0x20
    || n == 0xA0 || n == 0x1680 || (0x2000 <= n <= 0x200A)
    || n == 0x2028 || n == 0x2029 || n == 0x202F || n == 0x205F
    || n == 0x3000 || n == 0xFEFF
  }

  /** ASCII digit, the class `\d` of a JavaScript regular expression. */
  predicate IsDigit(c: char) {
    '0' <= c <= '9'
  }

  predicate AllDigits(s: string) {
    forall i | 0 <= i < |s| :: IsDigit(s[i])
  }

  predicate AllSpace(s: string) {
    forall i | 0 <= i < |s| :: IsJsSpace(s[i])
  }

  /** Neither starts nor ends with white space. */
  predicate IsTrimmed(s: string) {
    |s| == 0 || (!IsJsSpace(s[0]) && !IsJsSpace(s[|s| - 1]))
  }

  /** Number of leading white-space characters. */
  function LeadingSpace(s: string): (n: nat)
    ensures n <= |s|
    ensures AllSpace(s[..n])
    ensures n < |s| ==> !IsJsSpace(s[n])
  {
    if |s| > 0 && IsJsSpace(s[0]) then 1 + LeadingSpace(s[1..]) else 0
  }

  /** Number of trailing white-space characters. */
  function TrailingSpace(s: string): (n: nat)
    ensures n <= |s|
    ensures AllSpace(s[|s| - n..])
    ensures n < |s| ==> !IsJsSpace(s[|s| - n - 1])
  {
    if |s| > 0 && IsJsSpace(s[|s| - 1]) then 1 + TrailingSpace(s[..|s| - 1]) else 0
  }

  /** `s.trim()`: the infix of `s` left after stripping white space at both
      ends. */
  function Trim(s: string): (r: string)
    ensures IsTrimmed(r)
    ensures IsTrimmed(s) ==> r == s
    ensures exists i, j | 0 <= i <= j <= |s| :: r == s[i..j] && AllSpace(s[..i]) && AllSpace(s[j..])
  {
    var a := LeadingSpace(s);
    var rest := s[a..];
    var b := TrailingSpace(rest);
    var r := rest[..|rest| - b];
    assert r == s[a..|s| - b];
    assert s[|s| - b..] == rest[|rest| - b..];
    r
  }

  lemma TrimIdempotent(s: string)
    ensures Trim(Trim(s)) == Trim(s)
  {
  }

  /** `t` occurs in `s` starting at index `i`. */
  predicate At(s: string, t: string, i: int) {
    0 <= i && i + |t| <= |s| && s[i..i + |t|] == t
  }

  /** `s.indexOf(t, from)`: the first index at or after `from` where `t`
      occurs, or None for JavaScript's -1. */
  function IndexOf(s: string, t: string, from: nat): (r: Option<nat>)
    decreases |s| - from
    ensures r.Some? ==> from <= r.value && At(s, t, r.value)
    ensures r.Some? ==> forall j | from <= j < r.value :: !At(s, t, j)
    ensures r.None? ==> forall j | from <= j :: !At(s, t, j)
  {
    if from + |t| > |s| then None
    else if s[from..from + |t|] == t then Some(from)
    else IndexOf(s, t, from + 1)
  }

  /** `s.includes(t)`. */
  predicate Contains(s: string, t: string) {
    IndexOf(s, t, 0).Some?
  }

  lemma ContainsIff(s: string, t: string)
    ensures Contains(s, t) <==> exists i :: At(s, t, i)
  {
    if exists i :: At(s, t, i) {
      var i :| At(s, t, i);
      assert 0 <= i;
    }
  }

  predicate StartsWith(s: string, p: string) {
    |p| <= |s| && s[..|p|] == p
  }

  predicate EndsWith(s: string, p: string) {
    |p| <= |s| && s[|s| - |p|..] == p
  }

  /** `s.split(sep)` for a non-empty string separator: the pieces between
      the leftmost non-overlapping occurrences of `sep`. */
  function Split(s: string, sep: string): (r: seq<string>)
    requires |sep| > 0
    decreases |s|
    ensures |r| >= 1
  {
    match IndexOf(s, sep, 0)
    case None => [s]
    case Some(i) => [s[..i]] + Split(s[i + |sep|..], sep)
  }

  /** `xs.join(sep)`. */
  function Join(xs: seq<string>, sep: string): string
  {
    if |xs| == 0 then ""
    else if |xs| == 1 then xs[0]
    else xs[0] + sep + Join(xs[1..], sep)
  }

  /** In `x + sep + ...`, no occurrence of `sep` starts inside `x`: the
      condition under which `split` finds exactly the separators `join`
      inserted. */
  predicate NoSepBefore(x: string, sep: string) {
    forall i | 0 <= i < |x| :: !At(x + sep, sep, i)
  }

  /** Splitting a joined list on its separator gives the list back. */
  lemma {:induction false} SplitJoin(xs: seq<string>, sep: string)
    requires |sep| > 0 && |xs| > 0
    requires forall k | 0 <= k < |xs| :: NoSepBefore(xs[k], sep)
    ensures Split(Join(xs, sep), sep) == xs
  {
    var x := xs[0];
    if |xs| == 1 {
      forall j | 0 <= j
        ensures !At(x, sep, j)
      {
        if j + |sep| <= |x| {
          AtPrefix(x, sep, sep, j);
        }
      }
      assert IndexOf(x, sep, 0).None?;
    } else {
      var rest := Join(xs[1..], sep);
      var s := x + sep + rest;
      assert Join(xs, sep) == s;
      forall j | 0 <= j < |x|
        ensures !At(s, sep, j)
      {
        AtPrefix(x + sep, rest, sep, j);
      }
      assert s[|x|..|x| + |sep|] == sep;
      assert At(s, sep, |x|);
      assert IndexOf(s, sep, 0) == Some(|x|);
      assert s[..|x|] == x;
      assert s[|x| + |sep|..] == rest;
      SplitJoin(xs[1..], sep);
    }
  }

  /** An occurrence that fits in `x` is unaffected by what follows `x`. */
  lemma AtPrefix(x: string, y: string, t: string, j: int)
    requires 0 <= j && j + |t| <= |x|
    ensures At(x + y, t, j) == At(x, t, j)
  {
    assert (x + y)[j..j + |t|] == x[j..j + |t|];
  }

  /** The number of pieces `split` finds in a joined list. */
  lemma SplitJoinCount(xs: seq<string>, sep: string)
    requires |sep| > 0 && |xs| > 0
    requires forall k | 0 <= k < |xs| :: NoSepBefore(xs[k], sep)
    ensures |Split(Join(xs, sep), sep)| == |xs|
  {
    SplitJoin(xs, sep);
  }

  /** A piece free of the second character of the separator, which differs
      from the first, cannot hide an early occurrence of the separator
      (the case of " + " and a key item without '+'). */
  lemma NoSepBeforeFromChar(x: string, sep: string)
    requires |sep| >= 2 && sep[0] != sep[1]
    requires sep[1] !in x
    ensures NoSepBefore(x, sep)
  {
    forall i | 0 <= i < |x|
      ensures !At(x + sep, sep, i)
    {
      var s := x + sep;
      if i + 1 < |x| {
        assert s[i + 1] == x[i + 1];
      } else {
        assert s[i + 1] == sep[0];
      }
    }
  }

  /** A piece that does not contain a two-character separator and does not
      end with its first character cannot hide an early occurrence of it. */
  lemma NoSepBeforePair(x: string, sep: string)
    requires |sep| == 2
    requires forall j :: !At(x, sep, j)
    requires |x| == 0 || x[|x| - 1] != sep[0]
    ensures NoSepBefore(x, sep)
  {
    forall i | 0 <= i < |x|
      ensures !At(x + sep, sep, i)
    {
      var s := x + sep;
      if i + 2 <= |x| {
        assert s[i..i + 2] == x[i..i + 2];
        assert !At(x, sep, i);
      } else {
        assert s[i] == x[|x| - 1];
      }
    }
  }

  /** `s.replace(pat, rep)` with a string pattern: only the first
      occurrence is replaced. */
  function ReplaceFirst(s: string, pat: string, rep: string): (r: string)
  {
    match IndexOf(s, pat, 0)
    case None => s
    case Some(i) => s[..i] + rep + s[i + |pat|..]
  }

  /** Every `a` in `s` replaced by `b` (a global one-character regular
      expression replaced by one character). */
  function ReplaceChar(s: string, a: char, b: char): (r: string)
    ensures |r| == |s|
    ensures forall i | 0 <= i < |s| :: r[i] == (if s[i] == a then b else s[i])
  {
    seq(|s|, i requires 0 <= i < |s| => if s[i] == a then b else s[i])
  }

  /** Every character of `s` that is in `cs` removed. */
  function RemoveChars(s: string, cs: set<char>): (r: string)
    ensures forall c | c in r :: c in s && c !in cs
    ensures forall c | c in s && c !in cs :: c in r
  {
    if |s| == 0 then ""
    else (if s[0] in cs then "" else [s[0]]) + RemoveChars(s[1..], cs)
  }

  lemma RemoveCharsAppend(a: string, b: string, cs: set<char>)
    ensures RemoveChars(a + b, cs) == RemoveChars(a, cs) + RemoveChars(b, cs)
  {
    if |a| > 0 {
      assert (a + b)[1..] == a[1..] + b;
      RemoveCharsAppend(a[1..], b, cs);
    } else {
      assert a + b == b;
    }
  }

  lemma RemoveCharsNone(s: string, cs: set<char>)
    requires forall c | c in s :: c !in cs
    ensures RemoveChars(s, cs) == s
  {
    if |s| > 0 {
      assert s[0] in s;
      RemoveCharsNone(s[1..], cs);
    }
  }

  /** ASCII upper-casing of one character. */
  function UpperAscii(c: char): (r: char)
    ensures 'a' <= c <= 'z' ==> 'A' <= r <= 'Z' && r as int == c as int - 32
    ensures !('a' <= c <= 'z') ==> r == c
  {
    if 'a' <= c <= 'z' then (c as int - 32) as char else c
  }

  /** ASCII lower-casing of one character. */
  function LowerAscii(c: char): (r: char)
    ensures 'A' <= c <= 'Z' ==> 'a' <= r <= 'z' && r as int == c as int + 32
    ensures !('A' <= c <= 'Z') ==> r == c
  {
    if 'A' <= c <= 'Z' then (c as int + 32) as char else c
  }

  /** `s.toLowerCase()`, on the ASCII letters. */
  function ToLower(s: string): (r: string)
    ensures |r| == |s|
    ensures forall i | 0 <= i < |s| :: r[i] == LowerAscii(s[i])
  {
    seq(|s|, i requires 0 <= i < |s| => LowerAscii(s[i]))
  }

  /** A mark appended after a space to a string that does not contain
      it: the spaced mark first occurs where it was appended, so removing
      its first occurrence gives the string back. */
  lemma ReplaceAppendedLabel(t: string, mark: string)
    requires ' ' !in mark
    requires !Contains(t, mark)
    ensures At(t + ([' '] + mark), mark, |t| + 1)
    ensures IndexOf(t + ([' '] + mark), [' '] + mark, 0) == Some(|t|)
    ensures ReplaceFirst(t + ([' '] + mark), [' '] + mark, "") == t
  {
    var pat := [' '] + mark;
    var s := t + pat;
    assert s[|t|..|t| + |pat|] == pat;
    assert s[|t| + 1..|t| + 1 + |mark|] == mark;
    forall j | 0 <= j < |t|
      ensures !At(s, pat, j)
    {
      NotAtBeforeAppended(t, mark, j);
    }
    assert At(s, pat, |t|);
    var r := IndexOf(s, pat, 0);
    assert r.Some? && r.value <= |t|;
    assert r.value == |t|;
    assert s[..|t|] == t;
    assert s[|t| + |pat|..] == "";
  }

  /** The step of `ReplaceAppendedLabel` for one start `j` inside `t`: the
      window either lies in `t`, which lacks the mark, or covers the
      space, which the mark lacks. */
  lemma NotAtBeforeAppended(t: string, mark: string, j: nat)
    requires ' ' !in mark
    requires !Contains(t, mark)
    requires j < |t|
    ensures !At(t + ([' '] + mark), [' '] + mark, j)
  {
    var pat := [' '] + mark;
    var s := t + pat;
    if j + 1 + |mark| <= |t| {
      ContainsIff(t, mark);
      assert !At(t, mark, j + 1);
      assert t[j + 1..j + 1 + |mark|] != mark;
      var k :| 0 <= k < |mark| && t[j + 1..j + 1 + |mark|][k] != mark[k];
      assert s[j + 1 + k] == t[j + 1 + k];
      NotAtMismatch(s, pat, j, k + 1);
    } else {
      var k := |t| - j;
      assert s[j + k] == ' ';
      assert pat[k] == mark[k - 1] && mark[k - 1] in mark;
      NotAtMismatch(s, pat, j, k);
    }
  }

  /** A mismatch at one position of the window rules out an occurrence. */
  lemma NotAtMismatch(s: string, t: string, j: int, k: int)
    requires 0 <= k < |t|
    requires j < 0 || j + |t| > |s| || s[j + k] != t[k]
    ensures !At(s, t, j)
  {
    if 0 <= j && j + |t| <= |s| {
      assert s[j..j + |t|][k] == s[j + k];
    }
  }

  /** A string without the first character of `t` does not contain `t`. */
  lemma NotContainsFirstChar(s: string, t: string)
    requires |t| > 0 && t[0] !in s
    ensures !Contains(s, t)
  {
    forall j | 0 <= j
      ensures !At(s, t, j)
    {
      if j < |s| {
        assert s[j] in s;
      }
      NotAtMismatch(s, t, j, 0);
    }
  }

  /** A character in neither the items nor the separator is not in the
      joined string. */
  lemma {:induction false} JoinAvoids(xs: seq<string>, sep: string, ch: char)
    requires ch !in sep
    requires forall k | 0 <= k < |xs| :: ch !in xs[k]
    ensures ch !in Join(xs, sep)
  {
    if |xs| > 1 {
      JoinAvoids(xs[1..], sep, ch);
      assert ch !in xs[0] + sep;
    }
  }
}
