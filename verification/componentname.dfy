/** Naming of the generated image components
    (tools/generate-image-component.js): an image file's base name becomes
    the exported component's identifier. */
module ComponentName {
  import opened Strings
  import opened Seqs

  /** `s.charAt(0).toUpperCase() + s.slice(1)`. */
  function Capitalize(s: string): (r: string)
    ensures |r| == |s|
    ensures |s| > 0 ==> r[0] == UpperAscii(s[0])
    ensures forall i | 1 <= i < |s| :: r[i] == s[i]
  {
    if |s| == 0 then "" else [UpperAscii(s[0])] + s[1..]
  }

  /** Capitalizing twice changes nothing more. */
  lemma CapitalizeIdempotent(s: string)
    ensures Capitalize(Capitalize(s)) == Capitalize(s)
  {
    if |s| > 0 {
      var c := Capitalize(s);
      assert UpperAscii(c[0]) == c[0];
      assert Capitalize(c) == [c[0]] + c[1..] == c;
    }
  }

  /** The character class `[-_\s]`. */
  predicate IsSeparator(c: char) {
    c == '-' || c == '_' || IsJsSpace(c)
  }

  predicate NoSeparator(s: string) {
    forall i | 0 <= i < |s| :: !IsSeparator(s[i])
  }

  /** `s.split(/[-_\s]/)`: the pieces between single separator characters;
      consecutive separators leave empty pieces. */
  function SplitOnSeparators(s: string): (r: seq<string>)
    ensures |r| >= 1
    ensures forall k | 0 <= k < |r| :: NoSeparator(r[k])
  {
    if |s| == 0 then [""]
    else
      var rest := SplitOnSeparators(s[1..]);
      if IsSeparator(s[0]) then [""] + rest
      else [[s[0]] + rest[0]] + rest[1..]
  }

  /** The pieces laid end to end. */
  function Concat(xs: seq<string>): string {
    if |xs| == 0 then "" else xs[0] + Concat(xs[1..])
  }

  /** Laid end to end, the pieces are the name with its separators
      removed: splitting loses the separators and nothing else. */
  lemma {:induction false} SplitOnSeparatorsConcat(s: string)
    ensures Concat(SplitOnSeparators(s)) == Filter(s, c => !IsSeparator(c))
  {
    if |s| > 0 {
      SplitOnSeparatorsConcat(s[1..]);
      var rest := SplitOnSeparators(s[1..]);
      if IsSeparator(s[0]) {
        assert ([""] + rest)[1..] == rest;
        assert Concat([""] + rest) == "" + Concat(rest);
      } else {
        var r := [[s[0]] + rest[0]] + rest[1..];
        assert r[1..] == rest[1..];
        assert Concat(rest) == rest[0] + Concat(rest[1..]);
      }
    }
  }

  /** The pieces joined back with the separator characters, one between
      each two pieces. */
  function Interleave(pieces: seq<string>, seps: string): string
    requires |pieces| == |seps| + 1
  {
    if |seps| == 0 then pieces[0]
    else pieces[0] + [seps[0]] + Interleave(pieces[1..], seps[1..])
  }

  /** Putting each separator back between the two pieces it split gives
      the name again: there is one piece more than there are separators,
      and every piece ends exactly where a separator stands. */
  lemma {:induction false} SplitOnSeparatorsRejoin(s: string)
    ensures |SplitOnSeparators(s)| == |Filter(s, IsSeparator)| + 1
    ensures Interleave(SplitOnSeparators(s), Filter(s, IsSeparator)) == s
  {
    if |s| > 0 {
      SplitOnSeparatorsRejoin(s[1..]);
      var rest := SplitOnSeparators(s[1..]);
      var seps := Filter(s[1..], IsSeparator);
      if IsSeparator(s[0]) {
        var r := [""] + rest;
        assert Filter(s, IsSeparator) == [s[0]] + seps;
        assert r[1..] == rest && ([s[0]] + seps)[1..] == seps;
        assert s == r[0] + [s[0]] + s[1..];
      } else {
        assert Filter(s, IsSeparator) == seps;
        InterleavePrepend(s[0], rest, seps);
        assert s == [s[0]] + s[1..];
      }
    }
  }

  lemma {:induction false} InterleavePrepend(c: char, pieces: seq<string>, seps: string)
    requires |pieces| == |seps| + 1
    ensures Interleave([[c] + pieces[0]] + pieces[1..], seps) == [c] + Interleave(pieces, seps)
  {
    var q := [[c] + pieces[0]] + pieces[1..];
    assert q[0] == [c] + pieces[0];
    if |seps| > 0 {
      assert q[1..] == pieces[1..];
    }
  }

  /** The split is the only way to cut the name into separator-free
      pieces that rejoin to it: whatever pieces do so are the split's. */
  lemma {:induction false} SplitOnSeparatorsUnique(pieces: seq<string>, seps: string)
    requires |pieces| == |seps| + 1
    requires forall k | 0 <= k < |pieces| :: NoSeparator(pieces[k])
    requires forall i | 0 <= i < |seps| :: IsSeparator(seps[i])
    ensures SplitOnSeparators(Interleave(pieces, seps)) == pieces
    decreases |Interleave(pieces, seps)|
  {
    var s := Interleave(pieces, seps);
    if |pieces[0]| > 0 {
      var head := pieces[0];
      var q := [head[1..]] + pieces[1..];
      assert q[0] == head[1..] && q[1..] == pieces[1..];
      assert [head[0]] + head[1..] == head;
      InterleavePrepend(head[0], q, seps);
      assert [[head[0]] + q[0]] + q[1..] == pieces;
      assert s == [head[0]] + Interleave(q, seps);
      assert s[0] == head[0] && s[1..] == Interleave(q, seps);
      assert !IsSeparator(head[0]);
      forall k | 0 <= k < |q|
        ensures NoSeparator(q[k])
      {
        if k == 0 {
          assert forall i | 0 <= i < |head[1..]| :: head[1..][i] == head[i + 1];
        } else {
          assert q[k] == pieces[k];
        }
      }
      SplitOnSeparatorsUnique(q, seps);
    } else if |seps| > 0 {
      var tail := Interleave(pieces[1..], seps[1..]);
      assert s == [seps[0]] + tail;
      assert s[0] == seps[0] && s[1..] == tail;
      forall k | 0 <= k < |pieces[1..]|
        ensures NoSeparator(pieces[1..][k])
      {
        assert pieces[1..][k] == pieces[k + 1];
      }
      SplitOnSeparatorsUnique(pieces[1..], seps[1..]);
      assert pieces == [""] + pieces[1..];
    } else {
      assert pieces == [""];
    }
  }

  /** Each piece capitalized. */
  function CapitalizeAll(xs: seq<string>): (r: seq<string>)
    ensures |r| == |xs|
    ensures forall k | 0 <= k < |xs| :: r[k] == Capitalize(xs[k])
  {
    seq(|xs|, k requires 0 <= k < |xs| => Capitalize(xs[k]))
  }

  /** `/^\d+$/.test(name)`. */
  predicate IsNumeric(name: string) {
    |name| > 0 && AllDigits(name)
  }

  /** `generateComponentName(imageName)`: outside the numeric case, the
      name read character by character as `CapitalizeWords` does. */
  function GenerateComponentName(name: string): (r: string)
    ensures !IsNumeric(name) ==> r == CapitalizeWords(name, true)
  {
    if IsNumeric(name) then "Image" + name
    else
      CapitalizeWordsSplit(name);
      Concat(CapitalizeAll(SplitOnSeparators(name)))
  }

  /** The identifier read off the name one character at a time: separators
      dropped, and a character upper-cased when it starts the name
      (`atStart`) or follows a separator, kept as it is otherwise. */
  function CapitalizeWords(s: string, atStart: bool): string {
    if |s| == 0 then ""
    else if IsSeparator(s[0]) then CapitalizeWords(s[1..], true)
    else [if atStart then UpperAscii(s[0]) else s[0]] + CapitalizeWords(s[1..], false)
  }

  /** Capitalizing every piece of the split and joining them is reading
      the name character by character; without `atStart`, the first piece
      is left as it is. */
  lemma {:induction false} CapitalizeWordsSplit(s: string)
    ensures CapitalizeWords(s, true) == Concat(CapitalizeAll(SplitOnSeparators(s)))
    ensures CapitalizeWords(s, false) == SplitOnSeparators(s)[0] + Concat(CapitalizeAll(SplitOnSeparators(s)[1..]))
  {
    if |s| > 0 {
      CapitalizeWordsSplit(s[1..]);
      var rest := SplitOnSeparators(s[1..]);
      var tail := Concat(CapitalizeAll(rest[1..]));
      assert Concat(CapitalizeAll(rest)) == Capitalize(rest[0]) + Concat(CapitalizeAll(rest)[1..]);
      assert CapitalizeAll(rest)[1..] == CapitalizeAll(rest[1..]);
      if IsSeparator(s[0]) {
        var r := [""] + rest;
        assert r[1..] == rest;
        assert CapitalizeAll(r)[1..] == CapitalizeAll(rest);
        assert Concat(CapitalizeAll(r)) == Capitalize("") + Concat(CapitalizeAll(rest));
      } else {
        var r := [[s[0]] + rest[0]] + rest[1..];
        assert r[1..] == rest[1..];
        assert CapitalizeAll(r)[1..] == CapitalizeAll(rest[1..]);
        assert Capitalize(r[0]) == [UpperAscii(s[0])] + rest[0];
        assert Concat(CapitalizeAll(r)) == Capitalize(r[0]) + tail;
      }
    } else {
      assert CapitalizeAll([""]) == [""];
      assert Concat([""]) == "" + Concat([]);
    }
  }

  /** The non-separator `s[i]` lands at the position counted by the
      non-separators before it, upper-cased exactly when it starts the
      name (with `atStart`) or follows a separator. */
  lemma {:induction false} CapitalizeWordsAt(s: string, atStart: bool, i: nat)
    requires i < |s| && !IsSeparator(s[i])
    ensures var k := |Filter(s[..i], c => !IsSeparator(c))|;
      && k < |CapitalizeWords(s, atStart)|
      && CapitalizeWords(s, atStart)[k] == if (i == 0 && atStart) || (i > 0 && IsSeparator(s[i - 1])) then UpperAscii(s[i]) else s[i]
  {
    if i > 0 {
      CapitalizeWordsAt(s[1..], IsSeparator(s[0]), i - 1);
      var t := s[..i];
      assert t[0] == s[0] && t[1..] == s[1..][..i - 1];
      assert s[1..][i - 1] == s[i];
      if i > 1 {
        assert s[1..][i - 2] == s[i - 1];
      }
    }
  }

  /** Outside the numeric case, the non-separator `name[i]` becomes
      character `k` of the identifier, `k` counting the non-separators
      before it; it is upper-cased exactly when it is the first character
      or follows a separator, and kept as it is otherwise. */
  lemma ComponentNameCapitals(name: string, i: nat)
    requires !IsNumeric(name)
    requires i < |name| && !IsSeparator(name[i])
    ensures var k := |Filter(name[..i], c => !IsSeparator(c))|;
      && k < |GenerateComponentName(name)|
      && GenerateComponentName(name)[k] == if i == 0 || IsSeparator(name[i - 1]) then UpperAscii(name[i]) else name[i]
  {
    CapitalizeWordsAt(name, true, i);
  }

  /** The generated identifier never contains a separator character. */
  lemma ComponentNameHasNoSeparator(name: string)
    ensures NoSeparator(GenerateComponentName(name))
  {
    if IsNumeric(name) {
      var r := "Image" + name;
      forall i | 0 <= i < |r|
        ensures !IsSeparator(r[i])
      {
        if i >= 5 {
          assert r[i] == name[i - 5];
        }
      }
    } else {
      var caps := CapitalizeAll(SplitOnSeparators(name));
      forall k | 0 <= k < |caps|
        ensures NoSeparator(caps[k])
      {
        CapitalizeKeepsNoSeparator(SplitOnSeparators(name)[k]);
      }
      ConcatNoSeparator(caps);
    }
  }

  lemma CapitalizeKeepsNoSeparator(s: string)
    requires NoSeparator(s)
    ensures NoSeparator(Capitalize(s))
  {
    if |s| > 0 {
      assert !IsSeparator(s[0]);
      assert !IsSeparator(UpperAscii(s[0]));
    }
  }

  lemma {:induction false} ConcatNoSeparator(xs: seq<string>)
    requires forall k | 0 <= k < |xs| :: NoSeparator(xs[k])
    ensures NoSeparator(Concat(xs))
  {
    if |xs| > 0 {
      ConcatNoSeparator(xs[1..]);
      var r := xs[0] + Concat(xs[1..]);
      forall i | 0 <= i < |r|
        ensures !IsSeparator(r[i])
      {
        if i >= |xs[0]| {
          assert r[i] == Concat(xs[1..])[i - |xs[0]|];
        }
      }
    }
  }

  /** Outside the numeric case the identifier is the name with separators
      removed and the first letter of every piece upper-cased: as long as
      the name minus its separators. */
  lemma ComponentNameLength(name: string)
    requires !IsNumeric(name)
    ensures |GenerateComponentName(name)| == |Filter(name, c => !IsSeparator(c))|
  {
    SplitOnSeparatorsConcat(name);
    ConcatCapitalizeLength(SplitOnSeparators(name));
  }

  lemma {:induction false} ConcatCapitalizeLength(xs: seq<string>)
    ensures |Concat(CapitalizeAll(xs))| == |Concat(xs)|
  {
    if |xs| > 0 {
      ConcatCapitalizeLength(xs[1..]);
      assert CapitalizeAll(xs)[1..] == CapitalizeAll(xs[1..]);
    }
  }

  /** Every character upper-cased: two names that differ only in the
      case of their letters have the same image. */
  function UpperAll(s: string): (r: string)
    ensures |r| == |s|
    ensures forall i | 0 <= i < |s| :: r[i] == UpperAscii(s[i])
  {
    seq(|s|, i requires 0 <= i < |s| => UpperAscii(s[i]))
  }

  /** Outside the numeric case the identifier is the name with its
      separators removed, up to the case of letters: only letters change,
      and only by upper-casing. */
  lemma ComponentNameLetters(name: string)
    requires !IsNumeric(name)
    ensures UpperAll(GenerateComponentName(name)) == UpperAll(Filter(name, c => !IsSeparator(c)))
  {
    SplitOnSeparatorsConcat(name);
    ConcatCapitalizeUpper(SplitOnSeparators(name));
  }

  lemma {:induction false} ConcatCapitalizeUpper(xs: seq<string>)
    ensures UpperAll(Concat(CapitalizeAll(xs))) == UpperAll(Concat(xs))
  {
    if |xs| > 0 {
      ConcatCapitalizeUpper(xs[1..]);
      assert CapitalizeAll(xs)[1..] == CapitalizeAll(xs[1..]);
      var c := Capitalize(xs[0]);
      assert UpperAll(c) == UpperAll(xs[0]);
      UpperAllAppend(c, Concat(CapitalizeAll(xs[1..])));
      UpperAllAppend(xs[0], Concat(xs[1..]));
    }
  }

  lemma UpperAllAppend(a: string, b: string)
    ensures UpperAll(a + b) == UpperAll(a) + UpperAll(b)
  {
  }

  /** An all-digit name is prefixed with "Image"; such a name has no
      letters to upper-case. */
  lemma NumericComponentName(name: string)
    requires IsNumeric(name)
    ensures GenerateComponentName(name) == "Image" + name
    ensures UpperAll(name) == name
  {
  }

  /** Doubled separators leave an empty piece, which adds nothing:
      "a--b" becomes "AB". */
  lemma EmptyPiecesVanish()
    ensures GenerateComponentName("a--b") == "AB"
  {
    SplitExample();
    assert !IsNumeric("a--b") by {
      assert !IsDigit("a--b"[0]);
    }
    var caps := CapitalizeAll(["a", "", "b"]);
    assert caps[0] == "A" && caps[1] == "" && caps[2] == "B";
    assert caps == ["A", "", "B"];
    assert Concat(["B"]) == "B";
    assert Concat(["", "B"]) == "B";
    assert Concat(["A", "", "B"]) == "A" + "B";
  }

  lemma SplitExample()
    ensures SplitOnSeparators("a--b") == ["a", "", "b"]
  {
    var s := "a--b";
    assert s[1..] == "--b" && s[2..] == "-b" && s[3..] == "b" && s[4..] == "";
    assert SplitOnSeparators("b") == ["b"] by {
      assert "b"[1..] == "";
      assert !IsSeparator('b');
      assert SplitOnSeparators("") == [""];
      assert ['b'] + "" == "b";
      assert [""][1..] == [];
    }
    assert SplitOnSeparators("-b") == ["", "b"] by {
      assert "-b"[1..] == "b";
    }
    assert SplitOnSeparators("--b") == ["", "", "b"] by {
      assert "--b"[1..] == "-b";
    }
    assert !IsSeparator('a');
    assert ['a'] + "" == "a";
    assert ["", "", "b"][1..] == ["", "b"];
  }
}
