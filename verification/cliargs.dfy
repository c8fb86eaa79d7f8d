/** The command line of the JSON minifier (tools/optimize-json.js):
    `parseArguments` over the arguments after the script name, and the
    `Number.parseInt(…, 10)` it reads `--indent=n` with. */
module CliArgs {
  import opened Wrappers
  import opened Strings
  import opened Seqs

  const DefaultInputPath: string := "./public/json/ak-recruit.json"
  const DefaultOutputPath: string := "./public/json/ak-recruit.min.json"
  const DefaultIndent: int := 2
  const PrettyFlag: string := "--pretty"
  const IndentPrefix: string := "--indent="

  datatype Options = Options(pretty: bool, indent: int)

  datatype Arguments = Arguments(inputPath: string, outputPath: string, options: Options)

  /** The length of the run of decimal digits that starts `s`. */
  function LeadingDigits(s: string): (n: nat)
    ensures n <= |s|
    ensures AllDigits(s[..n])
    ensures n < |s| ==> !IsDigit(s[n])
  {
    if |s| > 0 && IsDigit(s[0]) then
      var m := LeadingDigits(s[1..]);
      assert s[..m + 1] == [s[0]] + s[1..][..m];
      m + 1
    else 0
  }

  /** The number a string of decimal digits spells. */
  function DigitsValue(ds: string): nat
    requires AllDigits(ds)
  {
    if |ds| == 0 then 0
    else DigitsValue(ds[..|ds| - 1]) * 10 + (ds[|ds| - 1] as int - '0' as int)
  }

  /** `Number.parseInt(s, 10)`: white space skipped, an optional sign, then
      the longest run of digits; `None` stands for NaN, when there is no
      digit. */
  function ParseInt10(s: string): Option<int> {
    var t := s[LeadingSpace(s)..];
    var negative := |t| > 0 && t[0] == '-';
    var u := if |t| > 0 && (t[0] == '+' || t[0] == '-') then t[1..] else t;
    var n := LeadingDigits(u);
    if n == 0 then None
    else
      var v := DigitsValue(u[..n]);
      Some(if negative then -(v as int) else v)
  }

  function DigitChar(d: nat): char
    requires d < 10
  {
    ('0' as int + d) as char
  }

  /** The decimal representation of `n`, without leading zeros. */
  function Decimal(n: nat): (r: string)
    ensures |r| > 0 && AllDigits(r)
    ensures DigitsValue(r) == n
  {
    if n < 10 then [DigitChar(n)]
    else
      var r := Decimal(n / 10) + [DigitChar(n % 10)];
      assert r[..|r| - 1] == Decimal(n / 10);
      r
  }

  /** `parseInt` reads back a decimal representation, whatever non-digit
      text follows it. */
  lemma ParseDecimal(n: nat, junk: string)
    requires |junk| == 0 || !IsDigit(junk[0])
    ensures ParseInt10(Decimal(n) + junk) == Some(n)
  {
    var d := Decimal(n);
    var s := d + junk;
    assert s[0] == d[0] && IsDigit(d[0]);
    ReadDigits(d, junk);
    assert LeadingSpace(s) == 0;
    assert s[0..] == s;
    var u := s;
    assert LeadingDigits(u) == |d|;
    assert DigitsValue(u[..|d|]) == n;
  }

  /** The same with a minus sign in front. */
  lemma ParseNegativeDecimal(n: nat, junk: string)
    requires |junk| == 0 || !IsDigit(junk[0])
    ensures ParseInt10("-" + Decimal(n) + junk) == Some(-(n as int))
  {
    var d := Decimal(n);
    var s := d + junk;
    ReadDigits(d, junk);
    var m := "-" + d + junk;
    assert m[0] == '-';
    assert LeadingSpace(m) == 0;
    assert m[0..] == m && m[1..] == s;
    assert DigitsValue(s[..|d|]) == n;
  }

  lemma ReadDigits(d: string, junk: string)
    requires AllDigits(d)
    requires |junk| == 0 || !IsDigit(junk[0])
    ensures LeadingDigits(d + junk) == |d|
    ensures (d + junk)[..|d|] == d
  {
    DigitsThenStop(d, junk);
    assert (d + junk)[..|d|] == d;
  }

  lemma DigitsThenStop(d: string, junk: string)
    requires AllDigits(d)
    requires |junk| == 0 || !IsDigit(junk[0])
    ensures LeadingDigits(d + junk) == |d|
  {
    var u := d + junk;
    var n := LeadingDigits(u);
    assert forall i | 0 <= i < |d| :: IsDigit(u[i]);
    if |junk| > 0 {
      assert u[|d|] == junk[0];
    }
  }

  /** The text after `--indent=`: `arg.split("=")[1]`. */
  function IndentText(arg: string): string
    requires StartsWith(arg, IndentPrefix)
  {
    var pieces := Split(arg, "=");
    if |pieces| > 1 then pieces[1] else ""
  }

  /** An `--indent=` argument whose number is not NaN and not negative. */
  predicate ValidIndent(arg: string) {
    StartsWith(arg, IndentPrefix)
    && ParseInt10(IndentText(arg)).Some?
    && ParseInt10(IndentText(arg)).value >= 0
  }

  function IndentValue(arg: string): int
    requires ValidIndent(arg)
  {
    ParseInt10(IndentText(arg)).value
  }

  /** The text after `--indent=` is all of the rest when the rest has no
      further `=`. */
  lemma IndentTextOf(x: string)
    requires '=' !in x
    ensures StartsWith(IndentPrefix + x, IndentPrefix)
    ensures IndentText(IndentPrefix + x) == x
  {
    var arg := IndentPrefix + x;
    assert arg[..|IndentPrefix|] == IndentPrefix;
    forall j | 0 <= j < |IndentPrefix| - 1
      ensures !At(arg, "=", j)
    {
      assert arg[j..j + 1] == [IndentPrefix[j]];
    }
    assert arg[8..9] == "=";
    assert At(arg, "=", 8);
    var r := IndexOf(arg, "=", 0);
    assert r.Some? && r.value <= 8;
    assert r.value == 8;
    assert arg[9..] == x;
    forall j | 0 <= j < |x|
      ensures !At(x, "=", j)
    {
      assert x[j..j + 1] == [x[j]];
    }
    assert IndexOf(x, "=", 0).None?;
    assert Split(x, "=") == [x];
    assert Split(arg, "=") == [arg[..8]] + Split(x, "=");
  }

  /** A decimal numeral after `--indent=` is accepted as that indent,
      whatever non-digit text without `=` follows it. */
  lemma DecimalIndentAccepted(n: nat, junk: string)
    requires '=' !in junk
    requires |junk| == 0 || !IsDigit(junk[0])
    ensures ValidIndent(IndentPrefix + Decimal(n) + junk)
    ensures IndentValue(IndentPrefix + Decimal(n) + junk) == n
  {
    assert '=' !in Decimal(n) + junk;
    assert IndentPrefix + Decimal(n) + junk == IndentPrefix + (Decimal(n) + junk);
    IndentTextOf(Decimal(n) + junk);
    ParseDecimal(n, junk);
  }

  /** A negative indent is ignored: `--indent=-n` with n > 0 is not valid. */
  lemma NegativeIndentIgnored(n: nat, junk: string)
    requires n > 0 && '=' !in junk
    requires |junk| == 0 || !IsDigit(junk[0])
    ensures !ValidIndent(IndentPrefix + "-" + Decimal(n) + junk)
  {
    assert '=' !in "-" + Decimal(n) + junk;
    assert IndentPrefix + "-" + Decimal(n) + junk == IndentPrefix + ("-" + Decimal(n) + junk);
    IndentTextOf("-" + Decimal(n) + junk);
    ParseNegativeDecimal(n, junk);
  }

  /** `-0` parses to zero, which is not negative, so `--indent=-0` is
      accepted as indent 0. */
  lemma MinusZeroIndentAccepted()
    ensures ValidIndent(IndentPrefix + "-0")
    ensures IndentValue(IndentPrefix + "-0") == 0
  {
    assert Decimal(0) == "0";
    assert "-" + Decimal(0) + "" == "-0";
    IndentTextOf("-0");
    ParseNegativeDecimal(0, "");
  }

  /** Neither `--pretty` nor an `--indent=` argument. */
  predicate Positional(arg: string) {
    arg != PrettyFlag && !StartsWith(arg, IndentPrefix)
  }

  /** `paths[k] || default`: the default stands in for a missing or empty
      path. */
  function PathOr(paths: seq<string>, k: nat, default: string): string {
    if k < |paths| && |paths[k]| > 0 then paths[k] else default
  }

  /** The indent the arguments select, read left to right: each valid
      `--indent=` replaces the one before. */
  function IndentOf(args: seq<string>): int {
    if |args| == 0 then DefaultIndent
    else
      var last := args[|args| - 1];
      if ValidIndent(last) then IndentValue(last) else IndentOf(args[..|args| - 1])
  }

  /** The indent is the default when no `--indent=` is valid, and the value
      of the last valid one otherwise: invalid ones are ignored and later
      ones override earlier ones. */
  lemma IndentIsLastValid(args: seq<string>)
    ensures (forall i | 0 <= i < |args| :: !ValidIndent(args[i])) ==> IndentOf(args) == DefaultIndent
    ensures forall i | 0 <= i < |args| && ValidIndent(args[i]) && (forall j | i < j < |args| :: !ValidIndent(args[j])) ::
      IndentOf(args) == IndentValue(args[i])
  {
    NoValidIndent(args);
    forall i | 0 <= i < |args| && ValidIndent(args[i]) && (forall j | i < j < |args| :: !ValidIndent(args[j]))
      ensures IndentOf(args) == IndentValue(args[i])
    {
      LastValidIndent(args, i);
    }
  }

  lemma {:induction false} NoValidIndent(args: seq<string>)
    ensures (forall i | 0 <= i < |args| :: !ValidIndent(args[i])) ==> IndentOf(args) == DefaultIndent
  {
    if |args| > 0 {
      var n := |args| - 1;
      NoValidIndent(args[..n]);
      assert forall i | 0 <= i < n :: args[..n][i] == args[i];
    }
  }

  lemma {:induction false} LastValidIndent(args: seq<string>, i: nat)
    requires i < |args| && ValidIndent(args[i])
    requires forall j | i < j < |args| :: !ValidIndent(args[j])
    ensures IndentOf(args) == IndentValue(args[i])
    decreases |args|
  {
    var n := |args| - 1;
    if i < n {
      LastValidIndent(args[..n], i);
    }
  }

  /** `parseArguments()` over the arguments after the script name. */
  method ParseArguments(args: seq<string>) returns (r: Arguments)
    ensures r.options.pretty <==> PrettyFlag in args
    ensures r.options.indent == IndentOf(args)
    ensures r.inputPath == PathOr(Filter(args, Positional), 0, DefaultInputPath)
    ensures r.outputPath == PathOr(Filter(args, Positional), 1, DefaultOutputPath)
    ensures r.inputPath != PrettyFlag && r.outputPath != PrettyFlag
  {
    var pretty := false;
    var indent := DefaultIndent;
    var paths: seq<string> := [];
    var i := 0;
    while i < |args|
      invariant 0 <= i <= |args|
      invariant pretty <==> PrettyFlag in args[..i]
      invariant paths == Filter(args[..i], Positional)
      invariant indent == IndentOf(args[..i])
    {
      var arg := args[i];
      FilterSnoc(args[..i], arg, Positional);
      assert args[..i + 1] == args[..i] + [arg];
      assert args[..i + 1][..i] == args[..i];
      if arg == PrettyFlag {
        assert !StartsWith(arg, IndentPrefix);
        pretty := true;
      } else if StartsWith(arg, IndentPrefix) {
        var value := ParseInt10(IndentText(arg));
        if value.Some? && value.value >= 0 {
          assert ValidIndent(arg);
          indent := value.value;
        } else {
          assert !ValidIndent(arg);
        }
      } else {
        paths := paths + [arg];
      }
      i := i + 1;
    }
    assert args[..i] == args;
    r := Arguments(PathOr(paths, 0, DefaultInputPath), PathOr(paths, 1, DefaultOutputPath), Options(pretty, indent));
  }

  /** With no argument, every default applies. */
  method ParseNoArguments() returns (r: Arguments)
    ensures r == Arguments(DefaultInputPath, DefaultOutputPath, Options(false, DefaultIndent))
  {
    r := ParseArguments([]);
  }

  /** Flags do not shift the positions: the paths are the same as with the
      flags left out. */
  lemma {:induction false} FlagsDoNotShiftPaths(args: seq<string>, flags: seq<string>)
    requires forall f | f in flags :: !Positional(f)
    ensures Filter(args + flags, Positional) == Filter(args, Positional)
    ensures Filter(flags + args, Positional) == Filter(args, Positional)
  {
    FilterNone(flags, Positional);
    FilterAppend(args, flags, Positional);
    FilterAppend(flags, args, Positional);
  }
}
