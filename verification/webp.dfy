/** Rewriting icon paths in the roster data from `.png` to `.webp`
    (tools/optimize-assets.js): the path rewrite itself, its application to
    one operator record, and to the whole data file. */
module Webp {
  import opened Wrappers
  import opened Strings
  import opened Entries

  /** A parsed JSON value. Numbers are passed through untouched, so an
      integer stands for them. An object is its list of entries. */
  datatype Json =
    | JNull
    | JBool(b: bool)
    | JNum(n: int)
    | JStr(s: string)
    | JArr(items: seq<Json>)
    | JObj(fields: seq<(string, Json)>)

  /** `/\.png$/i`: the last four characters spell ".png" in any case. */
  predicate EndsWithPng(p: string) {
    |p| >= 4 && ToLower(p[|p| - 4..]) == ".png"
  }

  /** The first element of `value.split("?")`. */
  function PathPart(s: string): string {
    Split(s, "?")[0]
  }

  /** The second element of `value.split("?")`, "" when there is none. */
  function Query(s: string): string {
    var pieces := Split(s, "?");
    if |pieces| > 1 then pieces[1] else ""
  }

  /** `toWebpPath` on a string. */
  function ToWebpString(s: string): string {
    var p := PathPart(s);
    var q := Query(s);
    if !EndsWithPng(p) then s
    else
      var converted := p[..|p| - 4] + ".webp";
      if |q| > 0 then converted + "?" + q else converted
  }

  /** `toWebpPath(value)`: strings are rewritten, other values returned as
      they are. */
  function ToWebpPath(value: Json): (r: Json)
    ensures r != value <==> value.JStr? && EndsWithPng(PathPart(value.s))
  {
    match value
    case JStr(s) => ToWebpChanges(s); JStr(ToWebpString(s))
    case _ => value
  }

  lemma SplitWithoutMark(a: string)
    requires '?' !in a
    ensures Split(a, "?") == [a]
  {
    NotContainsFirstChar(a, "?");
  }

  lemma SplitAtMark(a: string, rest: string)
    requires '?' !in a
    ensures Split(a + "?" + rest, "?") == [a] + Split(rest, "?")
  {
    var s := a + "?" + rest;
    forall j | 0 <= j < |a|
      ensures !At(s, "?", j)
    {
      assert s[j] == a[j] && a[j] in a;
      NotAtMismatch(s, "?", j, 0);
    }
    assert s[|a|..|a| + 1] == "?";
    assert At(s, "?", |a|);
    assert IndexOf(s, "?", 0) == Some(|a|);
    assert s[..|a|] == a && s[|a| + 1..] == rest;
  }

  /** ".png" in any case, with nothing else. */
  predicate PngExtension(ext: string) {
    |ext| == 4 && ToLower(ext) == ".png"
  }

  lemma PngExtensionHasNoMark(ext: string)
    requires PngExtension(ext)
    ensures '?' !in ext
  {
    forall i | 0 <= i < 4
      ensures ext[i] != '?'
    {
      assert LowerAscii(ext[i]) == ".png"[i];
    }
  }

  /** A path ending in ".png" (any case) becomes the same path ending in
      ".webp"; an empty query is dropped with its '?', a non-empty one is
      kept. */
  lemma ToWebpRenames(stem: string, ext: string, q: string)
    requires '?' !in stem && PngExtension(ext) && '?' !in q
    ensures ToWebpString(stem + ext) == stem + ".webp"
    ensures ToWebpString(stem + ext + "?") == stem + ".webp"
    ensures |q| > 0 ==> ToWebpString(stem + ext + "?" + q) == stem + ".webp?" + q
  {
    PngExtensionHasNoMark(ext);
    var p := stem + ext;
    assert p[|p| - 4..] == ext && p[..|p| - 4] == stem;
    SplitWithoutMark(p);
    SplitAtMark(p, "");
    SplitWithoutMark("");
    SplitAtMark(p, q);
    SplitWithoutMark(q);
    assert p + "?" + "" == p + "?";
  }

  /** Only the text between the first and the second '?' survives as the
      query: anything from a second '?' on is dropped. */
  lemma ToWebpDropsSecondQuery(stem: string, ext: string, q: string, rest: string)
    requires '?' !in stem && PngExtension(ext) && '?' !in q
    ensures ToWebpString(stem + ext + "?" + q + "?" + rest) == ToWebpString(stem + ext + "?" + q)
  {
    PngExtensionHasNoMark(ext);
    var p := stem + ext;
    assert p[|p| - 4..] == ext;
    SplitAtMark(p, q + "?" + rest);
    assert p + "?" + (q + "?" + rest) == p + "?" + q + "?" + rest;
    SplitAtMark(q, rest);
    SplitAtMark(p, q);
    SplitWithoutMark(q);
  }

  /** A string is rewritten exactly when its path part ends in ".png". */
  lemma ToWebpChanges(s: string)
    ensures ToWebpString(s) != s <==> EndsWithPng(PathPart(s))
  {
    var p := PathPart(s);
    if EndsWithPng(p) {
      var stem := p[..|p| - 4];
      var pieces := Split(s, "?");
      var r := ToWebpString(s);
      PathPartPrefix(s);
      assert r[|stem| + 1] == 'w';
      assert s[|stem| + 1] == p[|stem| + 1];
      assert LowerAscii(p[|p| - 4..][1]) == 'p';
    }
  }

  /** The path part is a prefix of the string. */
  lemma PathPartPrefix(s: string)
    ensures |PathPart(s)| <= |s| && s[..|PathPart(s)|] == PathPart(s)
  {
    match IndexOf(s, "?", 0)
    case None =>
    case Some(i) =>
  }

  /** The rewritten path part ends in ".webp", which no longer matches, and
      has no '?'. */
  lemma ConvertedPathPart(p: string, q: string)
    requires EndsWithPng(p) && '?' !in p && '?' !in q
    ensures var c := p[..|p| - 4] + ".webp";
      '?' !in c && !EndsWithPng(c) && PathPart(if |q| > 0 then c + "?" + q else c) == c
      && Query(if |q| > 0 then c + "?" + q else c) == q
  {
    var c := p[..|p| - 4] + ".webp";
    assert forall ch | ch in p[..|p| - 4] :: ch in p;
    assert c[|c| - 4..] == "webp";
    assert ToLower(c[|c| - 4..])[0] == 'w';
    SplitWithoutMark(c);
    if |q| > 0 {
      SplitAtMark(c, q);
      SplitWithoutMark(q);
    }
  }

  /** Rewriting twice is rewriting once. */
  lemma ToWebpIdempotent(s: string)
    ensures ToWebpString(ToWebpString(s)) == ToWebpString(s)
  {
    var p := PathPart(s);
    if EndsWithPng(p) {
      PathPartHasNoMark(s);
      QueryHasNoMark(s);
      ConvertedPathPart(p, Query(s));
    }
  }

  lemma PathPartHasNoMark(s: string)
    ensures '?' !in PathPart(s)
  {
    match IndexOf(s, "?", 0)
    case None =>
      NoMarkWithoutOccurrence(s);
    case Some(i) =>
      forall j | 0 <= j < i
        ensures s[j] != '?'
      {
        assert !At(s, "?", j);
        assert s[j..j + 1] == [s[j]];
      }
  }

  lemma QueryHasNoMark(s: string)
    ensures '?' !in Query(s)
  {
    match IndexOf(s, "?", 0)
    case None =>
    case Some(i) =>
      PathPartHasNoMark(s[i + 1..]);
  }

  lemma NoMarkWithoutOccurrence(s: string)
    requires forall j | 0 <= j :: !At(s, "?", j)
    ensures '?' !in s
  {
    forall j | 0 <= j < |s|
      ensures s[j] != '?'
    {
      assert !At(s, "?", j);
      assert s[j..j + 1] == [s[j]];
    }
  }

  /** A JSON object's entries have distinct keys. */
  predicate WellFormedRecord(record: Json) {
    record.JObj? ==> DistinctKeys(record.fields)
  }

  /** The record has an `imgPath` string whose path part ends in ".png". */
  predicate HasPngImgPath(record: Json) {
    record.JObj? && match Get<Json>(record.fields, "imgPath")
      case Some(JStr(p)) => EndsWithPng(PathPart(p))
      case _ => false
  }

  /** `convertOperatorRecord(record, changeCounter)`, with the counter's
      value passed in and returned. */
  function ConvertOperatorRecord(record: Json, count: nat): (r: (Json, nat))
    requires WellFormedRecord(record)
    ensures WellFormedRecord(r.0)
    ensures r.1 == (if HasPngImgPath(record) then count + 1 else count)
    ensures r.1 == count <==> r.0 == record
    ensures r.0 != record ==>
      && r.0.JObj?
      && Keys(r.0.fields) == Keys(record.fields)
      && (forall e | e in record.fields && e.0 != "imgPath" :: e in r.0.fields)
      && (exists p :: Get(record.fields, "imgPath") == Some(JStr(p))
           && Get(r.0.fields, "imgPath") == Some(JStr(ToWebpString(p))))
  {
    if !record.JObj? then (record, count)
    else match Get<Json>(record.fields, "imgPath")
      case Some(JStr(p)) =>
        var next := ToWebpString(p);
        ToWebpChanges(p);
        if next == p then (record, count)
        else
          var fields := Put(record.fields, "imgPath", JStr(next));
          GetPut(record.fields, "imgPath", JStr(next));
          (JObj(fields), count + 1)
      case _ => (record, count)
  }

  /** A converted record converts to itself and counts nothing. */
  lemma ConvertIdempotent(record: Json)
    requires WellFormedRecord(record)
    ensures ConvertOperatorRecord(ConvertOperatorRecord(record, 0).0, 0) == (ConvertOperatorRecord(record, 0).0, 0)
  {
    var r := ConvertOperatorRecord(record, 0).0;
    if r != record {
      var p :| Get(record.fields, "imgPath") == Some(JStr(p)) && Get(r.fields, "imgPath") == Some(JStr(ToWebpString(p)));
      ToWebpIdempotent(p);
      ToWebpChanges(ToWebpString(p));
    }
  }

  /** `data.map((item) => convertOperatorRecord(item, changeCounter))`. */
  function ConvertAll(items: seq<Json>, count: nat): (r: (seq<Json>, nat))
    requires forall i | 0 <= i < |items| :: WellFormedRecord(items[i])
    ensures |r.0| == |items|
    ensures forall i | 0 <= i < |items| :: r.0[i] == ConvertOperatorRecord(items[i], 0).0
    ensures r.1 == count + PngRecords(items)
  {
    if |items| == 0 then ([], count)
    else
      var (head, c) := ConvertOperatorRecord(items[0], count);
      var (tail, c') := ConvertAll(items[1..], c);
      ([head] + tail, c')
  }

  /** The number of records whose `imgPath` gets rewritten. */
  function PngRecords(items: seq<Json>): nat {
    if |items| == 0 then 0
    else (if HasPngImgPath(items[0]) then 1 else 0) + PngRecords(items[1..])
  }

  /** What the transform accepts: an array of records, or an object whose
      `operators` entry, when it is an array, holds records. */
  predicate Transformable(data: Json) {
    match data
    case JArr(items) => forall i | 0 <= i < |items| :: WellFormedRecord(items[i])
    case JObj(fields) =>
      DistinctKeys(fields) && (match Get<Json>(fields, "operators")
        case Some(JArr(ops)) => forall i | 0 <= i < |ops| :: WellFormedRecord(ops[i])
        case _ => true)
    case _ => true
  }

  /** `transformOperatorsToWebp(data)`, with the number of rewritten paths
      it reports. */
  function TransformOperatorsToWebp(data: Json): (r: (Json, nat))
    requires Transformable(data)
    ensures data.JArr? ==>
      && r.0.JArr?
      && |r.0.items| == |data.items|
      && (forall i | 0 <= i < |data.items| :: r.0.items[i] == ConvertOperatorRecord(data.items[i], 0).0)
      && r.1 == PngRecords(data.items)
    ensures data.JObj? ==>
      && r.0.JObj?
      && Keys(r.0.fields) == Keys(data.fields)
      && (forall e | e in data.fields && e.0 != "operators" :: e in r.0.fields)
    ensures data.JObj? && Get(data.fields, "operators").Some? && Get(data.fields, "operators").value.JArr? ==>
      var ops := Get(data.fields, "operators").value.items;
      Get(r.0.fields, "operators") == Some(JArr(ConvertAll(ops, 0).0)) && r.1 == PngRecords(ops)
    ensures data.JObj? && !(Get(data.fields, "operators").Some? && Get(data.fields, "operators").value.JArr?) ==>
      r == (data, 0)
    ensures !data.JArr? && !data.JObj? ==> r == (data, 0)
  {
    match data
    case JArr(items) =>
      var (converted, n) := ConvertAll(items, 0);
      (JArr(converted), n)
    case JObj(fields) =>
      (match Get<Json>(fields, "operators")
       case Some(JArr(ops)) =>
         var (converted, n) := ConvertAll(ops, 0);
         GetPut(fields, "operators", JArr(converted));
         (JObj(Put(fields, "operators", JArr(converted))), n)
       case _ => (data, 0))
    case _ => (data, 0)
  }

  /** Converting a converted list changes nothing and counts nothing. */
  lemma {:induction false} ConvertAllIdempotent(items: seq<Json>)
    requires forall i | 0 <= i < |items| :: WellFormedRecord(items[i])
    ensures var once := ConvertAll(items, 0).0; ConvertAll(once, 0) == (once, 0)
  {
    var once := ConvertAll(items, 0).0;
    forall i | 0 <= i < |items|
      ensures ConvertOperatorRecord(once[i], 0) == (once[i], 0)
    {
      ConvertIdempotent(items[i]);
    }
    ConvertAllFixed(once);
  }

  lemma {:induction false} ConvertAllFixed(items: seq<Json>)
    requires forall i | 0 <= i < |items| :: WellFormedRecord(items[i])
    requires forall i | 0 <= i < |items| :: ConvertOperatorRecord(items[i], 0) == (items[i], 0)
    ensures ConvertAll(items, 0) == (items, 0)
  {
    if |items| > 0 {
      ConvertAllFixed(items[1..]);
      assert [items[0]] + items[1..] == items;
    }
  }

  /** Running the transform on its own output changes nothing and
      reports no rewritten path. */
  lemma TransformIdempotent(data: Json)
    requires Transformable(data)
    ensures Transformable(TransformOperatorsToWebp(data).0)
    ensures TransformOperatorsToWebp(TransformOperatorsToWebp(data).0) == (TransformOperatorsToWebp(data).0, 0)
  {
    match data
    case JArr(items) =>
      ConvertAllIdempotent(items);
    case JObj(fields) =>
      match Get<Json>(fields, "operators") {
        case Some(JArr(ops)) =>
          var converted := ConvertAll(ops, 0).0;
          ConvertAllIdempotent(ops);
          var fields' := Put(fields, "operators", JArr(converted));
          GetPut(fields, "operators", JArr(converted));
          PutPresent(fields', "operators", JArr(converted));
        case _ =>
      }
    case _ =>
  }
}
