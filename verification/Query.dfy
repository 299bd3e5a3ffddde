/** Query strings: what the kleos and forge clients append to a path, and the parser that reads it back. */
module Query {
  import opened Wrappers
  import opened Json
  import opened Percent

  datatype Pair = Pair(key: string, value: string)

  // ----- the kleos client

  /** The text of a scalar; null, arrays and objects have none. */
  function ScalarText(v: Json): (r: Option<string>)
  {
    match v
    case Str(s) => Some(s)
    case Number(text) => Some(text)
    case Bool(b) => Some(if b then "true" else "false")
    case _ => None
  }

  function ScalarPairs(key: string, items: seq<Json>): (r: seq<Pair>)
  {
    if items == [] then []
    else
      ScalarPairs(key, items[..|items| - 1]) + ScalarPair(key, items[|items| - 1])
  }

  /** The pairs one field stands for: one per scalar of an array, one for a scalar, none otherwise. */
  function FieldPairs(f: Field): seq<Pair> {
    ScalarPairs(f.key, if f.value.Array? then f.value.items else [f.value])
  }

  /** The flattened scalar pairs of an argument object, in order. */
  function Flatten(fields: seq<Field>): (r: seq<Pair>)
  {
    if fields == [] then [] else Flatten(fields[..|fields| - 1]) + FieldPairs(fields[|fields| - 1])
  }

  function PairText(keep: Kept, p: Pair): string {
    PercentEncode(keep, p.key) + "=" + PercentEncode(keep, p.value)
  }

  function PairTexts(keep: Kept, pairs: seq<Pair>): seq<string> {
    seq(|pairs|, i requires 0 <= i < |pairs| => PairText(keep, pairs[i]))
  }

  /** Each pair with an ampersand in front, as the loop accumulates them. */
  function Ampersanded(keep: Kept, pairs: seq<Pair>): (r: string)
  {
    if pairs == [] then "" else Ampersanded(keep, pairs[..|pairs| - 1]) + "&" + PairText(keep, pairs[|pairs| - 1])
  }

  function ScalarPair(key: string, value: Json): seq<Pair> {
    match ScalarText(value) case None => [] case Some(text) => [Pair(key, text)]
  }

  /** `push_qparam`: `pairs` are those already in the string. */
  method PushParam(qs: string, key: string, value: Json, ghost pairs: seq<Pair>) returns (r: string)
    requires qs == Ampersanded(KeptInQuery, pairs)
    ensures r == Ampersanded(KeptInQuery, pairs + ScalarPair(key, value))
  {
    hide PercentEncode;
    var raw := ScalarText(value);
    if raw.None? {
      assert pairs + [] == pairs;
      return qs;
    }
    ghost var more := pairs + [Pair(key, raw.value)];
    assert more[..|pairs|] == pairs;
    r := qs + "&" + (PercentEncode(KeptInQuery, key) + "=" + PercentEncode(KeptInQuery, raw.value));
  }

  /** One field of the object: nothing for null and empty objects, one parameter per array element, one otherwise. */
  method PushField(qs: string, f: Field, ghost pairs: seq<Pair>) returns (r: string)
    requires qs == Ampersanded(KeptInQuery, pairs)
    ensures r == Ampersanded(KeptInQuery, pairs + FieldPairs(f))
  {
    hide ScalarText, Ampersanded;
    r := qs;
    if f.value.Array? {
      var items := f.value.items;
      assert items[..0] == [] && pairs + ScalarPairs(f.key, []) == pairs;
      for j := 0 to |items|
        invariant r == Ampersanded(KeptInQuery, pairs + ScalarPairs(f.key, items[..j]))
      {
        assert items[..j + 1][..j] == items[..j];
        ghost var before := pairs + ScalarPairs(f.key, items[..j]);
        r := PushParam(r, f.key, items[j], before);
        assert before + ScalarPair(f.key, items[j]) == pairs + ScalarPairs(f.key, items[..j + 1]);
      }
      assert items[..|items|] == items;
    } else {
      OneScalar(f);
      if !f.value.Null? && !(f.value.Object? && f.value.fields == []) {
        r := PushParam(r, f.key, f.value, pairs);
      } else {
        assert pairs + [] == pairs;
      }
    }
  }

  /** `append_query_string`. Arguments that are not an object are `None`. */
  method AppendQueryString(path: string, args: Option<seq<Field>>) returns (r: string)
    ensures r == WithQuery(KeptInQuery, path, if args.Some? then Flatten(args.value) else [])
  {
    hide FieldPairs, Ampersanded, PairTexts, JoinWith;
    if args.None? || args.value == [] {
      return path;
    }
    var fields := args.value;
    var qs := "";
    assert fields[..0] == [];
    AmpersandsAreJoined(KeptInQuery, []);
    for i := 0 to |fields|
      invariant qs == Ampersanded(KeptInQuery, Flatten(fields[..i]))
    {
      assert fields[..i + 1][..i] == fields[..i];
      qs := PushField(qs, fields[i], Flatten(fields[..i]));
    }
    assert fields[..|fields|] == fields;
    AmpersandsAreJoined(KeptInQuery, Flatten(fields));
    if qs == "" {
      return path;
    }
    return path + "?" + qs[1..];
  }

  lemma OneScalar(f: Field)
    requires !f.value.Array?
    ensures FieldPairs(f) == ScalarPair(f.key, f.value)
    ensures f.value.Null? || f.value.Object? ==> ScalarText(f.value) == None
  {
    assert ScalarPairs(f.key, [f.value][..0]) == [];
  }

  lemma JoinSnoc(sep: char, parts: seq<string>, last: string)
    requires parts != []
    ensures JoinWith(sep, parts + [last]) == JoinWith(sep, parts) + [sep] + last
    decreases |parts|
  {
    if |parts| == 1 {
      assert (parts + [last])[1..] == [last];
    } else {
      assert (parts + [last])[1..] == parts[1..] + [last];
      JoinSnoc(sep, parts[1..], last);
    }
  }

  lemma {:induction false} AmpersandsAreJoined(keep: Kept, pairs: seq<Pair>)
    ensures pairs != [] ==> Ampersanded(keep, pairs) == "&" + JoinWith('&', PairTexts(keep, pairs))
    ensures pairs == [] ==> Ampersanded(keep, pairs) == ""
  {
    hide PairText;
    if pairs != [] {
      var front := pairs[..|pairs| - 1];
      AmpersandsAreJoined(keep, front);
      var texts := PairTexts(keep, pairs);
      assert texts == PairTexts(keep, front) + [PairText(keep, pairs[|pairs| - 1])];
      if front != [] {
        JoinSnoc('&', PairTexts(keep, front), PairText(keep, pairs[|pairs| - 1]));
      }
    }
  }

  // ----- the forge client

  /** The pairs of `get_with_query`: every field, values that are not strings as their JSON text. */
  function ForgePairs(fields: seq<Field>, jsonText: Json -> string): seq<Pair> {
    seq(|fields|, i requires 0 <= i < |fields| =>
      Pair(fields[i].key, if fields[i].value.Str? then fields[i].value.s else jsonText(fields[i].value)))
  }

  /** Path and query of `get_with_query`, each pair after the first preceded by an ampersand. */
  method GetWithQuery(path: string, fields: seq<Field>, jsonText: Json -> string) returns (r: string)
    ensures r == WithQuery(Unreserved, path, ForgePairs(fields, jsonText))
  {
    hide PercentEncode;
    var pairs := ForgePairs(fields, jsonText);
    if pairs == [] {
      return path;
    }
    var key := PercentEncodeQuery(pairs[0].key);
    var value := PercentEncodeQuery(pairs[0].value);
    var qs := key + "=" + value;
    assert PairTexts(Unreserved, pairs)[..1] == [qs];
    for i := 1 to |pairs|
      invariant qs == JoinWith('&', PairTexts(Unreserved, pairs)[..i])
    {
      key := PercentEncodeQuery(pairs[i].key);
      value := PercentEncodeQuery(pairs[i].value);
      ghost var texts := PairTexts(Unreserved, pairs);
      assert texts[..i + 1] == texts[..i] + [key + "=" + value];
      JoinSnoc('&', texts[..i], key + "=" + value);
      qs := qs + "&" + (key + "=" + value);
    }
    assert PairTexts(Unreserved, pairs)[..|pairs|] == PairTexts(Unreserved, pairs);
    return path + "?" + qs;
  }

  // ----- what both mean

  /** Path and query as section 3.4 of RFC 3986 joins them; no query part when there are no pairs. */
  function WithQuery(keep: Kept, path: string, pairs: seq<Pair>): string {
    if pairs == [] then path else path + "?" + JoinWith('&', PairTexts(keep, pairs))
  }

  function ParsePair(text: string): (r: Option<Pair>)
  {
    var (k, v) := CutAt('=', text);
    if v.None? || PercentDecode(k).None? || PercentDecode(v.value).None? then None
    else Some(Pair(PercentDecode(k).value, PercentDecode(v.value).value))
  }

  function ParsePairs(texts: seq<string>): (r: Option<seq<Pair>>)
  {
    if texts == [] then Some([])
    else match (ParsePair(texts[0]), ParsePairs(texts[1..]))
      case (Some(p), Some(rest)) => Some([p] + rest)
      case _ => None
  }

  /** The path and the pairs of a request target. */
  function ParseTarget(target: string): (r: Option<(string, seq<Pair>)>)
  {
    var (path, query) := CutAt('?', target);
    if query.None? then Some((path, []))
    else match ParsePairs(SplitAt('&', query.value))
      case None => None
      case Some(pairs) => Some((path, pairs))
  }

  /** An encoder that leaves no separator standing. */
  ghost predicate Separating(keep: Kept) {
    Escaping(keep) && !keep('&' as int) && !keep('=' as int)
  }

  lemma PairRoundTrip(keep: Kept, p: Pair)
    requires Separating(keep)
    ensures '&' !in PairText(keep, p) && ParsePair(PairText(keep, p)) == Some(p)
  {
    hide PercentEncode, PercentDecode, CutAt;
    NotEncoded(keep, p.key, '&');
    NotEncoded(keep, p.value, '&');
    NotEncoded(keep, p.key, '=');
    CutAtFirst('=', PercentEncode(keep, p.key), PercentEncode(keep, p.value));
    EncodeIsInvertible(keep, p.key);
    EncodeIsInvertible(keep, p.value);
  }

  lemma {:induction false} PairsRoundTrip(keep: Kept, pairs: seq<Pair>)
    requires Separating(keep)
    ensures ParsePairs(PairTexts(keep, pairs)) == Some(pairs)
  {
    hide PairText, ParsePair;
    if pairs != [] {
      PairRoundTrip(keep, pairs[0]);
      PairsRoundTrip(keep, pairs[1..]);
      assert PairTexts(keep, pairs)[1..] == PairTexts(keep, pairs[1..]);
      assert pairs == [pairs[0]] + pairs[1..];
    }
  }

  lemma TargetRoundTrip(keep: Kept, path: string, pairs: seq<Pair>)
    requires Separating(keep) && '?' !in path
    ensures ParseTarget(WithQuery(keep, path, pairs)) == Some((path, pairs))
  {
    hide PairText, ParsePair, CutAt, SplitAt, JoinWith, ParsePairs;
    var query := JoinWith('&', PairTexts(keep, pairs));
    CutAtFirst('?', path, query);
    if pairs != [] {
      forall i | 0 <= i < |pairs| ensures '&' !in PairTexts(keep, pairs)[i] {
        PairRoundTrip(keep, pairs[i]);
      }
      SplitJoined('&', PairTexts(keep, pairs));
      PairsRoundTrip(keep, pairs);
    }
  }

  /**
   Query strings round trip: parsing what the kleos client appends to a path without a question mark gives back the
   path and exactly the flattened scalar pairs, in order; parsing what the forge client sends gives back exactly its
   pairs. One parser serves both, so the two encoders agree on meaning.
   */
  lemma QueryRoundTrip(path: string, fields: seq<Field>, jsonText: Json -> string)
    requires '?' !in path
    ensures ParseTarget(WithQuery(KeptInQuery, path, Flatten(fields))) == Some((path, Flatten(fields)))
    ensures ParseTarget(WithQuery(Unreserved, path, ForgePairs(fields, jsonText))) ==
      Some((path, ForgePairs(fields, jsonText)))
  {
    hide Flatten, ForgePairs, WithQuery, ParseTarget;
    QueryEscapes();
    TargetRoundTrip(KeptInQuery, path, Flatten(fields));
    TargetRoundTrip(Unreserved, path, ForgePairs(fields, jsonText));
  }

  /** What one field stands for: a pair for a scalar, one for each scalar in an array, none for anything else. */
  lemma FieldStandsFor(key: string, value: Json)
    ensures match value
      case Str(s) => FieldPairs(Field(key, value)) == [Pair(key, s)]
      case Number(text) => FieldPairs(Field(key, value)) == [Pair(key, text)]
      case Bool(b) => FieldPairs(Field(key, value)) == [Pair(key, if b then "true" else "false")]
      case Null => FieldPairs(Field(key, value)) == []
      case Object(_) => FieldPairs(Field(key, value)) == []
      case Array(items) => items == [] ==> FieldPairs(Field(key, value)) == []
    ensures forall items, last :: value == Array(items + [last]) ==>
      FieldPairs(Field(key, value)) == FieldPairs(Field(key, Array(items)))
                                       + if last.Array? then [] else FieldPairs(Field(key, last))
  {
    if !value.Array? {
      OneScalar(Field(key, value));
    }
    forall items, last | value == Array(items + [last])
      ensures FieldPairs(Field(key, value)) == FieldPairs(Field(key, Array(items)))
                                               + if last.Array? then [] else FieldPairs(Field(key, last))
    {
      assert (items + [last])[..|items|] == items;
      if !last.Array? { OneScalar(Field(key, last)); }
    }
  }

  /** Fields contribute in order. */
  lemma {:induction false} FlattenSplits(a: seq<Field>, b: seq<Field>)
    ensures Flatten(a + b) == Flatten(a) + Flatten(b)
    ensures forall f :: Flatten([f]) == FieldPairs(f)
  {
    hide FieldPairs;
    forall f ensures Flatten([f]) == FieldPairs(f) {
      assert [f][..0] == [] && Flatten([]) == [];
    }
    if b == [] {
      assert a + b == a;
    } else {
      assert (a + b)[..|a + b| - 1] == a + b[..|b| - 1];
      FlattenSplits(a, b[..|b| - 1]);
    }
  }

  /**
   The forge client sends one pair for every field, in order: strings as they are, other values as their JSON text.
   */
  lemma ForgeFieldStandsFor(fields: seq<Field>, jsonText: Json -> string, i: nat)
    requires i < |fields|
    ensures |ForgePairs(fields, jsonText)| == |fields| && ForgePairs(fields, jsonText)[i].key == fields[i].key
    ensures forall s :: fields[i].value == Str(s) ==> ForgePairs(fields, jsonText)[i].value == s
    ensures !fields[i].value.Str? ==> ForgePairs(fields, jsonText)[i].value == jsonText(fields[i].value)
  {
  }

  /** Two argument objects yield the same query exactly when they flatten to the same pairs. */
  lemma SameQuerySamePairs(path: string, a: seq<Field>, b: seq<Field>)
    requires '?' !in path
    ensures WithQuery(KeptInQuery, path, Flatten(a)) == WithQuery(KeptInQuery, path, Flatten(b)) <==>
      Flatten(a) == Flatten(b)
  {
    hide Flatten, WithQuery, ParseTarget;
    QueryEscapes();
    TargetRoundTrip(KeptInQuery, path, Flatten(a));
    TargetRoundTrip(KeptInQuery, path, Flatten(b));
  }
}
