/**
 `call_route` of the kleos client for GET and DELETE: arguments go into the path or into the query, and none gets lost.
 */
module CallRoute {
  import opened Wrappers
  import opened Json
  import opened Percent
  import P = PathTemplate
  import Q = Query

  /** The left-over arguments as the map yields them. */
  function Fields(order: seq<string>, args: P.Args): (r: seq<Field>)
    requires forall i :: 0 <= i < |order| ==> order[i] in args
  {
    seq(|order|, i requires 0 <= i < |order| => Field(order[i], args[order[i]]))
  }

  /** An order in which the map yields its keys: each once. */
  ghost predicate Yields(order: seq<string>, args: P.Args) {
    (forall key :: key in order <==> key in args) && forall i, j :: 0 <= i < j < |order| ==> order[i] != order[j]
  }

  /**
   Render the path, then append what is left as a query. `order` is how the map of left-over arguments is iterated.
   */
  method RequestTarget(template: string, args: P.Args, order: seq<string>) returns (r: Option<string>)
    requires var rendered := P.Render(template, Some(args));
      rendered.Done? && rendered.left.Some? ==> Yields(order, rendered.left.value)
    ensures match P.Render(template, Some(args))
      case Failed(_) => r == None
      case Done(text, left) =>
        left.Some? ==> r == Some(Q.WithQuery(KeptInQuery, text, Q.Flatten(Fields(order, left.value))))
  {
    hide P.Render, Q.Flatten, Q.WithQuery;
    var rendered := P.RenderPath(template, Some(args));
    match rendered {
      case Failed(_) => return None;
      case Done(text, left) =>
        var fields := if left.Some? then Some(Fields(order, left.value)) else None;
        var target := Q.AppendQueryString(text, fields);
        return Some(target);
    }
  }

  predicate NoQuestion(segments: seq<P.Segment>) {
    forall i :: 0 <= i < |segments| && segments[i].Literal? ==> '?' !in segments[i].text
  }

  lemma {:induction false} NotInJoin(sep: char, parts: seq<string>, c: char)
    requires c != sep && forall i :: 0 <= i < |parts| ==> c !in parts[i]
    ensures c !in JoinWith(sep, parts)
  {
    if |parts| > 1 {
      NotInJoin(sep, parts[1..], c);
    }
  }

  /** A filled path has no question mark of its own. */
  lemma PathHasNoQuestion(segments: seq<P.Segment>, args: P.Args)
    requires P.AllStrings(segments, args) && NoQuestion(segments)
    ensures '?' !in JoinWith('/', P.FilledAll(segments, args))
  {
    hide PercentEncode, JoinWith;
    PathEscapes();
    var parts := P.FilledAll(segments, args);
    forall i | 0 <= i < |parts| ensures '?' !in parts[i] {
      if segments[i].Param? { NotEncoded(KeptInPath, args[segments[i].key].s, '?'); }
    }
    NotInJoin('/', parts, '?');
  }

  /** The pairs with a key, in order. */
  function WithKey(pairs: seq<Q.Pair>, key: string): (r: seq<Q.Pair>)
  {
    if pairs == [] then []
    else WithKey(pairs[..|pairs| - 1], key) + if pairs[|pairs| - 1].key == key then [pairs[|pairs| - 1]] else []
  }

  lemma {:induction false} WithKeySplits(a: seq<Q.Pair>, b: seq<Q.Pair>, key: string)
    ensures WithKey(a + b, key) == WithKey(a, key) + WithKey(b, key)
  {
    if b == [] {
      assert a + b == a;
    } else {
      var front := b[..|b| - 1];
      assert (a + b)[..|a + b| - 1] == a + front;
      WithKeySplits(a, front, key);
    }
  }

  lemma {:induction false} WithKeyOfAll(pairs: seq<Q.Pair>, own: string, key: string)
    requires forall i :: 0 <= i < |pairs| ==> pairs[i].key == own
    ensures WithKey(pairs, key) == if own == key then pairs else []
  {
    if pairs != [] {
      WithKeyOfAll(pairs[..|pairs| - 1], own, key);
    }
  }

  lemma WithKeyOfField(f: Field, key: string)
    ensures WithKey(Q.FieldPairs(f), key) == if f.key == key then Q.FieldPairs(f) else []
  {
    hide Q.FieldPairs;
    FieldPairsAre(f);
    forall i | 0 <= i < |Q.FieldPairs(f)| ensures Q.FieldPairs(f)[i].key == f.key {
      PairsKeepKey(f.key, if f.value.Array? then f.value.items else [f.value], Q.FieldPairs(f)[i]);
    }
    WithKeyOfAll(Q.FieldPairs(f), f.key, key);
  }

  /** Fields with different keys: the flattened pairs with a field's key are that field's, all of them, once. */
  lemma {:induction false} FlattenedByKey(fields: seq<Field>, key: string)
    requires forall i, j :: 0 <= i < j < |fields| ==> fields[i].key != fields[j].key
    ensures (forall i :: 0 <= i < |fields| ==> fields[i].key != key) ==> WithKey(Q.Flatten(fields), key) == []
    ensures forall i :: 0 <= i < |fields| && fields[i].key == key ==>
              WithKey(Q.Flatten(fields), key) == Q.FieldPairs(fields[i])
  {
    hide Q.FieldPairs, WithKey;
    if fields == [] {
      NoPairs(key);
    } else {
      var k := |fields| - 1;
      FlattenedByKey(fields[..k], key);
      WithKeySplits(Q.Flatten(fields[..k]), Q.FieldPairs(fields[k]), key);
      WithKeyOfField(fields[k], key);
      forall i | 0 <= i < |fields| && fields[i].key == key
        ensures WithKey(Q.Flatten(fields), key) == Q.FieldPairs(fields[i])
      {
        if i < k {
          assert fields[..k][i] == fields[i] && fields[k].key != key;
        }
      }
    }
  }

  lemma NoPairs(key: string)
    ensures WithKey([], key) == []
  {
  }

  lemma ScalarFieldPairs(f: Field)
    requires Q.ScalarText(f.value).Some?
    ensures Q.FieldPairs(f) == [Q.Pair(f.key, Q.ScalarText(f.value).value)]
  {
    Q.OneScalar(f);
  }

  /**
   No argument is lost or doubled: for a route whose placeholders are whole segments, each used once and given a
   string, the request target parses into a path and pairs; decoding the path's placeholder segments gives their
   arguments; the pairs with the key of any other argument are those of that argument and no more, exactly one when it
   is a scalar; and no pair carries any other key.
   */
  lemma ArgumentsAreConserved(segments: seq<P.Segment>, args: P.Args, order: seq<string>)
    requires P.WellFormed(segments) && P.AllStrings(segments, args) && P.DistinctKeys(segments) && NoQuestion(segments)
    requires Yields(order, args - P.Keys(segments))
    ensures var rendered := P.Render(P.Template(segments), Some(args));
      && rendered.Done? && rendered.left == Some(args - P.Keys(segments))
      && var pairs := Q.Flatten(Fields(order, rendered.left.value));
      && Q.ParseTarget(Q.WithQuery(KeptInQuery, rendered.text, pairs)) == Some((rendered.text, pairs))
      && var parts := SplitAt('/', rendered.text);
      && |parts| == |segments|
      && (forall i :: 0 <= i < |segments| && segments[i].Param? ==>
            PercentDecode(parts[i]) == Some(args[segments[i].key].s))
      && (forall key :: key in args && key !in P.Keys(segments) ==>
            && WithKey(pairs, key) == Q.FieldPairs(Field(key, args[key]))
            && (Q.ScalarText(args[key]).Some? ==> WithKey(pairs, key) == [Q.Pair(key, Q.ScalarText(args[key]).value)]))
      && (forall p :: p in pairs ==> p.key in args && p.key !in P.Keys(segments))
  {
    hide P.Render, P.Template, P.Keys, PercentDecode, SplitAt, JoinWith, Q.Flatten, Q.WithQuery, Q.ParseTarget;
    hide Q.ScalarText;
    hide WithKey, Q.FieldPairs;
    P.RenderIsInvertible(segments, args);
    P.RenderSegments(segments, args);
    PathHasNoQuestion(segments, args);
    var rendered := P.Render(P.Template(segments), Some(args));
    var fields := Fields(order, rendered.left.value);
    QueryEscapes();
    Q.TargetRoundTrip(KeptInQuery, rendered.text, Q.Flatten(fields));
    forall key | key in args && key !in P.Keys(segments)
      ensures WithKey(Q.Flatten(fields), key) == Q.FieldPairs(Field(key, args[key]))
      ensures Q.ScalarText(args[key]).Some? ==>
                WithKey(Q.Flatten(fields), key) == [Q.Pair(key, Q.ScalarText(args[key]).value)]
    {
      assert key in rendered.left.value;
      var i :| 0 <= i < |order| && order[i] == key;
      assert fields[i] == Field(key, args[key]);
      FlattenedByKey(fields, key);
      if Q.ScalarText(args[key]).Some? { ScalarFieldPairs(fields[i]); }
    }
    forall p | p in Q.Flatten(fields) ensures p.key in args && p.key !in P.Keys(segments) {
      var i := FlattenedKey(fields, p);
      assert fields[i].key == order[i];
    }
  }

  lemma {:induction false} FlattenedKey(fields: seq<Field>, p: Q.Pair) returns (i: nat)
    requires p in Q.Flatten(fields)
    ensures i < |fields| && fields[i].key == p.key
  {
    hide Q.FieldPairs;
    var k := |fields| - 1;
    if p in Q.FieldPairs(fields[k]) {
      i := k;
      PairsKeepKey(fields[k].key, if fields[k].value.Array? then fields[k].value.items else [fields[k].value], p) by {
        FieldPairsAre(fields[k]);
      }
    } else {
      i := FlattenedKey(fields[..k], p);
    }
  }

  lemma FieldPairsAre(f: Field)
    ensures Q.FieldPairs(f) == Q.ScalarPairs(f.key, if f.value.Array? then f.value.items else [f.value])
  {
  }

  lemma {:induction false} PairsKeepKey(key: string, items: seq<Json>, p: Q.Pair)
    requires p in Q.ScalarPairs(key, items)
    ensures p.key == key
  {
    if p !in Q.ScalarPair(key, items[|items| - 1]) {
      PairsKeepKey(key, items[..|items| - 1], p);
    }
  }
}
