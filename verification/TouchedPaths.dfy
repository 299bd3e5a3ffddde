/** Touched-path collection of the kleos hook: a bounded recursive walk over arbitrary tool input. */
module TouchedPaths {
  import opened Wrappers
  import opened Text
  import opened Json

  const MAX_DEPTH: nat := 8
  const MAX_PATHS: nat := 64

  const PATH_KEYS: set<string> := {"file_path", "filePath", "path", "notebook_path"}

  predicate IsPathKey(key: string) {
    key in PATH_KEYS
  }

  function Slashes(s: string): (r: string)
    ensures |r| == |s| && forall i :: 0 <= i < |s| ==> r[i] == if s[i] == '\\' then '/' else s[i]
  {
    seq(|s|, i requires 0 <= i < |s| => if s[i] == '\\' then '/' else s[i])
  }

  function Push(paths: seq<string>, path: string): seq<string> {
    if path in paths then paths else paths + [path]
  }

  /** A path-shaped field adds its normalized value, unless blank or already there. */
  function Note(f: Field, paths: seq<string>): seq<string> {
    if IsPathKey(f.key) && f.value.Str? && Trim(f.value.s) != "" then Push(paths, Slashes(f.value.s)) else paths
  }

  function Room(depth: nat): nat {
    if depth > MAX_DEPTH then 0 else MAX_DEPTH + 1 - depth
  }

  /** `collect_touched_paths`; both limits are tested on entry only. */
  function Collect(value: Json, depth: nat, paths: seq<string>): (r: seq<string>)
    decreases Room(depth), 1, 0
  {
    if depth > MAX_DEPTH || |paths| >= MAX_PATHS then paths
    else match value
      case Object(fields) => CollectFields(fields, depth, paths)
      case Array(items) => CollectItems(items, depth, paths)
      case _ => paths
  }

  function CollectFields(fields: seq<Field>, depth: nat, paths: seq<string>): (r: seq<string>)
    requires depth <= MAX_DEPTH
    decreases Room(depth), 0, |fields|
  {
    if fields == [] then paths
    else CollectFields(fields[1..], depth, Collect(fields[0].value, depth + 1, Note(fields[0], paths)))
  }

  function CollectItems(items: seq<Json>, depth: nat, paths: seq<string>): (r: seq<string>)
    requires depth <= MAX_DEPTH
    decreases Room(depth), 0, |items|
  {
    if items == [] then paths else CollectItems(items[1..], depth, Collect(items[0], depth + 1, paths))
  }

  /** The shared list the recursion pushes onto. */
  class Collector {
    var paths: seq<string>

    constructor ()
      ensures paths == []
    {
      paths := [];
    }

    method CollectTouchedPaths(value: Json, depth: nat)
      modifies this
      ensures paths == Collect(value, depth, old(paths))
      decreases Room(depth)
    {
      hide Note, Trim;
      if depth > MAX_DEPTH || |paths| >= MAX_PATHS {
        return;
      }
      match value {
        case Object(fields) =>
          var i := 0;
          assert fields[0..] == fields;
          while i < |fields|
            invariant i <= |fields|
            invariant CollectFields(fields, depth, old(paths)) == CollectFields(fields[i..], depth, paths)
          {
            assert fields[i..][1..] == fields[i + 1..];
            paths := Note(fields[i], paths);
            CollectTouchedPaths(fields[i].value, depth + 1);
            i := i + 1;
          }
        case Array(items) =>
          var i := 0;
          assert items[0..] == items;
          while i < |items|
            invariant i <= |items| && CollectItems(items, depth, old(paths)) == CollectItems(items[i..], depth, paths)
          {
            assert items[i..][1..] == items[i + 1..];
            CollectTouchedPaths(items[i], depth + 1);
            i := i + 1;
          }
        case _ =>
      }
    }
  }

  // ----- the bound

  /** Object keys are distinct at every level, as a map guarantees. */
  predicate UniqueKeys(v: Json) {
    match v
    case Object(fields) =>
      && (forall i, j :: 0 <= i < j < |fields| ==> fields[i].key != fields[j].key)
      && (forall i :: 0 <= i < |fields| ==> UniqueKeys(fields[i].value))
    case Array(items) => forall i :: 0 <= i < |items| ==> UniqueKeys(items[i])
    case _ => true
  }

  /** How long the list can be after a call at this depth that found room. */
  function Bound(depth: nat): nat
    requires depth <= MAX_DEPTH + 1
  {
    63 + 4 * (MAX_DEPTH + 1 - depth)
  }

  function Max(a: nat, b: nat): nat {
    if a < b then b else a
  }

  lemma {:induction false} CollectBound(value: Json, depth: nat, paths: seq<string>)
    requires UniqueKeys(value) && depth <= MAX_DEPTH + 1
    ensures |Collect(value, depth, paths)| <= Max(|paths|, Bound(depth))
    decreases Room(depth), 1, 0
  {
    hide CollectFields, CollectItems;
    if depth <= MAX_DEPTH && |paths| < MAX_PATHS {
      if value.Object? { FieldsBound(value.fields, depth, paths, {}); }
      if value.Array? { ItemsBound(value.items, depth, paths); }
    }
  }

  /** `used` are the path keys of the object already passed; at most four in all. */
  lemma {:induction false} FieldsBound(fields: seq<Field>, depth: nat, paths: seq<string>, used: set<string>)
    requires depth <= MAX_DEPTH && |paths| <= Bound(depth + 1) + |used| && used <= PATH_KEYS
    requires forall i, j :: 0 <= i < j < |fields| ==> fields[i].key != fields[j].key
    requires forall i :: 0 <= i < |fields| ==> UniqueKeys(fields[i].value) && fields[i].key !in used
    ensures |CollectFields(fields, depth, paths)| <= Bound(depth)
    decreases Room(depth), 0, |fields|
  {
    hide Collect, Trim, UniqueKeys, PATH_KEYS;
    if fields == [] {
      PathKeyCount(used);
    } else {
      var f := fields[0];
      var noted := Note(f, paths);
      var used' := if IsPathKey(f.key) then used + {f.key} else used;
      CollectBound(f.value, depth + 1, noted);
      FieldsBound(fields[1..], depth, Collect(f.value, depth + 1, noted), used');
    }
  }

  lemma {:induction false} ItemsBound(items: seq<Json>, depth: nat, paths: seq<string>)
    requires depth <= MAX_DEPTH && |paths| <= Bound(depth)
    requires forall i :: 0 <= i < |items| ==> UniqueKeys(items[i])
    ensures |CollectItems(items, depth, paths)| <= Bound(depth)
    decreases Room(depth), 0, |items|
  {
    hide Collect, UniqueKeys;
    if items != [] {
      CollectBound(items[0], depth + 1, paths);
      ItemsBound(items[1..], depth, Collect(items[0], depth + 1, paths));
    }
  }

  lemma PathKeyCount(used: set<string>)
    requires used <= PATH_KEYS
    ensures |used| <= 4
  {
    var rest := used - {"file_path"} - {"filePath"} - {"path"} - {"notebook_path"};
    assert rest == {};
    assert |used| <= |used - {"file_path"}| + 1;
    assert |used - {"file_path"}| <= |used - {"file_path"} - {"filePath"}| + 1;
    assert |used - {"file_path"} - {"filePath"}| <= |used - {"file_path"} - {"filePath"} - {"path"}| + 1;
    assert |used - {"file_path"} - {"filePath"} - {"path"}| <= |rest| + 1;
  }

  /** The collected list never exceeds 99 entries, whatever the input. */
  lemma AtMost99(value: Json)
    requires UniqueKeys(value)
    ensures |Collect(value, 0, [])| <= 99
  {
    hide Collect;
    CollectBound(value, 0, []);
  }

  // ----- the bound is reached

  function Name(i: nat): string {
    seq(i + 1, _ => 'x')
  }

  function Names(n: nat): seq<string> {
    seq(n, i requires 0 <= i < n => Name(i))
  }

  /** A field with the next name appends it. */
  lemma NextName(key: string, n: nat)
    requires IsPathKey(key)
    ensures Note(Field(key, Str(Name(n))), Names(n)) == Names(n + 1)
  {
    hide Trim, PATH_KEYS;
    var name := Name(n);
    TrimIdempotent(name);
    assert Slashes(name) == name;
    forall i | 0 <= i < n ensures Names(n)[i] != name {
      assert |Name(i)| == i + 1;
    }
  }

  /** Four path fields with the next names. */
  function PathFields(n: nat): seq<Field> {
    [Field("filePath", Str(Name(n))), Field("file_path", Str(Name(n + 1))),
     Field("notebook_path", Str(Name(n + 2))), Field("path", Str(Name(n + 3)))]
  }

  lemma OneField(key: string, rest: seq<Field>, depth: nat, n: nat)
    requires depth <= MAX_DEPTH && IsPathKey(key)
    ensures CollectFields([Field(key, Str(Name(n)))] + rest, depth, Names(n)) ==
      CollectFields(rest, depth, Names(n + 1))
  {
    hide Note, Name, Names, PATH_KEYS;
    var fields := [Field(key, Str(Name(n)))] + rest;
    assert fields[1..] == rest;
    NextName(key, n);
  }

  lemma FourFields(depth: nat, n: nat)
    requires depth <= MAX_DEPTH
    ensures CollectFields(PathFields(n), depth, Names(n)) == Names(n + 4)
  {
    hide Note, Name, Names, CollectFields;
    var a, b, c, d := Field("filePath", Str(Name(n))), Field("file_path", Str(Name(n + 1))),
                      Field("notebook_path", Str(Name(n + 2))), Field("path", Str(Name(n + 3)));
    assert PathFields(n) == [a] + ([b] + ([c] + ([d] + [])));
    OneField("filePath", [b] + ([c] + ([d] + [])), depth, n);
    OneField("file_path", [c] + ([d] + []), depth, n + 1);
    OneField("notebook_path", [d] + [], depth, n + 2);
    OneField("path", [], depth, n + 3);
    NoFields(depth, Names(n + 4));
  }

  lemma NoFields(depth: nat, paths: seq<string>)
    requires depth <= MAX_DEPTH
    ensures CollectFields([], depth, paths) == paths && CollectItems([], depth, paths) == paths
  {
  }

  /** Nested objects, each with its deeper neighbour before its own four paths. */
  function Chain(depth: nat, n: nat): (r: Json)
    requires depth <= MAX_DEPTH
    decreases MAX_DEPTH - depth
  {
    if depth == MAX_DEPTH then Object(PathFields(n))
    else Object([Field("a", Chain(depth + 1, n))] + PathFields(n + 4 * (MAX_DEPTH - depth)))
  }

  lemma {:induction false} ChainCollects(depth: nat, n: nat)
    requires depth <= MAX_DEPTH && n < MAX_PATHS
    ensures Collect(Chain(depth, n), depth, Names(n)) == Names(n + 4 * (MAX_DEPTH + 1 - depth))
    decreases MAX_DEPTH - depth
  {
    hide PathFields, CollectFields, Name;
    if depth == MAX_DEPTH {
      FourFields(depth, n);
    } else {
      ChainCollects(depth + 1, n);
      var m := n + 4 * (MAX_DEPTH - depth);
      DeeperFirst(Chain(depth + 1, n), PathFields(m), depth, Names(n));
      FourFields(depth, m);
    }
  }

  lemma DeeperFirst(inner: Json, rest: seq<Field>, depth: nat, paths: seq<string>)
    requires depth <= MAX_DEPTH
    ensures CollectFields([Field("a", inner)] + rest, depth, paths) ==
      CollectFields(rest, depth, Collect(inner, depth + 1, paths))
  {
    hide Collect;
    var fields := [Field("a", inner)] + rest;
    assert fields[1..] == rest;
    assert !IsPathKey("a") by { assert forall k :: k in PATH_KEYS ==> 4 <= |k|; }
  }

  /** Objects with one path each, from name `k` on. */
  function Flat(k: nat, n: nat): (r: seq<Json>)
    requires k <= n
    ensures |r| == n - k
    decreases n - k
  {
    if k == n then [] else [Object([Field("path", Str(Name(k)))])] + Flat(k + 1, n)
  }

  lemma {:induction false} FlatCollects(k: nat, n: nat, depth: nat)
    requires k <= n <= MAX_PATHS && depth < MAX_DEPTH
    ensures CollectItems(Flat(k, n), depth, Names(k)) == Names(n)
    decreases n - k
  {
    hide CollectFields, Name;
    if k < n {
      var one := Object([Field("path", Str(Name(k)))]);
      assert [Field("path", Str(Name(k)))] == [Field("path", Str(Name(k)))] + [];
      OneField("path", [], depth + 1, k);
      NoFields(depth + 1, Names(k + 1));
      assert Collect(one, depth + 1, Names(k)) == Names(k + 1);
      assert Flat(k, n)[1..] == Flat(k + 1, n);
      FlatCollects(k + 1, n, depth);
    }
  }

  /** 63 flat paths first, then the chain, then four more: the input on which the walk collects the most. */
  function Worst(): Json {
    Object([Field("A", Array(Flat(0, 63))), Field("a", Chain(1, 63))] + PathFields(95))
  }

  /** A value the walk can meet, from which it collects 99. */
  lemma WorstReaches99()
    ensures UniqueKeys(Worst()) && |Collect(Worst(), 0, [])| == 99
  {
    WorstIsUnique();
    hide CollectFields, CollectItems, PathFields, Chain, Flat, Name;
    var rest := [Field("a", Chain(1, 63))] + PathFields(95);
    var fields := [Field("A", Array(Flat(0, 63)))] + rest;
    assert Worst() == Object(fields);
    assert Names(0) == [];
    FlatFirst(rest);
    FlatCollects(0, 63, 1);
    RestReaches99();
  }

  lemma RestReaches99()
    ensures CollectFields([Field("a", Chain(1, 63))] + PathFields(95), 0, Names(63)) == Names(99)
  {
    hide CollectFields, PathFields, Chain, Name, Names, Collect;
    DeeperFirst(Chain(1, 63), PathFields(95), 0, Names(63));
    ChainCollects(1, 63);
    FourFields(0, 95);
  }

  lemma FlatFirst(rest: seq<Field>)
    ensures CollectFields([Field("A", Array(Flat(0, 63)))] + rest, 0, []) ==
      CollectFields(rest, 0, CollectItems(Flat(0, 63), 1, []))
  {
    hide CollectItems, Flat;
    var fields := [Field("A", Array(Flat(0, 63)))] + rest;
    assert fields[1..] == rest;
    assert Note(fields[0], []) == [];
  }

  lemma WorstIsUnique()
    ensures UniqueKeys(Worst())
  {
    hide Name, PATH_KEYS;
    FlatUnique(0, 63);
    ChainUnique(1, 63);
    FieldsUnique(Array(Flat(0, 63)), Chain(1, 63), 95);
  }

  lemma FieldsUnique(value: Json, inner: Json, n: nat)
    requires UniqueKeys(value) && UniqueKeys(inner)
    ensures UniqueKeys(Object([Field("A", value), Field("a", inner)] + PathFields(n)))
    ensures UniqueKeys(Object([Field("a", inner)] + PathFields(n)))
    ensures UniqueKeys(Object(PathFields(n)))
  {
    hide Name;
    var fields := [Field("A", value), Field("a", inner)] + PathFields(n);
    assert |fields[2].key| == 8 && |fields[3].key| == 9 && |fields[4].key| == 13 && |fields[5].key| == 4;
    assert fields[0].key[0] == 'A' && fields[1].key[0] == 'a' && |fields[0].key| == |fields[1].key| == 1;
    assert forall i :: 0 <= i < 4 ==> UniqueKeys(PathFields(n)[i].value);
  }

  lemma {:induction false} ChainUnique(depth: nat, n: nat)
    requires depth <= MAX_DEPTH
    ensures UniqueKeys(Chain(depth, n))
    decreases MAX_DEPTH - depth
  {
    hide PathFields, UniqueKeys;
    if depth == MAX_DEPTH {
      NullUnique();
      FieldsUnique(Null, Null, n);
    } else {
      ChainUnique(depth + 1, n);
      FieldsUnique(Chain(depth + 1, n), Chain(depth + 1, n), n + 4 * (MAX_DEPTH - depth));
    }
  }

  lemma NullUnique()
    ensures UniqueKeys(Null)
  {
  }

  lemma {:induction false} FlatUnique(k: nat, n: nat)
    requires k <= n
    ensures forall i :: 0 <= i < n - k ==> UniqueKeys(Flat(k, n)[i])
    decreases n - k
  {
    hide Name;
    if k < n {
      FlatUnique(k + 1, n);
    }
  }

  // ----- what is collected

  predicate Mentions(f: Field, path: string) {
    IsPathKey(f.key) && f.value.Str? && Trim(f.value.s) != "" && Slashes(f.value.s) == path
  }

  /** The path is the normalized value of a path-shaped field no deeper than the walk goes. */
  predicate Within(value: Json, depth: nat, path: string)
    decreases Room(depth), 1, 0
  {
    depth <= MAX_DEPTH &&
    match value
    case Object(fields) => WithinFields(fields, depth, path)
    case Array(items) => WithinItems(items, depth, path)
    case _ => false
  }

  predicate WithinFields(fields: seq<Field>, depth: nat, path: string)
    requires depth <= MAX_DEPTH
    decreases Room(depth), 0, |fields|
  {
    fields != []
    && (|| Mentions(fields[0], path) || Within(fields[0].value, depth + 1, path)
        || WithinFields(fields[1..], depth, path))
  }

  predicate WithinItems(items: seq<Json>, depth: nat, path: string)
    requires depth <= MAX_DEPTH
    decreases Room(depth), 0, |items|
  {
    items != [] && (Within(items[0], depth + 1, path) || WithinItems(items[1..], depth, path))
  }

  /** A call adds only paths the value holds, and all of them when the list stays short of the cap. */
  lemma {:induction false} CollectIsExact(value: Json, depth: nat, paths: seq<string>, path: string)
    ensures var r := Collect(value, depth, paths);
      && |paths| <= |r|
      && (path in paths ==> path in r)
      && (path in r ==> path in paths || Within(value, depth, path))
      && (|r| < MAX_PATHS && Within(value, depth, path) ==> path in r)
    decreases Room(depth), 1, 0
  {
    hide CollectFields, CollectItems, WithinFields, WithinItems;
    if depth <= MAX_DEPTH && |paths| < MAX_PATHS {
      if value.Object? { FieldsAreExact(value.fields, depth, paths, path); }
      if value.Array? { ItemsAreExact(value.items, depth, paths, path); }
    }
  }

  lemma {:induction false} FieldsAreExact(fields: seq<Field>, depth: nat, paths: seq<string>, path: string)
    requires depth <= MAX_DEPTH
    ensures var r := CollectFields(fields, depth, paths);
      && |paths| <= |r|
      && (path in paths ==> path in r)
      && (path in r ==> path in paths || WithinFields(fields, depth, path))
      && (|r| < MAX_PATHS && WithinFields(fields, depth, path) ==> path in r)
    decreases Room(depth), 0, |fields|
  {
    hide Collect, Within, Trim, IsPathKey, Slashes;
    if fields != [] {
      var noted := Note(fields[0], paths);
      CollectIsExact(fields[0].value, depth + 1, noted, path);
      FieldsAreExact(fields[1..], depth, Collect(fields[0].value, depth + 1, noted), path);
    }
  }

  lemma {:induction false} ItemsAreExact(items: seq<Json>, depth: nat, paths: seq<string>, path: string)
    requires depth <= MAX_DEPTH
    ensures var r := CollectItems(items, depth, paths);
      && |paths| <= |r|
      && (path in paths ==> path in r)
      && (path in r ==> path in paths || WithinItems(items, depth, path))
      && (|r| < MAX_PATHS && WithinItems(items, depth, path) ==> path in r)
    decreases Room(depth), 0, |items|
  {
    hide Collect, Within;
    if items != [] {
      CollectIsExact(items[0], depth + 1, paths, path);
      ItemsAreExact(items[1..], depth, Collect(items[0], depth + 1, paths), path);
    }
  }

  // ----- no duplicates, sorted

  predicate Distinct(paths: seq<string>) {
    forall i, j :: 0 <= i < j < |paths| ==> paths[i] != paths[j]
  }

  lemma {:induction false} CollectDistinct(value: Json, depth: nat, paths: seq<string>)
    requires Distinct(paths)
    ensures Distinct(Collect(value, depth, paths))
    decreases Room(depth), 1, 0
  {
    hide CollectFields, CollectItems;
    if depth <= MAX_DEPTH && |paths| < MAX_PATHS {
      if value.Object? { FieldsDistinct(value.fields, depth, paths); }
      if value.Array? { ItemsDistinct(value.items, depth, paths); }
    }
  }

  lemma {:induction false} FieldsDistinct(fields: seq<Field>, depth: nat, paths: seq<string>)
    requires depth <= MAX_DEPTH && Distinct(paths)
    ensures Distinct(CollectFields(fields, depth, paths))
    decreases Room(depth), 0, |fields|
  {
    hide Collect, Trim, IsPathKey, Slashes;
    if fields != [] {
      var noted := Note(fields[0], paths);
      CollectDistinct(fields[0].value, depth + 1, noted);
      FieldsDistinct(fields[1..], depth, Collect(fields[0].value, depth + 1, noted));
    }
  }

  lemma {:induction false} ItemsDistinct(items: seq<Json>, depth: nat, paths: seq<string>)
    requires depth <= MAX_DEPTH && Distinct(paths)
    ensures Distinct(CollectItems(items, depth, paths))
    decreases Room(depth), 0, |items|
  {
    hide Collect;
    if items != [] {
      CollectDistinct(items[0], depth + 1, paths);
      ItemsDistinct(items[1..], depth, Collect(items[0], depth + 1, paths));
    }
  }

  /** The order of `Vec<String>::sort`. */
  predicate Below(a: string, b: string)
    decreases |a|
  {
    b != "" && (a == "" || a[0] < b[0] || (a[0] == b[0] && Below(a[1..], b[1..])))
  }

  lemma {:induction false} BelowTotal(a: string, b: string)
    ensures a == b || Below(a, b) || Below(b, a)
    ensures !(Below(a, b) && Below(b, a)) && !Below(a, a)
    decreases |a|
  {
    if a != "" {
      BelowTotal(a[1..], a[1..]);
      if b != "" && a[0] == b[0] {
        BelowTotal(a[1..], b[1..]);
        assert a == [a[0]] + a[1..] && b == [b[0]] + b[1..];
      }
    }
  }

  lemma {:induction false} BelowTransitive(a: string, b: string, c: string)
    requires Below(a, b) && Below(b, c)
    ensures Below(a, c)
    decreases |a|
  {
    if a != "" && a[0] == b[0] == c[0] {
      BelowTransitive(a[1..], b[1..], c[1..]);
    }
  }

  predicate StrictlySorted(paths: seq<string>) {
    forall i, j :: 0 <= i < j < |paths| ==> Below(paths[i], paths[j])
  }

  /** Put a new string where it belongs in a sorted list. */
  function Insert(paths: seq<string>, s: string): (r: seq<string>)
    ensures multiset(r) == multiset(paths) + multiset{s}
  {
    if paths == [] || Below(s, paths[0]) then
      assert multiset([s] + paths) == multiset{s} + multiset(paths);
      [s] + paths
    else
      var r := Insert(paths[1..], s);
      assert paths == [paths[0]] + paths[1..];
      [paths[0]] + r
  }

  function Sorted(paths: seq<string>): (r: seq<string>)
    ensures multiset(r) == multiset(paths)
  {
    if paths == [] then []
    else
      assert paths == paths[..|paths| - 1] + [paths[|paths| - 1]];
      Insert(Sorted(paths[..|paths| - 1]), paths[|paths| - 1])
  }

  lemma {:induction false} InsertSorts(paths: seq<string>, s: string)
    requires StrictlySorted(paths) && s !in paths
    ensures StrictlySorted(Insert(paths, s))
  {
    if paths != [] {
      if Below(s, paths[0]) {
        forall i | 0 <= i < |paths| ensures Below(s, paths[i]) {
          if 0 < i { BelowTransitive(s, paths[0], paths[i]); }
        }
      } else {
        BelowTotal(s, paths[0]);
        InsertSorts(paths[1..], s);
        var r := Insert(paths[1..], s);
        forall x | x in r ensures Below(paths[0], x) {
          assert x in multiset(r);
          assert x in paths[1..] || x == s;
        }
      }
    }
  }

  lemma {:induction false} SortedIsStrict(paths: seq<string>)
    requires Distinct(paths)
    ensures StrictlySorted(Sorted(paths))
  {
    hide Below;
    if paths != [] {
      var front, s := paths[..|paths| - 1], paths[|paths| - 1];
      SortedIsStrict(front);
      assert s !in front;
      assert s !in multiset(Sorted(front));
      InsertSorts(Sorted(front), s);
    }
  }

  /** `extract_touched_paths`: at most 99 paths, each once, strictly sorted, and exactly those the walk collected. */
  method ExtractTouchedPaths(input: Json) returns (r: seq<string>)
    requires UniqueKeys(input)
    ensures |r| <= 99 && StrictlySorted(r)
    ensures var tool := Get(input, "tool_input");
      multiset(r) == multiset(if tool.Some? then Collect(tool.value, 0, []) else [])
  {
    hide Collect, Sorted, Below, Find;
    var collector := new Collector();
    var tool := Get(input, "tool_input");
    if tool.Some? {
      GetIsUnique(input, "tool_input");
      collector.CollectTouchedPaths(tool.value, 0);
      AtMost99(tool.value);
      CollectDistinct(tool.value, 0, []);
    }
    SortedIsStrict(collector.paths);
    r := Sorted(collector.paths);
    assert |multiset(r)| == |multiset(collector.paths)|;
  }

  lemma GetIsUnique(j: Json, key: string)
    requires UniqueKeys(j) && Get(j, key).Some?
    ensures UniqueKeys(Get(j, key).value)
  {
    FindIn(j.fields, key);
  }

  lemma {:induction false} FindIn(fields: seq<Field>, key: string)
    requires Find(fields, key).Some?
    ensures exists i :: 0 <= i < |fields| && fields[i].value == Find(fields, key).value
  {
    if fields[0].key != key {
      FindIn(fields[1..], key);
      var i :| 0 <= i < |fields[1..]| && fields[1..][i].value == Find(fields, key).value;
      assert fields[i + 1] == fields[1..][i];
    }
  }
}
