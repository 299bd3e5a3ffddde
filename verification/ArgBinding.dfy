/**
 Argument binding of `forge exec`: command-line flags are parsed against a schema and turned into a request body. The
 schema is a hash map, so its iteration order is a parameter, and it is proved when the answer depends on it.
 */
module ArgBinding {
  import opened Wrappers
  import opened Text
  import opened Json

  datatype ParamSpec = ParamSpec(
    paramType: string, required: bool, default: Option<Json>, allowed: Option<seq<string>>, cliName: Option<string>)

  type Schema = map<string, ParamSpec>

  type Params = map<string, string>

  /** An order in which the map's keys can be visited. */
  ghost predicate Enumerates(order: seq<string>, schema: Schema) {
    (forall k :: k in order <==> k in schema) && forall i, j :: 0 <= i < j < |order| ==> order[i] != order[j]
  }

  datatype ArgError = NotAFlag(arg: string) | UnknownParam(key: string) | ValueExpected(key: string)
                    | InvalidParam(name: string) | MissingParam(name: string)

  datatype Result<+T> = Ok(value: T) | Err(error: ArgError)

  // ----- parsing

  function DropDashes(s: string): (r: string)
  {
    if s != "" && s[0] == '-' then DropDashes(s[1..]) else s
  }

  /** The parameter a flag stands for: the first whose alias it is, else the one of that name. */
  function Resolve(key: string, schema: Schema, order: seq<string>): (r: string)
  {
    if order == [] then key
    else if order[0] in schema && schema[order[0]].cliName == Some(key) then order[0]
    else Resolve(key, schema, order[1..])
  }

  predicate IsSwitch(spec: ParamSpec) {
    spec.paramType == "boolean"
  }

  /** What the flags from here on add to what was parsed before. */
  function Parse(args: seq<string>, schema: Schema, order: seq<string>, result: Params): (r: Result<Params>)
    decreases |args|
  {
    if args == [] then Ok(result)
    else if !StartsWith(args[0], "--") then Err(NotAFlag(args[0]))
    else
      var key := DropDashes(args[0]);
      var name := Resolve(key, schema, order);
      if name !in schema then Err(UnknownParam(key))
      else if IsSwitch(schema[name]) then Parse(args[1..], schema, order, result[name := "true"])
      else if |args| == 1 then Err(ValueExpected(key))
      else Parse(args[2..], schema, order, result[name := args[1]])
  }

  method ParseArgs(args: seq<string>, schema: Schema, order: seq<string>) returns (r: Result<Params>)
    ensures r == Parse(args, schema, order, map[])
  {
    hide DropDashes, Resolve, IsSwitch, StartsWith;
    var result: Params := map[];
    var i := 0;
    assert args[0..] == args;
    while i < |args|
      invariant i <= |args| && Parse(args, schema, order, map[]) == Parse(args[i..], schema, order, result)
    {
      var arg := args[i];
      ghost var rest := args[i..];
      assert rest[1..] == args[i + 1..];
      i := i + 1;
      if !StartsWith(arg, "--") {
        return Err(NotAFlag(arg));
      }
      var key := DropDashes(arg);
      var name := Resolve(key, schema, order);
      if name !in schema {
        return Err(UnknownParam(key));
      }
      if IsSwitch(schema[name]) {
        result := result[name := "true"];
      } else {
        if i == |args| {
          return Err(ValueExpected(key));
        }
        assert rest[2..] == args[i + 1..];
        result := result[name := args[i]];
        i := i + 1;
      }
    }
    return Ok(result);
  }

  // ----- printing

  /** The flag the help text shows for a parameter. */
  function Flag(name: string, spec: ParamSpec): string {
    match spec.cliName case None => name case Some(alias) => alias
  }

  /** The key a parameter's flag comes to once its dashes are gone. */
  function KeyOf(name: string, schema: Schema): string
    requires name in schema
  {
    DropDashes(Flag(name, schema[name]))
  }

  /**
   Every flag, its leading dashes dropped, is the name or the alias of its parameter, and no other parameter's alias.
   */
  ghost predicate ClearFlags(schema: Schema) {
    forall name :: name in schema ==>
      && (KeyOf(name, schema) == name || schema[name].cliName == Some(KeyOf(name, schema)))
      && forall other :: other in schema && schema[other].cliName == Some(KeyOf(name, schema)) ==> other == name
  }

  /** Parameters of the schema; a switch can only say true. */
  predicate Printable(schema: Schema, params: Params) {
    forall name :: name in params ==> name in schema && (IsSwitch(schema[name]) ==> params[name] == "true")
  }

  function PrintOne(name: string, schema: Schema, params: Params): seq<string>
    requires name in schema && name in params
  {
    ["--" + Flag(name, schema[name])] + if IsSwitch(schema[name]) then [] else [params[name]]
  }

  function Print(names: seq<string>, schema: Schema, params: Params): (r: seq<string>)
    requires forall i :: 0 <= i < |names| ==> names[i] in schema && names[i] in params
  {
    if names == [] then [] else PrintOne(names[0], schema, params) + Print(names[1..], schema, params)
  }

  lemma DropTwoDashes(flag: string)
    ensures StartsWith("--" + flag, "--") && DropDashes("--" + flag) == DropDashes(flag)
  {
    assert ("--" + flag)[1..] == "-" + flag && ("-" + flag)[1..] == flag;
    assert ("--" + flag)[..2] == "--";
  }

  /** A key resolves to a parameter of which it is the alias, and to itself when there is none. */
  lemma {:induction false} Resolved(key: string, schema: Schema, order: seq<string>)
    requires forall k :: k in order ==> k in schema
    ensures var name := Resolve(key, schema, order);
      || (name in order && schema[name].cliName == Some(key))
      || (name == key && forall k :: k in order ==> schema[k].cliName != Some(key))
  {
    if order != [] {
      assert order[0] in schema;
      Resolved(key, schema, order[1..]);
    }
  }

  lemma ParseOne(name: string, more: seq<string>, schema: Schema, order: seq<string>, params: Params, before: Params)
    requires Enumerates(order, schema) && ClearFlags(schema) && Printable(schema, params)
    requires name in schema && name in params
    ensures Parse(PrintOne(name, schema, params) + more, schema, order, before)
         == Parse(more, schema, order, before[name := params[name]])
  {
    hide Resolve, DropDashes, StartsWith, IsSwitch;
    var args := PrintOne(name, schema, params) + more;
    DropTwoDashes(Flag(name, schema[name]));
    Resolved(KeyOf(name, schema), schema, order);
    if IsSwitch(schema[name]) {
      assert args[1..] == more;
    } else {
      assert args[2..] == more && args[1] == params[name];
    }
  }

  function Pick(names: seq<string>, params: Params): Params {
    map n | n in names && n in params :: params[n]
  }

  lemma PickCons(names: seq<string>, params: Params, before: Params)
    ensures names == [] ==> before + Pick(names, params) == before
    ensures names != [] && names[0] in params ==>
      before[names[0] := params[names[0]]] + Pick(names[1..], params) == before + Pick(names, params)
  {
    if names != [] {
      assert forall n :: n in names <==> n == names[0] || n in names[1..];
    }
  }

  lemma {:induction false} ParsePrinted(names: seq<string>, schema: Schema, order: seq<string>, params: Params,
                                        before: Params)
    requires Enumerates(order, schema) && ClearFlags(schema) && Printable(schema, params)
    requires forall i :: 0 <= i < |names| ==> names[i] in schema && names[i] in params
    ensures Parse(Print(names, schema, params), schema, order, before) == Ok(before + Pick(names, params))
    decreases |names|
  {
    hide Parse, PrintOne, ClearFlags, Printable, Enumerates, Pick;
    PickCons(names, params, before);
    if names == [] {
      ParseNothing(schema, order, before);
    } else {
      var name, rest := names[0], names[1..];
      ParseOne(name, Print(rest, schema, params), schema, order, params, before);
      ParsePrinted(rest, schema, order, params, before[name := params[name]]);
    }
  }

  lemma ParseNothing(schema: Schema, order: seq<string>, before: Params)
    ensures Parse([], schema, order, before) == Ok(before)
  {
  }

  /** The parameters parsed from some printed form of themselves, under some order of the schema. */
  function Reparsed(names: seq<string>, schema: Schema, order: seq<string>, params: Params): Result<Params>
    requires forall i :: 0 <= i < |names| ==> names[i] in schema && names[i] in params
  {
    Parse(Print(names, schema, params), schema, order, map[])
  }

  /** Clear flags are enough, whatever the order of the flags and of the schema. */
  lemma ClearFlagsSuffice(names: seq<string>, schema: Schema, order: seq<string>, params: Params)
    requires Enumerates(order, schema) && ClearFlags(schema) && Printable(schema, params)
    requires forall n :: n in names <==> n in params
    ensures Reparsed(names, schema, order, params) == Ok(params)
  {
    hide Parse, Print;
    ParsePrinted(names, schema, order, params, map[]);
    assert map[] + Pick(names, params) == params;
  }

  lemma {:induction false} ListKeys(keys: set<string>) returns (order: seq<string>)
    ensures (forall k :: k in order <==> k in keys) && forall i, j :: 0 <= i < j < |order| ==> order[i] != order[j]
    decreases |keys|
  {
    if keys == {} {
      order := [];
    } else {
      var k :| k in keys;
      var rest := ListKeys(keys - {k});
      order := [k] + rest;
    }
  }

  /** Any parameter of a schema can be the first to be visited. */
  lemma FirstIs(schema: Schema, first: string) returns (order: seq<string>)
    requires first in schema
    ensures Enumerates(order, schema) && order != [] && order[0] == first
  {
    var rest := ListKeys(schema.Keys - {first});
    order := [first] + rest;
  }

  /** A flag that is not clear is, under some order, taken for another parameter or for none. */
  lemma UnclearFlag(schema: Schema, name: string) returns (order: seq<string>)
    requires name in schema
    requires (KeyOf(name, schema) != name && schema[name].cliName != Some(KeyOf(name, schema)))
          || exists other :: other in schema && schema[other].cliName == Some(KeyOf(name, schema)) && other != name
    ensures Enumerates(order, schema) && Resolve(KeyOf(name, schema), schema, order) != name
  {
    hide Flag, DropDashes;
    var key := KeyOf(name, schema);
    if other :| other in schema && schema[other].cliName == Some(key) && other != name {
      order := FirstIs(schema, other);
    } else {
      order := FirstIs(schema, name);
      Resolved(key, schema, order);
    }
  }

  /** What one flag and at most one word behind it come to. */
  lemma ParseFlag(schema: Schema, order: seq<string>, flag: string, more: seq<string>)
    requires |more| <= 1
    ensures var key := DropDashes(flag);
      var name := Resolve(key, schema, order);
      Parse(["--" + flag] + more, schema, order, map[]) ==
        if name !in schema then Err(UnknownParam(key))
        else if IsSwitch(schema[name]) then Parse(more, schema, order, map[name := "true"])
        else if more == [] then Err(ValueExpected(key)) else Ok(map[name := more[0]])
  {
    hide DropDashes, StartsWith, IsSwitch, Resolve;
    var args := ["--" + flag] + more;
    DropTwoDashes(flag);
    assert args[1..] == more;
    var none: Params := map[];
    if more != [] {
      assert args[2..] == [];
      ParseNothing(schema, order, none[Resolve(DropDashes(flag), schema, order) := more[0]]);
    }
  }

  /** A word without dashes is no flag. */
  lemma NoFlag(schema: Schema, order: seq<string>, word: string, result: Params)
    requires word != "" && word[0] != '-'
    ensures Parse([word], schema, order, result) == Err(NotAFlag(word))
  {
    if |word| >= 2 { assert word[..2][0] == word[0]; }
  }

  /** Then the parameter alone does not come back. */
  lemma UnclearIsLost(schema: Schema, order: seq<string>, name: string)
    requires Enumerates(order, schema) && name in schema && Resolve(KeyOf(name, schema), schema, order) != name
    ensures Printable(schema, map[name := "true"])
    ensures Reparsed([name], schema, order, map[name := "true"]) != Ok(map[name := "true"])
  {
    hide Flag, DropDashes, Resolve, IsSwitch, Parse;
    var params: Params := map[name := "true"];
    var other := Resolve(KeyOf(name, schema), schema, order);
    var more := if IsSwitch(schema[name]) then [] else ["true"];
    assert [name][1..] == [] && Print([], schema, params) == [];
    assert Print([name], schema, params) == ["--" + Flag(name, schema[name])] + more;
    ParseFlag(schema, order, Flag(name, schema[name]), more);
    ParseNothing(schema, order, map[other := "true"]);
    NoFlag(schema, order, "true", map[other := "true"]);
    assert name !in map[other := "true"];
  }

  /**
   Printing any admissible parameter map as flags, in any order, and parsing gives the map back for every order in
   which the schema may be searched, if and only if the schema's flags are clear.
   */
  lemma FlagsRoundTrip(schema: Schema)
    ensures (forall names, order, params | Enumerates(order, schema) && Printable(schema, params)
                                           && (forall n :: n in names <==> n in params) ::
               Reparsed(names, schema, order, params) == Ok(params))
       <==> ClearFlags(schema)
  {
    hide Reparsed, Enumerates, KeyOf, Resolve;
    if ClearFlags(schema) {
      forall names, order, params | Enumerates(order, schema) && Printable(schema, params)
                                    && (forall n :: n in names <==> n in params)
        ensures Reparsed(names, schema, order, params) == Ok(params)
      {
        ClearFlagsSuffice(names, schema, order, params);
      }
    } else {
      var name :| name in schema
        && ((KeyOf(name, schema) != name && schema[name].cliName != Some(KeyOf(name, schema)))
            || exists other :: other in schema && schema[other].cliName == Some(KeyOf(name, schema)) && other != name);
      var order := UnclearFlag(schema, name);
      UnclearIsLost(schema, order, name);
      var params: Params := map[name := "true"];
      assert forall n :: n in [name] <==> n in params;
      assert Reparsed([name], schema, order, params) != Ok(params);
    }
  }

  // ----- one answer whatever the order

  /** No two parameters share an alias that a flag can reach: one that does not start with a dash. */
  ghost predicate SeparateAliases(schema: Schema) {
    forall a, b :: a in schema && b in schema && schema[a].cliName.Some? && schema[a].cliName == schema[b].cliName ==>
      a == b || StartsWith(schema[a].cliName.value, "-")
  }

  lemma {:induction false} NoLeadingDash(s: string)
    ensures !StartsWith(DropDashes(s), "-")
    ensures !StartsWith(s, "-") ==> DropDashes(s) == s
  {
    if s != "" && s[0] == '-' {
      NoLeadingDash(s[1..]);
      assert s[..1] == "-";
    }
  }

  lemma SameResolution(arg: string, schema: Schema, a: seq<string>, b: seq<string>)
    requires Enumerates(a, schema) && Enumerates(b, schema) && SeparateAliases(schema)
    ensures Resolve(DropDashes(arg), schema, a) == Resolve(DropDashes(arg), schema, b)
  {
    hide DropDashes, Resolve, StartsWith;
    NoLeadingDash(arg);
    Resolved(DropDashes(arg), schema, a);
    Resolved(DropDashes(arg), schema, b);
  }

  lemma {:induction false} SameParse(args: seq<string>, schema: Schema, a: seq<string>, b: seq<string>, result: Params)
    requires Enumerates(a, schema) && Enumerates(b, schema) && SeparateAliases(schema)
    ensures Parse(args, schema, a, result) == Parse(args, schema, b, result)
    decreases |args|
  {
    hide DropDashes, Resolve, StartsWith, IsSwitch, SeparateAliases, Enumerates;
    if args != [] {
      SameResolution(args[0], schema, a, b);
      var name := Resolve(DropDashes(args[0]), schema, a);
      if name in schema {
        SameParse(args[1..], schema, a, b, result[name := "true"]);
        if |args| > 1 { SameParse(args[2..], schema, a, b, result[name := args[1]]); }
      }
    }
  }

  lemma ParseShared(schema: Schema, order: seq<string>, alias: string, more: seq<string>)
    requires Enumerates(order, schema) && order != [] && schema[order[0]].cliName == Some(alias)
    requires !StartsWith(alias, "-") && |more| <= 1
    ensures Parse(["--" + alias] + more, schema, order, map[]) ==
      if IsSwitch(schema[order[0]]) then Parse(more, schema, order, map[order[0] := "true"])
      else if more == [] then Err(ValueExpected(alias)) else Ok(map[order[0] := more[0]])
  {
    hide DropDashes, StartsWith, IsSwitch, Parse;
    NoLeadingDash(alias);
    ParseFlag(schema, order, alias, more);
  }

  lemma SharedAliasMatters(schema: Schema, a: string, b: string)
    returns (args: seq<string>, x: seq<string>, y: seq<string>)
    requires a in schema && b in schema && a != b
    requires schema[a].cliName.Some? && schema[a].cliName == schema[b].cliName
    requires !StartsWith(schema[a].cliName.value, "-")
    ensures Enumerates(x, schema) && Enumerates(y, schema)
    ensures Parse(args, schema, x, map[]) != Parse(args, schema, y, map[])
  {
    hide StartsWith, IsSwitch, Parse, Resolve, Enumerates;
    x := FirstIs(schema, a);
    y := FirstIs(schema, b);
    var more := if IsSwitch(schema[a]) || IsSwitch(schema[b]) then [] else ["v"];
    args := ["--" + schema[a].cliName.value] + more;
    ParseShared(schema, x, schema[a].cliName.value, more);
    ParseShared(schema, y, schema[a].cliName.value, more);
    ParseNothing(schema, x, map[a := "true"]);
    ParseNothing(schema, y, map[b := "true"]);
    var p, q: Params := map[a := "true"], map[b := "true"];
    assert p != q by { assert a in p && a !in q; }
    var p', q': Params := map[a := "v"], map[b := "v"];
    assert p' != q' by { assert a in p' && a !in q'; }
  }

  /**
   The answer does not depend on the order in which the schema is searched, if and only if no two parameters share an
   alias that does not start with a dash.
   */
  lemma OrderIndependence(schema: Schema)
    ensures (forall args, a, b | Enumerates(a, schema) && Enumerates(b, schema) ::
               Parse(args, schema, a, map[]) == Parse(args, schema, b, map[]))
       <==> SeparateAliases(schema)
  {
    hide Parse, StartsWith, Enumerates;
    if SeparateAliases(schema) {
      forall args, a, b | Enumerates(a, schema) && Enumerates(b, schema)
        ensures Parse(args, schema, a, map[]) == Parse(args, schema, b, map[])
      {
        SameParse(args, schema, a, b, map[]);
      }
    } else {
      var a, b :| a in schema && b in schema && schema[a].cliName.Some? && schema[a].cliName == schema[b].cliName
                  && !(a == b || StartsWith(schema[a].cliName.value, "-"));
      var args, x, y := SharedAliasMatters(schema, a, b);
      assert Parse(args, schema, x, map[]) != Parse(args, schema, y, map[]);
    }
  }

  // ----- coercion

  const I64_BOUND: int := 0x8000_0000_0000_0000

  /** `str::parse::<i64>`. */
  function ParseI64(s: string): (r: Option<int>)
  {
    var signed := 1 < |s| && (s[0] == '+' || s[0] == '-');
    var digits := if signed then s[1..] else s;
    if digits == "" || !AllDigits(digits) then None
    else
      var magnitude: int := DigitsValue(digits);
      var n := if signed && s[0] == '-' then -magnitude else magnitude;
      if -I64_BOUND <= n < I64_BOUND then Some(n) else None
  }

  function IntText(n: int): string {
    if n < 0 then "-" + Numeral(-n) else Numeral(n)
  }

  /** `coerce_value`: the JSON value of a raw string, or nothing when it does not fit the spec. */
  function Coerce(raw: string, spec: ParamSpec): (r: Option<Json>)
  {
    if spec.allowed.Some? && raw !in spec.allowed.value then None
    else if spec.paramType == "string" then Some(Str(raw))
    else if spec.paramType == "integer" then
      match ParseI64(raw) case None => None case Some(n) => Some(Number(IntText(n)))
    else if IsSwitch(spec) then
      if raw == "true" then Some(Bool(true)) else if raw == "false" then Some(Bool(false)) else None
    else None
  }

  /** The text of an `i64` parses back to it. */
  lemma IntegerRoundTrip(n: int)
    requires -I64_BOUND <= n < I64_BOUND
    ensures ParseI64(IntText(n)) == Some(n)
  {
    var digits := Numeral(if n < 0 then -n else n);
    NumeralValue(if n < 0 then -n else n);
    if n < 0 {
      assert IntText(n)[1..] == digits;
    } else {
      assert IsDigit(digits[0]);
    }
  }

  /**
   A number: digits, possibly behind one sign, within 64 bits; it is written back without plus sign or leading zeros.
   */
  lemma ReadsNumber(s: string)
    ensures var signed := s != "" && (s[0] == '+' || s[0] == '-');
      var digits := if signed then s[1..] else s;
      if digits == "" || !AllDigits(digits) then ParseI64(s) == None
      else
        var n := (if s[0] == '-' then -1 else 1) * DigitsValue(digits);
        ParseI64(s) == if -0x8000_0000_0000_0000 <= n < 0x8000_0000_0000_0000 then Some(n) else None
  {
    if s != "" && (s[0] == '+' || s[0] == '-') {
      assert !IsDigit(s[0]);
    } else if s != "" && AllDigits(s) {
      DigitHasNoSign(s);
    }
  }

  /** Coercion by declared type, the allowed values tested first. */
  lemma CoercesTo(raw: string, spec: ParamSpec)
    ensures spec.allowed.Some? && (forall i :: 0 <= i < |spec.allowed.value| ==> spec.allowed.value[i] != raw) ==>
              Coerce(raw, spec) == None
    ensures spec.allowed.None? || (exists i :: 0 <= i < |spec.allowed.value| && spec.allowed.value[i] == raw) ==>
              && (spec.paramType == "string" ==> Coerce(raw, spec) == Some(Str(raw)))
              && (spec.paramType == "boolean" ==>
                    Coerce(raw, spec) == if raw == "true" then Some(Bool(true))
                                         else if raw == "false" then Some(Bool(false)) else None)
              && (spec.paramType == "integer" ==>
                    && (ParseI64(raw).None? ==> Coerce(raw, spec) == None)
                    && (forall n :: ParseI64(raw) == Some(n) ==>
                          var text := (if n < 0 then "-" else "") + Numeral(if n < 0 then -n else n);
                          Coerce(raw, spec) == Some(Number(text))))
              && (spec.paramType !in ["string", "integer", "boolean"] ==> Coerce(raw, spec) == None)
  {
    hide ParseI64, Numeral;
    if ParseI64(raw).Some? {
      var n := ParseI64(raw).value;
      assert n >= 0 ==> "" + Numeral(n) == Numeral(n);
    }
  }

  // ----- the body

  type Body = map<string, Json>

  /** The entry of one parameter: supplied, defaulted, absent, or an error. */
  datatype Entry = Absent | Present(value: Json) | Bad(error: ArgError)

  function EntryFor(name: string, spec: ParamSpec, params: Params): Entry {
    if name in params then
      match Coerce(params[name], spec) case None => Bad(InvalidParam(name)) case Some(v) => Present(v)
    else match spec.default
      case Some(v) => Present(v)
      case None => if spec.required then Bad(MissingParam(name)) else Absent
  }

  /** What one parameter contributes; a supplied value is taken out of the parameters. */
  method TakeEntry(left: Params, name: string, spec: ParamSpec) returns (entry: Entry, left': Params)
    ensures entry == EntryFor(name, spec, left) && left' == left - {name}
  {
    hide Coerce;
    left' := left - {name};
    if name in left {
      var value := Coerce(left[name], spec);
      return if value.None? then Bad(InvalidParam(name)) else Present(value.value), left';
    }
    assert left' == left;
    if spec.required {
      if spec.default.None? {
        return Bad(MissingParam(name)), left';
      }
      return Present(spec.default.value), left';
    }
    return if spec.default.Some? then Present(spec.default.value) else Absent, left';
  }

  lemma SameEntry(name: string, spec: ParamSpec, a: Params, b: Params)
    requires (name in a <==> name in b) && (name in a ==> a[name] == b[name])
    ensures EntryFor(name, spec, a) == EntryFor(name, spec, b)
  {
    hide Coerce;
  }

  /** `build_body`: one pass over the schema. */
  method BuildBody(params: Params, schema: Schema, order: seq<string>) returns (r: Result<Body>)
    requires Enumerates(order, schema)
    ensures r.Ok? <==> Buildable(params, schema)
    ensures r.Ok? ==> r.value == BodyOf(params, schema)
    ensures r.Err? ==> exists name :: name in schema && EntryFor(name, schema[name], params) == Bad(r.error)
  {
    hide EntryFor, Buildable;
    EntriesDecide(params, schema);
    var body: Body := map[];
    var left := params;
    for i := 0 to |order|
      invariant forall n :: n in left <==> n in params && n !in order[..i]
      invariant forall n :: n in left ==> left[n] == params[n]
      invariant forall n :: n in order[..i] ==> !EntryFor(n, schema[n], params).Bad?
      invariant forall n :: n in body <==> n in order[..i] && EntryFor(n, schema[n], params).Present?
      invariant forall n :: n in body ==> EntryFor(n, schema[n], params) == Present(body[n])
    {
      var name := order[i];
      var spec := schema[name];
      assert order[..i + 1] == order[..i] + [name] && name !in order[..i];
      SameEntry(name, spec, left, params);
      var entry;
      entry, left := TakeEntry(left, name, spec);
      match entry {
        case Bad(error) => return Err(error);
        case Present(value) => body := body[name := value];
        case Absent =>
      }
    }
    assert order[..|order|] == order;
    return Ok(body);
  }

  lemma EntriesDecide(params: Params, schema: Schema)
    ensures Buildable(params, schema) <==> forall name :: name in schema ==> !EntryFor(name, schema[name], params).Bad?
  {
    hide Coerce;
  }

  /** Every supplied value coerces, and every required parameter is supplied or has a default. */
  ghost predicate Buildable(params: Params, schema: Schema) {
    forall name :: name in schema ==>
      && (name in params ==> Coerce(params[name], schema[name]).Some?)
      && (schema[name].required ==> name in params || schema[name].default.Some?)
  }

  /** The body without any order: coerced where supplied, the default where there is one, nothing otherwise. */
  function BodyOf(params: Params, schema: Schema): Body {
    map name | name in schema && EntryFor(name, schema[name], params).Present? ::
      EntryFor(name, schema[name], params).value
  }

  /**
   The body, field by field: a supplied value coerced, else the default, required or not, else nothing; and parameters
   the schema does not know are left out.
   */
  lemma BodyHolds(params: Params, schema: Schema, name: string)
    requires Buildable(params, schema)
    ensures name in BodyOf(params, schema) <==> name in schema && (name in params || schema[name].default.Some?)
    ensures name in schema && name in params ==>
              Coerce(params[name], schema[name]) == Some(BodyOf(params, schema)[name])
    ensures name in schema && name !in params && schema[name].default.Some? ==>
              schema[name].default == Some(BodyOf(params, schema)[name])
  {
    hide Coerce;
  }

  /**
   The two errors of the body: a value that does not coerce, or a required parameter neither supplied nor defaulted.
   */
  lemma BodyErrors(params: Params, schema: Schema, name: string, error: ArgError)
    requires name in schema && EntryFor(name, schema[name], params) == Bad(error)
    ensures if name in params then error == InvalidParam(name) && Coerce(params[name], schema[name]) == None
            else error == MissingParam(name) && schema[name].required && schema[name].default.None?
  {
    hide Coerce;
  }

  /** From a map to flags to a body: nothing is lost on the way, whatever the order of the schema. */
  lemma PrintedFlagsBuild(names: seq<string>, schema: Schema, order: seq<string>, params: Params)
    requires Enumerates(order, schema) && ClearFlags(schema) && Printable(schema, params)
    requires forall n :: n in names <==> n in params
    ensures var parsed := Parse(Print(names, schema, params), schema, order, map[]);
      && parsed.Ok?
      && (Buildable(parsed.value, schema) ==> forall name :: name in params ==>
            && name in BodyOf(parsed.value, schema)
            && Coerce(params[name], schema[name]) == Some(BodyOf(parsed.value, schema)[name]))
  {
    hide Parse, Print, Coerce;
    ClearFlagsSuffice(names, schema, order, params);
  }
}
