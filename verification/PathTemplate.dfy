/** `render_path` of the kleos client: `{key}` placeholders filled from the call arguments, which are consumed. */
module PathTemplate {
  import opened Wrappers
  import opened Json
  import opened Percent

  type Args = map<string, Json>

  /** The text a scalar argument contributes; arrays, objects and null are refused. */
  function ArgText(v: Json): (r: Option<string>)
  {
    match v
    case Str(s) => Some(PercentEncode(KeptInPath, s))
    case Number(text) => Some(text)
    case Bool(b) => Some(if b then "true" else "false")
    case _ => None
  }

  datatype Failure = Malformed | Missing(key: string) | NotScalar(key: string)

  /** The rendered path and the arguments left over, or the reason there is none. */
  datatype Rendered = Done(text: string, left: Option<Args>) | Failed(why: Failure)

  function Prefix(front: string, r: Rendered): Rendered {
    if r.Done? then r.(text := front + r.text) else r
  }

  /** Rendering of what is left of a template. `None` stands for arguments that are not an object. */
  function Render(rest: string, args: Option<Args>): (r: Rendered)
    decreases |rest|
  {
    CutAtShrinks('{', rest);
    var (literal, inside) := CutAt('{', rest);
    if inside.None? then Done(rest, args) else Prefix(literal, FillHole(inside.value, args))
  }

  /** Rendering from just behind an opening brace. */
  function FillHole(inside: string, args: Option<Args>): (r: Rendered)
    decreases |inside|
  {
    CutAtShrinks('}', inside);
    var (key, closed) := CutAt('}', inside);
    if closed.None? then Failed(Malformed)
    else if args.None? || key !in args.value then Failed(Missing(key))
    else match ArgText(args.value[key])
      case None => Failed(NotScalar(key))
      case Some(text) => Prefix(text, Render(closed.value, Some(args.value - {key})))
  }

  lemma PrefixTwice(a: string, b: string, r: Rendered)
    ensures Prefix(a, Prefix(b, r)) == Prefix(a + b, r) && Prefix("", r) == r
  {
    if r.Done? {
      assert a + (b + r.text) == a + b + r.text;
      assert "" + r.text == r.text;
    }
  }

  /** The loop: `out` grows, `rest` shrinks, and filled keys leave the arguments. */
  method RenderPath(template: string, args: Option<Args>) returns (r: Rendered)
    ensures r == Render(template, args)
  {
    hide CutAt, ArgText;
    var out, rest, left := "", template, args;
    PrefixTwice("", "", Render(template, args));
    while true
      invariant Render(template, args) == Prefix(out, Render(rest, left))
      decreases |rest|
    {
      CutAtShrinks('{', rest);
      var (literal, inside) := CutAt('{', rest);
      if inside.None? {
        return Done(out + rest, left);
      }
      CutAtShrinks('}', inside.value);
      var (key, closed) := CutAt('}', inside.value);
      if closed.None? {
        return Failed(Malformed);
      }
      if left.None? || key !in left.value {
        return Failed(Missing(key));
      }
      var text := ArgText(left.value[key]);
      if text.None? {
        return Failed(NotScalar(key));
      }
      ghost var more := Render(closed.value, Some(left.value - {key}));
      PrefixTwice(out, literal, Prefix(text.value, more));
      PrefixTwice(out + literal, text.value, more);
      out := out + literal + text.value;
      left := Some(left.value - {key});
      rest := closed.value;
    }
  }

  // ----- templates whose placeholders are whole segments

  datatype Segment = Literal(text: string) | Param(key: string)

  predicate Plain(s: string) {
    '/' !in s && '{' !in s && '}' !in s
  }

  predicate WellFormed(segments: seq<Segment>) {
    segments != [] && forall i :: 0 <= i < |segments| ==>
      Plain(if segments[i].Literal? then segments[i].text else segments[i].key)
  }

  function SegmentText(s: Segment): string {
    match s case Literal(text) => text case Param(key) => "{" + key + "}"
  }

  function Template(segments: seq<Segment>): string {
    JoinWith('/', seq(|segments|, i requires 0 <= i < |segments| => SegmentText(segments[i])))
  }

  function Keys(segments: seq<Segment>): (r: set<string>)
  {
    set i | 0 <= i < |segments| && segments[i].Param? :: segments[i].key
  }

  /** No placeholder is used twice. */
  predicate DistinctKeys(segments: seq<Segment>) {
    forall i, j :: 0 <= i < j < |segments| && segments[i].Param? && segments[j].Param? ==>
        segments[i].key != segments[j].key
  }

  predicate AllStrings(segments: seq<Segment>, args: Args) {
    forall i :: 0 <= i < |segments| && segments[i].Param? ==> segments[i].key in args && args[segments[i].key].Str?
  }

  /** The segment a string assignment turns a template segment into. */
  function Filled(s: Segment, args: Args): string
    requires s.Param? ==> s.key in args && args[s.key].Str?
  {
    match s case Literal(text) => text case Param(key) => PercentEncode(KeptInPath, args[key].s)
  }

  function FilledAll(segments: seq<Segment>, args: Args): (r: seq<string>)
    requires AllStrings(segments, args)
  {
    seq(|segments|, i requires 0 <= i < |segments| => Filled(segments[i], args))
  }

  lemma {:induction false} CutPast(sep: char, a: string, s: string)
    requires sep !in a
    ensures CutAt(sep, a + s) == (a + CutAt(sep, s).0, CutAt(sep, s).1)
  {
    if a == "" {
      assert a + s == s;
      assert "" + CutAt(sep, s).0 == CutAt(sep, s).0;
    } else {
      assert (a + s)[1..] == a[1..] + s;
      CutPast(sep, a[1..], s);
      assert [a[0]] + (a[1..] + CutAt(sep, s).0) == a + CutAt(sep, s).0;
    }
  }

  /** Text without a placeholder is copied. */
  lemma RenderLiteral(text: string, rest: string, args: Args)
    requires '{' !in text
    ensures Render(text + rest, Some(args)) == Prefix(text, Render(rest, Some(args)))
  {
    hide CutAt, FillHole;
    CutPast('{', text, rest);
    var (literal, inside) := CutAt('{', rest);
    if inside.Some? {
      PrefixTwice(text, literal, FillHole(inside.value, Some(args)));
    }
  }

  /** A placeholder takes its argument, once. */
  lemma RenderParam(key: string, rest: string, args: Args)
    requires '}' !in key
    ensures Render("{" + key + "}" + rest, Some(args)) ==
      if key !in args then Failed(Missing(key))
      else match ArgText(args[key])
        case None => Failed(NotScalar(key))
        case Some(text) => Prefix(text, Render(rest, Some(args - {key})))
  {
    hide ArgText, CutAt;
    var t := "{" + key + "}" + rest;
    var inside := key + ['}'] + rest;
    assert t == "" + ['{'] + inside;
    CutAtFirst('{', "", inside);
    CutAtFirst('}', key, rest);
    PrefixTwice("", "", FillHole(inside, Some(args)));
  }

  /**
   The texts of the scalars: strings are encoded, numbers and booleans stand as JSON writes them, the rest is refused.
   */
  lemma RenderScalar(key: string, rest: string, args: Args)
    requires '}' !in key && key in args
    ensures var r, more := Render("{" + key + "}" + rest, Some(args)), Render(rest, Some(args - {key}));
      match args[key]
      case Str(s) => r == Prefix(PercentEncode(KeptInPath, s), more)
      case Number(text) => r == Prefix(text, more)
      case Bool(b) => r == Prefix(if b then "true" else "false", more)
      case Null => r == Failed(NotScalar(key))
      case Array(_) => r == Failed(NotScalar(key))
      case Object(_) => r == Failed(NotScalar(key))
  {
    hide Render;
    RenderParam(key, rest, args);
  }

  /** A brace that is not closed is an error, and so is any placeholder when the arguments are not an object. */
  lemma RenderFails(text: string, inside: string, args: Option<Args>, key: string, rest: string)
    requires '{' !in text
    ensures Render(text, args) == Done(text, args)
    ensures '}' !in inside ==> Render(text + "{" + inside, args) == Failed(Malformed)
    ensures '}' !in key ==> Render(text + "{" + key + "}" + rest, None) == Failed(Missing(key))
  {
    hide CutAt, ArgText;
    CutAtFirst('{', text, inside);
    if '}' !in inside { CutAtFirst('}', inside, ""); }
    CutAtFirst('{', text, key + ['}'] + rest);
    if '}' !in key { CutAtFirst('}', key, rest); }
    assert text + "{" + inside == text + ['{'] + inside;
    assert text + "{" + key + "}" + rest == text + ['{'] + (key + ['}'] + rest);
  }

  lemma RenderEmpty(args: Args)
    ensures Render("", Some(args)) == Done("", Some(args))
  {
  }

  /** A first segment and what follows it, a slash included when anything does. */
  lemma TemplateCons(segments: seq<Segment>)
    requires segments != []
    ensures Template(segments) ==
      SegmentText(segments[0]) + (if |segments| == 1 then "" else "/" + Template(segments[1..]))
  {
    hide SegmentText;
    var texts := seq(|segments|, i requires 0 <= i < |segments| => SegmentText(segments[i]));
    assert texts[1..] == seq(|segments[1..]|, i requires 0 <= i < |segments[1..]| => SegmentText(segments[1..][i]));
    assert |segments| == 1 ==> SegmentText(segments[0]) + "" == texts[0];
  }

  lemma FilledCons(segments: seq<Segment>, args: Args)
    requires segments != [] && AllStrings(segments, args)
    ensures AllStrings(segments[1..], args)
    ensures JoinWith('/', FilledAll(segments, args)) ==
      Filled(segments[0], args) + (if |segments| == 1 then "" else "/" + JoinWith('/', FilledAll(segments[1..], args)))
  {
    hide Filled;
    assert FilledAll(segments, args)[1..] == FilledAll(segments[1..], args);
    assert |segments| == 1 ==> Filled(segments[0], args) + "" == FilledAll(segments, args)[0];
  }

  /** Rendering fills each segment in place and consumes exactly the keys of the placeholders. */
  lemma {:induction false} RenderSegments(segments: seq<Segment>, args: Args)
    requires WellFormed(segments) && DistinctKeys(segments) && AllStrings(segments, args)
    ensures Render(Template(segments), Some(args)) ==
      Done(JoinWith('/', FilledAll(segments, args)), Some(args - Keys(segments)))
    decreases |segments|
  {
    hide Render, Template, JoinWith, PercentEncode, FilledAll;
    var head, rest := segments[0], segments[1..];
    TemplateCons(segments);
    FilledCons(segments, args);
    var left := if head.Param? then args - {head.key} else args;
    var tail := if |segments| == 1 then "" else "/" + Template(rest);
    if head.Param? { RenderParam(head.key, tail, args); } else { RenderLiteral(head.text, tail, args); }
    KeysCons(segments);
    if |segments| == 1 {
      RenderEmpty(left);
    } else {
      assert WellFormed(rest) && DistinctKeys(rest);
      forall i | 0 <= i < |rest| && rest[i].Param?
        ensures rest[i].key in left && left[rest[i].key] == args[rest[i].key]
      {
        assert segments[i + 1] == rest[i];
      }
      RenderSegments(rest, left);
      RenderLiteral("/", Template(rest), left);
      SameFilling(rest, left, args);
    }
    assert left - Keys(rest) == args - Keys(segments);
    assert |segments| == 1 ==> left == left - Keys(rest);
  }

  lemma SameFilling(segments: seq<Segment>, a: Args, b: Args)
    requires AllStrings(segments, a) && AllStrings(segments, b)
    requires forall i :: 0 <= i < |segments| && segments[i].Param? ==> a[segments[i].key] == b[segments[i].key]
    ensures FilledAll(segments, a) == FilledAll(segments, b)
  {
    hide PercentEncode;
  }

  lemma KeysCons(segments: seq<Segment>)
    requires segments != []
    ensures Keys(segments) == Keys(segments[1..]) + (if segments[0].Param? then {segments[0].key} else {})
  {
    var rest := segments[1..];
    forall k | k in Keys(segments) ensures k in Keys(rest) || (segments[0].Param? && k == segments[0].key) {
      var i :| 0 <= i < |segments| && segments[i].Param? && segments[i].key == k;
      assert 0 < i ==> rest[i - 1] == segments[i];
    }
    forall k | k in Keys(rest) ensures k in Keys(segments) {
      var i :| 0 <= i < |rest| && rest[i].Param? && rest[i].key == k;
      assert segments[i + 1] == rest[i];
    }
  }

  /** Some placeholder is used twice or has its argument gone already. */
  ghost predicate Clashes(segments: seq<Segment>, gone: set<string>) {
    !DistinctKeys(segments) || Keys(segments) * gone != {}
  }

  /** A clash not at the first segment is a clash among the rest once the first has taken its argument. */
  lemma ClashMovesOn(segments: seq<Segment>, gone: set<string>)
    requires segments != [] && Clashes(segments, gone) && !(segments[0].Param? && segments[0].key in gone)
    ensures Clashes(segments[1..], if segments[0].Param? then gone + {segments[0].key} else gone)
  {
    var head, rest := segments[0], segments[1..];
    var gone' := if head.Param? then gone + {head.key} else gone;
    KeysCons(segments);
    assert forall k :: 0 <= k < |rest| ==> rest[k] == segments[k + 1];
    if Keys(segments) * gone != {} {
      var k :| k in Keys(segments) * gone;
      assert k in Keys(rest) * gone';
    } else if DistinctKeys(rest) {
      var i, j :| 0 <= i < j < |segments| && segments[i].Param? && segments[j].Param?
                  && segments[i].key == segments[j].key;
      assert rest[j - 1] == segments[j];
      assert head.key in Keys(rest) * gone';
    }
  }

  /** A placeholder used twice finds its argument gone. */
  lemma {:induction false} RepeatedKeyFails(segments: seq<Segment>, args: Args, gone: set<string>)
    requires WellFormed(segments) && AllStrings(segments, args) && Clashes(segments, gone)
    ensures Render(Template(segments), Some(args - gone)).Failed?
    decreases |segments|
  {
    hide Render, Template, PercentEncode, Clashes, Keys;
    var head, rest := segments[0], segments[1..];
    TemplateCons(segments);
    var tail := if |segments| == 1 then "" else "/" + Template(rest);
    var left := args - gone;
    if head.Param? { RenderParam(head.key, tail, left); } else { RenderLiteral(head.text, tail, left); }
    if !(head.Param? && head.key in gone) {
      ClashMovesOn(segments, gone);
      var gone' := if head.Param? then gone + {head.key} else gone;
      assert args - gone' == if head.Param? then left - {head.key} else left;
      if |segments| == 1 {
        NoClash(gone');
      } else {
        assert forall i :: 0 <= i < |rest| ==> rest[i] == segments[i + 1];
        RepeatedKeyFails(rest, args, gone');
        RenderLiteral("/", Template(rest), args - gone');
      }
    }
  }

  lemma NoClash(gone: set<string>)
    ensures !Clashes([], gone)
  {
  }

  lemma FilledHasNoSlash(s: Segment, args: Args)
    requires s.Param? ==> s.key in args && args[s.key].Str?
    requires s.Literal? ==> Plain(s.text)
    ensures '/' !in Filled(s, args)
  {
    hide PercentEncode;
    if s.Param? {
      PathEscapes();
      NotEncoded(KeptInPath, args[s.key].s, '/');
    }
  }

  /**
   Path rendering is invertible. For every template whose placeholders are whole segments and every assignment of
   strings to them: rendering succeeds exactly when no placeholder repeats; then the path splits at slashes into as
   many segments as the template, literals stand unchanged, decoding each placeholder segment returns its argument, and
   exactly the placeholder keys are gone from the arguments.
   */
  lemma RenderIsInvertible(segments: seq<Segment>, args: Args)
    requires WellFormed(segments) && AllStrings(segments, args)
    ensures Render(Template(segments), Some(args)).Done? <==> DistinctKeys(segments)
    ensures DistinctKeys(segments) ==>
      var r := Render(Template(segments), Some(args));
      && r.left == Some(args - Keys(segments))
      && var parts := SplitAt('/', r.text);
      && |parts| == |segments|
      && forall i :: 0 <= i < |segments| ==>
           if segments[i].Literal? then parts[i] == segments[i].text
           else PercentDecode(parts[i]) == Some(args[segments[i].key].s)
  {
    hide Render, Template, PercentEncode, PercentDecode, SplitAt, JoinWith, DistinctKeys;
    if DistinctKeys(segments) {
      RenderSegments(segments, args);
      var parts := FilledAll(segments, args);
      forall i | 0 <= i < |parts| ensures '/' !in parts[i] {
        FilledHasNoSlash(segments[i], args);
      }
      SplitJoined('/', parts);
      forall i | 0 <= i < |segments| && segments[i].Param?
        ensures PercentDecode(parts[i]) == Some(args[segments[i].key].s)
      {
        PathEscapes();
        EncodeIsInvertible(KeptInPath, args[segments[i].key].s);
      }
    } else {
      assert Clashes(segments, {});
      RepeatedKeyFails(segments, args, {});
      assert args - {} == args;
    }
  }

  /** So two assignments that render to the same path agree on every placeholder. */
  lemma RenderIsInjective(segments: seq<Segment>, a: Args, b: Args, i: nat)
    requires WellFormed(segments) && AllStrings(segments, a) && AllStrings(segments, b)
    requires Render(Template(segments), Some(a)).Done? && Render(Template(segments), Some(b)).Done?
    requires Render(Template(segments), Some(a)).text == Render(Template(segments), Some(b)).text
    requires i < |segments| && segments[i].Param?
    ensures a[segments[i].key] == b[segments[i].key]
  {
    hide Render, Template, PercentDecode, SplitAt;
    RenderIsInvertible(segments, a);
    RenderIsInvertible(segments, b);
  }

  // ----- dot segments

  predicate IsDots(part: string) {
    part == "." || part == ".."
  }

  /** Dot-segment removal, section 5.2.4 of RFC 3986, on the segments behind a leading slash. */
  function RemoveDots(parts: seq<string>): seq<string> {
    RemoveDotsOnto([], parts)
  }

  /** `out` is what stands so far. A dot segment at the end leaves an empty segment, that is, a trailing slash. */
  function RemoveDotsOnto(out: seq<string>, parts: seq<string>): (r: seq<string>)
    decreases |parts|
  {
    if parts == [] then out
    else if !IsDots(parts[0]) then RemoveDotsOnto(out + [parts[0]], parts[1..])
    else
      var kept := if parts[0] == ".." && out != [] then out[..|out| - 1] else out;
      RemoveDotsOnto(if |parts| == 1 then kept + [""] else kept, parts[1..])
  }

  lemma {:induction false} NoDotsLeft(out: seq<string>, parts: seq<string>)
    requires forall i :: 0 <= i < |out| ==> !IsDots(out[i])
    ensures forall i :: 0 <= i < |RemoveDotsOnto(out, parts)| ==> !IsDots(RemoveDotsOnto(out, parts)[i])
    ensures (forall i :: 0 <= i < |parts| ==> !IsDots(parts[i])) ==> RemoveDotsOnto(out, parts) == out + parts
    decreases |parts|
  {
    if parts != [] {
      if !IsDots(parts[0]) {
        NoDotsLeft(out + [parts[0]], parts[1..]);
        assert out + [parts[0]] + parts[1..] == out + parts;
      } else {
        var kept := if parts[0] == ".." && out != [] then out[..|out| - 1] else out;
        NoDotsLeft(if |parts| == 1 then kept + [""] else kept, parts[1..]);
      }
    }
  }

  /** Dot removal leaves a list of segments alone exactly when no segment is a dot segment. */
  lemma RemoveDotsExactly(parts: seq<string>)
    ensures RemoveDots(parts) == parts <==> forall i :: 0 <= i < |parts| ==> !IsDots(parts[i])
  {
    hide IsDots;
    NoDotsLeft([], parts);
    assert [] + parts == parts;
  }

  lemma DotsStayDots(s: string)
    ensures IsDots(PercentEncode(KeptInPath, s)) <==> IsDots(s)
  {
    hide PercentEncode, PercentDecode;
    PathEscapes();
    EncodedDots();
    EncodeIsInvertible(KeptInPath, s);
    EncodeIsInvertible(KeptInPath, ".");
    EncodeIsInvertible(KeptInPath, "..");
  }

  /** The text a segment stands for: its literal, or its argument. */
  function Meant(s: Segment, args: Args): string
    requires s.Param? ==> s.key in args && args[s.key].Str?
  {
    match s case Literal(text) => text case Param(key) => args[key].s
  }

  /**
   The encoder keeps dots, so an argument can still change the shape of the path: behind its leading slash, the
   rendered path keeps its segments through dot removal if and only if no argument and no literal is `.` or `..`.
   */
  lemma SegmentsSurviveDotRemoval(segments: seq<Segment>, args: Args)
    requires WellFormed(segments) && AllStrings(segments, args) && DistinctKeys(segments)
    requires segments[0] == Literal("") && 1 < |segments|
    ensures var r := Render(Template(segments), Some(args));
      && r.Done?
      && var parts := SplitAt('/', r.text);
      && |parts| == |segments| && parts[0] == ""
      && (RemoveDots(parts[1..]) == parts[1..]
          <==> forall i :: 0 < i < |segments| ==> !IsDots(Meant(segments[i], args)))
  {
    hide Render, Template, PercentEncode, SplitAt, JoinWith, IsDots, RemoveDots;
    RenderSegments(segments, args);
    var parts := FilledAll(segments, args);
    forall i | 0 <= i < |parts| ensures '/' !in parts[i] {
      FilledHasNoSlash(segments[i], args);
    }
    SplitJoined('/', parts);
    RemoveDotsExactly(parts[1..]);
    forall i | 0 <= i < |segments| ensures IsDots(parts[i]) <==> IsDots(Meant(segments[i], args)) {
      if segments[i].Param? { DotsStayDots(args[segments[i].key].s); }
    }
    assert forall i :: 0 <= i < |parts[1..]| ==> parts[1..][i] == parts[i + 1];
    assert forall i :: 0 < i < |parts| ==> parts[i] == parts[1..][i - 1];
  }
}
