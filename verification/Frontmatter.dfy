/**
 Importing a markdown skill splits its frontmatter from its body; materializing it again prints both back. The two are
 shown to undo each other, and exactly when.
 */
module Frontmatter {
  import opened Wrappers
  import opened Text

  // ----- lines

  /** Length of the first line with its newline, or of the whole text when it has none. */
  function LineEnd(s: string): (n: nat)
    ensures n <= |s| && (s != "" ==> 0 < n)
    ensures if '\n' in s then Terminated(s[..n]) else n == |s|
  {
    if s == "" then 0
    else if s[0] == '\n' then 1
    else
      var n := 1 + LineEnd(s[1..]);
      assert s == [s[0]] + s[1..];
      assert s[..n] == [s[0]] + s[1..][..n - 1];
      assert 1 < n ==> s[..n][..n - 1] == [s[0]] + s[1..][..n - 1][..n - 2];
      n
  }

  /** A line that ends in its only newline. */
  predicate Terminated(line: string) {
    line != "" && line[|line| - 1] == '\n' && '\n' !in line[..|line| - 1]
  }

  function FirstLine(s: string): (line: string)
    ensures s != "" ==> line != ""
    ensures if '\n' in s then Terminated(line) else line == s
  {
    s[..LineEnd(s)]
  }

  function AfterLine(s: string): (rest: string)
    ensures s == FirstLine(s) + rest
    ensures s != "" ==> |rest| < |s|
    ensures rest != "" ==> Terminated(FirstLine(s))
  {
    assert s == s[..LineEnd(s)] + s[LineEnd(s)..];
    s[LineEnd(s)..]
  }

  lemma {:induction false} LineEndIs(line: string, rest: string)
    requires Terminated(line)
    ensures LineEnd(line + rest) == |line|
  {
    if line[0] != '\n' {
      assert line[1..][..|line| - 2] == line[..|line| - 1][1..];
      assert (line + rest)[1..] == line[1..] + rest;
      LineEndIs(line[1..], rest);
    }
  }

  /** A text that begins with a terminated line has that line first. */
  lemma CutLine(line: string, rest: string)
    requires Terminated(line)
    ensures FirstLine(line + rest) == line && AfterLine(line + rest) == rest
  {
    hide LineEnd;
    LineEndIs(line, rest);
  }

  lemma CutLast(line: string)
    requires '\n' !in line
    ensures FirstLine(line) == line && AfterLine(line) == ""
  {
  }

  lemma Terminate(text: string)
    requires '\n' !in text
    ensures Terminated(text + "\n")
  {
    assert (text + "\n")[..|text|] == text;
  }

  /** Text made of whole lines. */
  predicate WholeLines(s: string) {
    s == "" || s[|s| - 1] == '\n'
  }

  lemma WholeLinesCut(s: string)
    requires WholeLines(s) && s != ""
    ensures Terminated(FirstLine(s)) && WholeLines(AfterLine(s))
  {
    hide FirstLine, AfterLine;
    assert s[|s| - 1] in s;
  }

  datatype Line = Line(start: nat, text: string)

  /** Every line with its terminator and where it starts. */
  function Lines(s: string, base: nat): (r: seq<Line>)
    decreases |s|
  {
    if s == "" then [] else [Line(base, FirstLine(s))] + Lines(AfterLine(s), base + |FirstLine(s)|)
  }

  lemma {:induction false} LinesSnoc(s: string, line: string, base: nat)
    requires WholeLines(s) && (Terminated(line) || (line != "" && '\n' !in line))
    ensures Lines(s + line, base) == Lines(s, base) + [Line(base + |s|, line)]
    decreases |s|
  {
    hide FirstLine, AfterLine;
    if s == "" {
      assert s + line == line == line + "";
      if Terminated(line) { CutLine(line, ""); } else { CutLast(line); }
    } else {
      WholeLinesCut(s);
      var first, rest := FirstLine(s), AfterLine(s);
      assert s + line == first + (rest + line);
      CutLine(first, rest + line);
      LinesSnoc(rest, line, base + |first|);
    }
  }

  /** `line_offsets`: one pass over the characters. */
  method LineOffsets(s: string) returns (out: seq<Line>)
    ensures out == Lines(s, 0)
  {
    hide Lines, WholeLines;
    out := [];
    var start := 0;
    LinesEmpty();
    assert s[..0] == "";
    for i := 0 to |s|
      invariant 0 <= start <= i
      invariant out == Lines(s[..start], 0) && WholeLines(s[..start]) && '\n' !in s[start..i]
    {
      Piece(s, start, i);
      if s[i] == '\n' {
        LineEnds(s, start, i);
        out := out + [Line(start, s[start..i + 1])];
        start := i + 1;
      }
    }
    assert s == s[..start] + s[start..] && s[start..|s|] == s[start..];
    if start < |s| {
      LinesSnoc(s[..start], s[start..], 0);
      out := out + [Line(start, s[start..])];
    } else {
      assert s[..start] == s;
    }
  }

  lemma Piece(s: string, start: nat, i: nat)
    requires start <= i < |s|
    ensures s[start..i + 1] == s[start..i] + [s[i]] && s[..i + 1] == s[..start] + s[start..i + 1]
    ensures s[i + 1..i + 1] == ""
  {
  }

  /** The line that a newline ends. */
  lemma LineEnds(s: string, start: nat, i: nat)
    requires start <= i < |s| && s[i] == '\n' && WholeLines(s[..start]) && '\n' !in s[start..i]
    ensures Lines(s[..i + 1], 0) == Lines(s[..start], 0) + [Line(start, s[start..i + 1])] && WholeLines(s[..i + 1])
  {
    hide Lines, Terminated;
    Piece(s, start, i);
    Terminate(s[start..i]);
    LinesSnoc(s[..start], s[start..i + 1], 0);
  }

  lemma LinesEmpty()
    ensures Lines("", 0) == [] && WholeLines("")
  {
  }

  // ----- splitting

  predicate IsRule(line: string) {
    TrimEnd(line) == "---"
  }

  /** What stands before the first line that is a rule, and what stands after it. */
  function CutAtRule(s: string): (r: Option<(string, string)>)
    decreases |s|
  {
    if s == "" then None
    else if IsRule(FirstLine(s)) then Some(("", AfterLine(s)))
    else Prepend(FirstLine(s), CutAtRule(AfterLine(s)))
  }

  function Prepend(front: string, cut: Option<(string, string)>): Option<(string, string)> {
    match cut
    case None => None
    case Some((before, after)) => Some((front + before, after))
  }

  lemma PrependTwice(a: string, b: string, cut: Option<(string, string)>)
    ensures Prepend(a, Prepend(b, cut)) == Prepend(a + b, cut)
    ensures Prepend("", cut) == cut
  {
    if cut.Some? {
      assert a + (b + cut.value.0) == a + b + cut.value.0;
      assert "" + cut.value.0 == cut.value.0;
    }
  }

  /** `trim_start_matches('\n')`. */
  function DropNewlines(s: string): (r: string)
    ensures r != "" ==> r[0] != '\n'
  {
    if s != "" && s[0] == '\n' then DropNewlines(s[1..]) else s
  }

  predicate OpensFrontmatter(raw: string) {
    StartsWith(raw, "---\n") || StartsWith(raw, "---\r\n")
  }

  /** Frontmatter, if any, and body. */
  function Split(raw: string): (r: (Option<string>, string))
  {
    if !OpensFrontmatter(raw) then (None, raw)
    else match CutAtRule(AfterLine(raw))
      case None => (None, raw)
      case Some((before, after)) => (Some(before), DropNewlines(after))
  }

  /** The search the importer runs over the line list. */
  method SplitFrontmatter(raw: string) returns (frontmatter: Option<string>, body: string)
    ensures (frontmatter, body) == Split(raw)
  {
    hide FirstLine, AfterLine, IsRule, DropNewlines, OpensFrontmatter, Lines, CutAtRule, Prepend;
    if !OpensFrontmatter(raw) {
      return None, raw;
    }
    var rest := AfterLine(raw);
    var lines := LineOffsets(rest);
    ghost var front, ahead, done: seq<Line> := "", rest, [];
    PrependTwice("", "", CutAtRule(rest));
    for i := 0 to |lines|
      invariant rest == front + ahead
      invariant i == |done| && lines == done + Lines(ahead, |front|)
      invariant CutAtRule(rest) == Prepend(front, CutAtRule(ahead))
    {
      var line := lines[i];
      Unfold(ahead, |front|);
      ghost var first, after := FirstLine(ahead), AfterLine(ahead);
      assert line == Line(|front|, first);
      assert rest == (front + first) + after;
      if IsRule(line.text) {
        CutHere(front, after);
        return Some(rest[..line.start]), DropNewlines(rest[line.start + |line.text|..]);
      }
      PrependTwice(front, first, CutAtRule(after));
      front, ahead, done := front + first, after, done + [line];
    }
    Unfold(ahead, |front|);
    CutHere(front, "");
    return None, raw;
  }

  lemma Unfold(s: string, base: nat)
    ensures s == "" ==> Lines(s, base) == [] && CutAtRule(s) == None
    ensures s != "" ==> Lines(s, base) == [Line(base, FirstLine(s))] + Lines(AfterLine(s), base + |FirstLine(s)|)
    ensures s != "" ==> CutAtRule(s) == if IsRule(FirstLine(s)) then Some(("", AfterLine(s)))
                                        else Prepend(FirstLine(s), CutAtRule(AfterLine(s)))
  {
    hide FirstLine, AfterLine, IsRule;
  }

  lemma CutHere(front: string, after: string)
    ensures Prepend(front, Some(("", after))) == Some((front, after))
    ensures Prepend(front, None) == None
  {
    assert front + "" == front;
  }

  /**
   The file the materializer writes: the stored frontmatter when there is one, else one made of name and description.
   */
  function Reconstruct(stored: Option<string>, name: string, description: string, body: string): string {
    match stored
    case Some(frontmatter) => Materialize(frontmatter, body)
    case None => Synthesize(name, description, body)
  }

  function Synthesize(name: string, description: string, body: string): string {
    "---\n" + (NameAndDescription(name, description) + ("---\n" + ("\n" + body)))
  }

  function Pair(key: string, v: string): string {
    key + ": " + v
  }

  function NameAndDescription(name: string, description: string): string {
    Pair("name", name) + "\n" + (Pair("description", description) + "\n")
  }

  function Materialize(frontmatter: string, body: string): string {
    "---\n" + Trim(frontmatter) + "\n---\n\n" + body
  }

  // ----- texts in which no line is a rule

  predicate NoRule(s: string)
    decreases |s|
  {
    s == "" || (!IsRule(FirstLine(s)) && NoRule(AfterLine(s)))
  }

  lemma {:induction false} BeforeRule(s: string)
    requires CutAtRule(s).Some?
    ensures NoRule(CutAtRule(s).value.0)
    decreases |s|
  {
    hide FirstLine, AfterLine, IsRule;
    if !IsRule(FirstLine(s)) {
      BeforeRule(AfterLine(s));
      CutLine(FirstLine(s), CutAtRule(AfterLine(s)).value.0);
    }
  }

  lemma {:induction false} RuleAfter(s: string, more: string)
    requires WholeLines(s) && NoRule(s)
    ensures CutAtRule(s + more) == Prepend(s, CutAtRule(more))
    decreases |s|
  {
    hide FirstLine, AfterLine, IsRule;
    if s == "" {
      assert s + more == more;
      PrependTwice("", "", CutAtRule(more));
    } else {
      WholeLinesCut(s);
      var first, rest := FirstLine(s), AfterLine(s);
      assert s + more == first + (rest + more);
      CutLine(first, rest + more);
      RuleAfter(rest, more);
      PrependTwice(first, rest, CutAtRule(more));
    }
  }

  // ----- trimming, line by line

  /** The first line of the frontmatter that is not blank is a rule once its indentation is gone. */
  predicate OpensWithRule(frontmatter: string) {
    IsRule(FirstLine(TrimStart(frontmatter)))
  }

  lemma {:induction false} TrimStartBlank(w: string, s: string)
    requires Blank(w)
    ensures TrimStart(w + s) == TrimStart(s)
  {
    hide IsSpace;
    if w == "" {
      assert w + s == s;
    } else {
      assert (w + s)[1..] == w[1..] + s;
      TrimStartBlank(w[1..], s);
    }
  }

  lemma {:induction false} TrimEndBlank(s: string, w: string)
    requires Blank(w)
    ensures TrimEnd(s + w) == TrimEnd(s)
  {
    hide IsSpace;
    if w == "" {
      assert s + w == s;
    } else {
      assert (s + w)[..|s + w| - 1] == s + w[..|w| - 1];
      TrimEndBlank(s, w[..|w| - 1]);
    }
  }

  lemma TrimEndTwice(s: string)
    ensures TrimEnd(TrimEnd(s)) == TrimEnd(s)
  {
    hide IsSpace;
    TrimEndUnique(TrimEnd(s), "");
    assert TrimEnd(s) + "" == TrimEnd(s);
  }

  /** Trimming the front cuts into the first line when that line is not blank, and leaves the others alone. */
  lemma TrimStartCuts(s: string) returns (u: string, cut: string)
    requires !Blank(FirstLine(s))
    ensures FirstLine(s) == u + cut && Blank(u) && cut != "" && !IsSpace(cut[0])
    ensures TrimStart(s) == cut + AfterLine(s)
    ensures FirstLine(TrimStart(s)) == cut && AfterLine(TrimStart(s)) == AfterLine(s)
  {
    hide IsSpace, FirstLine, AfterLine, TrimStart, Terminated;
    var first, rest := FirstLine(s), AfterLine(s);
    u := TrimStartParts(first);
    cut := TrimStart(first);
    assert cut != "" by { assert cut == "" ==> first == u; }
    assert s == u + (cut + rest);
    TrimStartUnique(u, cut + rest);
    LineTail(u, cut);
    if '\n' in s {
      CutLine(cut, rest);
    } else {
      assert cut + rest == cut && '\n' !in first;
      CutLast(cut);
    }
  }

  /** What is left of a line when its front is cut off is a line of the same kind. */
  lemma LineTail(u: string, cut: string)
    requires cut != ""
    ensures Terminated(u + cut) ==> Terminated(cut)
    ensures '\n' !in u + cut ==> '\n' !in cut
  {
    assert (u + cut)[..|u + cut| - 1] == u + cut[..|cut| - 1];
  }

  lemma {:induction false} NoRuleTrimStart(s: string)
    requires NoRule(s) && !OpensWithRule(s)
    ensures NoRule(TrimStart(s))
    decreases |s|
  {
    hide IsSpace, FirstLine, AfterLine, IsRule, TrimStart;
    if s == "" {
      TrimStartEmpty();
    } else if Blank(FirstLine(s)) {
      TrimStartBlank(FirstLine(s), AfterLine(s));
      NoRuleTrimStart(AfterLine(s));
    } else {
      var u, cut := TrimStartCuts(s);
    }
  }

  lemma TrimStartEmpty()
    ensures TrimStart("") == "" && TrimEnd("") == "" && Trim("") == ""
  {
  }

  /** Trimming the end trims the last line that is not blank and drops the blank ones after it. */
  lemma TrimEndCuts(s: string)
    ensures TrimEnd(s) == if Blank(AfterLine(s)) then TrimEnd(FirstLine(s)) else FirstLine(s) + TrimEnd(AfterLine(s))
  {
    hide IsSpace, FirstLine, AfterLine, TrimEnd;
    var first, rest := FirstLine(s), AfterLine(s);
    if Blank(rest) {
      TrimEndBlank(first, rest);
    } else {
      var w := TrimEndParts(rest);
      var t := TrimEnd(rest);
      assert t != "" by { assert t == "" ==> rest == w; }
      assert s == (first + t) + w;
      TrimEndUnique(first + t, w);
    }
  }

  lemma TrimmedLine(line: string)
    requires Terminated(line) || '\n' !in line
    ensures '\n' !in TrimEnd(line) && Terminated(TrimEnd(line) + "\n")
    ensures FirstLine(TrimEnd(line) + "\n") == TrimEnd(line) + "\n" && AfterLine(TrimEnd(line) + "\n") == ""
  {
    hide TrimEnd, FirstLine, AfterLine;
    var t := TrimEnd(line);
    assert t == line[..|t|];
    if Terminated(line) {
      assert |t| < |line| by { assert |t| == |line| ==> t == line; }
      assert t == line[..|line| - 1][..|t|];
    }
    Terminate(t);
    CutLine(t + "\n", "");
    assert t + "\n" + "" == t + "\n";
  }

  lemma RuleTrimmed(line: string)
    ensures IsRule(TrimEnd(line) + "\n") <==> IsRule(line)
  {
    hide TrimEnd;
    TrimEndBlank(TrimEnd(line), "\n");
    TrimEndTwice(line);
  }

  lemma BlankIsNoRule()
    ensures !IsRule("")
  {
  }

  lemma {:induction false} NoRuleTrimEnd(s: string)
    requires NoRule(s)
    ensures NoRule(TrimEnd(s) + "\n")
    decreases |s|
  {
    hide IsSpace, FirstLine, AfterLine, TrimEnd, IsRule;
    var first, rest := FirstLine(s), AfterLine(s);
    TrimEndCuts(s);
    if Blank(rest) {
      TrimmedLine(first);
      RuleTrimmed(first);
      if s == "" { BlankIsNoRule(); }
    } else {
      NoRuleTrimEnd(rest);
      assert TrimEnd(s) + "\n" == first + (TrimEnd(rest) + "\n");
      CutLine(first, TrimEnd(rest) + "\n");
    }
  }

  // ----- the round trip

  /** A rule line, then more. */
  lemma CutAtLeadingRule(more: string)
    ensures CutAtRule("---\n" + more) == Some(("", more))
  {
    hide FirstLine, AfterLine, TrimEnd;
    assert "---\n"[..3] == "---";
    CutLine("---\n", more);
    assert "---" + "\n" == "---\n";
    TrimEndUnique("---", "\n");
  }

  lemma CutAfter(s: string, more: string)
    requires WholeLines(s) && NoRule(s)
    ensures CutAtRule(s + ("---\n" + more)) == Some((s, more))
  {
    hide CutAtRule, NoRule;
    CutAtLeadingRule(more);
    RuleAfter(s, "---\n" + more);
    assert s + "" == s;
  }

  lemma DropOne(body: string)
    ensures DropNewlines("\n" + body) == DropNewlines(body)
  {
    assert ("\n" + body)[1..] == body;
  }

  /** What the splitter sees of a materialized file after its opening line. */
  lemma MaterializedRest(fm: string, body: string)
    ensures OpensFrontmatter(Materialize(fm, body))
    ensures AfterLine(Materialize(fm, body)) == Trim(fm) + "\n" + ("---\n" + ("\n" + body))
  {
    hide FirstLine, AfterLine, Trim;
    var m := Materialize(fm, body);
    var rest := Trim(fm) + "\n" + ("---\n" + ("\n" + body));
    assert m == "---\n" + rest;
    assert "---\n"[..3] == "---";
    CutLine("---\n", rest);
    assert m[..4] == "---\n";
  }

  lemma SplitMaterialized(fm: string, body: string)
    requires NoRule(fm) && DropNewlines(body) == body && !OpensWithRule(fm)
    ensures Split(Materialize(fm, body)) == (Some(Trim(fm) + "\n"), body)
  {
    hide FirstLine, AfterLine, NoRule, TrimEnd, TrimStart, DropNewlines, CutAtRule, OpensWithRule, OpensFrontmatter;
    hide Materialize;
    MaterializedRest(fm, body);
    NoRuleTrimStart(fm);
    NoRuleTrimEnd(TrimStart(fm));
    CutAfter(Trim(fm) + "\n", "\n" + body);
    DropOne(body);
  }

  lemma RuleFirst(line: string, tail: string)
    requires Terminated(line) && IsRule(line)
    ensures CutAtRule(line + tail) == Some(("", tail))
  {
    hide FirstLine, AfterLine, IsRule;
    CutLine(line, tail);
  }

  lemma RuleIsNotEmpty(line: string)
    requires IsRule(line)
    ensures line != "" && TrimEnd(line) != ""
  {
    TrimStartEmpty();
  }

  /** Trimmed frontmatter that opens with a rule, up to the end of its first line. */
  lemma OpeningRule(fm: string) returns (line: string, more: string)
    requires OpensWithRule(fm)
    ensures Terminated(line) && IsRule(line) && Trim(fm) + "\n" == line + more && Trim(fm) != ""
  {
    hide FirstLine, AfterLine, TrimEnd, TrimStart, IsRule;
    var s := TrimStart(fm);
    var first, rest := FirstLine(s), AfterLine(s);
    RuleIsNotEmpty(first);
    TrimEndCuts(s);
    if Blank(rest) {
      TrimmedLine(first);
      RuleTrimmed(first);
      line, more := TrimEnd(first) + "\n", "";
      assert line + more == line;
    } else {
      line, more := first, TrimEnd(rest) + "\n";
    }
  }

  /** Frontmatter that opens with a rule closes itself when printed, so nothing of it is read back. */
  lemma SplitSelfClosed(fm: string, body: string)
    requires OpensWithRule(fm)
    ensures Split(Materialize(fm, body)).0 == Some("") && Trim(fm) != ""
  {
    hide FirstLine, AfterLine, Trim, IsRule, DropNewlines, OpensFrontmatter, OpensWithRule, Materialize, CutAtRule;
    var tail := "---\n" + ("\n" + body);
    MaterializedRest(fm, body);
    var line, more := OpeningRule(fm);
    assert Trim(fm) + "\n" + tail == line + (more + tail);
    RuleFirst(line, more + tail);
  }

  /**
   Import, materialize, import: for every file with frontmatter, splitting the materialized text gives back the same
   body and the frontmatter up to surrounding white space, if and only if the frontmatter does not open with a rule;
   and then materializing once more writes the same bytes.
   */
  lemma ImportMaterializeImport(raw: string, name: string, description: string)
    requires Split(raw).0.Some?
    ensures var (fm, body) := (Split(raw).0.value, Split(raw).1);
      var printed := Reconstruct(Some(fm), name, description, body);
      var again := Split(printed);
      && ((again.0.Some? && Trim(again.0.value) == Trim(fm) && again.1 == body) <==> !OpensWithRule(fm))
      && (!OpensWithRule(fm) ==> again.0.Some? && Reconstruct(again.0, name, description, again.1) == printed)
  {
    hide FirstLine, AfterLine, IsRule, TrimEnd, TrimStart, DropNewlines, CutAtRule, OpensWithRule, OpensFrontmatter;
    var fm, body := Split(raw).0.value, Split(raw).1;
    var cut := CutAtRule(AfterLine(raw)).value;
    BeforeRule(AfterLine(raw));
    DropTwice(cut.1);
    if OpensWithRule(fm) {
      SplitSelfClosed(fm, body);
      TrimStartEmpty();
    } else {
      SplitMaterialized(fm, body);
      TrimNewline(Trim(fm));
    }
  }

  /** Files that fail exist, although the splitter stops at every rule: an indented rule is none until it is trimmed. */
  lemma IndentedRuleIsLost()
    ensures Split("---\n ---\n---\n") == (Some(" ---\n"), "") && OpensWithRule(" ---\n")
    ensures Split(Materialize(" ---\n", "")).0 == Some("")
  {
    hide Materialize, Split, OpensWithRule;
    IndentedSplits(" ---\n");
    assert "---\n ---\n---\n" == "---\n" + (" ---\n" + ("---\n" + ""));
    SplitSelfClosed(" ---\n", "");
  }

  lemma IndentedSplits(line: string)
    requires line == " ---\n"
    ensures Split("---\n" + (line + ("---\n" + ""))) == (Some(line), "") && OpensWithRule(line)
  {
    hide FirstLine, AfterLine, NoRule, CutAtRule, OpensWithRule;
    var rest := line + ("---\n" + "");
    assert "---\n"[..3] == "---";
    CutLine("---\n", rest);
    assert ("---\n" + rest)[..4] == "---\n";
    IndentedLine(line);
    IndentedOpens(line);
    CutAfter(line, "");
  }

  lemma IndentedLine(line: string)
    requires line == " ---\n"
    ensures WholeLines(line) && NoRule(line)
  {
    hide FirstLine, AfterLine, TrimEnd;
    assert line[..4] == " ---" && line == line + "" && line == " ---" + "\n";
    CutLine(line, "");
    TrimEndUnique(" ---", "\n");
    assert NoRule("");
  }

  lemma IndentedOpens(line: string)
    requires line == " ---\n"
    ensures OpensWithRule(line)
  {
    hide OpensWithRule, IsRule, Terminated;
    RuleLine();
    assert line == " " + "---\n";
    OpensIndented(" ", "---\n");
  }

  lemma OpensIndented(indent: string, rule: string)
    requires Blank(indent) && Terminated(rule) && IsRule(rule) && !IsSpace(rule[0])
    ensures OpensWithRule(indent + rule)
  {
    hide FirstLine, AfterLine, TrimStart, IsRule, IsSpace, Terminated;
    TrimStartUnique(indent, rule);
    assert rule == rule + "";
    CutLine(rule, "");
  }

  lemma RuleLine()
    ensures Terminated("---\n") && IsRule("---\n")
  {
    hide TrimEnd;
    assert "---\n"[..3] == "---" && "---\n" == "---" + "\n";
    TrimEndUnique("---", "\n");
  }

  lemma TrimNewline(t: string)
    requires Trimmed(t)
    ensures Trim(t + "\n") == t
  {
    hide Trim;
    assert t + "\n" == "" + t + "\n";
    TrimUnique("", t, "\n");
  }

  lemma DropTwice(s: string)
    ensures DropNewlines(DropNewlines(s)) == DropNewlines(s)
  {
  }

  // ----- scalars

  /** A line as `str::lines` yields it, without its line break. */
  function LineText(line: string): (text: string)
  {
    if !Terminated(line) then line
    else if 1 < |line| && line[|line| - 2] == '\r' then line[..|line| - 2]
    else line[..|line| - 1]
  }

  function Unquote(v: string, quote: char): (r: Option<string>)
  {
    if 2 <= |v| && v[0] == quote && v[|v| - 1] == quote then Some(v[1..|v| - 1]) else None
  }

  /** The value of a `key: value` line: nothing to say about other lines, and no value when it is empty. */
  function ValueOf(rest: string): (r: Option<string>)
  {
    var v := Trim(rest);
    var u := match Unquote(v, '"')
      case Some(inner) => inner
      case None => match Unquote(v, '\'') case Some(inner) => inner case None => v;
    if u == "" then None else Some(u)
  }

  /** What a line contributes: `None` to look further, `Some` to stop with that answer. */
  function Probe(text: string, key: string): (r: Option<Option<string>>)
  {
    ProbeTrimmed(TrimStart(text), key)
  }

  function ProbeTrimmed(trimmed: string, key: string): (r: Option<Option<string>>)
  {
    if !StartsWith(trimmed, key + ":") then None
    else
      var rest := trimmed[|key| + 1..];
      if rest != "" && rest[0] != ' ' && rest[0] != '\t' then None else Some(ValueOf(rest))
  }

  /** `extract_yaml_scalar`. */
  function Scalar(fm: string, key: string): (r: Option<string>)
    decreases |fm|
  {
    if fm == "" then None
    else match Probe(LineText(FirstLine(fm)), key)
      case Some(answer) => answer
      case None => Scalar(AfterLine(fm), key)
  }

  lemma BlankText(line: string)
    requires Blank(line)
    ensures Blank(LineText(line))
  {
  }

  lemma ProbeBlank(text: string, key: string)
    requires Blank(text)
    ensures Probe(text, key) == None
  {
    hide IsSpace, TrimStart;
    assert text + "" == text;
    TrimStartUnique(text, "");
  }

  lemma {:induction false} ScalarBlank(fm: string, key: string)
    requires Blank(fm)
    ensures Scalar(fm, key) == None
    decreases |fm|
  {
    hide IsSpace, FirstLine, AfterLine, Probe, LineText;
    if fm != "" {
      var first, rest := FirstLine(fm), AfterLine(fm);
      assert forall i :: 0 <= i < |first| ==> first[i] == fm[i];
      assert forall i :: 0 <= i < |rest| ==> rest[i] == fm[|first| + i];
      BlankText(FirstLine(fm));
      ProbeBlank(LineText(FirstLine(fm)), key);
      ScalarBlank(AfterLine(fm), key);
    }
  }

  lemma LineTextIndent(u: string, cut: string)
    requires Blank(u) && cut != "" && !IsSpace(cut[0])
    requires Terminated(u + cut) || '\n' !in u + cut
    ensures LineText(u + cut) == u + LineText(cut)
  {
    var line := u + cut;
    if Terminated(line) {
      assert line[..|line| - 1] == u + cut[..|cut| - 1];
      assert 1 < |cut|;
      assert line[|line| - 2] == cut[|cut| - 2];
    } else {
      assert '\n' !in cut;
    }
  }

  lemma ProbeIndent(u: string, text: string, key: string)
    requires Blank(u)
    ensures Probe(u + text, key) == Probe(text, key)
  {
    hide IsSpace, TrimStart, ValueOf;
    TrimStartBlank(u, text);
  }

  lemma {:induction false} ScalarTrimStart(s: string, key: string)
    ensures Scalar(TrimStart(s), key) == Scalar(s, key)
    decreases |s|
  {
    hide IsSpace, FirstLine, AfterLine, TrimStart, Probe, LineText;
    if s == "" {
      TrimStartEmpty();
    } else if Blank(FirstLine(s)) {
      TrimStartBlank(FirstLine(s), AfterLine(s));
      ScalarTrimStart(AfterLine(s), key);
      BlankText(FirstLine(s));
      ProbeBlank(LineText(FirstLine(s)), key);
    } else {
      var u, cut := TrimStartCuts(s);
      LineTextIndent(u, cut);
      ProbeIndent(u, LineText(cut), key);
    }
  }

  function Answer(p: Option<Option<string>>): Option<string> {
    match p case None => None case Some(answer) => answer
  }

  /** A key and its colon are not completed by white space. */
  lemma PrefixTail(a: string, w: string, key: string)
    requires Blank(w)
    ensures var p := key + ":";
      && (StartsWith(a + w, p) <==> StartsWith(a, p))
      && (StartsWith(a, p) ==> |p| <= |a| && (a + w)[|p|..] == a[|p|..] + w)
  {
    var p := key + ":";
    assert p[|key|] == ':' && !IsSpace(':');
    hide IsSpace;
    if |p| <= |a| {
      assert (a + w)[..|p|] == a[..|p|];
    }
    assert forall i :: |a| <= i < |a + w| ==> (a + w)[i] == w[i - |a|];
  }

  /** White space behind the text of a line changes at most whether an empty value stops the search. */
  lemma ProbeTail(t: string, w: string, key: string)
    requires Blank(w) && (t != "" ==> !IsSpace(t[|t| - 1]))
    ensures Answer(Probe(t + w, key)) == Answer(Probe(t, key))
  {
    hide TrimStart, IsSpace, ProbeTrimmed;
    if t == "" {
      assert t + w == w;
      ProbeBlank(w, key);
      ProbeBlank(t, key);
    } else {
      var u := TrimStartParts(t);
      var a := TrimStart(t);
      assert a != "" by { assert a == "" ==> t == u; }
      assert t + w == u + (a + w);
      TrimStartUnique(u, a + w);
      TrimmedTail(a, w, key);
    }
  }

  lemma TrimmedTail(a: string, w: string, key: string)
    requires Blank(w)
    ensures Answer(ProbeTrimmed(a + w, key)) == Answer(ProbeTrimmed(a, key))
  {
    hide Unquote, Trim, StartsWith, IsSpace;
    PrefixTail(a, w, key);
    if StartsWith(a, key + ":") {
      var rest := a[|key| + 1..];
      TrimTail(rest, w);
      if rest == "" {
        assert rest + w == w;
        TrimEmpty(w);
      }
    }
  }

  lemma TrimEmpty(w: string)
    requires Blank(w)
    ensures Trim(w) == "" && Trim("") == "" && Unquote("", '"') == None && Unquote("", '\'') == None
  {
    hide Trim;
    assert w + "" + "" == w && "" + "" + "" == "";
    TrimUnique(w, "", "");
    TrimUnique("", "", "");
  }

  /** The line break `LineText` drops is white space. */
  lemma LineBreak(line: string) returns (v: string)
    ensures line == LineText(line) + v && Blank(v)
  {
    v := line[|LineText(line)|..];
  }

  lemma LineTextOfTrimmed(t: string)
    requires '\n' !in t && (t != "" ==> !IsSpace(t[|t| - 1]))
    ensures LineText(t + "\n") == t
  {
    var line := t + "\n";
    Terminate(t);
    assert line[..|line| - 1] == t;
    assert t != "" ==> line[|line| - 2] == t[|t| - 1];
  }

  /** The text of a line is its trimmed text and white space. */
  lemma LineTextParts(line: string) returns (w: string)
    requires Terminated(line) || '\n' !in line
    ensures LineText(line) == TrimEnd(line) + w && Blank(w)
    ensures LineText(TrimEnd(line) + "\n") == TrimEnd(line)
  {
    hide TrimEnd, FirstLine, AfterLine, LineText, IsSpace;
    var v := LineBreak(line);
    TrimEndBlank(LineText(line), v);
    w := TrimEndParts(LineText(line));
    TrimmedLine(line);
    LineTextOfTrimmed(TrimEnd(line));
  }

  lemma {:induction false} ScalarTrimEnd(s: string, key: string)
    ensures Scalar(TrimEnd(s) + "\n", key) == Scalar(s, key)
    decreases |s|
  {
    hide IsSpace, FirstLine, AfterLine, TrimEnd, Probe, LineText;
    var first, rest := FirstLine(s), AfterLine(s);
    TrimEndCuts(s);
    if Blank(rest) {
      TrimmedLine(first);
      var w := LineTextParts(first);
      ProbeTail(TrimEnd(first), w, key);
      ScalarBlank(rest, key);
      if s == "" {
        TrimStartEmpty();
        ProbeBlank("", key);
      }
    } else {
      ScalarTrimEnd(rest, key);
      assert TrimEnd(s) + "\n" == first + (TrimEnd(rest) + "\n");
      CutLine(first, TrimEnd(rest) + "\n");
    }
  }

  /**
   The round trip keeps a scalar of the frontmatter, `name` and `description` among them, if and only if the
   frontmatter does not open with a rule or has no such scalar to lose.
   */
  lemma ScalarsSurvive(raw: string, key: string, name: string, description: string)
    requires Split(raw).0.Some?
    ensures var (fm, body) := (Split(raw).0.value, Split(raw).1);
      var again := Split(Reconstruct(Some(fm), name, description, body)).0;
      again.Some? && (Scalar(again.value, key) == Scalar(fm, key) <==> !OpensWithRule(fm) || Scalar(fm, key) == None)
  {
    hide FirstLine, AfterLine, IsRule, TrimEnd, TrimStart, DropNewlines, CutAtRule, OpensWithRule, OpensFrontmatter;
    hide Materialize;
    var fm, body := Split(raw).0.value, Split(raw).1;
    if OpensWithRule(fm) {
      SplitSelfClosed(fm, body);
      assert Scalar("", key) == None;
    } else {
      hide Scalar;
      BeforeRule(AfterLine(raw));
      DropTwice(CutAtRule(AfterLine(raw)).value.1);
      SplitMaterialized(fm, body);
      ScalarTrimStart(fm, key);
      ScalarTrimEnd(TrimStart(fm), key);
    }
  }

  // ----- frontmatter made up from name and description

  /** A value that a `key: value` line gives back as it is. */
  predicate PlainValue(v: string) {
    v != "" && Trimmed(v) && Unquote(v, '"') == None && Unquote(v, '\'') == None
  }

  lemma ValueIsPlain(v: string, rest: string)
    requires Trim(rest) == Trim(v)
    ensures ValueOf(rest) == Some(v) <==> PlainValue(v)
  {
    hide Trim;
    if Trimmed(v) { TrimIdempotent(v); }
  }

  /** The text of a `key: value` line, a carriage return at its end dropped. */
  lemma PairText(key: string, v: string) returns (cut: string)
    requires '\n' !in key && '\n' !in v
    ensures LineText(Pair(key, v) + "\n") == key + ": " + cut && (v == cut || v == cut + "\r")
  {
    var pair := Pair(key, v);
    var line := pair + "\n";
    Terminate(pair);
    if v != "" && v[|v| - 1] == '\r' {
      cut := v[..|v| - 1];
      assert line[..|line| - 2] == key + ": " + cut;
    } else {
      cut := v;
      assert line[..|line| - 1] == pair;
      assert pair[|pair| - 1] == if v == "" then ' ' else v[|v| - 1];
    }
  }

  /** The line of a key answers for that key, with its value exactly when the value is plain. */
  lemma ProbeOwnKey(key: string, v: string)
    requires key != "" && !IsSpace(key[0]) && '\n' !in key && '\n' !in v
    ensures var p := Probe(LineText(Pair(key, v) + "\n"), key);
      && p.Some? && (p.value == Some(v) <==> PlainValue(v))
      && (p.value.Some? ==> '\n' !in p.value.value)
  {
    hide Trim, TrimStart, ValueOf, IsSpace, LineText, Pair;
    var cut := PairText(key, v);
    var text := key + ": " + cut;
    assert text == "" + text;
    TrimStartUnique("", text);
    assert text[..|key| + 1] == key + ":" && text[|key| + 1..] == " " + cut;
    SpaceAround(cut, v);
    ValueIsPlain(v, " " + cut);
    ValueWithin(" " + cut);
  }

  /** A value is part of its line. */
  lemma ValueWithin(rest: string)
    requires '\n' !in rest
    ensures ValueOf(rest).Some? ==> '\n' !in ValueOf(rest).value
  {
    hide Trim;
    var a, b := TrimParts(rest);
    assert '\n' !in a + Trim(rest) + b;
  }

  /** A space in front and a carriage return behind do not change what trimming leaves. */
  lemma SpaceAround(cut: string, v: string)
    requires v == cut || v == cut + "\r"
    ensures Trim(" " + cut) == Trim(v)
  {
    hide Trim;
    var a, b := TrimParts(cut);
    assert " " + cut == (" " + a) + Trim(cut) + b;
    TrimUnique(" " + a, Trim(cut), b);
    TrimTail(cut, "\r");
  }

  lemma ProbeOtherKey(key: string, v: string, other: string)
    requires key != "" && !IsSpace(key[0]) && '\n' !in key && '\n' !in v
    requires other != "" && other[0] != key[0]
    ensures Probe(LineText(Pair(key, v) + "\n"), other) == None
  {
    hide TrimStart, IsSpace, ValueOf, LineText, Pair;
    var cut := PairText(key, v);
    var text := key + ": " + cut;
    assert text[0] == key[0];
    assert text == "" + text;
    TrimStartUnique("", text);
    assert (other + ":")[0] == other[0];
  }

  lemma PairIsNoRule(key: string, v: string)
    requires key != "" && !IsSpace(key[0]) && key[0] != '-'
    ensures !IsRule(Pair(key, v) + "\n")
  {
    hide TrimEnd;
    var line := Pair(key, v) + "\n";
    var w := TrimEndParts(line);
    assert TrimEnd(line) != "" ==> TrimEnd(line)[0] == line[0];
  }

  /** A text up to its first newline. */
  function Head(v: string): (r: string)
    ensures '\n' !in r && r + "\n" == FirstLine(v + "\n")
  {
    hide FirstLine;
    assert (v + "\n")[|v|] == '\n';
    FirstLine(v + "\n")[..|FirstLine(v + "\n")| - 1]
  }

  /** No line of the text after its first is a rule. */
  predicate NoInnerRule(v: string) {
    NoRule(AfterLine(v + "\n"))
  }

  /** The first line of a pair is no rule, and holds the value up to its first newline. */
  lemma PairLines(key: string, v: string)
    requires key != "" && !IsSpace(key[0]) && key[0] != '-' && '\n' !in key
    ensures var pair := Pair(key, v) + "\n";
      && pair == Pair(key, Head(v)) + "\n" + AfterLine(v + "\n") && Terminated(Pair(key, Head(v)) + "\n")
      && WholeLines(AfterLine(v + "\n")) && !IsRule(Pair(key, Head(v)) + "\n")
  {
    hide FirstLine, AfterLine, IsRule;
    WholeLinesCut(v + "\n");
    Terminate(Pair(key, Head(v)));
    PairIsNoRule(key, Head(v));
    assert Pair(key, v) + "\n" == key + ": " + (v + "\n");
    assert v + "\n" == Head(v) + "\n" + AfterLine(v + "\n");
  }

  lemma {:induction false} NoRuleSplits(a: string, b: string)
    requires WholeLines(a)
    ensures NoRule(a + b) <==> NoRule(a) && NoRule(b)
    decreases |a|
  {
    hide FirstLine, AfterLine, IsRule;
    if a == "" {
      assert a + b == b;
    } else {
      WholeLinesCut(a);
      var first, rest := FirstLine(a), AfterLine(a);
      assert a + b == first + (rest + b);
      CutLine(first, rest + b);
      NoRuleSplits(rest, b);
    }
  }

  lemma NoRuleAfterLine(line: string, rest: string)
    requires Terminated(line) && !IsRule(line)
    ensures NoRule(line + rest) <==> NoRule(rest)
    ensures Closed(line + rest) == line + Closed(rest)
  {
    hide FirstLine, AfterLine, IsRule;
    CutLine(line, rest);
  }

  /** The made-up frontmatter has a rule in it exactly when a later line of the name or the description is one. */
  lemma TwoPairs(name: string, description: string)
    ensures var fm := NameAndDescription(name, description);
      && WholeLines(fm) && (NoRule(fm) <==> NoInnerRule(name) && NoInnerRule(description))
  {
    hide FirstLine, AfterLine, IsRule, NoRule, Pair, Terminated, Closed;
    var first, second := Pair("name", name) + "\n", Pair("description", description) + "\n";
    var line, inner := Pair("name", Head(name)) + "\n", AfterLine(name + "\n");
    var line', inner' := Pair("description", Head(description)) + "\n", AfterLine(description + "\n");
    PairLines("name", name);
    PairLines("description", description);
    assert first == line + inner && second == line' + inner';
    NoRuleAfterLine(line', inner');
    NoRuleSplits(inner, second);
    NoRuleAfterLine(line, inner + second);
    assert first + second == line + (inner + second);
    WholeLinesOf(first, second);
  }

  lemma WholeLinesOf(a: string, b: string)
    requires WholeLines(b) && b != ""
    ensures WholeLines(a + b)
  {
  }

  /** What of a text stands before its first rule: all of it when there is none. */
  function Closed(s: string): string {
    match CutAtRule(s) case None => s case Some((before, _)) => before
  }

  lemma {:induction false} NoRuleIsUncut(s: string)
    ensures NoRule(s) <==> CutAtRule(s) == None
    decreases |s|
  {
    hide FirstLine, AfterLine, IsRule;
    if s != "" { NoRuleIsUncut(AfterLine(s)); }
  }

  /** A rule inside a text closes it, whatever follows. */
  lemma {:induction false} CutWithin(s: string, more: string)
    requires WholeLines(s) && CutAtRule(s).Some?
    ensures CutAtRule(s + more) == Some((CutAtRule(s).value.0, CutAtRule(s).value.1 + more))
    decreases |s|
  {
    hide FirstLine, AfterLine, IsRule;
    WholeLinesCut(s);
    var first, rest := FirstLine(s), AfterLine(s);
    assert s + more == first + (rest + more);
    CutLine(first, rest + more);
    if !IsRule(first) { CutWithin(rest, more); }
  }

  lemma SynthesizedSplit(name: string, description: string, body: string)
    ensures var (fm, split) := (NameAndDescription(name, description), Split(Synthesize(name, description, body)));
      && split.0 == Some(Closed(fm)) && (NoRule(fm) <==> CutAtRule(fm) == None)
      && split.1 == match CutAtRule(fm)
           case None => DropNewlines(body)
           case Some((before, after)) => DropNewlines(after + ("---\n" + ("\n" + body)))
  {
    hide FirstLine, AfterLine, DropNewlines, CutAtRule, NameAndDescription, NoRule, NoInnerRule;
    var fm := NameAndDescription(name, description);
    var tail := "---\n" + ("\n" + body);
    TwoPairs(name, description);
    assert "---\n"[..3] == "---";
    CutLine("---\n", fm + tail);
    assert ("---\n" + (fm + tail))[..4] == "---\n";
    NoRuleIsUncut(fm);
    if NoRule(fm) {
      CutAfter(fm, "\n" + body);
      DropOne(body);
    } else {
      CutWithin(fm, tail);
    }
  }

  lemma {:induction false} DropKeeps(a: string, b: string)
    requires b != "" && b[0] != '\n'
    ensures |DropNewlines(a + b)| >= |b|
    ensures |DropNewlines(b)| == |b|
  {
    if a == "" {
      assert a + b == b;
    } else {
      assert (a + b)[1..] == a[1..] + b;
      DropKeeps(a[1..], b);
    }
  }

  lemma {:induction false} DropShrinks(s: string)
    ensures |DropNewlines(s)| <= |s|
  {
    if s != "" { DropShrinks(s[1..]); }
  }

  lemma ScalarOfFirst(line: string, rest: string, key: string)
    requires Terminated(line)
    ensures Scalar(line + rest, key) == match Probe(LineText(line), key)
                                        case Some(answer) => answer
                                        case None => Scalar(rest, key)
  {
    hide FirstLine, AfterLine, Probe, LineText;
    CutLine(line, rest);
  }

  /** A pair anywhere at the front of closed frontmatter answers for its key. */
  lemma PairAnswers(key: string, v: string, more: string)
    requires key != "" && !IsSpace(key[0]) && key[0] != '-' && '\n' !in key
    ensures Scalar(Closed(Pair(key, v) + "\n" + more), key) == Some(v) <==> PlainValue(v) && '\n' !in v
  {
    hide FirstLine, AfterLine, IsRule, Pair, Probe, LineText, PlainValue, Closed, Scalar, IsSpace, CutAtRule;
    var line, rest := Pair(key, Head(v)) + "\n", AfterLine(v + "\n") + more;
    PairLines(key, v);
    assert Pair(key, v) + "\n" + more == line + rest;
    NoRuleAfterLine(line, rest);
    ScalarOfFirst(line, Closed(rest), key);
    ProbeOwnKey(key, Head(v));
    if '\n' !in v { HeadIsAll(v); }
  }

  lemma HeadIsAll(v: string)
    requires '\n' !in v
    ensures Head(v) == v && AfterLine(v + "\n") == ""
  {
    hide FirstLine, AfterLine;
    Terminate(v);
    assert v + "\n" + "" == v + "\n";
    CutLine(v + "\n", "");
  }

  /**
   Importing a file made up from a skill's name and description, whatever they are: the body comes back, without leading
   line breaks, exactly when no later line of either is a rule; the name comes back exactly when it is plain text on one
   line, and after such a name the description does too.
   */
  lemma SynthesizedReadsBack(name: string, description: string, body: string)
    ensures var (fm, again) := Split(Reconstruct(None, name, description, body));
      && fm.Some? && (again == DropNewlines(body) <==> NoInnerRule(name) && NoInnerRule(description))
      && (Scalar(fm.value, "name") == Some(name) <==> PlainValue(name) && '\n' !in name)
      && ('\n' !in name ==>
            (Scalar(fm.value, "description") == Some(description) <==> PlainValue(description) && '\n' !in description))
  {
    hide FirstLine, AfterLine, Split, Synthesize, Probe, LineText, PlainValue, Pair, DropNewlines, NoInnerRule, Scalar;
    hide CutAtRule;
    hide IsRule, NoRule, Closed;
    var fm := NameAndDescription(name, description);
    SynthesizedSplit(name, description, body);
    TwoPairs(name, description);
    if !NoRule(fm) {
      DropKeeps(CutAtRule(fm).value.1, "---\n" + ("\n" + body));
      DropShrinks(body);
    }
    var second := Pair("description", description) + "\n";
    PairAnswers("name", name, second);
    if '\n' !in name {
      DescriptionAnswers(name, description);
    }
  }

  lemma DescriptionAnswers(name: string, description: string)
    requires '\n' !in name
    ensures Scalar(Closed(NameAndDescription(name, description)), "description") == Some(description)
       <==> PlainValue(description) && '\n' !in description
  {
    hide FirstLine, AfterLine, Probe, LineText, PlainValue, Pair, Scalar, CutAtRule, Closed, IsRule;
    var first, second := Pair("name", name) + "\n", Pair("description", description) + "\n";
    HeadIsAll(name);
    PairLines("name", name);
    NoRuleAfterLine(first, second);
    ScalarOfFirst(first, Closed(second), "description");
    ProbeOtherKey("name", name, "description");
    assert second + "" == second;
    PairAnswers("description", description, "");
  }

  /** A description that closes the frontmatter early: its last line leaks into the body. */
  lemma DescriptionLeaks()
    ensures !NoInnerRule("x\n---\ny") && NoInnerRule("x")
  {
    hide FirstLine, AfterLine, TrimEnd;
    Terminate("x");
    assert "x\n---\ny" + "\n" == "x" + "\n" + "---\ny\n" && "x" + "\n" + "" == "x" + "\n";
    CutLine("x" + "\n", "---\ny\n");
    CutLine("x" + "\n", "");
    CutAtLeadingRule("y\n");
    assert "---\n" + "y\n" == "---\ny\n";
    NoRuleIsUncut("---\ny\n");
    assert NoRule("");
  }

  // ----- the splitter, over any file

  /** Three hyphens and nothing but white space behind them. */
  ghost predicate RuleLike(line: string) {
    exists w :: Blank(w) && line == "---" + w
  }

  lemma RuleIsRuleLike(line: string)
    ensures IsRule(line) <==> RuleLike(line)
  {
    hide IsSpace, TrimEnd;
    var w := TrimEndParts(line);
    if RuleLike(line) {
      var w' :| Blank(w') && line == "---" + w';
      HyphenIsNoSpace();
      TrimEndUnique("---", w');
    }
  }

  lemma HyphenIsNoSpace()
    ensures !IsSpace('-')
  {
  }

  ghost predicate NoneRuleLike(lines: seq<Line>) {
    forall i :: 0 <= i < |lines| ==> !RuleLike(lines[i].text)
  }

  /** Whole lines of which none is a rule. */
  ghost predicate Ruleless(front: string) {
    WholeLines(front) && NoneRuleLike(Lines(front, 0))
  }

  lemma {:induction false} NoRuleByLines(s: string, base: nat)
    ensures NoRule(s) <==> NoneRuleLike(Lines(s, base))
    decreases |s|
  {
    hide FirstLine, AfterLine, IsRule, RuleLike;
    if s != "" {
      var rest := Lines(AfterLine(s), base + |FirstLine(s)|);
      hide NoneRuleLike;
      NoRuleByLines(AfterLine(s), base + |FirstLine(s)|);
      RuleIsRuleLike(FirstLine(s));
      RulelessCons(Line(base, FirstLine(s)), rest);
    }
  }

  lemma RulelessCons(line: Line, rest: seq<Line>)
    ensures NoneRuleLike([line] + rest) <==> !RuleLike(line.text) && NoneRuleLike(rest)
  {
    hide RuleLike;
    var lines := [line] + rest;
    assert lines[0] == line;
    assert forall i :: 0 <= i < |rest| ==> lines[i + 1] == rest[i];
    assert forall i :: 0 < i < |lines| ==> lines[i] == rest[i - 1];
  }

  /** The first rule line cuts, wherever it stands and whatever white space ends it. */
  lemma CutAtFirstRule(front: string, rule: string, after: string)
    requires Ruleless(front) && RuleLike(rule)
    requires Terminated(rule) || ('\n' !in rule && after == "")
    ensures CutAtRule(front + (rule + after)) == Some((front, after))
  {
    hide FirstLine, AfterLine, IsRule, RuleLike, CutAtRule, NoRule, Lines, NoneRuleLike;
    NoRuleByLines(front, 0);
    RuleIsRuleLike(rule);
    RuleAfter(front, rule + after);
    if Terminated(rule) {
      RuleFirst(rule, after);
    } else {
      assert rule + after == rule;
      CutLast(rule);
      LastRule(rule);
    }
    assert front + "" == front;
  }

  lemma LastRule(rule: string)
    requires IsRule(rule) && FirstLine(rule) == rule && AfterLine(rule) == ""
    ensures CutAtRule(rule) == Some(("", ""))
  {
    hide FirstLine, AfterLine, IsRule;
    if rule == "" { BlankIsNoRule(); }
  }

  lemma {:induction false} DropBreaks(breaks: string, body: string)
    requires (forall i :: 0 <= i < |breaks| ==> breaks[i] == '\n') && (body != "" ==> body[0] != '\n')
    ensures DropNewlines(breaks + body) == body
  {
    if breaks == "" {
      assert breaks + body == body;
    } else {
      assert (breaks + body)[1..] == breaks[1..] + body;
      DropBreaks(breaks[1..], body);
    }
  }

  lemma Opened(open: string, rest: string)
    requires open == "---\n" || open == "---\r\n"
    ensures OpensFrontmatter(open + rest) && AfterLine(open + rest) == rest
  {
    hide FirstLine, AfterLine;
    assert open == open[..|open| - 1] + "\n" && '\n' !in open[..|open| - 1];
    CutLine(open, rest);
    assert (open + rest)[..|open|] == open;
  }

  /**
   Where a file splits: behind an opening line of three hyphens, ended either way, everything before the first rule is
   the frontmatter, and everything behind it, less leading newlines, is the body.
   */
  lemma SplitFound(open: string, front: string, rule: string, breaks: string, body: string)
    requires open == "---\n" || open == "---\r\n"
    requires Ruleless(front) && RuleLike(rule)
    requires Terminated(rule) || ('\n' !in rule && breaks + body == "")
    requires (forall i :: 0 <= i < |breaks| ==> breaks[i] == '\n') && (body != "" ==> body[0] != '\n')
    ensures Split(open + (front + (rule + (breaks + body)))) == (Some(front), body)
  {
    hide OpensFrontmatter, AfterLine, CutAtRule, DropNewlines, RuleLike, Ruleless, Terminated;
    Opened(open, front + (rule + (breaks + body)));
    CutAtFirstRule(front, rule, breaks + body);
    DropBreaks(breaks, body);
  }

  /** Any other file is body only: it does not open with such a line, or no rule follows. */
  lemma SplitNotFound(raw: string, open: string, rest: string)
    ensures !StartsWith(raw, "---\n") && !StartsWith(raw, "---\r\n") ==> Split(raw) == (None, raw)
    ensures (open == "---\n" || open == "---\r\n")
            && NoneRuleLike(Lines(rest, 0)) ==>
              Split(open + rest) == (None, open + rest)
  {
    hide AfterLine, CutAtRule, NoneRuleLike, StartsWith, Lines, NoRule;
    if open == "---\n" || open == "---\r\n" {
      Opened(open, rest);
      NoRuleByLines(rest, 0);
      NoRuleIsUncut(rest);
    }
  }

  // ----- the scanner, over any frontmatter

  ghost predicate SilentLines(lines: seq<Line>, key: string) {
    forall i :: 0 <= i < |lines| ==> !StartsWith(TrimStart(LineText(lines[i].text)), key + ":")
  }

  /** Whole lines of which none starts, behind its indentation, with the key and a colon. */
  ghost predicate Silent(s: string, key: string) {
    WholeLines(s) && SilentLines(Lines(s, 0), key)
  }

  lemma SilentCons(line: Line, rest: seq<Line>, key: string)
    requires SilentLines([line] + rest, key)
    ensures Probe(LineText(line.text), key) == None && SilentLines(rest, key)
  {
    hide StartsWith, TrimStart, LineText, Probe;
    var lines := [line] + rest;
    assert lines[0] == line && forall i :: 0 <= i < |rest| ==> lines[i + 1] == rest[i];
    ProbeSilent(LineText(line.text), key);
  }

  lemma {:induction false} SilentPassed(s: string, key: string, more: string, base: nat)
    requires WholeLines(s) && SilentLines(Lines(s, base), key)
    ensures Scalar(s + more, key) == Scalar(more, key)
    decreases |s|
  {
    hide FirstLine, AfterLine, SilentLines, Probe, LineText;
    if s == "" {
      assert s + more == more;
    } else {
      WholeLinesCut(s);
      var first, rest := FirstLine(s), AfterLine(s);
      SilentCons(Line(base, first), Lines(rest, base + |first|), key);
      hide Scalar, Lines;
      SilentPassed(rest, key, more, base + |first|);
      assert s + more == first + (rest + more);
      ScalarOfFirst(first, rest + more, key);
    }
  }

  lemma ProbeSilent(text: string, key: string)
    requires !StartsWith(TrimStart(text), key + ":")
    ensures Probe(text, key) == None
  {
  }

  /**
   A value without surrounding white space: what matching quotes hold, else itself, and nothing when that is empty.
   */
  function Unquoted(v: string): Option<string> {
    var quoted := 2 <= |v| && ((v[0] == '"' && v[|v| - 1] == '"') || (v[0] == '\'' && v[|v| - 1] == '\''));
    var u := if quoted then v[1..|v| - 1] else v;
    if u == "" then None else Some(u)
  }

  lemma ValueIsUnquoted(rest: string)
    ensures ValueOf(rest) == Unquoted(Trim(rest))
  {
    hide Trim;
  }

  /**
   What the scanner answers for a key: the first line with the key, its colon, and white space or nothing behind it
   decides, even when its value is empty; a line where something else follows the colon is passed over.
   */
  lemma ScalarFound(before: string, indent: string, key: string, rest: string, ending: string, after: string)
    requires Silent(before, key) && Blank(indent) && '\n' !in indent && '\n' !in key && '\n' !in rest
    requires key != "" && !IsSpace(key[0])
    requires ending == "\r\n" || (ending == "\n" && (rest != "" ==> rest[|rest| - 1] != '\r'))
    ensures Scalar(before + (indent + key + ":" + rest + ending + after), key) ==
      if rest == "" || rest[0] == ' ' || rest[0] == '\t' then Unquoted(Trim(rest)) else Scalar(after, key)
  {
    hide IsSpace, FirstLine, AfterLine, SilentLines, LineText, Lines, Scalar, Probe, Trim, Unquoted, Terminated;
    var text := indent + key + ":" + rest;
    var line := text + ending;
    SilentPassed(before, key, line + after, 0);
    EndedLine(text, ending);
    ScalarOfFirst(line, after, key);
    ProbeLine(indent, key, rest);
    assert indent + key + ":" + rest + ending + after == line + after;
  }

  lemma ProbeLine(indent: string, key: string, rest: string)
    requires Blank(indent) && key != "" && !IsSpace(key[0])
    ensures Probe(indent + key + ":" + rest, key) ==
      if rest == "" || rest[0] == ' ' || rest[0] == '\t' then Some(Unquoted(Trim(rest))) else None
  {
    hide IsSpace, TrimStart, Trim, ValueOf, Unquoted;
    var cut := key + ":" + rest;
    assert indent + key + ":" + rest == indent + cut;
    TrimStartUnique(indent, cut);
    ValueIsUnquoted(rest);
    assert cut[..|key| + 1] == key + ":" && cut[|key| + 1..] == rest;
  }

  /** Both line endings are dropped from a line's text. */
  lemma EndedLine(text: string, ending: string)
    requires '\n' !in text
    requires ending == "\r\n" || (ending == "\n" && (text != "" ==> text[|text| - 1] != '\r'))
    ensures Terminated(text + ending) && LineText(text + ending) == text
  {
    var line := text + ending;
    assert line[..|line| - 1] == text + ending[..|ending| - 1];
    if ending == "\r\n" {
      assert line[|line| - 2] == '\r' && line[..|line| - 2] == text;
    } else {
      assert line[..|line| - 1] == text;
    }
  }

  /** A last line without line break counts too, and without any line for the key there is no answer. */
  lemma ScalarLast(before: string, indent: string, key: string, rest: string)
    requires Silent(before, key) && Blank(indent) && '\n' !in indent && '\n' !in key && '\n' !in rest
    requires key != "" && !IsSpace(key[0])
    ensures Scalar(before, key) == None
    ensures Scalar(before + (indent + key + ":" + rest), key) ==
      if rest == "" || rest[0] == ' ' || rest[0] == '\t' then Unquoted(Trim(rest)) else None
  {
    hide IsSpace, FirstLine, AfterLine, SilentLines, Lines, Probe, Trim, Unquoted, LineText;
    var text := indent + key + ":" + rest;
    SilentPassed(before, key, text, 0);
    SilentPassed(before, key, "", 0);
    assert before + "" == before;
    CutLast(text);
    ProbeLine(indent, key, rest);
    assert LineText(text) == text by { OpenLine(text); }
  }

  lemma OpenLine(text: string)
    requires '\n' !in text
    ensures LineText(text) == text
  {
  }
}
