/** Skill identifiers: `sanitize_name` and the qualified `plugin__name`, which must determine both of its parts. */
module Names {

  predicate IsAlnum(c: char) {
    'a' <= c <= 'z' || 'A' <= c <= 'Z' || '0' <= c <= '9'
  }

  function Lower(c: char): char {
    if 'A' <= c <= 'Z' then (c as int + 32) as char else c
  }

  // ----- the pass over the characters

  predicate EndsInUnderscore(s: string) {
    s != "" && s[|s| - 1] == '_'
  }

  function Push(out: string, c: char): string {
    if IsAlnum(c) then out + [Lower(c)] else if !EndsInUnderscore(out) then out + "_" else out
  }

  function Collapse(s: string): (r: string)
  {
    if s == "" then "" else Push(Collapse(s[..|s| - 1]), s[|s| - 1])
  }

  function TrimFront(s: string): (r: string)
  {
    if s != "" && s[0] == '_' then TrimFront(s[1..]) else s
  }

  function TrimBack(s: string): (r: string)
  {
    if EndsInUnderscore(s) then TrimBack(s[..|s| - 1]) else s
  }

  function Sanitize(s: string): string {
    TrimBack(TrimFront(Collapse(s)))
  }

  /** `sanitize_name`, with the flag the source keeps instead of looking back. */
  method SanitizeName(s: string) returns (r: string)
    ensures r == Sanitize(s)
  {
    var out := "";
    var prevUnderscore := false;
    assert s[..0] == "";
    for i := 0 to |s|
      invariant out == Collapse(s[..i]) && prevUnderscore == EndsInUnderscore(out)
    {
      assert s[..i + 1][..i] == s[..i];
      if IsAlnum(s[i]) {
        out := out + [Lower(s[i])];
        prevUnderscore := false;
      } else if !prevUnderscore {
        out := out + "_";
        prevUnderscore := true;
      }
    }
    assert s[..|s|] == s;
    r := TrimBack(TrimFront(out));
  }

  // ----- the reference: words joined by single underscores

  /** The maximal runs of letters and digits, in lower case. */
  function Words(s: string): (r: seq<string>)
  {
    if s == "" then []
    else
      var front, c := s[..|s| - 1], s[|s| - 1];
      var ws := Words(front);
      if !IsAlnum(c) then ws
      else if ws != [] && IsAlnum(front[|front| - 1]) then ws[..|ws| - 1] + [ws[|ws| - 1] + [Lower(c)]]
      else ws + [[Lower(c)]]
  }

  function Join(ws: seq<string>): (r: string)
  {
    if ws == [] then "" else if |ws| == 1 then ws[0] else Join(ws[..|ws| - 1]) + "_" + ws[|ws| - 1]
  }

  /** A non-empty run of lower-case letters and digits. */
  predicate IsWord(w: string) {
    w != "" && forall i :: 0 <= i < |w| ==> IsAlnum(w[i]) && Lower(w[i]) == w[i]
  }

  predicate AllWords(ws: seq<string>) {
    forall i :: 0 <= i < |ws| ==> IsWord(ws[i])
  }

  lemma {:induction false} WordsAreWords(s: string)
    ensures AllWords(Words(s))
    ensures Words(s) == [] ==> forall i :: 0 <= i < |s| ==> !IsAlnum(s[i])
  {
    if s != "" {
      WordsAreWords(s[..|s| - 1]);
    }
  }

  function Mark(b: bool): string {
    if b then "_" else ""
  }

  lemma JoinSnoc(ws: seq<string>, w: string)
    requires ws != []
    ensures Join(ws + [w]) == Join(ws) + "_" + w
  {
    assert (ws + [w])[..|ws|] == ws;
  }

  lemma JoinExtend(ws: seq<string>, c: char)
    requires ws != []
    ensures Join(ws[..|ws| - 1] + [ws[|ws| - 1] + [c]]) == Join(ws) + [c]
  {
    hide Join;
    var front, w := ws[..|ws| - 1], ws[|ws| - 1];
    assert ws == front + [w];
    JoinLast(front, w, [c]);
  }

  lemma JoinLast(front: seq<string>, w: string, more: string)
    ensures Join(front + [w + more]) == Join(front + [w]) + more
  {
    if front == [] {
      assert front + [w + more] == [w + more] && front + [w] == [w];
    } else {
      hide Join;
      JoinSnoc(front, w);
      JoinSnoc(front, w + more);
      assert Join(front) + "_" + (w + more) == Join(front) + "_" + w + more;
    }
  }

  lemma {:induction false} JoinEnds(ws: seq<string>)
    requires AllWords(ws) && ws != []
    ensures Join(ws) != "" && IsAlnum(Join(ws)[0]) && IsAlnum(Join(ws)[|Join(ws)| - 1])
  {
    assert IsWord(ws[|ws| - 1]);
    if |ws| > 1 {
      JoinEnds(ws[..|ws| - 1]);
    }
  }

  /** The pass yields the joined words, with a mark for what is skipped in front and behind. */
  lemma {:induction false} CollapseIs(s: string)
    ensures Collapse(s) ==
      Mark(s != "" && !IsAlnum(s[0])) + Join(Words(s)) + Mark(Words(s) != [] && !IsAlnum(s[|s| - 1]))
  {
    hide Join;
    EmptyJoin("");
    if s != "" {
      var front, c := s[..|s| - 1], s[|s| - 1];
      CollapseIs(front);
      WordsAreWords(front);
      var ws, lead := Words(front), Mark(!IsAlnum(s[0]));
      if ws == [] {
        assert ws + [[Lower(c)]] == [[Lower(c)]];
        EmptyJoin([Lower(c)]);
        assert Collapse(front) == if front == "" then "" else "_";
      } else {
        assert s[0] == front[0];
        var trail := !IsAlnum(front[|front| - 1]);
        JoinEnds(ws);
        PushAfter(lead, Join(ws), trail, c);
        JoinExtend(ws, Lower(c));
        JoinSnoc(ws, [Lower(c)]);
      }
    }
  }

  lemma PushAfter(lead: string, j: string, trail: bool, c: char)
    requires j != "" && IsAlnum(j[|j| - 1])
    ensures Push(lead + j + Mark(trail), c) ==
      if !IsAlnum(c) then lead + j + Mark(true)
      else if trail then lead + (j + "_" + [Lower(c)]) + Mark(false)
      else lead + (j + [Lower(c)]) + Mark(false)
  {
    var out := lead + j + Mark(trail);
    assert out[|out| - 1] == if trail then '_' else j[|j| - 1];
  }

  lemma EmptyJoin(w: string)
    ensures Join([]) == "" && Join([w]) == w
  {
  }

  lemma TrimFrontMark(a: bool, t: string)
    requires t != "" ==> t[0] != '_'
    ensures TrimFront(Mark(a) + t) == t
  {
    assert TrimFront(t) == t;
    assert Mark(a) + t == if a then "_" + t else t;
    assert ("_" + t)[1..] == t;
  }

  lemma TrimBackMark(j: string, b: bool)
    requires !EndsInUnderscore(j)
    ensures TrimBack(j + Mark(b)) == j
  {
    assert TrimBack(j) == j;
    assert j + Mark(b) == if b then j + "_" else j;
    assert (j + "_")[..|j|] == j;
  }

  lemma TrimMarks(a: bool, j: string, b: bool)
    requires j != "" ==> j[0] != '_' && j[|j| - 1] != '_'
    requires j == "" ==> !b
    ensures TrimBack(TrimFront(Mark(a) + j + Mark(b))) == j
  {
    hide TrimBack, TrimFront;
    assert Mark(a) + j + Mark(b) == Mark(a) + (j + Mark(b));
    TrimFrontMark(a, j + Mark(b));
    TrimBackMark(j, b);
  }

  /** What `sanitize_name` computes: the words of the name, in lower case, joined by single underscores. */
  lemma SanitizeIsJoinedWords(s: string)
    ensures Sanitize(s) == Join(Words(s))
  {
    hide Join, TrimFront, TrimBack, Collapse;
    CollapseIs(s);
    WordsAreWords(s);
    if Words(s) == [] { EmptyJoin(""); } else { JoinEnds(Words(s)); }
    TrimMarks(s != "" && !IsAlnum(s[0]), Join(Words(s)), Words(s) != [] && !IsAlnum(s[|s| - 1]));
  }

  // ----- the shape of the result

  predicate DoubleAt(s: string, i: int) {
    0 <= i < |s| - 1 && s[i] == '_' && s[i + 1] == '_'
  }

  /** Lower-case letters, digits and single inner underscores. */
  ghost predicate Clean(s: string) {
    && (forall i :: 0 <= i < |s| ==> s[i] == '_' || (IsAlnum(s[i]) && Lower(s[i]) == s[i]))
    && (s != "" ==> s[0] != '_' && s[|s| - 1] != '_')
    && (forall i :: !DoubleAt(s, i))
  }

  lemma {:induction false} JoinIsClean(ws: seq<string>)
    requires AllWords(ws)
    ensures Clean(Join(ws))
  {
    hide Clean, IsWord;
    if ws == [] {
      assert Clean("") by { WordIsClean(""); }
    } else {
      var front, w := ws[..|ws| - 1], ws[|ws| - 1];
      assert IsWord(w);
      WordIsClean(w);
      if |ws| > 1 {
        JoinIsClean(front);
        JoinEnds(front);
        JoinTwoClean(Join(front), w);
      }
    }
  }

  lemma WordIsClean(w: string)
    requires w == "" || IsWord(w)
    ensures Clean(w)
  {
  }

  lemma JoinTwoClean(j: string, w: string)
    requires Clean(j) && j != "" && IsWord(w)
    ensures Clean(j + "_" + w)
  {
    var r := j + "_" + w;
    assert forall k :: 0 <= k < |j| ==> r[k] == j[k];
    assert forall k :: 0 <= k < |w| ==> r[|j| + 1 + k] == w[k];
    assert forall i :: DoubleAt(r, i) ==> DoubleAt(j, i);
  }

  lemma {:induction false} WordsOfClean(s: string)
    requires forall i :: 0 <= i < |s| ==> s[i] == '_' || (IsAlnum(s[i]) && Lower(s[i]) == s[i])
    requires (s != "" ==> s[0] != '_') && forall i :: !DoubleAt(s, i)
    ensures s == Join(Words(s)) + Mark(EndsInUnderscore(s))
  {
    hide Join;
    EmptyJoin("");
    if s != "" {
      var front, c := s[..|s| - 1], s[|s| - 1];
      assert forall i :: DoubleAt(front, i) ==> DoubleAt(s, i);
      WordsOfClean(front);
      WordsAreWords(front);
      assert s == front + [c];
      var ws := Words(front);
      EmptyJoin([c]);
      if front != "" {
        assert !DoubleAt(s, |front| - 1);
        if ws != [] {
          JoinExtend(ws, Lower(c));
          JoinSnoc(ws, [Lower(c)]);
        }
      } else {
        assert ws + [[c]] == [[c]];
      }
    }
  }

  /** `sanitize_name` yields clean names, leaves clean names alone, and so is idempotent. */
  lemma SanitizeIsClean(s: string)
    ensures Clean(Sanitize(s))
    ensures Clean(s) ==> Sanitize(s) == s
    ensures Sanitize(Sanitize(s)) == Sanitize(s)
  {
    hide Sanitize, Join;
    SanitizeIsJoinedWords(s);
    WordsAreWords(s);
    JoinIsClean(Words(s));
    if Clean(s) { WordsOfClean(s); }
    var t := Sanitize(s);
    SanitizeIsJoinedWords(t);
    WordsOfClean(t);
  }

  // ----- qualified names

  function Qualified(plugin: string, name: string): string {
    Sanitize(plugin) + "__" + Sanitize(name)
  }

  /** A qualified name has one double underscore, and it stands between the two sanitized parts, empty or not. */
  lemma OneDoubleUnderscore(plugin: string, name: string, i: int)
    ensures DoubleAt(Qualified(plugin, name), i) <==> i == |Sanitize(plugin)|
  {
    hide Sanitize;
    SanitizeIsClean(plugin);
    SanitizeIsClean(name);
    var p, n := Sanitize(plugin), Sanitize(name);
    DoubleInJoined(p, n, i);
  }

  lemma DoubleInJoined(p: string, n: string, i: int)
    requires Clean(p) && Clean(n)
    ensures DoubleAt(p + "__" + n, i) <==> i == |p|
  {
    var q := p + "__" + n;
    assert q[|p|] == '_' && q[|p| + 1] == '_';
    if 0 <= i < |p| {
      assert q[i] == p[i] && (i + 1 < |p| ==> q[i + 1] == p[i + 1]);
      assert !DoubleAt(p, i);
    } else if |p| < i < |q| - 1 {
      assert q[i + 1] == n[i - |p| - 1];
      assert i > |p| + 1 ==> q[i] == n[i - |p| - 2];
      assert !DoubleAt(n, i - |p| - 2);
    }
  }

  /** A qualified name determines both sanitized parts. */
  lemma QualifiedDecodes(plugin: string, name: string, plugin': string, name': string)
    requires Qualified(plugin, name) == Qualified(plugin', name')
    ensures Sanitize(plugin) == Sanitize(plugin') && Sanitize(name) == Sanitize(name')
  {
    hide Sanitize;
    var q := Qualified(plugin, name);
    var k := |Sanitize(plugin)|;
    OneDoubleUnderscore(plugin, name, k);
    OneDoubleUnderscore(plugin', name', k);
    assert Sanitize(plugin) == q[..k] == Sanitize(plugin');
    assert Sanitize(name) == q[k + 2..] == Sanitize(name');
  }

  /** Single characters: ASCII letters come out in lower case, digits as they are, and nothing else comes out at all. */
  lemma SanitizeOne(c: char)
    ensures Sanitize([c]) ==
      if 'a' <= c <= 'z' || '0' <= c <= '9' then [c]
      else if 'A' <= c <= 'Z' then ["abcdefghijklmnopqrstuvwxyz"[c as int - 'A' as int]]
      else ""
  {
    assert [c][..0] == "" && Collapse([c]) == Push("", c);
    assert "_"[1..] == "" && TrimFront("_") == TrimFront("") == TrimBack("") == "";
    assert "" + [Lower(c)] == [Lower(c)] && "" + "_" == "_";
    assert IsAlnum(c) ==> TrimBack(TrimFront([Lower(c)])) == [Lower(c)];
    if 'A' <= c <= 'Z' { LowerIs(c as int - 'A' as int); }
  }

  lemma LowerIs(i: nat)
    requires i < 26
    ensures Lower(('A' as int + i) as char) == "abcdefghijklmnopqrstuvwxyz"[i]
  {
    assert forall k :: 0 <= k < 26 ==> "abcdefghijklmnopqrstuvwxyz"[k] == ('a' as int + k) as char;
  }
}
