/**
 The transcript tailer of the eidolon supervisor: session files are read incrementally from offsets kept in a bounded
 least-recently-used map, and only whole lines are taken.
 */
module Tailer {
  import opened Wrappers
  import opened Utf8
  import opened Text
  import opened Json
  import opened Wire

  /** Lossy decoding and JSON parsing of one line, which this model does not look into. */
  datatype LineReader = LineReader(lossy: Bytes -> string, parse: string -> Option<Json>)

  // ----- reading a file in one go

  predicate IsToolEntry(value: Json) {
    value.Object? && (Get(value, "tool_name").Some? || AsStr(Get(value, "type")) == Some("tool_use"))
  }

  /** The entry a complete line holds: none when blank, not JSON, or not a tool event. */
  function EntryOf(reader: LineReader, line: Bytes): (r: seq<Json>)
  {
    var text := Trim(reader.lossy(line));
    if text == "" then []
    else match reader.parse(text)
      case None => []
      case Some(value) => if IsToolEntry(value) then [value] else []
  }

  /** Length of the longest prefix made of whole lines. */
  function CompleteLength(b: Bytes): (n: nat)
    ensures n <= |b| && NEWLINE !in b[n..]
    ensures 0 < n ==> b[n - 1] == NEWLINE
    decreases |b|
  {
    var i := IndexOf(b, NEWLINE);
    if i == |b| then 0
    else
      var n := CompleteLength(b[i + 1..]);
      assert b[i + 1..][n..] == b[i + 1 + n..];
      i + 1 + n
  }

  /** The tool entries of the whole lines of `b`, in order. */
  function ToolEntries(reader: LineReader, b: Bytes): (r: seq<Json>)
    decreases |b|
  {
    var i := IndexOf(b, NEWLINE);
    if i == |b| then [] else EntryOf(reader, b[..i + 1]) + ToolEntries(reader, b[i + 1..])
  }

  predicate WholeLines(b: Bytes) {
    b != [] ==> b[|b| - 1] == NEWLINE
  }

  /** Reading splits at any line boundary. */
  lemma {:induction false} SplitAtLine(reader: LineReader, a: Bytes, b: Bytes)
    requires WholeLines(a)
    ensures ToolEntries(reader, a + b) == ToolEntries(reader, a) + ToolEntries(reader, b)
    ensures CompleteLength(a + b) == |a| + CompleteLength(b)
    decreases |a|
  {
    hide IndexOf, EntryOf, CompleteLength, ToolEntries;
    if a == [] {
      assert a + b == b;
      NoLine(reader, a);
    } else {
      assert a[|a| - 1] in a;
      var n := IndexOf(a, NEWLINE) + 1;
      var line, rest := a[..n], a[n..];
      assert line == a[..n - 1] + [NEWLINE] && a == line + rest;
      assert a + b == line + (rest + b);
      FirstLineEntries(reader, line, rest);
      FirstLineEntries(reader, line, rest + b);
      SplitAtLine(reader, rest, b);
    }
  }

  /** What a first line contributes. */
  lemma FirstLineEntries(reader: LineReader, line: Bytes, rest: Bytes)
    requires line != [] && line[|line| - 1] == NEWLINE && NEWLINE !in line[..|line| - 1]
    ensures ToolEntries(reader, line + rest) == EntryOf(reader, line) + ToolEntries(reader, rest)
    ensures CompleteLength(line + rest) == |line| + CompleteLength(rest)
  {
    hide IndexOf, EntryOf;
    var front := line[..|line| - 1];
    assert line + rest == front + ([NEWLINE] + rest);
    IndexOfUnique(front, [NEWLINE] + rest, NEWLINE);
    assert (line + rest)[..|line|] == line && (line + rest)[|line|..] == rest;
  }

  lemma NextLine(reader: LineReader, b: Bytes)
    ensures var n := LineLength(b);
      if n == 0 || b[n - 1] != NEWLINE then ToolEntries(reader, b) == [] && CompleteLength(b) == 0
      else && ToolEntries(reader, b) == EntryOf(reader, b[..n]) + ToolEntries(reader, b[n..])
           && CompleteLength(b) == n + CompleteLength(b[n..])
  {
    hide IndexOf, EntryOf;
    var i := IndexOf(b, NEWLINE);
    assert i == |b| && b != [] ==> b[i - 1] in b;
  }

  /** An unfinished last line contributes nothing. */
  lemma PartialLineIgnored(reader: LineReader, b: Bytes)
    ensures WholeLines(b[..CompleteLength(b)])
    ensures ToolEntries(reader, b[..CompleteLength(b)]) == ToolEntries(reader, b)
    ensures CompleteLength(b[..CompleteLength(b)]) == CompleteLength(b)
  {
    hide IndexOf, EntryOf, CompleteLength;
    var n := CompleteLength(b);
    assert b == b[..n] + b[n..];
    SplitAtLine(reader, b[..n], b[n..]);
    NoLine(reader, b[n..]);
    assert b[..n] == b[..n] + [];
    SplitAtLine(reader, b[..n], []);
    NoLine(reader, []);
  }

  lemma NoLine(reader: LineReader, b: Bytes)
    requires NEWLINE !in b
    ensures ToolEntries(reader, b) == [] && CompleteLength(b) == 0
  {
  }

  /** Some field is `tool_name`, or the type is `tool_use`. */
  ghost predicate CallsTool(fields: seq<Field>) {
    exists i :: 0 <= i < |fields| && (fields[i].key == "tool_name" || fields[i] == Field("type", Str("tool_use")))
  }

  /**
   What one line holds, over the fields of the object it parses to: the object itself when it names a tool or is of the
   type `tool_use`; nothing when it does neither, or when the line is blank, is not JSON, or is JSON of another kind.
   */
  lemma LineYields(reader: LineReader, front: Bytes)
    requires NEWLINE !in front
    ensures var text := Trim(reader.lossy(front + [10]));
      var entries := ToolEntries(reader, front + [10]);
      && (text == "" || reader.parse(text).None? || !reader.parse(text).value.Object? ==> entries == [])
      && (text != "" ==> forall fields :: reader.parse(text) == Some(Object(fields)) && DistinctFields(fields) ==>
            && (CallsTool(fields) ==> entries == [Object(fields)])
            && (!CallsTool(fields) ==> entries == []))
  {
    hide Trim, Find, ToolEntries;
    var line := front + [10];
    assert line[..|line| - 1] == front && line + [] == line;
    FirstLineEntries(reader, line, []);
    NoLine(reader, []);
    var parsed := reader.parse(Trim(reader.lossy(line)));
    if parsed.Some? && parsed.value.Object? {
      var fields := parsed.value.fields;
      if DistinctFields(fields) {
        FindHeld(fields, "tool_name");
        FindHeld(fields, "type");
        assert AsStr(Find(fields, "type")) == Some("tool_use") <==> Field("type", Str("tool_use")) in fields;
      }
    }
  }

  // ----- the bounded map of offsets

  datatype Slot = Slot(path: string, pos: nat)

  function Peek(slots: seq<Slot>, path: string): (r: Option<nat>)
  {
    if slots == [] then None else if slots[0].path == path then Some(slots[0].pos) else Peek(slots[1..], path)
  }

  function Without(slots: seq<Slot>, path: string): (r: seq<Slot>)
  {
    if slots == [] then []
    else if slots[0].path == path then Without(slots[1..], path)
    else [slots[0]] + Without(slots[1..], path)
  }

  function Take<T>(n: nat, s: seq<T>): seq<T> {
    if |s| <= n then s else s[..n]
  }

  /** `LruCache::put`: the key becomes the most recent, the least recent is dropped beyond the capacity. */
  function Put(slots: seq<Slot>, cap: nat, path: string, pos: nat): seq<Slot> {
    Take(cap, [Slot(path, pos)] + Without(slots, path))
  }

  function Offset(slots: seq<Slot>, path: string): nat {
    match Peek(slots, path) case None => 0 case Some(p) => p
  }

  // ----- one poll

  /** Where a poll starts to read: at the saved offset, or at the beginning of a file that is shorter. */
  function StartAt(content: Bytes, last: nat): (r: nat)
    ensures r <= |content|
  {
    if |content| < last then 0 else last
  }

  function NewOffset(content: Bytes, last: nat): (r: nat)
    ensures r <= |content|
  {
    StartAt(content, last) + CompleteLength(content[StartAt(content, last)..])
  }

  /** The entries a poll returns and the offset it saves, from the saved offset and the file. */
  function Poll(reader: LineReader, content: Bytes, last: nat): (r: (seq<Json>, nat))
  {
    (ToolEntries(reader, content[StartAt(content, last)..]), NewOffset(content, last))
  }

  class Watcher {
    const cap: nat
    var positions: seq<Slot>

    constructor (cap: nat)
      ensures this.cap == cap && positions == []
    {
      this.cap := cap;
      this.positions := [];
    }

    /**
     `read_new_entries`. `content` is the file, absent when it cannot be opened; `failing` is the read that fails, if
     any. A failed call reports no entries and moves no offset.
     */
    method ReadNewEntries(reader: LineReader, path: string, content: Option<Bytes>, failing: Option<nat>)
      returns (r: Option<seq<Json>>)
      modifies this
      ensures r.None? ==> positions == old(positions)
      ensures r.Some? ==> content.Some?
      ensures r.Some? ==>
        var polled := Poll(reader, content.value, Offset(old(positions), path));
        r.value == polled.0 && positions == Put(old(positions), cap, path, polled.1)
      ensures r.None? <==>
        || content.None?
        || (failing.Some? &&
              var start := StartAt(content.value, Offset(old(positions), path));
              failing.value <= Newlines(content.value[start..]))
    {
      hide ToolEntries, CompleteLength, Peek, Without, Take;
      var saved := Peek(positions, path);
      var last := if saved.Some? then saved.value else 0;
      if content.None? {
        return None;
      }
      var file := content.value;
      var start := if |file| < last then 0 else last;
      var scan := ReadWholeLines(reader, file[start..], failing);
      if scan.None? {
        return None;
      }
      var newPos := start + scan.value.1;
      assert newPos == Poll(reader, file, Offset(positions, path)).1;
      positions := Put(positions, cap, path, newPos);
      return Some(scan.value.0);
    }
  }

  /** Whole lines in a file. Reading them takes one read each, and one more to find the end. */
  function Newlines(b: Bytes): nat {
    multiset(b)[NEWLINE]
  }

  lemma NewlinesAhead(b: Bytes, n: nat)
    requires n == LineLength(b)
    ensures n == 0 || b[n - 1] != NEWLINE ==> Newlines(b) == 0
    ensures 0 < n && b[n - 1] == NEWLINE ==> Newlines(b) == 1 + Newlines(b[n..])
  {
    var i := IndexOf(b, NEWLINE);
    if i < |b| {
      assert b == b[..i] + [NEWLINE] + b[n..];
      assert NEWLINE !in multiset(b[..i]);
    } else {
      assert NEWLINE !in multiset(b);
      assert n > 0 ==> b[n - 1] in b;
    }
  }

  /** The loop of `read_new_entries`: line by line until the end of the file or an unfinished line. */
  method ReadWholeLines(reader: LineReader, file: Bytes, failing: Option<nat>) returns (r: Option<(seq<Json>, nat)>)
    ensures r.Some? ==> r.value == (ToolEntries(reader, file), CompleteLength(file))
    ensures r.None? <==> failing.Some? && failing.value <= Newlines(file)
  {
    hide EntryOf, ToolEntries, CompleteLength, LineLength, Newlines;
    var advance: nat, entries: seq<Json> := 0, [];
    var ahead := file;
    var attempt := 0;
    while true
      invariant ToolEntries(reader, file) == entries + ToolEntries(reader, ahead)
      invariant CompleteLength(file) == advance + CompleteLength(ahead)
      invariant attempt + Newlines(ahead) == Newlines(file)
      invariant failing.Some? ==> attempt <= failing.value
      decreases |ahead|
    {
      NewlinesAhead(ahead, LineLength(ahead));
      if failing == Some(attempt) {
        return None;
      }
      attempt := attempt + 1;
      NextLine(reader, ahead);
      var n := LineLength(ahead);
      if n == 0 || ahead[n - 1] != NEWLINE {
        assert entries + [] == entries;
        return Some((entries, advance));
      }
      advance := advance + n;
      entries := entries + EntryOf(reader, ahead[..n]);
      ahead := ahead[n..];
    }
  }

  // ----- runs: any interleaving of writes and polls over any files

  /** A file grows, or is replaced: truncated, rotated, written anew. */
  datatype Event =
    Append(path: string, data: Bytes) | Replace(path: string, data: Bytes) | PollFile(path: string, succeeds: bool)

  /** A file after a run. */
  function Content(run: seq<Event>, path: string): (r: Bytes)
  {
    if run == [] then []
    else
      var front, e := run[..|run| - 1], run[|run| - 1];
      if e.path != path || e.PollFile? then Content(front, path)
      else if e.Append? then Content(front, path) + e.data
      else e.data
  }

  predicate Exists(run: seq<Event>, path: string) {
    exists i :: 0 <= i < |run| && !run[i].PollFile? && run[i].path == path
  }

  /** The poll that ends the run found the file and read it to the end. */
  predicate Reads(run: seq<Event>, path: string): (r: bool)
    ensures r ==> run != [] && run[|run| - 1].path == path
  {
    run != [] && run[|run| - 1] == PollFile(path, true) && Exists(run[..|run| - 1], path)
  }

  /** The run ends with a new generation of the file. */
  predicate Replaces(run: seq<Event>, path: string) {
    run != [] && run[|run| - 1].Replace? && run[|run| - 1].path == path
  }

  /** The present generation of the file as the last successful poll of it found it; empty when there was none. */
  function Seen(run: seq<Event>, path: string): (r: Bytes)
  {
    if run == [] then []
    else if Reads(run, path) then Content(run, path)
    else if Replaces(run, path) then []
    else Seen(run[..|run| - 1], path)
  }

  /** The supervisor after a run: saved offsets, and what it was handed from each file. */
  function Positions(cap: nat, run: seq<Event>): (r: seq<Slot>)
  {
    if run == [] then []
    else
      var front := Positions(cap, run[..|run| - 1]);
      var e := run[|run| - 1];
      if Reads(run, e.path) then Put(front, cap, e.path, NewOffset(Content(run, e.path), Offset(front, e.path)))
      else front
  }

  function Delivered(reader: LineReader, cap: nat, run: seq<Event>, path: string): (r: seq<Json>)
  {
    if run == [] then []
    else
      var front := run[..|run| - 1];
      Delivered(reader, cap, front, path)
      + if Reads(run, path) then Poll(reader, Content(run, path), Offset(Positions(cap, front), path)).0 else []
  }

  // ----- the reference: recency without a bound, entries without offsets

  function Drop(paths: seq<string>, path: string): (r: seq<string>)
  {
    if paths == [] then [] else (if paths[0] == path then [] else [paths[0]]) + Drop(paths[1..], path)
  }

  /** Every file read so far, most recently read first. */
  function Recency(run: seq<Event>): (r: seq<string>)
  {
    if run == [] then []
    else
      var front, e := Recency(run[..|run| - 1]), run[|run| - 1];
      if Reads(run, e.path) then [e.path] + Drop(front, e.path) else front
  }

  /** The file was read before but at least `cap` other files have been read since. */
  predicate Forgotten(cap: nat, run: seq<Event>, path: string) {
    path in Recency(run) && path !in Take(cap, Recency(run))
  }

  /** The entries of the generations before the present one, each as it was last seen. */
  function Earlier(reader: LineReader, run: seq<Event>, path: string): (r: seq<Json>)
  {
    if run == [] then []
    else
      var front := run[..|run| - 1];
      Earlier(reader, front, path) + if Replaces(run, path) then ToolEntries(reader, Seen(front, path)) else []
  }

  /** One read of each generation, as its last poll found it. */
  function Wanted(reader: LineReader, run: seq<Event>, path: string): seq<Json> {
    Earlier(reader, run, path) + ToolEntries(reader, Seen(run, path))
  }

  /** What was handed over before the present reading of the file began, at a replacement or after it was forgotten. */
  function Before(reader: LineReader, cap: nat, run: seq<Event>, path: string): (r: seq<Json>)
  {
    if run == [] then []
    else
      var front := run[..|run| - 1];
      Before(reader, cap, front, path)
      + if Replaces(run, path) || (Reads(run, path) && Forgotten(cap, front, path)) then
          ToolEntries(reader, Seen(front, path))
        else []
  }

  // ----- proofs about the map

  predicate Distinct(paths: seq<string>) {
    forall i, j :: 0 <= i < j < |paths| ==> paths[i] != paths[j]
  }

  function Paths(slots: seq<Slot>): seq<string> {
    seq(|slots|, i requires 0 <= i < |slots| => slots[i].path)
  }

  lemma {:induction false} PeekIn(slots: seq<Slot>, path: string)
    ensures Peek(slots, path).Some? <==> path in Paths(slots)
  {
    if slots != [] {
      assert Paths(slots) == [slots[0].path] + Paths(slots[1..]);
      PeekIn(slots[1..], path);
    }
  }

  lemma {:induction false} PathsWithout(slots: seq<Slot>, path: string)
    ensures Paths(Without(slots, path)) == Drop(Paths(slots), path)
  {
    if slots != [] {
      assert Paths(slots)[1..] == Paths(slots[1..]);
      PathsWithout(slots[1..], path);
      assert slots[0].path != path ==>
        Paths([slots[0]] + Without(slots[1..], path)) == [slots[0].path] + Paths(Without(slots[1..], path));
    }
  }

  lemma PathsPut(slots: seq<Slot>, cap: nat, path: string, pos: nat)
    ensures Paths(Put(slots, cap, path, pos)) == Take(cap, [path] + Drop(Paths(slots), path))
  {
    hide Without, Drop;
    PathsWithout(slots, path);
    var all := [Slot(path, pos)] + Without(slots, path);
    assert Paths(all) == [path] + Drop(Paths(slots), path);
    assert Paths(Take(cap, all)) == Take(cap, Paths(all));
  }

  lemma {:induction false} WithoutKeeps(slots: seq<Slot>, path: string, other: string)
    requires other != path
    ensures Peek(Without(slots, path), other) == Peek(slots, other)
  {
    if slots != [] {
      WithoutKeeps(slots[1..], path, other);
    }
  }

  lemma {:induction false} PeekTake(n: nat, slots: seq<Slot>, path: string)
    requires Peek(Take(n, slots), path).Some?
    ensures Peek(slots, path) == Peek(Take(n, slots), path)
  {
    if n < |slots| && slots[0].path != path {
      assert slots[..n][1..] == slots[1..][..n - 1];
      PeekTake(n - 1, slots[1..], path);
    }
  }

  /** After a read the map has the new offset, and what it still has of other files is unchanged. */
  lemma PeekPut(slots: seq<Slot>, cap: nat, path: string, pos: nat, other: string)
    requires 0 < cap && Peek(Put(slots, cap, path, pos), other).Some?
    ensures Peek(Put(slots, cap, path, pos), other) == if other == path then Some(pos) else Peek(slots, other)
  {
    hide Without;
    var all := [Slot(path, pos)] + Without(slots, path);
    PeekTake(cap, all, other);
    assert all[1..] == Without(slots, path);
    if other != path { WithoutKeeps(slots, path, other); }
  }

  lemma {:induction false} DropIs(paths: seq<string>, path: string)
    ensures forall p :: p in Drop(paths, path) <==> p in paths && p != path
    ensures Distinct(paths) ==> Distinct(Drop(paths, path))
    ensures path !in paths ==> Drop(paths, path) == paths
  {
    if paths != [] {
      var rest := paths[1..];
      DropIs(rest, path);
      assert paths == [paths[0]] + rest;
      assert Distinct(paths) ==> Distinct(rest) && paths[0] !in rest;
    }
  }

  lemma TakeCons<T>(n: nat, head: T, tail: seq<T>)
    requires 0 < n
    ensures Take(n, [head] + tail) == [head] + Take(n - 1, tail)
  {
  }

  /** Dropping beyond the capacity before or after a key moves to the front makes no difference. */
  lemma {:induction false} TakeDrop(n: nat, paths: seq<string>, path: string)
    requires Distinct(paths) && 0 < n
    ensures Take(n - 1, Drop(Take(n, paths), path)) == Take(n - 1, Drop(paths, path))
  {
    if paths != [] && n < |paths| {
      var rest := paths[1..];
      assert paths[..n] == [paths[0]] + rest[..n - 1];
      assert paths[..n][1..] == rest[..n - 1];
      if paths[0] == path {
        DropIs(rest, path);
        DropIs(rest[..n - 1], path);
      } else if 1 < n {
        TakeDrop(n - 1, rest, path);
        TakeCons(n - 1, paths[0], Drop(rest, path));
        TakeCons(n - 1, paths[0], Drop(rest[..n - 1], path));
      }
    }
  }

  lemma {:induction false} RecencyDistinct(run: seq<Event>)
    ensures Distinct(Recency(run))
  {
    hide Drop, Reads;
    if run != [] {
      var front, e := Recency(run[..|run| - 1]), run[|run| - 1];
      RecencyDistinct(run[..|run| - 1]);
      DropIs(front, e.path);
      assert ([e.path] + Drop(front, e.path))[1..] == Drop(front, e.path);
    }
  }

  // ----- proofs about offsets

  lemma {:induction false} SeenIsPrefix(run: seq<Event>, path: string)
    ensures Seen(run, path) <= Content(run, path)
  {
    hide Reads;
    if run != [] {
      SeenIsPrefix(run[..|run| - 1], path);
      assert Reads(run, path) ==> Seen(run, path) == Content(run, path);
    }
  }

  lemma NoNewlineBehind(b: Bytes)
    ensures forall i :: CompleteLength(b) <= i < |b| ==> b[i] != NEWLINE
  {
    hide CompleteLength;
    var n := CompleteLength(b);
    forall i | n <= i < |b| ensures b[i] != NEWLINE {
      assert b[n..][i - n] == b[i];
    }
  }

  /** Whole lines end where the last newline does, wherever one starts to look. */
  lemma WholeLinesFrom(b: Bytes, p: nat)
    requires p <= |b|
    ensures CompleteLength(b) <= p + CompleteLength(b[p..])
    ensures NEWLINE in b[p..] ==> CompleteLength(b) == p + CompleteLength(b[p..])
    ensures CompleteLength(b) <= p ==> NEWLINE !in b[p..]
  {
    hide CompleteLength;
    var tail := b[p..];
    NoNewlineBehind(b);
    NoNewlineBehind(tail);
    assert forall i :: 0 <= i < |tail| ==> tail[i] == b[p + i];
    assert forall i :: p <= i < |b| ==> b[i] == tail[i - p];
  }

  /**
   The bounded map holds exactly the `cap` most recently read files. The offset it holds for a file is never short of
   the whole lines read from its present generation, and lies within what was read of it unless the file was just
   replaced.
   */
  lemma {:induction false} PositionsAreRecent(cap: nat, run: seq<Event>)
    requires 0 < cap
    ensures Paths(Positions(cap, run)) == Take(cap, Recency(run))
    ensures forall path :: Peek(Positions(cap, run), path).Some? ==>
              var p := Peek(Positions(cap, run), path).value;
              CompleteLength(Seen(run, path)) <= p && (p <= |Seen(run, path)| || Seen(run, path) == [])
  {
    hide CompleteLength, Content, NewOffset, Put, Peek, Drop, Take;
    if run == [] {
      NothingTracked(cap);
    } else {
      var front, e := run[..|run| - 1], run[|run| - 1];
      PositionsAreRecent(cap, front);
      if Reads(run, e.path) {
        var c, last := Content(run, e.path), Offset(Positions(cap, front), e.path);
        RecencyStep(cap, Recency(front), e.path) by { RecencyDistinct(front); }
        PathsPut(Positions(cap, front), cap, e.path, NewOffset(c, last));
        OffsetCoversLines(c, last);
        forall path | Peek(Positions(cap, run), path).Some?
          ensures var p := Peek(Positions(cap, run), path).value;
            CompleteLength(Seen(run, path)) <= p && (p <= |Seen(run, path)| || Seen(run, path) == [])
        {
          PeekPut(Positions(cap, front), cap, e.path, NewOffset(c, last), path);
        }
      } else {
        NoWholeLine();
      }
    }
  }

  lemma NothingTracked(cap: nat)
    ensures Paths(Positions(cap, [])) == Take(cap, Recency([])) && forall path :: Peek(Positions(cap, []), path) == None
  {
  }

  lemma NoWholeLine()
    ensures CompleteLength([]) == 0
  {
  }

  lemma OffsetCoversLines(content: Bytes, last: nat)
    ensures CompleteLength(content) <= NewOffset(content, last)
  {
    hide CompleteLength;
    WholeLinesFrom(content, StartAt(content, last));
  }

  lemma RecencyStep(cap: nat, paths: seq<string>, path: string)
    requires 0 < cap && Distinct(paths)
    ensures Take(cap, [path] + Drop(Take(cap, paths), path)) == Take(cap, [path] + Drop(paths, path))
  {
    hide Take, Drop;
    TakeDrop(cap, paths, path);
    TakeCons(cap, path, Drop(paths, path));
    TakeCons(cap, path, Drop(Take(cap, paths), path));
  }

  lemma {:induction false} UnreadIsUnseen(run: seq<Event>, path: string)
    ensures path !in Recency(run) ==> Seen(run, path) == []
  {
    hide Content, Drop;
    if run != [] {
      UnreadIsUnseen(run[..|run| - 1], path);
      DropIs(Recency(run[..|run| - 1]), run[|run| - 1].path);
    }
  }

  // ----- what one poll hands over

  /** Reading on from the end of the whole lines seen yields what a full read yields beyond them. */
  lemma ResumeIsExact(reader: LineReader, seen: Bytes, content: Bytes)
    requires seen <= content
    ensures ToolEntries(reader, seen) + ToolEntries(reader, content[CompleteLength(seen)..]) ==
      ToolEntries(reader, content)
    ensures CompleteLength(content) == CompleteLength(seen) + CompleteLength(content[CompleteLength(seen)..])
  {
    hide ToolEntries, CompleteLength, WholeLines;
    var n := CompleteLength(seen);
    var head, tail := seen[..n], content[n..];
    PartialLineIgnored(reader, seen);
    assert content == head + tail;
    SplitAtLine(reader, head, tail);
  }

  /** The offset that a poll goes by, if any. */
  function Saved(cap: nat, run: seq<Event>, path: string): Option<nat>
    requires run != []
  {
    Peek(Positions(cap, run[..|run| - 1]), path)
  }

  /**
   The poll that ends the run finds a replaced file at or beyond its saved offset, so that the offset is taken for
   valid.
   */
  predicate Overtakes(cap: nat, run: seq<Event>, path: string) {
    Reads(run, path) && Saved(cap, run, path).Some?
    && CompleteLength(Seen(run[..|run| - 1], path)) < Saved(cap, run, path).value <= |Content(run, path)|
  }

  lemma ContentAtPoll(run: seq<Event>, path: string)
    requires Reads(run, path)
    ensures Seen(run[..|run| - 1], path) <= Content(run, path) && Seen(run, path) == Content(run, path)
  {
    SeenIsPrefix(run[..|run| - 1], path);
  }

  /**
   Which part of the file a poll reads: from the offset, from the start, or from behind an offset that is not valid.
   */
  lemma PollStart(cap: nat, run: seq<Event>, path: string)
    requires 0 < cap && Reads(run, path)
    ensures var front := run[..|run| - 1];
      var start := StartAt(Content(run, path), Offset(Positions(cap, front), path));
      && (Forgotten(cap, front, path) ==> Saved(cap, run, path).None? && start == 0)
      && (Overtakes(cap, run, path) ==> start == Saved(cap, run, path).value)
      && (!Overtakes(cap, run, path) && !Forgotten(cap, front, path) ==> start == CompleteLength(Seen(front, path)))
  {
    hide CompleteLength, Content, Recency, Positions, Take, Seen, Reads, Peek;
    var front := run[..|run| - 1];
    PositionsAreRecent(cap, front);
    PeekIn(Positions(cap, front), path);
    UnreadIsUnseen(front, path);
    ContentAtPoll(run, path);
    NoWholeLine();
  }

  /** Unless it overtakes, a poll hands over the rest of a file that is remembered and all of one that is not. */
  lemma PollHandsOver(reader: LineReader, cap: nat, run: seq<Event>, path: string)
    requires 0 < cap && Reads(run, path) && !Overtakes(cap, run, path)
    ensures var front := run[..|run| - 1];
      var entries := Poll(reader, Content(run, path), Offset(Positions(cap, front), path)).0;
      ToolEntries(reader, Content(run, path)) ==
        if Forgotten(cap, front, path) then entries else ToolEntries(reader, Seen(front, path)) + entries
  {
    hide CompleteLength, Content, Recency, Positions, Take, Seen, Reads, Peek, ToolEntries, Forgotten, Overtakes;
    hide StartAt, Offset;
    hide NewOffset, Saved;
    PollStart(cap, run, path);
    ContentAtPoll(run, path);
    ResumeIsExact(reader, Seen(run[..|run| - 1], path), Content(run, path));
    assert Content(run, path)[0..] == Content(run, path);
  }

  // ----- one reader, files that no poll overtakes

  ghost predicate EverOvertaken(cap: nat, run: seq<Event>, path: string) {
    exists k :: 0 < k <= |run| && Overtakes(cap, run[..k], path)
  }

  lemma PrefixOvertaken(cap: nat, run: seq<Event>, path: string)
    requires run != []
    ensures EverOvertaken(cap, run, path) <==> Overtakes(cap, run, path) || EverOvertaken(cap, run[..|run| - 1], path)
  {
    hide Overtakes;
    var n := |run|;
    var front := run[..n - 1];
    assert run[..n] == run;
    assert forall k :: 0 < k < n ==> front[..k] == run[..k];
    if EverOvertaken(cap, front, path) {
      var k :| 0 < k <= |front| && Overtakes(cap, front[..k], path);
      assert Overtakes(cap, run[..k], path);
    }
    if EverOvertaken(cap, run, path) {
      var k :| 0 < k <= n && Overtakes(cap, run[..k], path);
      assert k < n ==> Overtakes(cap, front[..k], path);
    }
  }

  /**
   Incremental tailing, accounted for: what was handed over from a file is what one read of its present generation, as
   the last poll found it, gives, preceded by exactly what had been handed over when it was replaced or read anew.
   */
  lemma {:induction false} DeliveredIsSeenAfterBefore(reader: LineReader, cap: nat, run: seq<Event>, path: string)
    requires 0 < cap && !EverOvertaken(cap, run, path)
    ensures Delivered(reader, cap, run, path) == Before(reader, cap, run, path) + ToolEntries(reader, Seen(run, path))
  {
    hide Poll, CompleteLength, ToolEntries, Content, Recency, Peek, Positions, Reads, Forgotten, EverOvertaken;
    hide Overtakes, Offset;
    NoLine(reader, []);
    if run != [] {
      var front := run[..|run| - 1];
      PrefixOvertaken(cap, run, path);
      DeliveredIsSeenAfterBefore(reader, cap, front, path);
      var t := ToolEntries(reader, Seen(front, path));
      assert Before(reader, cap, front, path) + t + [] == Before(reader, cap, front, path) + t;
      if Reads(run, path) {
        ContentAtPoll(run, path);
        PollHandsOver(reader, cap, run, path);
        ReadIsNoReplacement(run, path);
        var entries := Poll(reader, Content(run, path), Offset(Positions(cap, front), path)).0;
        assert Before(reader, cap, front, path) + t + entries == Before(reader, cap, front, path) + (t + entries);
      }
    }
  }

  lemma ReadIsNoReplacement(run: seq<Event>, path: string)
    ensures !(Reads(run, path) && Replaces(run, path))
  {
  }

  /** A poll found the file forgotten after entries had been handed over from its present generation. */
  ghost predicate Rereads(reader: LineReader, cap: nat, run: seq<Event>, path: string) {
    exists k :: 0 < k <= |run| && RereadsAt(reader, cap, run[..k], path)
  }

  predicate RereadsAt(reader: LineReader, cap: nat, run: seq<Event>, path: string) {
    Reads(run, path) && Forgotten(cap, run[..|run| - 1], path)
    && ToolEntries(reader, Seen(run[..|run| - 1], path)) != []
  }

  lemma PrefixRereads(reader: LineReader, cap: nat, run: seq<Event>, path: string)
    requires run != []
    ensures Rereads(reader, cap, run, path) <==>
      RereadsAt(reader, cap, run, path) || Rereads(reader, cap, run[..|run| - 1], path)
  {
    hide RereadsAt;
    var n := |run|;
    var front := run[..n - 1];
    assert run[..n] == run;
    assert forall k :: 0 < k < n ==> front[..k] == run[..k];
    if Rereads(reader, cap, front, path) {
      var k :| 0 < k <= |front| && RereadsAt(reader, cap, front[..k], path);
      assert RereadsAt(reader, cap, run[..k], path);
    }
    if Rereads(reader, cap, run, path) {
      var k :| 0 < k <= n && RereadsAt(reader, cap, run[..k], path);
      assert k < n ==> RereadsAt(reader, cap, front[..k], path);
    }
  }

  /**
   What was handed over before the present reading exceeds the earlier generations exactly when something was reread.
   */
  lemma {:induction false} BeforeIsEarlier(reader: LineReader, cap: nat, run: seq<Event>, path: string)
    ensures |Before(reader, cap, run, path)| >= |Earlier(reader, run, path)|
    ensures Rereads(reader, cap, run, path) ==> |Before(reader, cap, run, path)| > |Earlier(reader, run, path)|
    ensures !Rereads(reader, cap, run, path) ==> Before(reader, cap, run, path) == Earlier(reader, run, path)
  {
    hide Reads, Forgotten, Seen, ToolEntries, Rereads, Replaces;
    if run == [] {
      assert !Rereads(reader, cap, run, path) by { NothingReread(reader, cap, path); }
    } else {
      var front := run[..|run| - 1];
      BeforeIsEarlier(reader, cap, front, path);
      PrefixRereads(reader, cap, run, path);
      ReadIsNoReplacement(run, path);
    }
  }

  lemma NothingReread(reader: LineReader, cap: nat, path: string)
    ensures !Rereads(reader, cap, [], path)
  {
  }

  /**
   Incremental tailing refines one-shot reading of every generation, exactly when it does: with no poll overtaking its
   offset, every tool entry of every whole line seen is handed over once and in order, if and only if no poll comes
   back to a file that had already yielded entries after `cap` or more other files were read in between.
   */
  lemma TailingIsExact(reader: LineReader, cap: nat, run: seq<Event>, path: string)
    requires 0 < cap && !EverOvertaken(cap, run, path)
    ensures Delivered(reader, cap, run, path) == Wanted(reader, run, path) <==> !Rereads(reader, cap, run, path)
  {
    hide Delivered, Before, Earlier, ToolEntries, Seen, Rereads, EverOvertaken;
    DeliveredIsSeenAfterBefore(reader, cap, run, path);
    BeforeIsEarlier(reader, cap, run, path);
    var t := ToolEntries(reader, Seen(run, path));
    assert |Before(reader, cap, run, path) + t| == |Before(reader, cap, run, path)| + |t|;
    assert |Earlier(reader, run, path) + t| == |Earlier(reader, run, path)| + |t|;
  }

  predicate NeverReplaced(run: seq<Event>, path: string) {
    forall i :: 0 <= i < |run| ==> !(run[i].Replace? && run[i].path == path)
  }

  /** No poll overtakes a file that only grows, and it has one generation. */
  lemma {:induction false} GrowingFiles(reader: LineReader, cap: nat, run: seq<Event>, path: string)
    requires 0 < cap && NeverReplaced(run, path)
    ensures !EverOvertaken(cap, run, path) && Wanted(reader, run, path) == ToolEntries(reader, Seen(run, path))
    ensures Peek(Positions(cap, run), path).Some? ==>
      Peek(Positions(cap, run), path).value == CompleteLength(Seen(run, path))
    ensures Earlier(reader, run, path) == []
  {
    hide CompleteLength, Content, Put, Peek, ToolEntries, EverOvertaken, Offset, NewOffset;
    if run == [] {
      NothingTracked(cap);
      assert !EverOvertaken(cap, run, path) by { NothingOvertaken(cap, path); }
    } else {
      var front, e := run[..|run| - 1], run[|run| - 1];
      GrowingFiles(reader, cap, front, path);
      PrefixOvertaken(cap, run, path);
      if Reads(run, e.path) && Peek(Positions(cap, run), path).Some? {
        var c, last := Content(run, e.path), Offset(Positions(cap, front), e.path);
        PeekPut(Positions(cap, front), cap, e.path, NewOffset(c, last), path);
        if e.path == path {
          ExactOffset(reader, cap, run, path);
        }
      }
    }
  }

  lemma NothingOvertaken(cap: nat, path: string)
    ensures !EverOvertaken(cap, [], path)
  {
  }

  /** A poll that starts from nothing or from the end of the whole lines seen saves the end of the whole lines. */
  lemma ExactOffset(reader: LineReader, cap: nat, run: seq<Event>, path: string)
    requires Reads(run, path)
    requires var saved := Saved(cap, run, path);
      saved.Some? ==> saved.value == CompleteLength(Seen(run[..|run| - 1], path))
    ensures var c := Content(run, path);
      NewOffset(c, Offset(Positions(cap, run[..|run| - 1]), path)) == CompleteLength(c)
  {
    hide CompleteLength, Content, Positions, Peek, Seen, Reads;
    ContentAtPoll(run, path);
    var c := Content(run, path);
    ResumeIsExact(reader, Seen(run[..|run| - 1], path), c);
    assert c[0..] == c;
  }

  // ----- every reader, files replaced at any time

  /** The poll that ends the run repeats whole lines it has forgotten, or misses whole lines of a replaced file. */
  predicate Slips(cap: nat, run: seq<Event>, path: string) {
    Reads(run, path)
    && var seen := CompleteLength(Seen(run[..|run| - 1], path));
       || (Forgotten(cap, run[..|run| - 1], path) && 0 < seen)
       || (Overtakes(cap, run, path) && seen < CompleteLength(Content(run, path)))
  }

  lemma NoWholeLines(reader: LineReader, b: Bytes)
    requires CompleteLength(b) == 0
    ensures ToolEntries(reader, b) == []
  {
    hide ToolEntries, CompleteLength;
    assert b[0..] == b;
    NoLine(reader, b);
  }

  /** A poll that does not slip hands over the rest of the present generation, whatever lines mean. */
  lemma NoSlip(reader: LineReader, cap: nat, run: seq<Event>, path: string)
    requires 0 < cap && Reads(run, path) && !Slips(cap, run, path)
    ensures var front := run[..|run| - 1];
      ToolEntries(reader, Seen(front, path)) + Poll(reader, Content(run, path), Offset(Positions(cap, front), path)).0
      == ToolEntries(reader, Content(run, path))
  {
    hide CompleteLength, Content, Positions, Seen, Reads, ToolEntries, Forgotten, Overtakes, Offset, NewOffset, Saved;
    var front, c := run[..|run| - 1], Content(run, path);
    if Overtakes(cap, run, path) {
      OvertakenQuietly(reader, cap, run, path);
    } else {
      PollHandsOver(reader, cap, run, path);
      if Forgotten(cap, front, path) {
        NoWholeLines(reader, Seen(front, path));
      }
    }
  }

  /** Overtaking a file without new whole lines does no harm. */
  lemma OvertakenQuietly(reader: LineReader, cap: nat, run: seq<Event>, path: string)
    requires 0 < cap && Overtakes(cap, run, path)
    requires CompleteLength(Seen(run[..|run| - 1], path)) >= CompleteLength(Content(run, path))
    ensures ToolEntries(reader, Seen(run[..|run| - 1], path)) == ToolEntries(reader, Content(run, path))
    ensures Poll(reader, Content(run, path), Offset(Positions(cap, run[..|run| - 1]), path)).0 == []
  {
    hide CompleteLength, Content, Positions, Peek, Seen, Reads, ToolEntries, StartAt, Offset, NewOffset;
    var seen, c := Seen(run[..|run| - 1], path), Content(run, path);
    ContentAtPoll(run, path);
    PollStart(cap, run, path);
    ResumeIsExact(reader, seen, c);
    NoWholeLines(reader, c[CompleteLength(seen)..]);
    WholeLinesFrom(c, Saved(cap, run, path).value);
    NoLine(reader, c[Saved(cap, run, path).value..]);
  }

  ghost predicate NeverSlips(cap: nat, run: seq<Event>, path: string) {
    forall k :: 0 < k <= |run| ==> !Slips(cap, run[..k], path)
  }

  /** At every moment of the run, what was handed over is one read of each generation. */
  ghost predicate ExactThroughout(reader: LineReader, cap: nat, run: seq<Event>, path: string) {
    forall k :: 0 <= k <= |run| ==> Delivered(reader, cap, run[..k], path) == Wanted(reader, run[..k], path)
  }

  /** What a poll adds to what is wanted is the rest of the present generation. */
  lemma WantedAtPoll(reader: LineReader, run: seq<Event>, path: string)
    requires Reads(run, path)
    ensures var front := run[..|run| - 1];
      && Seen(front, path) <= Content(run, path)
      && Wanted(reader, run, path)
      == Wanted(reader, front, path) + ToolEntries(reader, Content(run, path)[CompleteLength(Seen(front, path))..])
  {
    hide CompleteLength, Content, ToolEntries, Reads, Seen;
    var front := run[..|run| - 1];
    ContentAtPoll(run, path);
    ReadIsNoReplacement(run, path);
    ResumeIsExact(reader, Seen(front, path), Content(run, path));
  }

  /** Nothing else changes what is wanted. */
  lemma WantedOtherwise(reader: LineReader, run: seq<Event>, path: string)
    requires run != [] && !Reads(run, path)
    ensures Wanted(reader, run, path) == Wanted(reader, run[..|run| - 1], path)
  {
    hide Content, ToolEntries, Reads;
    NoLine(reader, []);
  }

  lemma {:induction false} NeverSlippingIsExact(reader: LineReader, cap: nat, run: seq<Event>, path: string, k: nat)
    requires 0 < cap && k <= |run| && NeverSlips(cap, run, path)
    ensures Delivered(reader, cap, run[..k], path) == Wanted(reader, run[..k], path)
  {
    hide Content, ToolEntries, Reads, Slips, Poll, Offset, Positions, Seen, CompleteLength, Wanted;
    if k == 0 {
      NothingWanted(reader, cap, path);
    } else {
      var now, front := run[..k], run[..k - 1];
      NeverSlippingIsExact(reader, cap, run, path, k - 1);
      assert now[..k - 1] == front && !Slips(cap, now, path);
      if Reads(now, path) {
        NoSlip(reader, cap, now, path);
        WantedAtPoll(reader, now, path);
        var seen, c := Seen(front, path), Content(now, path);
        ResumeIsExact(reader, seen, c);
        var entries := Poll(reader, c, Offset(Positions(cap, front), path)).0;
        Cancel(ToolEntries(reader, seen), entries, ToolEntries(reader, c[CompleteLength(seen)..]));
      } else {
        WantedOtherwise(reader, now, path);
        assert Delivered(reader, cap, front, path) + [] == Delivered(reader, cap, front, path);
      }
    }
  }

  lemma Cancel<T>(a: seq<T>, x: seq<T>, y: seq<T>)
    requires a + x == a + y
    ensures x == y
  {
    assert (a + x)[|a|..] == x && (a + y)[|a|..] == y;
  }

  lemma NothingWanted(reader: LineReader, cap: nat, path: string)
    ensures Delivered(reader, cap, [], path) == Wanted(reader, [], path)
  {
  }

  // A reader for which every line counts, with its length.

  function Xs(n: nat): string {
    seq(n, _ => 'x')
  }

  function Tagging(): LineReader {
    LineReader((b: Bytes) => Xs(|b|), (text: string) => Some(Object([Field("tool_name", Str(text))])))
  }

  function Weight(entries: seq<Json>): (r: nat)
  {
    if entries == [] then 0
    else
      var e := entries[|entries| - 1];
      Weight(entries[..|entries| - 1])
      + if e.Object? && |e.fields| == 1 && e.fields[0].value.Str? then |e.fields[0].value.s| else 0
  }

  lemma {:induction false} WeightAdds(a: seq<Json>, b: seq<Json>)
    ensures Weight(a + b) == Weight(a) + Weight(b)
  {
    if b == [] {
      assert a + b == a;
    } else {
      assert (a + b)[..|a + b| - 1] == a + b[..|b| - 1];
      WeightAdds(a, b[..|b| - 1]);
    }
  }

  lemma TaggedLine(line: Bytes)
    requires line != []
    ensures EntryOf(Tagging(), line) == [Object([Field("tool_name", Str(Xs(|line|)))])]
    ensures Weight(EntryOf(Tagging(), line)) == |line|
  {
    hide Trim;
    var text := Xs(|line|);
    assert text == "" + text + "";
    TrimUnique("", text, "");
    var entry := Object([Field("tool_name", Str(text))]);
    assert IsToolEntry(entry);
    assert [entry][..0] == [];
  }

  /** Its entries weigh as much as the whole lines. */
  lemma {:induction false} TaggedWeight(b: Bytes)
    ensures Weight(ToolEntries(Tagging(), b)) == CompleteLength(b)
    decreases |b|
  {
    hide EntryOf, ToolEntries, CompleteLength, Tagging, LineLength;
    NextLine(Tagging(), b);
    var n := LineLength(b);
    if n != 0 && b[n - 1] == NEWLINE {
      TaggedLine(b[..n]);
      TaggedWeight(b[n..]);
      WeightAdds(EntryOf(Tagging(), b[..n]), ToolEntries(Tagging(), b[n..]));
    }
  }

  /** A slip changes the weight of what is handed over, so it cannot leave it exact both before and after. */
  lemma SlipShows(cap: nat, run: seq<Event>, path: string)
    requires 0 < cap && Slips(cap, run, path)
    requires Delivered(Tagging(), cap, run[..|run| - 1], path) == Wanted(Tagging(), run[..|run| - 1], path)
    ensures Delivered(Tagging(), cap, run, path) != Wanted(Tagging(), run, path)
  {
    hide Content, ToolEntries, Positions, Seen, CompleteLength, Wanted, Tagging, Offset, Weight, Reads, Forgotten;
    hide Saved, StartAt;
    hide NewOffset, Overtakes;
    var reader, front, c := Tagging(), run[..|run| - 1], Content(run, path);
    var start, seen := StartAt(c, Offset(Positions(cap, front), path)), CompleteLength(Seen(front, path));
    ContentAtPoll(run, path);
    WantedAtPoll(reader, run, path);
    WeightAdds(Wanted(reader, front, path), ToolEntries(reader, c[seen..]));
    WeightAdds(Delivered(reader, cap, front, path), ToolEntries(reader, c[start..]));
    TaggedWeight(c[seen..]);
    TaggedWeight(c[start..]);
    PollStart(cap, run, path);
    ResumeIsExact(reader, Seen(front, path), c);
    SlipWeighs(c, seen, start) by {
      if Overtakes(cap, run, path) { OvertakesStart(cap, run, path); }
    }
  }

  lemma OvertakesStart(cap: nat, run: seq<Event>, path: string)
    requires Overtakes(cap, run, path)
    ensures CompleteLength(Seen(run[..|run| - 1], path)) < Saved(cap, run, path).value <= |Content(run, path)|
  {
  }

  lemma SlipWeighs(c: Bytes, seen: nat, start: nat)
    requires seen <= |c| && start <= |c| && CompleteLength(c) == seen + CompleteLength(c[seen..])
    requires (start == 0 && 0 < seen) || (seen < start && seen < CompleteLength(c))
    ensures CompleteLength(c[start..]) != CompleteLength(c[seen..])
  {
    hide CompleteLength;
    assert c[0..] == c;
    WholeLinesFrom(c, start);
    assert NEWLINE !in c[start..] ==> CompleteLength(c[start..]) == 0 by { NoNewline(c[start..]); }
  }

  lemma NoNewline(b: Bytes)
    ensures NEWLINE !in b ==> CompleteLength(b) == 0
  {
    hide CompleteLength;
    assert 0 < CompleteLength(b) ==> b[CompleteLength(b) - 1] in b;
  }

  /**
   Files that may be truncated, rotated or rewritten at any time, exactly: at every moment of a run and whatever lines
   mean, the supervisor has been handed one read of each generation of a file, if and only if no poll came back to
   whole lines it had forgotten, and no poll found a replaced file with new whole lines at or beyond its saved offset.
   */
  lemma ReplacedFilesAreExact(cap: nat, run: seq<Event>, path: string)
    requires 0 < cap
    ensures (forall reader :: ExactThroughout(reader, cap, run, path)) <==> NeverSlips(cap, run, path)
  {
    hide Slips, Delivered, Wanted, Tagging;
    if NeverSlips(cap, run, path) {
      forall reader, k | 0 <= k <= |run|
        ensures Delivered(reader, cap, run[..k], path) == Wanted(reader, run[..k], path)
      {
        NeverSlippingIsExact(reader, cap, run, path, k);
      }
    } else {
      var k :| 0 < k <= |run| && Slips(cap, run[..k], path);
      assert run[..k][..k - 1] == run[..k - 1];
      if ExactThroughout(Tagging(), cap, run, path) {
        SlipShows(cap, run[..k], path);
      }
    }
  }

  // ----- few files

  function PolledPaths(run: seq<Event>): set<string> {
    set i | 0 <= i < |run| && run[i].PollFile? :: run[i].path
  }

  lemma {:induction false} RecencyPolled(run: seq<Event>)
    ensures forall p :: p in Recency(run) ==> p in PolledPaths(run)
  {
    hide Drop;
    if run != [] {
      var front, e := run[..|run| - 1], run[|run| - 1];
      RecencyPolled(front);
      DropIs(Recency(front), e.path);
      assert PolledPaths(front) <= PolledPaths(run) by {
        forall p | p in PolledPaths(front) ensures p in PolledPaths(run) {
          var i :| 0 <= i < |front| && front[i].PollFile? && front[i].path == p;
          assert run[i] == front[i];
        }
      }
      if Reads(run, e.path) {
        assert run[|run| - 1].path in PolledPaths(run);
      }
    }
  }

  lemma {:induction false} DistinctFit(paths: seq<string>, within: set<string>)
    requires Distinct(paths) && forall p :: p in paths ==> p in within
    ensures |paths| <= |within|
  {
    if paths != [] {
      forall p | p in paths[1..] ensures p in within - {paths[0]} {
        var i :| 0 <= i < |paths[1..]| && paths[1..][i] == p;
        assert paths[i + 1] == p;
      }
      DistinctFit(paths[1..], within - {paths[0]});
    }
  }

  lemma PolledPathsGrow(run: seq<Event>, k: nat)
    requires k <= |run|
    ensures |PolledPaths(run[..k])| <= |PolledPaths(run)|
  {
    forall p | p in PolledPaths(run[..k]) ensures p in PolledPaths(run) {
      var i :| 0 <= i < k && run[..k][i].PollFile? && run[..k][i].path == p;
      assert run[i] == run[..k][i];
    }
    SubsetSize(PolledPaths(run[..k]), PolledPaths(run));
  }

  lemma {:induction false} SubsetSize(a: set<string>, b: set<string>)
    requires a <= b
    ensures |a| <= |b|
  {
    if a != {} {
      var x :| x in a;
      SubsetSize(a - {x}, b - {x});
    }
  }

  lemma FewAreRemembered(cap: nat, run: seq<Event>, path: string)
    requires |PolledPaths(run)| <= cap
    ensures !Forgotten(cap, run, path)
  {
    hide Recency, PolledPaths;
    RecencyPolled(run);
    RecencyDistinct(run);
    DistinctFit(Recency(run), PolledPaths(run));
  }

  /**
   With at most `cap` distinct files polled nothing is ever forgotten: tailing is exact for every file no poll
   overtakes.
   */
  lemma FewFilesAreExact(reader: LineReader, cap: nat, run: seq<Event>, path: string)
    requires 0 < cap && |PolledPaths(run)| <= cap && !EverOvertaken(cap, run, path)
    ensures Delivered(reader, cap, run, path) == Wanted(reader, run, path)
  {
    hide Delivered, Wanted, PolledPaths, EverOvertaken, RereadsAt;
    forall k | 0 < k <= |run| ensures !RereadsAt(reader, cap, run[..k], path) {
      NoRereadAt(reader, cap, run, path, k);
    }
    TailingIsExact(reader, cap, run, path);
  }

  lemma NoRereadAt(reader: LineReader, cap: nat, run: seq<Event>, path: string, k: nat)
    requires |PolledPaths(run)| <= cap && 0 < k <= |run|
    ensures !RereadsAt(reader, cap, run[..k], path)
  {
    hide PolledPaths, Forgotten, Reads, ToolEntries, Seen;
    assert run[..k][..|run[..k]| - 1] == run[..k - 1];
    PolledPathsGrow(run, k - 1);
    FewAreRemembered(cap, run[..k - 1], path);
  }

  /** A poll that ends the run leaves nothing behind but an unfinished last line. */
  lemma PollCatchesUp(reader: LineReader, cap: nat, run: seq<Event>, path: string)
    requires 0 < cap && |PolledPaths(run)| <= cap && !EverOvertaken(cap, run, path) && Reads(run, path)
    ensures Delivered(reader, cap, run, path) == Earlier(reader, run, path) + ToolEntries(reader, Content(run, path))
  {
    hide Delivered, ToolEntries, PolledPaths, Content, EverOvertaken;
    FewFilesAreExact(reader, cap, run, path);
  }

  // ----- runs that fail

  lemma ExistsStep(run: seq<Event>, e: Event)
    ensures forall p :: Exists(run, p) ==> Exists(run + [e], p)
    ensures !e.PollFile? ==> Exists(run + [e], e.path)
  {
    var next := run + [e];
    assert next[|run|] == e;
    forall p | Exists(run, p) ensures Exists(next, p) {
      var i :| 0 <= i < |run| && !run[i].PollFile? && run[i].path == p;
      assert next[i] == run[i];
    }
  }

  lemma WriteStep(run: seq<Event>, e: Event, path: string)
    requires !e.PollFile?
    ensures var next := run + [e];
      && next[..|run|] == run && Recency(next) == Recency(run) && Exists(next, e.path)
      && (Exists(run, path) ==> Exists(next, path))
      && Content(next, path) == (if e.path != path then Content(run, path)
                                 else if e.Append? then Content(run, path) + e.data else e.data)
      && Seen(next, path) == if e.Replace? && path == e.path then [] else Seen(run, path)
  {
    hide Exists;
    var next := run + [e];
    assert next[..|run|] == run && next[|run|] == e;
    ExistsStep(run, e);
  }

  lemma WriteKeeps(reader: LineReader, cap: nat, run: seq<Event>, e: Event, path: string)
    requires !e.PollFile?
    ensures var next := run + [e];
      && Positions(cap, next) == Positions(cap, run)
      && Delivered(reader, cap, next, path) == Delivered(reader, cap, run, path)
      && Earlier(reader, next, path) ==
           Earlier(reader, run, path)
           + if e.Replace? && e.path == path then ToolEntries(reader, Seen(run, path)) else []
  {
    hide Exists, Seen, ToolEntries, Content, Poll;
    var next := run + [e];
    assert next[..|run|] == run && next[|run|] == e;
  }

  lemma PollKeeps(reader: LineReader, cap: nat, run: seq<Event>, path: string)
    requires Exists(run, path)
    ensures var next := run + [PollFile(path, true)];
      var last := Offset(Positions(cap, run), path);
      && Positions(cap, next) == Put(Positions(cap, run), cap, path, NewOffset(Content(run, path), last))
      && Delivered(reader, cap, next, path) ==
          Delivered(reader, cap, run, path) + Poll(reader, Content(run, path), last).0
      && Earlier(reader, next, path) == Earlier(reader, run, path)
  {
    hide Exists, Seen, ToolEntries, Poll, Put, NewOffset, Offset;
    var next := run + [PollFile(path, true)];
    assert next[..|run|] == run && next[|run|] == PollFile(path, true);
  }

  lemma PollStep(run: seq<Event>, polled: string, path: string)
    requires Exists(run, polled)
    ensures var next := run + [PollFile(polled, true)];
      && Reads(next, polled) && next[..|run|] == run
      && Recency(next) == [polled] + Drop(Recency(run), polled)
      && (Exists(run, path) ==> Exists(next, path))
      && Content(next, path) == Content(run, path)
      && Seen(next, path) == if path == polled then Content(next, path) else Seen(run, path)
  {
    hide Drop, Exists;
    var next := run + [PollFile(polled, true)];
    assert next[..|run|] == run;
    ExistsStep(run, PollFile(polled, true));
  }

  /** The bound matters: with room for one file, returning to the first of two hands its entries over twice. */
  lemma ForgettingRepeats(reader: LineReader, a: string, b: string, line: Bytes)
    requires a != b && ToolEntries(reader, line) != []
    ensures var run := [] + [Append(a, line)] + [PollFile(a, true)] + [Append(b, [])] + [PollFile(b, true)]
                       + [PollFile(a, true)];
      Delivered(reader, 1, run, a) != Wanted(reader, run, a)
  {
    hide ToolEntries, Delivered, Content, Exists, Seen, Recency, Reads, EverOvertaken, Wanted, NeverReplaced, Earlier;
    var r4 := [] + [Append(a, line)] + [PollFile(a, true)] + [Append(b, [])] + [PollFile(b, true)];
    var run := r4 + [PollFile(a, true)];
    TwoReads(a, b, line);
    PollStep(r4, a, a);
    StillGrowing(r4, PollFile(a, true), a);
    assert run[..|run|] == run && run[..|run| - 1] == r4;
    assert RereadsAt(reader, 1, run[..|run|], a);
    GrowingFiles(reader, 1, run, a);
    TailingIsExact(reader, 1, run, a);
  }

  lemma TwoReads(a: string, b: string, line: Bytes)
    requires a != b
    ensures var run := [] + [Append(a, line)] + [PollFile(a, true)] + [Append(b, [])] + [PollFile(b, true)];
      Recency(run) == [b, a] && Seen(run, a) == line && Exists(run, a) && NeverReplaced(run, a)
  {
    hide Content, Exists, Seen, Recency, Reads, Drop, NeverReplaced;
    var r0: seq<Event> := [];
    var r1 := r0 + [Append(a, line)];
    var r2 := r1 + [PollFile(a, true)];
    var r3 := r2 + [Append(b, [])];
    AtStart(a);
    WriteStep(r0, Append(a, line), a);
    PollStep(r1, a, a);
    WriteStep(r2, Append(b, []), a);
    PollStep(r3, b, a);
    StillGrowing(r0, Append(a, line), a);
    StillGrowing(r1, PollFile(a, true), a);
    StillGrowing(r2, Append(b, []), a);
    StillGrowing(r3, PollFile(b, true), a);
    assert [] + line == line && [a] + [] == [a] && [b] + [a] == [b, a];
    assert Recency(r2) == [a];
    DropIs([a], b);
  }

  lemma StillGrowing(run: seq<Event>, e: Event, path: string)
    requires NeverReplaced(run, path) && !(e.Replace? && e.path == path)
    ensures NeverReplaced(run + [e], path)
  {
  }

  lemma AtStart(path: string)
    ensures Recency([]) == [] && Content([], path) == [] && Drop([], path) == [] && Seen([], path) == []
    ensures NeverReplaced([], path)
  {
  }

  /** The length matters: a file replaced by one of the same length is not read, and its entries are missed. */
  lemma ReplacementMissed(reader: LineReader, cap: nat, path: string, first: Bytes, second: Bytes)
    requires 0 < cap && WholeLines(first) && WholeLines(second) && |first| == |second| > 0
    ensures var run := [] + [Append(path, first)] + [PollFile(path, true)] + [Replace(path, second)]
                       + [PollFile(path, true)];
      && Delivered(reader, cap, run, path) == ToolEntries(reader, first)
      && Wanted(reader, run, path) == ToolEntries(reader, first) + ToolEntries(reader, second)
      && Slips(cap, run, path)
  {
    hide ToolEntries, CompleteLength, Delivered, Content, Exists, Seen, Recency, Reads, Positions, Earlier, Peek;
    hide WholeLines;
    var r2 := [] + [Append(path, first)] + [PollFile(path, true)];
    var r3 := r2 + [Replace(path, second)];
    var run := r3 + [PollFile(path, true)];
    ReadOnce(reader, cap, path, first);
    WriteStep(r2, Replace(path, second), path);
    WriteKeeps(reader, cap, r2, Replace(path, second), path);
    PollStep(r3, path, path);
    PollKeeps(reader, cap, r3, path);
    AllWhole(second);
    NothingYet(reader, cap, path);
    NoLine(reader, second[|second|..]);
    assert run[..|run| - 1] == r3;
  }

  /** A file written and polled: all of it is handed over, and the offset is its length. */
  lemma ReadOnce(reader: LineReader, cap: nat, path: string, data: Bytes)
    requires 0 < cap && WholeLines(data)
    ensures var run := [] + [Append(path, data)] + [PollFile(path, true)];
      && Delivered(reader, cap, run, path) == ToolEntries(reader, data) && Earlier(reader, run, path) == []
      && Exists(run, path) && Seen(run, path) == data && Peek(Positions(cap, run), path) == Some(|data|)
  {
    hide ToolEntries, CompleteLength, Delivered, Content, Exists, Seen, Recency, Reads, Drop, Positions, Earlier, Peek;
    hide Put;
    hide WholeLines;
    var r0: seq<Event> := [];
    var r1 := r0 + [Append(path, data)];
    AtStart(path);
    NothingYet(reader, cap, path);
    WriteStep(r0, Append(path, data), path);
    WriteKeeps(reader, cap, r0, Append(path, data), path);
    PollStep(r1, path, path);
    PollKeeps(reader, cap, r1, path);
    assert [] + data == data && data[0..] == data;
    AllWhole(data);
    OnlySlot(cap, path, |data|);
  }

  lemma NothingYet(reader: LineReader, cap: nat, path: string)
    ensures Delivered(reader, cap, [], path) == Earlier(reader, [], path) == [] && Positions(cap, []) == []
    ensures Offset([], path) == 0 && CompleteLength([]) == 0 && ToolEntries(reader, []) == []
  {
  }

  lemma OnlySlot(cap: nat, path: string, pos: nat)
    requires 0 < cap
    ensures Peek(Put([], cap, path, pos), path) == Some(pos)
  {
  }

  lemma AllWhole(b: Bytes)
    requires WholeLines(b)
    ensures CompleteLength(b) == |b|
  {
    hide CompleteLength;
    NoNewlineBehind(b);
    NoWholeLine();
  }

  // ----- the event loop

  function Handed(handed: map<string, seq<Json>>, path: string): seq<Json> {
    if path in handed then handed[path] else []
  }

  ghost predicate FilesAfter(files: map<string, Bytes>, run: seq<Event>) {
    forall path :: (path in files <==> Exists(run, path)) && (path in files ==> files[path] == Content(run, path))
  }

  /** The files after one more event. */
  function Written(files: map<string, Bytes>, e: Event): map<string, Bytes> {
    match e
    case Append(path, data) => files[path := (if path in files then files[path] else []) + data]
    case Replace(path, data) => files[path := data]
    case PollFile(_, _) => files
  }

  lemma ExtendFiles(files: map<string, Bytes>, run: seq<Event>, e: Event)
    requires FilesAfter(files, run)
    ensures FilesAfter(Written(files, e), run + [e])
  {
    var all := run + [e];
    assert all[..|run|] == run;
    forall path ensures Exists(all, path) <==> Exists(run, path) || (!e.PollFile? && e.path == path) {
      if Exists(run, path) {
        var i :| 0 <= i < |run| && !run[i].PollFile? && run[i].path == path;
        assert all[i] == run[i];
      }
      assert all[|run|] == e;
    }
    NothingWritten(run);
  }

  lemma {:induction false} NothingWritten(run: seq<Event>)
    ensures forall path :: !Exists(run, path) ==> Content(run, path) == []
  {
    if run != [] {
      var front := run[..|run| - 1];
      NothingWritten(front);
      forall path | !Exists(run, path) ensures Content(run, path) == [] {
        assert !run[|run| - 1].PollFile? ==> run[|run| - 1].path != path;
      }
    }
  }

  /** The watcher and what it handed over are where a run leaves them. */
  ghost predicate Watched(watcher: Watcher, reader: LineReader, run: seq<Event>, handed: map<string, seq<Json>>)
    reads watcher
  {
    && watcher.positions == Positions(watcher.cap, run)
    && forall path :: Handed(handed, path) == Delivered(reader, watcher.cap, run, path)
  }

  /** What one more event changes in offsets and deliveries. */
  lemma EventStep(reader: LineReader, cap: nat, run: seq<Event>, e: Event, path: string)
    ensures var next, last := run + [e], Offset(Positions(cap, run), e.path);
      && (Positions(cap, next) == if Reads(next, e.path)
            then Put(Positions(cap, run), cap, e.path, NewOffset(Content(next, e.path), last)) else Positions(cap, run))
      && (Delivered(reader, cap, next, path) == Delivered(reader, cap, run, path)
            + if path == e.path && Reads(next, e.path) then Poll(reader, Content(next, e.path), last).0 else [])
  {
    hide Poll, Put, NewOffset, Content, Exists, Offset;
    assert (run + [e])[..|run|] == run && (run + [e])[|run|] == e;
  }

  /** A poll reads to the end exactly when it can and the file is there. */
  lemma ReadsWhen(files: map<string, Bytes>, run: seq<Event>, e: Event)
    requires FilesAfter(files, run) && e.PollFile?
    ensures Reads(run + [e], e.path) <==> e.succeeds && e.path in files
    ensures e.path in files ==> files[e.path] == Content(run + [e], e.path)
  {
    hide Exists;
    assert (run + [e])[..|run|] == run && (run + [e])[|run|] == e;
  }

  /** One event of the loop: a poll reads the file on, anything else only changes files. */
  method HandleEvent(watcher: Watcher, reader: LineReader, files: map<string, Bytes>, handed: map<string, seq<Json>>,
                     e: Event, ghost run: seq<Event>)
    returns (handed': map<string, seq<Json>>)
    requires Watched(watcher, reader, run, handed) && FilesAfter(files, run)
    modifies watcher
    ensures Watched(watcher, reader, run + [e], handed')
  {
    hide NewOffset, StartAt, Put, Content, Exists, Peek, Positions, Delivered, Reads, FilesAfter, ToolEntries;
    ghost var next := run + [e];
    forall path ensures Delivered(reader, watcher.cap, next, path) == Delivered(reader, watcher.cap, run, path)
      + if path == e.path && Reads(next, e.path)
        then Poll(reader, Content(next, e.path), Offset(Positions(watcher.cap, run), e.path)).0 else []
    {
      EventStep(reader, watcher.cap, run, e, path);
    }
    EventStep(reader, watcher.cap, run, e, e.path);
    handed' := handed;
    if e.PollFile? {
      ReadsWhen(files, run, e);
      var content := if e.path in files then Some(files[e.path]) else None;
      var entries := watcher.ReadNewEntries(reader, e.path, content, if e.succeeds then None else Some(0));
      if entries.Some? {
        handed' := handed[e.path := Handed(handed, e.path) + entries.value];
      }
    } else {
      assert !Reads(next, e.path) by { NoPoll(run, e); }
    }
  }

  lemma NoPoll(run: seq<Event>, e: Event)
    requires !e.PollFile?
    ensures !Reads(run + [e], e.path)
  {
  }

  /** The watcher driven through a run computes the offsets and the entries the lemmas above speak of. */
  method Watch(watcher: Watcher, reader: LineReader, run: seq<Event>) returns (handed: map<string, seq<Json>>)
    requires watcher.positions == []
    modifies watcher
    ensures Watched(watcher, reader, run, handed)
  {
    hide FilesAfter;
    var files: map<string, Bytes> := map[];
    handed := map[];
    assert run[..0] == [];
    NoFiles();
    for k := 0 to |run|
      invariant FilesAfter(files, run[..k]) && Watched(watcher, reader, run[..k], handed)
    {
      assert run[..k + 1] == run[..k] + [run[k]];
      hide Watched;
      ExtendFiles(files, run[..k], run[k]);
      handed := HandleEvent(watcher, reader, files, handed, run[k], run[..k]);
      files := Written(files, run[k]);
    }
    assert run[..|run|] == run;
  }

  lemma NoFiles()
    ensures FilesAfter(map[], [])
  {
  }
}
