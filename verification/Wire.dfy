/**
 The two wire framings of the agent-forge MCP server: one JSON value per line (NDJSON) and LSP-style
 `Content-Length` headers. Each reader is a function of the bytes still to come; `Transport` has the same readers as
 methods over a buffered stream that hands those bytes out in arbitrary chunks.
 */
module Wire {
  import opened Wrappers
  import opened Utf8
  import opened Text

  const MAX_MCP_MESSAGE_SIZE: nat := 10 * 1024 * 1024
  const NEWLINE: Byte := 10
  const LENGTH_HEADER: string := "Content-Length:"

  datatype Framing = Ndjson | ContentLength

  datatype ReadError = LineTooLong | InvalidUtf8 | InvalidLength | LengthTooLarge | MissingLength | UnexpectedEof

  /** What a reader finds in the bytes ahead, and what it leaves behind. */
  datatype Step<+T> = EndOfInput | Got(value: T, rest: Bytes) | Err(error: ReadError)

  // ----- lines

  function IndexOf(b: Bytes, x: Byte): (i: nat)
    ensures i <= |b| && x !in b[..i]
    ensures if i < |b| then b[i] == x else x !in b
  {
    if b == [] || b[0] == x then 0
    else
      var i := 1 + IndexOf(b[1..], x);
      assert b[..i] == [b[0]] + b[1..][..i - 1];
      i
  }

  lemma {:induction false} IndexOfUnique(a: Bytes, b: Bytes, x: Byte)
    requires x !in a && b != [] && b[0] == x
    ensures IndexOf(a + b, x) == |a|
  {
    if a == [] {
      assert a + b == b;
    } else {
      assert (a + b)[1..] == a[1..] + b;
      IndexOfUnique(a[1..], b, x);
    }
  }

  /** Length of the first line, its newline included. */
  function LineLength(b: Bytes): (n: nat)
    ensures n <= |b| && (b != [] ==> 0 < n)
  {
    var i := IndexOf(b, NEWLINE);
    if i < |b| then i + 1 else i
  }

  function ReadLine(b: Bytes): (r: Step<string>)
    ensures r.Got? ==> |r.rest| < |b|
  {
    if b == [] then EndOfInput
    else
      var n := LineLength(b);
      if n > MAX_MCP_MESSAGE_SIZE then Err(LineTooLong)
      else match Decode(b[..n])
        case None => Err(InvalidUtf8)
        case Some(text) => Got(text, b[n..])
  }

  // ----- messages

  predicate HasLengthHeader(s: string) {
    StartsWith(s, LENGTH_HEADER)
  }

  function ParseContentLength(header: string): (r: Step<nat>)
    ensures r.Got? ==> r.value <= MAX_MCP_MESSAGE_SIZE
    ensures !r.EndOfInput?
  {
    if !HasLengthHeader(header) then Err(InvalidLength)
    else match ParseUsize(Trim(header[|LENGTH_HEADER|..]))
      case None => Err(InvalidLength)
      case Some(n) => if n > MAX_MCP_MESSAGE_SIZE then Err(LengthTooLarge) else Got(n, [])
  }

  function ReadBody(b: Bytes, length: nat): (r: Step<Bytes>)
    ensures !r.EndOfInput?
    ensures r.Got? ==> |r.rest| <= |b|
  {
    if |b| < length then Err(UnexpectedEof) else Got(b[..length], b[length..])
  }

  /** Drop header lines up to a blank one, or to the end of the input. */
  function SkipHeaders(b: Bytes): (r: Step<()>)
    ensures r.Got? ==> |r.rest| <= |b|
    ensures !r.EndOfInput?
    decreases |b|
  {
    hide Trim, Decode, Encode, HasLengthHeader, ReadLine;
    match ReadLine(b)
    case EndOfInput => Got((), [])
    case Err(e) => Err(e)
    case Got(line, rest) => if Trim(line) == "" then Got((), rest) else SkipHeaders(rest)
  }

  function ReadFirst(b: Bytes): (r: Step<(Bytes, Framing)>)
    ensures r.Got? ==> |r.rest| < |b|
    decreases |b|
  {
    hide Trim, Decode, Encode, HasLengthHeader, ReadLine, ParseContentLength, ReadBody;
    match ReadLine(b)
    case EndOfInput => EndOfInput
    case Err(e) => Err(e)
    case Got(line, rest) =>
      var trimmed := Trim(line);
      if trimmed == "" then ReadFirst(rest)
      else if HasLengthHeader(trimmed) then
        match ParseContentLength(trimmed)
        case Err(e) => Err(e)
        case Got(length, _) =>
          match SkipHeaders(rest)
          case Err(e) => Err(e)
          case Got(_, afterHeaders) =>
            match ReadBody(afterHeaders, length)
            case Err(e) => Err(e)
            case Got(body, after) => Got((body, ContentLength), after)
      else Got((Encode(trimmed), Ndjson), rest)
  }

  function ReadNextLine(b: Bytes): (r: Step<Bytes>)
    ensures r.Got? ==> |r.rest| < |b|
    decreases |b|
  {
    hide Trim, Decode, Encode, HasLengthHeader, ReadLine;
    match ReadLine(b)
    case EndOfInput => EndOfInput
    case Err(e) => Err(e)
    case Got(line, rest) => if Trim(line) != "" then Got(Encode(Trim(line)), rest) else ReadNextLine(rest)
  }

  /** Read headers, the last `Content-Length` winning, then the body. */
  function ReadHeaders(b: Bytes, length: Option<nat>): (r: Step<Bytes>)
    ensures r.Got? ==> |r.rest| < |b|
    decreases |b|
  {
    hide Trim, Decode, Encode, HasLengthHeader, ReadLine, ParseContentLength, ReadBody;
    match ReadLine(b)
    case EndOfInput => EndOfInput
    case Err(e) => Err(e)
    case Got(line, rest) =>
      var trimmed := Trim(line);
      if trimmed == "" then
        if length.None? then Err(MissingLength) else ReadBody(rest, length.value)
      else if HasLengthHeader(trimmed) then
        match ParseContentLength(trimmed)
        case Err(e) => Err(e)
        case Got(n, _) => ReadHeaders(rest, Some(n))
      else ReadHeaders(rest, length)
  }

  function ReadNext(b: Bytes, framing: Framing): (r: Step<Bytes>)
    ensures r.Got? ==> |r.rest| < |b|
  {
    match framing
    case Ndjson => ReadNextLine(b)
    case ContentLength => ReadHeaders(b, None)
  }

  // ----- whole inputs

  datatype End = AtEof | Failed(error: ReadError)

  /** Everything a session reads: the framing it settles on, the message bodies in order, and how it ends. */
  datatype Transcript = Transcript(framing: Option<Framing>, bodies: seq<Bytes>, end: End)

  function ReadRest(b: Bytes, framing: Framing): (r: (seq<Bytes>, End))
    decreases |b|
  {
    match ReadNext(b, framing)
    case EndOfInput => ([], AtEof)
    case Err(e) => ([], Failed(e))
    case Got(body, rest) => var (bodies, end) := ReadRest(rest, framing); ([body] + bodies, end)
  }

  function ReadAll(b: Bytes): (r: Transcript)
  {
    match ReadFirst(b)
    case EndOfInput => Transcript(None, [], AtEof)
    case Err(e) => Transcript(None, [], Failed(e))
    case Got((body, framing), rest) =>
      var (bodies, end) := ReadRest(rest, framing);
      Transcript(Some(framing), [body] + bodies, end)
  }

  // ----- the writer

  function Frame(body: Bytes, framing: Framing): (r: Bytes)
  {
    match framing
    case Ndjson => body + [NEWLINE]
    case ContentLength => Encode(LENGTH_HEADER + " " + Numeral(|body|) + "\r\n" + "\r\n") + body
  }

  function FrameAll(bodies: seq<Bytes>, framing: Framing): (r: Bytes)
  {
    if bodies == [] then [] else Frame(bodies[0], framing) + FrameAll(bodies[1..], framing)
  }

  /** What a body must look like to survive its framing. */
  predicate Admissible(body: Bytes, framing: Framing) {
    match framing
    case ContentLength => |body| <= MAX_MCP_MESSAGE_SIZE
    case Ndjson =>
      && |body| + 1 <= MAX_MCP_MESSAGE_SIZE
      && var t := Decode(body);
      && t.Some? && t.value != "" && Trimmed(t.value) && '\n' !in t.value
  }

  predicate AllAdmissible(bodies: seq<Bytes>, framing: Framing) {
    forall i :: 0 <= i < |bodies| ==> Admissible(bodies[i], framing)
  }

  predicate LooksLikeHeader(body: Bytes) {
    Encode(LENGTH_HEADER) <= body
  }

  // ----- single lines and headers read back

  /** A newline-terminated text within the cap is read back whole. */
  lemma ReadWrittenLine(text: string, rest: Bytes)
    requires '\n' !in text && |Encode(text)| + 1 <= MAX_MCP_MESSAGE_SIZE
    ensures ReadLine(Encode(text) + [NEWLINE] + rest) == Got(text + "\n", rest)
  {
    var e := Encode(text);
    var b := e + [NEWLINE] + rest;
    AsciiInEncode(text, '\n');
    assert b == e + ([NEWLINE] + rest);
    IndexOfUnique(e, [NEWLINE] + rest, NEWLINE);
    EncodeConcat(text, "\n");
    assert Encode("\n") == [NEWLINE];
    assert b[..|e| + 1] == Encode(text + "\n");
    DecodeEncode(text + "\n");
    assert b[|e| + 1..] == rest;
  }

  lemma ReadOverlongLine(text: string, rest: Bytes)
    requires '\n' !in text && |Encode(text)| + 1 > MAX_MCP_MESSAGE_SIZE
    ensures ReadLine(Encode(text) + [NEWLINE] + rest) == Err(LineTooLong)
  {
    hide Encode, Decode;
    AsciiInEncode(text, '\n');
    assert Encode(text) + [NEWLINE] + rest == Encode(text) + ([NEWLINE] + rest);
    IndexOfUnique(Encode(text), [NEWLINE] + rest, NEWLINE);
  }

  lemma {:induction false} EncodeAscii(s: string)
    requires forall i :: 0 <= i < |s| ==> s[i] as int < 0x80
    ensures |Encode(s)| == |s|
  {
    if s != "" {
      EncodeAscii(s[1..]);
    }
  }

  lemma {:induction false} NumeralShort(n: nat)
    ensures |Numeral(n)| <= 1 + n / 10
  {
    if 10 <= n {
      NumeralShort(n / 10);
    }
  }

  lemma TrimBetween(s: string, space: string)
    requires Trimmed(s) && Blank(space)
    ensures Trim(s + space) == s
  {
    assert s + space == "" + s + space;
    TrimUnique("", s, space);
  }

  /** The header line the writer emits, without its line break. */
  function HeaderLine(n: nat): (r: string)
    ensures Trimmed(r) && r != "" && '\n' !in r && HasLengthHeader(r)
    ensures |Encode(r)| == 16 + |Numeral(n)|
  {
    HeaderLineShape(Numeral(n));
    LENGTH_HEADER + " " + Numeral(n)
  }

  lemma HeaderLineShape(digits: string)
    requires digits != "" && AllDigits(digits)
    ensures var r := LENGTH_HEADER + " " + digits;
      Trimmed(r) && r != "" && '\n' !in r && HasLengthHeader(r) && |Encode(r)| == 16 + |digits|
  {
    hide Encode;
    var r := LENGTH_HEADER + " " + digits;
    assert forall i :: 16 <= i < |r| ==> IsDigit(r[i]);
    assert r[0] == 'C' && r[|r| - 1] == digits[|digits| - 1];
    EncodeAscii(r);
  }

  lemma ParseHeaderLine(n: nat)
    ensures n <= MAX_MCP_MESSAGE_SIZE ==> ParseContentLength(HeaderLine(n)) == Got(n, [])
    ensures n > MAX_MCP_MESSAGE_SIZE ==> ParseContentLength(HeaderLine(n)).Err?
  {
    hide Trim;
    var value := HeaderLine(n)[|LENGTH_HEADER|..];
    assert value == " " + Numeral(n) + "";
    TrimUnique(" ", Numeral(n), "");
    NumeralValue(n);
  }

  /** Two terminated lines, encoded one after the other. */
  lemma EncodeTwoLines(x: string, y: string)
    ensures Encode(x + "\n" + y + "\n") == Encode(x) + [NEWLINE] + (Encode(y) + [NEWLINE])
  {
    hide Encode;
    EncodeConcat(x + "\n" + y, "\n");
    EncodeConcat(x + "\n", y);
    EncodeConcat(x, "\n");
    EncodeNewline();
  }

  lemma EncodeNewline()
    ensures Encode("\n") == [NEWLINE]
  {
  }

  /** The frame of a body is a header line, a blank line and the body. */
  lemma FrameParts(body: Bytes, rest: Bytes)
    ensures Frame(body, ContentLength) + rest
         == Encode(HeaderLine(|body|) + "\r") + [NEWLINE] + (Encode("\r") + [NEWLINE] + (body + rest))
  {
    hide Encode, HasLengthHeader, Numeral;
    var h := HeaderLine(|body|);
    EncodeTwoLines(h + "\r", "\r");
    HeaderText(|body|);
    var e := Encode((h + "\r") + "\n" + "\r" + "\n");
    var first, second := Encode(h + "\r") + [NEWLINE], Encode("\r") + [NEWLINE];
    assert e == first + second;
    assert first + second + body + rest == first + (second + (body + rest));
  }

  lemma HeaderText(n: nat)
    ensures LENGTH_HEADER + " " + Numeral(n) + "\r\n" + "\r\n" == (HeaderLine(n) + "\r") + "\n" + "\r" + "\n"
  {
    hide Numeral, HasLengthHeader, Encode, LENGTH_HEADER;
  }

  lemma ReadWrittenHeader(n: nat, rest: Bytes)
    requires |Encode(HeaderLine(n) + "\r")| + 1 <= MAX_MCP_MESSAGE_SIZE
    ensures ReadLine(Encode(HeaderLine(n) + "\r") + [NEWLINE] + rest) == Got(HeaderLine(n) + "\r\n", rest)
    ensures Trim(HeaderLine(n) + "\r\n") == HeaderLine(n)
  {
    ReadWrittenLine(HeaderLine(n) + "\r", rest);
    assert HeaderLine(n) + "\r" + "\n" == HeaderLine(n) + "\r\n";
    TrimBetween(HeaderLine(n), "\r\n");
  }

  lemma ReadWrittenBlank(rest: Bytes)
    ensures ReadLine(Encode("\r") + [NEWLINE] + rest) == Got("\r\n", rest)
    ensures Trim("\r\n") == ""
  {
    EncodeAscii("\r");
    ReadWrittenLine("\r", rest);
    assert "\r" + "\n" == "\r\n";
    TrimBetween("", "\r\n");
  }

  lemma HeaderLength(n: nat)
    requires n <= MAX_MCP_MESSAGE_SIZE
    ensures |Encode(HeaderLine(n) + "\r")| + 1 <= MAX_MCP_MESSAGE_SIZE
  {
    EncodeConcat(HeaderLine(n), "\r");
    EncodeAscii("\r");
    NumeralShort(n);
  }

  /** Reading just after a `Content-Length` frame was written: the body comes back exactly when it fits the cap. */
  lemma ReadFramed(body: Bytes, rest: Bytes)
    ensures |body| <= MAX_MCP_MESSAGE_SIZE ==>
              && ReadHeaders(Frame(body, ContentLength) + rest, None) == Got(body, rest)
              && ReadFirst(Frame(body, ContentLength) + rest) == Got((body, ContentLength), rest)
    ensures |body| > MAX_MCP_MESSAGE_SIZE ==>
              && ReadHeaders(Frame(body, ContentLength) + rest, None).Err?
              && ReadFirst(Frame(body, ContentLength) + rest).Err?
  {
    hide Trim, Decode, Encode, HasLengthHeader, ReadLine, ParseContentLength, LineLength;
    var h := HeaderLine(|body|);
    var tail := Encode("\r") + [NEWLINE] + (body + rest);
    var b := Frame(body, ContentLength) + rest;
    FrameParts(body, rest);
    ParseHeaderLine(|body|);
    if |Encode(h + "\r")| + 1 <= MAX_MCP_MESSAGE_SIZE {
      ReadWrittenHeader(|body|, tail);
      ReadWrittenBlank(body + rest);
      assert (body + rest)[..|body|] == body && (body + rest)[|body|..] == rest;
    } else {
      if |body| <= MAX_MCP_MESSAGE_SIZE { HeaderLength(|body|); }
      ReadOverlongLine(h + "\r", tail);
    }
  }

  /** Reading just after an NDJSON frame of an admissible body was written. */
  lemma ReadFramedLine(body: Bytes, rest: Bytes)
    requires Admissible(body, Ndjson)
    ensures ReadNextLine(Frame(body, Ndjson) + rest) == Got(body, rest)
    ensures !LooksLikeHeader(body) ==> ReadFirst(Frame(body, Ndjson) + rest) == Got((body, Ndjson), rest)
  {
    hide Trim, Decode, Encode, ReadLine;
    var t := Decode(body).value;
    EncodeDecode(body);
    ReadWrittenLine(t, rest);
    TrimBetween(t, "\n");
    if HasLengthHeader(t) {
      EncodeConcat(LENGTH_HEADER, t[|LENGTH_HEADER|..]);
      assert t == LENGTH_HEADER + t[|LENGTH_HEADER|..];
    }
  }

  // ----- whole transcripts read back

  lemma ReadNextEmpty(framing: Framing)
    ensures ReadNext([], framing) == EndOfInput
  {
    assert ReadLine([]) == EndOfInput;
  }

  /** How reading ends on bytes that hold no further message. */
  function EndOf(tail: Bytes, framing: Framing): End
    requires !ReadNext(tail, framing).Got?
  {
    match ReadNext(tail, framing) case EndOfInput => AtEof case Err(e) => Failed(e)
  }

  /** Written bodies are read back whatever follows them, and reading ends as it ends on what follows. */
  lemma {:induction false} ReadFramedThen(bodies: seq<Bytes>, tail: Bytes, framing: Framing)
    requires AllAdmissible(bodies, framing) && !ReadNext(tail, framing).Got?
    ensures ReadRest(FrameAll(bodies, framing) + tail, framing) == (bodies, EndOf(tail, framing))
    decreases |bodies|
  {
    hide ReadNext, Frame, Admissible;
    if bodies == [] {
      assert FrameAll(bodies, framing) + tail == tail;
    } else {
      var rest := FrameAll(bodies[1..], framing) + tail;
      hide EndOf;
      ReadNextFrame(bodies[0], rest, framing);
      ReadFramedThen(bodies[1..], tail, framing);
      assert FrameAll(bodies, framing) + tail == Frame(bodies[0], framing) + rest;
      assert bodies == [bodies[0]] + bodies[1..];
    }
  }

  lemma ReadNextFrame(body: Bytes, rest: Bytes, framing: Framing)
    requires Admissible(body, framing)
    ensures ReadNext(Frame(body, framing) + rest, framing) == Got(body, rest)
  {
    hide Decode, Encode, ReadNextLine, ReadHeaders, Frame, Trimmed;
    if framing == Ndjson { ReadFramedLine(body, rest); } else { ReadFramed(body, rest); }
  }

  lemma ReadFirstFrame(body: Bytes, rest: Bytes, framing: Framing)
    requires Admissible(body, framing) && (framing == Ndjson ==> !LooksLikeHeader(body))
    ensures ReadFirst(Frame(body, framing) + rest) == Got((body, framing), rest)
  {
    hide Decode, Encode, ReadFirst, ReadHeaders, ReadNextLine, Frame, Trimmed, LooksLikeHeader;
    if framing == Ndjson { ReadFramedLine(body, rest); } else { ReadFramed(body, rest); }
  }

  lemma ReadAllThen(bodies: seq<Bytes>, tail: Bytes, framing: Framing)
    requires bodies != [] && AllAdmissible(bodies, framing) && !ReadNext(tail, framing).Got?
    requires framing == Ndjson ==> !LooksLikeHeader(bodies[0])
    ensures ReadAll(FrameAll(bodies, framing) + tail) == Transcript(Some(framing), bodies, EndOf(tail, framing))
  {
    hide ReadFirst, ReadNext, Frame, ReadRest, LooksLikeHeader, EndOf, Admissible;
    var rest := FrameAll(bodies[1..], framing) + tail;
    assert FrameAll(bodies, framing) + tail == Frame(bodies[0], framing) + rest;
    ReadFirstFrame(bodies[0], rest, framing);
    ReadFramedThen(bodies[1..], tail, framing);
    assert bodies == [bodies[0]] + bodies[1..];
  }

  lemma ReadFramedRest(bodies: seq<Bytes>, framing: Framing)
    requires AllAdmissible(bodies, framing)
    ensures ReadRest(FrameAll(bodies, framing), framing) == (bodies, AtEof)
  {
    hide ReadNext, FrameAll, AllAdmissible;
    ReadNextEmpty(framing);
    ReadFramedThen(bodies, [], framing);
    assert FrameAll(bodies, framing) + [] == FrameAll(bodies, framing);
  }

  /** A `Content-Length` stream with an oversized body never reaches a clean end of input. */
  lemma {:induction false} OversizedBodyFails(bodies: seq<Bytes>)
    requires !AllAdmissible(bodies, ContentLength)
    ensures ReadRest(FrameAll(bodies, ContentLength), ContentLength).1.Failed?
  {
    hide ReadHeaders, Frame, Encode, Decode;
    var rest := FrameAll(bodies[1..], ContentLength);
    ReadFramed(bodies[0], rest);
    if Admissible(bodies[0], ContentLength) {
      var i :| 0 <= i < |bodies| && !Admissible(bodies[i], ContentLength);
      assert bodies[1..][i - 1] == bodies[i];
      OversizedBodyFails(bodies[1..]);
    }
  }

  predicate NewlineTerminated(b: Bytes) {
    b == [] || b[|b| - 1] == NEWLINE
  }

  /** Whatever NDJSON reading returns from newline-terminated input is an admissible body. */
  lemma ReadLineAdmissible(b: Bytes)
    requires NewlineTerminated(b)
    ensures var r := ReadLine(b); r.Got? ==>
      && NewlineTerminated(r.rest)
      && (Trim(r.value) != "" ==> Admissible(Encode(Trim(r.value)), Ndjson))
  {
    hide Trim, Decode, Encode;
    var r := ReadLine(b);
    if r.Got? {
      var n := LineLength(b);
      var i := IndexOf(b, NEWLINE);
      assert b[|b| - 1] in b;
      assert b[..n] == b[..i] + [NEWLINE];
      EncodeDecode(b[..n]);
      var line := r.value;
      var x, y := TrimParts(line);
      var t := Trim(line);
      DecodeEncode(t);
      if t != "" {
        LastNewline(line, b[..i]);
        TrimmedIsShorter(x, t, y, line);
      }
    }
  }

  lemma EncodeSingle(c: char)
    ensures Encode([c]) == EncodeChar(c)
  {
    assert Encode([c][1..]) == [];
  }

  /** A text whose encoding has one newline, at the end, has one newline, at the end. */
  lemma LastNewline(line: string, front: Bytes)
    requires Encode(line) == front + [NEWLINE] && NEWLINE !in front
    ensures line != "" && line[|line| - 1] == '\n' && '\n' !in line[..|line| - 1]
  {
    hide EncodeChar, Encode;
    AsciiInEncode(line, '\n');
    var k := |line| - 1;
    EncodeConcat(line[..k], line[k..]);
    assert line == line[..k] + line[k..];
    EncodeSingle(line[k]);
    assert line[k..] == [line[k]];
    var last := Encode([line[k]]);
    assert Encode(line)[|Encode(line)| - 1] == last[|last| - 1];
    assert last == [NEWLINE];
    assert Encode(line[..k]) == Encode(line)[..|Encode(line)| - 1] == front;
    AsciiInEncode(line[..k], '\n');
  }

  lemma TrimmedIsShorter(x: string, t: string, y: string, line: string)
    requires line == x + t + y && t != "" && Trimmed(t)
    requires line[|line| - 1] == '\n' && '\n' !in line[..|line| - 1]
    ensures '\n' !in t && |Encode(t)| + 1 <= |Encode(line)|
  {
    assert line[|x| + |t| - 1] == t[|t| - 1];
    var front := line[..|line| - 1];
    assert front == x + t + y[..|y| - 1];
    EncodeConcat(x + t, y);
    EncodeConcat(x, t);
    EncodeLength(y);
  }

  lemma {:induction false} NdjsonReadsAdmissible(b: Bytes)
    requires NewlineTerminated(b)
    ensures AllAdmissible(ReadRest(b, Ndjson).0, Ndjson)
    ensures ReadNextLine(b).Got? ==>
      NewlineTerminated(ReadNextLine(b).rest) && Admissible(ReadNextLine(b).value, Ndjson)
    decreases |b|
  {
    hide Trim, Decode, Encode, HasLengthHeader, ReadLine, Admissible;
    ReadLineAdmissible(b);
    match ReadLine(b)
    case EndOfInput =>
    case Err(_) =>
    case Got(line, rest) => NdjsonReadsAdmissible(rest);
  }

  lemma {:induction false} FirstNdjsonAdmissible(b: Bytes)
    requires NewlineTerminated(b)
    ensures var r := ReadFirst(b); r.Got? && r.value.1 == Ndjson ==>
      NewlineTerminated(r.rest) && Admissible(r.value.0, Ndjson) && !LooksLikeHeader(r.value.0)
    decreases |b|
  {
    hide Trim, Decode, Encode, HasLengthHeader, ReadLine, Admissible;
    ReadLineAdmissible(b);
    match ReadLine(b)
    case EndOfInput =>
    case Err(_) =>
    case Got(line, rest) =>
      var t := Trim(line);
      if t == "" {
        FirstNdjsonAdmissible(rest);
      } else if LooksLikeHeader(Encode(t)) {
        HeaderPrefix(t);
      }
  }

  lemma {:induction false} PrefixByEncoding(p: string, t: string)
    requires Encode(p) <= Encode(t)
    requires forall i :: 0 <= i < |p| ==> p[i] as int < 0x80
    ensures StartsWith(t, p)
  {
    if p != "" {
      assert Encode(t)[0] == Encode(p)[0] == p[0] as int;
      assert t[0] == p[0];
      assert Encode(p)[1..] == Encode(p[1..]) && Encode(t)[1..] == Encode(t[1..]);
      PrefixByEncoding(p[1..], t[1..]);
      assert t[..|p|] == [t[0]] + t[1..][..|p| - 1];
    }
  }

  lemma HeaderPrefix(t: string)
    requires LooksLikeHeader(Encode(t))
    ensures HasLengthHeader(t)
  {
    hide Encode;
    PrefixByEncoding(LENGTH_HEADER, t);
  }

  lemma {:induction false} FrameAllTerminated(bodies: seq<Bytes>)
    ensures NewlineTerminated(FrameAll(bodies, Ndjson))
  {
    if bodies != [] {
      FrameAllTerminated(bodies[1..]);
    }
  }

  /**
   The framing round trip, exactly: what the writer emits for a non-empty list of bodies is read back as the
   same list under the same framing, ending at end of input, if and only if every body is admissible and an
   NDJSON stream does not open with something that looks like a header.
   */
  lemma FramingRoundTrip(bodies: seq<Bytes>, framing: Framing)
    requires bodies != []
    ensures ReadAll(FrameAll(bodies, framing)) == Transcript(Some(framing), bodies, AtEof)
       <==> AllAdmissible(bodies, framing) && (framing == Ndjson ==> !LooksLikeHeader(bodies[0]))
  {
    hide Trim, Decode, Encode, HasLengthHeader, ReadFirst, ReadNext, ReadNextLine, ReadHeaders, Frame, ReadRest;
    hide LooksLikeHeader;
    var b := FrameAll(bodies, framing);
    var rest := FrameAll(bodies[1..], framing);
    assert bodies == [bodies[0]] + bodies[1..];
    if AllAdmissible(bodies, framing) && (framing == Ndjson ==> !LooksLikeHeader(bodies[0])) {
      ReadFramedRest(bodies[1..], framing);
      if framing == Ndjson { ReadFramedLine(bodies[0], rest); } else { ReadFramed(bodies[0], rest); }
    } else if framing == ContentLength {
      ReadFramed(bodies[0], rest);
      if Admissible(bodies[0], ContentLength) {
        var i :| 0 <= i < |bodies| && !Admissible(bodies[i], ContentLength);
        assert bodies[1..][i - 1] == bodies[i];
        OversizedBodyFails(bodies[1..]);
      }
    } else if ReadAll(b) == Transcript(Some(framing), bodies, AtEof) {
      FrameAllTerminated(bodies);
      FirstNdjsonAdmissible(b);
      NdjsonReadsAdmissible(ReadFirst(b).rest);
    }
  }
}
