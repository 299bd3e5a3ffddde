/**
 What the two message readers make of the bytes of any peer, not only of this server's own writer: extra headers, blank
 lines, missing last newlines, and the errors. Everything is said about lines of text and their bytes.
 */
module Peers {
  import opened Wrappers
  import opened Utf8
  import opened Text
  import opened Wire

  /** Texts, each ended by a newline. */
  function LineBytes(texts: seq<string>): (r: Bytes)
  {
    if texts == [] then [] else Encode(texts[0]) + [10] + LineBytes(texts[1..])
  }

  /** Lines within the cap of ten mebibytes, their newline included. */
  predicate Readable(texts: seq<string>) {
    forall i :: 0 <= i < |texts| ==> '\n' !in texts[i] && |Encode(texts[i])| + 1 <= 10_485_760
  }

  predicate AllBlank(texts: seq<string>) {
    forall i :: 0 <= i < |texts| ==> Blank(texts[i])
  }

  predicate NoneBlank(texts: seq<string>) {
    forall i :: 0 <= i < |texts| ==> !Blank(texts[i])
  }

  /** The line starts, behind any white space, with the name of the length header. */
  ghost predicate NamesLength(text: string) {
    exists a, rest :: Blank(a) && text == a + ("Content-Length:" + rest)
  }

  /** Header lines, none of them about the length. */
  ghost predicate OtherHeaders(texts: seq<string>) {
    Readable(texts) && NoneBlank(texts) && forall i :: 0 <= i < |texts| ==> !NamesLength(texts[i])
  }

  /** A length header with the value `n`: white space anywhere around the number, leading zeros allowed. */
  ghost predicate LengthLine(text: string, n: nat) {
    '\n' !in text && |Encode(text)| + 1 <= 10_485_760
    && exists a, gap, digits, b :: Blank(a) && Blank(gap) && Blank(b) && IsNumber(digits, n)
                                   && text == a + ("Content-Length:" + (gap + digits + b))
  }

  predicate IsNumber(digits: string, n: nat) {
    digits != "" && AllDigits(digits) && DigitsValue(digits) == n
  }

  // ----- lines

  lemma {:induction false} LineBytesSplit(a: seq<string>, b: seq<string>)
    ensures LineBytes(a + b) == LineBytes(a) + LineBytes(b)
  {
    hide Encode;
    if a == [] {
      assert a + b == b;
    } else {
      assert (a + b)[1..] == a[1..] + b;
      LineBytesSplit(a[1..], b);
    }
  }

  lemma LineBytesCons(text: string, more: seq<string>)
    ensures LineBytes([text] + more) == Encode(text) + [10] + LineBytes(more)
    ensures LineBytes([text]) == Encode(text) + [10]
  {
    hide Encode;
    assert ([text] + more)[1..] == more;
    assert [text][1..] == [] && LineBytes([]) == [];
  }

  lemma TrimLine(text: string)
    ensures Trim(text + "\n") == Trim(text)
    ensures Trim(text) == "" <==> Blank(text)
  {
    hide IsSpace;
    assert IsSpace('\n') by { NewlineIsSpace(); }
    TrimTail(text, "\n");
    TrimBlank(text);
  }

  lemma NewlineIsSpace()
    ensures IsSpace('\n')
  {
  }

  lemma ReadText(text: string, rest: Bytes)
    requires Readable([text])
    ensures ReadLine(Encode(text) + [10] + rest) == Got(text + "\n", rest)
    ensures Trim(text + "\n") == Trim(text) && (Trim(text) == "" <==> Blank(text))
  {
    hide Encode, ReadLine, Trim;
    assert text == [text][0];
    ReadWrittenLine(text, rest);
    TrimLine(text);
  }

  lemma NamesLengthTrimmed(text: string)
    ensures NamesLength(text) <==> StartsWith(Trim(text), "Content-Length:")
  {
    hide IsSpace, Trim;
    if StartsWith(Trim(text), "Content-Length:") {
      var a, b := TrimParts(text);
      var rest := Trim(text)[15..] + b;
      assert text == a + ("Content-Length:" + rest);
    }
    if NamesLength(text) {
      var a, rest :| Blank(a) && text == a + ("Content-Length:" + rest);
      TrimOfHeader(a, rest);
    }
  }

  lemma TrimOfHeader(a: string, rest: string)
    requires Blank(a)
    ensures StartsWith(Trim(a + ("Content-Length:" + rest)), "Content-Length:")
    ensures Trim(Trim(a + ("Content-Length:" + rest))[15..]) == Trim(rest)
  {
    hide IsSpace, Trim;
    var name := "Content-Length:";
    assert !IsSpace('C') && !IsSpace(':') by { HeaderLetters(); }
    var w := TrimEndParts(name + rest);
    var t := TrimEnd(name + rest);
    TrimEndKeeps(name, rest);
    assert a + (name + rest) == a + t + w;
    TrimUnique(a, t, w);
    assert t == name + TrimEnd(rest) && t[15..] == TrimEnd(rest) && t[..15] == name;
    var w' := TrimEndParts(rest);
    TrimTail(TrimEnd(rest), w');
  }

  lemma HeaderLetters()
    ensures !IsSpace('C') && !IsSpace(':')
  {
  }

  /** Trimming the end stops at the last character that is not white space. */
  lemma TrimEndKeeps(s: string, rest: string)
    requires s != "" && !IsSpace(s[|s| - 1])
    ensures TrimEnd(s + rest) == s + TrimEnd(rest)
  {
    hide IsSpace, TrimEnd;
    var w := TrimEndParts(rest);
    var t := s + TrimEnd(rest);
    assert s + rest == t + w;
    TrimEndUnique(t, w);
  }

  lemma LengthLineParses(text: string, n: nat)
    requires LengthLine(text, n) && n <= 10_485_760
    ensures HasLengthHeader(Trim(text)) && ParseContentLength(Trim(text)) == Got(n, []) && !Blank(text)
  {
    hide IsSpace, Trim, Encode, StartsWith;
    var a, gap, digits, b :| Blank(a) && Blank(gap) && Blank(b) && IsNumber(digits, n)
                             && text == a + ("Content-Length:" + (gap + digits + b));
    TrimOfHeader(a, gap + digits + b);
    DigitsTrimmed(digits);
    TrimUnique(gap, digits, b);
    UsizeExactly(digits);
    DigitHasNoSign(digits);
    assert text[|a|] == 'C' && !IsSpace('C') by { HeaderLetters(); }
  }

  lemma DigitsTrimmed(digits: string)
    requires digits != "" && AllDigits(digits)
    ensures Trimmed(digits)
  {
  }

  // ----- headers

  /** A length header in front sets the length, and the later one wins. */
  lemma LengthSets(text: string, n: nat, more: Bytes, length: Option<nat>)
    requires LengthLine(text, n) && n <= 10_485_760
    ensures ReadHeaders(Encode(text) + [10] + more, length) == ReadHeaders(more, Some(n))
  {
    hide Encode, ReadLine, Trim, ParseContentLength, HasLengthHeader;
    LengthLineParses(text, n);
    ReadText(text, more);
  }

  lemma {:induction false} OthersPassed(headers: seq<string>, more: Bytes, length: Option<nat>)
    requires OtherHeaders(headers)
    ensures ReadHeaders(LineBytes(headers) + more, length) == ReadHeaders(more, length)
    decreases |headers|
  {
    hide Encode, ReadLine, Trim, ParseContentLength, StartsWith;
    if headers == [] {
      assert LineBytes(headers) + more == more;
    } else {
      var text, rest := headers[0], headers[1..];
      ReadText(text, LineBytes(rest) + more);
      NamesLengthTrimmed(text);
      assert LineBytes(headers) + more == Encode(text) + [10] + (LineBytes(rest) + more);
      OthersPassed(rest, more, length);
    }
  }

  lemma BlankEnds(blank: string, more: Bytes, length: Option<nat>)
    requires Readable([blank]) && Blank(blank)
    ensures ReadHeaders(Encode(blank) + [10] + more, length)
         == if length.None? then Err(MissingLength) else ReadBody(more, length.value)
  {
    hide Encode, ReadLine, Trim, ReadBody;
    ReadText(blank, more);
  }

  lemma {:induction false} HeadersSkipped(headers: seq<string>, blank: string, more: Bytes)
    requires Readable(headers) && NoneBlank(headers) && Readable([blank]) && Blank(blank)
    ensures SkipHeaders(LineBytes(headers) + (Encode(blank) + [10] + more)) == Got((), more)
    ensures SkipHeaders(LineBytes(headers)) == Got((), [])
    decreases |headers|
  {
    hide Encode, ReadLine, Trim;
    var tail := Encode(blank) + [10] + more;
    if headers == [] {
      assert LineBytes(headers) + tail == tail;
      ReadText(blank, more);
      ReadNothing();
    } else {
      var text, rest := headers[0], headers[1..];
      assert Readable([text]);
      ReadText(text, LineBytes(rest) + tail);
      ReadText(text, LineBytes(rest));
      assert LineBytes(headers) + tail == Encode(text) + [10] + (LineBytes(rest) + tail);
      HeadersSkipped(rest, blank, more);
    }
  }

  lemma ReadNothing()
    ensures ReadLine([]) == EndOfInput
  {
  }

  lemma BodyRead(body: Bytes, rest: Bytes)
    ensures ReadBody(body + rest, |body|) == Got(body, rest)
  {
    assert (body + rest)[..|body|] == body && (body + rest)[|body|..] == rest;
  }

  lemma {:induction false} BlanksPassed(blanks: seq<string>, more: Bytes)
    requires Readable(blanks) && AllBlank(blanks)
    ensures ReadFirst(LineBytes(blanks) + more) == ReadFirst(more)
    ensures ReadNext(LineBytes(blanks) + more, Ndjson) == ReadNext(more, Ndjson)
    decreases |blanks|
  {
    hide Encode, ReadLine, Trim, HasLengthHeader, ParseContentLength, SkipHeaders, ReadBody;
    if blanks == [] {
      assert LineBytes(blanks) + more == more;
    } else {
      var text, rest := blanks[0], blanks[1..];
      ReadText(text, LineBytes(rest) + more);
      assert LineBytes(blanks) + more == Encode(text) + [10] + (LineBytes(rest) + more);
      BlanksPassed(rest, more);
    }
  }

  /** What follows a length header in the first message is skipped up to a blank line, whatever it says. */
  lemma FirstLengthLine(text: string, n: nat, headers: seq<string>, blank: string, more: Bytes)
    requires LengthLine(text, n) && n <= 10_485_760
    requires Readable(headers) && NoneBlank(headers) && Readable([blank]) && Blank(blank)
    ensures ReadFirst(LineBytes([text] + headers + [blank]) + more) ==
      match ReadBody(more, n) case Err(e) => Err(e) case Got(body, rest) => Got((body, ContentLength), rest)
    ensures ReadFirst(LineBytes([text] + headers))
         == if n == 0 then Got(([], ContentLength), []) else Err(UnexpectedEof)
  {
    hide Encode, ReadLine, Trim, HasLengthHeader, ParseContentLength, SkipHeaders;
    var tail := Encode(blank) + [10] + more;
    LengthLineParses(text, n);
    ReadText(text, LineBytes(headers) + tail);
    ReadText(text, LineBytes(headers));
    HeadersSkipped(headers, blank, more);
    LineBytesSplit([text] + headers, [blank]);
    LineBytesCons(text, headers);
    LineBytesCons(blank, []);
    assert LineBytes([text] + headers + [blank]) + more == Encode(text) + [10] + (LineBytes(headers) + tail);
  }

  lemma Regroup(a: Bytes, b: Bytes, c: Bytes, d: Bytes)
    ensures a + b + c + d == a + (b + (c + d))
  {
  }

  /**
   The first message of a peer with its own headers: blank lines in front are passed over, every line behind the length
   header up to a blank one is dropped, whatever it says, and the body is the bytes behind that.
   */
  lemma FirstMessage(blanks: seq<string>, text: string, headers: seq<string>, blank: string, body: Bytes, rest: Bytes)
    requires Readable(blanks) && AllBlank(blanks) && Readable([blank]) && Blank(blank)
    requires LengthLine(text, |body|) && |body| <= 10_485_760
    requires Readable(headers) && NoneBlank(headers)
    ensures ReadFirst(LineBytes(blanks + [text] + headers + [blank]) + body + rest) == Got((body, ContentLength), rest)
  {
    hide Encode, LineBytes, ReadFirst, LengthLine, Readable, AllBlank, NoneBlank, ReadBody, Blank;
    var lines := [text] + headers + [blank];
    assert blanks + [text] + headers + [blank] == blanks + lines;
    LineBytesSplit(blanks, lines);
    BlanksPassed(blanks, LineBytes(lines) + (body + rest));
    FirstLengthLine(text, |body|, headers, blank, body + rest);
    BodyRead(body, rest);
    Regroup(LineBytes(blanks), LineBytes(lines), body, rest);
  }

  /** A later message: other headers may stand on both sides of the length header. */
  lemma NextMessage(before: seq<string>, text: string, after: seq<string>, blank: string, body: Bytes, rest: Bytes)
    requires OtherHeaders(before) && OtherHeaders(after) && Readable([blank]) && Blank(blank)
    requires LengthLine(text, |body|) && |body| <= 10_485_760
    ensures ReadNext(LineBytes(before + [text] + after + [blank]) + body + rest, ContentLength) == Got(body, rest)
  {
    hide Encode, LineBytes, ReadHeaders, LengthLine, OtherHeaders, ReadBody;
    NextHeaders(before, text, |body|, after, blank, body + rest, None);
    BodyRead(body, rest);
    assert LineBytes(before + [text] + after + [blank]) + body + rest
        == LineBytes(before + [text] + after + [blank]) + (body + rest);
  }

  lemma NextHeaders(before: seq<string>, text: string, n: nat, after: seq<string>, blank: string, more: Bytes,
                    length: Option<nat>)
    requires OtherHeaders(before) && OtherHeaders(after) && Readable([blank]) && Blank(blank)
    requires LengthLine(text, n) && n <= 10_485_760
    ensures ReadHeaders(LineBytes(before + [text] + after + [blank]) + more, length) == ReadBody(more, n)
  {
    hide Encode, LineBytes, ReadHeaders, LengthLine, OtherHeaders, ReadBody;
    var tail := Encode(blank) + [10] + more;
    assert before + [text] + after + [blank] == before + ([text] + (after + [blank]));
    LineBytesSplit(before, [text] + (after + [blank]));
    LineBytesCons(text, after + [blank]);
    LineBytesSplit(after, [blank]);
    LineBytesCons(blank, []);
    OthersPassed(before, Encode(text) + [10] + (LineBytes(after) + tail), length);
    LengthSets(text, n, LineBytes(after) + tail, length);
    OthersPassed(after, tail, Some(n));
    BlankEnds(blank, more, Some(n));
    assert LineBytes(before + [text] + after + [blank]) + more
        == LineBytes(before) + (Encode(text) + [10] + (LineBytes(after) + tail));
  }

  /** Of two length headers the later one counts. */
  lemma LastLengthWins(first: string, m: nat, before: seq<string>, text: string, after: seq<string>, blank: string,
                       body: Bytes, rest: Bytes)
    requires LengthLine(first, m) && m <= 10_485_760
    requires OtherHeaders(before) && OtherHeaders(after) && Readable([blank]) && Blank(blank)
    requires LengthLine(text, |body|) && |body| <= 10_485_760
    ensures ReadNext(LineBytes([first] + (before + [text] + after + [blank])) + body + rest, ContentLength)
         == Got(body, rest)
  {
    hide Encode, LineBytes, ReadHeaders, LengthLine, OtherHeaders, ReadBody;
    var lines := before + [text] + after + [blank];
    LineBytesCons(first, lines);
    LengthSets(first, m, LineBytes(lines) + (body + rest), None);
    NextHeaders(before, text, |body|, after, blank, body + rest, Some(m));
    BodyRead(body, rest);
    assert LineBytes([first] + lines) + body + rest == Encode(first) + [10] + (LineBytes(lines) + (body + rest));
  }

  /** Headers without a length are an error, and a stream that ends inside them ends cleanly. */
  lemma NoLength(headers: seq<string>, blank: string, rest: Bytes)
    requires OtherHeaders(headers) && Readable([blank]) && Blank(blank)
    ensures ReadNext(LineBytes(headers + [blank]) + rest, ContentLength) == Err(MissingLength)
    ensures ReadNext(LineBytes(headers), ContentLength) == EndOfInput
  {
    hide Encode, LineBytes, ReadHeaders, OtherHeaders, ReadLine;
    LineBytesSplit(headers, [blank]);
    LineBytesCons(blank, []);
    OthersPassed(headers, Encode(blank) + [10] + rest, None);
    BlankEnds(blank, rest, None);
    OthersPassed(headers, [], None);
    NothingAhead();
    assert LineBytes(headers + [blank]) + rest == LineBytes(headers) + (Encode(blank) + [10] + rest);
    assert LineBytes(headers) + [] == LineBytes(headers);
  }

  lemma NothingAhead()
    ensures ReadHeaders([], None) == EndOfInput && ReadFirst([]) == EndOfInput && ReadNextLine([]) == EndOfInput
  {
    ReadNothing();
  }

  /** A body shorter than its length is an error for both readers. */
  lemma BodyCutShort(text: string, n: nat, headers: seq<string>, blank: string, body: Bytes)
    requires LengthLine(text, n) && |body| < n <= 10_485_760
    requires OtherHeaders(headers) && Readable([blank]) && Blank(blank)
    ensures ReadFirst(LineBytes([text] + headers + [blank]) + body) == Err(UnexpectedEof)
    ensures ReadNext(LineBytes([text] + headers + [blank]) + body, ContentLength) == Err(UnexpectedEof)
  {
    hide Encode, LineBytes, ReadHeaders, ReadFirst, LengthLine;
    FirstLengthLine(text, n, headers, blank, body);
    assert OtherHeaders([]);
    NextHeaders([], text, n, headers, blank, body, None);
    assert [] + [text] + headers + [blank] == [text] + headers + [blank];
  }

  /** The number a text holds between white space, possibly behind a plus sign. */
  function NumberIn(v: string): Option<nat> {
    var t := Trim(v);
    var digits := if t != "" && t[0] == '+' then t[1..] else t;
    if digits != "" && AllDigits(digits) then Some(DigitsValue(digits)) else None
  }

  /** A length header that holds no number, or one beyond the cap, is an error for both readers. */
  lemma BadLength(a: string, v: string, rest: Bytes)
    requires Blank(a) && Readable([a + ("Content-Length:" + v)])
    requires NumberIn(v).Some? ==> NumberIn(v).value > 10_485_760
    ensures var line := Encode(a + ("Content-Length:" + v)) + [10] + rest;
      var error := if NumberIn(v).Some? && NumberIn(v).value < 0x1_0000_0000_0000_0000 then LengthTooLarge
                   else InvalidLength;
      ReadFirst(line) == Err(error) && ReadNext(line, ContentLength) == Err(error)
  {
    hide Encode, ReadLine, Trim, IsSpace, ParseUsize;
    var text := a + ("Content-Length:" + v);
    TrimOfHeader(a, v);
    ReadText(text, rest);
    UsizeExactly(Trim(v));
    assert Trim(text) != "";
  }

  // ----- lines of JSON

  /** The next NDJSON message is the next line that is not blank, without the white space around it. */
  lemma NextLineMessage(blanks: seq<string>, text: string, rest: Bytes)
    requires Readable(blanks) && AllBlank(blanks) && Readable([text]) && !Blank(text)
    ensures ReadNext(LineBytes(blanks + [text]) + rest, Ndjson) == Got(Encode(Trim(text)), rest)
    ensures !NamesLength(text) ==>
              ReadFirst(LineBytes(blanks + [text]) + rest) == Got((Encode(Trim(text)), Ndjson), rest)
  {
    hide Encode, ReadLine, Trim, ParseContentLength, SkipHeaders, ReadBody, StartsWith;
    LineBytesSplit(blanks, [text]);
    LineBytesCons(text, []);
    var line := Encode(text) + [10] + rest;
    assert LineBytes(blanks + [text]) + rest == LineBytes(blanks) + line;
    BlanksPassed(blanks, line);
    ReadText(text, rest);
    NamesLengthTrimmed(text);
  }

  lemma ReadLastText(text: string)
    requires text != "" && '\n' !in text && |Encode(text)| <= 10_485_760
    ensures ReadLine(Encode(text)) == Got(text, [])
  {
    hide Encode, Decode;
    var b := Encode(text);
    AsciiInEncode(text, '\n');
    DecodeEncode(text);
    assert b != [] by { EncodeLength(text); }
    assert b[..|b|] == b && b[|b|..] == [];
  }

  /** A last line needs no newline; blank lines alone are the end of the input. */
  lemma LastLineMessage(blanks: seq<string>, text: string)
    requires Readable(blanks) && AllBlank(blanks)
    requires '\n' !in text && |Encode(text)| <= 10_485_760 && !Blank(text)
    ensures ReadNext(LineBytes(blanks) + Encode(text), Ndjson) == Got(Encode(Trim(text)), [])
    ensures !NamesLength(text) ==> ReadFirst(LineBytes(blanks) + Encode(text)) == Got((Encode(Trim(text)), Ndjson), [])
    ensures ReadNext(LineBytes(blanks), Ndjson) == EndOfInput && ReadFirst(LineBytes(blanks)) == EndOfInput
  {
    hide Encode, ReadLine, Trim, ParseContentLength, SkipHeaders, ReadBody, StartsWith;
    BlanksPassed(blanks, Encode(text));
    BlanksPassed(blanks, []);
    assert LineBytes(blanks) + [] == LineBytes(blanks);
    NothingAhead();
    ReadLastText(text);
    NamesLengthTrimmed(text);
    TrimLine(text);
  }

  // ----- lines that cannot be read

  /** A line that is no UTF-8, or that with its newline exceeds the cap, cannot be read. */
  predicate Unreadable(line: Bytes) {
    10 !in line && (|line| + 1 > 10_485_760 || Decode(line + [10]).None?)
  }

  function WhyUnreadable(line: Bytes): ReadError {
    if |line| + 1 > 10_485_760 then LineTooLong else InvalidUtf8
  }

  lemma ReadUnreadable(line: Bytes, rest: Bytes)
    requires Unreadable(line)
    ensures ReadLine(line + [10] + rest) == Err(WhyUnreadable(line))
  {
    hide Decode;
    var b := line + [10] + rest;
    assert b == line + ([10] + rest);
    IndexOfUnique(line, [10] + rest, 10);
    assert b[..|line| + 1] == line + [10];
  }

  /** It is an error wherever a line is expected: in front of a message, and among the headers of either reader. */
  lemma UnreadableLine(line: Bytes, rest: Bytes, framing: Framing, text: string, n: nat, headers: seq<string>)
    requires Unreadable(line) && LengthLine(text, n) && n <= 10_485_760 && OtherHeaders(headers)
    ensures var error := WhyUnreadable(line);
      && ReadFirst(line + [10] + rest) == Err(error)
      && ReadNext(line + [10] + rest, framing) == Err(error)
      && ReadFirst(LineBytes([text] + headers) + (line + [10] + rest)) == Err(error)
      && ReadNext(LineBytes([text] + headers) + (line + [10] + rest), ContentLength) == Err(error)
  {
    hide Decode, Encode, ReadLine, LengthLine, OtherHeaders, LineBytes, Unreadable, WhyUnreadable;
    var tail := line + [10] + rest;
    ReadUnreadable(line, rest);
    LineBytesCons(text, headers);
    assert LineBytes([text] + headers) + tail == Encode(text) + [10] + (LineBytes(headers) + tail);
    UnreadableInFirst(line, rest, text, n, headers);
    LengthSets(text, n, LineBytes(headers) + tail, None);
    OthersPassed(headers, tail, Some(n));
  }

  lemma UnreadableInFirst(line: Bytes, rest: Bytes, text: string, n: nat, headers: seq<string>)
    requires Unreadable(line) && LengthLine(text, n) && n <= 10_485_760 && OtherHeaders(headers)
    ensures ReadFirst(Encode(text) + [10] + (LineBytes(headers) + (line + [10] + rest))) == Err(WhyUnreadable(line))
  {
    hide Decode, Encode, ReadLine, LineBytes, Unreadable, WhyUnreadable, Trim, HasLengthHeader, ParseContentLength;
    hide SkipHeaders;
    LengthLineParses(text, n);
    ReadText(text, LineBytes(headers) + (line + [10] + rest));
    UnreadableSkipped(headers, line, rest);
  }

  lemma {:induction false} UnreadableSkipped(headers: seq<string>, line: Bytes, rest: Bytes)
    requires Readable(headers) && NoneBlank(headers) && Unreadable(line)
    ensures SkipHeaders(LineBytes(headers) + (line + [10] + rest)) == Err(WhyUnreadable(line))
    decreases |headers|
  {
    hide Encode, ReadLine, Trim, Unreadable, WhyUnreadable;
    var tail := line + [10] + rest;
    if headers == [] {
      assert LineBytes(headers) + tail == tail;
      ReadUnreadable(line, rest);
    } else {
      var text, others := headers[0], headers[1..];
      assert Readable([text]);
      ReadText(text, LineBytes(others) + tail);
      assert LineBytes(headers) + tail == Encode(text) + [10] + (LineBytes(others) + tail);
      UnreadableSkipped(others, line, rest);
    }
  }
}
