/**
 The readers and the writer of the MCP server as they run: over a buffered stream whose bytes arrive in
 arbitrary non-empty chunks. Every reader is proved to compute the function of the same name in `Wire`,
 so none of them can see where one chunk ends and the next begins.
 */
module Transport {
  import opened Wrappers
  import opened Utf8
  import opened Text
  import opened Wire

  datatype Read<+T> = Eof | Value(value: T) | Failure(error: ReadError)

  /** The outcome of a read and the bytes it left are those the specification asks for. */
  ghost predicate Agrees<T>(r: Read<T>, spec: Step<T>, left: Bytes) {
    match spec
    case EndOfInput => r == Eof && left == []
    case Got(value, rest) => r == Value(value) && left == rest
    case Err(error) => r == Failure(error)
  }

  function Flatten(chunks: seq<Bytes>): (r: Bytes)
  {
    if chunks == [] then [] else chunks[0] + Flatten(chunks[1..])
  }

  /** A `BufRead`: unread chunks, each non-empty, the first being the buffer. */
  class ByteStream {
    var chunks: seq<Bytes>

    ghost predicate Valid()
      reads this
    {
      [] !in chunks
    }

    ghost function Remaining(): Bytes
      reads this
    {
      Flatten(chunks)
    }

    constructor (arriving: seq<Bytes>)
      requires [] !in arriving
      ensures Valid() && Remaining() == Flatten(arriving)
    {
      chunks := arriving;
    }

    /** `fill_buf`: the buffered bytes, empty only at the end of the input. */
    function FillBuf(): (available: Bytes)
      requires Valid()
      reads this
      ensures available <= Remaining()
      ensures available == [] <==> Remaining() == []
    {
      if chunks == [] then [] else
        assert chunks[0] in chunks;
        chunks[0]
    }

    /** `consume`: drop buffered bytes from the front of the input. */
    method Consume(n: nat)
      requires Valid() && n <= |FillBuf()|
      modifies this
      ensures Valid() && Remaining() == old(Remaining())[n..]
    {
      if chunks != [] {
        if n == |chunks[0]| {
          chunks := chunks[1..];
        } else {
          chunks := [chunks[0][n..]] + chunks[1..];
        }
      }
    }

    /** `read_exact`: the next `length` bytes, however many chunks they span. */
    method ReadExact(length: nat) returns (r: Read<Bytes>)
      requires Valid()
      modifies this
      ensures Valid() && Agrees(r, Wire.ReadBody(old(Remaining()), length), Remaining())
    {
      hide Flatten, Agrees, Wire.ReadBody;
      var body: Bytes := [];
      ghost var input := Remaining();
      while |body| < length
        invariant Valid() && |body| <= length
        invariant input == body + Remaining()
        decreases length - |body|
      {
        var available := FillBuf();
        if available == [] {
          ExactTooShort(input, length, Remaining());
          return Failure(UnexpectedEof);
        }
        var n := if |available| <= length - |body| then |available| else length - |body|;
        assert input == (body + available[..n]) + Remaining()[n..];
        body := body + available[..n];
        Consume(n);
      }
      ExactDone(body, Remaining());
      return Value(body);
    }
  }

  lemma ExactDone(body: Bytes, left: Bytes)
    ensures Agrees(Value(body), Wire.ReadBody(body + left, |body|), left)
  {
    assert (body + left)[..|body|] == body && (body + left)[|body|..] == left;
  }

  lemma ExactTooShort(input: Bytes, length: nat, left: Bytes)
    requires |input| < length
    ensures Agrees(Failure(UnexpectedEof), Wire.ReadBody(input, length), left)
  {
  }

  /** `String::from_utf8`. */
  function Utf8Text(b: Bytes): (r: Read<string>)
  {
    match Decode(b)
    case None => Failure(InvalidUtf8)
    case Some(text) => Value(text)
  }

  /** A line that ends where the specification says is what `Wire.ReadLine` reads. */
  lemma LineDone(line: Bytes, left: Bytes)
    requires line != [] && |line| == LineLength(line + left)
    ensures |line| <= MAX_MCP_MESSAGE_SIZE ==> Agrees(Utf8Text(line), Wire.ReadLine(line + left), left)
  {
    hide Decode, LineLength;
    assert (line + left)[..|line|] == line && (line + left)[|line|..] == left;
  }

  lemma LineTooLongHere(input: Bytes, left: Bytes)
    requires LineLength(input) > MAX_MCP_MESSAGE_SIZE
    ensures Agrees(Failure(LineTooLong), Wire.ReadLine(input), left)
  {
    hide Decode, LineLength;
  }

  /** The first newline of a concatenation. */
  lemma {:induction false} IndexOfConcat(a: Bytes, b: Bytes)
    ensures IndexOf(a + b, NEWLINE) ==
      if IndexOf(a, NEWLINE) < |a| then IndexOf(a, NEWLINE) else |a| + IndexOf(b, NEWLINE)
  {
    if a == [] {
      assert a + b == b;
    } else {
      assert (a + b)[1..] == a[1..] + b;
      IndexOfConcat(a[1..], b);
    }
  }

  lemma LineLengthSkip(seen: Bytes, more: Bytes)
    requires NEWLINE !in seen
    ensures LineLength(seen + more) == |seen| + LineLength(more)
  {
    hide IndexOf;
    IndexOfConcat(seen, more);
  }

  /** The buffer decides where the line ends only when the newline is in it. */
  lemma LineInBuffer(seen: Bytes, available: Bytes, later: Bytes)
    requires NEWLINE !in seen
    ensures var i, n := IndexOf(available, NEWLINE), LineLength(seen + (available + later));
      if i < |available| then n == |seen| + i + 1
      else NEWLINE !in seen + available && |seen| + |available| <= n && (later == [] ==> n == |seen| + |available|)
  {
    hide IndexOf;
    LineLengthSkip(seen, available + later);
    IndexOfConcat(available, later);
  }

  /** Read a line of at most the message cap. */
  method ReadLineCapped(stream: ByteStream) returns (r: Read<string>)
    requires stream.Valid()
    modifies stream
    ensures stream.Valid() && Agrees(r, Wire.ReadLine(old(stream.Remaining())), stream.Remaining())
  {
    hide IndexOf, LineLength, Utf8Text, Wire.ReadLine, Agrees, Flatten, ByteStream.Remaining, ByteStream.Valid;
    var output: Bytes := [];
    ghost var input := stream.Remaining();
    while true
      invariant stream.Valid() && input == output + stream.Remaining()
      invariant NEWLINE !in output && |output| <= MAX_MCP_MESSAGE_SIZE
      decreases |stream.Remaining()|
    {
      var available := stream.FillBuf();
      ghost var later := stream.Remaining()[|available|..];
      assert stream.Remaining() == available + later;
      LineInBuffer(output, available, later);
      if available == [] {
        ReadLineEmpty();
        if output == [] {
          return Eof;
        }
        assert output + [] == input;
        LineDone(output, []);
        return Utf8Text(output);
      }
      var index := IndexOf(available, NEWLINE);
      var complete := index < |available|;
      var length := if complete then index + 1 else |available|;
      if |output| + length > MAX_MCP_MESSAGE_SIZE {
        LineTooLongHere(input, stream.Remaining());
        return Failure(LineTooLong);
      }
      assert input == (output + available[..length]) + stream.Remaining()[length..];
      output := output + available[..length];
      stream.Consume(length);
      if complete {
        LineDone(output, stream.Remaining());
        return Utf8Text(output);
      }
    }
  }

  lemma ReadLineEmpty()
    ensures Agrees(Eof, Wire.ReadLine([]), []) && IndexOf([], NEWLINE) == 0
  {
  }

  /** Read the first message and detect the framing the peer uses. */
  method ReadFirst(stream: ByteStream) returns (r: Read<(Bytes, Framing)>)
    requires stream.Valid()
    modifies stream
    ensures stream.Valid() && Agrees(r, Wire.ReadFirst(old(stream.Remaining())), stream.Remaining())
  {
    hide Wire.ReadLine, Trim, Encode, HasLengthHeader, Wire.ParseContentLength, Wire.ReadBody;
    while true
      invariant stream.Valid()
      invariant Wire.ReadFirst(stream.Remaining()) == Wire.ReadFirst(old(stream.Remaining()))
      decreases |stream.Remaining()|
    {
      var line := ReadLineCapped(stream);
      match line {
        case Eof => return Eof;
        case Failure(e) => return Failure(e);
        case Value(text) =>
          var trimmed := Trim(text);
          if trimmed == "" {
            continue;
          }
          if HasLengthHeader(trimmed) {
            var length := ParseContentLength(trimmed);
            if length.Err? {
              return Failure(length.error);
            }
            var skipped := SkipHeaders(stream);
            if skipped.Failure? {
              return Failure(skipped.error);
            }
            var body := stream.ReadExact(length.value);
            match body {
              case Failure(e) => return Failure(e);
              case Value(b) => return Value((b, ContentLength));
              case Eof => assert false;
            }
          }
          return Value((Encode(trimmed), Ndjson));
      }
    }
  }

  /** Consume header lines up to and including a blank one. */
  method SkipHeaders(stream: ByteStream) returns (r: Read<()>)
    requires stream.Valid()
    modifies stream
    ensures stream.Valid() && Agrees(r, Wire.SkipHeaders(old(stream.Remaining())), stream.Remaining())
  {
    hide Wire.ReadLine, Trim, Encode;
    while true
      invariant stream.Valid()
      invariant Wire.SkipHeaders(stream.Remaining()) == Wire.SkipHeaders(old(stream.Remaining()))
      decreases |stream.Remaining()|
    {
      var line := ReadLineCapped(stream);
      match line {
        case Eof => return Value(());
        case Failure(e) => return Failure(e);
        case Value(text) =>
          if Trim(text) == "" {
            return Value(());
          }
      }
    }
  }

  /** Read the next message under the negotiated framing. */
  method ReadNext(stream: ByteStream, framing: Framing) returns (r: Read<Bytes>)
    requires stream.Valid()
    modifies stream
    ensures stream.Valid() && Agrees(r, Wire.ReadNext(old(stream.Remaining()), framing), stream.Remaining())
  {
    hide Wire.ReadLine, Trim, Encode, HasLengthHeader, Wire.ParseContentLength, Wire.ReadBody;
    if framing == Ndjson {
      while true
        invariant stream.Valid()
        invariant ReadNextLine(stream.Remaining()) == ReadNextLine(old(stream.Remaining()))
        decreases |stream.Remaining()|
      {
        var line := ReadLineCapped(stream);
        match line {
          case Eof => return Eof;
          case Failure(e) => return Failure(e);
          case Value(text) =>
            if Trim(text) != "" {
              return Value(Encode(Trim(text)));
            }
        }
      }
    } else {
      var length: Option<nat> := None;
      while true
        invariant stream.Valid()
        invariant ReadHeaders(stream.Remaining(), length) == ReadHeaders(old(stream.Remaining()), None)
        decreases |stream.Remaining()|
      {
        var line := ReadLineCapped(stream);
        match line {
          case Eof => return Eof;
          case Failure(e) => return Failure(e);
          case Value(text) =>
            if Trim(text) == "" {
              break;
            }
            if HasLengthHeader(Trim(text)) {
              var parsed := ParseContentLength(Trim(text));
              if parsed.Err? {
                return Failure(parsed.error);
              }
              length := Some(parsed.value);
            }
        }
      }
      if length.None? {
        return Failure(MissingLength);
      }
      r := stream.ReadExact(length.value);
    }
  }

  /** The bytes sent to the peer so far. */
  class ByteSink {
    var written: Bytes

    constructor ()
      ensures written == []
    {
      written := [];
    }

    /** `write_response`: header, body and line break written one after the other. */
    method WriteResponse(body: Bytes, framing: Framing)
      modifies this
      ensures written == old(written) + Frame(body, framing)
    {
      hide Encode, Numeral, LENGTH_HEADER;
      if framing == ContentLength {
        written := written + Encode(LENGTH_HEADER + " " + Numeral(|body|) + "\r\n" + "\r\n");
      }
      written := written + body;
      if framing == Ndjson {
        written := written + [NEWLINE];
      }
    }
  }
}
