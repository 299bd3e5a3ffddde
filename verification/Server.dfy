/** The server loop: bytes in, bytes out, one connection in between. */
module Server {
  import opened Wrappers
  import opened Utf8
  import opened Json
  import opened Session
  import opened Wire
  import T = Transport

  /** The mutable state of one connection, as the handlers update it. */
  class Connection<Db> {
    const tools: Tools<Db>
    var state: SessionState
    var db: Db
    var calls: seq<Call>

    ghost function Value(): Conn<Db>
      reads this
    {
      Conn(state, db, calls)
    }

    constructor (tools: Tools<Db>, db: Db)
      ensures this.tools == tools && Value() == Start(db)
    {
      this.tools := tools;
      this.state := AwaitingInitialize;
      this.db := db;
      this.calls := [];
    }

    method Request(request: Json) returns (reply: Option<Reply>)
      modifies this
      ensures (Value(), reply) == HandleRequest(tools, old(Value()), request)
    {
      hide MethodOf, IdOf, IsVersion2, ToolName, Arguments;
      var id := IdOrNull(request);
      if !IsVersion2(request) {
        return Some(Error(id, InvalidRequest));
      }
      var verb := MethodOf(request);
      if verb.None? {
        return Some(Error(id, MissingMethod));
      }
      if IdOf(request).None? {
        return None;
      }
      match verb.value {
        case Initialize => return Some(Result(id, tools.greeting));
        case Ping => return Some(Result(id, Object([])));
        case ToolsList => return Some(Result(id, tools.listing));
        case ToolsCall =>
          var name := ToolName(request);
          if name.None? {
            return Some(Error(id, ToolNameRequired));
          }
          if name.value !in tools.names {
            return Some(Error(id, UnknownTool(name.value)));
          }
          var call := Call(name.value, Arguments(request));
          var (after, result) := tools.run(db, call);
          db, calls := after, calls + [call];
          return Some(Result(id, result));
        case Initialized => return Some(Error(id, MethodNotFound("notifications/initialized")));
        case Other(name) => return Some(Error(id, MethodNotFound(name)));
      }
    }

    method SessionRequest(request: Json) returns (reply: Option<Reply>)
      modifies this
      ensures (Value(), reply) == HandleSessionRequest(tools, old(Value()), request)
    {
      hide MethodOf, IdOf, IsVersion2, HasProtocolVersion, HandleRequest;
      if !WellFormed(request) {
        reply := Request(request);
        return;
      }
      var verb := MethodOf(request).value;
      match state {
        case AwaitingInitialize =>
          if verb == Initialize {
            if IdOf(request).None? {
              return Some(Error(Null, InitializeMustBeRequest));
            }
            if !HasProtocolVersion(request) {
              return Some(Error(IdOf(request).value, ProtocolVersionRequired));
            }
            reply := Request(request);
            state := AwaitingInitializedNotification;
          } else if verb == Ping {
            reply := Request(request);
          } else {
            reply := Refuse(request, NotInitialized);
          }
        case AwaitingInitializedNotification =>
          if verb == Initialized && IdOf(request).None? {
            state := Ready;
            reply := None;
          } else if verb == Ping {
            reply := Request(request);
          } else {
            reply := Refuse(request, InitializedNotReceived);
          }
        case Ready =>
          if verb == Initialize {
            reply := Refuse(request, AlreadyInitialized);
          } else {
            reply := Request(request);
          }
      }
    }

    method SessionMessage(message: Json) returns (response: Option<Response>)
      modifies this
      ensures (Value(), response) == HandleSessionMessage(tools, old(Value()), message)
    {
      hide HandleSessionRequest, Refuse;
      match message {
        case Array(requests) =>
          if requests == [] {
            return Some(Single(Error(Null, EmptyBatch)));
          }
          var refusing := state != Ready;
          var replies: seq<Reply> := [];
          for i := 0 to |requests|
            invariant refusing ==> Value() == old(Value()) && replies == RefuseEach(requests[..i])
            invariant !refusing ==> (Value(), replies) == HandleEach(tools, old(Value()), requests[..i])
          {
            assert requests[..i + 1][..i] == requests[..i];
            var reply;
            if refusing {
              reply := Refuse(requests[i], BatchBeforeReady);
            } else {
              reply := SessionRequest(requests[i]);
            }
            replies := replies + Singleton(reply);
          }
          assert requests[..|requests|] == requests;
          response := BatchResponse(replies);
        case _ =>
          var reply := SessionRequest(message);
          response := if reply.Some? then Some(Single(reply.value)) else None;
      }
    }
  }

  /** `serde_json` between bytes and values, and the JSON text of a response. */
  datatype Codec = Codec(parse: Bytes -> Option<Json>, render: Response -> Bytes)

  function DecodeJson(codec: Codec, body: Bytes): Incoming {
    match codec.parse(body)
    case None => ParseError
    case Some(value) => Parsed(value)
  }

  function DecodeAll(codec: Codec, bodies: seq<Bytes>): seq<Incoming> {
    seq(|bodies|, i requires 0 <= i < |bodies| => DecodeJson(codec, bodies[i]))
  }

  function RenderAll(codec: Codec, sent: seq<Response>): seq<Bytes> {
    seq(|sent|, i requires 0 <= i < |sent| => codec.render(sent[i]))
  }

  /** What a session does with an input: the connection it ends in, the bytes it sends, how it ends. */
  datatype Outcome<+Db> = Outcome(conn: Conn<Db>, sent: seq<Response>, output: Bytes, end: End)

  function Served<Db>(codec: Codec, tools: Tools<Db>, db: Db, input: Bytes): (r: Outcome<Db>)
  {
    var t := ReadAll(input);
    var (conn, sent) := Run(tools, Start(db), DecodeAll(codec, t.bodies));
    Outcome(conn, sent, if t.framing.None? then [] else FrameAll(RenderAll(codec, sent), t.framing.value), t.end)
  }

  lemma {:induction false} FrameAppend(bodies: seq<Bytes>, body: Bytes, framing: Framing)
    ensures FrameAll(bodies + [body], framing) == FrameAll(bodies, framing) + Frame(body, framing)
  {
    hide Frame;
    if bodies == [] {
      assert bodies + [body] == [body];
      assert FrameAll([body][1..], framing) == [];
    } else {
      assert (bodies + [body])[1..] == bodies[1..] + [body];
      FrameAppend(bodies[1..], body, framing);
    }
  }

  /** The bytes one message puts on the wire. */
  function Sent(codec: Codec, response: Option<Response>, framing: Framing): Bytes {
    match response case None => [] case Some(r) => Frame(codec.render(r), framing)
  }

  /** Decode one body, let the connection handle it, frame the response if there is one. */
  method ProcessIncoming<Db>(codec: Codec, conn: Connection<Db>, sink: T.ByteSink, body: Bytes, framing: Framing)
    modifies conn, sink
    ensures var (c, response) := Process(conn.tools, old(conn.Value()), DecodeJson(codec, body));
      conn.Value() == c && sink.written == old(sink.written) + Sent(codec, response, framing)
  {
    hide HandleSessionMessage, Frame;
    var response;
    match DecodeJson(codec, body) {
      case Parsed(message) => response := conn.SessionMessage(message);
      case ParseError => response := Some(Single(Error(Null, Unparsable)));
    }
    if response.Some? {
      sink.WriteResponse(codec.render(response.value), framing);
    }
  }

  /** What the bodies read so far amount to: the connection and the output. */
  function SoFar<Db>(codec: Codec, tools: Tools<Db>, db: Db, seen: seq<Bytes>, framing: Framing): (Conn<Db>, Bytes) {
    var (c, sent) := Run(tools, Start(db), DecodeAll(codec, seen));
    (c, FrameAll(RenderAll(codec, sent), framing))
  }

  lemma OneMore<Db>(codec: Codec, tools: Tools<Db>, db: Db, seen: seq<Bytes>, body: Bytes, framing: Framing)
    ensures var (c, output) := SoFar(codec, tools, db, seen, framing);
      var (c', response) := Process(tools, c, DecodeJson(codec, body));
      SoFar(codec, tools, db, seen + [body], framing) == (c', output + Sent(codec, response, framing))
  {
    hide Process, Frame, FrameAll, DecodeJson;
    var run := DecodeAll(codec, seen);
    assert DecodeAll(codec, seen + [body]) == run + [DecodeJson(codec, body)];
    assert (run + [DecodeJson(codec, body)])[..|run|] == run;
    var (c, sent) := Run(tools, Start(db), run);
    var response := Process(tools, c, DecodeJson(codec, body)).1;
    var output := FrameAll(RenderAll(codec, sent), framing);
    if response.Some? {
      assert RenderAll(codec, sent + [response.value]) == RenderAll(codec, sent) + [codec.render(response.value)];
      FrameAppend(RenderAll(codec, sent), codec.render(response.value), framing);
    } else {
      assert sent + [] == sent && output + [] == output;
    }
  }

  lemma NothingSoFar<Db>(codec: Codec, tools: Tools<Db>, db: Db, framing: Framing)
    ensures SoFar(codec, tools, db, [], framing) == (Start(db), [])
  {
    assert RenderAll(codec, []) == [];
  }

  /** Serve one connection until the input ends or a frame cannot be read. */
  method Serve<Db>(codec: Codec, tools: Tools<Db>, db: Db, stream: T.ByteStream, sink: T.ByteSink)
    returns (end: End, conn: Connection<Db>)
    requires stream.Valid() && sink.written == []
    modifies stream, sink
    ensures fresh(conn)
    ensures var s := Served(codec, tools, db, old(stream.Remaining()));
      conn.Value() == s.conn && sink.written == s.output && end == s.end
  {
    hide Wire.ReadFirst, Wire.ReadNext, Process, SoFar, DecodeJson;
    ghost var input := stream.Remaining();
    conn := new Connection(tools, db);
    var first := T.ReadFirst(stream);
    if first == T.Eof {
      NoBodies(codec, tools, db, input);
      return AtEof, conn;
    }
    if first.Failure? {
      NoBodies(codec, tools, db, input);
      return Failed(first.error), conn;
    }
    var (body, framing) := first.value;
    NothingSoFar(codec, tools, db, framing);
    OneMore(codec, tools, db, [], body, framing);
    ProcessIncoming(codec, conn, sink, body, framing);
    assert [] + [body] == [body];
    end := ServeRest(codec, conn, stream, sink, framing, db, [body], input);
  }

  /** The bodies seen and those ahead are what the whole input reads as. */
  ghost predicate Reading(input: Bytes, framing: Framing, seen: seq<Bytes>, ahead: Bytes) {
    var (rest, end) := ReadRest(ahead, framing);
    ReadAll(input) == Transcript(Some(framing), seen + rest, end)
  }

  lemma ReadOn(input: Bytes, framing: Framing, seen: seq<Bytes>, ahead: Bytes)
    requires Reading(input, framing, seen, ahead)
    ensures match Wire.ReadNext(ahead, framing)
      case EndOfInput => ReadAll(input) == Transcript(Some(framing), seen, AtEof)
      case Err(e) => ReadAll(input) == Transcript(Some(framing), seen, Failed(e))
      case Got(body, rest) => Reading(input, framing, seen + [body], rest)
  {
    hide ReadAll, Wire.ReadNext;
    var rest := ReadRest(ahead, framing).0;
    if rest == [] {
      assert seen + rest == seen;
    } else {
      assert seen + rest == (seen + [rest[0]]) + rest[1..];
    }
  }

  /** The loop of `serve` over everything after the first message. */
  method ServeRest<Db>(codec: Codec, conn: Connection<Db>, stream: T.ByteStream, sink: T.ByteSink, framing: Framing,
                       ghost db: Db, ghost first: seq<Bytes>, ghost input: Bytes)
    returns (end: End)
    requires stream.Valid() && (conn.Value(), sink.written) == SoFar(codec, conn.tools, db, first, framing)
    requires Reading(input, framing, first, stream.Remaining())
    modifies conn, stream, sink
    ensures var s := Served(codec, conn.tools, db, input);
      conn.Value() == s.conn && sink.written == s.output && end == s.end
  {
    hide Reading, ReadAll, Wire.ReadNext, Process, SoFar, Sent, DecodeJson, Served;
    ghost var seen := first;
    while true
      invariant stream.Valid() && Reading(input, framing, seen, stream.Remaining())
      invariant (conn.Value(), sink.written) == SoFar(codec, conn.tools, db, seen, framing)
      decreases |stream.Remaining()|
    {
      ReadOn(input, framing, seen, stream.Remaining());
      var next := T.ReadNext(stream, framing);
      match next {
        case Eof =>
          AllServed(codec, conn.tools, db, input, seen, framing);
          return AtEof;
        case Failure(e) =>
          AllServed(codec, conn.tools, db, input, seen, framing);
          return Failed(e);
        case Value(body) =>
          OneMore(codec, conn.tools, db, seen, body, framing);
          ProcessIncoming(codec, conn, sink, body, framing);
          seen := seen + [body];
      }
    }
  }

  lemma AllServed<Db>(codec: Codec, tools: Tools<Db>, db: Db, input: Bytes, seen: seq<Bytes>, framing: Framing)
    requires ReadAll(input).framing == Some(framing) && ReadAll(input).bodies == seen
    ensures var s := Served(codec, tools, db, input);
      (s.conn, s.output) == SoFar(codec, tools, db, seen, framing) && s.end == ReadAll(input).end
  {
    hide ReadAll, Run, FrameAll;
  }

  lemma EmptyRun<Db>(codec: Codec, tools: Tools<Db>, db: Db)
    ensures Run(tools, Start(db), DecodeAll(codec, [])) == (Start(db), [])
  {
  }

  // ----- whole sessions

  function Written(messages: seq<Json>, write: Json -> Bytes): seq<Bytes> {
    seq(|messages|, i requires 0 <= i < |messages| => write(messages[i]))
  }

  /**
   End to end: a client that writes any messages under either framing, as bodies the framing admits and the codec reads
   back, gets exactly the responses of the abstract run over those messages, framed the same way, and a clean end.
   Reading the server's output with the same readers returns those responses when they too are admissible.
   */
  lemma EndToEnd<Db>(codec: Codec, tools: Tools<Db>, db: Db, messages: seq<Json>, write: Json -> Bytes,
                     framing: Framing)
    requires messages != []
    requires forall i :: 0 <= i < |messages| ==> codec.parse(write(messages[i])) == Some(messages[i])
    requires AllAdmissible(Written(messages, write), framing)
    requires framing == Ndjson ==> !LooksLikeHeader(write(messages[0]))
    ensures var s := Served(codec, tools, db, FrameAll(Written(messages, write), framing));
      var (conn, sent) := Run(tools, Start(db), ParsedEach(messages));
      && s == Outcome(conn, sent, FrameAll(RenderAll(codec, sent), framing), AtEof)
      && (sent != [] && AllAdmissible(RenderAll(codec, sent), framing)
          && (framing == Ndjson ==> !LooksLikeHeader(codec.render(sent[0])))
          ==> ReadAll(s.output) == Transcript(Some(framing), RenderAll(codec, sent), AtEof))
  {
    hide Run, FrameAll, ReadAll, AllAdmissible, LooksLikeHeader;
    var bodies := Written(messages, write);
    FramingRoundTrip(bodies, framing);
    assert DecodeAll(codec, bodies) == ParsedEach(messages);
    var sent := Run(tools, Start(db), ParsedEach(messages)).1;
    if sent != [] {
      FramingRoundTrip(RenderAll(codec, sent), framing);
    }
  }

  /**
   A session over any written bodies, JSON or not, and then bytes that hold no message: every body is handled as its
   value or as a parse error, which does not end the session; the responses are framed like the requests; and the
   session ends cleanly when nothing follows, else with the error of what follows.
   */
  lemma AnyBodies<Db>(codec: Codec, tools: Tools<Db>, db: Db, bodies: seq<Bytes>, run: seq<Incoming>, tail: Bytes,
                      framing: Framing)
    requires bodies != [] && AllAdmissible(bodies, framing) && (framing == Ndjson ==> !LooksLikeHeader(bodies[0]))
    requires !Wire.ReadNext(tail, framing).Got?
    requires |run| == |bodies|
    requires forall i :: 0 <= i < |bodies| ==>
      run[i] == if codec.parse(bodies[i]).Some? then Parsed(codec.parse(bodies[i]).value) else ParseError
    ensures var s := Served(codec, tools, db, FrameAll(bodies, framing) + tail);
      var (conn, sent) := Run(tools, Start(db), run);
      && s.conn == conn && s.sent == sent && s.output == FrameAll(RenderAll(codec, sent), framing)
      && (Wire.ReadNext(tail, framing).EndOfInput? ==> s.end == AtEof)
      && (Wire.ReadNext(tail, framing).Err? ==> s.end == Failed(Wire.ReadNext(tail, framing).error))
  {
    hide Run, FrameAll, ReadAll, AllAdmissible, LooksLikeHeader, Wire.ReadNext;
    ReadAllThen(bodies, tail, framing);
    assert DecodeAll(codec, bodies) == run;
  }

  /** On an input without any message nothing is handled and nothing is sent. */
  lemma NoBodies<Db>(codec: Codec, tools: Tools<Db>, db: Db, input: Bytes)
    requires !Wire.ReadFirst(input).Got?
    ensures var s := Served(codec, tools, db, input);
      && s.conn == Start(db) && s.output == [] && s.sent == []
      && (Wire.ReadFirst(input).EndOfInput? ==> s.end == AtEof)
      && (Wire.ReadFirst(input).Err? ==> s.end == Failed(Wire.ReadFirst(input).error))
  {
    hide Wire.ReadFirst;
    EmptyRun(codec, tools, db);
  }

  /**
   Safety for every byte stream, however malformed: if the session executed any tool, then two of the bodies it read, in
   this order, decoded to an accepted `initialize` and a `notifications/initialized` without id.
   */
  lemma NoToolWithoutHandshake<Db>(codec: Codec, tools: Tools<Db>, db: Db, input: Bytes)
    ensures var c := Served(codec, tools, db, input).conn;
      c.calls != [] || c.db != db ==> HandshakeDone(DecodeAll(codec, ReadAll(input).bodies))
  {
    hide ReadAll, AcceptsInitialize, ConfirmsInitialized;
    SilentUntilHandshake(tools, db, DecodeAll(codec, ReadAll(input).bodies));
  }

  lemma {:induction false} SilentUntilHandshake<Db>(tools: Tools<Db>, db: Db, run: seq<Incoming>)
    ensures !HandshakeDone(run) ==> Run(tools, Start(db), run).0.calls == [] && Run(tools, Start(db), run).0.db == db
  {
    hide Process, AcceptsInitialize, ConfirmsInitialized;
    if run != [] && !HandshakeDone(run) {
      var k := |run| - 1;
      ExtendHandshake(run);
      SilentUntilHandshake(tools, db, run[..k]);
      RunState(tools, db, run[..k]);
      StepState(tools, Run(tools, Start(db), run[..k]).0, run[k]);
    }
  }
}
