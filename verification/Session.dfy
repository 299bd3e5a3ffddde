/**
 The connection lifecycle of the agent-forge MCP server: JSON-RPC 2.0 dispatch (sections 4.1, 5 and 6) wrapped in the
 three-state initialization protocol of MCP revision 2025-03-26.
 */
module Session {
  import opened Wrappers
  import opened Json

  datatype SessionState = AwaitingInitialize | AwaitingInitializedNotification | Ready

  /** The error replies the server can give; the constructor stands for the message text. */
  datatype Fault =
    | InvalidRequest | MissingMethod | ToolNameRequired | UnknownTool(name: string) | MethodNotFound(name: string)
    | EmptyBatch | InitializeMustBeRequest | ProtocolVersionRequired | NotInitialized
    | InitializedNotReceived | AlreadyInitialized | BatchBeforeReady | Unparsable

  function Code(f: Fault): int {
    match f
    case InvalidRequest | MissingMethod | EmptyBatch | InitializeMustBeRequest | AlreadyInitialized => -32600
    case MethodNotFound(_) => -32601
    case ToolNameRequired | UnknownTool(_) | ProtocolVersionRequired => -32602
    case Unparsable => -32700
    case NotInitialized | InitializedNotReceived | BatchBeforeReady => -32002
  }

  /** A JSON-RPC response object: an id with either a result or an error. */
  datatype Reply = Result(id: Json, result: Json) | Error(id: Json, fault: Fault)

  datatype Response = Single(reply: Reply) | Batch(replies: seq<Reply>)

  /** One execution of a tool. */
  datatype Call = Call(name: string, arguments: Json)

  /** The tools behind `tools/call` and the fixed answers, none of which this model looks into. */
  datatype Tools<!Db> = Tools(names: set<string>, run: (Db, Call) -> (Db, Json), listing: Json, greeting: Json)

  /** A connection: lifecycle state, database, and every tool execution so far. */
  datatype Conn<+Db> = Conn(state: SessionState, db: Db, calls: seq<Call>)

  datatype Method = Initialize | Initialized | Ping | ToolsList | ToolsCall | Other(name: string)

  function Classify(name: string): Method {
    if name == "initialize" then Initialize
    else if name == "notifications/initialized" then Initialized
    else if name == "ping" then Ping
    else if name == "tools/list" then ToolsList
    else if name == "tools/call" then ToolsCall
    else Other(name)
  }

  function IdOf(request: Json): Option<Json> {
    Get(request, "id")
  }

  function MethodOf(request: Json): Option<Method> {
    match AsStr(Get(request, "method"))
    case None => None
    case Some(name) => Some(Classify(name))
  }

  predicate IsVersion2(request: Json) {
    request.Object? && AsStr(Get(request, "jsonrpc")) == Some("2.0")
  }

  /** The envelope every later branch relies on. */
  predicate WellFormed(request: Json) {
    IsVersion2(request) && MethodOf(request).Some?
  }

  predicate HasProtocolVersion(request: Json) {
    var params := Get(request, "params");
    params.Some? && AsStr(Get(params.value, "protocolVersion")).Some?
  }

  function Params(request: Json): Json {
    match Get(request, "params")
    case None => Object([])
    case Some(params) => params
  }

  function ToolName(request: Json): Option<string> {
    AsStr(Get(Params(request), "name"))
  }

  function Arguments(request: Json): Json {
    match Get(Params(request), "arguments")
    case None => Object([])
    case Some(arguments) => arguments
  }

  function IdOrNull(request: Json): Json {
    match IdOf(request)
    case None => Null
    case Some(id) => id
  }

  /** Dispatch one request without lifecycle rules. */
  function HandleRequest<Db>(tools: Tools<Db>, c: Conn<Db>, request: Json): (r: (Conn<Db>, Option<Reply>))
  {
    var id := IdOrNull(request);
    if !IsVersion2(request) then (c, Some(Error(id, InvalidRequest)))
    else match MethodOf(request)
      case None => (c, Some(Error(id, MissingMethod)))
      case Some(verb) =>
        if IdOf(request).None? then (c, None)
        else match verb
          case Initialize => (c, Some(Result(id, tools.greeting)))
          case Ping => (c, Some(Result(id, Object([]))))
          case ToolsList => (c, Some(Result(id, tools.listing)))
          case ToolsCall => CallTool(tools, c, id, request)
          case Initialized => (c, Some(Error(id, MethodNotFound("notifications/initialized"))))
          case Other(name) => (c, Some(Error(id, MethodNotFound(name))))
  }

  function CallTool<Db>(tools: Tools<Db>, c: Conn<Db>, id: Json, request: Json): (r: (Conn<Db>, Option<Reply>))
  {
    match ToolName(request)
    case None => (c, Some(Error(id, ToolNameRequired)))
    case Some(name) =>
      if name !in tools.names then (c, Some(Error(id, UnknownTool(name))))
      else
        var call := Call(name, Arguments(request));
        var (db, result) := tools.run(c.db, call);
        (Conn(c.state, db, c.calls + [call]), Some(Result(id, result)))
  }

  /** An error when the request carries an id, silence when it is a notification. */
  function Refuse(request: Json, fault: Fault): Option<Reply> {
    match IdOf(request)
    case None => None
    case Some(id) => Some(Error(id, fault))
  }

  function HandleSessionRequest<Db>(tools: Tools<Db>, c: Conn<Db>, request: Json): (r: (Conn<Db>, Option<Reply>))
  {
    if !WellFormed(request) then HandleRequest(tools, c, request)
    else
      var verb := MethodOf(request).value;
      match c.state
      case AwaitingInitialize =>
        if verb == Initialize then
          match IdOf(request)
          case None => (c, Some(Error(Null, InitializeMustBeRequest)))
          case Some(id) =>
            if !HasProtocolVersion(request) then (c, Some(Error(id, ProtocolVersionRequired)))
            else
              var (c', reply) := HandleRequest(tools, c, request);
              (c'.(state := AwaitingInitializedNotification), reply)
        else if verb == Ping then HandleRequest(tools, c, request)
        else (c, Refuse(request, NotInitialized))
      case AwaitingInitializedNotification =>
        if verb == Initialized && IdOf(request).None? then (c.(state := Ready), None)
        else if verb == Ping then HandleRequest(tools, c, request)
        else (c, Refuse(request, InitializedNotReceived))
      case Ready =>
        if verb == Initialize then (c, Refuse(request, AlreadyInitialized))
        else HandleRequest(tools, c, request)
  }

  function Singleton(r: Option<Reply>): seq<Reply> {
    if r.Some? then [r.value] else []
  }

  /** Requests handled one after the other, the replies of those that get one in order. */
  function HandleEach<Db>(tools: Tools<Db>, c: Conn<Db>, requests: seq<Json>): (r: (Conn<Db>, seq<Reply>))
  {
    if requests == [] then (c, [])
    else
      var (c1, replies) := HandleEach(tools, c, requests[..|requests| - 1]);
      var (c2, reply) := HandleSessionRequest(tools, c1, requests[|requests| - 1]);
      (c2, replies + Singleton(reply))
  }

  function RefuseEach(requests: seq<Json>): (r: seq<Reply>)
  {
    if requests == [] then []
    else RefuseEach(requests[..|requests| - 1]) + Singleton(Refuse(requests[|requests| - 1], BatchBeforeReady))
  }

  function BatchResponse(replies: seq<Reply>): Option<Response> {
    if replies == [] then None else Some(Batch(replies))
  }

  function HandleSessionMessage<Db>(tools: Tools<Db>, c: Conn<Db>, message: Json): (r: (Conn<Db>, Option<Response>))
  {
    match message
    case Array(requests) =>
      if requests == [] then (c, Some(Single(Error(Null, EmptyBatch))))
      else if c.state != Ready then (c, BatchResponse(RefuseEach(requests)))
      else
        var (c', replies) := HandleEach(tools, c, requests);
        (c', BatchResponse(replies))
    case _ =>
      var (c', reply) := HandleSessionRequest(tools, c, message);
      (c', if reply.Some? then Some(Single(reply.value)) else None)
  }

  datatype Incoming = Parsed(message: Json) | ParseError

  function Process<Db>(tools: Tools<Db>, c: Conn<Db>, incoming: Incoming): (r: (Conn<Db>, Option<Response>))
  {
    match incoming
    case Parsed(message) => HandleSessionMessage(tools, c, message)
    case ParseError => (c, Some(Single(Error(Null, Unparsable))))
  }

  /** A connection after a whole run, and everything it sent. */
  function Run<Db>(tools: Tools<Db>, c: Conn<Db>, run: seq<Incoming>): (r: (Conn<Db>, seq<Response>))
  {
    if run == [] then (c, [])
    else
      var (c1, sent) := Run(tools, c, run[..|run| - 1]);
      var (c2, response) := Process(tools, c1, run[|run| - 1]);
      (c2, sent + if response.Some? then [response.value] else [])
  }

  function Start<Db>(db: Db): Conn<Db> {
    Conn(AwaitingInitialize, db, [])
  }

  // ----- the handshake, read off the messages alone

  /** A request the server accepts as `initialize`. */
  predicate AcceptsInitialize(m: Incoming) {
    m.Parsed? && WellFormed(m.message) && MethodOf(m.message).value == Initialize
    && IdOf(m.message).Some? && HasProtocolVersion(m.message)
  }

  /** The client's `notifications/initialized`, sent as a notification. */
  predicate ConfirmsInitialized(m: Incoming) {
    m.Parsed? && WellFormed(m.message) && MethodOf(m.message).value == Initialized && IdOf(m.message).None?
  }

  ghost predicate Greeted(run: seq<Incoming>) {
    exists i :: 0 <= i < |run| && AcceptsInitialize(run[i])
  }

  ghost predicate HandshakeDone(run: seq<Incoming>) {
    exists i, j :: 0 <= i < j < |run| && AcceptsInitialize(run[i]) && ConfirmsInitialized(run[j])
  }

  ghost function StateOf(run: seq<Incoming>): SessionState {
    if HandshakeDone(run) then Ready
    else if Greeted(run) then AwaitingInitializedNotification
    else AwaitingInitialize
  }

  // ----- single steps

  lemma WellFormedIsObject(request: Json)
    requires WellFormed(request)
    ensures request.Object?
  {
  }

  /**
   One message moves the state exactly as the handshake prescribes, and touches the database only through calls made
   when ready.
   */
  lemma StepState<Db>(tools: Tools<Db>, c: Conn<Db>, m: Incoming)
    ensures Process(tools, c, m).0.state ==
      match c.state
      case AwaitingInitialize => if AcceptsInitialize(m) then AwaitingInitializedNotification else AwaitingInitialize
      case AwaitingInitializedNotification => if ConfirmsInitialized(m) then Ready else AwaitingInitializedNotification
      case Ready => Ready
    ensures c.state != Ready ==> Process(tools, c, m).0.calls == c.calls && Process(tools, c, m).0.db == c.db
  {
    hide MethodOf, IdOf, IsVersion2, HasProtocolVersion, IdOrNull, RefuseEach;
    if m.Parsed? {
      if m.message.Array? {
        assert !WellFormed(m.message) by { if WellFormed(m.message) { WellFormedIsObject(m.message); } }
        if c.state == Ready { EachStaysReady(tools, c, m.message.items); }
      }
    }
  }

  lemma {:induction false} EachStaysReady<Db>(tools: Tools<Db>, c: Conn<Db>, requests: seq<Json>)
    requires c.state == Ready
    ensures HandleEach(tools, c, requests).0.state == Ready
  {
    hide MethodOf, IdOf, IsVersion2, HasProtocolVersion, IdOrNull;
    if requests != [] {
      EachStaysReady(tools, c, requests[..|requests| - 1]);
    }
  }

  // ----- whole runs

  /** The state of a connection is a function of which handshake messages have arrived in which order. */
  lemma {:induction false} RunState<Db>(tools: Tools<Db>, db: Db, run: seq<Incoming>)
    ensures Run(tools, Start(db), run).0.state == StateOf(run)
  {
    hide Process, AcceptsInitialize, ConfirmsInitialized;
    if run != [] {
      var k := |run| - 1;
      RunState(tools, db, run[..k]);
      StepState(tools, Run(tools, Start(db), run[..k]).0, run[k]);
      ExtendHandshake(run);
    }
  }

  lemma ExtendHandshake(run: seq<Incoming>)
    requires run != []
    ensures var k := |run| - 1;
      && (Greeted(run) <==> Greeted(run[..k]) || AcceptsInitialize(run[k]))
      && (HandshakeDone(run) <==> HandshakeDone(run[..k]) || (Greeted(run[..k]) && ConfirmsInitialized(run[k])))
      && (HandshakeDone(run[..k]) ==> Greeted(run[..k]))
  {
    hide AcceptsInitialize, ConfirmsInitialized;
    var k := |run| - 1;
    var front := run[..k];
    if HandshakeDone(front) {
      var i, j :| 0 <= i < j < |front| && AcceptsInitialize(front[i]) && ConfirmsInitialized(front[j]);
      assert run[i] == front[i] && run[j] == front[j];
    }
    if Greeted(front) {
      var i :| 0 <= i < |front| && AcceptsInitialize(front[i]);
      assert run[i] == front[i];
    }
    if HandshakeDone(run) {
      var i, j :| 0 <= i < j < |run| && AcceptsInitialize(run[i]) && ConfirmsInitialized(run[j]);
      assert run[i] == front[i];
      if j < k { assert run[j] == front[j]; }
    }
    if Greeted(run) {
      var i :| 0 <= i < |run| && AcceptsInitialize(run[i]);
      if i < k { assert run[i] == front[i]; }
    }
  }

  /**
   Session safety: in every run, a message that executes a tool or changes the database comes strictly after an accepted
   `initialize` and, later than it, a `notifications/initialized` without id.
   */
  lemma ToolsNeedHandshake<Db>(tools: Tools<Db>, db: Db, run: seq<Incoming>, k: nat)
    requires k < |run|
    requires var before, after := Run(tools, Start(db), run[..k]).0, Run(tools, Start(db), run[..k + 1]).0;
      before.calls != after.calls || before.db != after.db
    ensures exists i, j :: 0 <= i < j < k && AcceptsInitialize(run[i]) && ConfirmsInitialized(run[j])
  {
    hide Process, AcceptsInitialize, ConfirmsInitialized;
    var front := run[..k];
    assert run[..k + 1][..k] == front;
    RunState(tools, db, front);
    StepState(tools, Run(tools, Start(db), front).0, run[k]);
    var i, j :| 0 <= i < j < |front| && AcceptsInitialize(front[i]) && ConfirmsInitialized(front[j]);
    assert front[i] == run[i] && front[j] == run[j];
  }

  function Rank(s: SessionState): nat {
    match s case AwaitingInitialize => 0 case AwaitingInitializedNotification => 1 case Ready => 2
  }

  function StateAt<Db>(tools: Tools<Db>, db: Db, run: seq<Incoming>, k: nat): SessionState
    requires k <= |run|
  {
    Run(tools, Start(db), run[..k]).0.state
  }

  lemma StateAtStep<Db>(tools: Tools<Db>, db: Db, run: seq<Incoming>, k: nat)
    requires k < |run|
    ensures var (now, next) := (StateAt(tools, db, run, k), StateAt(tools, db, run, k + 1));
      Rank(now) <= Rank(next) <= Rank(now) + 1
    ensures StateAt(tools, db, run, k) != StateAt(tools, db, run, k + 1) ==>
      !run[k].ParseError? && !run[k].message.Array?
  {
    hide Process, MethodOf, IdOf, IsVersion2, HasProtocolVersion;
    assert run[..k + 1][..k] == run[..k];
    if run[k].Parsed? && WellFormed(run[k].message) { WellFormedIsObject(run[k].message); }
    StepState(tools, Run(tools, Start(db), run[..k]).0, run[k]);
  }

  /** Over a whole run the state only moves forward, so each later state is entered by at most one message. */
  lemma {:induction false} StateMovesForward<Db>(tools: Tools<Db>, db: Db, run: seq<Incoming>, i: nat, j: nat)
    requires i <= j <= |run|
    ensures Rank(StateAt(tools, db, run, i)) <= Rank(StateAt(tools, db, run, j))
    decreases j - i
  {
    hide Run, StateAt;
    if i < j {
      StateMovesForward(tools, db, run, i, j - 1);
      StateAtStep(tools, db, run, j - 1);
    }
  }

  lemma EachStateEnteredOnce<Db>(tools: Tools<Db>, db: Db, run: seq<Incoming>, i: nat, j: nat)
    requires i < |run| && j < |run|
    requires StateAt(tools, db, run, i) != StateAt(tools, db, run, i + 1)
    requires StateAt(tools, db, run, j) != StateAt(tools, db, run, j + 1)
    requires StateAt(tools, db, run, i + 1) == StateAt(tools, db, run, j + 1)
    ensures i == j
  {
    hide Run, StateAt;
    StateAtStep(tools, db, run, i);
    StateAtStep(tools, db, run, j);
    if i < j { StateMovesForward(tools, db, run, i + 1, j); }
    if j < i { StateMovesForward(tools, db, run, j + 1, i); }
  }

  // ----- the database is what the logged calls make it

  function Replay<Db>(tools: Tools<Db>, db: Db, calls: seq<Call>): Db
  {
    if calls == [] then db
    else tools.run(Replay(tools, db, calls[..|calls| - 1]), calls[|calls| - 1]).0
  }

  /** `c'` extends the log of `c` and holds the database those further calls produce from the start. */
  ghost predicate Logged<Db>(tools: Tools<Db>, db: Db, c: Conn<Db>) {
    c.db == Replay(tools, db, c.calls) && forall i :: 0 <= i < |c.calls| ==> c.calls[i].name in tools.names
  }

  lemma CallLogged<Db>(tools: Tools<Db>, db: Db, c: Conn<Db>, id: Json, request: Json)
    requires Logged(tools, db, c)
    ensures Logged(tools, db, CallTool(tools, c, id, request).0)
  {
    hide ToolName, Arguments;
    if ToolName(request).Some? {
      var call := Call(ToolName(request).value, Arguments(request));
      assert (c.calls + [call])[..|c.calls|] == c.calls;
    }
  }

  /** Dispatch leaves state, log and database alone unless it calls a tool. */
  lemma OnlyCallsLog<Db>(tools: Tools<Db>, c: Conn<Db>, request: Json)
    ensures var c' := HandleSessionRequest(tools, c, request).0;
      (c'.calls == c.calls && c'.db == c.db) || c' == CallTool(tools, c, IdOrNull(request), request).0
  {
    hide MethodOf, IdOf, IsVersion2, HasProtocolVersion, IdOrNull, CallTool;
    CallToolState(tools, c, IdOrNull(request), request);
  }

  lemma CallToolState<Db>(tools: Tools<Db>, c: Conn<Db>, id: Json, request: Json)
    ensures CallTool(tools, c, id, request).0.state == c.state
  {
    hide ToolName, Arguments;
  }

  lemma RequestLogged<Db>(tools: Tools<Db>, db: Db, c: Conn<Db>, request: Json)
    requires Logged(tools, db, c)
    ensures Logged(tools, db, HandleSessionRequest(tools, c, request).0)
  {
    hide HandleSessionRequest, CallTool, Replay, IdOrNull;
    OnlyCallsLog(tools, c, request);
    CallLogged(tools, db, c, IdOrNull(request), request);
  }

  lemma {:induction false} EachLogged<Db>(tools: Tools<Db>, db: Db, c: Conn<Db>, requests: seq<Json>)
    requires Logged(tools, db, c)
    ensures Logged(tools, db, HandleEach(tools, c, requests).0)
  {
    hide HandleSessionRequest, Logged;
    if requests != [] {
      var k := |requests| - 1;
      EachLogged(tools, db, c, requests[..k]);
      RequestLogged(tools, db, HandleEach(tools, c, requests[..k]).0, requests[k]);
    }
  }

  /**
   Every change to the database in every run is accounted for by the logged calls, all of them to advertised tools.
   */
  lemma {:induction false} RunLogged<Db>(tools: Tools<Db>, db: Db, run: seq<Incoming>)
    ensures Logged(tools, db, Run(tools, Start(db), run).0)
  {
    hide HandleSessionRequest, RefuseEach;
    if run != [] {
      var k := |run| - 1;
      RunLogged(tools, db, run[..k]);
      var c := Run(tools, Start(db), run[..k]).0;
      if run[k].Parsed? {
        RequestLogged(tools, db, c, run[k].message);
        if run[k].message.Array? { EachLogged(tools, db, c, run[k].message.items); }
      }
    }
  }

  // ----- replies

  /**
   Sections 4.1 and 5 of JSON-RPC 2.0, in every state: a well-formed request with an id gets exactly one reply and it
   carries that id; a well-formed notification gets none, except `initialize` without an id before initialization.
   */
  lemma ReplyMatchesRequest<Db>(tools: Tools<Db>, c: Conn<Db>, request: Json)
    requires WellFormed(request)
    ensures var reply := HandleSessionRequest(tools, c, request).1;
      && (IdOf(request).Some? ==> reply.Some? && reply.value.id == IdOf(request).value)
      && (IdOf(request).None? ==>
            reply == if c.state == AwaitingInitialize && MethodOf(request).value == Initialize
                     then Some(Error(Null, InitializeMustBeRequest)) else None)
  {
    hide MethodOf, IsVersion2, HasProtocolVersion, ToolName, Arguments;
  }

  /** A `tools/call` that names an advertised tool. */
  predicate CallsKnownTool<Db>(tools: Tools<Db>, request: Json) {
    MethodOf(request) == Some(ToolsCall) && ToolName(request).Some? && ToolName(request).value in tools.names
  }

  /**
   What a well-formed request with an id comes to. A tool runs exactly when the session is ready and the request calls
   a known tool; it then runs once, with the request's arguments, and its result is the reply. Every other reply is a
   result for `ping`, for `tools/list` once ready and for the accepted `initialize`, and otherwise an error whose code
   says why.
   */
  lemma RequestOutcome<Db>(tools: Tools<Db>, c: Conn<Db>, request: Json)
    requires WellFormed(request) && IdOf(request).Some?
    ensures var (c', reply) := HandleSessionRequest(tools, c, request);
      var verb := MethodOf(request).value;
      if c.state == Ready && CallsKnownTool(tools, request) then
        var call := Call(ToolName(request).value, Arguments(request));
        && c' == Conn(Ready, tools.run(c.db, call).0, c.calls + [call])
        && reply == Some(Result(IdOf(request).value, tools.run(c.db, call).1))
      else
        && c'.calls == c.calls && c'.db == c.db
        && match verb
           case Ping => reply.value.Result? && reply.value.result == Object([])
           case ToolsList =>
             if c.state == Ready then reply.value.Result? && reply.value.result == tools.listing
             else Denied(reply, -32002)
           case ToolsCall => Denied(reply, if c.state == Ready then -32602 else -32002)
           case Initialize =>
             if c.state == AwaitingInitialize && HasProtocolVersion(request) then
               reply.value.Result? && reply.value.result == tools.greeting
             else Denied(reply, match c.state
                                case AwaitingInitialize => -32602
                                case AwaitingInitializedNotification => -32002
                                case Ready => -32600)
           case _ => Denied(reply, if c.state == Ready then -32601 else -32002)
  {
    hide MethodOf, IsVersion2, HasProtocolVersion, ToolName, Arguments;
    ReplyMatchesRequest(tools, c, request);
  }

  predicate Denied(reply: Option<Reply>, code: int) {
    reply.Some? && reply.value.Error? && Code(reply.value.fault) == code
  }

  /** A malformed request always gets one invalid-request error with its id, or null, and changes nothing. */
  lemma MalformedIsRefused<Db>(tools: Tools<Db>, c: Conn<Db>, request: Json)
    requires !WellFormed(request)
    ensures HandleSessionRequest(tools, c, request).0 == c
    ensures var reply := HandleSessionRequest(tools, c, request).1;
      reply.Some? && reply.value.Error? && Code(reply.value.fault) == -32600 && reply.value.id == IdOrNull(request)
  {
    hide MethodOf, IsVersion2, HasProtocolVersion, IdOf;
  }

  function Replies(sent: seq<Response>): seq<Reply>
  {
    if sent == [] then []
    else
      var last := sent[|sent| - 1];
      Replies(sent[..|sent| - 1]) + if last.Single? then [last.reply] else last.replies
  }

  function ParsedEach(requests: seq<Json>): seq<Incoming> {
    seq(|requests|, i requires 0 <= i < |requests| => Parsed(requests[i]))
  }

  lemma {:induction false} OneByOne<Db>(tools: Tools<Db>, c: Conn<Db>, requests: seq<Json>)
    requires forall i :: 0 <= i < |requests| ==> !requests[i].Array?
    ensures Run(tools, c, ParsedEach(requests)).0 == HandleEach(tools, c, requests).0
    ensures Replies(Run(tools, c, ParsedEach(requests)).1) == HandleEach(tools, c, requests).1
  {
    hide HandleSessionRequest;
    if requests != [] {
      var k := |requests| - 1;
      OneByOne(tools, c, requests[..k]);
      assert ParsedEach(requests)[..k] == ParsedEach(requests[..k]);
      var (c1, sent) := Run(tools, c, ParsedEach(requests[..k]));
      var reply := HandleSessionRequest(tools, c1, requests[k]).1;
      if reply.Some? {
        assert (sent + [Single(reply.value)])[..|sent|] == sent;
      } else {
        assert sent + [] == sent;
        assert HandleEach(tools, c, requests).1 == HandleEach(tools, c, requests[..k]).1;
      }
    }
  }

  /**
   Section 6 of JSON-RPC 2.0: once ready, a non-empty batch of non-array members leaves the connection exactly as its
   members sent one by one would, and its replies are theirs, in order; nothing is sent when there are none.
   */
  lemma BatchRefinesSequence<Db>(tools: Tools<Db>, c: Conn<Db>, requests: seq<Json>)
    requires c.state == Ready && requests != []
    requires forall i :: 0 <= i < |requests| ==> !requests[i].Array?
    ensures var (batched, response) := Process(tools, c, Parsed(Array(requests)));
      var (single, sent) := Run(tools, c, ParsedEach(requests));
      batched == single && response == if Replies(sent) == [] then None else Some(Batch(Replies(sent)))
  {
    hide Run, HandleEach, HandleSessionRequest;
    OneByOne(tools, c, requests);
  }

  /** The ids of the members that have one, in order. */
  function Ids(requests: seq<Json>): (r: seq<Json>)
  {
    if requests == [] then []
    else
      var id := IdOf(requests[|requests| - 1]);
      Ids(requests[..|requests| - 1]) + if id.Some? then [id.value] else []
  }

  /**
   Before the session is ready a batch changes nothing, and its response is one -32002 error for each member with an
   id, in the order of the members; nothing is sent when there is none.
   */
  lemma EarlyBatchIsRefused<Db>(tools: Tools<Db>, c: Conn<Db>, requests: seq<Json>)
    requires c.state != Ready && requests != []
    ensures Code(BatchBeforeReady) == -32002
    ensures var refusals := seq(|Ids(requests)|,
                                i requires 0 <= i < |Ids(requests)| => Error(Ids(requests)[i], BatchBeforeReady));
      Process(tools, c, Parsed(Array(requests))) == (c, if refusals == [] then None else Some(Batch(refusals)))
  {
    hide Ids, RefuseEach;
    RefusedEach(requests);
  }

  lemma {:induction false} RefusedEach(requests: seq<Json>)
    ensures RefuseEach(requests)
         == seq(|Ids(requests)|, i requires 0 <= i < |Ids(requests)| => Error(Ids(requests)[i], BatchBeforeReady))
  {
    hide IdOf;
    if requests != [] {
      RefusedEach(requests[..|requests| - 1]);
    }
  }
}
