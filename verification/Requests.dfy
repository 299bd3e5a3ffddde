/**
 What each JSON-RPC message comes to, said over the fields of the message itself: which object runs which tool with
 which arguments, which is answered with what, and which is refused with which code.
 */
module Requests {
  import opened Wrappers
  import opened Json
  import opened Session

  /** A JSON-RPC 2.0 object for a method, its fields in any order. */
  ghost predicate Asks(fields: seq<Field>, verb: string) {
    DistinctFields(fields) && Field("jsonrpc", Str("2.0")) in fields && Field("method", Str(verb)) in fields
  }

  /** The message gives a string under this name in its parameters. */
  ghost predicate GivesParam(fields: seq<Field>, name: string, v: string) {
    exists params :: Field("params", Object(params)) in fields && Field(name, Str(v)) in params
  }

  /** Parameters, where they are an object, have distinct keys too. */
  ghost predicate DistinctParams(fields: seq<Field>) {
    forall params :: Field("params", Object(params)) in fields ==> DistinctFields(params)
  }

  /** Nothing happens, and the request is refused under its id; the fault has a code of its own. */
  ghost predicate Refused<Db>(outcome: (Conn<Db>, Option<Response>), c: Conn<Db>, id: Json, fault: Fault, code: int) {
    outcome == (c, Some(Single(Error(id, fault)))) && Code(fault) == code
  }

  // ----- reading the fields

  lemma Reading(fields: seq<Field>, verb: string)
    requires Asks(fields, verb)
    ensures var request := Object(fields);
      && WellFormed(request) && MethodOf(request) == Some(Classify(verb))
      && (forall id :: Field("id", id) in fields <==> IdOf(request) == Some(id))
      && (Lacks(fields, "id") <==> IdOf(request) == None)
  {
    hide Find, Classify;
    FindHeld(fields, "jsonrpc");
    FindHeld(fields, "method");
    FindHeld(fields, "id");
    assert Find(fields, "jsonrpc") == Some(Str("2.0")) && Find(fields, "method") == Some(Str(verb));
  }

  lemma ReadingParam(fields: seq<Field>, name: string)
    requires DistinctFields(fields) && DistinctParams(fields)
    ensures forall v :: GivesParam(fields, name, v) <==> AsStr(Get(Params(Object(fields)), name)) == Some(v)
    ensures HasProtocolVersion(Object(fields)) <==> exists v :: GivesParam(fields, "protocolVersion", v)
  {
    hide Find;
    FindHeld(fields, "params");
    var held := Find(fields, "params");
    assert Find([], name) == None by { FindNothing(name); }
    if held.Some? && held.value.Object? {
      assert Field("params", held.value) in fields;
      FindHeld(held.value.fields, name);
      FindHeld(held.value.fields, "protocolVersion");
      assert forall v :: GivesParam(fields, name, v) <==> Field(name, Str(v)) in held.value.fields;
      assert forall v :: GivesParam(fields, "protocolVersion", v) <==>
        Field("protocolVersion", Str(v)) in held.value.fields;
    }
  }

  lemma FindNothing(name: string)
    ensures Find([], name) == None
  {
  }

  // ----- requests once ready

  /** A call of a known tool runs that tool, once, with the arguments of the message, and replies with its result. */
  lemma ToolCallRuns<Db>(tools: Tools<Db>, c: Conn<Db>, fields: seq<Field>, id: Json, params: seq<Field>, name: string,
                         arguments: Json)
    requires c.state == Ready && Asks(fields, "tools/call") && Field("id", id) in fields
    requires Field("params", Object(params)) in fields && DistinctFields(params) && Field("name", Str(name)) in params
    requires name in tools.names
    requires Field("arguments", arguments) in params || (Lacks(params, "arguments") && arguments == Object([]))
    ensures var (db, result) := tools.run(c.db, Call(name, arguments));
      Process(tools, c, Parsed(Object(fields)))
      == (Conn(Ready, db, c.calls + [Call(name, arguments)]), Some(Single(Result(id, result))))
  {
    hide Find;
    var request := Object(fields);
    Reading(fields, "tools/call");
    FindHeld(fields, "params");
    FindHeld(params, "name");
    FindHeld(params, "arguments");
    assert Find(fields, "params") == Some(Object(params)) && Find(params, "name") == Some(Str(name));
    assert ToolName(request) == Some(name) && Arguments(request) == arguments;
  }

  /** Any other tool call is refused and runs nothing: the name is missing, no string, or no tool's. */
  lemma ToolCallRefused<Db>(tools: Tools<Db>, c: Conn<Db>, fields: seq<Field>, id: Json)
    requires c.state == Ready && Asks(fields, "tools/call") && Field("id", id) in fields && DistinctParams(fields)
    requires forall name :: GivesParam(fields, "name", name) ==> name !in tools.names
    ensures forall name :: GivesParam(fields, "name", name) ==>
      Refused(Process(tools, c, Parsed(Object(fields))), c, id, UnknownTool(name), -32602)
    ensures (forall name :: !GivesParam(fields, "name", name)) ==>
      Refused(Process(tools, c, Parsed(Object(fields))), c, id, ToolNameRequired, -32602)
  {
    hide Find;
    Reading(fields, "tools/call");
    ReadingParam(fields, "name");
    var name := ToolName(Object(fields));
    assert name.Some? ==> GivesParam(fields, "name", name.value);
  }

  /** `ping` is answered with an empty object in every state. */
  lemma PingAnswered<Db>(tools: Tools<Db>, c: Conn<Db>, fields: seq<Field>, id: Json)
    requires Asks(fields, "ping") && Field("id", id) in fields
    ensures Process(tools, c, Parsed(Object(fields))) == (c, Some(Single(Result(id, Object([])))))
  {
    Reading(fields, "ping");
  }

  lemma ToolsListed<Db>(tools: Tools<Db>, c: Conn<Db>, fields: seq<Field>, id: Json)
    requires c.state == Ready && Asks(fields, "tools/list") && Field("id", id) in fields
    ensures Process(tools, c, Parsed(Object(fields))) == (c, Some(Single(Result(id, tools.listing))))
  {
    Reading(fields, "tools/list");
  }

  /** Every other method is unknown once ready; `initialize` comes too late. */
  lemma ReadyRefuses<Db>(tools: Tools<Db>, c: Conn<Db>, fields: seq<Field>, id: Json, verb: string)
    requires c.state == Ready && Asks(fields, verb) && Field("id", id) in fields
    requires verb !in ["ping", "tools/list", "tools/call"]
    ensures var outcome := Process(tools, c, Parsed(Object(fields)));
      if verb == "initialize" then Refused(outcome, c, id, AlreadyInitialized, -32600)
      else Refused(outcome, c, id, MethodNotFound(verb), -32601)
  {
    Reading(fields, verb);
  }

  // ----- the handshake

  /** `initialize` with a protocol version is accepted once, and nothing but its state changes. */
  lemma InitializeAccepted<Db>(tools: Tools<Db>, c: Conn<Db>, fields: seq<Field>, id: Json, version: string)
    requires c.state == AwaitingInitialize && Asks(fields, "initialize") && Field("id", id) in fields
    requires DistinctParams(fields) && GivesParam(fields, "protocolVersion", version)
    ensures Process(tools, c, Parsed(Object(fields)))
         == (Conn(AwaitingInitializedNotification, c.db, c.calls), Some(Single(Result(id, tools.greeting))))
  {
    Reading(fields, "initialize");
    ReadingParam(fields, "protocolVersion");
  }

  /** Without a protocol version, or without an id, it is refused. */
  lemma InitializeRefused<Db>(tools: Tools<Db>, c: Conn<Db>, fields: seq<Field>)
    requires c.state == AwaitingInitialize && Asks(fields, "initialize") && DistinctParams(fields)
    ensures Lacks(fields, "id") ==>
              Refused(Process(tools, c, Parsed(Object(fields))), c, Null, InitializeMustBeRequest, -32600)
    ensures forall id :: Field("id", id) in fields && (forall v :: !GivesParam(fields, "protocolVersion", v)) ==>
              Refused(Process(tools, c, Parsed(Object(fields))), c, id, ProtocolVersionRequired, -32602)
  {
    Reading(fields, "initialize");
    ReadingParam(fields, "protocolVersion");
  }

  /** The client's notification, and only a notification, makes the connection ready. */
  lemma InitializedAccepted<Db>(tools: Tools<Db>, c: Conn<Db>, fields: seq<Field>)
    requires c.state == AwaitingInitializedNotification && Asks(fields, "notifications/initialized")
    ensures Lacks(fields, "id") ==>
              Process(tools, c, Parsed(Object(fields))) == (Conn(Ready, c.db, c.calls), None)
    ensures forall id :: Field("id", id) in fields ==>
              Refused(Process(tools, c, Parsed(Object(fields))), c, id, InitializedNotReceived, -32002)
  {
    Reading(fields, "notifications/initialized");
  }

  /** Whatever else comes before the connection is ready is refused, notifications in silence. */
  lemma TooEarly<Db>(tools: Tools<Db>, c: Conn<Db>, fields: seq<Field>, verb: string)
    requires Asks(fields, verb) && verb != "ping" && c.state != Ready
    requires verb != if c.state == AwaitingInitialize then "initialize" else "notifications/initialized"
    ensures Lacks(fields, "id") ==> Process(tools, c, Parsed(Object(fields))) == (c, None)
    ensures var fault := if c.state == AwaitingInitialize then NotInitialized else InitializedNotReceived;
      forall id :: Field("id", id) in fields ==>
        Refused(Process(tools, c, Parsed(Object(fields))), c, id, fault, -32002)
  {
    Reading(fields, verb);
  }

  /** Notifications are never answered and run nothing, known methods and unknown, ready or not. */
  lemma NotificationsAreSilent<Db>(tools: Tools<Db>, c: Conn<Db>, fields: seq<Field>, verb: string)
    requires Asks(fields, verb) && Lacks(fields, "id")
    requires c.state == Ready || verb == "ping"
    ensures Process(tools, c, Parsed(Object(fields))) == (c, None)
  {
    Reading(fields, verb);
  }

  // ----- what is no request at all

  /** An object without the version or without a method is refused under its id, or under null. */
  lemma NoRequest<Db>(tools: Tools<Db>, c: Conn<Db>, fields: seq<Field>, id: Json)
    requires DistinctFields(fields) && (Field("id", id) in fields || (Lacks(fields, "id") && id == Null))
    requires Field("jsonrpc", Str("2.0")) !in fields || forall verb :: Field("method", Str(verb)) !in fields
    ensures var fault := if Field("jsonrpc", Str("2.0")) in fields then MissingMethod else InvalidRequest;
      Refused(Process(tools, c, Parsed(Object(fields))), c, id, fault, -32600)
  {
    hide Find;
    FindHeld(fields, "jsonrpc");
    FindHeld(fields, "method");
    FindHeld(fields, "id");
    var verb := Find(fields, "method");
    assert verb.Some? && verb.value.Str? ==> Field("method", Str(verb.value.s)) in fields;
  }

  /** So is any value that is no object, an empty batch included; bytes that are no JSON get the code for that. */
  lemma NoMessage<Db>(tools: Tools<Db>, c: Conn<Db>, message: Json)
    ensures !message.Object? && (message.Array? ==> message.items == []) ==>
              var fault := if message.Array? then EmptyBatch else InvalidRequest;
              Refused(Process(tools, c, Parsed(message)), c, Null, fault, -32600)
    ensures Refused(Process(tools, c, ParseError), c, Null, Unparsable, -32700)
  {
  }
}
