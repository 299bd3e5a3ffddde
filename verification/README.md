# Kleos: verified models of its parsers, protocols and stores

This project models the parts of Kleos whose correctness is a claim about every input or every run, and proves those claims
with Dafny. Each module follows one source file or one concern of it. Code that updates state is a class or a method with a
loop, proved against a specification function; code that only computes is a function; what the program promises is a lemma
over the specification.

| module | what it models |
|---|---|
| `Wrappers`, `Utf8`, `Text`, `Json` | optional values, UTF-8, trimming, decimal numbers, JSON values: the ground the others stand on |
| `Wire`, `Peers`, `Transport` | the NDJSON and `Content-Length` framings of the agent-forge MCP server: as functions of the input, over the bytes of any peer, and as readers over a chunked stream |
| `Session`, `Requests`, `Server` | the connection lifecycle and JSON-RPC dispatch, what each request comes to over its JSON fields, and the server loop from bytes to bytes |
| `Tailer`, `Cooldown` | the eidolon supervisor: incremental transcript reading with a bounded offset map, alert throttling |
| `Frontmatter`, `Names` | plugin import: splitting, reconstructing and scanning frontmatter; skill identifiers |
| `Percent`, `PathTemplate`, `Query`, `CallRoute` | URL construction in the kleos and forge clients |
| `Truncate`, `Failover` | byte-budget truncation, URL failover and its time budget |
| `KeyStore` | the file-backed bootstrap key store |
| `Migration` | opening and migrating the forge database |
| `ArgBinding`, `TouchedPaths` | flag parsing and request bodies of `forge exec`; touched-path collection of the hook |

Where a promise turned out not to hold for every input, the statement is an equivalence with the condition under which it does:

- Framing: a body survives exactly when it fits the cap and, under NDJSON, is non-empty trimmed UTF-8 without a newline, the
  first one not looking like a header (`Wire.FramingRoundTrip`).
- Tailing: an offset that fell out of the bounded map makes old entries come again, and a file that was replaced by one at
  least as long as its saved offset is read from the middle. Delivery is one read of each generation of a file precisely when
  no poll comes back to whole lines it had forgotten and none finds a replaced file, with new whole lines, at or beyond its
  saved offset (`Tailer.ReplacedFilesAreExact`, `Tailer.TailingIsExact`, `Tailer.ForgettingRepeats`,
  `Tailer.ReplacementMissed`).
- Cooldowns: a configured number of seconds in the upper half of `u64` turns negative in the cast to `i64`
  (`Cooldown.CooldownSpacing`, `Cooldown.WrappedCooldownRepeats`); an alert whose cooldown cannot be expressed kills the
  supervisor (`Cooldown.DeadExactly`).
- Import and materialize: frontmatter whose first line that is not blank is an indented `---` closes itself when printed
  (`Frontmatter.ImportMaterializeImport`, `Frontmatter.IndentedRuleIsLost`), and loses every scalar it has
  (`Frontmatter.ScalarsSurvive`). A name or description with a later line that is `---` closes made-up frontmatter and leaks
  into the body (`Frontmatter.SynthesizedReadsBack`, `Frontmatter.DescriptionLeaks`).
- Time budget: the number of URLs is cast to `u32` before dividing (`Failover.BudgetExactly`).
- Revocation: the revocation of a working key kills its token for good if and only if its save succeeded
  (`KeyStore.RevocationSticks`, `KeyStore.RevocationIsExact`); one whose save failed cannot be repeated and is undone by the
  next reload (`KeyStore.FailedRevocationReverts`).
- Legacy tokens: one with surrounding white space can never validate (`KeyStore.LegacyTokenValidates`).
- Flags: a schema's flags parse back exactly when every flag, its dashes dropped, names its own parameter and is no other's
  alias (`ArgBinding.FlagsRoundTrip`); the answer depends on hash order exactly when two parameters share an alias that does
  not start with a dash (`ArgBinding.OrderIndependence`).
- Paths: the comment at kleos-client/src/routes.rs:8-9 says that arguments cannot inject path structure, but the encoder keeps
  dots, so an argument `.` or `..` disappears under dot-segment removal (`PathTemplate.SegmentsSurviveDotRemoval`).

External code is a parameter: `serde_json` is a pair of functions between bytes and values, tools are a function on an
uninterpreted database, SHA-256 is a function assumed injective where stated, clocks and transport outcomes are arguments.
A hash map's iteration order is an argument too; results are shown not to depend on it, or exactly when they do.

## Model

| member | source | states |
|---|---|---|
| `Utf8.DecodeEncode` | agent-forge/src/mcp.rs:499-517 | well-formed UTF-8 decodes to the text it encodes |
| `Utf8.EncodeDecode` | agent-forge/src/mcp.rs:499-517 | `String::from_utf8` accepts nothing but encodings: what decodes re-encodes to the same bytes |
| `Text.TrimParts` | agent-forge/src/mcp.rs:561-570 | trimming removes white space at both ends and nothing else |
| `Text.TrimUnique` | agent-forge/src/mcp.rs:561-570 | any trimmed core between white space is what trimming returns |
| `Text.DigitsPositional` | agent-forge/src/mcp.rs:523-529 | digits weigh ten times as much as those behind them |
| `Text.Tables` | agent-forge/src/mcp.rs:561-570 | exactly the characters with the Unicode property White_Space are white space |
| `Text.UsizeExactly` | agent-forge/src/mcp.rs:523-529 | a length is digits, possibly behind one plus sign, with a value below 2^64 |
| `Transport.ReadLineCapped` | agent-forge/src/mcp.rs:490-520 | over every chunking of the stream, reads exactly the line, end, cap or encoding error the remaining bytes determine, and leaves exactly the rest |
| `Transport.ReadFirst` | agent-forge/src/mcp.rs:555-572 | over every chunking, skips blank lines, detects the framing and returns the message the bytes determine |
| `Transport.SkipHeaders` | agent-forge/src/mcp.rs:567 | over every chunking, drops headers up to a blank line or the end |
| `Transport.ReadNext` | agent-forge/src/mcp.rs:574-608 | over every chunking, returns the next message the bytes determine under the negotiated framing |
| `Transport.ByteStream.ReadExact` | agent-forge/src/mcp.rs:546-553 | returns exactly the next bytes, however many chunks they span, or fails when there are too few |
| `Transport.ByteSink.WriteResponse` | agent-forge/src/mcp.rs:632-644 | appends exactly one frame of the body |
| `Wire.ParseHeaderLine` | agent-forge/src/mcp.rs:522-536 | the written header parses back to the length up to the cap and is refused beyond it |
| `Wire.ReadFramed` | agent-forge/src/mcp.rs:523-608 | a `Content-Length` frame is read back by both readers exactly when the body fits the cap, else an error |
| `Wire.ReadFramedLine` | agent-forge/src/mcp.rs:555-587 | an NDJSON frame of an admissible body is read back whole |
| `Wire.NdjsonReadsAdmissible` | agent-forge/src/mcp.rs:579-587 | whatever NDJSON reading returns from newline-terminated input is a trimmed, newline-free body within the cap |
| `Wire.FramingRoundTrip` | agent-forge/src/mcp.rs:491-644 | a written list of bodies is read back as the same list under the same framing, ending cleanly, if and only if every body is admissible |
| `Peers.FirstMessage` | agent-forge/src/mcp.rs:555-572 | for any peer: blank lines in front are passed over, every header line behind the length header up to a blank line is dropped, whatever it says, and exactly the announced bytes are the body |
| `Peers.NextMessage` | agent-forge/src/mcp.rs:588-608 | a later message is read with any other headers before and behind its length header |
| `Peers.LastLengthWins` | agent-forge/src/mcp.rs:588-601 | of two length headers of a later message the last one counts |
| `Peers.NoLength` | agent-forge/src/mcp.rs:588-606 | headers without a length are an error; a stream that ends inside headers ends cleanly |
| `Peers.BodyCutShort` | agent-forge/src/mcp.rs:546-553 | both readers fail on a body shorter than announced |
| `Peers.BadLength` | agent-forge/src/mcp.rs:523-536 | both readers fail on a length that is no number or beyond ten mebibytes, and say which |
| `Peers.NextLineMessage` | agent-forge/src/mcp.rs:555-587 | an NDJSON message is the next line that is not blank, trimmed; the first one unless it names a length |
| `Peers.LastLineMessage` | agent-forge/src/mcp.rs:490-587 | a last NDJSON line needs no newline, and blank lines alone are the end of the input |
| `Peers.UnreadableLine` | agent-forge/src/mcp.rs:490-608 | a line that is no UTF-8 or exceeds the cap is an error in front of a message and among the headers of either reader |
| `Session.StepState` | agent-forge/src/mcp.rs:389-488 | one message moves the state exactly as the handshake prescribes; before Ready it touches neither log nor database |
| `Session.RunState` | agent-forge/src/mcp.rs:377-488 | the state after any run is a function of which handshake messages arrived in which order |
| `Session.ToolsNeedHandshake` | agent-forge/src/mcp.rs:388-488 | in every run, a message that executes a tool or changes the database comes after an accepted `initialize` and, later, the initialized notification |
| `Session.StateAtStep` | agent-forge/src/mcp.rs:403-488 | a message moves the state by at most one step forward, and parse errors and batches never move it |
| `Session.EachStateEnteredOnce` | agent-forge/src/mcp.rs:403-452 | each later state is entered by at most one message of a run |
| `Session.RunLogged` | agent-forge/src/mcp.rs:326-345 | the database after any run is exactly the replay of the logged tool calls, all to advertised tools |
| `Session.ReplyMatchesRequest` | agent-forge/src/mcp.rs:306-349 | in every state a well-formed request gets one reply with its id and a notification none, except `initialize` without id before initialization |
| `Session.RequestOutcome` | agent-forge/src/mcp.rs:318-452 | which requests run a tool, once and with which arguments; which get results; which error code every other one gets |
| `Requests.ToolCallRuns` | agent-forge/src/mcp.rs:326-345 | once ready, an object with these fields, in any order, runs exactly the named tool with exactly the given arguments, an empty object without any, and gets its result under its id |
| `Requests.ToolCallRefused` | agent-forge/src/mcp.rs:327-336 | a call whose name is missing, no string or no tool gets -32602 and runs nothing |
| `Requests.PingAnswered` | agent-forge/src/mcp.rs:324-432 | `ping` gets an empty object in every state |
| `Requests.ToolsListed` | agent-forge/src/mcp.rs:325 | once ready, `tools/list` gets the list |
| `Requests.ReadyRefuses` | agent-forge/src/mcp.rs:346-452 | once ready, `initialize` gets -32600 and every other unknown method -32601 |
| `Requests.InitializeAccepted` | agent-forge/src/mcp.rs:404-430 | the first `initialize` with a protocol version string is answered and moves the state, and nothing else |
| `Requests.InitializeRefused` | agent-forge/src/mcp.rs:405-426 | without an id it gets -32600 under null, without a protocol version -32602 |
| `Requests.InitializedAccepted` | agent-forge/src/mcp.rs:434-446 | `notifications/initialized` without an id makes the connection ready in silence; with an id it is refused |
| `Requests.TooEarly` | agent-forge/src/mcp.rs:432-446 | any other method before the connection is ready gets -32002, as a notification silence |
| `Requests.NotificationsAreSilent` | agent-forge/src/mcp.rs:315-317 | once ready, no notification is answered or runs anything |
| `Requests.NoRequest` | agent-forge/src/mcp.rs:306-314 | an object without version 2.0 or without a method gets -32600 under its id or null |
| `Requests.NoMessage` | agent-forge/src/mcp.rs:306-465 | any value that is no object, an empty batch included, gets -32600 under null, and bytes that are no JSON -32700 |
| `Session.MalformedIsRefused` | agent-forge/src/mcp.rs:306-314 | a malformed request gets one -32600 error with its id or null and changes nothing |
| `Session.BatchRefinesSequence` | agent-forge/src/mcp.rs:351-358 | once ready, a batch has the same effect and the same ordered replies as its members sent one by one |
| `Session.EarlyBatchIsRefused` | agent-forge/src/mcp.rs:466-479 | before Ready a batch changes nothing, and the response is one -32002 error for each member with an id, in the order of the members |
| `Server.Connection.SessionRequest` | agent-forge/src/mcp.rs:388-453 | the in-place handler computes the specified new state, database and reply |
| `Server.Connection.SessionMessage` | agent-forge/src/mcp.rs:455-488 | the in-place handler, batches included, computes the specified connection and response |
| `Server.ProcessIncoming` | agent-forge/src/mcp.rs:610-630 | one body is decoded, handled and answered with exactly one frame or none |
| `Server.Serve` | agent-forge/src/mcp.rs:646-665 | over every chunking, the final connection, the bytes sent and the way the session ends are functions of the input bytes |
| `Server.EndToEnd` | agent-forge/src/mcp.rs:491-665 | a client's messages get exactly the framed responses of the abstract run, and a peer with the same readers reads those responses back |
| `Server.AnyBodies` | agent-forge/src/mcp.rs:610-665 | bodies that are no JSON get parse errors and do not end the session; bytes that hold no message end it, cleanly or with their error, after everything before them was handled |
| `Server.NoBodies` | agent-forge/src/mcp.rs:646-665 | an input without a message is handled as nothing, and its error is reported |
| `Server.NoToolWithoutHandshake` | agent-forge/src/mcp.rs:610-665 | for every byte stream, a session that ran a tool or changed the database had read both handshake messages in order |
| `Tailer.ReadWholeLines` | eidolon-supervisor/src/watch.rs:161-204 | the loop returns the tool entries of the whole lines and their length, and fails exactly when the read that fails is one it makes |
| `Tailer.Watcher.ReadNewEntries` | eidolon-supervisor/src/watch.rs:145-208 | a successful poll returns the entries beyond the saved offset and saves the new one as most recent; a failed one changes nothing |
| `Tailer.SplitAtLine` | eidolon-supervisor/src/watch.rs:165-181 | reading splits at any line boundary |
| `Tailer.LineYields` | eidolon-supervisor/src/watch.rs:183-203 | over the fields of the object a line parses to: it is an entry exactly when a field is `tool_name` or `type` is `tool_use`; blank lines, lines that are no JSON and other values are none |
| `Tailer.PositionsAreRecent` | eidolon-supervisor/src/watch.rs:67-73 | the bounded map always holds exactly the most recently read files; an offset is never short of the whole lines seen, and within what was seen unless the file was just replaced |
| `Tailer.DeliveredIsSeenAfterBefore` | eidolon-supervisor/src/watch.rs:145-208 | for a file that no poll overtakes, what was handed over is one read of its present generation, preceded by exactly what had been handed over when it was replaced or forgotten |
| `Tailer.TailingIsExact` | eidolon-supervisor/src/watch.rs:145-208 | for a file that no poll overtakes, truncations included: every tool entry of every whole line of every generation is handed over once and in order, if and only if no poll returns to a forgotten file that had yielded entries |
| `Tailer.GrowingFiles` | eidolon-supervisor/src/watch.rs:145-208 | no poll overtakes a file that only grows, and its saved offset is always the end of the whole lines seen |
| `Tailer.ReplacedFilesAreExact` | eidolon-supervisor/src/watch.rs:154-208 | over every run of appends, replacements and polls: at every moment, whatever lines mean, one read of each generation has been handed over, if and only if no poll returned to forgotten whole lines and none found a replaced file with new whole lines at or beyond its saved offset |
| `Tailer.FewFilesAreExact` | eidolon-supervisor/src/watch.rs:67-73 | with at most `cap` distinct files polled, incremental tailing equals one-shot reading of each generation for every file no poll overtakes |
| `Tailer.PollCatchesUp` | eidolon-supervisor/src/watch.rs:175-181 | after a successful poll only an unfinished last line is missing |
| `Tailer.ForgettingRepeats` | eidolon-supervisor/src/watch.rs:206 | with room for one file, returning to the first of two repeats its entries |
| `Tailer.ReplacementMissed` | eidolon-supervisor/src/watch.rs:154-159 | a file replaced by one of the same length is not read again, and its entries are missed |
| `Tailer.Watch` | eidolon-supervisor/src/watch.rs:85-98 | the loop driven through any run ends with the offsets and entries the lemmas speak of |
| `Cooldown.Supervisor.SetCooldown` | eidolon-supervisor/src/watch.rs:220-230 | sets the end of the cooldown of one rule, leaves the others, and dies where the source's arithmetic panics |
| `Cooldown.Supervisor.HandleAll` | eidolon-supervisor/src/watch.rs:98-128 | the loop over violations computes the specified alerts and cooldowns |
| `Cooldown.WrappedCooldownRepeats` | eidolon-supervisor/src/watch.rs:227 | a cooldown that wraps to a small negative shift alerts twice at the same instant |
| `Cooldown.CooldownSpacing` | eidolon-supervisor/src/watch.rs:210-230 | in every run with a clock that never goes back, alerts for a rule are at least its cooldown apart, if and only if the cooldown does not wrap to a usable negative shift |
| `Cooldown.DeadExactly` | eidolon-supervisor/src/watch.rs:220-230 | the supervisor is dead after a run exactly when some alert's cooldown overflowed the source's arithmetic |
| `Cooldown.AlertUnlessCoolingDown` | eidolon-supervisor/src/watch.rs:112-127 | in every run with a clock that never goes back, a violation after such an overflow is silent; before, it is silent exactly when some earlier alert for its rule started less than the cooldown before the check, and otherwise gives one alert |
| `Cooldown.SilentForCooldown` | eidolon-supervisor/src/watch.rs:210-230 | when the cooldown does not wrap, that silence lasts exactly the configured seconds |
| `Cooldown.ConfiguredSpacing` | eidolon-supervisor/src/watch.rs:210-230 | alerts are at least the seconds of the first rule with the id apart, or sixty seconds without one, in every ordered run, if and only if those seconds do not wrap |
| `Cooldown.ConfiguredSilence` | eidolon-supervisor/src/watch.rs:210-230 | silence lasts exactly the seconds of the first rule with the id, or sixty |
| `Cooldown.OverflowExactly` | eidolon-supervisor/src/watch.rs:220-230 | the supervisor dies exactly on an alert whose configured seconds exceed a duration or lead out of the range of the clock |
| `Frontmatter.LineOffsets` | kleos-cli/src/import_plugins.rs:512-527 | one pass yields every line with its terminator and its offset |
| `Frontmatter.SplitFrontmatter` | kleos-cli/src/import_plugins.rs:491-510 | the search over the line list computes the specified split |
| `Frontmatter.SplitFound` | kleos-cli/src/import_plugins.rs:491-510 | behind three hyphens and either line ending, what stands before the first line of three hyphens and white space is the frontmatter, and what follows, less newlines, the body |
| `Frontmatter.SplitNotFound` | kleos-cli/src/import_plugins.rs:491-510 | every other file is body only |
| `Frontmatter.ScalarFound` | kleos-cli/src/import_plugins.rs:529-555 | the first line with the key, a colon and then white space or its end decides: quoted or plain value, or none when empty; `key:x` is passed over; both line endings |
| `Frontmatter.ScalarLast` | kleos-cli/src/import_plugins.rs:529-555 | the last line needs no line break, and without a line for the key there is no value |
| `Frontmatter.ImportMaterializeImport` | kleos-cli/src/main.rs:2810-2828 | splitting the materialized file gives the same body and the frontmatter up to trimming, if and only if the frontmatter does not open with a rule; a second materialize is byte-identical |
| `Frontmatter.IndentedRuleIsLost` | kleos-cli/src/import_plugins.rs:491-510 | a file whose frontmatter is one indented rule is split with that frontmatter, which materializing loses |
| `Frontmatter.ScalarsSurvive` | kleos-cli/src/import_plugins.rs:529-555 | the round trip keeps the extracted value of a key, if and only if the frontmatter does not open with a rule or has no such value |
| `Frontmatter.SynthesizedReadsBack` | kleos-cli/src/main.rs:2823-2828 | for every name and description: the body comes back exactly when no later line of either is a rule; the name exactly when it is plain text on one line; and after a one-line name the description exactly when it is too |
| `Names.SanitizeName` | kleos-cli/src/import_plugins.rs:557-572 | the loop with its flag computes the specified name |
| `Names.SanitizeOne` | kleos-cli/src/import_plugins.rs:557-572 | ASCII letters come out in lower case, digits as they are, other characters not at all |
| `Names.SanitizeIsJoinedWords` | kleos-cli/src/import_plugins.rs:557-572 | the result is the lower-cased alphanumeric runs joined by single underscores |
| `Names.SanitizeIsClean` | kleos-cli/src/import_plugins.rs:557-572 | the result has only lower-case letters, digits and single inner underscores; sanitizing is idempotent |
| `Names.OneDoubleUnderscore` | kleos-cli/src/import_plugins.rs:440-444 | a qualified name has exactly one double underscore, between its parts, empty or not |
| `Names.QualifiedDecodes` | kleos-cli/src/import_plugins.rs:440-444 | a qualified name determines both sanitized parts |
| `Percent.PercentEncodeQuery` | forge/src/client.rs:223-249 | the byte loop computes the percent-encoding that keeps unreserved characters |
| `Percent.EncodeIsInvertible` | forge/src/client.rs:223-249 | one decoder undoes every encoder, whichever characters it keeps |
| `Percent.EncodeOne` | forge/src/client.rs:223-249 | an ASCII character comes out as itself or as a percent sign and two upper-case hexadecimal digits of its code |
| `Percent.EncodeSplits` | forge/src/client.rs:223-249 | a text is encoded piece by piece |
| `Percent.Alphabets` | kleos-client/src/routes.rs:8-25 | exactly which characters the path encoder and the two query encoders leave alone |
| `Percent.NotEncoded` | kleos-client/src/routes.rs:8-25 | a character an encoder does not keep never appears in its output |
| `PathTemplate.RenderPath` | kleos-client/src/routes.rs:111-149 | the loop computes the specified path, left-over arguments or failure |
| `PathTemplate.RenderParam` | kleos-client/src/routes.rs:122-145 | a placeholder takes its scalar argument once and fails when it is missing or not scalar |
| `PathTemplate.RenderScalar` | kleos-client/src/routes.rs:128-142 | strings are encoded, numbers and booleans stand as JSON writes them, null, arrays and objects are refused |
| `PathTemplate.RenderFails` | kleos-client/src/routes.rs:115-127 | a brace that is not closed is an error, and so is a placeholder when the arguments are no object |
| `PathTemplate.RenderIsInvertible` | kleos-client/src/routes.rs:111-149 | for whole-segment templates and string arguments: success exactly when no placeholder repeats; then segments decode to the arguments and exactly the placeholder keys are consumed |
| `PathTemplate.RenderIsInjective` | kleos-client/src/routes.rs:111-149 | equal paths come from equal arguments |
| `PathTemplate.SegmentsSurviveDotRemoval` | kleos-client/src/routes.rs:8-25 | the rendered path keeps its segments through dot-segment removal, if and only if no argument and no literal segment is `.` or `..` |
| `Query.PushField` | kleos-client/src/client.rs:517-526 | one field contributes a parameter per scalar of an array, one for a scalar, none otherwise |
| `Query.FieldStandsFor` | kleos-client/src/client.rs:507-550 | each kind of JSON value: one pair for a string, number or boolean, one per scalar of an array, none for null, objects and nested arrays |
| `Query.ForgeFieldStandsFor` | forge/src/client.rs:93-131 | one pair per field: strings as they are, other values as their JSON text |
| `Query.FlattenSplits` | kleos-client/src/client.rs:513-527 | fields contribute their pairs in order |
| `Query.AppendQueryString` | kleos-client/src/client.rs:507-532 | the loop appends exactly the flattened scalar pairs, and leaves the path alone when there are none |
| `Query.GetWithQuery` | forge/src/client.rs:93-131 | path and query are exactly those of the flattened fields |
| `Query.QueryRoundTrip` | kleos-client/src/client.rs:507-550 | one parser reads back path and pairs from both clients' query strings, in order |
| `Query.SameQuerySamePairs` | kleos-client/src/client.rs:507-550 | two argument objects give the same query exactly when they flatten to the same pairs |
| `CallRoute.RequestTarget` | kleos-client/src/client.rs:374-384 | the request target of a GET or DELETE is the rendered path followed by the query of the left-over arguments, or none when rendering fails |
| `CallRoute.ArgumentsAreConserved` | kleos-client/src/client.rs:368-384 | no argument is lost or doubled: path segments decode to the placeholder arguments, the query parses, the pairs with the key of any other argument are that argument's and no more, one for a scalar, and no pair carries another key |
| `Truncate.WalkBack` | kleos-client/src/client.rs:564-567 | finds the last character boundary within the budget |
| `Truncate.LastBoundary` | kleos-client/src/client.rs:571-583 | the last boundary is where the last whole character that fits ends, at most three bytes below the budget |
| `Truncate.FittingIsMaximal` | kleos-client/src/client.rs:571-583 | one more character would exceed the budget |
| `Truncate.TruncateTo` | kleos-client/src/client.rs:571-583 | returns the longest prefix of whole characters within the budget |
| `Truncate.BodyExcerpt` | kleos-client/src/client.rs:557-569 | keeps the longest such prefix within 512 bytes and notes the size |
| `Failover.Execute` | kleos-client/src/client.rs:100-139 | tries URLs in order at most once each and returns the outcome of the first that does not fail at connection level, else of the last |
| `Failover.BudgetHolds` | kleos-client/src/client.rs:92-95 | the shares of all attempts sum to at most the total and waste less than a nanosecond per attempt |
| `Failover.BudgetExactly` | kleos-client/src/client.rs:92-95 | every budget is kept without panic if and only if the number of URLs fits 32 bits |
| `KeyStore.FileAgentKeyStore.LoadFrom` | kleos-cred/src/agent_keys_file.rs:74-121 | the loop over the map, in any order, computes the migrated keys, and the file changes only by a saved migration |
| `KeyStore.FileAgentKeyStore.Perform` | kleos-cred/src/agent_keys_file.rs:163-258 | mint, revoke, touch and reload compute the specified store and reply |
| `KeyStore.FileAgentKeyStore.Validate` | kleos-cred/src/agent_keys_file.rs:211-233 | in any iteration order, returns an active agent whose hash matches, or none exactly when there is none |
| `KeyStore.MintExactly` | kleos-cred/src/agent_keys_file.rs:161-208 | in every state a mint returns its token if and only if id and scopes are spelled right, no active key has the id, and the save succeeds; else what changes is said |
| `KeyStore.ScopesAreSpelled` | kleos-cred/src/agent_keys_file.rs:306-344 | a scope is valid exactly when it is a star, or a service and a star or key, of ASCII letters, digits, hyphens, underscores and dots |
| `KeyStore.MintAfterRevocation` | kleos-cred/src/agent_keys_file.rs:174-208 | after a successful revocation the agent can be given a new token, which validates while the old one does not |
| `KeyStore.RevokeExactly` | kleos-cred/src/agent_keys_file.rs:245-258 | an active key is marked revoked in memory, and in the file when the save succeeds, which decides the reply; nothing else changes |
| `KeyStore.TouchExactly` | kleos-cred/src/agent_keys_file.rs:235-243 | touching changes one time of use and no token's standing, and always succeeds |
| `KeyStore.ReloadExactly` | kleos-cred/src/agent_keys_file.rs:74-121 | a readable file replaces the keys, tokens in the clear exchanged for hashes, and is rewritten only for such an exchange; a missing or broken file is an empty store; an unreadable one changes nothing |
| `KeyStore.RevocationIsPermanent` | kleos-cred/src/agent_keys_file.rs:74-258 | after a successful revoke a token minted earlier for the agent never validates again in any run |
| `KeyStore.MintedStaysValid` | kleos-cred/src/agent_keys_file.rs:161-233 | a token whose minting succeeded validates, through failed saves and reloads, until its agent is revoked |
| `KeyStore.RevocationSticks` | kleos-cred/src/agent_keys_file.rs:245-258 | in every state in which a token is one agent's: after a revocation no continuation lets it validate, if and only if the revocation found an active key and saved, or the file held no active key of that token |
| `KeyStore.RevocationIsExact` | kleos-cred/src/agent_keys_file.rs:161-258 | over whole runs: the first revocation of an agent after a successful mint kills the token for good if and only if its save succeeded |
| `KeyStore.FailedRevocationReverts` | kleos-cred/src/agent_keys_file.rs:245-258 | in every state, a revocation of a working key whose save failed stops it matching, cannot be repeated, and is undone by the next reload |
| `KeyStore.FailedRevocationRun` | kleos-cred/src/agent_keys_file.rs:161-258 | a run from an empty store in which that happens |
| `KeyStore.AtMostOneMatch` | kleos-cred/src/agent_keys_file.rs:211-233 | in a store grown from nothing a bearer matches at most one agent, whatever the order |
| `KeyStore.MigrationIsStable` | kleos-cred/src/agent_keys_file.rs:87-108 | loading gives the same keys whether or not the migration was saved, and loading again hashes nothing twice |
| `KeyStore.LegacyTokenValidates` | kleos-cred/src/agent_keys_file.rs:87-108 | a legacy token keeps validating exactly when it is non-empty and has no white space around it |
| `Migration.Database.Migrate` | agent-forge/src/db.rs:114-183 | the guarded column additions and the rebuild, dying anywhere, compute the specified database |
| `Migration.Database.InitSchema` | agent-forge/src/db.rs:29-183 | the guarded statements, dying anywhere, compute the specified database |
| `Migration.StatementKeeps` | agent-forge/src/db.rs:114-183 | every statement keeps the destination, stays a database of some release, and undoes no earlier one |
| `Migration.CompleteIsTarget` | agent-forge/src/db.rs:29-183 | a completed open reaches the full schema with every row padded by nulls |
| `Migration.FreshDatabase` | agent-forge/src/db.rs:29-108 | opening an empty file creates exactly the six tables, their columns and the one constraint |
| `Migration.MigrationConverges` | agent-forge/src/db.rs:29-183 | any number of interrupted opens and a completed one end in the same database as one undisturbed open; further opens change nothing |
| `Migration.OpensInTurn` | agent-forge/src/db.rs:29-183 | several opens happen one after the other, each on what the one before left |
| `Migration.RebuildNeedsItsColumns` | agent-forge/src/db.rs:150-180 | a rebuild happens only when every column it copies is there |
| `Migration.TargetKeepsRows` | agent-forge/src/db.rs:150-180 | every old row keeps its cells, new columns are null, and no two checkpoints clash on repository and name |
| `ArgBinding.ParseArgs` | forge/src/exec.rs:131-171 | the iterator loop computes the specified parameters or error |
| `ArgBinding.FlagsRoundTrip` | forge/src/exec.rs:131-171 | printed flags parse back to the same map, for every admissible map, order of flags and order of the schema, if and only if every flag without its dashes names its own parameter and is no other's alias |
| `ArgBinding.OrderIndependence` | forge/src/exec.rs:131-171 | the answer is the same for every order of the schema, if and only if no two parameters share an alias that does not start with a dash |
| `ArgBinding.IntegerRoundTrip` | forge/src/exec.rs:212-216 | the text of every 64-bit integer parses back to it |
| `ArgBinding.ReadsNumber` | forge/src/exec.rs:212-216 | a number is digits, possibly behind one sign, within 64 bits |
| `ArgBinding.CoercesTo` | forge/src/exec.rs:198-228 | what each declared type makes of a text, the allowed values first; unknown types are refused |
| `ArgBinding.BuildBody` | forge/src/exec.rs:173-196 | succeeds exactly when every supplied value coerces and every required one is supplied or defaulted, with the same body for every order |
| `ArgBinding.BodyHolds` | forge/src/exec.rs:173-196 | the body holds the supplied value coerced, else the default, else nothing, and no other field |
| `ArgBinding.BodyErrors` | forge/src/exec.rs:180-190 | the error names a value that does not coerce, or a required parameter neither supplied nor defaulted |
| `ArgBinding.PrintedFlagsBuild` | forge/src/exec.rs:131-196 | from a map to flags to a body every supplied parameter arrives coerced |
| `TouchedPaths.Collector.CollectTouchedPaths` | kleos-cli/src/hook.rs:355-384 | the recursion over a shared list computes the specified list |
| `TouchedPaths.AtMost99` | kleos-cli/src/hook.rs:355-384 | the list never exceeds 99 entries |
| `TouchedPaths.WorstReaches99` | kleos-cli/src/hook.rs:357-359 | some input with unique keys reaches 99 |
| `TouchedPaths.CollectDistinct` | kleos-cli/src/hook.rs:369-371 | the list stays free of duplicates |
| `TouchedPaths.CollectIsExact` | kleos-cli/src/hook.rs:355-384 | only normalized path fields within the depth limit are collected, and all of them while the list is short of 64 |
| `TouchedPaths.ExtractTouchedPaths` | kleos-cli/src/hook.rs:386-394 | at most 99 paths, strictly sorted, exactly those collected |

## Left out

- Server.Serve: read and write errors of the underlying streams are not modelled; a stream ends, it does not fail.
- Session.RequestOutcome: error messages are constructors with their JSON-RPC codes, not texts; the fixed answers of `initialize` and `tools/list` are parameters.
- Tailer.ReplacedFilesAreExact: a poll reads a file as it stands at one moment; a file changed while it is being read is not modelled.
- Tailer.Watcher.ReadNewEntries: lossy UTF-8 decoding and JSON parsing of a line are parameters; event filtering by extension is not modelled.
- Cooldown.CooldownSpacing: rule matching and retry tracking are outside the model, which starts from the violations they report.
- Query.GetWithQuery: the JSON text of values that are not strings is a parameter.
- PathTemplate.RenderIsInvertible: placeholders inside a segment and number or boolean arguments are rendered by the model but not claimed to be recoverable.
- Failover.Execute: what makes a transport error a connection error is decided outside the model.
- KeyStore.FileAgentKeyStore.Perform: creation time, description, file permissions and the scope check `has_scope` are not modelled.
- Migration.MigrationConverges: column order, foreign keys, NOT NULL and column types are not modelled; the transactional rebuild is one step, as is each other statement.
- TouchedPaths.ExtractTouchedPaths: the library sort is modelled by insertion, its result fixed by order and contents.
- Tool bodies, the code index, HTTP, file watching, SQLite and cryptography behind the interfaces above.
- Configuration, the static route table, command-line printing, the TUI and GUI: independent lookups or plumbing with no property across functions.
