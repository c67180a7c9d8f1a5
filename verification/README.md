# API gateway: verified model

This project models the core of a REST API gateway that is written in C++ and proves properties of
it in Dafny. The gateway accepts HTTP requests, looks up which backend registered an endpoint for
them, authenticates and validates them, and forwards them as JSON inside binary frames over Unix
domain sockets. Backends connect, register their endpoints with a JSON frame, and may leave or be
lost at any time.

`dafny verify dfyconfig.toml` checks everything.

## How the model is built

The parts of the program that work by changing state are classes and methods with loops here too:
the cursor of the JSON parser, the frame reader and writer, the routing table with its index, the
token engine, the listener's two maps, the HTTP parser. Each method is proved equal to a
specification function, and the properties are lemmas about those functions, so they hold of the
methods. A `std::string` or byte vector is a Dafny `string`; where the numeric value of a byte
matters, `IsBytes` says that its characters are below 256, and everywhere else a statement holds of
every string. An exception of the C++ library is an outcome of its own (`Throw`, `Raised`).

| file | what it models |
|---|---|
| `Text.dfy` | decimal and hexadecimal conversions, white space |
| `Json.dfy`, `JsonReader.dfy`, `JsonParser.dfy` | JSON values, the parser's specification, parser and serializer as they run |
| `JsonSyntax.dfy`, `JsonRoundTrip.dfy`, `JsonAcceptance.dfy`, `JsonThrows.dfy`, `JsonWriting.dfy`, `Utf8.dfy`, `JsonLexical.dfy` | concrete syntax, round trips, the texts accepted and the texts thrown on, texts written piece by piece, `\u` escapes, the lexical grammar character by character |
| `Frames.dfy`, `FrameProtocol.dfy`, `FrameStream.dfy` | frame codec, sending and receiving, end-to-end delivery as a step system |
| `Endpoints.dfy`, `VectorIndex.dfy`, `RoutingTable.dfy` | path templates, vector plus index, routing table |
| `Base64Url.dfy`, `TokenPayload.dfy`, `Tokens.dfy`, `TokenRuns.dfy`, `TokenEngine.dfy` | token codec, validation and rotation, whole runs, the engine |
| `Backends.dfy`, `GatewayServer.dfy` | lifecycle of backends as a transition system, and the handlers that take its steps |
| `ParameterSchema.dfy`, `Registration.dfy`, `RegistrationWriting.dfy` | schemas, decoding a registration, the documented registration written and read back |
| `Http.dfy`, `HttpParser.dfy`, `HttpWriting.dfy`, `HttpLenience.dfy` | requests, incremental parsing, requests written and read back, what else the parser lets through |
| `RequestFormatter.dfy` | the payload forwarded to a backend |
| `Validation.dfy` | request validation |
| `Gateway.dfy`, `ClientConnection.dfy` | the whole of request routing over the components, and of a client's connection |

## What was found

These are places where the code differs from its documentation, or where a promise needs a
condition. The model follows the code.

- The documentation says that the authenticated user reaches the backend in the
  `x-authenticated-user` header (`docs/PROTOCOL.md:191`). The gateway records it
  (`src/main.cpp:271`), but the formatter passes on five other headers only:
  `RequestFormatter.UserIsNotForwarded`.
- The JSON parser accepts `[`, `[1,`, `{` and `{"a":1,` at the end of the input, and any text after
  a value. `JsonAcceptance.AcceptanceIsExact` says exactly which texts are accepted, and
  `JsonThrows.ThrowsExactly` on which it throws out of the caller.
- The payload sent to a backend may hold raw control characters, which JSON forbids; the formatter's escaper
  knows only line feed, carriage return and tab: `RequestFormatter.ControlsLeftRaw` says exactly which stay.
- A frame header that announces more than 1 MiB blocks its connection's buffer for good:
  `Frames.CanComplete`, `Frames.OversizeBlocks`.
- The routes of a backend stay live only if it keeps the protocol; the exact conditions are
  `Backends.RegisterKeepsInverse` and `Backends.DepartureKeepsLive`, with `Backends.RegisteredTwice` and
  `Backends.DeadRoute` where they fail.
- Template extraction can be undone unless two placeholders of the same name were given different
  text: `Endpoints.ExtractionInvertible`, `Endpoints.RepeatedNameLosesText`.
- Revocation is of strings, but the base64 decoder ignores an `=` and what follows, and reads two
  alphabets. So an issued token has many spellings; each is good for one refresh, and revoking one
  leaves the others. `TokenRuns.RespelledRefresh` and `TokenRuns.AcceptedBySpelling` say exactly when a
  string is accepted, `TokenRuns.RefreshedTwice` and `TokenRuns.RevokedYetAccepted` give runs.
- Identifiers with more than 3019 bytes together get tokens that are never accepted:
  `Tokens.AcceptedExactly`, `Tokens.LongIdentifierNeverAccepted`.
- An HTTP request read in pieces is refused when its first read ends inside the head, although it would
  be understood as a whole: `HttpParser.FirstReadDecides` gives the exact condition,
  `HttpWriting.CutHeadIsRefused` the failing cuts. A request whose client stops sending is routed all the
  same, without a body: `ClientConnection.HandleClientConnection`.
- An HTTP request is understood only if it has some header: `HttpWriting.RequestIsUnderstood` says
  exactly which written requests are, `HttpWriting.NoHeadersIsRefused` gives those that are not.
- Decoding a token payload adds lengths as 32-bit numbers, so a sum can wrap and pass its bounds
  check. The model gives such payloads an outcome of their own (`OutOfBounds`):
  `TokenPayload.OutOfBoundsExactly` says when it is reached, `TokenPayload.OutOfBoundsReached` gives
  such a buffer, and `TokenPayload.DeserializeSerialize` shows that serialized payloads never get there.
  As long as the cipher opens only what was sealed, no presented token does:
  `TokenRuns.PresentedStaysInBounds`.

## Model

| member | source | states |
|---|---|---|
| Json.IndexOf | src/validation/JsonParser.cpp:171-207 | the position of the first member with the key, or the number of members when there is none |
| Json.SetMemberMeaning | src/validation/JsonParser.cpp:209-229 | after setting a key, every lookup of every key: the set key has the new value, other keys are untouched, and no key that was there moves |
| Json.SetMemberKeepsUnique | src/validation/JsonParser.cpp:209-229 | setting a member keeps the keys of an object distinct |
| JsonReader.ReadText | src/validation/JsonParser.cpp:367-394 | an accepted text is consumed by at least one character (as are all readers below it: the cursor never passes the end) |
| JsonReader.ReadValue | src/validation/JsonParser.cpp:406-451 | a value strictly advances the cursor; an error is recorded inside the input |
| JsonSyntax.ReadNode | src/validation/JsonParser.cpp:406-836 | every rendering of a value is read as that value and leaves exactly the following text, for any white space between tokens, any spelling of each string character, repeated keys, float tokens the library converts, and any following text that would not extend a number |
| JsonSyntax.ReadDocument | src/validation/JsonParser.cpp:367-394 | the same for a whole text with white space around it |
| JsonSyntax.IntegerEndsAt | src/validation/JsonParser.cpp:502-567 | an integer token ends where it ends if and only if what follows is neither a digit nor `.`, `e` or `E` |
| JsonSyntax.SeparatorEnds | src/validation/JsonParser.cpp:502-567 | white space, commas and closing brackets end every number token, integer or floating point |
| JsonSyntax.ReadSpelledString | src/validation/JsonParser.cpp:569-689 | a quoted string spelled with any mix of raw characters, short escapes and `\u` escapes is read as what it spells |
| JsonAcceptance.AcceptanceIsExact | src/validation/JsonParser.cpp:406-836 | for any set of float tokens the library converts: the parser accepts a text with value `v` and rest `r` if and only if the text denotes `v` followed by `r` with such float tokens only, or the input ends in an array or object broken off after its bracket or a comma |
| JsonAcceptance.ParseIsExact | src/validation/JsonParser.cpp:367-394 | `Parse` accepts exactly those texts, followed by anything at all |
| JsonThrows.ThrowsExactly | src/validation/JsonParser.cpp:406-836 | the parser throws if and only if the text runs into a number or a `\u` escape the library does not convert, inside arrays and objects whose earlier elements and members are complete |
| JsonThrows.ParseThrowsExactly | src/validation/JsonParser.cpp:367-394 | the same for `Parse` |
| JsonThrows.BrokenThrows | src/validation/JsonParser.cpp:406-836 | every such text makes the parser throw, whatever follows |
| JsonThrows.ValueThrows | src/validation/JsonParser.cpp:406-836 | every text on which the parser throws has such a syntax, which is produced |
| JsonAcceptance.OpenBracketAccepted | src/validation/JsonParser.cpp:707-760 | for example `[` alone is accepted as the empty array |
| JsonAcceptance.ReadOpen | src/validation/JsonParser.cpp:707-836 | the lenient half: an array or object broken off by the end of the input is accepted with the elements it had |
| JsonAcceptance.ValueIsSyntax | src/validation/JsonParser.cpp:406-836 | the strict half: every accepted text has such a syntax, which is produced |
| Utf8.CodeBytesDecode | src/validation/JsonParser.cpp:629-643 | the bytes written for a 16-bit code unit are its shortest UTF-8 encoding: an independent decoder gets the code unit back |
| Utf8.EscapeIsUtf8 | src/validation/JsonParser.cpp:622-646 | a `\u` escape of four hexadecimal digits is read as the UTF-8 encoding of the number they write |
| JsonRoundTrip.PlainText | src/validation/JsonParser.cpp:244-358 | what `Serialize` writes for a value is the text of one particular syntax of it |
| JsonRoundTrip.PlainMeaning | src/validation/JsonParser.cpp:244-358 | that syntax is well-formed and denotes the value |
| JsonRoundTrip.SerializeThenReadValue | src/validation/JsonParser.cpp:244-358 | serializing and reading gives every sound float-free value back and leaves any following text that cannot extend a number |
| JsonRoundTrip.SerializeThenParse | src/validation/JsonParser.cpp:244-394 | serializing and parsing gives the value back and consumes every byte |
| JsonRoundTrip.SerializeInjective | src/validation/JsonParser.cpp:244-358 | different values have different serializations |
| JsonRoundTrip.PrintedInteger | src/validation/JsonParser.cpp:257-260 | a printed 64-bit integer is read as itself |
| JsonRoundTrip.ReadValueSound | src/validation/JsonParser.cpp:406-836 | every value the parser returns has distinct keys in every object and 64-bit integers only |
| JsonRoundTrip.ReparseStable | src/validation/JsonParser.cpp:367-394 | any accepted float-free text can be rewritten by the serializer and parsed again without changing its value |
| JsonLexical.BlankIsSkipped | src/validation/JsonParser.cpp:838-846 | a blank, tab, line feed or carriage return before a value, before the whole text, or after an opening bracket or brace changes nothing in what is read |
| JsonLexical.BlankInsideIsSkipped | src/validation/JsonParser.cpp:838-846 | nor does one after a comma, or before a member, at any place of a list |
| JsonLexical.NothingElseStarts | src/validation/JsonParser.cpp:406-451 | every other character that starts no value is refused |
| JsonLexical.LayoutIsIgnored | src/validation/JsonParser.cpp:838-846 | any text of blanks, tabs and line ends, put at every place between the tokens of a text and around it, leaves the value read from it the same |
| JsonLexical.EscapeLetters | src/validation/JsonParser.cpp:588-620 | the eight letters after a backslash and the characters they stand for |
| JsonLexical.NoOtherEscape | src/validation/JsonParser.cpp:588-657 | no other letter except `u` may follow a backslash |
| JsonLexical.UnicodeEscape | src/validation/JsonParser.cpp:622-646 | a `\u` escape with digits in either case is read as the shortest encoding of the number they write |
| JsonLexical.IntegerIsRead | src/validation/JsonParser.cpp:502-567 | a sign and digits, leading zeros included, are read as the number they write if it fits 64 bits, and throw otherwise |
| JsonLexical.IntegerRange | src/validation/JsonParser.cpp:502-567 | a printed integer is read back if and only if it lies between -9223372036854775808 and 9223372036854775807; any other makes the parser throw |
| JsonLexical.FloatIsRead | src/validation/JsonParser.cpp:502-567 | sign, digits, fraction and exponent in every combination are one float token, which is kept or throws as the library converts it or not |
| JsonLexical.NoDigitThrows | src/validation/JsonParser.cpp:502-567 | a minus sign without a digit before the exponent makes the parser throw |
| JsonLexical.SerializedIsPrintable | src/validation/JsonParser.cpp:309-358 | serialized text has no control character left in it, for every float-free value |
| JsonParsing.JsonParser.SkipWhitespace | src/validation/JsonParser.cpp:838-846 | moves the cursor over exactly the white space |
| JsonParsing.JsonParser.ParseNull | src/validation/JsonParser.cpp:453-472 | the cursor method does what the specification says of the unread text: value and new cursor, or message and position |
| JsonParsing.JsonParser.ParseBoolean | src/validation/JsonParser.cpp:474-500 | as above, for `true` and `false` |
| JsonParsing.JsonParser.ParseNumber | src/validation/JsonParser.cpp:502-567 | as above, with the third outcome where the conversion throws, for lack of digits or for a range error |
| JsonParsing.JsonParser.ParseString | src/validation/JsonParser.cpp:569-689 | as above, for strings and their escapes |
| JsonParsing.JsonParser.ParseValue | src/validation/JsonParser.cpp:406-451 | as above, for the dispatch on the first character |
| JsonParsing.JsonParser.ParseArray | src/validation/JsonParser.cpp:707-760 | as above, for arrays |
| JsonParsing.JsonParser.ParseObject | src/validation/JsonParser.cpp:762-836 | as above, for objects, setting members as it goes |
| JsonParsing.JsonParser.Parse | src/validation/JsonParser.cpp:367-394 | the verdict, the value, the error message and the cursor are those of the specification |
| JsonParsing.SerializeString | src/validation/JsonParser.cpp:309-358 | the appending loop writes the quoted, escaped string |
| JsonParsing.SerializeValue | src/validation/JsonParser.cpp:244-307 | the appending recursion writes the specified text |
| JsonParsing.SerializeArray | src/validation/JsonParser.cpp:277-289 | the element loop with its separators writes the specified text |
| JsonParsing.SerializeObject | src/validation/JsonParser.cpp:290-304 | the member loop with its separators writes the specified text |
| Frames.DecodeEncode | src/transport/FrameProtocol.cpp:13-84 | an encoded frame, followed by any bytes, is complete, decodes to itself and ends where its encoding ends |
| Frames.EncodeDecode | src/transport/FrameProtocol.cpp:42-84 | encoding a decoded frame gives back exactly the bytes it was read from |
| Frames.DecodeExtends | src/transport/FrameProtocol.cpp:42-105 | once a buffer holds a complete frame, more bytes change neither the frame nor its end |
| Frames.CanComplete | src/transport/FrameProtocol.cpp:86-105 | a buffer can still grow into a complete frame if and only if the header bytes it has announce at most 1 MiB; otherwise the stream is stuck for good |
| Frames.OversizeBlocks | src/transport/FrameProtocol.cpp:86-105 | for example a header announcing one byte more than the limit never becomes a frame, whatever follows |
| Frames.Bytes32Inverse | src/transport/FrameProtocol.cpp:197-221 | a 32-bit number written big-endian is read back |
| Frames.Number32Inverse | src/transport/FrameProtocol.cpp:197-221 | four bytes read big-endian are written back |
| Frames.FirstOf | src/transport/FrameProtocol.cpp:42-84 | a stream of encoded frames starts with its first frame and continues with the others |
| Frames.NextFrame | src/transport/FrameProtocol.cpp:42-84 | unique decodability: any complete frame found in a received part of a stream is the next one sent, and the bytes after it are those of the rest |
| Frames.NoFrameYet | src/transport/FrameProtocol.cpp:86-105 | a received part without a complete frame is shorter than the next frame |
| Frames.WireLayout | docs/PROTOCOL.md:16-40 | the bytes of a frame: kind, identifier and length as big-endian numbers in bytes 0-3, 4-7 and 8-11, and the payload from byte 12 on |
| Frames.CompleteExactly | src/transport/FrameProtocol.cpp:86-105 | a buffer holds a complete frame if and only if the number in its bytes 8-11 is at most 1048576 and that many bytes follow the twelfth |
| FrameProtocol.SerializeFrame | src/transport/FrameProtocol.cpp:13-40 | refuses exactly the frames announcing more than 1 MiB, copies past the payload exactly when the length field says more than there is, else fills a buffer with the encoding |
| FrameProtocol.DeserializeFrame | src/transport/FrameProtocol.cpp:42-84 | succeeds exactly when a complete frame is there, with that frame and its length |
| FrameProtocol.WriteUint32BigEndian | src/transport/FrameProtocol.cpp:197-206 | overwrites four bytes of the buffer with the number and leaves the others |
| FrameProtocol.SendFrame | src/transport/FrameProtocol.cpp:107-149 | for every schedule of partial writes, retries and failures: exactly the bytes the schedule lets through go on the wire; the whole encoding unless a write failed, and a prefix of it then; a length field beyond the payload is told apart |
| FrameProtocol.PushedUnlessFailed | src/transport/FrameProtocol.cpp:120-141 | the writing loop writes everything unless a write fails, and as many successful writes as bytes are always enough |
| FrameProtocol.ReceiveFrame | src/transport/FrameProtocol.cpp:151-195 | for every schedule of reads: the returned frame is the first of buffer and wire, and not a byte is lost, repeated or reordered; the placeholder is returned, and everything kept, only when the connection closed, failed or the schedule ran out before a frame was complete |
| FrameProtocol.FilledUnlessEnded | src/transport/FrameProtocol.cpp:162-184 | the reading loop completes a frame unless the connection ends, and as many successful reads as bytes are missing are always enough |
| FrameProtocol.BackendForwarder.SendAndReceive | src/forwarding/BackendForwarder.cpp:116-159 | copying the buffer out and back loses nothing: buffer and wire before are the response followed by buffer and wire after; there is a response unless the request could not be written or the connection ended; other connections are untouched |
| FrameProtocol.BackendForwarder.Exchange | src/forwarding/BackendForwarder.cpp:116-159 | over any number of calls the responses are the frames the backend sent, in order, none skipped or repeated; they are as many as the requests unless a write failed, the connection ended, or a frame equal to the placeholder came |
| FrameStream.StepConserves | src/transport/FrameProtocol.cpp:107-195 | one step of sender, wire or receiver keeps: bytes of the undelivered frames = buffer ++ wire ++ unsent |
| FrameStream.RunConserves | src/transport/FrameProtocol.cpp:107-195 | the same over every run |
| FrameStream.DeliveredIsPrefix | src/transport/FrameProtocol.cpp:107-195 | in every state of every run the frames delivered are the first frames sent, unchanged and in order |
| FrameStream.QuietMeansDelivered | src/transport/FrameProtocol.cpp:107-195 | when nothing is left to write, read or take out, everything sent was delivered and the buffer is empty |
| FrameStream.NotStuck | src/transport/FrameProtocol.cpp:107-195 | while a frame is undelivered some step that moves bytes on is possible |
| FrameStream.ProgressIsBounded | src/transport/FrameProtocol.cpp:107-195 | only finitely many such steps are possible without a new send |
| Endpoints.MethodNameInverse | src/main.cpp:530-604 | reading a written method name gives the method back |
| Endpoints.RouteKeyInjective | src/routing/EndpointDefinition.cpp:68-72 | a METHOD:path key determines method and path, although paths may contain colons |
| Endpoints.SegmentsOfJoin | src/routing/EndpointDefinition.cpp:136-167 | splitting joined segments gives the segments back |
| Endpoints.SplitPath | src/routing/EndpointDefinition.cpp:144-151 | the splitting loop computes the non-empty parts between slashes |
| Endpoints.ParsePathSegments | src/routing/EndpointDefinition.cpp:129-167 | the three segment vectors are rebuilt from the path and run in parallel; nothing else changes |
| Endpoints.MatchesPath | src/routing/EndpointDefinition.cpp:8-53 | succeeds exactly when segment counts agree and every literal segment equals the request; then the map is exactly the bindings, whatever it held before |
| Endpoints.TemplateMatchesItself | src/routing/EndpointDefinition.cpp:8-53 | every template matches its own text |
| Endpoints.BindingsMeaning | src/routing/EndpointDefinition.cpp:34-49 | the bound names are exactly those of the placeholders, and each has the segment of the last placeholder of that name |
| Endpoints.DistinctNamesAgree | src/routing/EndpointDefinition.cpp:34-49 | distinct placeholder names always satisfy the condition of the next row |
| Endpoints.ExtractionInvertible | src/routing/EndpointDefinition.cpp:8-53 | substituting the extracted values into the template rebuilds the request's segments if and only if placeholders of the same name were given the same text |
| Endpoints.RepeatedNameLosesText | src/routing/EndpointDefinition.cpp:34-49 | where it fails: a template using a name twice, matched with two different texts, keeps only the second |
| Endpoints.RepeatedNameExample | src/routing/EndpointDefinition.cpp:34-49 | for example `/{x}/{x}` matched with `/p/q` |
| Endpoints.WrittenTemplate | src/routing/EndpointDefinition.cpp:129-167 | a template written as literal parts and placeholders matches a path if and only if it has as many segments and each literal its own text; then exactly the written names, without their braces, are bound, each to the segment at the place of the last placeholder of that name |
| VectorIndex.Append | src/routing/RoutingTable.cpp:24-31 | pushing an element and indexing it keeps the bijection and adds one entry to the map read off |
| VectorIndex.SwapPopIndexed | src/routing/RoutingTable.cpp:66-77 | overwriting an element by the last one, re-pointing the last one's key and popping keeps the bijection and removes exactly one entry |
| RoutingTable.ExactRoute | src/routing/RoutingTable.cpp:97-104 | a route key is indexed if and only if some stored endpoint has that method and, literally, that path |
| RoutingTable.LookupAgreesWithScan | src/routing/RoutingTable.cpp:86-124 | for tables whose segments were made from the paths (which every operation keeps): the indexed lookup finds something if and only if the plain scan does, what it finds matches, and an exact route wins over patterns |
| RoutingTable.FilterView | src/routing/RoutingTable.cpp:192-229 | a rebuilt table is the old map restricted to the other backends |
| RoutingTable.Table.RegisterEndpoint | src/routing/RoutingTable.cpp:11-50 | map insertion or update, refused for invalid endpoints and for new keys at 4096 entries; where in the vector the endpoint goes |
| RoutingTable.Table.UnregisterEndpoint | src/routing/RoutingTable.cpp:52-84 | map deletion by swapping with the last entry; succeeds exactly when the key was there |
| RoutingTable.Table.ScanEndpoints | src/routing/RoutingTable.cpp:108-120 | the pattern scan stops at the first endpoint that serves the request, with exactly its bindings |
| RoutingTable.Table.FindEndpoint | src/routing/RoutingTable.cpp:86-124 | returns the exact route, else the first pattern match, with exactly its bindings and nothing left from candidates that failed before it; finds something if and only if the plain scan does |
| RoutingTable.Table.HasEndpoint | src/routing/RoutingTable.cpp:126-158 | agrees with `FindEndpoint`, and with the plain scan, on every path and method |
| RoutingTable.Table.RemoveEndpointsByBackend | src/routing/RoutingTable.cpp:192-229 | map filtering; the returned count is the number of entries lost |
| RoutingTable.Table.ClearAll | src/routing/RoutingTable.cpp:231-236 | empties table and index |
| RoutingTable.Table.Replay | src/routing/RoutingTable.cpp:11-236 | over every run of operations the table refines a plain map of at most 4096 entries, and stays one the scan agrees with |
| Base64Url.EncodeLength | src/auth/AesGcm.cpp:378-414 | the exact length of an encoding: 4(n/3), plus n mod 3 + 1 when n is no multiple of 3 |
| Base64Url.DecodeEncode | src/auth/AesGcm.cpp:378-467 | decoding an encoding gives every byte string back, although the 32-bit accumulator is never cleared |
| Base64Url.DecodeAccepts | src/auth/AesGcm.cpp:416-467 | a text is decoded if and only if all characters before the first `=` belong to an alphabet, and the decoded length is 6 bits per character, rounded down to bytes |
| Base64Url.SameSymbols | src/auth/AesGcm.cpp:416-467 | texts with the same symbols before their first `=` are decoded alike, in either alphabet and whatever follows |
| Base64Url.PaddingIsIgnored | src/auth/AesGcm.cpp:416-467 | an `=` and anything after it can be appended without changing what is decoded |
| Base64Url.Alphabet | src/auth/AesGcm.cpp:378-467 | the 64 symbols written are those of base64url, in order, and the symbols of plain base64 are read as well |
| Base64Url.OtherSymbols | src/auth/AesGcm.cpp:416-467 | no symbol outside the two alphabets is read |
| Base64Url.Base64UrlEncode | src/auth/AesGcm.cpp:378-414 | the loop over groups of three computes the encoding |
| Base64Url.Base64UrlDecode | src/auth/AesGcm.cpp:416-467 | the accumulator loop computes the decoding, and fails exactly when it does |
| TokenPayload.Bytes64Inverse | src/auth/TokenEngine.cpp:260-272 | a 64-bit timestamp, negative ones included, written as eight bytes is read back |
| TokenPayload.Bytes64ByShifts | src/auth/TokenEngine.cpp:260-272 | the bytes produced by shifting right by 56, 48, ..., 0 are the two's complement bytes |
| TokenPayload.DeserializeSerialize | src/auth/TokenEngine.cpp:215-354 | a payload whose serialized size is below 2^32 is read back unchanged, without any 32-bit sum wrapping |
| TokenPayload.SerializeDeserialize | src/auth/TokenEngine.cpp:277-354 | a decoded payload serializes to exactly the bytes it was read from, except that every non-zero type byte stands for a refresh token |
| TokenPayload.DecodedFits | src/auth/TokenEngine.cpp:277-354 | whatever is decoded fits in the buffer |
| TokenPayload.PayloadLayout | src/auth/TokenEngine.cpp:215-275 | the bytes of a payload: each identifier after its length in four bytes, 0 or 1 for the type, and creation and expiry in eight bytes each |
| TokenPayload.OutOfBoundsExactly | src/auth/TokenEngine.cpp:284-351 | false of the code: decoding can pass its bounds checks and read past the buffer; exactly when one of the two length fields makes the 32-bit sum wrap |
| TokenPayload.OutOfBoundsReached | src/auth/TokenEngine.cpp:284-351 | such a buffer: a first length field of 2^32 - 16 followed by zeros |
| TokenPayload.SerializePayload | src/auth/TokenEngine.cpp:215-275 | the push-back code computes the serialization |
| TokenPayload.ReadTimestamp | src/auth/TokenEngine.cpp:328-345 | the shifting loop reads the signed 64-bit number |
| TokenPayload.DeserializePayload | src/auth/TokenEngine.cpp:277-354 | the moving offset computes the decoding, branch by branch |
| Tokens.OpenEncrypted | src/auth/TokenEngine.cpp:356-402 | an issued token opens to the payload it was issued for |
| Tokens.TokenSize | src/auth/TokenEngine.cpp:85-101 | an issued token has at most 4096 characters if and only if the two identifiers have at most 3019 bytes together |
| Tokens.AcceptedExactly | src/auth/TokenEngine.cpp:77-137 | an issued token validates if and only if it is not revoked, its identifiers have at most 3019 bytes, and server, type and time are right; then as its own user |
| Tokens.LongIdentifierNeverAccepted | src/auth/TokenEngine.cpp:77-137 | for example the token of a user identifier of 3020 letters is never accepted |
| Tokens.SpellingAccepted | src/auth/TokenEngine.cpp:77-137 | every string that decodes to an issued ciphertext validates if and only if that very string is not revoked, it has at most 4096 characters, and server, type and time are right |
| Tokens.GenerateCarries | src/auth/TokenEngine.cpp:37-75 | both tokens of a pair carry the server and user they were generated for, with their types |
| Tokens.RotateCarries | src/auth/TokenEngine.cpp:139-167 | a successful refresh was asked for by the server in the token and keeps server and user |
| Tokens.ChainKeepsIdentity | src/auth/TokenEngine.cpp:139-167 | along a rotation chain of any length every token carries the server and user of the first pair |
| Tokens.GeneratedLifetime | src/auth/TokenEngine.cpp:50-75 | both tokens of a generated pair say that they were created now and expire after the configured seconds; whatever is revoked, each validates if and only if it is not revoked, its identifiers fit, type and server are right, and that time has not passed |
| Tokens.RefreshedLifetime | src/auth/TokenEngine.cpp:139-167 | a refresh with an issued token succeeds if and only if the token is not revoked, the server is its own and its lifetime, counted from its issue, has not passed; the lifetimes of the new pair count from the refresh |
| TokenRuns.RevokedGrows | src/auth/TokenEngine.cpp:169-198 | over every run the revoked set only grows |
| TokenRuns.RefreshAtMostOnce | src/auth/TokenEngine.cpp:139-167 | in every run the same token string is good for at most one successful refresh |
| TokenRuns.RevokedStaysOut | src/auth/TokenEngine.cpp:77-137 | a revoked token string is never accepted again as that string |
| TokenRuns.RevokedExactly | src/auth/TokenEngine.cpp:139-198 | the revoked set holds exactly the strings that were revoked or presented in a successful refresh |
| TokenRuns.RespelledRefresh | src/auth/TokenEngine.cpp:139-167 | after an accepted refresh, another presentation of the same ciphertext is accepted if and only if it is spelled as a string that is not revoked and not too long, for the same server and before its expiry |
| TokenRuns.AcceptedBySpelling | src/auth/TokenEngine.cpp:77-137 | over every run, what a string is accepted for depends on the history only through that very string, and on its contents only through what it decodes to |
| TokenRuns.RefreshedTwice | src/auth/TokenEngine.cpp:139-167 | false of the code: one refresh per issued token; a login's refresh token is accepted as issued and again with an `=` appended |
| TokenRuns.RevokedYetAccepted | src/auth/TokenEngine.cpp:169-198 | false of the code: a revoked token is out; revoked as issued, it is accepted with an `=` appended |
| TokenRuns.RunHonest | src/auth/TokenEngine.cpp:37-167 | in every fair run each issued ciphertext opens to its payload, carries the server and user of some login event, and has the configured lifetime |
| TokenRuns.LoginsAreEvents | src/auth/TokenEngine.cpp:37-75 | the recorded server and user names are exactly those of the login events of the run |
| TokenRuns.AcceptedIdentityLoggedIn | src/auth/TokenEngine.cpp:77-167 | under ideal integrity every accepted token decodes to a ciphertext issued earlier, for the accepted user, the server it is presented to and the type it is accepted as, and not expired; and a login earlier in the run generated a pair for that server and user |
| TokenRuns.PresentedStaysInBounds | src/auth/TokenEngine.cpp:379-402 | in a fair run, where the cipher opens only what was sealed, no presented token makes the decoder read past its buffer |
| TokenEngine.Engine.Initialize | src/auth/TokenEngine.cpp:16-35 | the lifetimes are set in any case and the cipher is what the last key set-up left; usable exactly after some key was accepted |
| TokenEngine.Engine.EncryptPayload | src/auth/TokenEngine.cpp:356-377 | serialize, seal and encode compute the specified token |
| TokenEngine.Engine.DecryptToken | src/auth/TokenEngine.cpp:379-402 | decode, open and deserialize compute the specified payload |
| TokenEngine.Engine.GenerateTokenPair | src/auth/TokenEngine.cpp:37-75 | the specified pair, or none before initialization or when an encryption fails |
| TokenEngine.Engine.ValidateToken | src/auth/TokenEngine.cpp:77-137 | the specified verdict for both token types |
| TokenEngine.Engine.RefreshTokenPair | src/auth/TokenEngine.cpp:139-167 | the specified pair; the presented token is spent exactly when it was accepted, even if no new pair results |
| TokenEngine.Engine.RevokeToken | src/auth/TokenEngine.cpp:169-181 | adds exactly that string |
| Backends.RegisterKeepsInverse | src/transport/UnixSocketListener.cpp:177-191 | registering keeps the two maps inverse if and only if descriptor and identifier are free or already paired |
| Backends.DepartureKeepsLive | src/main.cpp:412-436 | an unregistration keeps every route live if and only if it names the connection's own identifier or that identifier has no routes |
| Backends.DeadRoute | src/main.cpp:412-436 | where it fails: registering as "a" and unregistering as "b" leaves the route behind without a backend |
| Backends.RegisteredTwice | src/transport/UnixSocketListener.cpp:177-191 | where the maps stop being inverse: one identifier registered on two connections |
| Backends.StepKeepsLive | src/main.cpp:353-466 | every disciplined step keeps: maps inverse, every route names a live backend |
| Backends.GoneWithoutTrace | src/main.cpp:412-466 | a backend that left or was lost is unknown afterwards, exactly its routes are gone, and all others are unchanged |
| Backends.RunIsLive | src/main.cpp:338-473 | the invariant holds in every state of every disciplined run |
| Backends.RoutedIsAvailable | src/forwarding/BackendForwarder.cpp:29-47 | in such a run a routed endpoint's backend is connected on the descriptor it registered on |
| Backends.RegisteredIsRouted | src/main.cpp:377-399 | after a registration, while the table has room, every valid endpoint is routed under the backend that registered it, the last one for a method and path given several times |
| Backends.OthersStay | src/main.cpp:377-399 | routes of other methods and paths stay as they were |
| GatewayServer.UnixSocketListener.RegisterBackend | src/transport/UnixSocketListener.cpp:177-191 | both maps get the pair |
| GatewayServer.UnixSocketListener.UnregisterBackend | src/transport/UnixSocketListener.cpp:193-206 | the descriptor and its own identifier leave both maps; an unknown descriptor changes nothing |
| GatewayServer.Server.HandleRegistration | src/main.cpp:353-410 | the loop takes exactly the registration step |
| GatewayServer.Server.HandleUnregistration | src/main.cpp:412-436 | takes exactly the unregistration step |
| GatewayServer.Server.HandleLoss | src/main.cpp:448-466 | the search over the registered identifiers, in any order, takes exactly the loss step |
| GatewayServer.Server.Handle | src/main.cpp:353-466 | any event takes its step, and a disciplined one keeps the invariant |
| GatewayServer.Server.HandleFrame | src/main.cpp:353-473 | a frame takes exactly the step of the event it stands for, also when reading it ends in an exception (then with the endpoints before it), and the connection stays active unless that happened, or it unregistered or was lost |
| GatewayServer.DecodeFrame | src/main.cpp:353-440 | parsing the payload and its endpoints yields the specified event |
| GatewayServer.RegistrationUnderstood | src/main.cpp:356-399 | a float-free registration is understood as the definitions written in its tree |
| Registration.SchemaIsDetermined | src/routing/ParameterSchema.cpp:56-191 | a parameter that gives type and location is read the same whatever the unset fields of the schema object held |
| Registration.EndpointSurvives | src/routing/EndpointDefinition.cpp:169-231 | an endpoint read through serialized text, with its parameters serialized once more inside, is the endpoint read directly from the tree |
| Registration.RegistrationIsLossless | src/main.cpp:382-399 | all definitions of a float-free registration survive both serialize-and-parse hops, for any number of endpoints and parameters |
| Registration.ParseParameterSchemaFromJson | src/routing/ParameterSchema.cpp:56-191 | the parser-based method reads the specified schema |
| Registration.FillSchema | src/routing/ParameterSchema.cpp:70-184 | the fields are filled one after the other as specified; fields the object does not mention keep what they held, except `required` |
| Registration.FillConstraints | src/routing/ParameterSchema.cpp:145-184 | the same for the constraints, with the loop that appends the allowed values |
| Registration.ParseParameters | src/routing/EndpointDefinition.cpp:206-223 | the parameter loop collects the specified schemas |
| Registration.ParseEndpointDefinitionFromJson | src/routing/EndpointDefinition.cpp:169-231 | the parser-based method reads the specified endpoint, with its path split |
| Registration.ParseEndpointList | src/main.cpp:382-399 | the endpoint loop collects the specified definitions, up to the first that raises an exception |
| GatewayServer.RegistrationRaises | src/main.cpp:382-399 | reading a registration raises if and only if reading one of its endpoints does; then those before the first such one are registered |
| Registration.EndpointRaises | src/routing/EndpointDefinition.cpp:169-231 | reading an endpoint raises if and only if its text makes the parser throw, or that of one of its parameters does |
| RegistrationWriting.SchemaIsRead | src/routing/ParameterSchema.cpp:56-191 | a schema written in the documented form is read back field by field |
| RegistrationWriting.EndpointIsRead | src/routing/EndpointDefinition.cpp:169-231 | an endpoint written in the documented form is read back unchanged |
| RegistrationWriting.RegistrationArrives | docs/PROTOCOL.md:97-129 | any endpoints written in the documented registration form arrive, through frame payload, parse and the inner hops, as the registration event of exactly these endpoints |
| RegistrationWriting.RegistrationTakesEffect | src/main.cpp:353-410 | from frame to routes: a disciplined registration frame on a live server leaves every endpoint routed to the connection it came from, and the server live |
| RegistrationWriting.UnregistrationArrives | src/main.cpp:412-433 | a frame of kind 1 with any float-free object that names a backend is understood as the unregistration of that backend on its connection |
| RegistrationWriting.OtherFrames | src/main.cpp:437-473 | a frame of kind 7, the placeholder for an ended connection included, is a loss; every other kind is no event |
| RegistrationWriting.NotUnderstood | src/main.cpp:353-440 | payloads that are no JSON, name no backend, or register an empty name change nothing; one on which the parser throws raises |
| RegistrationWriting.DepartureTakesEffect | src/main.cpp:412-466 | from frame to routes: after an unregistration by a disciplined backend, or an error frame, no route of that backend is left and every other route is unchanged |
| RegistrationWriting.AbsentSchemaMembers | src/routing/ParameterSchema.cpp:70-184 | a parameter that leaves members out is not required and has no description, default or constraints |
| RegistrationWriting.NamelessRefused | src/routing/ParameterSchema.cpp:70-191 | a parameter without a name is refused |
| RegistrationWriting.AbsentEndpointMembers | src/routing/EndpointDefinition.cpp:169-231 | an endpoint is read if and only if it gives a path and a known method; left out, the others mean not protected, no description, no parameters |
| RegistrationWriting.WrongTypes | src/routing/ParameterSchema.cpp:70-184 | members of another type than documented count as false or as the empty text |
| RegistrationWriting.WrongConstraintTypes | src/routing/ParameterSchema.cpp:145-184 | bounds of another type count as zero, a pattern as the empty text; every element of the allowed values is appended, an empty text for one that is no string |
| RegistrationWriting.LengthBoundsWrap | src/routing/ParameterSchema.cpp:158-165 | a length bound is kept modulo 2^32, so a negative one wraps around |
| RequestFormatter.EscapedReadsBack | src/forwarding/RequestFormatter.cpp:199-235 | what the second escaper writes, in quotes, is read back by the parser, for every byte string |
| RequestFormatter.PayloadParses | src/forwarding/RequestFormatter.cpp:98-197 | the parser reads the payload completely, as the object with the intended members |
| RequestFormatter.ForwardingPreservesMeaning | src/forwarding/RequestFormatter.cpp:98-197 | for every iteration order of the maps the payload parses to an object that says exactly the request's method, path, backend, parameters, passed-on headers and body |
| RequestFormatter.PayloadRaises | src/forwarding/RequestFormatter.cpp:176-194 | there is no payload if and only if the body makes the parser throw |
| RequestFormatter.HeaderReachesBackend | src/forwarding/RequestFormatter.cpp:160-164 | a header reaches the backend if and only if the request has it and it is content-type, accept, user-agent, x-request-id or x-forwarded-for |
| RequestFormatter.MethodReachesBackend | src/forwarding/RequestFormatter.cpp:98-110 | the method reaches the backend as its word in capitals |
| RequestFormatter.ControlsLeftRaw | src/forwarding/RequestFormatter.cpp:199-235 | false of the code: the payload is proper JSON text; a control character of a string is left in it as it is if and only if it is none of line feed, carriage return and tab |
| RequestFormatter.UserIsNotForwarded | docs/PROTOCOL.md:191 | false of the code: recording the authenticated user in the headers changes nothing in what the backend is told, and no payload has that header |
| RequestFormatter.EscapeJsonString | src/forwarding/RequestFormatter.cpp:199-235 | the escaping loop computes the specified text |
| RequestFormatter.BuildJsonPayload | src/forwarding/RequestFormatter.cpp:98-197 | the stream appends produce exactly the text of the payload's syntax |
| RequestFormatter.Formatter.FormatRequestForBackend | src/forwarding/RequestFormatter.cpp:13-40 | the frame carries the payload with its length, and identifiers count up modulo 2^32 |
| RequestFormatter.RequestArrives | src/forwarding/RequestFormatter.cpp:13-40 | formatter, frame codec and parser together: a request that fits a frame arrives as an object describing it, whatever bytes follow |
| Gateway.ProtectedNeedsLogin | src/main.cpp:250-281 | a request admitted to a protected endpoint carries a user for whom a login earlier in the run generated a pair, for the server name of that endpoint's backend |
| Gateway.AccessTokensAdmit | src/main.cpp:250-281 | a protected endpoint admits a request whose `authorization` is `Bearer` and the access token of a pair exactly while the engine is ready and the token unrevoked, at most 4096 characters long and unexpired, with the user recorded; never with the refresh token, another header text or none |
| Gateway.LoginIsAdmitted | src/main.cpp:250-281 | for the pair of a login that is for the configured number of seconds after it |
| Gateway.DecisionIsExact | src/main.cpp:236-330 | which requests are not found, not authorized, invalid, rotated or passed on, each if and only if, in that order |
| Gateway.RefreshBody | src/main.cpp:289-317 | the refresh route rotates exactly the text that the body, as the serializer writes any object, gives as `refresh_token`; with none there is nothing to rotate |
| Gateway.NoJsonNoRefresh | src/main.cpp:289-317 | nor is there for a body that is no JSON object |
| Gateway.Gateway.Authenticate | src/main.cpp:250-281 | computes the admitted request, with the user recorded in its headers |
| Gateway.Gateway.Refresh | src/main.cpp:289-317 | the refresh route rotates the presented token for the endpoint's backend and spends it exactly when it was accepted |
| Gateway.Gateway.Forward | src/forwarding/BackendForwarder.cpp:20-50 | "not available" exactly for unknown backends, else the frame of the request for the backend's descriptor |
| Gateway.Gateway.Resolve | src/main.cpp:236-330 | lookup, authentication and validation compute the specified decision; while the lifecycle invariant holds a passed request's backend is connected |
| Gateway.Gateway.RouteRequest | src/main.cpp:236-336 | answers exactly as decided: not found if and only if the plain scan finds nothing; a passed request goes to the connection on which its endpoint's backend registered, and under the invariant "not available" is never answered |
| ClientConnection.HandleClientConnection | src/main.cpp:160-234 | a request is routed exactly under the condition above, an incomplete one all the same and without a body; the answer is the one decided, and a frame for a backend carries the payload of the admitted request |
| ClientConnection.WrittenRequestReachesBackend | src/main.cpp:160-336 | end to end: a written request that is passed on was permitted, and reaches its backend as a frame whose payload the parser reads as an object describing exactly what the client meant |
| HttpParser.ReparseIsFresh | src/transport/HttpParser.cpp:13-71 | parsing a longer buffer into the result of a first successful parse gives what parsing it afresh gives |
| HttpParser.CompleteStaysSame | src/transport/HttpParser.cpp:13-71 | once complete, further bytes change nothing but the raw copy |
| HttpParser.QueryOverrides | src/transport/HttpParser.cpp:206-246 | parsing a query into a used map overrides it with the fresh result |
| HttpParser.HeadersOverride | src/transport/HttpParser.cpp:161-204 | parsing headers into a used map overrides it with the fresh result |
| HttpParser.UrlDecodeText | src/transport/HttpParser.cpp:248-276 | the decoding loop computes the specified text |
| HttpParser.ParseQueryString | src/transport/HttpParser.cpp:206-246 | the loop over pairs computes the specified map |
| HttpParser.ParseHeaderBlock | src/transport/HttpParser.cpp:161-204 | the loop over lines computes the specified map |
| HttpParser.ParseLine | src/transport/HttpParser.cpp:121-159 | the request line is taken apart as specified, including what a failed parse leaves behind |
| HttpParser.Parse | src/transport/HttpParser.cpp:13-71 | the whole parse computes the specified outcome |
| HttpParser.FirstReadDecides | src/main.cpp:177-198 | a request read in pieces is understood if and only if the first piece holds the whole head and one parse of everything is understood |
| HttpParser.ReceiveRequest | src/main.cpp:160-198 | the reading loop ends with what one parse of all bytes read gives; it is understood exactly under that condition; a complete request is what one parse of everything the client ever sends gives |
| HttpWriting.UrlDecodeEncoded | src/transport/HttpParser.cpp:248-276 | percent-decoding undoes percent-encoding for every byte string |
| HttpWriting.QueryIsRead | src/transport/HttpParser.cpp:206-246 | an encoded query is read as its entries set one after the other |
| HttpWriting.HeadersAreRead | src/transport/HttpParser.cpp:161-204 | written header lines are read with lower-case names and their exact values |
| HttpWriting.RequestIsUnderstood | src/transport/HttpParser.cpp:13-71 | a written request is understood if and only if it has a header and its content length, if given, is a number; then method, path, query entries, version and all headers arrive, with the body as far as it was announced |
| HttpWriting.BodyArrives | src/transport/HttpParser.cpp:13-71 | a request that announces the length of its body, in any header position, arrives completely; so does one without a body that announces none |
| HttpWriting.CutHeadIsRefused | src/main.cpp:177-198 | false of the code: reading in pieces equals reading at once; a request understood as a whole is refused when the first read ends anywhere inside its head |
| HttpWriting.NoHeadersIsRefused | src/transport/HttpParser.cpp:13-71 | a request without any header is refused, whatever its request line |
| HttpLenience.UrlDecodeIs | src/transport/HttpParser.cpp:248-276 | encoded text that mixes plain characters, plus signs and escapes in either case is decoded character by character, and an escape cut off at the end stays as it is |
| HttpLenience.BadEscapeRaises | src/transport/HttpParser.cpp:248-276 | an escape that is no number makes the decoder throw, whatever comes before and after |
| HttpLenience.LooseQueryIsRead | src/transport/HttpParser.cpp:206-246 | a query of such entries, of keys without a value and of empty parts is read as what they mean, over whatever the map held |
| HttpLenience.LooseLineIsRead | src/transport/HttpParser.cpp:121-159 | a request line with such a query is taken apart into its word, path, query and version |
| HttpLenience.ShortLineIsRefused | src/transport/HttpParser.cpp:121-159 | a request line of fewer than three words is refused |
| HttpLenience.NoHeadIsRefused | src/transport/HttpParser.cpp:13-34 | without a blank line the parse fails and resets method, length and completeness of the request it parses into |
| HttpLenience.OtherWords | src/main.cpp:530-604 | a word that is none of the seven methods in capitals or in small letters is an unknown method |
| HttpLenience.LooseHeaderIsRead | src/transport/HttpParser.cpp:161-204 | the name before the first colon is read in small letters, the value without the blanks and tabs before it |
| HttpLenience.NoColonNoHeader | src/transport/HttpParser.cpp:161-204 | a line without a colon sets nothing |
| HttpLenience.ContentLengthIs | src/transport/HttpParser.cpp:44-49 | a content length is read with white space and a sign before it and anything after it, modulo 2^32; without a digit, or beyond 64 bits, parsing throws |
| Validation.CheckIsExact | src/routing/ParameterSchema.cpp:12-42 | a value produces no message if and only if it meets type and constraints |
| Validation.ParametersAreLookedUp | src/validation/ValidationEngine.cpp:52-179 | a parameter is met if and only if the value of its name, among path parameters, query or headers (there in small letters), fits, or it is absent and optional |
| Validation.FieldTypes | src/validation/ValidationEngine.cpp:246-374 | what a body field has to be, type by type |
| Validation.BooleanWords | src/routing/ParameterSchema.cpp:346-366 | a boolean parameter is one of six words |
| Validation.IntegerTexts | src/routing/ParameterSchema.cpp:260-302 | a text is an integer if and only if it is white space, a sign and digits up to a null character, within 64 bits |
| Validation.ReadPrintedInteger | src/routing/ParameterSchema.cpp:260-302 | printing and reading a 64-bit integer are inverse |
| Validation.IntegerFieldIsExact | src/validation/ValidationEngine.cpp:246-374 | an integer body field n passes if and only if min <= n <= max, for all 64-bit n |
| Validation.FieldErrorIsExact | src/validation/ValidationEngine.cpp:246-374 | a body field produces no error if and only if it is absent and optional, or has the right type and (unless its text is empty) fits |
| Validation.ValidationIsExact | src/validation/ValidationEngine.cpp:13-50 | the error list is empty if and only if every schema is met |
| Validation.ErrorsAreExact | src/validation/ValidationEngine.cpp:13-50 | which errors are reported: exactly one for each schema that is not met, under its name, those of the path first, then query, headers and body, in the order of the schemas; an unparsable body gets a single one of its own |
| Validation.ProvidedIsTheText | src/validation/ValidationEngine.cpp:52-179 | an error outside the body reports the very text that does not fit, or nothing for a missing parameter |
| Validation.MissingMessages | src/validation/ValidationEngine.cpp:52-179 | what the error of a missing path, query or header parameter says |
| Validation.ValidateLocation | src/validation/ValidationEngine.cpp:52-179 | the loop over one location appends exactly its errors and returns whether there were none |
| Validation.ValidateBody | src/validation/ValidationEngine.cpp:181-244 | the body's errors, with the single error of an unparsable body |
| Validation.ValidateRequest | src/validation/ValidationEngine.cpp:13-50 | valid, no errors, and every schema met are the same; errors come in the order path, query, header, body |

## Left out

- Floating-point numbers: a float keeps the token it was read from. Which tokens the library converts
  without a range error, and how the number of a token is printed, are parameters (`fp`) for which
  everything is proved; round trips, which would depend on them, ask for float-free values. The float
  bounds of a schema are never filled from JSON.
- Inputs of 4 GiB and more, for which the 32-bit cursor, index and length variables would wrap;
  the length of a request frame and the sums in the token payload, where wrapping matters, do wrap.
- Recursion depth: the parser and the serializer recurse without a limit, and the stack is unbounded here.
- AES-GCM, random bytes and the clock: the cipher is a parameter of which opening undoes sealing
  (`Works`), with ideal integrity stated per presented token (`Unforged`); vectors and times are inputs.
- `std::regex` and the parsing and printing of floating-point texts in validation: parameters (`Library`).
- Iteration order of unordered maps: any order (`Orders`), each entry once.
- epoll, sockets, coroutines, threads and mutexes: reads and writes are schedules of outcomes, each
  locked method is atomic, and a schedule that ends counts as a failure.
- Concurrent requests on one backend connection, two readers of one connection, and descriptors reused
  with a leftover buffer: `BackendForwarder` is modelled for one call at a time on one connection.
- FrameProtocol.BackendForwarder.Exchange: stops at the first placeholder frame, because a backend may
  itself send a frame equal to the placeholder and the caller cannot tell them apart.
- FrameProtocol.SerializeFrame: what a copy past the end of the payload puts into the frame is not modelled
  (`Overread`, and `Overran` in `SendFrame`); no frame the gateway makes gets there.
- GatewayServer.Server.HandleFrame: the acknowledgment and heartbeat answers are not modelled.
- GatewayServer.Server.HandleRegistration: all endpoints of a registration are decoded before the first is
  registered; the program alternates, which makes no difference because no other event runs in between.
- Registration.SchemaIsDetermined: type and location of a schema object are unset in the program until JSON
  gives them; the model passes an arbitrary blank schema in, and this lemma says when it does not show.
- TokenPayload.DeserializePayload: what a read past the buffer would return is not modelled (`OutOfBounds`);
  validation treats such a token as not accepted.
- HttpWriting.RequestIsUnderstood: header lines end with CRLF, and names and values contain no line breaks.
- JsonSyntax.ReadNode: white space is the four characters of JSON; number tokens are those the scanner produces.
- `HttpParser::IsRequestComplete` (unused), `SerializeJsonObject`, `GetEndpointsByBackend`, `GetActiveTokenCount`,
  `GetArrayElement`: small accessors that would add only easy members.
- Login: `FormatLoginRequest`, `HandleLoginResponse` and `ForwardLoginRequest` are not reached from request
  routing; a login, with the server and user names it generates a pair for, is an event of the token runs.
- `BuildHttpResponseFromFrame`, `HttpResponse`, error texts of `FormatValidationErrors`, logging, configuration,
  the event loop and the TCP listener: presentation and plumbing.
