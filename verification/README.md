# mcphawk core in Dafny

mcphawk watches Model Context Protocol traffic (JSON-RPC 2.0) passively. It
captures it from TCP, WebSocket, HTTP with server-sent events (SSE) and the
standard streams of a child process. It puts complete messages back together
from the pieces the wire delivers, classifies each one, and tells which MCP
transport a connection uses. It also guesses a server's name from its command
line and aggregates logged traffic into dashboard metrics.

This project models that core as pure Dafny functions over immutable
datatypes and proves properties of it. One module follows each part of the
program:

- `Utils` (`mcphawk/utils.py`): parsing and JSON-RPC classification.
- `Transport` (`mcphawk/transport_detector.py`): transport detection from an
  HTTP exchange, the endpoint event, and the per-connection transport tracker.
- `Chunked`, `HttpHeaders`, `Sse`, `HttpStream` and `TcpReassembly`
  (`mcphawk/tcp_reassembly.py`): chunked transfer decoding, header reading,
  SSE event cutting, the per-stream HTTP state, and the packet dispatcher.
- `WsReassembly` (`mcphawk/ws_reassembly.py`): WebSocket frame parsing
  (section 5.2 of RFC 6455), unmasking, fragment joining and the
  per-connection buffers.
- `StdioCapture` (`mcphawk/stdio_capture.py`): the brace-depth scanner of the
  monitor thread, the direction rule, the log entry, and `MonitoredFile.write`.
- `ServerName` (`mcphawk/stdio_server_detector_fallback.py`): the five name
  patterns, command-line detection and merging with protocol information.
- `Tallies`, `Metrics` and `Performance` (`mcphawk/web/metrics.py`):
  `Counter` semantics, time bucketing, the six dashboard aggregations,
  request/response latency matching, percentiles and the histogram.
- `Wrappers`, `Seqs`, `PyInt`, `Json` and `Net` hold the Python built-ins the
  program relies on: `Option`, outcomes that may raise, `str.find`/`split`/
  `strip`/`lower`, slicing with negative bounds, `int(text, base)`, JSON
  values with Python truthiness, `in` and hashing, and connection keys.

Four functions outside the core are passed in as parameters:

- `json.loads` is `parse: string -> Option<Json>`;
- UTF-8 decoding of WebSocket payloads is `decode: seq<Byte> -> Option<string>`;
- `int(..., 16)` in the chunk decoder is a size reader;
- the wrapped file's `write` result is an argument.

Where a Python exception escapes a function, the model returns an `Outcome`
with a `Raises` case. A loop that never ends returns `None`.

Some of the program's design promises are not kept by the code, most notably
that every message is delivered exactly once however the reads fragment the
stream. The model follows the code. The differences are proved as Findings
below, each with an as-written half and a corrected half.

## Model

| member | source | states |
|---|---|---|
| Utils.ParseMessage | mcphawk/utils.py:7-14 | a non-string argument is returned unchanged; a string is parsed, and a string the parser rejects gives `None` |
| Utils.ParseMessageSettles | mcphawk/utils.py:7-14 | parsing is settled after one pass: handing `parse_message` its own result returns it unchanged |
| Utils.ClassifyFields | mcphawk/utils.py:27-47 | for each of the five kinds, both directions of the key condition that selects it (error before response before request before notification, `jsonrpc` exactly `"2.0"`) |
| Utils.ClassifyByKeysOnly | mcphawk/utils.py:27-47 | the kind depends only on which keys are present and on the `jsonrpc` value; a `null` id counts as present |
| Utils.GetMessageTypeAsWritten | mcphawk/utils.py:17-47 | a falsy parse result is `unknown`, an object is classified, and any other truthy value raises `AttributeError` (exactly then) |
| Utils.GetMessageType | mcphawk/utils.py:17-47 | the corrected classifier: anything that is not an object is `unknown`, an object is classified |
| Utils.GetMessageTypeAgrees | mcphawk/utils.py:17-47 | the corrected classifier gives the source's answer whenever the source returns |
| Utils.BatchMessageRaises | mcphawk/utils.py:28 | a JSON-RPC batch (an array of requests) makes the source raise while the corrected classifier says `unknown` |
| Utils.GetMethodName | mcphawk/utils.py:50-53 | the `method` value of an object (`None` when absent), `None` for a falsy parse result, and `AttributeError` exactly for a truthy non-object |
| Utils.MethodNameRaisesWithType | mcphawk/utils.py:17-53 | `get_method_name` raises exactly when `get_message_type` raises |
| Utils.MethodNameOfCall | mcphawk/utils.py:39-53 | every message classified as a request or a notification has its `method` returned by `get_method_name` |
| Transport.DetectTransportFromHttp | mcphawk/transport_detector.py:18-86 | HTTP+SSE for a GET accepting exactly the event stream; Streamable HTTP iff a POST with dual accept or an SSE response; HTTP+SSE for another SSE response; otherwise unknown, each as an iff |
| Transport.DetectIgnoresPathAndEndpoint | mcphawk/transport_detector.py:18-86 | the answer never depends on the request path or on the endpoint-event flag |
| Transport.ScanSseKeepsLast | mcphawk/transport_detector.py:105-113 | the line loop keeps the value of the last `event:` line and of the last `data:` line |
| Transport.ExtractEndpointFromSse | mcphawk/transport_detector.py:89-122 | the `url` of the last data value is returned iff the last event is `endpoint` and the data parses to an object with a `url`; it raises iff the data parses to a non-object |
| Transport.UpdateTransport | mcphawk/transport_detector.py:134-156 | a known transport is recorded for both directions and nothing else changes; HTTP+SSE also marks the destination as a server; `unknown` changes nothing |
| Transport.GetTransport | mcphawk/transport_detector.py:158-184 | the exact connection first, then the destination, then the source as a known HTTP+SSE server, else unknown |
| Transport.StoreEndpointUrl | mcphawk/transport_detector.py:186-197 | sets exactly the given connection's URL and leaves the rest of the tracker unchanged |
| Transport.UpdateThenGet | mcphawk/transport_detector.py:134-184 | a recorded transport is read back for both directions of the connection |
| Transport.HttpSseServerCoversNewConnections | mcphawk/transport_detector.py:152-182 | after an HTTP+SSE connection is recorded, a connection to or from that server with no entry of its own reads as HTTP+SSE, unless its destination is a server recorded with another transport |
| Transport.UpdateIdempotent | mcphawk/transport_detector.py:134-156 | recording the same transport twice equals recording it once |
| PyInt.ParseIntIgnoresPadding | mcphawk/tcp_reassembly.py:205-209 | surrounding white space never changes what `int(text, 16)` reads |
| PyInt.ParseIntToHex | mcphawk/tcp_reassembly.py:209 | `int(format(n, "x"), 16) == n` for every size a sender writes |
| PyInt.ParseIntMinusSix | mcphawk/tcp_reassembly.py:209 | `int("-6", 16)` is -6: a signed size line is accepted |
| Chunked.ReadChunkAsWritten | mcphawk/tcp_reassembly.py:198-234 | one pass as written: no CRLF, a bad size or the last chunk, each as an iff; a chunk leaves a suffix of the buffer |
| Chunked.ReadChunk | mcphawk/tcp_reassembly.py:198-234 | one corrected pass: a negative size is a bad size; a chunk is non-empty, lies just after the size line and strictly shortens the buffer |
| Chunked.ReadChunkAgrees | mcphawk/tcp_reassembly.py:209-234 | the two passes differ only on a negative size |
| Chunked.Finish | mcphawk/tcp_reassembly.py:236-239 | the collected data is returned exactly when it is non-empty |
| Chunked.ChunkLoop | mcphawk/tcp_reassembly.py:198-239 | the corrected loop always ends, leaves a suffix of the buffer, and collects no more than it removes |
| Chunked.ExtractChunkedData | mcphawk/tcp_reassembly.py:191-239 | corrected `extract_chunked_data`: data comes only with progress, and data plus the kept buffer are shorter than the input |
| Chunked.SizedChunkAgrees | mcphawk/tcp_reassembly.py:215-234 | once the size line is read, the two passes differ only on a negative size |
| Chunked.ReadEncodedChunk | mcphawk/tcp_reassembly.py:200-234 | both passes take exactly one chunk as a sender writes it off the front of the buffer |
| Chunked.ReadLastChunk | mcphawk/tcp_reassembly.py:215-219 | both passes recognise the last chunk `0\r\n\r\n` and remove it |
| Chunked.ChunkLoopEncoded | mcphawk/tcp_reassembly.py:198-234 | the corrected loop collects written chunks in order and goes on with what follows them |
| Chunked.ChunkLoopAsWrittenEncoded | mcphawk/tcp_reassembly.py:198-234 | the loop as written does the same |
| Chunked.HexSizeReadsEveryHex | mcphawk/tcp_reassembly.py:205-209 | the size reader the reassembler uses reads back every size a sender writes |
| Chunked.ChunkedRoundTrip | mcphawk/tcp_reassembly.py:191-239 | a complete chunked body decodes to its chunks joined in order, with what follows kept, both as written and corrected |
| Chunked.ChunkedStopsAtTail | mcphawk/tcp_reassembly.py:200-229 | after complete chunks and an unfinished tail the corrected loop keeps the tail, while the loop as written puts the whole buffer back |
| Chunked.PartlyArrivedRedelivered | mcphawk/tcp_reassembly.py:225-229 | on `1\r\na\r\n5\r\nab` the source returns `a` and restores the whole buffer; the corrected loop keeps only `5\r\nab` |
| Chunked.ShortTail | mcphawk/tcp_reassembly.py:222-229 | a size line for five bytes of which two have arrived is an unfinished chunk |
| Chunked.NegativeSizeRead | mcphawk/tcp_reassembly.py:204-209 | the size line `-6` ends at its CRLF and is read as -6 |
| Chunked.NegativeSizeNeverReturns | mcphawk/tcp_reassembly.py:209-234 | on `-6\r\n` the pass as written takes nothing, so the loop never returns; the corrected loop stops and keeps the buffer |
| HttpHeaders.HeaderField | mcphawk/tcp_reassembly.py:74-76 | a line yields a field iff it holds `': '`; name, separator and value account for the whole line, and the value is its end |
| HttpHeaders.FoldHeadersLookup | mcphawk/tcp_reassembly.py:104-109 | reading lines into the header map agrees with the reference: a name is present iff some line names it, with the last line's value |
| HttpHeaders.LastFieldLower | mcphawk/tcp_reassembly.py:76 | field names are stored lower-cased |
| HttpHeaders.FoldHeadersAppend | mcphawk/tcp_reassembly.py:104-109 | reading two runs of lines equals reading their concatenation |
| HttpHeaders.RequestFieldsStopAtBlank | mcphawk/tcp_reassembly.py:71-78 | the request loop reads exactly the lines before the first empty line |
| HttpHeaders.HeaderFieldOfLine | mcphawk/tcp_reassembly.py:74-76 | a field as a peer writes it is read back with its name lower-cased |
| HttpHeaders.LastFieldOfFields | mcphawk/tcp_reassembly.py:104-109 | written fields are read with the last value per name, ignoring case |
| HttpHeaders.SplitCrlfLines | mcphawk/tcp_reassembly.py:63 | splitting written lines at CRLF gives the lines back |
| HttpHeaders.UntilBlank | mcphawk/tcp_reassembly.py:71-78 | the lines read are a prefix holding no empty line, and they stop only at an empty line |
| HttpHeaders.UntilBlankStops | mcphawk/tcp_reassembly.py:71-78 | lines without an empty one, followed by an empty line, are all read and nothing after them |
| HttpHeaders.HeadEndAfterLines | mcphawk/tcp_reassembly.py:97-98 | in a written head the first `\r\n\r\n` is the one that ends it |
| HttpStream.AddRequest | mcphawk/tcp_reassembly.py:54-90 | the buffer is emptied and the response side kept; a request line of fewer than two words keeps the previous method and path; fields are read up to the first empty line; the transport changes only when method and path are truthy, and then to what the request alone shows |
| HttpStream.RequestRoundTrip | mcphawk/tcp_reassembly.py:54-90 | a written request is read back: its method, its path, and each header's last value ignoring case |
| HttpStream.AddResponseData | mcphawk/tcp_reassembly.py:92-132 | data is appended; a head is read at most once, when the buffer first holds `\r\n\r\n`, leaving only the body |
| HttpStream.ReadResponseHead | mcphawk/tcp_reassembly.py:97-132 | every field after the status line is read; event stream iff the content type contains `text/event-stream`; chunked iff the transfer coding contains `chunked`; a bad content length raises `ValueError` |
| HttpStream.AddResponseDataSplit | mcphawk/tcp_reassembly.py:92-132 | response data delivered in two pieces leaves the stream as the same data delivered at once |
| HttpStream.ResponseRoundTrip | mcphawk/tcp_reassembly.py:92-132 | a written response head is read back: the buffer keeps exactly the body, every field's last value ignoring case, and the event-stream and chunked flags |
| HttpStream.NoHeadYet | mcphawk/tcp_reassembly.py:92-98 | while no blank line has arrived, data is only collected, so two deliveries equal one |
| HttpStream.ReadHeadThenAppend | mcphawk/tcp_reassembly.py:92-98 | once a head is read, further data is only appended to the body |
| HttpStream.ResponseHeadCut | mcphawk/tcp_reassembly.py:97-100 | a written response is cut exactly after its head |
| HttpStream.ScanText | mcphawk/tcp_reassembly.py:160-189 | scanning changes at most the transport, and only to HTTP+SSE; when it returns, it returns the messages of the complete events |
| HttpStream.DecodeBody | mcphawk/tcp_reassembly.py:191-239 | the corrected decoder only shortens the buffer, and text comes out only with progress |
| HttpStream.DecodeBodyAsWritten | mcphawk/tcp_reassembly.py:191-239 | the decoder as written changes only the buffer, and never returns exactly when the chunk loop never ends |
| HttpStream.DecodeOneChunk | mcphawk/tcp_reassembly.py:146-150 | a buffer holding one complete chunk is decoded to its data and emptied, by both decoders |
| HttpStream.DecodeWritten | mcphawk/tcp_reassembly.py:191-239 | a complete chunked body decodes to its chunks' data, and both decoders keep what follows it |
| HttpStream.KeptStep | mcphawk/tcp_reassembly.py:134-189 | corrected, a chunked read whose kept text holds no event returns the messages of the kept text followed by the decoded text, and keeps what follows their last event |
| HttpStream.DataLineRead | mcphawk/tcp_reassembly.py:146-171 | a chunk holding a data line without its blank line: as written nothing is returned and the line dropped; corrected the line is kept |
| HttpStream.BlankLineEndsKept | mcphawk/tcp_reassembly.py:160-187 | corrected, a chunk holding the blank line ends the kept data line and returns its message |
| HttpStream.ExtractSseMessagesAsWritten | mcphawk/tcp_reassembly.py:134-189 | `extract_sse_messages` with the chunk decoder as written: `None` iff that decoder never returns; a plain body is scanned whole and the buffer left as it was |
| HttpStream.ExtractSseMessages | mcphawk/tcp_reassembly.py:134-189 | the corrected extraction: every complete event's messages are returned and the text after the last event is kept for the next call |
| HttpStream.WrittenScanRepeats | mcphawk/tcp_reassembly.py:142-171 | as written, a second call on a plain body returns again every message the first call returned |
| HttpStream.NonChunkedRedeliveredAsWritten | mcphawk/tcp_reassembly.py:142-171 | a plain event stream holding `js1` that then receives `js2`: the second call returns `js1` again before `js2` |
| HttpStream.NonChunkedDeliveredOnce | mcphawk/tcp_reassembly.py:134-189 | the same stream with the corrected extraction returns each message once |
| HttpStream.NonChunkedExactlyOnce | mcphawk/tcp_reassembly.py:134-189 | corrected, two calls on a plain body with data arriving between them return the messages of all complete events, each once |
| HttpStream.ChunkedExactlyOnce | mcphawk/tcp_reassembly.py:134-189 | corrected, two calls on a chunked body return the messages of all complete events of the decoded text, each once |
| HttpStream.ChunkSplitEventLostAsWritten | mcphawk/tcp_reassembly.py:146-171 | an event whose data line and blank line arrive in different chunk reads is never returned as written |
| HttpStream.ChunkSplitEventDelivered | mcphawk/tcp_reassembly.py:146-171 | the corrected extraction keeps the data line and returns the message once the blank line arrives |
| HttpStream.ChunkedSseRoundTripAsWritten | mcphawk/tcp_reassembly.py:134-239 | a chunked event stream as a server writes it yields exactly the messages written, and the buffer keeps what follows |
| HttpStream.ChunkedSseRoundTrip | mcphawk/tcp_reassembly.py:134-239 | the same round trip through the corrected extraction |
| HttpStream.PartialChunkKeptWhole | mcphawk/tcp_reassembly.py:225-229 | complete chunks followed by one still arriving: as written their messages are returned and the whole buffer put back |
| HttpStream.PartialChunkTail | mcphawk/tcp_reassembly.py:191-239 | the corrected extraction on the same buffer keeps only the unfinished chunk |
| HttpStream.NegativeSizeStalls | mcphawk/tcp_reassembly.py:209-234 | a `-6` size line: the extraction as written never returns; the corrected one keeps the buffer for more data |
| Sse.EventEnd | mcphawk/tcp_reassembly.py:159-168 | `msg_end` is the length of the shortest prefix ending in `\r\n\r\n` or `\n\n`, or -1 when there is none |
| Sse.EventEndUnique | mcphawk/tcp_reassembly.py:159-168 | `msg_end` is the only length with the shortest-prefix property |
| Sse.EventEndPrefix | mcphawk/tcp_reassembly.py:159-168 | more data after a complete event does not move its end |
| Sse.EventsLossless | mcphawk/tcp_reassembly.py:160-171 | the events and the pending text give the data back; each event holds one event and the pending text none |
| Sse.EventsAppend | mcphawk/tcp_reassembly.py:160-171 | the events of `data + more` are those of `data`, then those of its pending text followed by `more` |
| Sse.LineMessage | mcphawk/tcp_reassembly.py:183-186 | a message comes only from a `data: ` line, and is non-empty text starting with `{` |
| Sse.LineMessages | mcphawk/tcp_reassembly.py:182-187 | an event's lines give at most one message each, every one starting with `{` |
| Sse.DataLineMessage | mcphawk/tcp_reassembly.py:183-186 | a `data: ` line as a server writes it gives back its message |
| Sse.DataEventMessages | mcphawk/tcp_reassembly.py:182-187 | an event carrying one written message gives exactly that message |
| Sse.EndpointCheck | mcphawk/tcp_reassembly.py:175-179 | only an event holding `event: endpoint` can change the transport, and only to HTTP+SSE; the check may raise |
| Sse.ScanEvents | mcphawk/tcp_reassembly.py:160-189 | the transport stays or becomes HTTP+SSE; when the scan returns, it returns the messages of all the events in order; events without the endpoint marker leave the transport alone and never raise |
| Sse.ScanEventsAppend | mcphawk/tcp_reassembly.py:160-189 | when the first run raises, so does the whole scan with the same result; otherwise the whole scan ends with the transport, and raises exactly when, scanning the second run from where the first left off does |
| Sse.ScanEventsOutcomeIndependent | mcphawk/tcp_reassembly.py:160-189 | whether the scan raises, and what it returns, does not depend on the starting transport |
| Sse.EventsResume | mcphawk/tcp_reassembly.py:160-189 | text cut anywhere yields, over the two parts, the messages of the whole |
| Sse.EventsStep | mcphawk/tcp_reassembly.py:160-171 | one turn of the loop cuts off the first event and goes on with the rest |
| Sse.AllMessagesAppend | mcphawk/tcp_reassembly.py:160-189 | the messages of two runs of events are those of the first, then those of the second |
| Sse.NoNewlineNoEvent | mcphawk/tcp_reassembly.py:160 | text without a line feed holds no event and stays pending |
| Sse.BlankEvent | mcphawk/tcp_reassembly.py:160-189 | a lone blank line is one event, carries no message and leaves the transport alone |
| Sse.DataEventNoEndpoint | mcphawk/tcp_reassembly.py:175 | an event a server writes holds the endpoint marker only when its message does |
| Sse.DataEventsCut | mcphawk/tcp_reassembly.py:160-171 | a stream of written events is cut into exactly those events with nothing pending |
| Sse.DataEventListMessages | mcphawk/tcp_reassembly.py:182-187 | the written events carry exactly the messages written, in order |
| Sse.ScanDataEvents | mcphawk/tcp_reassembly.py:160-189 | written events are scanned into exactly the messages written and do not touch the transport |
| Net.Reverse | mcphawk/transport_detector.py:144-145 | the reverse key swaps source and destination |
| Net.ReverseTwice | mcphawk/transport_detector.py:144-145 | reversing twice gives the connection back |
| TcpReassembly.StreamKeyOrdered | mcphawk/tcp_reassembly.py:18-26 | the stream key is the connection one way round or the other, lower endpoint first |
| TcpReassembly.StreamKeySymmetric | mcphawk/tcp_reassembly.py:18-32 | both directions of a connection have the same key |
| TcpReassembly.SameStreamIff | mcphawk/tcp_reassembly.py:18-32 | two packets share a stream iff they travel on the same connection in either direction |
| TcpReassembly.Tag | mcphawk/tcp_reassembly.py:332-340 | one message record per extracted message, in order, each with the packet's connection, the kind and the transport |
| TcpReassembly.Emit | mcphawk/tcp_reassembly.py:321-340 | an extraction that raises emits nothing and leaves the tracker alone; one that returns emits its messages tagged with the stream's transport, and the tracker records that transport once there is a message |
| TcpReassembly.UpdateEachOnce | mcphawk/tcp_reassembly.py:324-330 | updating the tracker once per message is updating it once when there is a message, and not at all otherwise |
| TcpReassembly.EmitTagged | mcphawk/tcp_reassembly.py:346-359 | the standalone branch emits the extracted messages with the transport the tracker reports, and does not update the tracker |
| TcpReassembly.OnPayload | mcphawk/tcp_reassembly.py:293-414 | the five branches of `process_packet` for one payload, with the corrected extraction; every message emitted carries the packet's connection |
| TcpReassembly.OnPayloadDirection | mcphawk/tcp_reassembly.py:293-414 | the branches leave the stream the same and emit the same texts whichever connection they are told |
| TcpReassembly.ProcessPacket | mcphawk/tcp_reassembly.py:249-416 | corrected `process_packet`: non-TCP-data packets change nothing; only the packet's stream can change and is created when missing; every message carries the packet's connection |
| TcpReassembly.OnPayloadAsWritten | mcphawk/tcp_reassembly.py:293-414 | the same branches with `extract_sse_messages` as written; `None` when it never returns |
| TcpReassembly.ProcessPacketAsWritten | mcphawk/tcp_reassembly.py:249-416 | `process_packet` as written, with the same stream and connection guarantees whenever it returns |
| TcpReassembly.ProcessPacketAgrees | mcphawk/tcp_reassembly.py:249-416 | the two reassemblers differ only on packets that reach an SSE extraction |
| TcpReassembly.RequestsYieldNothing | mcphawk/tcp_reassembly.py:294-312 | a request emits nothing and records a transport it reveals for its connection |
| TcpReassembly.CatchAllSilent | mcphawk/tcp_reassembly.py:387-411 | the catch-all branch never emits: event streams are taken by the branch before it |
| TcpReassembly.EitherDirection | mcphawk/tcp_reassembly.py:281-291 | a packet leaves the streams the same, and emits the same texts, whichever way it travels |
| TcpReassembly.SseResponseDelivered | mcphawk/tcp_reassembly.py:315-340 | an event-stream response with its events in one packet emits the written messages in order as `sse_response` |
| TcpReassembly.FirstResponseScanned | mcphawk/tcp_reassembly.py:315-340 | both reassemblers return the written messages; as written they stay in the buffer, corrected they are dropped |
| TcpReassembly.ContinuationScanned | mcphawk/tcp_reassembly.py:362-385 | further events on an event stream holding `js0`: both return `js0` and then the new messages; as written the buffer keeps them all, corrected it keeps none |
| TcpReassembly.ResponseIsResponse | mcphawk/tcp_reassembly.py:294-315 | a written response is taken by the response branch, never by the request branch |
| TcpReassembly.NotHeadLike | mcphawk/tcp_reassembly.py:294-343 | written events that do not mention `jsonrpc` fall through to the branch for event streams |
| TcpReassembly.EventsScanned | mcphawk/tcp_reassembly.py:134-189 | a plain body of written events returns its messages through either extraction; as written the buffer stays, corrected it is emptied |
| TcpReassembly.ContinuationRedeliveredAsWritten | mcphawk/tcp_reassembly.py:362-385 | a response, then more events on the same connection: as written the second packet returns the first packet's messages again; corrected it returns only its own |
| WsReassembly.BigEndianRoundTrip | mcphawk/ws_reassembly.py:42-48 | `int.from_bytes(..., "big")` reads back every big-endian length that fits the width |
| WsReassembly.XorTwice | mcphawk/ws_reassembly.py:62 | exclusive or with the same key twice is the identity |
| WsReassembly.XorByte | mcphawk/ws_reassembly.py:62 | XOR of two bytes is a byte that XOR with the key turns back |
| WsReassembly.Unmask | mcphawk/ws_reassembly.py:56-62 | unmasking keeps the payload's length |
| WsReassembly.UnmaskInvolution | mcphawk/ws_reassembly.py:56-62 | unmasking twice with the same key gives the payload back |
| WsReassembly.ParseHeader | mcphawk/ws_reassembly.py:20-50 | when a header is read, the mask key or payload begins past the two base bytes and within the data |
| WsReassembly.FramePayload | mcphawk/ws_reassembly.py:52-69 | the payload is the body less the four key bytes when masked, and the body itself otherwise |
| WsReassembly.ParseHeaderExtend | mcphawk/ws_reassembly.py:23-49 | a complete header is unchanged by bytes appended after it |
| WsReassembly.ParseFrameAtExtend | mcphawk/ws_reassembly.py:20-69 | a complete frame stays complete, and identical, when more bytes follow it |
| WsReassembly.ParseFrameAt | mcphawk/ws_reassembly.py:20-69 | one loop turn: a complete frame ends within the buffer, past its header |
| WsReassembly.Consumed | mcphawk/ws_reassembly.py:20-87 | the consumed count never exceeds the buffer |
| WsReassembly.ConsumedStopsAtBoundary | mcphawk/ws_reassembly.py:20-87 | the loop stops on a frame boundary, in front of an incomplete frame |
| WsReassembly.ParseWsFrames | mcphawk/ws_reassembly.py:5-87 | `_parse_ws_frames`: the bytes consumed never exceed the buffer |
| WsReassembly.ParseWsFramesStopsAtBoundary | mcphawk/ws_reassembly.py:20-87 | what is not consumed begins with an incomplete frame |
| WsReassembly.ReadFramesAppend | mcphawk/ws_reassembly.py:20-87 | for any reader that looks only at its own frame, reading `data + more` yields the frames of `data`, then those of its unconsumed tail followed by `more` |
| WsReassembly.ParseWsFramesAppend | mcphawk/ws_reassembly.py:20-87 | parsing `data + more` equals parsing `data`, then the unconsumed tail followed by `more` |
| WsReassembly.EncodeFrameRoundTrip | mcphawk/ws_reassembly.py:20-69 | every frame encoded in the 7-, 16- or 64-bit length form, masked or not, is parsed back with its FIN bit, opcode and payload |
| WsReassembly.FrameThen | mcphawk/ws_reassembly.py:20-87 | a frame followed by any bytes yields the frame's part, then what those bytes yield |
| WsReassembly.FramePartText | mcphawk/ws_reassembly.py:71-85 | a text or continuation frame whose payload decodes contributes one part holding its FIN bit and text |
| WsReassembly.FrameNotUpgrade | mcphawk/ws_reassembly.py:115-117 | a text or continuation frame is never taken for an HTTP upgrade |
| WsReassembly.SingleTextFrame | mcphawk/ws_reassembly.py:5-87 | a lone text frame yields its decoded text as a final part and is consumed whole |
| WsReassembly.CombinePartsSpec | mcphawk/ws_reassembly.py:138-144 | one message per FIN part, spelling out the parts' text in order |
| WsReassembly.CombineFragments | mcphawk/ws_reassembly.py:138-144 | non-final parts followed by a final part join into one message equal to their concatenated text |
| WsReassembly.TwoFragmentsJoined | mcphawk/ws_reassembly.py:138-144 | a FIN=0 part and a FIN=1 part join into one message |
| WsReassembly.CombinePartsAppend | mcphawk/ws_reassembly.py:138-144 | joining two runs of parts is joining the first, then the second from the unfinished text the first leaves |
| WsReassembly.CombineDropsUnfinished | mcphawk/ws_reassembly.py:138-144 | a trailing unfinished part never yields a message |
| WsReassembly.JsonRpcOnly | mcphawk/ws_reassembly.py:147 | keeps exactly the messages containing `jsonrpc` |
| WsReassembly.JsonRpcOnlyAppend | mcphawk/ws_reassembly.py:147 | filtering two runs is filtering each in turn |
| WsReassembly.ProcessWsPacket | mcphawk/ws_reassembly.py:90-162 | an HTTP upgrade changes nothing and returns nothing; otherwise only the connection's buffer changes, to the unconsumed tail, or to empty past 1 MiB; the result is the messages completed by the FIN parts of the buffered bytes plus the packet, joined from the start of the buffer, in order, keeping those that contain `jsonrpc` |
| WsReassembly.TwoPacketsParseAsOne | mcphawk/ws_reassembly.py:121-135 | the frames of two packets, parsed over two calls, are the frames of their concatenation |
| WsReassembly.TwoPacketsAsOne | mcphawk/ws_reassembly.py:121-156 | two packets deliver exactly what their concatenation delivers in one call, when the first leaves no message unfinished and its kept tail stays under the cap |
| WsReassembly.PrefixIncomplete | mcphawk/ws_reassembly.py:20-69 | a strict prefix of an encoded frame is not a complete frame, so the loop stops before it |
| WsReassembly.PrefixNotUpgrade | mcphawk/ws_reassembly.py:115-117 | a non-empty prefix of a text or continuation frame is never taken for an HTTP upgrade |
| WsReassembly.FrameSplitAcrossPackets | mcphawk/ws_reassembly.py:121-156 | a text frame split over two segments: the first is buffered and returns nothing, the second returns the message and empties the buffer, unless the second segment itself begins like an HTTP upgrade |
| WsReassembly.DrainedPacket | mcphawk/ws_reassembly.py:121-156 | a packet entirely consumed by its frames, on an empty buffer, leaves the buffer empty and returns the JSON-RPC messages its parts complete |
| WsReassembly.FragmentsInOnePacket | mcphawk/ws_reassembly.py:90-162 | a message sent as a FIN=0 text frame and a FIN=1 continuation in one packet is delivered whole and the buffer emptied |
| WsReassembly.FragmentsAcrossPacketsLost | mcphawk/ws_reassembly.py:138-144 | the same frames in two packets: the first call returns nothing and the second only the final fragment, never the whole message |
| WsReassembly.EncodedFragmentsAcrossPacketsLost | mcphawk/ws_reassembly.py:138-144 | the lost message for frames in every encoding of RFC 6455 |
| WsReassembly.ProcessWsPacketCarrying | mcphawk/ws_reassembly.py:90-162 | the corrected call carries the unfinished message across calls and keeps the same byte buffers |
| WsReassembly.CarryingStep | mcphawk/ws_reassembly.py:121-156 | corrected, one call keeps the source's byte buffers, stores the unfinished text for the connection and returns the JSON-RPC messages joined from it |
| WsReassembly.DrainedPacketCarrying | mcphawk/ws_reassembly.py:121-156 | corrected, a packet consumed whole empties the buffer and carries its unfinished text |
| WsReassembly.CarryingTwoPacketsAsOne | mcphawk/ws_reassembly.py:90-162 | with the unfinished message carried, two packets deliver exactly what their concatenation delivers in one call |
| WsReassembly.FragmentsAcrossPacketsCarried | mcphawk/ws_reassembly.py:90-162 | corrected, the fragmented message across two packets is delivered whole |
| StdioCapture.Step | mcphawk/stdio_capture.py:77-99 | an escaped character is skipped; only an unescaped `{` or `}` outside a string moves the depth, by one |
| StdioCapture.ScanFrom | mcphawk/stdio_capture.py:77-99 | the loop, when it finds the end, finds it past where it started and within the text |
| StdioCapture.ScanFromFirstZero | mcphawk/stdio_capture.py:77-99 | started where the depth has been positive after every prefix, the loop stops exactly after the first prefix of depth zero, and finds nothing when there is none |
| StdioCapture.ObjectLength | mcphawk/stdio_capture.py:70-103 | the end found lies within the text and past the opening brace |
| StdioCapture.ObjectLengthBalanced | mcphawk/stdio_capture.py:70-103 | the end is found iff the text has a balanced prefix, and it is the shortest one |
| StdioCapture.BalancedFound | mcphawk/stdio_capture.py:70-103 | a balanced object at the front is found whatever follows it |
| StdioCapture.BalancedPrefixUnique | mcphawk/stdio_capture.py:70-103 | a text has at most one balanced prefix |
| StdioCapture.CompleteIsBalanced | mcphawk/stdio_capture.py:70-103 | for the brace counter, an object found whole whatever follows it is exactly a balanced object |
| StdioCapture.ObjectLengthScanner | mcphawk/stdio_capture.py:70-103 | the brace counter reports lengths within the text and finds every object whole |
| StdioCapture.CutOne | mcphawk/stdio_capture.py:64-108 | one turn breaks iff no `{` is left or the object from it is incomplete; otherwise skipped text, object and rest rebuild the buffer and the buffer shrinks |
| StdioCapture.CutOneWellCut | mcphawk/stdio_capture.py:67-107 | a turn cuts skipped text holding no `{`, then an object found whole |
| StdioCapture.CutOneOfPiece | mcphawk/stdio_capture.py:67-107 | a turn over skipped text and an object found whole cuts exactly them |
| StdioCapture.ExtractDecomposes | mcphawk/stdio_capture.py:64-108 | the extracted pieces and the rest give the buffer back, each piece is skipped text and a balanced object, and the rest is stuck |
| StdioCapture.ExtractUnique | mcphawk/stdio_capture.py:64-108 | every such decomposition is the one extraction finds |
| StdioCapture.ExtractResume | mcphawk/stdio_capture.py:55-108 | extracting from `x`, then from the leftover followed by `y`, finds what extracting from `x + y` finds |
| StdioCapture.JsonRpcObject | mcphawk/stdio_capture.py:110-111 | a parsed value is kept iff it is an object whose `jsonrpc` is `"2.0"` |
| StdioCapture.Forward | mcphawk/stdio_capture.py:109-115 | of the objects cut out, at most as many are passed on, and every one passed on is JSON-RPC 2.0 |
| StdioCapture.ForwardAppend | mcphawk/stdio_capture.py:65-115 | the objects of two runs are forwarded as those of the first, then those of the second |
| StdioCapture.ForwardSingle | mcphawk/stdio_capture.py:110-115 | an extracted object is forwarded iff it is JSON-RPC 2.0 |
| StdioCapture.MonitorLineStuck | mcphawk/stdio_capture.py:57-108 | between two lines the buffer never holds a complete object |
| StdioCapture.MonitorLinesWhole | mcphawk/stdio_capture.py:55-115 | however the output is cut into lines, the JSON-RPC 2.0 objects of the whole text are forwarded in order and the rest after the last object is kept |
| StdioCapture.PlainObjectForwarded | mcphawk/stdio_capture.py:55-115 | a line holding one plain JSON-RPC object is forwarded whole and nothing is left over |
| StdioCapture.DirectionOf | mcphawk/stdio_capture.py:127-133 | outgoing iff the message has a `method`, incoming otherwise |
| StdioCapture.DirectionAgreesWithType | mcphawk/stdio_capture.py:127-133 | requests and notifications go out; responses and errors come in unless they also carry a `method` |
| StdioCapture.EntryFor | mcphawk/stdio_capture.py:127-146 | the entry has address `stdio` on both sides, no ports, transport `stdio`, the process id, the stream name, and the direction rule |
| StdioCapture.LineMessage | mcphawk/stdio_capture.py:236-247 | a message kept from a line comes from a stretch of it that parses to a JSON-RPC 2.0 object, and the line holds `{"jsonrpc"` |
| StdioCapture.LineMessageOfObject | mcphawk/stdio_capture.py:236-245 | a line that is one object starting with `{"jsonrpc"` is read from its first to its last character |
| StdioCapture.Write | mcphawk/stdio_capture.py:222-249 | the wrapped write's result is returned; without the `{"jsonrpc"`/`}` test the data is only buffered; after a scan the buffer holds no newline and ends the text written |
| StdioCapture.WriteLossless | mcphawk/stdio_capture.py:229-236 | when a scan happens, old buffer plus data equal the scanned lines, each with its newline, then the new buffer |
| StdioCapture.LastLineKept | mcphawk/stdio_capture.py:232-233 | the line kept holds no newline and ends the text |
| StdioCapture.WriteForwardsLine | mcphawk/stdio_capture.py:222-249 | a complete JSON-RPC 2.0 line written in one call is forwarded once and leaves the buffer empty |
| ServerName.LineTail | mcphawk/stdio_server_detector_fallback.py:74 | what `(.+)$` captures: `.` stops at a line feed and `$` may match before a final line feed |
| ServerName.LineTailOf | mcphawk/stdio_server_detector_fallback.py:74 | a non-empty line is captured whole, with or without its final line feed |
| ServerName.AfterPrefix | mcphawk/stdio_server_detector_fallback.py:74 | a match of `^PAT(.+)$` fits the pattern at the front and captures the rest of the line |
| ServerName.BeforeSuffix | mcphawk/stdio_server_detector_fallback.py:82 | a match of `^(.+?)PAT$` captures a non-empty head on one line, followed by the pattern at the end or before a final line feed |
| ServerName.SplitWords | mcphawk/stdio_server_detector_fallback.py:78 | `re.split(r'[-_]', s)` gives at least one piece, and no piece holds a separator |
| ServerName.Formatted | mcphawk/stdio_server_detector_fallback.py:110-117 | pattern 5's words are no more than the pieces, and none is empty |
| ServerName.ExtractServerName | mcphawk/stdio_server_detector_fallback.py:60-119 | the five patterns in order; every name returned is non-empty |
| ServerName.NameMentionsMcp | mcphawk/stdio_server_detector_fallback.py:60-119 | every name that comes out comes from a text mentioning `mcp` |
| ServerName.ServerOnlyNamesNothing | mcphawk/stdio_server_detector_fallback.py:88-94 | `mcp-server`, in any case and with either separator, names nothing |
| ServerName.NothingNamedMeansServerOnly | mcphawk/stdio_server_detector_fallback.py:60-119 | a text mentioning `mcp` that names nothing is `mcp-server` |
| ServerName.FormattedKeepsMcp | mcphawk/stdio_server_detector_fallback.py:105-117 | a text mentioning `mcp` keeps at least one word under pattern 5 |
| ServerName.ExtractNoneIff | mcphawk/stdio_server_detector_fallback.py:60-119 | no name iff the text does not mention `mcp` in any case, or is `mcp-server` itself |
| ServerName.McpServerAloneNamesNothing | mcphawk/stdio_server_detector_fallback.py:88-94 | `mcp-server` names nothing |
| ServerName.SplitJoin | mcphawk/stdio_server_detector_fallback.py:78 | words joined with one separator split back into the same words |
| ServerName.McpServerPrefixNames | mcphawk/stdio_server_detector_fallback.py:73-79 | `mcp-server-WORDS` is named `MCP Words Server` |
| ServerName.McpServerPrefixApplies | mcphawk/stdio_server_detector_fallback.py:73-79 | pattern 1 applies to `mcp-server-` followed by one line |
| ServerName.McpServerSuffixNames | mcphawk/stdio_server_detector_fallback.py:81-86 | `WORDS-mcp-server` is named `Words MCP Server`, unless pattern 1 applies first |
| ServerName.McpServerSuffixApplies | mcphawk/stdio_server_detector_fallback.py:81-86 | pattern 2 applies to one line ending in `-mcp-server` once pattern 1 is ruled out |
| ServerName.McpPrefixNames | mcphawk/stdio_server_detector_fallback.py:88-96 | `mcp-WORDS` is named `MCP Words`, unless the words begin or end with `server` |
| ServerName.McpPrefixApplies | mcphawk/stdio_server_detector_fallback.py:88-96 | pattern 3 applies to `mcp-` and one line other than `server` once patterns 1 and 2 are ruled out |
| ServerName.McpSuffixNames | mcphawk/stdio_server_detector_fallback.py:98-103 | `WORDS-mcp` is named `Words MCP`, unless the text begins with `mcp` |
| ServerName.McpSuffixApplies | mcphawk/stdio_server_detector_fallback.py:98-103 | pattern 4 applies to one line ending in `-mcp` once patterns 1 and 3 are ruled out |
| ServerName.PathName | mcphawk/stdio_server_detector_fallback.py:25 | `Path(p).name`: the last component, holding no `/` |
| ServerName.PathNameOf | mcphawk/stdio_server_detector_fallback.py:25 | the name after the last `/` is the path's name |
| ServerName.Stem | mcphawk/stdio_server_detector_fallback.py:26 | `Path(name).stem` is a prefix of the name |
| ServerName.StemOf | mcphawk/stdio_server_detector_fallback.py:26 | the stem of `n.ext` is `n` |
| ServerName.FirstNamed | mcphawk/stdio_server_detector_fallback.py:31-55 | a name is found iff some candidate passes `if name:`, and it is non-empty |
| ServerName.FirstNamedAt | mcphawk/stdio_server_detector_fallback.py:31-55 | the first candidate that names something is the one taken |
| ServerName.DetectServerFromCommand | mcphawk/stdio_server_detector_fallback.py:8-57 | no command gives `None`; a detection is `{name, version: "unknown"}` with a non-empty name |
| ServerName.ModuleFlagNames | mcphawk/stdio_server_detector_fallback.py:29-42 | under `python`, the first naming `-m` decides, and `-m mcphawk mcp` is the query server |
| ServerName.ExecutableNames | mcphawk/stdio_server_detector_fallback.py:44-47 | without a naming `-m`, the executable's stem is tried next |
| ServerName.ScriptNames | mcphawk/stdio_server_detector_fallback.py:49-55 | failing both, the first `.py` argument whose stem names a server decides |
| ServerName.DetectNoneIff | mcphawk/stdio_server_detector_fallback.py:8-57 | nothing is detected iff no source of a name names anything |
| ServerName.MergeServerInfo | mcphawk/stdio_server_detector_fallback.py:122-140 | truthy protocol information wins; otherwise the detected information is returned |
| ServerName.MergeSettles | mcphawk/stdio_server_detector_fallback.py:122-140 | merging again changes nothing, and detected information is never lost to missing protocol information |
| Tallies.Bump | mcphawk/web/metrics.py:190 | `counter[k] += 1` keeps the entry count or adds one entry and raises the total by one |
| Tallies.BumpCount | mcphawk/web/metrics.py:190 | bumping adds one to the bumped key's count and nothing to the others |
| Tallies.BumpKeySet | mcphawk/web/metrics.py:190 | bumping adds the bumped key to the key set and no other |
| Tallies.BumpDistinct | mcphawk/web/metrics.py:190 | bumping keeps one entry per key |
| Tallies.BumpPositive | mcphawk/web/metrics.py:190 | bumping keeps every count positive |
| Tallies.Count | mcphawk/web/metrics.py:184-192 | the counter built from a key list has distinct keys and positive counts |
| Tallies.CountCounts | mcphawk/web/metrics.py:184-192 | each key's count is its number of occurrences, the keys are exactly those seen, and the counts add up to the number of keys |
| Tallies.DistinctCard | mcphawk/web/metrics.py:202 | `len(counter)` is the number of different keys |
| Tallies.EntryCount | mcphawk/web/metrics.py:199-200 | with one entry per key, a listed entry's count is its key's count |
| Tallies.KeyAbsent | mcphawk/web/metrics.py:190 | a key never counted reads zero |
| Tallies.KeyEntry | mcphawk/web/metrics.py:340-345 | with one entry per key, every counted key is listed with its count |
| Tallies.Insert | mcphawk/web/metrics.py:195 | inserting an entry into the sorted list adds exactly that entry |
| Tallies.InsertSorted | mcphawk/web/metrics.py:195 | inserting into a list in non-increasing count order keeps that order |
| Tallies.SortDesc | mcphawk/web/metrics.py:195 | the sort by count yields a permutation of the counter in non-increasing count order |
| Tallies.TakeSplits | mcphawk/web/metrics.py:195 | cutting a list in non-increasing count order leaves nothing after the cut with a larger count than an entry before it |
| Tallies.MostCommon | mcphawk/web/metrics.py:195 | `most_common(n)`: nothing for `n <= 0`, else `min(n, len)` entries drawn from the counter in non-increasing order, none of them beaten by an entry left out |
| Metrics.PyMod | mcphawk/web/metrics.py:89 | Python's `%`: with a positive divisor the result lies in `[0, b)` and `a == b * (a / b) + r`; with a negative one it lies in `(b, 0]` |
| Metrics.BucketWithinHour | mcphawk/web/metrics.py:86-89 | a positive interval puts the row in a bucket of its own hour, starting at a multiple of the interval and covering the row's minute; a negative one moves the row forward |
| Metrics.BucketIsLatestStart | mcphawk/web/metrics.py:86-89 | the bucket is the latest interval-aligned minute of the hour that is not after the row's minute |
| Metrics.BucketSettles | mcphawk/web/metrics.py:86-89 | a bucket's own start falls in the same bucket |
| Metrics.ErrorResponseCountedTwice | mcphawk/web/metrics.py:91-108 | an error response adds two errors in both the timeseries and the error timeline, once for its kind and once for its `error` key |
| Metrics.LookupAbsent | mcphawk/web/metrics.py:78-83 | a bucket never touched reads as all zeros, as the `defaultdict` gives |
| Metrics.AddAtStarts | mcphawk/web/metrics.py:94-106 | adding to a bucket creates that bucket and no other |
| Metrics.AddAtIncreasing | mcphawk/web/metrics.py:112 | adding to a bucket keeps the buckets in increasing order |
| Metrics.AddAtTouched | mcphawk/web/metrics.py:94-106 | adding a non-zero delta keeps every bucket non-zero |
| Metrics.AddAtSum | mcphawk/web/metrics.py:94-106 | adding a delta anywhere adds it to the column sums |
| Metrics.LookupPresent | mcphawk/web/metrics.py:112-116 | in an ordered table of touched buckets, a bucket is listed iff it reads non-zero |
| Metrics.AddAtLookup | mcphawk/web/metrics.py:94-106 | adding to one bucket adds to that bucket and to no other |
| Metrics.AccumulateShape | mcphawk/web/metrics.py:85-115 | the bucket table is in increasing bucket order and holds only touched buckets |
| Metrics.AccumulateLookup | mcphawk/web/metrics.py:85-115 | each bucket holds exactly the sum of what the rows falling in it add |
| Metrics.AccumulateSum | mcphawk/web/metrics.py:85-115 | the buckets together hold what all the rows add |
| Metrics.BucketPresent | mcphawk/web/metrics.py:85-115 | a bucket is listed iff its rows add something to it |
| Metrics.Timeseries | mcphawk/web/metrics.py:85-115 | `get_timeseries_metrics` after its query: raises iff the interval is 0 and there is a row; otherwise the bucket table of the traffic counts |
| Metrics.TimeseriesIgnoresInterval | mcphawk/web/metrics.py:85-115 | every row lands in one bucket, so the column sums do not depend on the interval |
| Metrics.ErrorTimeline | mcphawk/web/metrics.py:539-573 | `get_error_timeline` after its query: raises iff the interval is 0 and there is a row; otherwise the bucket table of errors and totals |
| Metrics.ErrorTimelineCountsRows | mcphawk/web/metrics.py:542-548 | the totals of the error timeline add up to the number of rows |
| Metrics.RowsTotal | mcphawk/web/metrics.py:548 | every row adds one to the error timeline's totals |
| Metrics.TypeDistributionOf | mcphawk/web/metrics.py:322-351 | the total is the counter's sum, the counter has distinct kinds with positive counts, and the error count is at most the number of rows |
| Metrics.TypeDistributionCounts | mcphawk/web/metrics.py:322-351 | each kind is counted once per row of that kind, the total is the number of rows, and no rows give no entries |
| Metrics.TransportLabel | mcphawk/web/metrics.py:254 | a transport reads `unknown` iff it is missing, empty or `unknown` itself |
| Metrics.TransportDistributionOf | mcphawk/web/metrics.py:250-269 | one entry per group, in query order, pairing the group's label with its count |
| Metrics.TransportTotalListed | mcphawk/web/metrics.py:250-269 | the total is the sum of the listed counts |
| Metrics.TransportTotalSplits | mcphawk/web/metrics.py:250-269 | splitting the groups splits the total; no groups give zero |
| Metrics.MethodKey | mcphawk/web/metrics.py:186-192 | a row counts a method only when its message parses to a JSON object |
| Metrics.MethodFrequencyOf | mcphawk/web/metrics.py:184-203 | `min(max(limit, 0), unique)` entries, in non-increasing count order |
| Metrics.MethodFrequencyCounts | mcphawk/web/metrics.py:184-203 | each listed method carries the number of rows naming it; no unlisted method was named more often than a listed one; `total_unique_methods` is the number of distinct methods |
| Performance.AppendToSamples | mcphawk/web/metrics.py:429 | `method_response_times[method].append(x)` adds exactly one latency across the groups |
| Performance.AppendToNonEmpty | mcphawk/web/metrics.py:429 | appending never leaves an empty group |
| Performance.Step | mcphawk/web/metrics.py:411-432 | one row adds at most one latency and at most one pending request, and keeps the latencies already recorded |
| Performance.StepPendingGrowth | mcphawk/web/metrics.py:417-420 | a row can make one more request pending only when it is a request with a hashable id |
| Performance.PendingBound | mcphawk/web/metrics.py:407-432 | never more requests are pending than requests were seen |
| Performance.ReplyMatches | mcphawk/web/metrics.py:423-430 | a reply to a pending request adds its latency to the list and to its method's group and removes the request |
| Performance.UnhashableMethodStaysPending | mcphawk/web/metrics.py:426-430 | when the pending method is unhashable the latency is recorded but the request stays pending, so later replies with its id match it again |
| Performance.RunNonEmpty | mcphawk/web/metrics.py:429 | every method group holds a latency, so the `n > 0` guard never skips one |
| Performance.RunGrouped | mcphawk/web/metrics.py:407-432 | with hashable methods the per-method groups hold exactly the recorded latencies |
| Performance.OrderedLatencies | mcphawk/web/metrics.py:401-427 | with rows in timestamp order no latency is negative |
| Performance.SortAsc | mcphawk/web/metrics.py:435 | `list.sort()` yields the same latencies in ascending order |
| Performance.InsertAscSorted | mcphawk/web/metrics.py:435 | inserting into an ascending list keeps it ascending |
| Performance.SortAscMembers | mcphawk/web/metrics.py:435-446 | the sorted list holds only latencies, starts at the least and ends at the greatest |
| Performance.PercentilesOf | mcphawk/web/metrics.py:435-448 | no table iff there are no latencies; every index is in range; `min <= p50 <= p90 <= p95 <= p99 <= max`; each value is a latency; min and max bound all |
| Performance.StatOf | mcphawk/web/metrics.py:452-462 | a method's entry names the method and counts its latencies; `p50 <= p95` and both are among its latencies |
| Performance.StatP95 | mcphawk/web/metrics.py:461 | the `n > 1` guard and the `n - 1` cap never change `p95` |
| Performance.MethodStats | mcphawk/web/metrics.py:451-462 | one entry per method group, in first-seen order, naming the method and counting its latencies |
| Performance.Histogram | mcphawk/web/metrics.py:468-480 | ten range counts, or none without latencies |
| Performance.HistogramTotal | mcphawk/web/metrics.py:470-474 | each non-negative latency lands in exactly one range, so the counts add up to the number of latencies |
| Performance.NegativeInNoRange | mcphawk/web/metrics.py:470-474 | a negative latency lands in no range |
| Performance.PerformanceOf | mcphawk/web/metrics.py:406-490 | `total_requests` is the number of latencies; pending requests never outnumber requests; percentiles are absent iff there are no latencies; the histogram has ten ranges when there are latencies |
| Performance.HistogramCountsAll | mcphawk/web/metrics.py:468-485 | with rows in timestamp order the histogram counts every matched request |
| Seqs.Find | mcphawk/tcp_reassembly.py:204 | `find` gives -1 iff the pattern does not occur, and otherwise the position of its first occurrence |
| Seqs.FindFirst | mcphawk/tcp_reassembly.py:204 | an occurrence with none before it is the one `find` reports |
| Seqs.FindInPrefix | mcphawk/tcp_reassembly.py:99 | an occurrence already in the buffer stays the first one when more bytes arrive |
| Seqs.PyIndex | mcphawk/tcp_reassembly.py:231-234 | a slice bound counts from the end when negative and is clamped to the sequence |
| Seqs.PyFrom | mcphawk/tcp_reassembly.py:234 | `s[i:]` is a suffix of `s`: the plain suffix for an in-range `i`, empty past the end |
| Seqs.IndexOf | mcphawk/stdio_capture.py:67 | `find('{')` gives -1 iff there is no `{`, and otherwise the position of the first one |
| Seqs.LastIndexOf | mcphawk/stdio_capture.py:240 | `rfind` gives -1 iff the element is absent, and otherwise the position of the last one |
| Seqs.Capitalize | mcphawk/stdio_server_detector_fallback.py:79 | `capitalize()` keeps the length, upper-cases the first letter and lower-cases the rest |
| Seqs.LexLessAsymmetric | mcphawk/tcp_reassembly.py:23 | string `<` never holds both ways |
| Seqs.LexLessTotal | mcphawk/tcp_reassembly.py:23 | of two different strings one is less than the other |
| Seqs.SplitPartsFree | mcphawk/transport_detector.py:105 | no piece produced by `split` contains the separator |
| Seqs.JoinSplit | mcphawk/transport_detector.py:105 | `sep.join(s.split(sep)) == s` |
| Seqs.StripSpec | mcphawk/transport_detector.py:105 | `strip()` leaves no white space at either end and is empty iff the input is all white space |
| Seqs.StripIdempotent | mcphawk/tcp_reassembly.py:184 | stripping twice is stripping once |
| Json.PyIn | mcphawk/web/metrics.py:105 | Python's `"error" in v` is the key test on a dict, and raises `TypeError` exactly on `None`, booleans and numbers |
| Json.KeyOf | mcphawk/web/metrics.py:190 | a JSON value is a dictionary key iff it is not a list or a dict |

## Left out

- Packet capture, the sniffer, the CLI, the web server, the WebSocket broadcaster, the MCP query server, the database and `logger.py` are outside the core. `log_message` and the broadcast calls in `_process_jsonrpc_message` become the returned entry.
- The SQL queries of `mcphawk/web/metrics.py` are not modelled. Each aggregation takes the rows the query returns, in the query's order. The time range and the `transport_type`/`server_name` filters are not modelled either.
- Logging and the debug branches for port 8765 do not change any result, so they are dropped.
- HttpStream.AddRequest: the `except Exception` around the request parsing is not modelled, because no step of it can raise on character data.
- Threads, `subprocess`, signal handling, `StdioWrapper` and `run_with_stdio_capture` are left out. The monitor thread's loop over a stream is `StdioCapture.MonitorLines` over a sequence of lines.
- `HTTPStream.pending_request`, `pending_response` and `content_length` are stored but never read by the core, so they are not kept. A content length that `int()` rejects is kept as the `ValueError` it raises.
- `TCPStreamReassembler.cleanup_old_streams` has an empty body in the source, so it has nothing to model.
- HttpStream.AddRequest: HTTP bytes are characters, and `.decode('utf-8', errors='ignore')` is the identity. Invalid UTF-8 is therefore not dropped as the source drops it. The same holds for `HttpStream.AddResponseData`, `Sse` and `Chunked`; it is exact for ASCII traffic.
- Seqs.Lower: lower-cases ASCII letters only, while Python's `str.lower()` covers all of Unicode. Header names, the `Accept` value and the server-name patterns are compared through it. The same goes for `Seqs.Capitalize` and for the `re.IGNORECASE` matching in `ServerName`.
- PyInt.ParseInt: accepts ASCII digits only, while Python's `int()` also accepts other Unicode decimal digits.
- Json.Truthy: JSON numbers are integers only, so a fractional value is not represented. Truthiness, hashing and `in` are the same for the integer values kept.
- WsReassembly.ProcessWsPacket: the source's `except Exception` branch (clear the buffer, return nothing) is not modelled. No operation in the `try` can raise on the modelled inputs: decoding failures are caught inside `_parse_ws_frames`.
- Metrics.Timeseries: timestamps are integer milliseconds from an hour-aligned epoch instead of ISO strings parsed by `datetime.fromisoformat`. Bucket keys are minute counts, and the ISO formatting of the output is left out.
- Performance.PerformanceOf: latencies are whole milliseconds, so sub-millisecond precision is dropped. The `avg` fields, the percentages and `error_rate` are floating point and are not modelled. The sort of `method_stats` by average latency and the cut to ten are not modelled either, so the per-method statistics are listed in first-seen order.
- Performance.PercentilesOf: `int(n * 0.5)`, `int(n * 0.9)`, `int(n * 0.95)` and `int(n * 0.99)` are written as the integer floors `n / 2`, `9n / 10`, `19n / 20` and `99n / 100`. Floating-point rounding is not modelled.
- Metrics.Timeseries: the web route only accepts intervals from 1 to 60. The function itself accepts any integer, and the model follows the function: a zero interval raises `ZeroDivisionError`, and a negative one follows Python's `%`.
- Metrics.TypeOf: the metrics functions classify rows with the corrected `Utils.GetMessageType`. As written, `get_message_type` is called outside any `try` at `mcphawk/web/metrics.py:91`, `326` and `559`, so a batch row would make the whole endpoint raise (see Findings).
- Tallies.MostCommon: entries with equal counts keep first-seen order, as `Counter.most_common` does. No lemma states that tie order; the contract states the count order, the cut and that no entry left out beats one listed.
- ServerName.ExtractServerName: `isinstance(text, str)` always holds for the string inputs modelled.
- ServerName.PathName: POSIX paths only; Windows drive letters and backslashes are not modelled.

## Findings

| source | as written | input that shows it | evidently intended | confidence | as-written member | corrected member |
|---|---|---|---|---|---|---|
| mcphawk/tcp_reassembly.py:225-229 | a chunk still arriving after complete chunks restores the original buffer but still returns the complete chunks' data | buffer `1\r\na\r\n5\r\nab`: returns `a` and keeps the whole buffer, so `a` is returned again on the next call | keep the buffer after the chunks already returned | not executed; high | Chunked.PartlyArrivedRedelivered, HttpStream.PartialChunkKeptWhole | Chunked.ExtractChunkedData, HttpStream.PartialChunkTail |
| mcphawk/tcp_reassembly.py:209-234 | `int(size, 16)` accepts a negative size; then `chunk_end` is 0 and the buffer is never shortened | buffer `-6\r\n`: the loop never returns | reject a negative size like any malformed size line | not executed; high | Chunked.NegativeSizeNeverReturns, HttpStream.NegativeSizeStalls | Chunked.ReadChunk, Chunked.ExtractChunkedData |
| mcphawk/utils.py:28 | `parsed.get` is called on any truthy parse result | a JSON-RPC batch `[{"jsonrpc":"2.0","method":"ping","id":1}]` raises `AttributeError` | classify anything that is not an object as `unknown` | not executed; high | Utils.GetMessageTypeAsWritten, Utils.BatchMessageRaises | Utils.GetMessageType, Utils.GetMessageTypeAgrees |
| mcphawk/tcp_reassembly.py:142 | a non-chunked event-stream buffer is scanned from its start and never consumed | response with `data: {A}` then a packet `data: {B}`: the second packet returns A again, then B | remove scanned events from the buffer | not executed; high | HttpStream.NonChunkedRedeliveredAsWritten, TcpReassembly.ContinuationRedeliveredAsWritten | HttpStream.NonChunkedDeliveredOnce, HttpStream.NonChunkedExactlyOnce |
| mcphawk/tcp_reassembly.py:146-171 | decoded chunk text after the last complete event is dropped | a chunk holding `data: {A}\n` then a chunk holding `\n`: A is never returned | keep the incomplete event text for the next call | not executed; high | HttpStream.ChunkSplitEventLostAsWritten | HttpStream.ChunkSplitEventDelivered, HttpStream.ChunkedExactlyOnce |
| mcphawk/ws_reassembly.py:138-144 | the unfinished message `current` is local to one call, while the FIN=0 frame's bytes are consumed | a FIN=0 text frame in one packet and its FIN=1 continuation in the next: only the final fragment is returned | carry the unfinished message per connection, as the per-connection buffers suggest | not executed; medium | WsReassembly.FragmentsAcrossPacketsLost, WsReassembly.EncodedFragmentsAcrossPacketsLost | WsReassembly.ProcessWsPacketCarrying, WsReassembly.FragmentsAcrossPacketsCarried |
