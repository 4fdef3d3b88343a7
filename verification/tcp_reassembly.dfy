/** The reassembler of `mcphawk/tcp_reassembly.py`: one HTTP stream per TCP
    connection, whichever way a packet travels, and the messages that each
    packet completes. */
module TcpReassembly {
  import opened Wrappers
  import opened Json
  import Seqs
  import opened Net
  import opened Transport
  import opened HttpStream
  import HttpHeaders
  import Sse

  // ---------------------------------------------------------------------
  // Stream keys

  /** Python's `(ip, port) < (ip', port')`: addresses compared as text
      first, then ports. */
  predicate EndpointLess(x: Endpoint, y: Endpoint) {
    Seqs.LexLess(x.ip, y.ip) || (x.ip == y.ip && x.port < y.port)
  }

  lemma EndpointLessAsymmetric(x: Endpoint, y: Endpoint)
    ensures EndpointLess(x, y) ==> !EndpointLess(y, x)
  {
    Seqs.LexLessAsymmetric(x.ip, y.ip);
    Seqs.LexLessAsymmetric(y.ip, x.ip);
  }

  lemma EndpointLessTotal(x: Endpoint, y: Endpoint)
    ensures x == y || EndpointLess(x, y) || EndpointLess(y, x)
  {
    Seqs.LexLessTotal(x.ip, y.ip);
  }

  /** `StreamKey`: the connection with its lower endpoint first. */
  function StreamKeyOf(c: ConnKey): ConnKey {
    if EndpointLess(c.Src(), c.Dst()) then c else c.Reverse()
  }

  /** The key is the connection, one way round or the other, and its first
      endpoint is never the greater. */
  lemma StreamKeyOrdered(c: ConnKey)
    ensures StreamKeyOf(c) == c || StreamKeyOf(c) == c.Reverse()
    ensures !EndpointLess(StreamKeyOf(c).Dst(), StreamKeyOf(c).Src())
  {
    EndpointLessAsymmetric(c.Src(), c.Dst());
  }

  /** Both directions of a connection have the same key. */
  lemma StreamKeySymmetric(c: ConnKey)
    ensures StreamKeyOf(c.Reverse()) == StreamKeyOf(c)
  {
    EndpointLessAsymmetric(c.Src(), c.Dst());
    EndpointLessTotal(c.Src(), c.Dst());
    c.ReverseTwice();
  }

  /** Two packets share a stream exactly when they travel on the same
      connection, in either direction. */
  lemma SameStreamIff(a: ConnKey, b: ConnKey)
    ensures StreamKeyOf(a) == StreamKeyOf(b) <==> a == b || a == b.Reverse()
  {
    StreamKeySymmetric(b);
    StreamKeyOrdered(a);
    StreamKeyOrdered(b);
    a.ReverseTwice();
    b.ReverseTwice();
  }

  // ---------------------------------------------------------------------
  // The reassembler

  /** The `type` of an emitted message. */
  datatype Kind = SseResponse | SseData | SseContinuation

  /** One emitted message: the packet's connection, the JSON text, its kind
      and the transport's value when the branch gives one. */
  datatype Message = Message(conn: ConnKey, message: string, kind: Kind, transport: Option<McpTransport>)

  datatype Reassembler = Reassembler(streams: map<ConnKey, Stream>, tracker: Tracker)

  /** `TCPStreamReassembler()`. */
  const NewReassembler: Reassembler := Reassembler(map[], EmptyTracker)

  /** A captured packet: anything that is not TCP with a payload over IPv4
      or IPv6, or the connection it travels on and its payload. */
  datatype Packet = NotTcpData | TcpData(conn: ConnKey, payload: string)

  predicate IsRequest(payload: string) {
    Seqs.StartsWith(payload, "POST ") || Seqs.StartsWith(payload, "GET ")
  }

  predicate IsResponse(payload: string) {
    Seqs.StartsWith(payload, "HTTP/1.")
  }

  predicate IsSseData(payload: string) {
    Seqs.StartsWith(payload, "data: ") && Seqs.Contains(payload, "jsonrpc")
  }

  /** The messages of one extraction, each tagged alike. */
  function Tag(conn: ConnKey, ms: seq<string>, kind: Kind, transport: Option<McpTransport>): (r: seq<Message>)
    ensures |r| == |ms|
    ensures forall i :: 0 <= i < |ms| ==> r[i] == Message(conn, ms[i], kind, transport)
  {
    seq(|ms|, i requires 0 <= i < |ms| => Message(conn, ms[i], kind, transport))
  }

  /** The tracker updated once per message, as the emitting loops do. */
  function UpdateEach(t: Tracker, conn: ConnKey, transport: McpTransport, n: nat): Tracker
    decreases n
  {
    if n == 0 then t
    else
      var t1 := if transport != Unknown then UpdateTransport(t, conn, transport) else t;
      UpdateEach(t1, conn, transport, n - 1)
  }

  /** Updating once per message is updating once, when there is a message. */
  lemma {:induction false} UpdateEachOnce(t: Tracker, conn: ConnKey, transport: McpTransport, n: nat)
    ensures UpdateEach(t, conn, transport, n) == if n > 0 then UpdateTransport(t, conn, transport) else t
    decreases n
  {
    if n > 0 {
      var t1 := UpdateTransport(t, conn, transport);
      UpdateEachOnce(t1, conn, transport, n - 1);
      UpdateIdempotent(t, conn, transport);
    }
  }

  /** Every message emitted carries the packet's connection. */
  predicate OnConn(o: Outcome<seq<Message>>, conn: ConnKey) {
    o.Returns? ==> forall i :: 0 <= i < |o.value| ==> o.value[i].conn == conn
  }

  /** What one packet does to its stream and to the tracker, and what it
      emits or raises. */
  datatype Step = Step(stream: Stream, tracker: Tracker, outcome: Outcome<seq<Message>>)

  /** Emitting the messages of an extraction; the tracker learns the
      stream's transport once per message. */
  function Emit(t: Tracker, conn: ConnKey, e: Effect<Stream, seq<string>>, kind: Kind): (r: Step)
    ensures r.stream == e.state
    ensures e.outcome.Raises? ==> r == Step(e.state, t, Raises(e.outcome.exception))
    ensures e.outcome.Returns? ==>
              && r.outcome == Returns(Tag(conn, e.outcome.value, kind, Some(e.state.detected)))
              && r.tracker == (if |e.outcome.value| > 0 then UpdateTransport(t, conn, e.state.detected) else t)
    ensures OnConn(r.outcome, conn)
  {
    match e.outcome
    case Raises(x) => Step(e.state, t, Raises(x))
    case Returns(ms) =>
      UpdateEachOnce(t, conn, e.state.detected, |ms|);
      Step(e.state, UpdateEach(t, conn, e.state.detected, |ms|), Returns(Tag(conn, ms, kind, Some(e.state.detected))))
  }

  /** Emitting the messages of an extraction with a fixed transport tag and
      no tracker update. */
  function EmitTagged(t: Tracker, conn: ConnKey, e: Effect<Stream, seq<string>>, kind: Kind,
                      transport: Option<McpTransport>): (r: Step)
    ensures r.stream == e.state && r.tracker == t
    ensures e.outcome.Raises? ==> r.outcome == Raises(e.outcome.exception)
    ensures e.outcome.Returns? ==> r.outcome == Returns(Tag(conn, e.outcome.value, kind, transport))
    ensures OnConn(r.outcome, conn)
  {
    match e.outcome
    case Raises(x) => Step(e.state, t, Raises(x))
    case Returns(ms) => Step(e.state, t, Returns(Tag(conn, ms, kind, transport)))
  }

  /** The branches of `process_packet` for a payload on the stream `st`. */
  function OnPayload(t: Tracker, conn: ConnKey, st: Stream, payload: string, parse: Parser): (r: Step)
    ensures OnConn(r.outcome, conn)
  {
    if IsRequest(payload) then
      var s1 := AddRequest(st, payload);
      Step(s1, if s1.detected != Unknown then UpdateTransport(t, conn, s1.detected) else t, Returns([]))
    else if IsResponse(payload) then
      var a := AddResponseData(st, payload);
      if a.outcome.Raises? then Step(a.state, t, Raises(a.outcome.exception))
      else if !a.state.isSse then Step(a.state, t, Returns([]))
      else Emit(t, conn, ExtractSseMessages(a.state, parse), SseResponse)
    else if IsSseData(payload) then
      EmitTagged(t, conn, ExtractSseMessages(st.(buffer := payload), parse), SseData, Some(GetTransport(t, conn)))
    else if st.responseHeaders.Some? && st.isSse && |payload| > 0 then
      Emit(t, conn, ExtractSseMessages(AddResponseData(st, payload).state, parse), SseContinuation)
    else if |payload| > 0 && st.responseHeaders.Some? then
      var s1 := AddResponseData(st, payload).state;
      if s1.isSse then EmitTagged(t, conn, ExtractSseMessages(s1, parse), SseContinuation, None)
      else Step(s1, t, Returns([]))
    else Step(st, t, Returns([]))
  }

  /** The stream a connection's packet works on: the stored one, or a new
      one. */
  function StreamFor(r: Reassembler, key: ConnKey): Stream {
    if key in r.streams then r.streams[key] else NewStream
  }

  /** `process_packet`. Only TCP packets with a payload over IP count; their
      stream is created when missing, then the payload is read as a request,
      a response, a standalone event, data on an event stream, or other data
      on a stream whose head is read. An exception from reading a content
      length or an endpoint event escapes after the stream was stored. */
  function ProcessPacket(r: Reassembler, p: Packet, parse: Parser): (out: Effect<Reassembler, seq<Message>>)
    ensures p.NotTcpData? ==> out == Effect(r, Returns([]))
    ensures p.TcpData? ==>
              var key := StreamKeyOf(p.conn);
              && out.state.streams.Keys == r.streams.Keys + {key}
              && (forall k :: k in r.streams && k != key ==> out.state.streams[k] == r.streams[k])
    ensures p.TcpData? && out.outcome.Returns? ==>
              forall i :: 0 <= i < |out.outcome.value| ==> out.outcome.value[i].conn == p.conn
  {
    match p
    case NotTcpData => Effect(r, Returns([]))
    case TcpData(conn, payload) =>
      var key := StreamKeyOf(conn);
      var step := OnPayload(r.tracker, conn, StreamFor(r, key), payload, parse);
      Effect(Reassembler(r.streams[key := step.stream], step.tracker), step.outcome)
  }

  // ---------------------------------------------------------------------
  // The reassembler with the extraction as written

  /** The packet reaches a branch that extracts event messages: a response
      whose head makes the stream an event stream, a standalone event, or
      data on a stream already known to be an event stream. */
  predicate Extracts(st: Stream, payload: string) {
    if IsRequest(payload) then false
    else if IsResponse(payload) then
      var a := AddResponseData(st, payload);
      a.outcome.Returns? && a.state.isSse
    else IsSseData(payload) || (|payload| > 0 && st.responseHeaders.Some? && st.isSse)
  }

  /** `Emit` after an extraction that may never return. */
  function EmitAsWritten(t: Tracker, conn: ConnKey, e: Option<Effect<Stream, seq<string>>>, kind: Kind): Option<Step> {
    match e
    case None => None
    case Some(x) => Some(Emit(t, conn, x, kind))
  }

  /** `EmitTagged` after an extraction that may never return. */
  function EmitTaggedAsWritten(t: Tracker, conn: ConnKey, e: Option<Effect<Stream, seq<string>>>, kind: Kind,
                               transport: Option<McpTransport>): Option<Step> {
    match e
    case None => None
    case Some(x) => Some(EmitTagged(t, conn, x, kind, transport))
  }

  /** The branches of `process_packet` with `extract_sse_messages` as
      written; `None` when the extraction never returns. A branch that
      extracts nothing does what the corrected branch does. */
  function OnPayloadAsWritten(t: Tracker, conn: ConnKey, st: Stream, payload: string, parse: Parser): (r: Option<Step>)
    ensures r.Some? ==> OnConn(r.value.outcome, conn)
    ensures !Extracts(st, payload) ==> r == Some(OnPayload(t, conn, st, payload, parse))
  {
    if IsRequest(payload) then
      var s1 := AddRequest(st, payload);
      Some(Step(s1, if s1.detected != Unknown then UpdateTransport(t, conn, s1.detected) else t, Returns([])))
    else if IsResponse(payload) then
      var a := AddResponseData(st, payload);
      if a.outcome.Raises? then Some(Step(a.state, t, Raises(a.outcome.exception)))
      else if !a.state.isSse then Some(Step(a.state, t, Returns([])))
      else EmitAsWritten(t, conn, ExtractSseMessagesAsWritten(a.state, parse), SseResponse)
    else if IsSseData(payload) then
      EmitTaggedAsWritten(t, conn, ExtractSseMessagesAsWritten(st.(buffer := payload), parse), SseData,
                          Some(GetTransport(t, conn)))
    else if st.responseHeaders.Some? && st.isSse && |payload| > 0 then
      EmitAsWritten(t, conn, ExtractSseMessagesAsWritten(AddResponseData(st, payload).state, parse), SseContinuation)
    else if |payload| > 0 && st.responseHeaders.Some? then
      var s1 := AddResponseData(st, payload).state;
      if s1.isSse then EmitTaggedAsWritten(t, conn, ExtractSseMessagesAsWritten(s1, parse), SseContinuation, None)
      else Some(Step(s1, t, Returns([])))
    else Some(Step(st, t, Returns([])))
  }

  /** `process_packet` with `extract_sse_messages` as written; `None` when
      the call never returns. */
  function ProcessPacketAsWritten(r: Reassembler, p: Packet, parse: Parser): (out: Option<Effect<Reassembler, seq<Message>>>)
    ensures p.NotTcpData? ==> out == Some(Effect(r, Returns([])))
    ensures p.TcpData? && out.Some? ==>
              var key := StreamKeyOf(p.conn);
              && out.value.state.streams.Keys == r.streams.Keys + {key}
              && (forall k :: k in r.streams && k != key ==> out.value.state.streams[k] == r.streams[k])
    ensures p.TcpData? && out.Some? && out.value.outcome.Returns? ==>
              forall i :: 0 <= i < |out.value.outcome.value| ==> out.value.outcome.value[i].conn == p.conn
  {
    match p
    case NotTcpData => Some(Effect(r, Returns([])))
    case TcpData(conn, payload) =>
      var key := StreamKeyOf(conn);
      match OnPayloadAsWritten(r.tracker, conn, StreamFor(r, key), payload, parse)
      case None => None
      case Some(step) => Some(Effect(Reassembler(r.streams[key := step.stream], step.tracker), step.outcome))
  }

  /** The two reassemblers differ only on packets that reach an extraction. */
  lemma ProcessPacketAgrees(r: Reassembler, p: Packet, parse: Parser)
    requires p.TcpData? ==> !Extracts(StreamFor(r, StreamKeyOf(p.conn)), p.payload)
    ensures ProcessPacketAsWritten(r, p, parse) == Some(ProcessPacket(r, p, parse))
  {
  }

  // ---------------------------------------------------------------------
  // Properties

  /** A request emits nothing: it is read into its stream, and a transport
      it reveals is recorded for its connection. */
  lemma RequestsYieldNothing(r: Reassembler, conn: ConnKey, payload: string, parse: Parser)
    requires IsRequest(payload)
    ensures var out := ProcessPacket(r, TcpData(conn, payload), parse);
            var s1 := AddRequest(StreamFor(r, StreamKeyOf(conn)), payload);
            && out.outcome == Returns([])
            && out.state.streams[StreamKeyOf(conn)] == s1
            && (s1.detected != Unknown ==> GetTransport(out.state.tracker, conn) == s1.detected)
            && (s1.detected == Unknown ==> out.state.tracker == r.tracker)
  {
    var s1 := AddRequest(StreamFor(r, StreamKeyOf(conn)), payload);
    if s1.detected != Unknown {
      UpdateThenGet(r.tracker, conn, s1.detected);
    }
  }

  /** Data on a stream whose head is read but which is not an event stream
      is only collected: the catch-all branch never emits, since event
      streams are taken by the branch before it. */
  lemma CatchAllSilent(r: Reassembler, conn: ConnKey, payload: string, parse: Parser)
    requires !IsRequest(payload) && !IsResponse(payload) && !IsSseData(payload)
    requires var st := StreamFor(r, StreamKeyOf(conn)); !(st.responseHeaders.Some? && st.isSse)
    ensures var out := ProcessPacket(r, TcpData(conn, payload), parse);
            var st := StreamFor(r, StreamKeyOf(conn));
            && out.outcome == Returns([])
            && out.state.tracker == r.tracker
            && out.state.streams[StreamKeyOf(conn)]
               == (if st.responseHeaders.Some? then st.(buffer := st.buffer + payload) else st)
  {
  }

  /** The texts and kinds of emitted messages, without their connection or
      transport. */
  function Texts(ms: seq<Message>): (r: seq<(string, Kind)>)
    ensures |r| == |ms|
    ensures forall i :: 0 <= i < |ms| ==> r[i] == (ms[i].message, ms[i].kind)
  {
    seq(|ms|, i requires 0 <= i < |ms| => (ms[i].message, ms[i].kind))
  }

  lemma TextsOfTag(c1: ConnKey, c2: ConnKey, ms: seq<string>, kind: Kind, x1: Option<McpTransport>, x2: Option<McpTransport>)
    ensures Texts(Tag(c1, ms, kind, x1)) == Texts(Tag(c2, ms, kind, x2))
  {
  }

  /** Whether an outcome raises, and the texts it emits. */
  predicate SameTexts(a: Outcome<seq<Message>>, b: Outcome<seq<Message>>) {
    a.Raises? == b.Raises? && (a.Returns? ==> Texts(a.value) == Texts(b.value))
  }

  /** The branches do not depend on which way the packet travels, apart from
      the connection and transport written in the messages and the tracker. */
  lemma OnPayloadDirection(t: Tracker, c1: ConnKey, c2: ConnKey, st: Stream, payload: string, parse: Parser)
    ensures OnPayload(t, c1, st, payload, parse).stream == OnPayload(t, c2, st, payload, parse).stream
    ensures SameTexts(OnPayload(t, c1, st, payload, parse).outcome, OnPayload(t, c2, st, payload, parse).outcome)
  {
    if IsRequest(payload) {
    } else if IsResponse(payload) {
      var a := AddResponseData(st, payload);
      if a.outcome.Returns? && a.state.isSse {
        EmitDirection(t, c1, c2, ExtractSseMessages(a.state, parse), SseResponse);
      }
    } else if IsSseData(payload) {
      var e := ExtractSseMessages(st.(buffer := payload), parse);
      if e.outcome.Returns? {
        TextsOfTag(c1, c2, e.outcome.value, SseData, Some(GetTransport(t, c1)), Some(GetTransport(t, c2)));
      }
    } else if st.responseHeaders.Some? && st.isSse && |payload| > 0 {
      EmitDirection(t, c1, c2, ExtractSseMessages(AddResponseData(st, payload).state, parse), SseContinuation);
    }
  }

  lemma EmitDirection(t: Tracker, c1: ConnKey, c2: ConnKey, e: Effect<Stream, seq<string>>, kind: Kind)
    ensures Emit(t, c1, e, kind).stream == Emit(t, c2, e, kind).stream
    ensures SameTexts(Emit(t, c1, e, kind).outcome, Emit(t, c2, e, kind).outcome)
  {
    if e.outcome.Returns? {
      TextsOfTag(c1, c2, e.outcome.value, kind, Some(e.state.detected), Some(e.state.detected));
    }
  }

  /** Both directions of a connection work on one stream: a packet leaves the
      streams the same whichever way it travels, and emits the same texts of
      the same kinds. */
  lemma EitherDirection(r: Reassembler, conn: ConnKey, payload: string, parse: Parser)
    ensures var a := ProcessPacket(r, TcpData(conn, payload), parse);
            var b := ProcessPacket(r, TcpData(conn.Reverse(), payload), parse);
            a.state.streams == b.state.streams && SameTexts(a.outcome, b.outcome)
  {
    StreamKeySymmetric(conn);
    OnPayloadDirection(r.tracker, conn, conn.Reverse(), StreamFor(r, StreamKeyOf(conn)), payload, parse);
  }

  /** A response head for an event stream, with its events in the same
      packet, on a stream that has no head yet: the written messages are
      emitted in order as `sse_response`, on the packet's connection. */
  lemma SseResponseDelivered(r: Reassembler, conn: ConnKey, status: string, fields: seq<HttpHeaders.Field>,
                             js: seq<string>, parse: Parser)
    requires var st := StreamFor(r, StreamKeyOf(conn)); st.responseHeaders.None? && st.buffer == []
    requires Seqs.StartsWith(status, "HTTP/1.") && '\r' !in status
    requires forall f :: f in fields ==> HttpHeaders.WritableField(f)
    requires Seqs.Contains(HttpHeaders.LastNamed(fields, "content-type").GetOr([]), "text/event-stream")
    requires !Seqs.Contains(HttpHeaders.LastNamed(fields, "transfer-encoding").GetOr([]), "chunked")
    requires HttpHeaders.LastNamed(fields, "content-length").None?
    requires Sse.Served(js)
    ensures var out := ProcessPacket(r, TcpData(conn, ResponseText(status, fields, Sse.DataEvents(js))), parse);
            && out.outcome.Returns?
            && |out.outcome.value| == |js|
            && forall i :: 0 <= i < |js| ==>
                 out.outcome.value[i].message == js[i] && out.outcome.value[i].kind == SseResponse
                 && out.outcome.value[i].conn == conn
  {
    var st := StreamFor(r, StreamKeyOf(conn));
    var payload := ResponseText(status, fields, Sse.DataEvents(js));
    ResponseIsResponse(status, fields, Sse.DataEvents(js));
    var a := AddResponseData(st, payload);
    assert a.outcome.Returns? && a.state.isSse && !a.state.isChunked && a.state.buffer == Sse.DataEvents(js) by {
      ResponseRoundTrip(st, status, fields, Sse.DataEvents(js), "content-length");
      ResponseHeadCut(st, status, fields, Sse.DataEvents(js));
    }
    ScanWritten(a.state, js, parse);
  }

  /** A written response is taken by the response branch. */
  lemma ResponseIsResponse(status: string, fields: seq<HttpHeaders.Field>, body: string)
    requires Seqs.StartsWith(status, "HTTP/1.")
    ensures IsResponse(ResponseText(status, fields, body))
    ensures !IsRequest(ResponseText(status, fields, body))
  {
    var ls := [status] + HttpHeaders.FieldLines(fields);
    var text := ResponseText(status, fields, body);
    HttpHeaders.CrlfLinesCons(ls, HttpHeaders.Crlf + body);
    Seqs.AppendAssoc(HttpHeaders.CrlfLines(ls), HttpHeaders.Crlf, body);
    assert text == status + (HttpHeaders.Crlf + (HttpHeaders.CrlfLines(ls[1..]) + (HttpHeaders.Crlf + body)));
    assert text[0] == 'H';
  }

  /** The texts of an outcome that returns exactly `js`, in order. */
  predicate Delivers(o: Outcome<seq<Message>>, js: seq<string>) {
    o.Returns? && |o.value| == |js| && forall i :: 0 <= i < |js| ==> o.value[i].message == js[i]
  }

  /** An event-stream response on a fresh stream, through either
      reassembler: both return the messages written; the written
      extraction leaves them in the buffer, the corrected one drops them. */
  lemma FirstResponseScanned(t: Tracker, conn: ConnKey, st: Stream, status: string, fields: seq<HttpHeaders.Field>,
                             js: seq<string>, parse: Parser)
    requires st.responseHeaders.None? && st.buffer == []
    requires Seqs.StartsWith(status, "HTTP/1.") && '\r' !in status
    requires forall f :: f in fields ==> HttpHeaders.WritableField(f)
    requires Seqs.Contains(HttpHeaders.LastNamed(fields, "content-type").GetOr([]), "text/event-stream")
    requires !Seqs.Contains(HttpHeaders.LastNamed(fields, "transfer-encoding").GetOr([]), "chunked")
    requires HttpHeaders.LastNamed(fields, "content-length").None?
    requires Sse.Served(js)
    ensures var payload := ResponseText(status, fields, Sse.DataEvents(js));
            var a := AddResponseData(st, payload).state;
            && a.responseHeaders.Some? && a.isSse && !a.isChunked && a.buffer == Sse.DataEvents(js)
            && OnPayloadAsWritten(t, conn, st, payload, parse) == Some(Emit(t, conn, Effect(a, Returns(js)), SseResponse))
            && OnPayload(t, conn, st, payload, parse) == Emit(t, conn, Effect(a.(buffer := []), Returns(js)), SseResponse)
  {
    var payload := ResponseText(status, fields, Sse.DataEvents(js));
    ResponseIsResponse(status, fields, Sse.DataEvents(js));
    var a := AddResponseData(st, payload);
    assert a.outcome.Returns? && a.state.isSse && !a.state.isChunked && a.state.buffer == Sse.DataEvents(js)
        && a.state.responseHeaders.Some? by {
      ResponseRoundTrip(st, status, fields, Sse.DataEvents(js), "content-length");
      ResponseHeadCut(st, status, fields, Sse.DataEvents(js));
    }
    Sse.ScanDataEvents(js, a.state.detected, parse);
  }

  /** Further events on an event stream whose buffer holds the events
      `js0`: both reassemblers return `js0` and then the new messages; the
      written extraction keeps all of them in the buffer, the corrected one
      none. */
  lemma ContinuationScanned(t: Tracker, conn: ConnKey, st: Stream, js0: seq<string>, js: seq<string>, parse: Parser)
    requires st.responseHeaders.Some? && st.isSse && !st.isChunked
    requires st.buffer == Sse.DataEvents(js0) && Sse.Served(js0) && Sse.Served(js) && |js| > 0
    requires !Seqs.Contains(Sse.DataEvents(js), "jsonrpc")
    ensures OnPayloadAsWritten(t, conn, st, Sse.DataEvents(js), parse)
            == Some(Emit(t, conn, Effect(st.(buffer := Sse.DataEvents(js0 + js)), Returns(js0 + js)), SseContinuation))
    ensures OnPayload(t, conn, st, Sse.DataEvents(js), parse)
            == Emit(t, conn, Effect(st.(buffer := []), Returns(js0 + js)), SseContinuation)
  {
    var p := Sse.DataEvents(js);
    NotHeadLike(js);
    var s1 := st.(buffer := Sse.DataEvents(js0 + js));
    assert AddResponseData(st, p).state == s1 by {
      Sse.DataEventsAppend(js0, js);
    }
    assert Sse.Served(js0 + js);
    EventsScanned(s1, js0 + js, parse);
  }

  /** Written events are neither a request, a response nor a standalone
      event when they do not mention `jsonrpc`. */
  lemma NotHeadLike(js: seq<string>)
    requires |js| > 0 && !Seqs.Contains(Sse.DataEvents(js), "jsonrpc")
    ensures var p := Sse.DataEvents(js); !IsRequest(p) && !IsResponse(p) && !IsSseData(p)
  {
    var p := Sse.DataEvents(js);
    assert p[0] == 'd' by {
      assert p == Sse.DataEvent(js[0]) + Sse.DataEvents(js[1..]);
    }
    Seqs.HeadDiffers(p, "POST ");
    Seqs.HeadDiffers(p, "GET ");
    Seqs.HeadDiffers(p, "HTTP/1.");
  }

  /** A plain body of written events, through either extraction. */
  lemma EventsScanned(s: Stream, js: seq<string>, parse: Parser)
    requires !s.isChunked && s.buffer == Sse.DataEvents(js) && Sse.Served(js)
    ensures ExtractSseMessagesAsWritten(s, parse) == Some(Effect(s, Returns(js)))
    ensures ExtractSseMessages(s, parse) == Effect(s.(buffer := []), Returns(js))
  {
    Sse.ScanDataEvents(js, s.detected, parse);
  }

  /** The first packet of `ContinuationRedeliveredAsWritten`: both
      reassemblers deliver its messages and store the response's stream,
      with the buffer kept as written and emptied when corrected. */
  lemma FirstPacket(r: Reassembler, conn: ConnKey, status: string, fields: seq<HttpHeaders.Field>,
                    js: seq<string>, parse: Parser)
    requires var st := StreamFor(r, StreamKeyOf(conn)); st.responseHeaders.None? && st.buffer == []
    requires Seqs.StartsWith(status, "HTTP/1.") && '\r' !in status
    requires forall f :: f in fields ==> HttpHeaders.WritableField(f)
    requires Seqs.Contains(HttpHeaders.LastNamed(fields, "content-type").GetOr([]), "text/event-stream")
    requires !Seqs.Contains(HttpHeaders.LastNamed(fields, "transfer-encoding").GetOr([]), "chunked")
    requires HttpHeaders.LastNamed(fields, "content-length").None?
    requires Sse.Served(js)
    ensures var key := StreamKeyOf(conn);
            var p := TcpData(conn, ResponseText(status, fields, Sse.DataEvents(js)));
            var w := ProcessPacketAsWritten(r, p, parse);
            var c := ProcessPacket(r, p, parse);
            var a := StreamFor(c.state, key);
            && a.responseHeaders.Some? && a.isSse && !a.isChunked && a.buffer == []
            && w.Some? && StreamFor(w.value.state, key) == a.(buffer := Sse.DataEvents(js))
            && Delivers(w.value.outcome, js) && Delivers(c.outcome, js)
  {
    var key := StreamKeyOf(conn);
    var st := StreamFor(r, key);
    FirstResponseScanned(r.tracker, conn, st, status, fields, js, parse);
  }

  /** The second packet of `ContinuationRedeliveredAsWritten`, on a stream
      whose buffer holds the events `js0`. */
  lemma SecondPacket(r: Reassembler, conn: ConnKey, js0: seq<string>, js: seq<string>, parse: Parser)
    requires var st := StreamFor(r, StreamKeyOf(conn));
             st.responseHeaders.Some? && st.isSse && !st.isChunked && st.buffer == Sse.DataEvents(js0)
    requires Sse.Served(js0) && Sse.Served(js) && |js| > 0
    requires !Seqs.Contains(Sse.DataEvents(js), "jsonrpc")
    ensures var p := TcpData(conn, Sse.DataEvents(js));
            var w := ProcessPacketAsWritten(r, p, parse);
            && w.Some? && Delivers(w.value.outcome, js0 + js)
            && Delivers(ProcessPacket(r, p, parse).outcome, js0 + js)
  {
    ContinuationScanned(r.tracker, conn, StreamFor(r, StreamKeyOf(conn)), js0, js, parse);
  }

  /** An event-stream response and then a packet of further events on the
      same connection. As written the second packet returns the first
      packet's messages again, because the buffer they were scanned from is
      never cleared; corrected, it returns only its own. */
  lemma ContinuationRedeliveredAsWritten(r: Reassembler, conn: ConnKey, status: string, fields: seq<HttpHeaders.Field>,
                                         js1: seq<string>, js2: seq<string>, parse: Parser)
    requires var st := StreamFor(r, StreamKeyOf(conn)); st.responseHeaders.None? && st.buffer == []
    requires Seqs.StartsWith(status, "HTTP/1.") && '\r' !in status
    requires forall f :: f in fields ==> HttpHeaders.WritableField(f)
    requires Seqs.Contains(HttpHeaders.LastNamed(fields, "content-type").GetOr([]), "text/event-stream")
    requires !Seqs.Contains(HttpHeaders.LastNamed(fields, "transfer-encoding").GetOr([]), "chunked")
    requires HttpHeaders.LastNamed(fields, "content-length").None?
    requires Sse.Served(js1) && Sse.Served(js2) && |js2| > 0
    requires !Seqs.Contains(Sse.DataEvents(js2), "jsonrpc")
    ensures var p1 := TcpData(conn, ResponseText(status, fields, Sse.DataEvents(js1)));
            var p2 := TcpData(conn, Sse.DataEvents(js2));
            var w1 := ProcessPacketAsWritten(r, p1, parse);
            var c1 := ProcessPacket(r, p1, parse);
            && w1.Some? && Delivers(w1.value.outcome, js1) && Delivers(c1.outcome, js1)
            && var w2 := ProcessPacketAsWritten(w1.value.state, p2, parse);
               && w2.Some? && Delivers(w2.value.outcome, js1 + js2)
               && Delivers(ProcessPacket(c1.state, p2, parse).outcome, js2)
  {
    var p1 := TcpData(conn, ResponseText(status, fields, Sse.DataEvents(js1)));
    FirstPacket(r, conn, status, fields, js1, parse);
    var w1 := ProcessPacketAsWritten(r, p1, parse).value;
    var c1 := ProcessPacket(r, p1, parse);
    SecondPacket(w1.state, conn, js1, js2, parse);
    assert Sse.DataEvents([]) == [] && [] + js2 == js2;
    SecondPacket(c1.state, conn, [], js2, parse);
  }
}
