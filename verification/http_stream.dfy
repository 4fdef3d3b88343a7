/** One HTTP conversation on a TCP stream (`HTTPStream` in
    `mcphawk/tcp_reassembly.py`): the request, the response head, the
    response body kept in a buffer, and the server-sent event messages taken
    out of it.

    Bytes are modelled as characters: every `decode('utf-8', errors='ignore')`
    of the source is the identity here. The extraction as written decodes a
    chunked body with the chunk decoder as written, and the corrected
    extraction with the corrected decoder (module `Chunked`). */
module HttpStream {
  import opened Wrappers
  import opened Json
  import Seqs
  import PyInt
  import opened Transport
  import opened HttpHeaders
  import Chunked
  import Sse

  /** The state kept for one stream. `sseText` is not in the source: it is
      the decoded chunk text after the last complete event, which the
      corrected extraction keeps for the next call. */
  datatype Stream = Stream(
    responseHeaders: Option<Headers>,
    contentLength: Option<int>,
    isChunked: bool,
    isSse: bool,
    buffer: string,
    requestMethod: Option<string>,
    requestPath: Option<string>,
    requestHeaders: Headers,
    detected: McpTransport,
    sseText: string)

  /** `HTTPStream()`. */
  const NewStream: Stream := Stream(None, None, false, false, [], None, None, map[], Unknown, [])

  /** Python's truthiness of an optional string. */
  predicate Present(s: Option<string>) {
    s.Some? && |s.value| > 0
  }

  /** `headers.get(k, '')`. */
  function HeaderOr(h: Headers, k: string): string {
    if k in h then h[k] else []
  }

  // ---------------------------------------------------------------------
  // Requests

  /** `add_request`: the buffer is emptied; the request line, when it has at
      least two space-separated words, gives the method and the path (else
      the previous ones stay); the header fields are read up to the first
      empty line; and the transport is decided again from the request alone
      when method and path are both non-empty. The response side is left as
      it was. */
  function AddRequest(s: Stream, data: string): (r: Stream)
    ensures r.buffer == []
    ensures r.(buffer := s.buffer, requestMethod := s.requestMethod, requestPath := s.requestPath,
               requestHeaders := s.requestHeaders, detected := s.detected) == s
    ensures r.requestHeaders == FoldHeaders(UntilBlank(Seqs.Split(data, Crlf)[1..]), map[])
    ensures |Seqs.Split(Seqs.Split(data, Crlf)[0], " ")| < 2 ==>
              r.requestMethod == s.requestMethod && r.requestPath == s.requestPath
    ensures r.detected != s.detected ==>
              && Present(r.requestMethod) && Present(r.requestPath)
              && r.detected == DetectTransportFromHttp(r.requestMethod.value, r.requestPath.value,
                                                       r.requestHeaders, false, false)
  {
    var lines := Seqs.Split(data, Crlf);
    var parts := Seqs.Split(lines[0], " ");
    var verb := if |parts| >= 2 then Some(parts[0]) else s.requestMethod;
    var path := if |parts| >= 2 then Some(parts[1]) else s.requestPath;
    var headers := RequestFields(lines[1..], map[]);
    RequestFieldsStopAtBlank(lines[1..], map[]);
    var detected :=
      if Present(verb) && Present(path) then DetectTransportFromHttp(verb.value, path.value, headers, false, false)
      else s.detected;
    s.(buffer := [], requestMethod := verb, requestPath := path, requestHeaders := headers, detected := detected)
  }

  /** A request line as a client writes it. */
  function RequestLine(verb: string, path: string, version: string): string {
    verb + " " + path + " " + version
  }

  /** A request as a client writes it: request line, header fields, an empty
      line, then the body. */
  function RequestText(verb: string, path: string, version: string, fields: seq<Field>, body: string): string {
    CrlfLines([RequestLine(verb, path, version)] + FieldLines(fields)) + Crlf + body
  }

  /** A written request is read back: its method, its path, and for every
      name the value of the last field with that name, ignoring case. */
  lemma RequestRoundTrip(s: Stream, verb: string, path: string, version: string,
                         fields: seq<Field>, body: string, k: string)
    requires ' ' !in verb && ' ' !in path
    requires '\r' !in verb && '\r' !in path && '\r' !in version
    requires forall f :: f in fields ==> WritableField(f)
    ensures var r := AddRequest(s, RequestText(verb, path, version, fields, body));
            && r.requestMethod == Some(verb) && r.requestPath == Some(path)
            && (k in r.requestHeaders <==> LastNamed(fields, k).Some?)
            && (k in r.requestHeaders ==> r.requestHeaders[k] == LastNamed(fields, k).value)
  {
    var line := RequestLine(verb, path, version);
    RequestTextLines(verb, path, version, fields, body);
    RequestLineWords(verb, path, version);
    var lines := Seqs.Split(RequestText(verb, path, version, fields, body), Crlf);
    assert lines[1..] == FieldLines(fields) + [[]] + Seqs.Split(body, Crlf);
    FieldLinesNotEmpty(fields);
    UntilBlankStops(FieldLines(fields), Seqs.Split(body, Crlf));
    FoldHeadersLookup(FieldLines(fields), map[], k);
    FieldsNoColon(fields);
    LastFieldOfFields(fields, k);
  }

  lemma RequestTextLines(verb: string, path: string, version: string, fields: seq<Field>, body: string)
    requires '\r' !in verb && '\r' !in path && '\r' !in version
    requires forall f :: f in fields ==> WritableField(f)
    ensures Seqs.Split(RequestText(verb, path, version, fields, body), Crlf)
         == [RequestLine(verb, path, version)] + FieldLines(fields) + [[]] + Seqs.Split(body, Crlf)
  {
    var ls := [RequestLine(verb, path, version)] + FieldLines(fields);
    FieldLinesNoCr(fields);
    assert forall l :: l in ls ==> '\r' !in l;
    HeadLinesSplit(ls, body);
  }

  /** The lines of a written head followed by an empty line and a body. */
  lemma HeadLinesSplit(ls: seq<string>, body: string)
    requires forall l :: l in ls ==> '\r' !in l
    ensures Seqs.Split(CrlfLines(ls) + Crlf + body, Crlf) == ls + [[]] + Seqs.Split(body, Crlf)
  {
    Seqs.AppendAssoc(CrlfLines(ls), Crlf, body);
    SplitCrlfLines(ls, Crlf + body);
    assert Crlf + body == [] + Crlf + body;
    Seqs.SplitCons([], Crlf, body);
    Seqs.AppendAssoc(ls, [[]], Seqs.Split(body, Crlf));
  }

  lemma FieldLinesNoCr(fields: seq<Field>)
    requires forall f :: f in fields ==> WritableField(f)
    ensures forall l :: l in FieldLines(fields) ==> '\r' !in l
  {
    forall l | l in FieldLines(fields) ensures '\r' !in l {
      var i :| 0 <= i < |fields| && FieldLines(fields)[i] == l;
      assert fields[i] in fields;
    }
  }

  lemma FieldLinesNotEmpty(fields: seq<Field>)
    ensures [] !in FieldLines(fields)
  {
    forall i | 0 <= i < |fields| ensures |FieldLines(fields)[i]| > 0 {
    }
  }

  lemma FieldsNoColon(fields: seq<Field>)
    requires forall f :: f in fields ==> WritableField(f)
    ensures forall f :: f in fields ==> ':' !in f.0
  {
  }

  /** The words of a written request line begin with the method and the path. */
  lemma RequestLineWords(verb: string, path: string, version: string)
    requires ' ' !in verb && ' ' !in path
    ensures var parts := Seqs.Split(RequestLine(verb, path, version), " ");
            |parts| >= 2 && parts[0] == verb && parts[1] == path
  {
    Seqs.AppendAssoc(verb + " ", path + " ", version);
    assert RequestLine(verb, path, version) == verb + " " + (path + " " + version);
    Seqs.SplitCons(verb, " ", path + " " + version);
    Seqs.SplitCons(path, " ", version);
  }

  // ---------------------------------------------------------------------
  // Responses

  /** `add_response_data`. The data is appended to the buffer. While no head
      has been read, a buffer holding a blank line `\r\n\r\n` has its head
      read: the buffer then keeps only what follows the first blank line.
      A head is read at most once. */
  function AddResponseData(s: Stream, data: string): (r: Effect<Stream, ()>)
    ensures s.responseHeaders.Some? || !Seqs.Contains(s.buffer + data, HeadEnd) ==>
              r == Effect(s.(buffer := s.buffer + data), Returns(()))
    ensures s.responseHeaders.None? && Seqs.Contains(s.buffer + data, HeadEnd) ==>
              && r.state.responseHeaders.Some?
              && Seqs.EndsWith(s.buffer + data, r.state.buffer)
              && FirstHead((s.buffer + data)[..|s.buffer + data| - |r.state.buffer|])
  {
    var text := s.buffer + data;
    if s.responseHeaders.Some? || !Seqs.Contains(text, HeadEnd) then
      Effect(s.(buffer := text), Returns(()))
    else
      var k := Seqs.Find(text, HeadEnd) + |HeadEnd|;
      FirstHeadAt(text);
      assert text[..k] + text[k..] == text;
      ReadResponseHead(s, text[..k], text[k..])
  }

  /** A head as read: it ends with the blank line and holds no earlier one. */
  predicate FirstHead(head: string) {
    Seqs.EndsWith(head, HeadEnd) && !Seqs.Contains(head[..|head| - 1], HeadEnd)
  }

  lemma FirstHeadAt(text: string)
    requires Seqs.Contains(text, HeadEnd)
    ensures FirstHead(text[..Seqs.Find(text, HeadEnd) + |HeadEnd|])
  {
    var c := Seqs.Find(text, HeadEnd);
    var head := text[..c + |HeadEnd|];
    assert head[c..] == text[c..c + |HeadEnd|];
    var h := head[..|head| - 1];
    if Seqs.Contains(h, HeadEnd) {
      var j :| 0 <= j <= |h| - |HeadEnd| && Seqs.OccursAt(h, HeadEnd, j);
      assert h == text[..c + |HeadEnd| - 1];
      assert h[j..j + |HeadEnd|] == text[j..j + |HeadEnd|];
      assert Seqs.OccursAt(text, HeadEnd, j);
    }
  }

  /** The transport decided again once the response head is known, when the
      stream has seen a method and a path. */
  function DetectOnResponse(s: Stream): Stream {
    if Present(s.requestMethod) && Present(s.requestPath) then
      s.(detected := DetectTransportFromHttp(s.requestMethod.value, s.requestPath.value, s.requestHeaders, s.isSse, false))
    else s
  }

  /** Reading a complete response head `head`, `body` being what follows it.
      Every field line after the status line is read; the stream is an
      event stream when the content type contains `text/event-stream`, and
      chunked when the transfer coding contains `chunked`. A content length
      is read only for a body that is not chunked; one that is not a number
      makes `int()` raise `ValueError`, after the head is stored and before
      the transport is decided. */
  function ReadResponseHead(s: Stream, head: string, body: string): (r: Effect<Stream, ()>)
    ensures r.state.buffer == body
    ensures r.state.responseHeaders == Some(FoldHeaders(Seqs.Split(head, Crlf)[1..], map[]))
    ensures var h := r.state.responseHeaders.value;
            && (r.state.isSse <==> Seqs.Contains(HeaderOr(h, "content-type"), "text/event-stream"))
            && (r.state.isChunked <==> Seqs.Contains(HeaderOr(h, "transfer-encoding"), "chunked"))
            && (r.outcome.Raises? <==>
                  !r.state.isChunked && "content-length" in h && PyInt.ParseInt(h["content-length"], 10).None?)
            && (r.state.contentLength != s.contentLength ==>
                  "content-length" in h && r.state.contentLength == PyInt.ParseInt(h["content-length"], 10))
    ensures r.state.requestMethod == s.requestMethod && r.state.requestPath == s.requestPath
    ensures r.state.requestHeaders == s.requestHeaders && r.state.sseText == s.sseText
    ensures r.outcome.Raises? || !Present(s.requestMethod) || !Present(s.requestPath) ==>
              r.state.detected == s.detected
    ensures r.outcome.Returns? && Present(s.requestMethod) && Present(s.requestPath) ==>
              r.state.detected == DetectTransportFromHttp(s.requestMethod.value, s.requestPath.value,
                                                          s.requestHeaders, r.state.isSse, false)
  {
    var s1 := StoreHead(s, head, body);
    var headers := s1.responseHeaders.value;
    if !s1.isChunked && "content-length" in headers then
      match PyInt.ParseInt(headers["content-length"], 10)
      case None => Effect(s1, Raises("ValueError"))
      case Some(n) => Effect(DetectOnResponse(s1.(contentLength := Some(n))), Returns(()))
    else Effect(DetectOnResponse(s1), Returns(()))
  }

  /** The head stored, before the content length and the transport. */
  function StoreHead(s: Stream, head: string, body: string): (r: Stream)
    ensures r.responseHeaders.Some?
    ensures r == s.(buffer := body, responseHeaders := r.responseHeaders, isSse := r.isSse, isChunked := r.isChunked)
  {
    var headers := FoldHeaders(Seqs.Split(head, Crlf)[1..], map[]);
    var isSse := Seqs.Contains(HeaderOr(headers, "content-type"), "text/event-stream");
    var isChunked := Seqs.Contains(HeaderOr(headers, "transfer-encoding"), "chunked");
    s.(buffer := body, responseHeaders := Some(headers), isSse := isSse, isChunked := isChunked)
  }

  /** Where packet boundaries fall does not matter: response data delivered
      in two pieces leaves the stream as the same data delivered at once. */
  lemma AddResponseDataSplit(s: Stream, a: string, b: string)
    requires AddResponseData(s, a).outcome.Returns?
    ensures AddResponseData(AddResponseData(s, a).state, b) == AddResponseData(s, a + b)
  {
    var text := s.buffer + a;
    Seqs.AppendAssoc(s.buffer, a, b);
    assert s.buffer + (a + b) == text + b;
    if s.responseHeaders.None? && Seqs.Contains(text, HeadEnd) {
      var k := Seqs.Find(text, HeadEnd) + |HeadEnd|;
      CutAfterHead(text, b);
      assert AddResponseData(s, a) == ReadResponseHead(s, text[..k], text[k..]);
      assert AddResponseData(s, a + b) == ReadResponseHead(s, text[..k], text[k..] + b);
      ReadHeadThenAppend(s, text[..k], text[k..], b);
    } else if s.responseHeaders.None? {
      NoHeadYet(s, a, b);
    }
  }

  /** Appending leaves the first blank line where it was. */
  lemma CutAfterHead(text: string, b: string)
    requires Seqs.Contains(text, HeadEnd)
    ensures var k := Seqs.Find(text, HeadEnd) + |HeadEnd|;
            && Seqs.Contains(text + b, HeadEnd) && Seqs.Find(text + b, HeadEnd) + |HeadEnd| == k
            && (text + b)[..k] == text[..k] && (text + b)[k..] == text[k..] + b
  {
    Seqs.FindInPrefix(text, b, HeadEnd);
  }

  /** While no blank line has arrived, data is only collected. */
  lemma NoHeadYet(s: Stream, a: string, b: string)
    requires s.responseHeaders.None? && !Seqs.Contains(s.buffer + a, HeadEnd)
    ensures AddResponseData(AddResponseData(s, a).state, b) == AddResponseData(s, a + b)
  {
    var s1 := AddResponseData(s, a).state;
    assert s1 == s.(buffer := s.buffer + a);
    Seqs.AppendAssoc(s.buffer, a, b);
    if Seqs.Contains(s1.buffer + b, HeadEnd) {
      var t := s1.buffer + b;
      var k := Seqs.Find(t, HeadEnd) + |HeadEnd|;
      assert AddResponseData(s1, b) == ReadResponseHead(s1, t[..k], t[k..]);
      assert ReadResponseHead(s1, t[..k], t[k..]) == ReadResponseHead(s, t[..k], t[k..]);
    }
  }

  /** Data after a read head is only appended to the buffer. */
  lemma ReadHeadThenAppend(s: Stream, head: string, body: string, more: string)
    requires ReadResponseHead(s, head, body).outcome.Returns?
    ensures AddResponseData(ReadResponseHead(s, head, body).state, more)
         == ReadResponseHead(s, head, body + more)
  {
  }

  /** A response as a server writes it: status line, header fields, an empty
      line, then the body. */
  function ResponseText(status: string, fields: seq<Field>, body: string): string {
    CrlfLines([status] + FieldLines(fields)) + Crlf + body
  }

  /** A written response head is read back on a stream that has none yet:
      the buffer keeps exactly the body, every name has the value of the last
      field with that name ignoring case, and the event-stream and chunked
      flags follow the content type and the transfer coding written. */
  lemma ResponseRoundTrip(s: Stream, status: string, fields: seq<Field>, body: string, k: string)
    requires s.responseHeaders.None? && s.buffer == []
    requires |status| > 0 && '\r' !in status
    requires forall f :: f in fields ==> WritableField(f)
    ensures var r := AddResponseData(s, ResponseText(status, fields, body)).state;
            && r.buffer == body
            && r.responseHeaders.Some?
            && (k in r.responseHeaders.value <==> LastNamed(fields, k).Some?)
            && (k in r.responseHeaders.value ==> r.responseHeaders.value[k] == LastNamed(fields, k).value)
            && (r.isSse <==> Seqs.Contains(LastNamed(fields, "content-type").GetOr([]), "text/event-stream"))
            && (r.isChunked <==> Seqs.Contains(LastNamed(fields, "transfer-encoding").GetOr([]), "chunked"))
  {
    var ls := [status] + FieldLines(fields);
    ResponseHeadCut(s, status, fields, body);
    ResponseHeadFields(status, fields);
    FieldsNoColon(fields);
    ResponseFieldLookup(fields, k);
    ResponseFieldLookup(fields, "content-type");
    ResponseFieldLookup(fields, "transfer-encoding");
  }

  /** A written response is cut after its head. */
  lemma ResponseHeadCut(s: Stream, status: string, fields: seq<Field>, body: string)
    requires s.responseHeaders.None? && s.buffer == []
    requires |status| > 0 && '\r' !in status
    requires forall f :: f in fields ==> WritableField(f)
    ensures AddResponseData(s, ResponseText(status, fields, body))
         == ReadResponseHead(s, CrlfLines([status] + FieldLines(fields)) + Crlf, body)
  {
    var ls := [status] + FieldLines(fields);
    assert ls[1..] == FieldLines(fields);
    WrittenHeadFound(ls, fields, body);
    var text := ResponseText(status, fields, body);
    var k := |CrlfLines(ls) + Crlf|;
    assert s.buffer + text == text;
    assert AddResponseData(s, text) == ReadResponseHead(s, text[..k], text[k..]);
  }

  lemma WrittenHeadFound(ls: seq<string>, fields: seq<Field>, body: string)
    requires forall f :: f in fields ==> WritableField(f)
    requires |ls| > 0 && |ls[0]| > 0 && '\r' !in ls[0] && ls[1..] == FieldLines(fields)
    ensures var text := CrlfLines(ls) + Crlf + body;
            var k := |CrlfLines(ls) + Crlf|;
            && Seqs.Contains(text, HeadEnd) && Seqs.Find(text, HeadEnd) + |HeadEnd| == k
            && text[..k] == CrlfLines(ls) + Crlf && text[k..] == body
  {
    FieldLinesNoCr(fields);
    FieldLinesNotEmpty(fields);
    forall l | l in ls ensures |l| > 0 && '\r' !in l {
      if l != ls[0] {
        assert l in ls[1..];
      }
    }
    HeadEndAfterLines(ls, body);
    ResponseTextParts(ls, body);
  }

  /** The field lines of a written head: those written, then two empty
      lines (the one that ends the head and the empty text after it). */
  lemma ResponseHeadFields(status: string, fields: seq<Field>)
    requires forall f :: f in fields ==> WritableField(f)
    requires '\r' !in status
    ensures FoldHeaders(Seqs.Split(CrlfLines([status] + FieldLines(fields)) + Crlf, Crlf)[1..], map[])
         == FoldHeaders([[], []], FoldHeaders(FieldLines(fields), map[]))
  {
    var ls := [status] + FieldLines(fields);
    FieldLinesNoCr(fields);
    HeadLinesSplit(ls, []);
    assert CrlfLines(ls) + Crlf + [] == CrlfLines(ls) + Crlf;
    assert Seqs.Split([], Crlf) == [[]];
    assert (ls + [[]] + [[]])[1..] == FieldLines(fields) + [[], []];
    FoldHeadersAppend(FieldLines(fields), [[], []], map[]);
  }

  lemma ResponseTextParts(ls: seq<string>, body: string)
    requires |ls| > 0
    ensures var text := CrlfLines(ls) + Crlf + body;
            var c := |CrlfLines(ls)| - 2;
            text[..c + |HeadEnd|] == CrlfLines(ls) + Crlf && text[c + |HeadEnd|..] == body
  {
  }

  /** The map read from written fields, looked up. */
  lemma ResponseFieldLookup(fields: seq<Field>, k: string)
    requires forall f :: f in fields ==> ':' !in f.0
    ensures var h := FoldHeaders([[], []], FoldHeaders(FieldLines(fields), map[]));
            && (k in h <==> LastNamed(fields, k).Some?)
            && (k in h ==> h[k] == LastNamed(fields, k).value)
            && HeaderOr(h, k) == LastNamed(fields, k).GetOr([])
  {
    var h0 := FoldHeaders(FieldLines(fields), map[]);
    assert !Seqs.Contains([], FieldSep);
    assert FoldHeaders([[], []], h0) == h0;
    FoldHeadersLookup(FieldLines(fields), map[], k);
    LastFieldOfFields(fields, k);
  }

  // ---------------------------------------------------------------------
  // Server-sent event messages

  /** The events complete in `text` scanned for the stream `s`: the
      transport an endpoint event sets stays set even when a later event
      makes the scan raise. */
  function ScanText(s: Stream, text: string, parse: Parser): (r: Effect<Stream, seq<string>>)
    ensures r.state == s.(detected := r.state.detected)
    ensures r.state.detected == s.detected || r.state.detected == HttpSse
    ensures r.outcome.Returns? ==> r.outcome.value == Sse.AllMessages(Sse.Events(text))
  {
    var e := Sse.ScanEvents(Sse.Events(text), s.detected, parse);
    Effect(s.(detected := e.state), e.outcome)
  }

  /** The text decoded from the chunked body by the corrected decoder, and
      the stream with its buffer left as the decoder leaves it. */
  function DecodeBody(s: Stream): (r: (Option<string>, Stream))
    ensures r.1 == s.(buffer := r.1.buffer) && Seqs.EndsWith(s.buffer, r.1.buffer)
    ensures r.0.Some? ==> |r.0.value| > 0 && |r.0.value| + |r.1.buffer| < |s.buffer|
  {
    var c := Chunked.ExtractChunkedData(s.buffer, Chunked.HexSize);
    (c.data, s.(buffer := c.buffer))
  }

  /** The same with the decoder as written: `None` when it never returns. */
  function DecodeBodyAsWritten(s: Stream): (r: Option<(Option<string>, Stream)>)
    ensures r.None? <==> Chunked.ExtractChunkedDataAsWritten(s.buffer, Chunked.HexSize).None?
    ensures r.Some? ==> r.value.1 == s.(buffer := r.value.1.buffer)
  {
    match Chunked.ExtractChunkedDataAsWritten(s.buffer, Chunked.HexSize)
    case None => None
    case Some(c) => Some((c.data, s.(buffer := c.buffer)))
  }

  /** `extract_sse_messages` as written; `None` when the call never returns,
      which only the chunk decoder as written can cause. A chunked, non-empty
      buffer is decoded first; when no chunk data comes out nothing is
      returned, and otherwise the decoded text is scanned and whatever
      follows its last complete event is dropped. Any other buffer is
      scanned as it is and never consumed. */
  function ExtractSseMessagesAsWritten(s: Stream, parse: Parser): (r: Option<Effect<Stream, seq<string>>>)
    ensures r.None? <==> s.isChunked && |s.buffer| > 0 && DecodeBodyAsWritten(s).None?
    ensures r.Some? ==> r.value.state == s.(buffer := r.value.state.buffer, detected := r.value.state.detected)
    ensures r.Some? ==> r.value.state.detected == s.detected || r.value.state.detected == HttpSse
    ensures !s.isChunked || |s.buffer| == 0 ==>
              && r.Some? && r.value.state.buffer == s.buffer
              && (r.value.outcome.Returns? ==> r.value.outcome.value == Sse.AllMessages(Sse.Events(s.buffer)))
    ensures s.isChunked && |s.buffer| > 0 && r.Some? ==>
              var d := DecodeBodyAsWritten(s).value;
              && r.value.state.buffer == d.1.buffer
              && (d.0.None? ==> r.value == Effect(d.1, Returns([])))
              && (r.value.outcome.Returns? && d.0.Some? ==>
                    r.value.outcome.value == Sse.AllMessages(Sse.Events(d.0.value)))
  {
    if s.isChunked && |s.buffer| > 0 then
      match DecodeBodyAsWritten(s)
      case None => None
      case Some(d) =>
        if d.0.None? then Some(Effect(d.1, Returns([])))
        else Some(ScanText(d.1, d.0.value, parse))
    else Some(ScanText(s, s.buffer, parse))
  }

  /** `extract_sse_messages` as evidently intended: every event is delivered
      once. The text after the last complete event is kept for the next call:
      in the buffer when the body is not chunked, and as `sseText` when it
      is (the chunk decoder consumes the buffer). When the scan raises, the
      kept text is left as it was. */
  function ExtractSseMessages(s: Stream, parse: Parser): (r: Effect<Stream, seq<string>>)
    ensures r.state.(buffer := s.buffer, detected := s.detected, sseText := s.sseText) == s
    ensures r.state.detected == s.detected || r.state.detected == HttpSse
    ensures !s.isChunked || |s.buffer| == 0 ==>
              && r.state.sseText == s.sseText
              && (r.outcome.Returns? ==>
                    && r.outcome.value == Sse.AllMessages(Sse.Events(s.buffer))
                    && r.state.buffer == Sse.Pending(s.buffer))
    ensures s.isChunked && |s.buffer| > 0 ==>
              var d := DecodeBody(s);
              var t := s.sseText + d.0.GetOr([]);
              && r.state.buffer == d.1.buffer
              && (r.outcome.Returns? ==>
                    && r.outcome.value == Sse.AllMessages(Sse.Events(t))
                    && r.state.sseText == Sse.Pending(t))
    ensures r.outcome.Raises? ==> r.state.sseText == s.sseText
  {
    if s.isChunked && |s.buffer| > 0 then
      var d := DecodeBody(s);
      var t := s.sseText + d.0.GetOr([]);
      var r := ScanText(d.1, t, parse);
      if r.outcome.Returns? then Effect(r.state.(sseText := Sse.Pending(t)), r.outcome) else r
    else
      var r := ScanText(s, s.buffer, parse);
      if r.outcome.Returns? then Effect(r.state.(buffer := Sse.Pending(s.buffer)), r.outcome) else r
  }

  // ---------------------------------------------------------------------
  // Delivery over several packets

  /** As written, a body that is not chunked is scanned from its start on
      every call, so a second call returns again every message the first
      one returned. */
  lemma WrittenScanRepeats(s: Stream, parse: Parser)
    requires !s.isChunked
    requires ExtractSseMessagesAsWritten(s, parse).value.outcome.Returns?
    ensures var r := ExtractSseMessagesAsWritten(s, parse).value;
            ExtractSseMessagesAsWritten(r.state, parse).value.outcome == r.outcome
  {
    var r := ExtractSseMessagesAsWritten(s, parse).value;
    Sse.ScanEventsOutcomeIndependent(Sse.Events(s.buffer), s.detected, r.state.detected, parse);
  }

  /** An event stream that is not chunked, holding the written messages
      `js1`, then receiving `js2`: the second call, as written, returns
      `js1` again before `js2`. */
  lemma NonChunkedRedeliveredAsWritten(s: Stream, js1: seq<string>, js2: seq<string>, parse: Parser)
    requires s.responseHeaders.Some? && !s.isChunked
    requires s.buffer == Sse.DataEvents(js1) && Sse.Served(js1) && Sse.Served(js2)
    ensures var r1 := ExtractSseMessagesAsWritten(s, parse).value;
            var r2 := ExtractSseMessagesAsWritten(AddResponseData(r1.state, Sse.DataEvents(js2)).state, parse).value;
            r1.outcome == Returns(js1) && r2.outcome == Returns(js1 + js2)
  {
    Sse.ScanDataEvents(js1, s.detected, parse);
    assert Sse.Served(js1 + js2);
    Sse.DataEventsAppend(js1, js2);
    Sse.ScanDataEvents(js1 + js2, s.detected, parse);
  }

  /** The same stream with the corrected extraction: each message is
      returned once. */
  lemma NonChunkedDeliveredOnce(s: Stream, js1: seq<string>, js2: seq<string>, parse: Parser)
    requires s.responseHeaders.Some? && !s.isChunked
    requires s.buffer == Sse.DataEvents(js1) && Sse.Served(js1) && Sse.Served(js2)
    ensures var r1 := ExtractSseMessages(s, parse);
            var r2 := ExtractSseMessages(AddResponseData(r1.state, Sse.DataEvents(js2)).state, parse);
            r1.outcome == Returns(js1) && r2.outcome == Returns(js2)
  {
    Sse.ScanDataEvents(js1, s.detected, parse);
    assert [] + Sse.DataEvents(js2) == Sse.DataEvents(js2);
    Sse.ScanDataEvents(js2, s.detected, parse);
  }

  /** With the corrected extraction, two calls on a body that is not
      chunked, with `more` arriving between them, return together the
      messages of all the events complete in the whole text, each once. */
  lemma NonChunkedExactlyOnce(s: Stream, more: string, parse: Parser)
    requires s.responseHeaders.Some? && !s.isChunked
    requires ExtractSseMessages(s, parse).outcome.Returns?
    ensures var r1 := ExtractSseMessages(s, parse);
            var r2 := ExtractSseMessages(AddResponseData(r1.state, more).state, parse);
            && r2.state.buffer == (if r2.outcome.Returns? then Sse.Pending(s.buffer + more)
                                   else Sse.Pending(s.buffer) + more)
            && (r2.outcome.Returns? ==>
                  r1.outcome.value + r2.outcome.value == Sse.AllMessages(Sse.Events(s.buffer + more)))
  {
    Sse.EventsResume(s.buffer, more);
  }

  /** With the corrected extraction, two calls on a chunked body, whatever
      arrives between them, return together the messages of all the events
      complete in the decoded text, each once. */
  lemma ChunkedExactlyOnce(s: Stream, more: string, parse: Parser)
    requires s.responseHeaders.Some? && s.isChunked && |s.buffer| > 0
    requires ExtractSseMessages(s, parse).outcome.Returns?
    ensures var r1 := ExtractSseMessages(s, parse);
            var s2 := AddResponseData(r1.state, more).state;
            var r2 := ExtractSseMessages(s2, parse);
            var d1 := DecodeBody(s).0.GetOr([]);
            var d2 := if |s2.buffer| > 0 then DecodeBody(s2).0.GetOr([]) else [];
            r2.outcome.Returns? ==>
              && r1.outcome.value + r2.outcome.value == Sse.AllMessages(Sse.Events(s.sseText + d1 + d2))
              && r2.state.sseText == Sse.Pending(s.sseText + d1 + d2)
  {
    var r1 := ExtractSseMessages(s, parse);
    var t1 := s.sseText + DecodeBody(s).0.GetOr([]);
    assert r1.outcome.value == Sse.AllMessages(Sse.Events(t1)) && r1.state.sseText == Sse.Pending(t1);
    var s2 := AddResponseData(r1.state, more).state;
    assert s2 == r1.state.(buffer := r1.state.buffer + more);
    var r2 := ExtractSseMessages(s2, parse);
    var d2 := if |s2.buffer| > 0 then DecodeBody(s2).0.GetOr([]) else [];
    if r2.outcome.Returns? {
      assert r2.outcome.value == Sse.AllMessages(Sse.Events(Sse.Pending(t1) + d2))
          && r2.state.sseText == Sse.Pending(Sse.Pending(t1) + d2) by {
        Sse.PendingHoldsNoEvent(t1);
        KeptStep(s2, parse);
      }
      Sse.EventsResume(t1, d2);
    }
  }

  /** One corrected extraction on a chunked stream whose kept text holds no
      complete event: its messages are those of the kept text followed by
      what is decoded now, and it keeps what follows their last event. */
  lemma KeptStep(s: Stream, parse: Parser)
    requires s.isChunked && Sse.EventEnd(s.sseText) == -1
    ensures var r := ExtractSseMessages(s, parse);
            var d := if |s.buffer| > 0 then DecodeBody(s).0.GetOr([]) else [];
            r.outcome.Returns? ==>
              && r.outcome.value == Sse.AllMessages(Sse.Events(s.sseText + d))
              && r.state.sseText == Sse.Pending(s.sseText + d)
  {
    if |s.buffer| == 0 {
      assert s.sseText + [] == s.sseText;
      assert Sse.Events([]) == [] && Sse.Events(s.sseText) == [] && Sse.Pending(s.sseText) == s.sseText;
    }
  }

  /** A chunked body holding one complete chunk: it is decoded and the
      buffer emptied. */
  lemma DecodeOneChunk(s: Stream, c: string)
    requires |c| > 0 && s.buffer == Chunked.EncodeChunk(c)
    ensures DecodeBody(s) == (Some(c), s.(buffer := []))
    ensures DecodeBodyAsWritten(s) == Some((Some(c), s.(buffer := [])))
  {
    Chunked.HexSizeReadsEveryHex();
    assert Chunked.EncodeChunks([c]) + [] == s.buffer;
    assert !Seqs.Contains([], Chunked.Crlf);
    Chunked.ChunkedStopsAtTail([c], [], Chunked.HexSize);
    assert Seqs.Concat([c]) == c;
  }

  /** The corrected extraction of a chunked body once decoded. */
  function ScanKept(s: Stream, t: string, parse: Parser): Effect<Stream, seq<string>> {
    var r := ScanText(s, t, parse);
    if r.outcome.Returns? then Effect(r.state.(sseText := Sse.Pending(t)), r.outcome) else r
  }

  lemma OneChunkRead(s: Stream, c: string, parse: Parser)
    requires s.isChunked && |c| > 0 && s.buffer == Chunked.EncodeChunk(c)
    ensures ExtractSseMessagesAsWritten(s, parse) == Some(ScanText(s.(buffer := []), c, parse))
    ensures ExtractSseMessages(s, parse) == ScanKept(s.(buffer := []), s.sseText + c, parse)
  {
    DecodeOneChunk(s, c);
  }

  /** Scanning text that holds no complete event. */
  lemma ScanNoEvent(s: Stream, t: string, parse: Parser)
    requires '\n' !in t
    ensures ScanText(s, t, parse) == Effect(s, Returns([]))
    ensures ScanKept(s, t, parse) == Effect(s.(sseText := t), Returns([]))
  {
    Sse.NoNewlineNoEvent(t);
  }

  /** Scanning a lone blank line. */
  lemma ScanBlank(s: Stream, parse: Parser)
    ensures ScanText(s, Sse.LfBlank, parse) == Effect(s, Returns([]))
  {
    Sse.BlankEvent(s.detected, parse);
  }

  /** Scanning written events. */
  lemma ScanWritten(s: Stream, js: seq<string>, parse: Parser)
    requires Sse.Served(js)
    ensures ScanText(s, Sse.DataEvents(js), parse) == Effect(s, Returns(js))
    ensures ScanKept(s, Sse.DataEvents(js), parse) == Effect(s.(sseText := []), Returns(js))
  {
    Sse.ScanDataEvents(js, s.detected, parse);
  }

  /** An event cut across two chunk reads, as written: the first read
      holds the data line, the second the blank line that ends it; the
      message is never returned. */
  lemma ChunkSplitEventLostAsWritten(s: Stream, j: string, parse: Parser)
    requires s.responseHeaders.Some? && s.isChunked
    requires s.buffer == Chunked.EncodeChunk(Sse.DataPrefix + j) && Sse.Served([j])
    ensures var r1 := ExtractSseMessagesAsWritten(s, parse);
            && r1 == Some(Effect(s.(buffer := []), Returns([])))
            && ExtractSseMessagesAsWritten(AddResponseData(r1.value.state, Chunked.EncodeChunk(Sse.LfBlank)).state, parse)
               == Some(Effect(s.(buffer := []), Returns([])))
  {
    var blank := Chunked.EncodeChunk(Sse.LfBlank);
    var r1 := ExtractSseMessagesAsWritten(s, parse);
    assert r1 == Some(Effect(s.(buffer := []), Returns([]))) by {
      assert Sse.Sendable([j][0]);
      DataLineRead(s, Sse.DataPrefix + j, parse);
    }
    var s2 := AddResponseData(r1.value.state, blank).state;
    assert s2 == s.(buffer := blank) by {
      assert [] + blank == blank;
    }
    BlankLineRead(s2, parse);
  }

  /** A read of a chunk holding a line that is not yet an event. */
  lemma DataLineRead(s: Stream, line: string, parse: Parser)
    requires s.isChunked && |line| > 0 && '\n' !in line && s.buffer == Chunked.EncodeChunk(line)
    ensures ExtractSseMessagesAsWritten(s, parse) == Some(Effect(s.(buffer := []), Returns([])))
    ensures ExtractSseMessages(s, parse) == Effect(s.(buffer := [], sseText := s.sseText + line), Returns([]))
              || '\n' in s.sseText
  {
    OneChunkRead(s, line, parse);
    ScanNoEvent(s.(buffer := []), line, parse);
    if '\n' !in s.sseText {
      assert '\n' !in s.sseText + line;
      ScanNoEvent(s.(buffer := []), s.sseText + line, parse);
    }
  }

  /** A read, as written, of a chunk holding the blank line alone. */
  lemma BlankLineRead(s: Stream, parse: Parser)
    requires s.isChunked && s.buffer == Chunked.EncodeChunk(Sse.LfBlank)
    ensures ExtractSseMessagesAsWritten(s, parse) == Some(Effect(s.(buffer := []), Returns([])))
  {
    OneChunkRead(s, Sse.LfBlank, parse);
    ScanBlank(s.(buffer := []), parse);
  }

  /** A read, corrected, of a chunk holding the blank line that ends the
      kept data line. */
  lemma BlankLineEndsKept(s: Stream, j: string, parse: Parser)
    requires s.isChunked && s.buffer == Chunked.EncodeChunk(Sse.LfBlank)
    requires s.sseText == Sse.DataPrefix + j && Sse.Served([j])
    ensures ExtractSseMessages(s, parse).outcome == Returns([j])
  {
    OneChunkRead(s, Sse.LfBlank, parse);
    Sse.DataEventsSingle(j);
    ScanWritten(s.(buffer := []), [j], parse);
  }

  /** The same event with the corrected extraction: the data line is kept
      and the message returned once its blank line arrives. */
  lemma ChunkSplitEventDelivered(s: Stream, j: string, parse: Parser)
    requires s.responseHeaders.Some? && s.isChunked && s.sseText == []
    requires s.buffer == Chunked.EncodeChunk(Sse.DataPrefix + j) && Sse.Served([j])
    ensures var r1 := ExtractSseMessages(s, parse);
            var r2 := ExtractSseMessages(AddResponseData(r1.state, Chunked.EncodeChunk(Sse.LfBlank)).state, parse);
            r1.outcome == Returns([]) && r2.outcome == Returns([j])
  {
    var line := Sse.DataPrefix + j;
    var blank := Chunked.EncodeChunk(Sse.LfBlank);
    var r1 := ExtractSseMessages(s, parse);
    assert r1 == Effect(s.(buffer := [], sseText := line), Returns([])) by {
      assert Sse.Sendable([j][0]);
      DataLineRead(s, line, parse);
      assert s.sseText + line == line;
    }
    var s2 := AddResponseData(r1.state, blank).state;
    assert s2 == s.(buffer := blank, sseText := line) by {
      assert [] + blank == blank;
    }
    BlankLineEndsKept(s2, j, parse);
  }

  /** A chunked body as a server writes it, decoded. */
  lemma DecodeWritten(s: Stream, cs: seq<string>, rest: string)
    requires s.buffer == Chunked.EncodeChunks(cs) + Chunked.LastChunkLine + rest
    requires forall i :: 0 <= i < |cs| ==> |cs[i]| > 0
    ensures |s.buffer| > 0
    ensures DecodeBody(s) == (if |Seqs.Concat(cs)| == 0 then None else Some(Seqs.Concat(cs)), s.(buffer := rest))
    ensures DecodeBodyAsWritten(s) == Some(DecodeBody(s))
  {
    Chunked.HexSizeReadsEveryHex();
    Chunked.ChunkedRoundTrip(cs, rest, Chunked.HexSize);
  }

  /** A chunked event stream as a server writes it: chunks whose text is
      the written events, the last chunk, then `rest`. The written
      extraction returns exactly the messages written and leaves `rest` in
      the buffer. */
  lemma ChunkedSseRoundTripAsWritten(s: Stream, cs: seq<string>, rest: string, js: seq<string>, parse: Parser)
    requires s.isChunked && s.buffer == Chunked.EncodeChunks(cs) + Chunked.LastChunkLine + rest
    requires forall i :: 0 <= i < |cs| ==> |cs[i]| > 0
    requires Seqs.Concat(cs) == Sse.DataEvents(js) && Sse.Served(js)
    ensures ExtractSseMessagesAsWritten(s, parse) == Some(Effect(s.(buffer := rest), Returns(js)))
  {
    DecodeWritten(s, cs, rest);
    ScanWritten(s.(buffer := rest), js, parse);
    if |js| > 0 {
      assert |Sse.DataEvents(js)| > 0;
    }
  }

  /** The same with the corrected extraction, from a stream keeping no
      text. */
  lemma ChunkedSseRoundTrip(s: Stream, cs: seq<string>, rest: string, js: seq<string>, parse: Parser)
    requires s.isChunked && s.buffer == Chunked.EncodeChunks(cs) + Chunked.LastChunkLine + rest
    requires forall i :: 0 <= i < |cs| ==> |cs[i]| > 0
    requires Seqs.Concat(cs) == Sse.DataEvents(js) && Sse.Served(js)
    requires s.sseText == []
    ensures ExtractSseMessages(s, parse) == Effect(s.(buffer := rest), Returns(js))
  {
    DecodeWritten(s, cs, rest);
    assert [] + Sse.DataEvents(js) == Sse.DataEvents(js);
    ScanWritten(s.(buffer := rest), js, parse);
  }

  /** Complete chunks followed by one still arriving: the extraction as
      written scans the chunks' text but puts the whole buffer back, so the
      same chunks are decoded and their messages returned again on the next
      call. */
  lemma PartialChunkKeptWhole(s: Stream, cs: seq<string>, tail: string, parse: Parser)
    requires s.isChunked && s.buffer == Chunked.EncodeChunks(cs) + tail
    requires forall i :: 0 <= i < |cs| ==> |cs[i]| > 0
    requires |cs| > 0 && Chunked.ReadChunk(tail, Chunked.HexSize) == Chunked.Short
    ensures ExtractSseMessagesAsWritten(s, parse) == Some(ScanText(s, Seqs.Concat(cs), parse))
  {
    PartialChunkDecoded(s, cs, tail);
    DecodedThenScanned(s, Seqs.Concat(cs), parse);
  }

  /** The decoder as written on complete chunks followed by one still
      arriving: their text, and the buffer left whole. */
  lemma PartialChunkDecoded(s: Stream, cs: seq<string>, tail: string)
    requires s.buffer == Chunked.EncodeChunks(cs) + tail
    requires forall i :: 0 <= i < |cs| ==> |cs[i]| > 0
    requires |cs| > 0 && Chunked.ReadChunk(tail, Chunked.HexSize) == Chunked.Short
    ensures |s.buffer| > 0
    ensures DecodeBodyAsWritten(s) == Some((Some(Seqs.Concat(cs)), s))
  {
    assert |Seqs.Concat(cs)| > 0 by {
      Chunked.ConcatAssoc(cs, []);
      assert Seqs.Concat(cs) + [] == Seqs.Concat(cs);
    }
    assert |Chunked.EncodeChunk(cs[0])| > 0;
    var x := Seqs.Concat(cs);
    assert Chunked.ExtractChunkedDataAsWritten(s.buffer, Chunked.HexSize) == Some(Chunked.Finish(x, s.buffer)) by {
      Chunked.HexSizeReadsEveryHex();
      Chunked.ChunkedStopsAtTail(cs, tail, Chunked.HexSize);
    }
    assert Chunked.Finish(x, s.buffer) == Chunked.ChunkResult(Some(x), s.buffer);
  }

  /** When the decoder as written gives text back and leaves the buffer,
      the extraction as written scans that text and leaves the buffer too. */
  lemma DecodedThenScanned(s: Stream, x: string, parse: Parser)
    requires s.isChunked && |s.buffer| > 0 && DecodeBodyAsWritten(s) == Some((Some(x), s))
    ensures ExtractSseMessagesAsWritten(s, parse) == Some(ScanText(s, x, parse))
  {
  }

  /** The corrected extraction on the same buffer keeps only the unfinished
      chunk. */
  lemma PartialChunkTail(s: Stream, cs: seq<string>, tail: string, parse: Parser)
    requires s.isChunked && s.buffer == Chunked.EncodeChunks(cs) + tail
    requires forall i :: 0 <= i < |cs| ==> |cs[i]| > 0
    requires |cs| > 0 && Chunked.ReadChunk(tail, Chunked.HexSize) == Chunked.Short
    ensures ExtractSseMessages(s, parse).state.buffer == tail
  {
    assert |s.buffer| > 0 by {
      assert |Chunked.EncodeChunk(cs[0])| > 0;
    }
    assert DecodeBody(s).1.buffer == tail by {
      Chunked.HexSizeReadsEveryHex();
      Chunked.ChunkedStopsAtTail(cs, tail, Chunked.HexSize);
    }
  }

  /** A chunk size line reading `-6`: the extraction as written never
      returns; the corrected one leaves the buffer for more data. */
  lemma NegativeSizeStalls(s: Stream, parse: Parser)
    requires s.isChunked && s.buffer == Chunked.NegativeSizeLine
    ensures ExtractSseMessagesAsWritten(s, parse).None?
    ensures ExtractSseMessages(s, parse).state.buffer == Chunked.NegativeSizeLine
  {
    Chunked.NegativeSizeNeverReturns();
  }
}
