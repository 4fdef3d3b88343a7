/** MCP transport detection and the per-connection transport table
    (`mcphawk/transport_detector.py`). */
module Transport {
  import opened Wrappers
  import opened Json
  import opened Net
  import Seqs

  datatype McpTransport = Stdio | StreamableHttp | HttpSse | Unknown

  /** HTTP headers with lower-cased names, as the reassembler stores them. */
  type Headers = map<string, string>

  /** `headers.get("accept", "").lower()`. */
  function AcceptOf(headers: Headers): string {
    Seqs.Lower(if "accept" in headers then headers["accept"] else "")
  }

  /** The legacy HTTP+SSE opening request: a GET accepting exactly the event stream. */
  predicate IsSseGet(httpMethod: string, headers: Headers) {
    httpMethod == "GET" && AcceptOf(headers) == "text/event-stream"
  }

  /** A Streamable HTTP request: a POST accepting both JSON and the event stream. */
  predicate IsDualAcceptPost(httpMethod: string, headers: Headers) {
    httpMethod == "POST"
    && Seqs.Contains(AcceptOf(headers), "application/json")
    && Seqs.Contains(AcceptOf(headers), "text/event-stream")
  }

  /** `detect_transport_from_http`. The path and the endpoint-event flag are
      accepted but never change the answer. */
  function DetectTransportFromHttp(httpMethod: string, path: string, headers: Headers,
                                   isSseResponse: bool, endpointEvent: bool): (t: McpTransport)
    ensures IsSseGet(httpMethod, headers) ==> t == HttpSse
    ensures t == StreamableHttp <==>
      !IsSseGet(httpMethod, headers) && httpMethod == "POST" && (IsDualAcceptPost(httpMethod, headers) || isSseResponse)
    ensures t == HttpSse <==>
      IsSseGet(httpMethod, headers) || (!IsDualAcceptPost(httpMethod, headers) && isSseResponse && httpMethod != "POST")
    ensures t == Unknown <==>
      !IsSseGet(httpMethod, headers) && !IsDualAcceptPost(httpMethod, headers) && !isSseResponse
    ensures t != Stdio
  {
    if IsSseGet(httpMethod, headers) then HttpSse  // with or without the endpoint event
    else if IsDualAcceptPost(httpMethod, headers) then StreamableHttp
    else if isSseResponse then (if httpMethod == "POST" then StreamableHttp else HttpSse)
    else Unknown
  }

  /** The decision never depends on the request path or on the endpoint event. */
  lemma DetectIgnoresPathAndEndpoint(httpMethod: string, headers: Headers, sse: bool,
                                     p1: string, e1: bool, p2: string, e2: bool)
    ensures DetectTransportFromHttp(httpMethod, p1, headers, sse, e1)
         == DetectTransportFromHttp(httpMethod, p2, headers, sse, e2)
  {
  }

  /** The value of the last line that starts with `prefix` (the rest of the
      line after the prefix, passed through `clean`), looking from the end. */
  function LastValue(lines: seq<string>, prefix: string, clean: string -> string): Option<string> {
    if |lines| == 0 then None
    else
      var l := lines[|lines| - 1];
      if Seqs.StartsWith(l, prefix) then Some(clean(l[|prefix|..]))
      else LastValue(lines[..|lines| - 1], prefix, clean)
  }

  /** The loop of `extract_endpoint_from_sse`: each `event:` line overwrites
      the event type and each `data:` line the data, front to back; `clean`
      is applied to the rest of the line (`str.strip` in the source). */
  function ScanSse(lines: seq<string>, event: Option<string>, data: Option<string>, clean: string -> string)
    : (r: (Option<string>, Option<string>))
  {
    if |lines| == 0 then (event, data)
    else
      var l := lines[0];
      if Seqs.StartsWith(l, "event:") then ScanSse(lines[1..], Some(clean(l[6..])), data, clean)
      else if Seqs.StartsWith(l, "data:") then ScanSse(lines[1..], event, Some(clean(l[5..])), clean)
      else ScanSse(lines[1..], event, data, clean)
  }

  /** `LastValue` of a sequence extended at the front. */
  lemma {:induction false} LastValueCons(l: string, rest: seq<string>, prefix: string, clean: string -> string)
    ensures LastValue([l] + rest, prefix, clean) ==
      if LastValue(rest, prefix, clean).Some? then LastValue(rest, prefix, clean)
      else if Seqs.StartsWith(l, prefix) then Some(clean(l[|prefix|..]))
      else None
    decreases |rest|
  {
    var s := [l] + rest;
    if |rest| == 0 {
      assert s == [l];
      assert s[..|s| - 1] == [];
    } else {
      assert s[|s| - 1] == rest[|rest| - 1];
      assert s[..|s| - 1] == [l] + rest[..|rest| - 1];
      LastValueCons(l, rest[..|rest| - 1], prefix, clean);
    }
  }

  /** The loop keeps the value of the last `event:` line and of the last
      `data:` line, or the starting values when there is none. */
  lemma {:induction false} ScanSseKeepsLast(lines: seq<string>, event: Option<string>, data: Option<string>,
                                            clean: string -> string)
    ensures ScanSse(lines, event, data, clean) ==
      ( if LastValue(lines, "event:", clean).Some? then LastValue(lines, "event:", clean) else event,
        if LastValue(lines, "data:", clean).Some? then LastValue(lines, "data:", clean) else data )
    decreases |lines|
  {
    if |lines| > 0 {
      var l := lines[0];
      assert lines == [l] + lines[1..];
      LastValueCons(l, lines[1..], "event:", clean);
      LastValueCons(l, lines[1..], "data:", clean);
      if Seqs.StartsWith(l, "event:") {
        assert l[0] == 'e';
        ScanSseKeepsLast(lines[1..], Some(clean(l[6..])), data, clean);
      } else if Seqs.StartsWith(l, "data:") {
        ScanSseKeepsLast(lines[1..], event, Some(clean(l[5..])), clean);
      } else {
        ScanSseKeepsLast(lines[1..], event, data, clean);
      }
    }
  }

  /** The lines of an SSE text: `sse_data.strip().split('\n')`. */
  function SseLines(sse: string): seq<string> {
    Seqs.Split(Seqs.Strip(sse), "\n")
  }

  /** `extract_endpoint_from_sse`: the `url` member of the last `data:` value
      when the last `event:` value is `endpoint` (`JNull` for `None`). Data
      that is valid JSON but not an object makes `.get` raise `AttributeError`,
      which the source does not catch. */
  function ExtractEndpointFromSse(sse: string, parse: Parser): (r: Outcome<Json>)
    ensures var ev := LastValue(SseLines(sse), "event:", Seqs.Strip);
            var data := LastValue(SseLines(sse), "data:", Seqs.Strip);
            && (r.Returns? && r.value != JNull <==>
                  ev == Some("endpoint") && data.Some? && |data.value| > 0
                  && parse(data.value).Some? && parse(data.value).value.JObj?
                  && Get(parse(data.value).value.fields, "url") != JNull)
            && (r.Returns? && r.value != JNull ==> r.value == Get(parse(data.value).value.fields, "url"))
            && (r.Raises? <==>
                  ev == Some("endpoint") && data.Some? && |data.value| > 0
                  && parse(data.value).Some? && !parse(data.value).value.JObj?)
  {
    var lines := SseLines(sse);
    ScanSseKeepsLast(lines, None, None, Seqs.Strip);
    var (event, data) := ScanSse(lines, None, None, Seqs.Strip);
    if event == Some("endpoint") && data.Some? && |data.value| > 0 then
      match parse(data.value)
      case None => Returns(JNull)
      case Some(v) => if v.JObj? then Returns(Get(v.fields, "url")) else Raises("AttributeError")
    else Returns(JNull)
  }

  /** `TransportTracker`: transports per directed connection, endpoint URLs per
      connection, and the endpoints known to serve HTTP+SSE. */
  datatype Tracker = Tracker(
    transports: map<ConnKey, McpTransport>,
    endpointUrls: map<ConnKey, string>,
    httpSseServers: map<Endpoint, McpTransport>)

  const EmptyTracker := Tracker(map[], map[], map[])

  /** `update_transport`: a known transport is recorded for the connection in
      both directions, and an HTTP+SSE one also marks the destination as a
      server; `Unknown` changes nothing. */
  function UpdateTransport(t: Tracker, key: ConnKey, transport: McpTransport): (r: Tracker)
    ensures transport == Unknown ==> r == t
    ensures transport != Unknown ==>
      && key in r.transports && r.transports[key] == transport
      && key.Reverse() in r.transports && r.transports[key.Reverse()] == transport
      && r.transports.Keys == t.transports.Keys + {key, key.Reverse()}
      && (forall k :: k in t.transports && k != key && k != key.Reverse() ==> r.transports[k] == t.transports[k])
    ensures r.endpointUrls == t.endpointUrls
    ensures transport == HttpSse ==>
      && key.Dst() in r.httpSseServers && r.httpSseServers[key.Dst()] == HttpSse
      && r.httpSseServers.Keys == t.httpSseServers.Keys + {key.Dst()}
      && (forall e :: e in t.httpSseServers && e != key.Dst() ==> r.httpSseServers[e] == t.httpSseServers[e])
    ensures transport != HttpSse ==> r.httpSseServers == t.httpSseServers
  {
    if transport == Unknown then t
    else
      var transports := t.transports[key := transport][key.Reverse() := transport];
      var servers := if transport == HttpSse then t.httpSseServers[key.Dst() := transport]
                     else t.httpSseServers;
      t.(transports := transports, httpSseServers := servers)
  }

  /** `get_transport`: the exact connection first, then the destination as a
      known HTTP+SSE server, then the source, else `Unknown`. */
  function GetTransport(t: Tracker, key: ConnKey): (r: McpTransport)
    ensures key in t.transports ==> r == t.transports[key]
    ensures key !in t.transports && key.Dst() in t.httpSseServers ==> r == t.httpSseServers[key.Dst()]
    ensures key !in t.transports && key.Dst() !in t.httpSseServers && key.Src() in t.httpSseServers
            ==> r == t.httpSseServers[key.Src()]
    ensures r == Unknown <==>
      if key in t.transports then t.transports[key] == Unknown
      else if key.Dst() in t.httpSseServers then t.httpSseServers[key.Dst()] == Unknown
      else key.Src() !in t.httpSseServers || t.httpSseServers[key.Src()] == Unknown
  {
    if key in t.transports then t.transports[key]
    else if key.Dst() in t.httpSseServers then t.httpSseServers[key.Dst()]
    else if key.Src() in t.httpSseServers then t.httpSseServers[key.Src()]
    else Unknown
  }

  /** `store_endpoint_url`: sets exactly the given key. */
  function StoreEndpointUrl(t: Tracker, key: ConnKey, url: string): (r: Tracker)
    ensures key in r.endpointUrls && r.endpointUrls[key] == url
    ensures r.endpointUrls.Keys == t.endpointUrls.Keys + {key}
    ensures forall k :: k in t.endpointUrls && k != key ==> r.endpointUrls[k] == t.endpointUrls[k]
    ensures r.transports == t.transports && r.httpSseServers == t.httpSseServers
  {
    t.(endpointUrls := t.endpointUrls[key := url])
  }

  /** A recorded transport is what both directions of the connection read back. */
  lemma UpdateThenGet(t: Tracker, key: ConnKey, transport: McpTransport)
    requires transport != Unknown
    ensures GetTransport(UpdateTransport(t, key, transport), key) == transport
    ensures GetTransport(UpdateTransport(t, key, transport), key.Reverse()) == transport
  {
  }

  /** Once an HTTP+SSE connection is recorded, any connection to or from that
      server that has no entry of its own reads as HTTP+SSE, unless its
      destination is a server recorded with another transport. */
  lemma HttpSseServerCoversNewConnections(t: Tracker, key: ConnKey, other: ConnKey)
    requires other !in UpdateTransport(t, key, HttpSse).transports
    requires other.Dst() == key.Dst() || other.Src() == key.Dst()
    requires other.Dst() in t.httpSseServers ==> t.httpSseServers[other.Dst()] == HttpSse
    ensures GetTransport(UpdateTransport(t, key, HttpSse), other) == HttpSse
  {
  }

  /** Recording the same transport twice is the same as recording it once. */
  lemma UpdateIdempotent(t: Tracker, key: ConnKey, transport: McpTransport)
    ensures UpdateTransport(UpdateTransport(t, key, transport), key, transport)
         == UpdateTransport(t, key, transport)
  {
  }
}
