/** Cutting a server-sent event stream into events and taking the JSON
    messages out of their `data:` lines, as `HTTPStream.extract_sse_messages`
    in `mcphawk/tcp_reassembly.py` does it. An event ends at a blank line,
    written `\r\n\r\n` or `\n\n` (the event stream format of the
    "Server-sent events" section of the WHATWG HTML Standard, restricted to
    these two line ends). */
module Sse {
  import opened Wrappers
  import opened Json
  import Seqs
  import opened Transport

  const CrlfBlank: string := "\r\n\r\n"
  const LfBlank: string := "\n\n"

  /** A text that ends an event: it ends with one of the two blank lines. */
  predicate EndsEvent(s: string) {
    Seqs.EndsWith(s, CrlfBlank) || Seqs.EndsWith(s, LfBlank)
  }

  /** `msg_end`: the end of the earlier of the first `\r\n\r\n` and the first
      `\n\n`, or -1 when there is neither. It is the length of the shortest
      prefix that ends an event. */
  function EventEnd(data: string): (e: int)
    ensures e == -1 ==> forall m {:trigger EndsEvent(data[..m])} :: 0 <= m <= |data| ==> !EndsEvent(data[..m])
    ensures e != -1 ==> 0 < e <= |data| && EndsEvent(data[..e])
    ensures e != -1 ==> forall m {:trigger EndsEvent(data[..m])} :: 0 <= m < e ==> !EndsEvent(data[..m])
  {
    var c := Seqs.Find(data, CrlfBlank);
    var l := Seqs.Find(data, LfBlank);
    var e := if c >= 0 && (l < 0 || c < l) then c + 4 else if l >= 0 then l + 2 else -1;
    EventEndShortest(data, c, l, e);
    e
  }

  /** A prefix of `data` ends with `p` exactly when `p` occurs in `data` just before the prefix's end. */
  lemma EndsAt(data: string, p: string, m: int)
    requires 0 <= m <= |data|
    ensures Seqs.EndsWith(data[..m], p) <==> m >= |p| && Seqs.OccursAt(data, p, m - |p|)
  {
    if m >= |p| {
      assert data[..m][m - |p|..] == data[m - |p|..m];
    }
  }

  /** A prefix ends no event when neither blank line ends just before its end. */
  lemma NotEndsEventAt(data: string, m: int)
    requires 0 <= m <= |data|
    requires m >= 4 ==> !Seqs.OccursAt(data, CrlfBlank, m - 4)
    requires m >= 2 ==> !Seqs.OccursAt(data, LfBlank, m - 2)
    ensures !EndsEvent(data[..m])
  {
    EndsAt(data, CrlfBlank, m);
    EndsAt(data, LfBlank, m);
  }

  /** No `\n\n` starts one or two places after a `\r\n\r\n`. */
  lemma NoLfBlankInside(data: string, c: int, k: int)
    requires Seqs.OccursAt(data, CrlfBlank, c) && (k == c || k == c + 1)
    ensures !Seqs.OccursAt(data, LfBlank, k)
  {
    assert data[c..c + 4][k - c] == data[k];
    assert data[c..c + 4][k - c + 1] == data[k + 1];
  }

  lemma EventEndShortest(data: string, c: int, l: int, e: int)
    requires c == Seqs.Find(data, CrlfBlank) && l == Seqs.Find(data, LfBlank)
    requires e == if c >= 0 && (l < 0 || c < l) then c + 4 else if l >= 0 then l + 2 else -1
    ensures e == -1 ==> forall m {:trigger EndsEvent(data[..m])} :: 0 <= m <= |data| ==> !EndsEvent(data[..m])
    ensures e != -1 ==> 0 < e <= |data| && EndsEvent(data[..e])
    ensures e != -1 ==> forall m {:trigger EndsEvent(data[..m])} :: 0 <= m < e ==> !EndsEvent(data[..m])
  {
    if e != -1 {
      EndsAt(data, CrlfBlank, e);
      EndsAt(data, LfBlank, e);
    }
    if c >= 0 && l >= 0 {
      NoLfBlankInside(data, c, c);
    }
    forall m | 0 <= m <= |data| && (e == -1 || m < e)
      ensures !EndsEvent(data[..m])
    {
      if c >= 0 && (m - 2 == c || m - 2 == c + 1) {
        NoLfBlankInside(data, c, m - 2);
      }
      NotEndsEventAt(data, m);
    }
  }

  /** `EventEnd` is the only length with the shortest-prefix property. */
  lemma EventEndUnique(data: string, e: int)
    requires 0 < e <= |data| && EndsEvent(data[..e])
    requires forall m {:trigger EndsEvent(data[..m])} :: 0 <= m < e ==> !EndsEvent(data[..m])
    ensures EventEnd(data) == e
  {
  }

  /** More data after a complete event does not move its end. */
  lemma EventEndPrefix(x: string, y: string)
    requires EventEnd(x) != -1
    ensures EventEnd(x + y) == EventEnd(x)
  {
    var e := EventEnd(x);
    var d := x + y;
    assert EndsEvent(d[..e]) by {
      PrefixOfAppend(x, y, e);
    }
    forall m | 0 <= m < e ensures !EndsEvent(d[..m]) {
      PrefixOfAppend(x, y, m);
    }
    EventEndUnique(d, e);
  }

  lemma PrefixOfAppend(x: string, y: string, m: int)
    requires 0 <= m <= |x|
    ensures (x + y)[..m] == x[..m]
  {
  }

  /** The complete events at the front of `data`, in order: the `msg_data`
      of each turn of the loop. */
  function Events(data: string): (bs: seq<string>)
    decreases |data|
  {
    var e := EventEnd(data);
    if e == -1 then [] else [data[..e]] + Events(data[e..])
  }

  /** What follows the last complete event of `data`. */
  function Pending(data: string): string
    decreases |data|
  {
    var e := EventEnd(data);
    if e == -1 then data else Pending(data[e..])
  }

  /** Cutting loses nothing: the events and then the pending text give the
      data back; each event is exactly one event and the pending text holds
      none. */
  lemma EventsLossless(data: string)
    ensures Seqs.Concat(Events(data)) + Pending(data) == data
    ensures EventEnd(Pending(data)) == -1
    ensures forall i :: 0 <= i < |Events(data)| ==> EventEnd(Events(data)[i]) == |Events(data)[i]|
  {
    EventsConcat(data);
    PendingHoldsNoEvent(data);
    EventsAreWhole(data);
  }

  lemma {:induction false} EventsConcat(data: string)
    ensures Seqs.Concat(Events(data)) + Pending(data) == data
    decreases |data|
  {
    var e := EventEnd(data);
    if e != -1 {
      EventsConcat(data[e..]);
      EventsStep(data);
      ConcatStep(data, e, Events(data[e..]), Pending(data[e..]));
    }
  }

  /** Putting a cut-off front back in front of a lossless rest is lossless. */
  lemma ConcatStep(data: string, e: int, bs: seq<string>, p: string)
    requires 0 <= e <= |data| && Seqs.Concat(bs) + p == data[e..]
    ensures Seqs.Concat([data[..e]] + bs) + p == data
  {
    ConcatFront(data[..e], bs, p);
    assert data[..e] + data[e..] == data;
  }

  /** One turn of the cutting loop. */
  lemma EventsStep(data: string)
    requires EventEnd(data) != -1
    ensures Events(data) == [data[..EventEnd(data)]] + Events(data[EventEnd(data)..])
    ensures Pending(data) == Pending(data[EventEnd(data)..])
  {
  }

  lemma ConcatFront(b: string, bs: seq<string>, p: string)
    ensures Seqs.Concat([b] + bs) + p == b + (Seqs.Concat(bs) + p)
  {
    assert ([b] + bs)[1..] == bs;
  }

  lemma {:induction false} PendingHoldsNoEvent(data: string)
    ensures EventEnd(Pending(data)) == -1
    decreases |data|
  {
    var e := EventEnd(data);
    if e != -1 {
      PendingHoldsNoEvent(data[e..]);
    }
  }

  /** The first event of `data` is one event on its own. */
  lemma FirstEventWhole(data: string)
    requires EventEnd(data) != -1
    ensures EventEnd(data[..EventEnd(data)]) == EventEnd(data)
  {
    var e := EventEnd(data);
    var b := data[..e];
    forall m | 0 <= m < e ensures !EndsEvent(b[..m]) {
      assert b[..m] == data[..m];
    }
    assert b[..e] == b;
    EventEndUnique(b, e);
  }

  lemma {:induction false} EventsAreWhole(data: string)
    ensures forall i :: 0 <= i < |Events(data)| ==> EventEnd(Events(data)[i]) == |Events(data)[i]|
    decreases |data|
  {
    var e := EventEnd(data);
    if e != -1 {
      var whole := (s: string) => EventEnd(s) == |s|;
      var bs := Events(data[e..]);
      assert whole(data[..e]) by {
        FirstEventWhole(data);
      }
      assert forall i :: 0 <= i < |bs| ==> whole(bs[i]) by {
        EventsAreWhole(data[e..]);
      }
      ConsAll(whole, data[..e], bs);
      EventsStep(data);
    }
  }

  /** A property of the head and of every element of the tail holds for every element. */
  lemma ConsAll(p: string -> bool, b: string, bs: seq<string>)
    requires p(b)
    requires forall i :: 0 <= i < |bs| ==> p(bs[i])
    ensures forall i :: 0 <= i < |[b] + bs| ==> p(([b] + bs)[i])
  {
    forall i | 0 <= i < |[b] + bs|
      ensures p(([b] + bs)[i])
    {
      if i > 0 {
        assert ([b] + bs)[i] == bs[i - 1];
      }
    }
  }

  /** Events are found the same way whatever arrives later: the events of
      `data + more` are those of `data`, then those of its pending text
      followed by `more`. */
  lemma {:induction false} EventsAppend(data: string, more: string)
    ensures Events(data + more) == Events(data) + Events(Pending(data) + more)
    ensures Pending(data + more) == Pending(Pending(data) + more)
    decreases |data|
  {
    var e := EventEnd(data);
    if e != -1 {
      EventEndPrefix(data, more);
      assert (data + more)[..e] == data[..e];
      assert (data + more)[e..] == data[e..] + more;
      EventsAppend(data[e..], more);
      Seqs.AppendAssoc([data[..e]], Events(data[e..]), Events(Pending(data[e..]) + more));
    }
  }

  // ---------------------------------------------------------------------
  // Messages of an event

  /** The prefix of a data line. */
  const DataPrefix: string := "data: "

  /** The message of one line: for a `data: ` line, the rest stripped of
      white space when it is not empty and starts with `{`. */
  function LineMessage(line: string): (r: Option<string>)
    ensures r.Some? ==> |r.value| > 0 && r.value[0] == '{'
    ensures r.Some? ==> Seqs.StartsWith(line, DataPrefix)
  {
    if Seqs.StartsWith(line, DataPrefix) then
      var j := Seqs.Strip(line[|DataPrefix|..]);
      if |j| > 0 && j[0] == '{' then Some(j) else None
    else None
  }

  /** The messages of a list of lines, in order. */
  function LineMessages(lines: seq<string>): (ms: seq<string>)
    ensures |ms| <= |lines|
    ensures forall i :: 0 <= i < |ms| ==> |ms[i]| > 0 && ms[i][0] == '{'
    decreases |lines|
  {
    if |lines| == 0 then []
    else
      var rest := LineMessages(lines[1..]);
      match LineMessage(lines[0])
      case Some(j) => [j] + rest
      case None => rest
  }

  /** The messages of one event: its lines are cut at `\n`. */
  function EventMessages(event: string): seq<string> {
    LineMessages(Seqs.Split(event, "\n"))
  }

  /** The messages of a list of events, in order. */
  function AllMessages(events: seq<string>): seq<string>
    decreases |events|
  {
    if |events| == 0 then [] else EventMessages(events[0]) + AllMessages(events[1..])
  }

  lemma {:induction false} AllMessagesAppend(a: seq<string>, b: seq<string>)
    ensures AllMessages(a + b) == AllMessages(a) + AllMessages(b)
    decreases |a|
  {
    if |a| > 0 {
      assert (a + b)[1..] == a[1..] + b;
      AllMessagesAppend(a[1..], b);
      Seqs.AppendAssoc(EventMessages(a[0]), AllMessages(a[1..]), AllMessages(b));
    } else {
      assert a + b == b;
    }
  }

  // ---------------------------------------------------------------------
  // The loop over events

  /** The text whose presence makes an event a candidate endpoint event. */
  const EndpointEvent: string := "event: endpoint"

  /** The result of the endpoint check of one event: an exception escapes,
      or the transport after it. */
  function EndpointCheck(event: string, detected: McpTransport, parse: Parser): (r: Outcome<McpTransport>)
    ensures !Seqs.Contains(event, EndpointEvent) ==> r == Returns(detected)
    ensures r.Returns? ==> r.value == detected || r.value == HttpSse
  {
    if Seqs.Contains(event, EndpointEvent) then
      match ExtractEndpointFromSse(event, parse)
      case Raises(ex) => Raises(ex)
      case Returns(url) => Returns(if Truthy(url) then HttpSse else detected)
    else Returns(detected)
  }

  /** The loop of `extract_sse_messages` over the events in order: each
      event's endpoint check comes first, then its messages are collected.
      An exception from the check leaves the loop with the transport set by
      the events before it and loses the messages collected so far. */
  function ScanEvents(events: seq<string>, detected: McpTransport, parse: Parser)
    : (r: Effect<McpTransport, seq<string>>)
    ensures r.state == detected || r.state == HttpSse
    ensures r.outcome.Returns? ==> r.outcome.value == AllMessages(events)
    ensures (forall i :: 0 <= i < |events| ==> !Seqs.Contains(events[i], EndpointEvent))
            ==> r == Effect(detected, Returns(AllMessages(events)))
    decreases |events|
  {
    if |events| == 0 then Effect(detected, Returns([]))
    else
      match EndpointCheck(events[0], detected, parse)
      case Raises(ex) => Effect(detected, Raises(ex))
      case Returns(d) =>
        var rest := ScanEvents(events[1..], d, parse);
        match rest.outcome
        case Raises(ex) => rest
        case Returns(ms) => Effect(rest.state, Returns(EventMessages(events[0]) + ms))
  }

  /** Scanning two runs of events is scanning the first, then the second
      from the transport the first left, unless the first raised. */
  lemma {:induction false} ScanEventsAppend(a: seq<string>, b: seq<string>, detected: McpTransport, parse: Parser)
    ensures var ra := ScanEvents(a, detected, parse);
            var rab := ScanEvents(a + b, detected, parse);
            && (ra.outcome.Raises? ==> rab == ra)
            && (ra.outcome.Returns? ==>
                  var rb := ScanEvents(b, ra.state, parse);
                  && rab.state == rb.state
                  && (rab.outcome.Raises? <==> rb.outcome.Raises?))
    decreases |a|
  {
    if |a| > 0 {
      assert (a + b)[0] == a[0] && (a + b)[1..] == a[1..] + b;
      match EndpointCheck(a[0], detected, parse)
      case Raises(_) =>
      case Returns(d) => ScanEventsAppend(a[1..], b, d, parse);
    } else {
      assert a + b == b;
    }
  }

  /** Whether the scan raises, and what it returns, does not depend on the
      transport it starts from. */
  lemma {:induction false} ScanEventsOutcomeIndependent(events: seq<string>, d1: McpTransport, d2: McpTransport, parse: Parser)
    ensures ScanEvents(events, d1, parse).outcome == ScanEvents(events, d2, parse).outcome
    decreases |events|
  {
    if |events| > 0 {
      EndpointCheckIndependent(events[0], d1, d2, parse);
      var c1 := EndpointCheck(events[0], d1, parse);
      var c2 := EndpointCheck(events[0], d2, parse);
      if c1.Returns? {
        ScanEventsOutcomeIndependent(events[1..], c1.value, c2.value, parse);
        var r1 := ScanEvents(events[1..], c1.value, parse);
        var r2 := ScanEvents(events[1..], c2.value, parse);
        assert ScanEvents(events, d1, parse).outcome == if r1.outcome.Raises? then r1.outcome else Returns(EventMessages(events[0]) + r1.outcome.value);
        assert ScanEvents(events, d2, parse).outcome == if r2.outcome.Raises? then r2.outcome else Returns(EventMessages(events[0]) + r2.outcome.value);
      }
    }
  }

  lemma EndpointCheckIndependent(event: string, d1: McpTransport, d2: McpTransport, parse: Parser)
    ensures EndpointCheck(event, d1, parse).Raises? == EndpointCheck(event, d2, parse).Raises?
    ensures EndpointCheck(event, d1, parse).Raises? ==> EndpointCheck(event, d1, parse) == EndpointCheck(event, d2, parse)
  {
  }

  /** Text cut anywhere: the messages of the events complete in the first
      part, then those of the events completed by the remainder together with
      the second part, are the messages of the whole. */
  lemma EventsResume(t: string, more: string)
    ensures AllMessages(Events(t)) + AllMessages(Events(Pending(t) + more)) == AllMessages(Events(t + more))
    ensures Pending(Pending(t) + more) == Pending(t + more)
  {
    EventsAppend(t, more);
    AllMessagesAppend(Events(t), Events(Pending(t) + more));
  }

  // ---------------------------------------------------------------------
  // What a server writes

  /** A message a server can send on one `data:` line: it starts with `{`,
      holds no line end and does not end in white space. */
  predicate Sendable(j: string) {
    |j| > 0 && j[0] == '{' && '\n' !in j && '\r' !in j && !Seqs.IsSpace(j[|j| - 1])
  }

  /** An event carrying one message. */
  function DataEvent(j: string): string {
    DataPrefix + j + LfBlank
  }

  function DataEvents(js: seq<string>): string
    decreases |js|
  {
    if |js| == 0 then [] else DataEvent(js[0]) + DataEvents(js[1..])
  }

  /** A text without line ends followed by `\n\n` is one event. */
  lemma EventEndOfLine(w: string, rest: string)
    requires '\n' !in w && '\r' !in w
    ensures EventEnd(w + LfBlank + rest) == |w| + 2
  {
    var d := w + LfBlank + rest;
    assert d[..|w| + 2] == w + LfBlank;
    forall m | 0 <= m < |w| + 2
      ensures !EndsEvent(d[..m])
    {
      if m >= 2 {
        assert d[..m][m - 1] == d[m - 1];
        if m - 1 < |w| {
          assert d[m - 1] == w[m - 1];
        } else {
          assert d[m - 2] == d[..m][m - 2];
          if |w| > 0 {
            assert d[m - 2] == w[|w| - 1];
          }
        }
      }
    }
    EventEndUnique(d, |w| + 2);
  }

  /** The one message of an event a server writes. */
  lemma DataEventMessages(j: string)
    requires Sendable(j)
    ensures EventMessages(DataEvent(j)) == [j]
  {
    DataEventLines(j);
    DataLineMessage(j);
    OneMessageLines(DataEvent(j), DataPrefix + j, j);
  }

  lemma OneMessageLines(event: string, line: string, j: string)
    requires Seqs.Split(event, "\n") == [line, [], []]
    requires LineMessage(line) == Some(j)
    ensures EventMessages(event) == [j]
  {
    var lines := [line, [], []];
    assert !Seqs.StartsWith([], DataPrefix);
    assert LineMessage([]) == None;
    assert lines[2..][1..] == [];
    assert LineMessages(lines[2..]) == [];
    assert lines[1..][1..] == lines[2..];
    assert LineMessages(lines[1..]) == [];
    assert LineMessages(lines) == [j] + [];
  }

  /** The lines of a written event: the data line and two empty ones. */
  lemma DataEventLines(j: string)
    requires '\n' !in j
    ensures Seqs.Split(DataEvent(j), "\n") == [DataPrefix + j, [], []]
  {
    var line := DataPrefix + j;
    assert '\n' !in line;
    assert DataEvent(j) == line + "\n" + "\n";
    Seqs.SplitCons(line, "\n", "\n");
    SplitNewline();
  }

  lemma SplitNewline()
    ensures Seqs.Split("\n", "\n") == [[], []]
  {
    assert "\n" == [] + "\n" + [];
    Seqs.SplitCons([], "\n", []);
  }

  /** A written data line gives its message. */
  lemma DataLineMessage(j: string)
    requires Sendable(j)
    ensures LineMessage(DataPrefix + j) == Some(j)
  {
    var line := DataPrefix + j;
    assert line[|DataPrefix|..] == j;
    Seqs.StripNoSpace(j);
    assert Seqs.StartsWith(line, DataPrefix);
  }

  /** A stream of written events is cut into exactly those events, and
      nothing is pending after them. */
  lemma {:induction false} DataEventsCut(js: seq<string>, rest: string)
    requires forall i :: 0 <= i < |js| ==> Sendable(js[i])
    ensures Events(DataEvents(js) + rest) == DataEventList(js) + Events(rest)
    ensures Pending(DataEvents(js) + rest) == Pending(rest)
    decreases |js|
  {
    if |js| > 0 {
      var j := js[0];
      var w := DataPrefix + j;
      var tail := DataEvents(js[1..]) + rest;
      assert Sendable(j);
      assert '\n' !in w && '\r' !in w;
      assert DataEvents(js) + rest == w + LfBlank + tail;
      EventEndOfLine(w, tail);
      var d := w + LfBlank + tail;
      assert d[..|w| + 2] == DataEvent(j);
      assert d[|w| + 2..] == tail;
      DataEventsCut(js[1..], rest);
      Seqs.AppendAssoc([DataEvent(j)], DataEventList(js[1..]), Events(rest));
      assert DataEventList(js) == [DataEvent(j)] + DataEventList(js[1..]);
    } else {
      assert DataEvents(js) + rest == rest;
    }
  }

  /** The written events carry exactly the messages written, in order. */
  lemma {:induction false} DataEventListMessages(js: seq<string>)
    requires forall i :: 0 <= i < |js| ==> Sendable(js[i])
    ensures AllMessages(DataEventList(js)) == js
    decreases |js|
  {
    if |js| > 0 {
      DataEventMessages(js[0]);
      assert DataEventList(js)[1..] == DataEventList(js[1..]);
      DataEventListMessages(js[1..]);
      assert js == [js[0]] + js[1..];
    }
  }

  /** Messages a server writes that are not endpoint announcements. */
  predicate Served(js: seq<string>) {
    forall i :: 0 <= i < |js| ==> Sendable(js[i]) && !Seqs.Contains(js[i], EndpointEvent)
  }

  /** Written events are scanned into exactly the messages written, leave
      nothing pending and do not touch the transport. */
  lemma ScanDataEvents(js: seq<string>, detected: McpTransport, parse: Parser)
    requires Served(js)
    ensures Events(DataEvents(js)) == DataEventList(js)
    ensures Pending(DataEvents(js)) == []
    ensures ScanEvents(Events(DataEvents(js)), detected, parse) == Effect(detected, Returns(js))
  {
    assert DataEvents(js) + [] == DataEvents(js);
    DataEventsCut(js, []);
    assert Events([]) == [];
    DataEventListMessages(js);
    forall i | 0 <= i < |js| ensures !Seqs.Contains(DataEventList(js)[i], EndpointEvent) {
      DataEventNoEndpoint(js[i]);
    }
  }

  lemma {:induction false} DataEventsAppend(a: seq<string>, b: seq<string>)
    ensures DataEvents(a + b) == DataEvents(a) + DataEvents(b)
    decreases |a|
  {
    if |a| > 0 {
      assert (a + b)[1..] == a[1..] + b;
      DataEventsAppend(a[1..], b);
      Seqs.AppendAssoc(DataEvent(a[0]), DataEvents(a[1..]), DataEvents(b));
    } else {
      assert a + b == b;
    }
  }

  lemma DataEventsSingle(j: string)
    ensures DataEvents([j]) == DataPrefix + j + LfBlank
  {
    assert DataEvents([j]) == DataEvent(j) + DataEvents([]);
  }

  /** Text without a line feed holds no complete event. */
  lemma NoNewlineNoEvent(x: string)
    requires '\n' !in x
    ensures Events(x) == [] && Pending(x) == x
  {
    var e := EventEnd(x);
    if e != -1 {
      EventHasNewline(x, e);
    }
  }

  lemma EventHasNewline(x: string, e: int)
    requires 0 < e <= |x| && EndsEvent(x[..e])
    ensures '\n' in x
  {
    assert x[..e][e - 1] == x[e - 1];
  }

  /** A lone blank line is an event without messages. */
  lemma BlankEvent(detected: McpTransport, parse: Parser)
    ensures Events(LfBlank) == [LfBlank] && Pending(LfBlank) == []
    ensures ScanEvents(Events(LfBlank), detected, parse) == Effect(detected, Returns([]))
  {
    BlankEventCut();
    BlankEventMessages();
    assert !Seqs.Contains(LfBlank, EndpointEvent);
  }

  lemma BlankEventCut()
    ensures Events(LfBlank) == [LfBlank] && Pending(LfBlank) == []
  {
    assert LfBlank == [] + LfBlank + [];
    EventEndOfLine([], []);
    assert LfBlank[2..] == [];
    assert Events([]) == [] && Pending([]) == [];
  }

  lemma BlankEventMessages()
    ensures EventMessages(LfBlank) == []
  {
    SplitNewline();
    assert LfBlank == [] + "\n" + "\n";
    Seqs.SplitCons([], "\n", "\n");
    var lines: seq<string> := [[], [], []];
    assert Seqs.Split(LfBlank, "\n") == lines;
    assert !Seqs.StartsWith([], DataPrefix);
    assert LineMessages(lines[2..]) == [];
    assert lines[1..][1..] == lines[2..];
    assert LineMessages(lines[1..]) == [];
  }

  /** A written event holds the endpoint marker only when its message does. */
  lemma DataEventNoEndpoint(j: string)
    requires !Seqs.Contains(j, EndpointEvent)
    ensures !Seqs.Contains(DataEvent(j), EndpointEvent)
  {
    if Seqs.Contains(DataEvent(j), EndpointEvent) {
      assert EndpointEvent[0] !in DataPrefix;
      Seqs.ContainsMiddle(DataPrefix, j, LfBlank, EndpointEvent);
    }
  }

  /** The events a server writes for a list of messages. */
  function DataEventList(js: seq<string>): (r: seq<string>)
    ensures |r| == |js|
    ensures forall i :: 0 <= i < |js| ==> r[i] == DataEvent(js[i])
  {
    seq(|js|, i requires 0 <= i < |js| => DataEvent(js[i]))
  }
}
