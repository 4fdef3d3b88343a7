/** Response-time statistics of the dashboard (`get_performance_metrics` in
    `mcphawk/web/metrics.py`): requests are matched with the responses that
    carry their id, and the latencies are summarised as percentiles, per-method
    statistics and a histogram.

    Timestamps and latencies are whole milliseconds (see `Metrics.Row`). */
module Performance {
  import opened Wrappers
  import opened Json
  import Metrics

  /** A request still waiting for its response: when it was seen and its
      `method` value. */
  datatype Pending = Pending(time: int, rpcMethod: Json)

  /** `method_response_times`: latencies per method, methods in first-seen order. */
  type Groups = seq<(Key, seq<int>)>

  /** The state of the matching loop. */
  datatype State = State(pending: map<Key, Pending>, times: seq<int>, byMethod: Groups)

  const Start := State(map[], [], [])

  /** `"method" in msg_data and "id" in msg_data` on an object. */
  predicate IsRequest(f: map<string, Json>) {
    "method" in f && "id" in f
  }

  /** The `elif` branch: a result or an error, with an id, that is not a request. */
  predicate IsReply(f: map<string, Json>) {
    !IsRequest(f) && ("result" in f || "error" in f) && "id" in f
  }

  /** `method_response_times[k].append(x)`. */
  function AppendTo(g: Groups, k: Key, x: int): (r: Groups)
    ensures |r| == |g| || |r| == |g| + 1
  {
    if |g| == 0 then [(k, [x])]
    else if g[0].0 == k then [(k, g[0].1 + [x])] + g[1..]
    else [g[0]] + AppendTo(g[1..], k, x)
  }

  /** The number of latencies held by all groups. */
  function Samples(g: Groups): nat {
    if |g| == 0 then 0 else |g[0].1| + Samples(g[1..])
  }

  /** Appending adds one latency. */
  lemma {:induction false} AppendToSamples(g: Groups, k: Key, x: int)
    ensures Samples(AppendTo(g, k, x)) == Samples(g) + 1
  {
    if |g| > 0 && g[0].0 != k {
      AppendToSamples(g[1..], k, x);
      assert AppendTo(g, k, x)[1..] == AppendTo(g[1..], k, x);
    } else if |g| > 0 {
      assert AppendTo(g, k, x)[1..] == g[1..];
    }
  }

  /** Every group holds at least one latency. */
  ghost predicate NonEmptyGroups(g: Groups) {
    forall i :: 0 <= i < |g| ==> |g[i].1| > 0
  }

  lemma {:induction false} AppendToNonEmpty(g: Groups, k: Key, x: int)
    requires NonEmptyGroups(g)
    ensures NonEmptyGroups(AppendTo(g, k, x))
  {
    var r := AppendTo(g, k, x);
    if |g| > 0 && g[0].0 != k {
      var rest := AppendTo(g[1..], k, x);
      assert NonEmptyGroups(g[1..]) by {
        forall i | 0 <= i < |g[1..]| ensures |g[1..][i].1| > 0 {
          assert g[1..][i] == g[i + 1];
        }
      }
      AppendToNonEmpty(g[1..], k, x);
      forall i | 0 <= i < |r| ensures |r[i].1| > 0 {
        if i > 0 { assert r[i] == rest[i - 1]; }
      }
    } else if |g| > 0 {
      forall i | 0 <= i < |r| ensures |r[i].1| > 0 {
        if i > 0 { assert r[i] == g[i]; }
      }
    }
  }

  /** One pass of the loop over a row, with its `try: ... except Exception:
      pass`. A request with a hashable id is recorded (a later request with
      the same id replaces it). A reply whose hashable id is pending gets its
      latency recorded; if the pending method is unhashable, the append to
      `method_response_times` raises after the latency was recorded, so the
      request stays pending. Unparseable text, non-objects (whose `in` or
      `["id"]` raises) and unhashable ids change nothing. */
  function Step(s: State, row: Metrics.Row, parse: Parser): (r: State)
    ensures |r.times| == |s.times| || |r.times| == |s.times| + 1
    ensures r.times[..|s.times|] == s.times
    ensures |r.pending| <= |s.pending| + 1
  {
    match parse(row.message)
    case Some(JObj(f)) =>
      if IsRequest(f) then
        match KeyOf(f["id"])
        case Some(id) => s.(pending := s.pending[id := Pending(row.time, f["method"])])
        case None => s
      else if IsReply(f) then
        match KeyOf(f["id"])
        case Some(id) =>
          if id in s.pending then
            var p := s.pending[id];
            var latency := row.time - p.time;
            assert (s.times + [latency])[..|s.times|] == s.times;
            match KeyOf(p.rpcMethod)
            case Some(m) => State(s.pending - {id}, s.times + [latency], AppendTo(s.byMethod, m, latency))
            case None => s.(times := s.times + [latency])
          else s
        case None => s
      else s
    case _ => s
  }

  /** The loop over all rows, in the query's (timestamp) order. */
  function Run(rows: seq<Metrics.Row>, parse: Parser): State {
    if |rows| == 0 then Start else Step(Run(rows[..|rows| - 1], parse), rows[|rows| - 1], parse)
  }

  /** The row is an object request with a hashable id. */
  predicate RecordsRequest(row: Metrics.Row, parse: Parser) {
    match parse(row.message)
    case Some(JObj(f)) => IsRequest(f) && KeyOf(f["id"]).Some?
    case _ => false
  }

  function Requests(rows: seq<Metrics.Row>, parse: Parser): nat {
    if |rows| == 0 then 0
    else Requests(rows[..|rows| - 1], parse) + (if RecordsRequest(rows[|rows| - 1], parse) then 1 else 0)
  }

  /** Only requests make a request pending. */
  lemma StepPendingGrowth(s: State, row: Metrics.Row, parse: Parser)
    ensures |Step(s, row, parse).pending| <= |s.pending| + (if RecordsRequest(row, parse) then 1 else 0)
  {
    match parse(row.message)
    case Some(JObj(f)) =>
      if IsReply(f) {
        match KeyOf(f["id"])
        case Some(id) =>
          if id in s.pending {
            assert |s.pending - {id}| == |s.pending| - 1;
          }
        case None =>
      }
    case _ =>
  }

  /** Never more requests are pending than requests were seen. */
  lemma {:induction false} PendingBound(rows: seq<Metrics.Row>, parse: Parser)
    ensures |Run(rows, parse).pending| <= Requests(rows, parse)
  {
    if |rows| > 0 {
      PendingBound(rows[..|rows| - 1], parse);
      StepPendingGrowth(Run(rows[..|rows| - 1], parse), rows[|rows| - 1], parse);
    }
  }

  /** A reply to a pending request with a hashable method adds the time since
      the request to the latencies and to its method's group, and the request
      is no longer pending. */
  lemma ReplyMatches(s: State, row: Metrics.Row, parse: Parser, f: map<string, Json>, id: Key, m: Key)
    requires parse(row.message) == Some(JObj(f)) && IsReply(f) && KeyOf(f["id"]) == Some(id)
    requires id in s.pending && KeyOf(s.pending[id].rpcMethod) == Some(m)
    ensures Step(s, row, parse) ==
      State(s.pending - {id}, s.times + [row.time - s.pending[id].time],
            AppendTo(s.byMethod, m, row.time - s.pending[id].time))
  {
  }

  /** A request with an unhashable method matches every later reply with its
      id: the request is never removed, so each reply adds a latency. */
  lemma UnhashableMethodStaysPending(s: State, row: Metrics.Row, parse: Parser, f: map<string, Json>, id: Key)
    requires parse(row.message) == Some(JObj(f)) && IsReply(f) && KeyOf(f["id"]) == Some(id)
    requires id in s.pending && KeyOf(s.pending[id].rpcMethod).None?
    ensures Step(s, row, parse).pending == s.pending
    ensures Step(s, row, parse).times == s.times + [row.time - s.pending[id].time]
    ensures Step(s, row, parse).byMethod == s.byMethod
  {
  }

  /** Every method a row names, when it has one, is hashable. */
  predicate HashableMethod(row: Metrics.Row, parse: Parser) {
    match parse(row.message)
    case Some(JObj(f)) => "method" in f ==> KeyOf(f["method"]).Some?
    case _ => true
  }

  /** The state keeps one grouped latency per latency, and only hashable
      methods wait. */
  ghost predicate Grouped(s: State) {
    && Samples(s.byMethod) == |s.times|
    && forall id :: id in s.pending ==> KeyOf(s.pending[id].rpcMethod).Some?
  }

  /** Groups are only ever created by an append, so none is empty. */
  lemma {:induction false} RunNonEmpty(rows: seq<Metrics.Row>, parse: Parser)
    ensures NonEmptyGroups(Run(rows, parse).byMethod)
  {
    if |rows| > 0 {
      var s := Run(rows[..|rows| - 1], parse);
      var row := rows[|rows| - 1];
      RunNonEmpty(rows[..|rows| - 1], parse);
      match parse(row.message)
      case Some(JObj(f)) =>
        if !IsRequest(f) && IsReply(f) {
          match KeyOf(f["id"])
          case Some(id) =>
            if id in s.pending {
              var p := s.pending[id];
              if KeyOf(p.rpcMethod).Some? {
                AppendToNonEmpty(s.byMethod, KeyOf(p.rpcMethod).value, row.time - p.time);
              }
            }
          case None =>
        }
      case _ =>
    }
  }

  lemma StepGrouped(s: State, row: Metrics.Row, parse: Parser)
    requires Grouped(s) && HashableMethod(row, parse)
    ensures Grouped(Step(s, row, parse))
  {
    match parse(row.message)
    case Some(JObj(f)) =>
      if !IsRequest(f) && IsReply(f) {
        match KeyOf(f["id"])
        case Some(id) =>
          if id in s.pending {
            var p := s.pending[id];
            var m := KeyOf(p.rpcMethod).value;
            AppendToSamples(s.byMethod, m, row.time - p.time);
          }
        case None =>
      }
    case _ =>
  }

  /** When every method is hashable, the per-method groups hold exactly the
      recorded latencies. */
  lemma {:induction false} RunGrouped(rows: seq<Metrics.Row>, parse: Parser)
    requires forall i :: 0 <= i < |rows| ==> HashableMethod(rows[i], parse)
    ensures Grouped(Run(rows, parse))
  {
    if |rows| > 0 {
      RunGrouped(rows[..|rows| - 1], parse);
      StepGrouped(Run(rows[..|rows| - 1], parse), rows[|rows| - 1], parse);
    }
  }

  /** Timestamps never decrease along the rows (the query orders by timestamp). */
  ghost predicate Ordered(rows: seq<Metrics.Row>) {
    forall i, j :: 0 <= i < j < |rows| ==> rows[i].time <= rows[j].time
  }

  /** Nothing pending is later than `last`, and no latency is negative. */
  ghost predicate Causal(s: State, last: int) {
    && (forall id :: id in s.pending ==> s.pending[id].time <= last)
    && (forall i :: 0 <= i < |s.times| ==> s.times[i] >= 0)
  }

  lemma StepCausal(s: State, row: Metrics.Row, parse: Parser, last: int)
    requires Causal(s, last) && last <= row.time
    ensures Causal(Step(s, row, parse), row.time)
  {
    var r := Step(s, row, parse);
    forall i | 0 <= i < |r.times| ensures r.times[i] >= 0 {
      if i < |s.times| {
        assert r.times[i] == r.times[..|s.times|][i];
      }
    }
  }

  /** With rows in timestamp order every latency is non-negative. */
  lemma {:induction false} OrderedLatencies(rows: seq<Metrics.Row>, parse: Parser)
    requires |rows| > 0 && Ordered(rows)
    ensures Causal(Run(rows, parse), rows[|rows| - 1].time)
  {
    var init := rows[..|rows| - 1];
    var last := rows[|rows| - 1];
    if |init| > 0 {
      assert Ordered(init) by {
        forall i, j | 0 <= i < j < |init| ensures init[i].time <= init[j].time {
          assert init[i] == rows[i] && init[j] == rows[j];
        }
      }
      OrderedLatencies(init, parse);
      assert init[|init| - 1] == rows[|rows| - 2];
      StepCausal(Run(init, parse), last, parse, init[|init| - 1].time);
    } else {
      StepCausal(Start, last, parse, last.time);
    }
  }

  // ---------------------------------------------------------------------
  // Sorting latencies

  ghost predicate SortedAsc(s: seq<int>) {
    forall i, j :: 0 <= i < j < |s| ==> s[i] <= s[j]
  }

  function InsertAsc(x: int, s: seq<int>): (r: seq<int>)
    ensures |r| == |s| + 1
    ensures multiset(r) == multiset(s) + multiset{x}
  {
    if |s| == 0 then [x]
    else if x <= s[0] then [x] + s
    else
      assert s == [s[0]] + s[1..];
      [s[0]] + InsertAsc(x, s[1..])
  }

  lemma {:induction false} InsertAscSorted(x: int, s: seq<int>)
    requires SortedAsc(s)
    ensures SortedAsc(InsertAsc(x, s))
  {
    if |s| > 0 && x > s[0] {
      var rest := InsertAsc(x, s[1..]);
      assert SortedAsc(s[1..]) by {
        forall i, j | 0 <= i < j < |s[1..]| ensures s[1..][i] <= s[1..][j] {
          assert s[1..][i] == s[i + 1] && s[1..][j] == s[j + 1];
        }
      }
      InsertAscSorted(x, s[1..]);
      forall y | y in rest ensures s[0] <= y {
        assert y in multiset(rest);
        if y != x {
          assert y in multiset(s[1..]);
          var j :| 0 <= j < |s[1..]| && s[1..][j] == y;
          assert s[1..][j] == s[j + 1];
        }
      }
      var r := [s[0]] + rest;
      forall i, j | 0 <= i < j < |r| ensures r[i] <= r[j] {
        assert r[j] == rest[j - 1];
        if i > 0 { assert r[i] == rest[i - 1]; } else { assert rest[j - 1] in rest; }
      }
    }
  }

  /** `list.sort()` on latencies. */
  function SortAsc(s: seq<int>): (r: seq<int>)
    ensures |r| == |s|
    ensures multiset(r) == multiset(s) && SortedAsc(r)
  {
    if |s| == 0 then []
    else
      assert s == s[..|s| - 1] + [s[|s| - 1]];
      InsertAscSorted(s[|s| - 1], SortAsc(s[..|s| - 1]));
      InsertAsc(s[|s| - 1], SortAsc(s[..|s| - 1]))
  }

  /** The sorted latencies are the latencies, from the least to the greatest. */
  lemma SortAscMembers(times: seq<int>)
    requires |times| > 0
    ensures forall k :: 0 <= k < |times| ==> SortAsc(times)[k] in times
    ensures forall x :: x in times ==> SortAsc(times)[0] <= x <= SortAsc(times)[|times| - 1]
  {
    var s := SortAsc(times);
    forall k | 0 <= k < |s| ensures s[k] in times {
      assert s[k] in multiset(s);
    }
    forall x | x in times ensures s[0] <= x <= s[|s| - 1] {
      assert x in multiset(times);
      var k :| 0 <= k < |s| && s[k] == x;
    }
  }

  // ---------------------------------------------------------------------
  // Summaries

  datatype Percentiles = Percentiles(p50: int, p90: int, p95: int, p99: int, min: int, max: int)

  /** The percentile table: with `n` sorted latencies, `p50`, `p90`, `p95` and
      `p99` are the latencies at `int(n * 0.5)`, `int(n * 0.9)`,
      `int(n * 0.95)` and `min(int(n * 0.99), n - 1)`, which are never out of
      range; nothing for no latencies. The values are ordered, each is one of
      the latencies, and `min` and `max` bound them all. */
  function PercentilesOf(times: seq<int>): (r: Option<Percentiles>)
    ensures r.None? <==> |times| == 0
    ensures r.Some? ==> var p := r.value;
      && p.min <= p.p50 <= p.p90 <= p.p95 <= p.p99 <= p.max
      && p.min in times && p.p50 in times && p.p90 in times && p.p95 in times && p.p99 in times && p.max in times
      && (forall x :: x in times ==> p.min <= x <= p.max)
  {
    if |times| == 0 then None
    else
      var s := SortAsc(times);
      var n := |s|;
      var i99 := if 99 * n / 100 < n - 1 then 99 * n / 100 else n - 1;
      SortAscMembers(times);
      Some(Percentiles(s[n / 2], s[9 * n / 10], s[19 * n / 20], s[i99], s[0], s[n - 1]))
  }

  datatype MethodStat = MethodStat(rpcMethod: Key, count: nat, p50: int, p95: int)

  /** One method's entry: its count, the latency at `int(n * 0.5)` and the one
      at `min(int(n * 0.95), n - 1)` (or the only one). */
  function StatOf(k: Key, times: seq<int>): (r: MethodStat)
    requires |times| > 0
    ensures r.rpcMethod == k && r.count == |times|
    ensures r.p50 <= r.p95 && r.p50 in times && r.p95 in times
  {
    var s := SortAsc(times);
    var n := |s|;
    SortAscMembers(times);
    MethodStat(k, n, s[n / 2], if n > 1 then s[if 19 * n / 20 < n - 1 then 19 * n / 20 else n - 1] else s[0])
  }

  /** The `n > 1` guard and the `n - 1` cap never change `p95`: it is always
      the latency at `int(n * 0.95)`. */
  lemma StatP95(k: Key, times: seq<int>)
    requires |times| > 0
    ensures StatOf(k, times).p95 == SortAsc(times)[19 * |times| / 20]
  {
  }

  /** One entry per method, in first-seen order. */
  function MethodStats(g: Groups): (r: seq<MethodStat>)
    requires NonEmptyGroups(g)
    ensures |r| == |g|
    ensures forall i :: 0 <= i < |g| ==> r[i].rpcMethod == g[i].0 && r[i].count == |g[i].1|
  {
    if |g| == 0 then []
    else
      assert NonEmptyGroups(g[1..]) by {
        forall i | 0 <= i < |g[1..]| ensures |g[1..][i].1| > 0 {
          assert g[1..][i] == g[i + 1];
        }
      }
      [StatOf(g[0].0, g[0].1)] + MethodStats(g[1..])
  }

  /** The histogram's lower bounds; the last range has no upper bound. */
  const Bounds: seq<int> := [0, 10, 25, 50, 100, 250, 500, 1000, 2500, 5000]

  /** `lower <= t < upper` for range `i`. */
  predicate InRange(t: int, i: nat)
    requires i < 10
  {
    Bounds[i] <= t && (i == 9 || t < Bounds[i + 1])
  }

  /** The number of latencies in range `i`. */
  function CountIn(times: seq<int>, i: nat): nat
    requires i < 10
  {
    if |times| == 0 then 0
    else CountIn(times[..|times| - 1], i) + (if InRange(times[|times| - 1], i) then 1 else 0)
  }

  /** The counts of the ranges `i` to 9. */
  function RangeCounts(times: seq<int>, i: nat): (r: seq<nat>)
    requires i <= 10
    ensures |r| == 10 - i
    decreases 10 - i
  {
    if i == 10 then [] else [CountIn(times, i)] + RangeCounts(times, i + 1)
  }

  /** The histogram: ten range counts, or nothing for no latencies. */
  function Histogram(times: seq<int>): (r: seq<nat>)
    ensures |r| == if |times| == 0 then 0 else 10
  {
    if |times| == 0 then [] else RangeCounts(times, 0)
  }

  function SumNat(s: seq<nat>): nat {
    if |s| == 0 then 0 else s[0] + SumNat(s[1..])
  }

  /** The number of ranges from `i` on that hold `t`. */
  function Hits(t: int, i: nat): nat
    requires i <= 10
    decreases 10 - i
  {
    if i == 10 then 0 else (if InRange(t, i) then 1 else 0) + Hits(t, i + 1)
  }

  /** Below range `i` no range from `i` on holds `t`. */
  lemma {:induction false} HitsBelow(t: int, i: nat)
    requires i <= 10 && (i == 10 || t < Bounds[i])
    ensures Hits(t, i) == 0
    decreases 10 - i
  {
    if i < 10 {
      HitsBelow(t, i + 1);
    }
  }

  /** From range `i` on, a latency at or above its lower bound is in exactly one range. */
  lemma {:induction false} HitsOnce(t: int, i: nat)
    requires i < 10 && Bounds[i] <= t
    ensures Hits(t, i) == 1
    decreases 10 - i
  {
    if i == 9 {
      HitsBelow(t, 10);
    } else if t < Bounds[i + 1] {
      HitsBelow(t, i + 1);
    } else {
      HitsOnce(t, i + 1);
    }
  }

  /** One more latency adds one to the ranges that hold it. */
  lemma {:induction false} RangeCountsStep(times: seq<int>, t: int, i: nat)
    requires i <= 10
    ensures SumNat(RangeCounts(times + [t], i)) == SumNat(RangeCounts(times, i)) + Hits(t, i)
    decreases 10 - i
  {
    if i < 10 {
      RangeCountsStep(times, t, i + 1);
      assert (times + [t])[..|times|] == times;
    }
  }

  /** Every non-negative latency lands in exactly one range, so the ranges add
      up to the number of latencies; a negative one lands in none. */
  lemma {:induction false} HistogramTotal(times: seq<int>)
    requires forall i :: 0 <= i < |times| ==> times[i] >= 0
    ensures SumNat(Histogram(times)) == |times|
  {
    if |times| > 0 {
      var init := times[..|times| - 1];
      var t := times[|times| - 1];
      assert forall i :: 0 <= i < |init| ==> init[i] >= 0 by {
        forall i | 0 <= i < |init| ensures init[i] >= 0 {
          assert init[i] == times[i];
        }
      }
      HistogramTotal(init);
      assert times == init + [t];
      RangeCountsStep(init, t, 0);
      HitsOnce(t, 0);
      if |init| == 0 {
        EmptyRanges(0);
      }
    }
  }

  /** No latencies, no counts. */
  lemma {:induction false} EmptyRanges(i: nat)
    requires i <= 10
    ensures SumNat(RangeCounts([], i)) == 0
    decreases 10 - i
  {
    if i < 10 {
      EmptyRanges(i + 1);
    }
  }

  /** A negative latency is in no range. */
  lemma NegativeInNoRange(t: int)
    requires t < 0
    ensures Hits(t, 0) == 0
  {
    HitsBelow(t, 0);
  }

  // ---------------------------------------------------------------------
  // The report

  datatype Report = Report(
    percentiles: Option<Percentiles>,
    totalRequests: nat,
    pendingRequests: nat,
    methodStats: seq<MethodStat>,
    histogram: seq<nat>)

  /** `get_performance_metrics` after its query. The per-method statistics
      are listed in first-seen order: their ordering by average latency and
      the cut to ten are not modelled. */
  function PerformanceOf(rows: seq<Metrics.Row>, parse: Parser): (r: Report)
    ensures r.totalRequests == |Run(rows, parse).times|
    ensures r.pendingRequests <= Requests(rows, parse)
    ensures r.percentiles.None? <==> r.totalRequests == 0
    ensures |r.histogram| == if r.totalRequests == 0 then 0 else 10
  {
    var s := Run(rows, parse);
    PendingBound(rows, parse);
    RunNonEmpty(rows, parse);
    Report(PercentilesOf(s.times), |s.times|, |s.pending|, MethodStats(s.byMethod), Histogram(s.times))
  }

  /** With rows in timestamp order the histogram counts every matched request. */
  lemma HistogramCountsAll(rows: seq<Metrics.Row>, parse: Parser)
    requires Ordered(rows)
    ensures SumNat(PerformanceOf(rows, parse).histogram) == PerformanceOf(rows, parse).totalRequests
  {
    if |rows| > 0 {
      OrderedLatencies(rows, parse);
    }
    HistogramTotal(Run(rows, parse).times);
  }
}
