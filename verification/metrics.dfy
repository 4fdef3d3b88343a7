/** The counting endpoints of the dashboard (`mcphawk/web/metrics.py`):
    traffic per time bucket, the error timeline, method frequency, and the
    message-type and transport distributions.

    The SQL queries are not modelled: each endpoint is given the rows its
    query returns, in the query's order. A row's timestamp is a whole number
    of milliseconds of wall-clock time, counted from the start of an hour, so
    that minute `m` of the count is minute `m % 60` of its hour. Rows are
    classified with the corrected `get_message_type` (`Utils.GetMessageType`). */
module Metrics {
  import opened Wrappers
  import opened Json
  import Utils
  import Tallies

  /** One row of the `logs` table: its timestamp and its message text. */
  datatype Row = Row(time: int, message: string)

  const MinuteMs: int := 60000

  // ---------------------------------------------------------------------
  // Time buckets

  /** Python's `a % b`: the result takes the sign of `b`. */
  function PyMod(a: int, b: int): (r: int)
    requires b != 0
    ensures b > 0 ==> 0 <= r < b && a == b * (a / b) + r
    ensures b < 0 ==> b < r <= 0
  {
    if b > 0 then a % b
    else
      var m := a % (-b);
      if m == 0 then 0 else m + b
  }

  /** The minute a timestamp falls in, with its seconds and microseconds dropped. */
  function Minute(t: int): int {
    t / MinuteMs
  }

  /** A minute count splits into its hour and its minute of the hour. */
  lemma HourSplit(h: int, s: int)
    requires 0 <= s < 60
    ensures (60 * h + s) / 60 == h && (60 * h + s) % 60 == s
  {
  }

  /** The bucket of a timestamp, as a minute count: the seconds are zeroed,
      then `minute % interval` minutes are subtracted, where `minute` is the
      minute of the hour. */
  function Bucket(t: int, interval: int): int
    requires interval != 0
  {
    Minute(t) - PyMod(Minute(t) % 60, interval)
  }

  /** With a positive interval the bucket starts in the row's hour, at the
      row's minute of the hour rounded down to a multiple of the interval, and
      covers the row's minute; a negative interval moves the row forward
      instead. */
  lemma BucketWithinHour(t: int, interval: int)
    requires interval != 0
    ensures var key := Bucket(t, interval);
      && (interval > 0 ==> key / 60 == Minute(t) / 60)
      && (interval > 0 ==> key % 60 == (Minute(t) % 60) / interval * interval)
      && (interval > 0 ==> key <= Minute(t) < key + interval)
      && (interval < 0 ==> Minute(t) <= key < Minute(t) - interval)
  {
    var m := Minute(t);
    if interval > 0 {
      var q := (m % 60) / interval;
      ProductSign(q, interval);
      HourSplit(m / 60, q * interval);
    }
  }

  /** Multiplying by a positive number keeps the sign. */
  lemma ProductSign(x: int, c: int)
    requires c > 0
    ensures x >= 0 ==> x * c >= 0
  {
  }

  /** Dividing both sides of `a * c < b * c` by a positive `c`. */
  lemma MulLess(a: int, b: int, c: int)
    requires c > 0 && a * c < b * c
    ensures a < b
  {
    ProductSign(a - b, c);
    assert (a - b) * c == a * c - b * c;
  }

  /** A multiple of `b` divides by `b` exactly. */
  lemma Multiple(q: int, b: int)
    requires b > 0
    ensures (q * b) / b == q && (q * b) % b == 0
  {
    var d := (q * b) / b;
    var r := (q * b) % b;
    assert (q - d) * b == r;
    MulLess(q - d, 1, b);
    MulLess(-1, q - d, b);
  }

  /** Any minute of the row's hour that is a multiple of the interval and not
      after the row's minute is at or before the bucket: the bucket is the
      latest such start. */
  lemma BucketIsLatestStart(t: int, interval: int, a: int)
    requires interval > 0 && 0 <= a * interval <= Minute(t) % 60
    ensures 60 * (Minute(t) / 60) + a * interval <= Bucket(t, interval)
  {
    var m := Minute(t);
    var q := (m % 60) / interval;
    BucketWithinHour(t, interval);
    assert m % 60 < (q + 1) * interval;
    MulLess(a, q + 1, interval);
    ProductSign(q - a, interval);
    assert (q - a) * interval == q * interval - a * interval;
    assert m == 60 * (m / 60) + m % 60;
  }

  /** A bucket's own start falls in the same bucket. */
  lemma BucketSettles(t: int, interval: int)
    requires interval > 0
    ensures Bucket(Bucket(t, interval) * MinuteMs, interval) == Bucket(t, interval)
  {
    var key := Bucket(t, interval);
    var q := (Minute(t) % 60) / interval;
    BucketWithinHour(t, interval);
    assert Minute(key * MinuteMs) == key;
    Multiple(q, interval);
    var again := Bucket(key * MinuteMs, interval);
    BucketWithinHour(key * MinuteMs, interval);
    assert again % 60 == key % 60 && again / 60 == key / 60;
    assert again == 60 * (again / 60) + again % 60;
    assert key == 60 * (key / 60) + key % 60;
  }

  // ---------------------------------------------------------------------
  // Per-bucket counters

  /** The counters a bucket keeps. The timeseries uses the first four; the
      error timeline uses `errors` and `total`. */
  datatype Counts = Counts(requests: nat, responses: nat, notifications: nat, errors: nat, total: nat)

  const Zero := Counts(0, 0, 0, 0, 0)

  function Plus(a: Counts, b: Counts): Counts {
    Counts(a.requests + b.requests, a.responses + b.responses,
           a.notifications + b.notifications, a.errors + b.errors, a.total + b.total)
  }

  /** Adding nothing changes nothing. */
  lemma PlusZero(c: Counts)
    ensures Plus(c, Zero) == c && Plus(Zero, c) == c
  {
  }

  /** `"error" in json.loads(message)` inside `try: ... except Exception: pass`:
      unparseable text and values `in` rejects count as no error. An object
      with an `error` key, a list holding the string `"error"` and a string
      containing `error` all count. */
  predicate HasErrorKey(message: string, parse: Parser) {
    match parse(message)
    case Some(v) => PyIn("error", v) == Some(true)
    case None => false
  }

  function TypeOf(message: string, parse: Parser): Utils.MessageType {
    Utils.GetMessageType(Utils.Text(message), parse)
  }

  function Indicator(b: bool): nat {
    if b then 1 else 0
  }

  /** What one row adds to its bucket in the timeseries: one to the counter of
      its kind, one error for an error message, one more error for an `error`
      key. */
  function TrafficDelta(parse: Parser): Row -> Counts {
    (r: Row) =>
      var t := TypeOf(r.message, parse);
      Counts(Indicator(t == Utils.Request), Indicator(t == Utils.Response),
             Indicator(t == Utils.Notification),
             Indicator(t == Utils.Error) + Indicator(HasErrorKey(r.message, parse)), 0)
  }

  /** What one row adds to its bucket in the error timeline: one to the total,
      one error for an `error` key, one more for an error message. */
  function ErrorDelta(parse: Parser): Row -> Counts {
    (r: Row) =>
      Counts(0, 0, 0,
             Indicator(HasErrorKey(r.message, parse)) + Indicator(TypeOf(r.message, parse) == Utils.Error), 1)
  }

  /** An error response is counted twice, in the timeseries and in the error
      timeline: once for its kind and once for its `error` key. */
  lemma ErrorResponseCountedTwice(r: Row, parse: Parser)
    requires TypeOf(r.message, parse) == Utils.Error
    ensures TrafficDelta(parse)(r).errors == 2
    ensures ErrorDelta(parse)(r).errors == 2
  {
  }

  // ---------------------------------------------------------------------
  // Bucket tables

  /** `sorted(time_buckets.items())`: buckets by increasing start. */
  type Table = seq<(int, Counts)>

  ghost predicate Increasing(t: Table) {
    forall i, j :: 0 <= i < j < |t| ==> t[i].0 < t[j].0
  }

  /** Only touched buckets exist, so every bucket has a non-zero counter. */
  ghost predicate Touched(t: Table) {
    forall i :: 0 <= i < |t| ==> t[i].1 != Zero
  }

  ghost function Starts(t: Table): set<int> {
    set i | 0 <= i < |t| :: t[i].0
  }

  /** The counters of the bucket starting at `k` (all zero when absent). */
  function Lookup(t: Table, k: int): Counts {
    if |t| == 0 then Zero
    else if t[0].0 == k then t[0].1
    else Lookup(t[1..], k)
  }

  function Sum(t: Table): Counts {
    if |t| == 0 then Zero else Plus(t[0].1, Sum(t[1..]))
  }

  /** `time_buckets[k][...] += d`, keeping the buckets in order. */
  function AddAt(t: Table, k: int, d: Counts): Table {
    if |t| == 0 then [(k, d)]
    else if k < t[0].0 then [(k, d)] + t
    else if k == t[0].0 then [(k, Plus(t[0].1, d))] + t[1..]
    else [t[0]] + AddAt(t[1..], k, d)
  }

  lemma StartsCons(t: Table)
    requires |t| > 0
    ensures Starts(t) == {t[0].0} + Starts(t[1..])
  {
    forall x | x in Starts(t) ensures x in {t[0].0} + Starts(t[1..]) {
      var i :| 0 <= i < |t| && t[i].0 == x;
      if i > 0 { assert t[1..][i - 1].0 == x; }
    }
    forall x | x in Starts(t[1..]) ensures x in Starts(t) {
      var i :| 0 <= i < |t[1..]| && t[1..][i].0 == x;
      assert t[i + 1].0 == x;
    }
  }

  /** The tail of an increasing table is increasing and starts after the head. */
  lemma IncreasingTail(t: Table)
    requires |t| > 0 && Increasing(t)
    ensures Increasing(t[1..]) && forall x :: x in Starts(t[1..]) ==> t[0].0 < x
  {
    forall i, j | 0 <= i < j < |t[1..]| ensures t[1..][i].0 < t[1..][j].0 {
      assert t[1..][i] == t[i + 1] && t[1..][j] == t[j + 1];
    }
    forall x | x in Starts(t[1..]) ensures t[0].0 < x {
      var i :| 0 <= i < |t[1..]| && t[1..][i].0 == x;
      assert t[1..][i] == t[i + 1];
    }
  }

  /** A bucket that does not exist reads as zero. */
  lemma {:induction false} LookupAbsent(t: Table, k: int)
    requires k !in Starts(t)
    ensures Lookup(t, k) == Zero
  {
    if |t| > 0 {
      StartsCons(t);
      LookupAbsent(t[1..], k);
    }
  }

  /** Adding adds the start `k` and no other. */
  lemma {:induction false} AddAtStarts(t: Table, k: int, d: Counts)
    ensures Starts(AddAt(t, k, d)) == Starts(t) + {k}
  {
    var r := AddAt(t, k, d);
    StartsCons(r);
    if |t| > 0 {
      StartsCons(t);
      if k < t[0].0 {
        assert r[1..] == t;
      } else if k == t[0].0 {
        assert r[1..] == t[1..];
      } else {
        AddAtStarts(t[1..], k, d);
        assert r[1..] == AddAt(t[1..], k, d);
      }
    }
  }

  /** A bucket before every bucket of an ordered table extends it in order. */
  lemma ConsIncreasing(x: (int, Counts), t: Table)
    requires Increasing(t) && forall y :: y in Starts(t) ==> x.0 < y
    ensures Increasing([x] + t)
  {
    var r := [x] + t;
    forall i, j | 0 <= i < j < |r| ensures r[i].0 < r[j].0 {
      assert r[j] == t[j - 1];
      if i > 0 {
        assert r[i] == t[i - 1];
      } else {
        assert t[j - 1].0 in Starts(t);
      }
    }
  }

  /** Adding keeps the buckets ordered. */
  lemma {:induction false} AddAtIncreasing(t: Table, k: int, d: Counts)
    requires Increasing(t)
    ensures Increasing(AddAt(t, k, d))
  {
    if |t| > 0 {
      IncreasingTail(t);
      StartsCons(t);
      if k < t[0].0 {
        ConsIncreasing((k, d), t);
      } else if k == t[0].0 {
        ConsIncreasing((k, Plus(t[0].1, d)), t[1..]);
      } else {
        AddAtIncreasing(t[1..], k, d);
        AddAtStarts(t[1..], k, d);
        ConsIncreasing(t[0], AddAt(t[1..], k, d));
      }
    }
  }

  /** Adding a non-zero delta keeps every bucket non-zero. */
  lemma {:induction false} AddAtTouched(t: Table, k: int, d: Counts)
    requires Touched(t) && d != Zero
    ensures Touched(AddAt(t, k, d))
  {
    var r := AddAt(t, k, d);
    if |t| > 0 {
      if k < t[0].0 {
        forall i | 0 <= i < |r| ensures r[i].1 != Zero {
          if i > 0 { assert r[i] == t[i - 1]; }
        }
      } else if k == t[0].0 {
        forall i | 0 <= i < |r| ensures r[i].1 != Zero {
          if i > 0 { assert r[i] == t[i]; }
        }
      } else {
        var rest := AddAt(t[1..], k, d);
        assert Touched(t[1..]) by {
          forall i | 0 <= i < |t[1..]| ensures t[1..][i].1 != Zero {
            assert t[1..][i] == t[i + 1];
          }
        }
        AddAtTouched(t[1..], k, d);
        forall i | 0 <= i < |r| ensures r[i].1 != Zero {
          if i > 0 { assert r[i] == rest[i - 1]; }
        }
      }
    }
  }

  /** Adding `d` at `k` adds it to that bucket and to no other. */
  lemma {:induction false} AddAtLookup(t: Table, k: int, d: Counts, j: int)
    requires Increasing(t)
    ensures Lookup(AddAt(t, k, d), j) == if j == k then Plus(Lookup(t, k), d) else Lookup(t, j)
  {
    if |t| > 0 {
      IncreasingTail(t);
      StartsCons(t);
      if k < t[0].0 {
        assert k !in Starts(t);
        LookupAbsent(t, k);
        assert AddAt(t, k, d)[1..] == t;
      } else if k == t[0].0 {
        assert AddAt(t, k, d)[1..] == t[1..];
      } else {
        AddAtLookup(t[1..], k, d, j);
        assert AddAt(t, k, d)[1..] == AddAt(t[1..], k, d);
      }
    }
  }

  /** Adding `d` anywhere adds `d` to the column sums. */
  lemma {:induction false} AddAtSum(t: Table, k: int, d: Counts)
    ensures Sum(AddAt(t, k, d)) == Plus(Sum(t), d)
  {
    if |t| > 0 {
      if k < t[0].0 {
        assert AddAt(t, k, d)[1..] == t;
      } else if k == t[0].0 {
        assert AddAt(t, k, d)[1..] == t[1..];
      } else {
        AddAtSum(t[1..], k, d);
        assert AddAt(t, k, d)[1..] == AddAt(t[1..], k, d);
      }
    }
  }

  /** A touched, ordered table holds the bucket `k` exactly when it reads non-zero. */
  lemma {:induction false} LookupPresent(t: Table, k: int)
    requires Increasing(t) && Touched(t)
    ensures k in Starts(t) <==> Lookup(t, k) != Zero
  {
    if |t| > 0 {
      StartsCons(t);
      IncreasingTail(t);
      assert Touched(t[1..]) by {
        forall i | 0 <= i < |t[1..]| ensures t[1..][i].1 != Zero {
          assert t[1..][i] == t[i + 1];
        }
      }
      LookupPresent(t[1..], k);
    }
  }

  /** The bucket table built row by row: every row whose delta is non-zero
      adds it to its bucket. */
  function Accumulate(rows: seq<Row>, interval: int, delta: Row -> Counts): (t: Table)
    requires interval != 0
  {
    if |rows| == 0 then []
    else
      var t := Accumulate(rows[..|rows| - 1], interval, delta);
      var r := rows[|rows| - 1];
      if delta(r) == Zero then t else AddAt(t, Bucket(r.time, interval), delta(r))
  }

  /** Reference definition: the sum of the deltas of the rows whose bucket is `k`. */
  function InBucket(rows: seq<Row>, interval: int, delta: Row -> Counts, k: int): Counts
    requires interval != 0
  {
    if |rows| == 0 then Zero
    else
      var r := rows[|rows| - 1];
      Plus(InBucket(rows[..|rows| - 1], interval, delta, k),
           if Bucket(r.time, interval) == k then delta(r) else Zero)
  }

  /** The sum of the deltas of all rows. */
  function SumRows(rows: seq<Row>, delta: Row -> Counts): Counts {
    if |rows| == 0 then Zero else Plus(SumRows(rows[..|rows| - 1], delta), delta(rows[|rows| - 1]))
  }

  /** The table is ordered and holds touched buckets only. */
  lemma {:induction false} AccumulateShape(rows: seq<Row>, interval: int, delta: Row -> Counts)
    requires interval != 0
    ensures Increasing(Accumulate(rows, interval, delta)) && Touched(Accumulate(rows, interval, delta))
  {
    if |rows| > 0 {
      var init := rows[..|rows| - 1];
      var r := rows[|rows| - 1];
      AccumulateShape(init, interval, delta);
      if delta(r) != Zero {
        AddAtIncreasing(Accumulate(init, interval, delta), Bucket(r.time, interval), delta(r));
        AddAtTouched(Accumulate(init, interval, delta), Bucket(r.time, interval), delta(r));
      }
    }
  }

  /** Each bucket of the table holds exactly the sum of the deltas of the rows
      falling in it. */
  lemma {:induction false} AccumulateLookup(rows: seq<Row>, interval: int, delta: Row -> Counts, k: int)
    requires interval != 0
    ensures Lookup(Accumulate(rows, interval, delta), k) == InBucket(rows, interval, delta, k)
  {
    if |rows| > 0 {
      var init := rows[..|rows| - 1];
      var r := rows[|rows| - 1];
      var t := Accumulate(init, interval, delta);
      var key := Bucket(r.time, interval);
      AccumulateLookup(init, interval, delta, k);
      PlusZero(InBucket(init, interval, delta, k));
      assert InBucket(rows, interval, delta, k)
          == Plus(InBucket(init, interval, delta, k), if key == k then delta(r) else Zero);
      if delta(r) != Zero {
        AccumulateShape(init, interval, delta);
        AddAtLookup(t, Bucket(r.time, interval), delta(r), k);
        assert Accumulate(rows, interval, delta) == AddAt(t, Bucket(r.time, interval), delta(r));
      } else {
        assert Accumulate(rows, interval, delta) == t;
      }
    }
  }

  /** The buckets together hold every row's delta. */
  lemma {:induction false} AccumulateSum(rows: seq<Row>, interval: int, delta: Row -> Counts)
    requires interval != 0
    ensures Sum(Accumulate(rows, interval, delta)) == SumRows(rows, delta)
  {
    if |rows| > 0 {
      var init := rows[..|rows| - 1];
      var r := rows[|rows| - 1];
      var t := Accumulate(init, interval, delta);
      AccumulateSum(init, interval, delta);
      assert SumRows(rows, delta) == Plus(SumRows(init, delta), delta(r));
      if delta(r) != Zero {
        assert Accumulate(rows, interval, delta) == AddAt(t, Bucket(r.time, interval), delta(r));
        AddAtSum(t, Bucket(r.time, interval), delta(r));
      } else {
        assert Accumulate(rows, interval, delta) == t;
        PlusZero(SumRows(init, delta));
      }
    }
  }

  /** A bucket appears in the table exactly when some of its rows add to it. */
  lemma BucketPresent(rows: seq<Row>, interval: int, delta: Row -> Counts, k: int)
    requires interval != 0
    ensures k in Starts(Accumulate(rows, interval, delta)) <==> InBucket(rows, interval, delta, k) != Zero
  {
    AccumulateShape(rows, interval, delta);
    AccumulateLookup(rows, interval, delta, k);
    LookupPresent(Accumulate(rows, interval, delta), k);
  }

  // ---------------------------------------------------------------------
  // The two timelines

  /** `get_timeseries_metrics` after its query: the per-bucket request,
      response, notification and error counts, ordered by bucket. A zero
      interval raises `ZeroDivisionError` at the first row. */
  function Timeseries(rows: seq<Row>, interval: int, parse: Parser): (r: Outcome<Table>)
    ensures r.Raises? <==> interval == 0 && |rows| > 0
    ensures r.Returns? && interval != 0 ==> r.value == Accumulate(rows, interval, TrafficDelta(parse))
    ensures r.Returns? && interval == 0 ==> r.value == []
  {
    if interval == 0 then (if |rows| == 0 then Returns([]) else Raises("ZeroDivisionError"))
    else Returns(Accumulate(rows, interval, TrafficDelta(parse)))
  }

  /** `get_error_timeline` after its query: per bucket, the error count and
      the number of rows. */
  function ErrorTimeline(rows: seq<Row>, interval: int, parse: Parser): (r: Outcome<Table>)
    ensures r.Raises? <==> interval == 0 && |rows| > 0
    ensures r.Returns? && interval != 0 ==> r.value == Accumulate(rows, interval, ErrorDelta(parse))
    ensures r.Returns? && interval == 0 ==> r.value == []
  {
    if interval == 0 then (if |rows| == 0 then Returns([]) else Raises("ZeroDivisionError"))
    else Returns(Accumulate(rows, interval, ErrorDelta(parse)))
  }

  /** Every row lands in exactly one bucket, so the column sums of the
      timeseries do not depend on the interval. */
  lemma TimeseriesIgnoresInterval(rows: seq<Row>, i1: int, i2: int, parse: Parser)
    requires i1 != 0 && i2 != 0
    ensures Sum(Timeseries(rows, i1, parse).value) == Sum(Timeseries(rows, i2, parse).value)
  {
    AccumulateSum(rows, i1, TrafficDelta(parse));
    AccumulateSum(rows, i2, TrafficDelta(parse));
  }

  /** Every row is counted once in the error timeline's totals. */
  lemma {:induction false} ErrorTimelineCountsRows(rows: seq<Row>, interval: int, parse: Parser)
    requires interval != 0
    ensures Sum(ErrorTimeline(rows, interval, parse).value).total == |rows|
  {
    AccumulateSum(rows, interval, ErrorDelta(parse));
    RowsTotal(rows, parse);
  }

  lemma {:induction false} RowsTotal(rows: seq<Row>, parse: Parser)
    ensures SumRows(rows, ErrorDelta(parse)).total == |rows|
  {
    if |rows| > 0 {
      RowsTotal(rows[..|rows| - 1], parse);
    }
  }

  // ---------------------------------------------------------------------
  // Distributions

  /** The message kinds of the rows, in order. */
  function Kinds(rows: seq<Row>, parse: Parser): (ks: seq<Utils.MessageType>)
    ensures |ks| == |rows|
    ensures forall i :: 0 <= i < |rows| ==> ks[i] == TypeOf(rows[i].message, parse)
  {
    if |rows| == 0 then []
    else Kinds(rows[..|rows| - 1], parse) + [TypeOf(rows[|rows| - 1].message, parse)]
  }

  /** The number of rows with an `error` key. */
  function ErrorCount(rows: seq<Row>, parse: Parser): (n: nat)
    ensures n <= |rows|
  {
    if |rows| == 0 then 0
    else ErrorCount(rows[..|rows| - 1], parse) + Indicator(HasErrorKey(rows[|rows| - 1].message, parse))
  }

  datatype TypeDistribution = TypeDistribution(counts: Tallies.Tally<Utils.MessageType>, errorCount: nat, total: nat)

  /** `get_message_type_distribution` after its query: a counter of kinds in
      first-seen order, the rows with an `error` key, and the counters' sum. */
  function TypeDistributionOf(rows: seq<Row>, parse: Parser): (d: TypeDistribution)
    ensures d.total == Tallies.Total(d.counts)
    ensures d.errorCount <= |rows|
    ensures Tallies.DistinctKeys(d.counts) && Tallies.Positive(d.counts)
  {
    var c := Tallies.Count(Kinds(rows, parse));
    TypeDistribution(c, ErrorCount(rows, parse), Tallies.Total(c))
  }

  /** Each kind is counted once per row of that kind, so the total is the
      number of rows and an empty range gives nothing. */
  lemma TypeDistributionCounts(rows: seq<Row>, parse: Parser, t: Utils.MessageType)
    ensures Tallies.CountOf(TypeDistributionOf(rows, parse).counts, t) == multiset(Kinds(rows, parse))[t]
    ensures TypeDistributionOf(rows, parse).total == |rows|
    ensures |rows| == 0 ==> TypeDistributionOf(rows, parse).counts == []
  {
    Tallies.CountCounts(Kinds(rows, parse), t);
  }

  /** One row of the transport query: `transport_type` (SQL `NULL` as `None`)
      and its `COUNT(*)`. */
  datatype TransportGroup = TransportGroup(transport: Option<string>, count: nat)

  /** `row["transport_type"] or "unknown"`. */
  function TransportLabel(t: Option<string>): (name: string)
    ensures |name| > 0
    ensures name == "unknown" <==> t.None? || t.value == "" || t.value == "unknown"
    ensures t.Some? && t.value != "" ==> name == t.value
  {
    match t
    case Some(s) => if s == "" then "unknown" else s
    case None => "unknown"
  }

  datatype TransportDistribution = TransportDistribution(entries: seq<(string, nat)>, total: nat)

  /** `get_transport_distribution` after its query: one labelled entry per
      group, in the query's order, and the sum of the counts. */
  function TransportDistributionOf(groups: seq<TransportGroup>): (d: TransportDistribution)
    ensures |d.entries| == |groups|
    ensures forall i :: 0 <= i < |groups| ==>
      d.entries[i] == (TransportLabel(groups[i].transport), groups[i].count)
  {
    if |groups| == 0 then TransportDistribution([], 0)
    else
      var d := TransportDistributionOf(groups[..|groups| - 1]);
      var g := groups[|groups| - 1];
      TransportDistribution(d.entries + [(TransportLabel(g.transport), g.count)], d.total + g.count)
  }

  function EntryTotal(entries: seq<(string, nat)>): nat {
    if |entries| == 0 then 0 else EntryTotal(entries[..|entries| - 1]) + entries[|entries| - 1].1
  }

  /** The total is the sum of the listed counts. */
  lemma {:induction false} TransportTotalListed(groups: seq<TransportGroup>)
    ensures TransportDistributionOf(groups).total == EntryTotal(TransportDistributionOf(groups).entries)
  {
    if |groups| > 0 {
      var d := TransportDistributionOf(groups);
      TransportTotalListed(groups[..|groups| - 1]);
      assert d.entries[..|groups| - 1] == TransportDistributionOf(groups[..|groups| - 1]).entries;
    }
  }

  /** Splitting the groups splits the total; no groups give nothing. */
  lemma {:induction false} TransportTotalSplits(a: seq<TransportGroup>, b: seq<TransportGroup>)
    ensures TransportDistributionOf(a + b).total == TransportDistributionOf(a).total + TransportDistributionOf(b).total
    ensures TransportDistributionOf([]) == TransportDistribution([], 0)
  {
    if |b| > 0 {
      TransportTotalSplits(a, b[..|b| - 1]);
      assert (a + b)[..|a + b| - 1] == a + b[..|b| - 1];
    } else {
      assert a + b == a;
    }
  }

  // ---------------------------------------------------------------------
  // Method frequency

  /** The counter key a row contributes to `method_counts`: the hashable
      `method` value of an object that has one. A failed parse, a non-object
      (whose `["method"]` raises or whose `in` raises) and an unhashable
      method raise inside the `try` and count nothing. */
  function MethodKey(message: string, parse: Parser): (k: Option<Key>)
    ensures k.Some? ==> parse(message).Some? && parse(message).value.JObj?
  {
    match parse(message)
    case Some(JObj(fields)) => if "method" in fields then KeyOf(fields["method"]) else None
    case _ => None
  }

  /** The keys counted, one per contributing row, in row order. */
  function MethodKeys(rows: seq<Row>, parse: Parser): seq<Key> {
    if |rows| == 0 then []
    else
      var ks := MethodKeys(rows[..|rows| - 1], parse);
      match MethodKey(rows[|rows| - 1].message, parse)
      case Some(k) => ks + [k]
      case None => ks
  }

  datatype MethodFrequency = MethodFrequency(top: Tallies.Tally<Key>, unique: nat)

  /** `get_method_frequency` after its query: `most_common(limit)` of the
      method counter, and the number of distinct methods. */
  function MethodFrequencyOf(rows: seq<Row>, limit: int, parse: Parser): (f: MethodFrequency)
    ensures |f.top| == if limit <= 0 then 0 else if limit < f.unique then limit else f.unique
    ensures Tallies.NonIncreasing(f.top)
  {
    var c := Tallies.Count(MethodKeys(rows, parse));
    MethodFrequency(Tallies.MostCommon(c, limit), |c|)
  }

  /** Every listed method carries the number of rows naming it; no unlisted
      method was named more often than a listed one; and `unique` counts the
      distinct methods. */
  lemma MethodFrequencyCounts(rows: seq<Row>, limit: int, parse: Parser)
    ensures var f := MethodFrequencyOf(rows, limit, parse);
      var ks := MethodKeys(rows, parse);
      && (forall e :: e in f.top ==> e.1 == multiset(ks)[e.0] && e.1 > 0)
      && (forall k, e :: k in ks && e in f.top && (k, multiset(ks)[k]) !in f.top ==> multiset(ks)[k] <= e.1)
      && f.unique == |set k | k in ks|
  {
    var ks := MethodKeys(rows, parse);
    var c := Tallies.Count(ks);
    var f := MethodFrequencyOf(rows, limit, parse);
    Tallies.DistinctCard(c);
    Tallies.CountCounts(ks, KNone);
    forall e | e in f.top ensures e.1 == multiset(ks)[e.0] && e.1 > 0 {
      assert e in multiset(f.top);
      Tallies.EntryCount(c, e);
      Tallies.CountCounts(ks, e.0);
    }
    forall k, e | k in ks && e in f.top && (k, multiset(ks)[k]) !in f.top ensures multiset(ks)[k] <= e.1 {
      Tallies.CountCounts(ks, k);
      Tallies.KeyEntry(c, k);
      var x := (k, multiset(ks)[k]);
      assert x in multiset(c) - multiset(f.top) by {
        assert x !in multiset(f.top);
      }
    }
  }
}
