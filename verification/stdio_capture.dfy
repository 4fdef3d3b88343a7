/** JSON-RPC capture on a process's standard streams (`mcphawk/stdio_capture.py`).

    Two extractors find messages in text: the monitor thread of a child
    process cuts complete `{...}` objects out of its buffer with a brace
    counter that knows about string literals and backslash escapes, and
    `MonitoredFile.write` cuts its buffer into lines and takes the span from
    the first `{` to the last `}` of each line that mentions `{"jsonrpc"`.
    Both keep only objects whose `jsonrpc` member is `"2.0"`; each kept
    message becomes a log entry whose direction follows from `method`. */
module StdioCapture {
  import opened Wrappers
  import opened Json
  import Seqs
  import Utils

  // ---------------------------------------------------------------------
  // The brace counter

  /** The scanner's state between two characters: the brace depth counted
      outside string literals, whether a string literal is open, and whether
      the previous character was a backslash. */
  datatype Lexer = Lexer(depth: int, inString: bool, escaped: bool)

  const Start: Lexer := Lexer(0, false, false)

  /** One turn of the scanning loop. An escaped character is skipped whatever
      it is; a backslash escapes the next one; a quote opens or closes a
      string; only `{` and `}` outside strings move the depth. */
  function Step(l: Lexer, c: char): (r: Lexer)
    ensures l.escaped ==> r == l.(escaped := false)
    ensures r.depth != l.depth ==> !l.escaped && !l.inString && (c == '{' || c == '}')
    ensures !l.escaped && !l.inString && c == '{' ==> r.depth == l.depth + 1
    ensures !l.escaped && !l.inString && c == '}' ==> r.depth == l.depth - 1
  {
    if l.escaped then l.(escaped := false)
    else if c == '\\' then l.(escaped := true)
    else if c == '"' then l.(inString := !l.inString)
    else if !l.inString && c == '{' then l.(depth := l.depth + 1)
    else if !l.inString && c == '}' then l.(depth := l.depth - 1)
    else l
  }

  /** The `}` that ends the object: it is read outside any string, not
      escaped, and brings the depth from one to zero. */
  predicate Closes(l: Lexer, c: char) {
    !l.escaped && !l.inString && c == '}' && l.depth == 1
  }

  /** The scanning loop from position `i` of `t` in state `l`: one past the
      closing brace, or `None` when the text ends first. */
  function ScanFrom(t: string, i: nat, l: Lexer): (end: Option<nat>)
    requires i <= |t|
    ensures end.Some? ==> i < end.value <= |t|
    decreases |t| - i
  {
    if i == |t| then None
    else if Closes(l, t[i]) then Some(i + 1)
    else ScanFrom(t, i + 1, Step(l, t[i]))
  }

  /** The length of the object at the front of `t` (which starts with `{`):
      `end - start` of the source, or `None` for an object not yet complete. */
  function ObjectLength(t: string): (n: Option<nat>)
    ensures n.Some? ==> 0 < n.value <= |t|
  {
    ScanFrom(t, 0, Start)
  }

  // ---------------------------------------------------------------------
  // What an object is, independently of the loop

  /** The state after scanning all of `s`. */
  function Run(s: string): Lexer
    decreases |s|
  {
    if s == [] then Start else Step(Run(s[..|s| - 1]), s[|s| - 1])
  }

  /** `s` is one complete object as the scanner reads it: it opens with `{`,
      the depth stays positive after each proper prefix and is zero after
      the whole. */
  predicate Balanced(s: string) {
    && |s| > 0 && s[0] == '{'
    && Run(s).depth == 0
    && forall k :: 0 < k < |s| ==> Run(s[..k]).depth > 0
  }

  lemma RunSnoc(t: string, i: nat)
    requires i < |t|
    ensures Run(t[..i + 1]) == Step(Run(t[..i]), t[i])
  {
    assert t[..i + 1][..i] == t[..i];
  }

  /** While the depth stays positive, a character that does not close the
      object leaves it positive. */
  lemma StepStaysOpen(l: Lexer, c: char)
    requires l.depth > 0 && !Closes(l, c)
    ensures Step(l, c).depth > 0
  {
  }

  /** The loop, started where the depth has been positive after every prefix,
      stops exactly after the first prefix whose depth is zero. */
  lemma {:induction false} ScanFromFirstZero(t: string, i: nat)
    requires 0 < i <= |t|
    requires forall k :: 0 < k <= i ==> Run(t[..k]).depth > 0
    ensures var r := ScanFrom(t, i, Run(t[..i]));
      && (r.Some? ==> Run(t[..r.value]).depth == 0 && forall k :: 0 < k < r.value ==> Run(t[..k]).depth > 0)
      && (r.None? ==> forall k :: 0 < k <= |t| ==> Run(t[..k]).depth > 0)
    decreases |t| - i
  {
    if i < |t| {
      var l := Run(t[..i]);
      RunSnoc(t, i);
      if !Closes(l, t[i]) {
        StepStaysOpen(l, t[i]);
        ScanFromFirstZero(t, i + 1);
      }
    }
  }

  /** The loop finds the end of the object at the front of `t` exactly when
      that object is complete: `ObjectLength` is the length of the shortest
      balanced prefix, and `None` means there is no balanced prefix at all. */
  lemma ObjectLengthBalanced(t: string)
    requires |t| > 0 && t[0] == '{'
    ensures ObjectLength(t).Some? ==> Balanced(t[..ObjectLength(t).value])
    ensures ObjectLength(t).None? ==> forall k :: 0 < k <= |t| ==> !Balanced(t[..k])
  {
    assert Run(t[..1]) == Lexer(1, false, false) by {
      RunSnoc(t, 0);
      assert t[..0] == [];
    }
    assert ObjectLength(t) == ScanFrom(t, 1, Run(t[..1]));
    ScanFromFirstZero(t, 1);
    var r := ObjectLength(t);
    if r.Some? {
      var s := t[..r.value];
      forall k | 0 < k < |s| ensures Run(s[..k]).depth > 0 {
        assert s[..k] == t[..k];
      }
      assert s[0] == t[0];
    } else {
      forall k | 0 < k <= |t| ensures !Balanced(t[..k]) {
        assert t[..k][..k] == t[..k];
      }
    }
  }

  /** A balanced object at the front of the text is found whatever follows it. */
  lemma BalancedFound(obj: string, tail: string)
    requires Balanced(obj)
    ensures ObjectLength(obj + tail) == Some(|obj|)
  {
    var t := obj + tail;
    assert t[..|obj|] == obj;
    ObjectLengthBalanced(t);
    var n := if ObjectLength(t).Some? then ObjectLength(t).value else 0;
    BalancedPrefixUnique(t, n, |obj|);
  }

  /** A text has at most one balanced prefix. */
  lemma BalancedPrefixUnique(t: string, i: nat, j: nat)
    ensures 0 < i <= |t| && 0 < j <= |t| && Balanced(t[..i]) && Balanced(t[..j]) ==> i == j
  {
    OpenBeforeEnd(t, i, j);
    OpenBeforeEnd(t, j, i);
  }

  /** Inside a balanced prefix the depth is still positive. */
  lemma OpenBeforeEnd(t: string, i: nat, j: nat)
    ensures 0 < j < i <= |t| && Balanced(t[..i]) ==> Run(t[..j]).depth > 0
  {
    if 0 < j < i <= |t| && Balanced(t[..i]) {
      assert t[..i][..j] == t[..j];
    }
  }

  // ---------------------------------------------------------------------
  // The extraction loop

  /** How the loop measures the object at the front of the buffer. The
      monitor uses `ObjectLength`; the loop is stated for any scanner so that
      its proofs need only the facts `Scanner` lists. */
  type Scan = string -> Option<nat>

  /** A scanner reports a length within the text. */
  ghost predicate Sound(scan: Scan) {
    forall t :: scan(t).Some? ==> 0 < scan(t).value <= |t|
  }

  /** `s` is found whole at the front of any text that starts with it. */
  ghost predicate Complete(scan: Scan, s: string) {
    forall tail :: scan(s + tail) == Some(|s|)
  }

  /** A sound scanner whose every find from a `{` is complete. */
  ghost predicate Scanner(scan: Scan) {
    && Sound(scan)
    && forall t :: |t| > 0 && t[0] == '{' && scan(t).Some? ==> Complete(scan, t[..scan(t).value])
  }

  /** For the brace counter, being found whole after any text is being balanced. */
  lemma CompleteIsBalanced(s: string)
    requires |s| > 0 && s[0] == '{'
    ensures Complete(ObjectLength, s) <==> Balanced(s)
  {
    if Balanced(s) {
      forall tail ensures ObjectLength(s + tail) == Some(|s|) {
        BalancedFound(s, tail);
      }
    }
    if Complete(ObjectLength, s) {
      assert ObjectLength(s + []) == Some(|s|);
      assert s + [] == s;
      ObjectLengthBalanced(s);
      assert s[..|s|] == s;
    }
  }

  /** The brace counter is a scanner. */
  lemma ObjectLengthScanner()
    ensures Scanner(ObjectLength)
  {
    forall t | |t| > 0 && t[0] == '{' && ObjectLength(t).Some?
      ensures Complete(ObjectLength, t[..ObjectLength(t).value])
    {
      var n := ObjectLength(t).value;
      ObjectLengthBalanced(t);
      assert t[..n][0] == t[0];
      CompleteIsBalanced(t[..n]);
    }
  }

  /** What one turn of the `while True` loop cuts off: the text before the
      first `{` (dropped) and the object that follows it. */
  datatype Piece = Piece(skipped: string, span: string)

  /** The objects cut from a buffer, in order, and the buffer left for the
      next line. */
  datatype Extraction = Extraction(pieces: seq<Piece>, rest: string)

  /** One piece and the buffer left after it. */
  datatype Cut = Cut(piece: Piece, rest: string)

  /** The loop stops here: no `{` in the buffer, or the object from the first
      `{` on is incomplete. */
  predicate Stuck(buf: string, scan: Scan) {
    var start := Seqs.IndexOf(buf, '{');
    start == -1 || scan(buf[start..]).None?
  }

  /** One turn of the loop: `buffer[:start]`, `buffer[start:end]` and the new
      `buffer[end:]`, or `None` when it breaks. Each turn strictly shortens
      the buffer. */
  function CutOne(buf: string, scan: Scan): (r: Option<Cut>)
    requires Sound(scan)
    ensures r.None? <==> Stuck(buf, scan)
    ensures r.Some? ==> r.value.piece.skipped + r.value.piece.span + r.value.rest == buf
    ensures r.Some? ==> |r.value.rest| < |buf|
  {
    var start := Seqs.IndexOf(buf, '{');
    if start == -1 then None
    else match scan(buf[start..])
      case None => None
      case Some(n) =>
        var end := start + n;
        assert buf[..start] + buf[start..end] + buf[end..] == buf;
        Some(Cut(Piece(buf[..start], buf[start..end]), buf[end..]))
  }

  /** The `while True` loop run to its `break`. */
  function Extract(buf: string, scan: Scan): (r: Extraction)
    requires Sound(scan)
    decreases |buf|
  {
    match CutOne(buf, scan)
    case None => Extraction([], buf)
    case Some(Cut(p, rest)) =>
      var more := Extract(rest, scan);
      Extraction([p] + more.pieces, more.rest)
  }

  /** The pieces laid end to end. */
  function Glue(ps: seq<Piece>): string {
    if ps == [] then [] else ps[0].skipped + ps[0].span + Glue(ps[1..])
  }

  function Objects(ps: seq<Piece>): (objs: seq<string>)
    ensures |objs| == |ps|
    ensures forall i :: 0 <= i < |ps| ==> objs[i] == ps[i].span
  {
    if ps == [] then [] else [ps[0].span] + Objects(ps[1..])
  }

  /** A piece as the loop cuts it: skipped text without `{`, then an object
      found whole (for the brace counter: a balanced object). */
  ghost predicate WellCut(p: Piece, scan: Scan) {
    '{' !in p.skipped && |p.span| > 0 && p.span[0] == '{' && Complete(scan, p.span)
  }

  /** The first turn cuts a well-formed piece. */
  lemma CutOneWellCut(buf: string, scan: Scan)
    requires Scanner(scan)
    requires CutOne(buf, scan).Some?
    ensures WellCut(CutOne(buf, scan).value.piece, scan)
  {
    var start := Seqs.IndexOf(buf, '{');
    var t := buf[start..];
    var n := scan(t).value;
    var c := CutOne(buf, scan).value;
    assert c.piece == Piece(buf[..start], buf[start..start + n]);
    assert buf[start..start + n] == t[..n];
    assert t[0] == '{';
    assert Complete(scan, t[..n]);
  }

  lemma ExtractCons(buf: string, scan: Scan)
    requires Sound(scan) && CutOne(buf, scan).Some?
    ensures var c := CutOne(buf, scan).value;
            Extract(buf, scan) == Extraction([c.piece] + Extract(c.rest, scan).pieces, Extract(c.rest, scan).rest)
  {
  }

  lemma GlueCons(p: Piece, ps: seq<Piece>, rest: string)
    ensures Glue([p] + ps) + rest == p.skipped + p.span + (Glue(ps) + rest)
  {
    assert ([p] + ps)[1..] == ps;
  }

  lemma WellCutCons(p: Piece, ps: seq<Piece>, scan: Scan)
    requires WellCut(p, scan)
    requires forall i :: 0 <= i < |ps| ==> WellCut(ps[i], scan)
    ensures forall i :: 0 <= i < |[p] + ps| ==> WellCut(([p] + ps)[i], scan)
  {
    forall i | 0 <= i < |[p] + ps| ensures WellCut(([p] + ps)[i], scan) {
      if i > 0 { assert ([p] + ps)[i] == ps[i - 1]; }
    }
  }

  /** Extraction loses nothing and stops only when it must: the pieces and
      the rest give the buffer back, every piece is well cut, and the rest is
      stuck. */
  lemma {:induction false} ExtractDecomposes(buf: string, scan: Scan)
    requires Scanner(scan)
    ensures var r := Extract(buf, scan);
      && Glue(r.pieces) + r.rest == buf
      && (forall i :: 0 <= i < |r.pieces| ==> WellCut(r.pieces[i], scan))
      && Stuck(r.rest, scan)
    decreases |buf|
  {
    var c := CutOne(buf, scan);
    if c.Some? {
      var p := c.value.piece;
      var rest := c.value.rest;
      ExtractDecomposes(rest, scan);
      CutOneWellCut(buf, scan);
      ExtractCons(buf, scan);
      var more := Extract(rest, scan);
      GlueCons(p, more.pieces, more.rest);
      WellCutCons(p, more.pieces, scan);
    } else {
      assert Glue([]) + buf == buf;
    }
  }

  /** The first turn over a well-cut piece cuts exactly that piece. */
  lemma CutOneOfPiece(p: Piece, tail: string, scan: Scan)
    requires Sound(scan) && WellCut(p, scan)
    ensures CutOne(p.skipped + p.span + tail, scan) == Some(Cut(p, tail))
  {
    var buf := p.skipped + p.span + tail;
    var k := |p.skipped|;
    assert buf == p.skipped + (p.span + tail);
    FirstBrace(p.skipped, p.span + tail);
    assert buf[k..] == p.span + tail;
    assert scan(p.span + tail) == Some(|p.span|);
    assert buf[..k] == p.skipped;
    assert buf[k..k + |p.span|] == p.span;
    assert buf[k + |p.span|..] == tail;
  }

  /** The cut is unique: any decomposition into well-cut pieces followed by
      a stuck rest is the one `Extract` finds. */
  lemma {:induction false} ExtractUnique(ps: seq<Piece>, rest: string, scan: Scan)
    requires Sound(scan)
    requires forall i :: 0 <= i < |ps| ==> WellCut(ps[i], scan)
    requires Stuck(rest, scan)
    ensures Extract(Glue(ps) + rest, scan) == Extraction(ps, rest)
    decreases |ps|
  {
    if ps != [] {
      var p := ps[0];
      var tail := Glue(ps[1..]) + rest;
      var buf := Glue(ps) + rest;
      assert buf == p.skipped + p.span + tail by {
        GlueCons(p, ps[1..], rest);
        assert [p] + ps[1..] == ps;
      }
      assert CutOne(buf, scan) == Some(Cut(p, tail)) by {
        CutOneOfPiece(p, tail, scan);
      }
      assert Extract(tail, scan) == Extraction(ps[1..], rest) by {
        assert forall i :: 0 <= i < |ps[1..]| ==> WellCut(ps[1..][i], scan);
        ExtractUnique(ps[1..], rest, scan);
      }
      assert Extract(buf, scan) == Extraction([p] + ps[1..], rest) by {
        ExtractCons(buf, scan);
      }
      assert [p] + ps[1..] == ps;
    } else {
      assert Glue(ps) + rest == rest;
    }
  }

  /** The first `{` of text whose front holds none comes from what follows it. */
  lemma FirstBrace(a: string, b: string)
    requires '{' !in a && |b| > 0 && b[0] == '{'
    ensures Seqs.IndexOf(a + b, '{') == |a|
  {
    var s := a + b;
    assert s[|a|] == '{';
    assert s[..|a|] == a;
  }

  lemma GlueAppend(ps: seq<Piece>, qs: seq<Piece>)
    ensures Glue(ps + qs) == Glue(ps) + Glue(qs)
  {
    if ps != [] {
      assert (ps + qs)[1..] == ps[1..] + qs;
      GlueAppend(ps[1..], qs);
    } else {
      assert ps + qs == qs;
    }
  }

  /** The objects found do not depend on how the text was cut into lines:
      extracting from `x`, then from what was left followed by `y`, finds
      what extracting from `x + y` at once finds. */
  lemma ExtractResume(x: string, y: string, scan: Scan)
    requires Scanner(scan)
    ensures var r1 := Extract(x, scan);
            var r2 := Extract(r1.rest + y, scan);
            Extract(x + y, scan) == Extraction(r1.pieces + r2.pieces, r2.rest)
  {
    var r1 := Extract(x, scan);
    var r2 := Extract(r1.rest + y, scan);
    ExtractDecomposes(x, scan);
    ExtractDecomposes(r1.rest + y, scan);
    ResumeGlue(r1.pieces, r1.rest, r2.pieces, r2.rest, y);
    WellCutAppend(r1.pieces, r2.pieces, scan);
    ExtractUnique(r1.pieces + r2.pieces, r2.rest, scan);
  }

  lemma ResumeGlue(ps: seq<Piece>, rest1: string, qs: seq<Piece>, rest2: string, y: string)
    requires Glue(qs) + rest2 == rest1 + y
    ensures Glue(ps + qs) + rest2 == (Glue(ps) + rest1) + y
  {
    GlueAppend(ps, qs);
    assert Glue(ps + qs) + rest2 == Glue(ps) + (Glue(qs) + rest2);
  }

  lemma WellCutAppend(ps: seq<Piece>, qs: seq<Piece>, scan: Scan)
    requires forall i :: 0 <= i < |ps| ==> WellCut(ps[i], scan)
    requires forall i :: 0 <= i < |qs| ==> WellCut(qs[i], scan)
    ensures forall i :: 0 <= i < |ps + qs| ==> WellCut((ps + qs)[i], scan)
  {
    forall i | 0 <= i < |ps + qs| ensures WellCut((ps + qs)[i], scan) {
      if i >= |ps| { assert (ps + qs)[i] == qs[i - |ps|]; }
    }
  }

  // ---------------------------------------------------------------------
  // Keeping JSON-RPC 2.0 messages

  /** `msg.get("jsonrpc") == "2.0"` on what `json.loads` returned. Text cut
      between braces parses, when it parses at all, to an object. */
  function JsonRpcObject(v: Option<Json>): (r: Option<map<string, Json>>)
    ensures r.Some? <==> v.Some? && v.value.JObj? && Utils.IsV2(v.value.fields)
    ensures r.Some? ==> v == Some(JObj(r.value))
  {
    match v
    case Some(JObj(f)) => if Utils.IsV2(f) then Some(f) else None
    case _ => None
  }

  /** The messages of the extracted objects that are JSON-RPC 2.0, in order;
      the others (including text `json.loads` rejects) are dropped. */
  function Forward(objs: seq<string>, parse: Parser): (ms: seq<map<string, Json>>)
    ensures |ms| <= |objs|
    ensures forall i :: 0 <= i < |ms| ==> Utils.IsV2(ms[i])
  {
    if objs == [] then [] else Kept(JsonRpcObject(parse(objs[0]))) + Forward(objs[1..], parse)
  }

  /** The message an object contributes: one or none. */
  function Kept(m: Option<map<string, Json>>): (ms: seq<map<string, Json>>)
    ensures |ms| <= 1
    ensures m.Some? ==> ms == [m.value]
    ensures m.None? ==> ms == []
  {
    match m
    case Some(f) => [f]
    case None => []
  }

  lemma ForwardAppend(a: seq<string>, b: seq<string>, parse: Parser)
    ensures Forward(a + b, parse) == Forward(a, parse) + Forward(b, parse)
  {
    if a != [] {
      assert (a + b)[1..] == a[1..] + b;
      assert (a + b)[0] == a[0];
      ForwardAppend(a[1..], b, parse);
      Seqs.AppendAssoc(Kept(JsonRpcObject(parse(a[0]))), Forward(a[1..], parse), Forward(b, parse));
    } else {
      assert a + b == b;
    }
  }

  /** An object is forwarded exactly when it is JSON-RPC 2.0. */
  lemma ForwardSingle(obj: string, parse: Parser)
    ensures JsonRpcObject(parse(obj)).Some? ==> Forward([obj], parse) == [JsonRpcObject(parse(obj)).value]
    ensures JsonRpcObject(parse(obj)).None? ==> Forward([obj], parse) == []
  {
    assert [obj][1..] == [];
  }

  lemma ObjectsAppend(ps: seq<Piece>, qs: seq<Piece>)
    ensures Objects(ps + qs) == Objects(ps) + Objects(qs)
  {
  }

  /** The brace counter's lengths lie within the text. */
  lemma ObjectLengthSound()
    ensures Sound(ObjectLength)
  {
    forall t | ObjectLength(t).Some? ensures 0 < ObjectLength(t).value <= |t| {
    }
  }

  /** The monitor thread's handling of one line read from the stream: the
      buffer it keeps and the messages it passes on. */
  function MonitorLine(buffer: string, line: string, parse: Parser): (string, seq<map<string, Json>>) {
    ObjectLengthSound();
    var x := Extract(buffer + line, ObjectLength);
    (x.rest, Forward(Objects(x.pieces), parse))
  }

  /** The monitor thread over a sequence of lines. */
  function MonitorLines(buffer: string, lines: seq<string>, parse: Parser): (string, seq<map<string, Json>>)
    decreases |lines|
  {
    if lines == [] then (buffer, [])
    else
      var (b, ms) := MonitorLine(buffer, lines[0], parse);
      var (b2, ms2) := MonitorLines(b, lines[1..], parse);
      (b2, ms + ms2)
  }

  /** Between two lines the buffer never holds a complete object. */
  lemma MonitorLineStuck(buffer: string, line: string, parse: Parser)
    ensures Stuck(MonitorLine(buffer, line, parse).0, ObjectLength)
  {
    ObjectLengthScanner();
    ExtractDecomposes(buffer + line, ObjectLength);
  }

  /** However the output is cut into lines, the monitor passes on the
      JSON-RPC 2.0 objects of the whole text, in order, and keeps what
      follows the last complete object. */
  lemma {:induction false} MonitorLinesWhole(buffer: string, lines: seq<string>, parse: Parser)
    requires Stuck(buffer, ObjectLength)
    ensures MonitorLines(buffer, lines, parse) == MonitorLine(buffer, Seqs.Concat(lines), parse)
    decreases |lines|
  {
    ObjectLengthScanner();
    if lines == [] {
      assert buffer + Seqs.Concat(lines) == Glue([]) + buffer;
      ExtractUnique([], buffer, ObjectLength);
    } else {
      var x := Extract(buffer + lines[0], ObjectLength);
      MonitorLineStuck(buffer, lines[0], parse);
      MonitorLinesWhole(x.rest, lines[1..], parse);
      ExtractResume(buffer + lines[0], Seqs.Concat(lines[1..]), ObjectLength);
      Seqs.AppendAssoc(buffer, lines[0], Seqs.Concat(lines[1..]));
      var y := Extract(x.rest + Seqs.Concat(lines[1..]), ObjectLength);
      ObjectsAppend(x.pieces, y.pieces);
      ForwardAppend(Objects(x.pieces), Objects(y.pieces), parse);
    }
  }

  /** A line holding a message whose only braces are its own (no quotes or
      backslashes inside) is forwarded whole, and nothing is left over. */
  lemma PlainObjectForwarded(body: string, parse: Parser)
    requires forall i :: 0 <= i < |body| ==> body[i] !in "{}\"\\"
    requires JsonRpcObject(parse("{" + body + "}")).Some?
    ensures MonitorLine("", "{" + body + "}", parse).1 == [JsonRpcObject(parse("{" + body + "}")).value]
    ensures MonitorLine("", "{" + body + "}", parse).0 == []
  {
    var obj := "{" + body + "}";
    PlainBalanced(body);
    CompleteIsBalanced(obj);
    ObjectLengthSound();
    assert "" + obj == obj;
    assert Glue([Piece([], obj)]) + [] == obj;
    assert Stuck([], ObjectLength);
    ExtractUnique([Piece([], obj)], [], ObjectLength);
    ForwardSingle(obj, parse);
  }

  /** `{`, then characters the scanner passes over, then `}` is balanced. */
  lemma PlainBalanced(body: string)
    requires forall i :: 0 <= i < |body| ==> body[i] !in "{}\"\\"
    ensures Balanced("{" + body + "}")
  {
    var s := "{" + body + "}";
    forall k | 0 < k <= |body| + 1 ensures Run(s[..k]) == Lexer(1, false, false) {
      PlainPrefix(body, k);
    }
    RunSnoc(s, |body| + 1);
    assert s[..|body| + 2] == s;
  }

  lemma {:induction false} PlainPrefix(body: string, k: nat)
    requires forall i :: 0 <= i < |body| ==> body[i] !in "{}\"\\"
    requires 0 < k <= |body| + 1
    ensures Run(("{" + body + "}")[..k]) == Lexer(1, false, false)
  {
    var s := "{" + body + "}";
    RunSnoc(s, k - 1);
    if k == 1 {
      assert s[..0] == [];
    } else {
      PlainPrefix(body, k - 1);
      assert s[k - 1] == body[k - 2];
    }
  }

  // ---------------------------------------------------------------------
  // Log entries

  datatype Direction = Outgoing | Incoming

  /** A request or a notification (`method` present) goes out from the
      client; anything else is a response coming in. */
  function DirectionOf(msg: map<string, Json>): (d: Direction)
    ensures d == Outgoing <==> PyIn("method", JObj(msg)) == Some(true)
  {
    if "method" in msg && "id" !in msg then Outgoing
    else if "method" in msg then Outgoing
    else Incoming
  }

  /** The direction agrees with the JSON-RPC classification: requests and
      notifications go out; responses and errors come in unless they also
      carry a `method`. */
  lemma DirectionAgreesWithType(msg: map<string, Json>)
    requires Utils.IsV2(msg)
    ensures Utils.ClassifyFields(msg) in {Utils.Request, Utils.Notification} ==> DirectionOf(msg) == Outgoing
    ensures Utils.ClassifyFields(msg) in {Utils.Response, Utils.Error} && "method" !in msg ==> DirectionOf(msg) == Incoming
    ensures Utils.ClassifyFields(msg) == Utils.Unknown ==> DirectionOf(msg) == Incoming
  {
  }

  /** The fields of a stdio log entry that do not come from a clock or a
      random source. */
  datatype Entry = Entry(
    srcIp: string, srcPort: Option<int>,
    dstIp: string, dstPort: Option<int>,
    direction: Direction, message: map<string, Json>,
    transportType: string, pid: int, source: string)

  /** `_process_jsonrpc_message`'s entry: no addresses or ports, transport
      `stdio`, the process id and stream name. */
  function EntryFor(msg: map<string, Json>, pid: int, source: string): (e: Entry)
    ensures e.srcIp == "stdio" && e.dstIp == "stdio"
    ensures e.srcPort.None? && e.dstPort.None?
    ensures e.transportType == "stdio"
    ensures e.pid == pid && e.source == source && e.message == msg
    ensures e.direction == Outgoing <==> "method" in msg
  {
    Entry("stdio", None, "stdio", None, DirectionOf(msg), msg, "stdio", pid, source)
  }

  // ---------------------------------------------------------------------
  // `MonitoredFile.write`

  const JsonRpcMark: string := "{\"jsonrpc\""

  /** The state left by `MonitoredFile.write` and what it did: the value the
      wrapped file's `write` returned, the new buffer, and the messages passed on. */
  datatype Written = Written(result: int, buffer: string, messages: seq<map<string, Json>>)

  /** `'{"jsonrpc"' in buffer and '}' in buffer`: the test that starts a scan. */
  predicate Scans(b: string) {
    Seqs.Contains(b, JsonRpcMark) && '}' in b
  }

  /** One line of the scan: from the first `{` to the last `}`, parsed, kept
      if it is JSON-RPC 2.0. Every failure is swallowed. */
  function LineMessage(line: string, parse: Parser): (r: Option<map<string, Json>>)
    ensures r.Some? ==> Seqs.Contains(line, JsonRpcMark) && Utils.IsV2(r.value)
    ensures r.Some? ==> exists i, j :: 0 <= i < j <= |line| && parse(line[i..j]) == Some(JObj(r.value))
  {
    if !Seqs.Contains(line, JsonRpcMark) then None
    else
      var start := Seqs.IndexOf(line, '{');
      var end := Seqs.LastIndexOf(line, '}') + 1;
      if start >= 0 && end > start then JsonRpcObject(parse(line[start..end]))
      else None
  }

  function LineMessages(lines: seq<string>, parse: Parser): (ms: seq<map<string, Json>>)
    ensures |ms| <= |lines|
  {
    if lines == [] then []
    else
      (match LineMessage(lines[0], parse) case Some(m) => [m] case None => []) + LineMessages(lines[1..], parse)
  }

  /** `MonitoredFile.write(data)`: `result` is what the wrapped file's
      `write(data)` returned, and it is returned unchanged. */
  function Write(buffer: string, data: string, result: int, parse: Parser): (w: Written)
    ensures w.result == result
    ensures !Scans(buffer + data) ==> w.buffer == buffer + data && w.messages == []
    ensures Scans(buffer + data) ==> '\n' !in w.buffer && Seqs.EndsWith(buffer + data, w.buffer)
  {
    var b := buffer + data;
    if Scans(b) then
      var lines := Seqs.Split(b, "\n");
      LastLineKept(b);
      Written(result, lines[|lines| - 1], LineMessages(lines[..|lines| - 1], parse))
    else Written(result, b, [])
  }

  /** The last piece of a split on newlines holds no newline and ends the text. */
  lemma LastLineKept(b: string)
    ensures var lines := Seqs.Split(b, "\n");
            '\n' !in lines[|lines| - 1] && Seqs.EndsWith(b, lines[|lines| - 1])
  {
    var lines := Seqs.Split(b, "\n");
    Seqs.SplitPartsFree(b, "\n");
    Seqs.ContainsSingle(lines[|lines| - 1], '\n');
    JoinSplitLast(b);
  }

  /** The text is the scanned lines, each closed by its newline, then the
      kept last line. */
  lemma JoinSplitLast(b: string)
    ensures var lines := Seqs.Split(b, "\n");
            b == Seqs.Concat(Closed(lines[..|lines| - 1])) + lines[|lines| - 1]
  {
    Seqs.JoinSplit(b, "\n");
    JoinClosed(Seqs.Split(b, "\n"));
  }

  /** Joining with newlines closes every line but the last. */
  lemma {:induction false} JoinClosed(lines: seq<string>)
    requires |lines| >= 1
    ensures Seqs.Join(lines, "\n") == Seqs.Concat(Closed(lines[..|lines| - 1])) + lines[|lines| - 1]
    decreases |lines|
  {
    var n := |lines|;
    if n == 1 {
      assert lines[..0] == [];
    } else {
      var tail := lines[1..];
      JoinClosed(tail);
      assert lines[..n - 1] == [lines[0]] + tail[..n - 2];
      assert Closed([lines[0]] + tail[..n - 2]) == [lines[0] + "\n"] + Closed(tail[..n - 2]) by {
        assert ([lines[0]] + tail[..n - 2])[1..] == tail[..n - 2];
      }
      ConcatCons(lines[0] + "\n", Closed(tail[..n - 2]));
      assert tail[|tail| - 1] == lines[n - 1];
      Seqs.AppendAssoc(lines[0] + "\n", Seqs.Concat(Closed(tail[..n - 2])), lines[n - 1]);
    }
  }

  lemma ConcatCons(a: string, ss: seq<string>)
    ensures Seqs.Concat([a] + ss) == a + Seqs.Concat(ss)
  {
    assert ([a] + ss)[1..] == ss;
  }

  /** Each line followed by the newline that ended it. */
  function Closed(lines: seq<string>): (r: seq<string>)
    ensures |r| == |lines|
  {
    if lines == [] then [] else [lines[0] + "\n"] + Closed(lines[1..])
  }

  /** Nothing written is lost: when a scan happens, the buffer before the
      call and the data are the scanned lines, each with its newline, then
      the new buffer. */
  lemma WriteLossless(buffer: string, data: string, result: int, parse: Parser)
    requires Scans(buffer + data)
    ensures var lines := Seqs.Split(buffer + data, "\n");
            buffer + data == Seqs.Concat(Closed(lines[..|lines| - 1])) + Write(buffer, data, result, parse).buffer
  {
    JoinSplitLast(buffer + data);
  }

  /** A complete JSON-RPC 2.0 line written in one call is passed on once and
      the buffer is left empty; the result of the wrapped write is returned. */
  lemma WriteForwardsLine(obj: string, result: int, parse: Parser)
    requires Seqs.StartsWith(obj, JsonRpcMark) && obj[|obj| - 1] == '}'
    requires '\n' !in obj
    requires JsonRpcObject(parse(obj)).Some?
    ensures Write("", obj + "\n", result, parse) == Written(result, "", [JsonRpcObject(parse(obj)).value])
  {
    var b := obj + "\n";
    assert "" + b == b;
    assert Scans(b) by {
      ScansObjectLine(obj);
    }
    assert Seqs.Split(b, "\n") == [obj, []] by {
      NewlineAtEnd(obj);
    }
    assert [obj, []][..1] == [obj];
    assert LineMessages([obj], parse) == [JsonRpcObject(parse(obj)).value] by {
      LineMessageOfObject(obj, parse);
      assert [obj][1..] == [];
    }
  }

  lemma ScansObjectLine(obj: string)
    requires Seqs.StartsWith(obj, JsonRpcMark) && obj[|obj| - 1] == '}'
    ensures Scans(obj + "\n")
  {
    var b := obj + "\n";
    assert Seqs.OccursAt(b, JsonRpcMark, 0) by {
      assert b[..|JsonRpcMark|] == obj[..|JsonRpcMark|];
    }
    assert b[|obj| - 1] == '}';
  }

  /** A line that is one message is read from its first to its last character. */
  lemma LineMessageOfObject(obj: string, parse: Parser)
    requires Seqs.StartsWith(obj, JsonRpcMark) && obj[|obj| - 1] == '}'
    ensures LineMessage(obj, parse) == JsonRpcObject(parse(obj))
  {
    assert Seqs.OccursAt(obj, JsonRpcMark, 0);
    assert obj[0] == '{';
    assert Seqs.IndexOf(obj, '{') == 0;
    assert Seqs.LastIndexOf(obj, '}') == |obj| - 1;
    assert obj[0..|obj|] == obj;
  }

  /** A line without newline, then a newline, splits into the line and an empty rest. */
  lemma NewlineAtEnd(obj: string)
    requires '\n' !in obj
    ensures Seqs.Split(obj + "\n", "\n") == [obj, []]
  {
    var b := obj + "\n";
    assert Seqs.OccursAt(b, "\n", |obj|);
    forall j | 0 <= j < |obj| ensures !Seqs.OccursAt(b, "\n", j) {
      assert b[j] == obj[j];
    }
    Seqs.FindFirst(b, "\n", |obj|);
    assert b[|obj| + 1..] == [];
    assert !Seqs.Contains([], "\n");
  }
}
