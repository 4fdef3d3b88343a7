/** HTTP head text as `HTTPStream` in `mcphawk/tcp_reassembly.py` reads it:
    lines separated by CRLF, `name: value` fields whose names are
    lower-cased, the later of two equal names winning; and the text a peer
    writes for a head, against which the reading is checked. */
module HttpHeaders {
  import opened Wrappers
  import Seqs
  import opened Transport

  const Crlf: string := "\r\n"

  /** What separates a field name from its value. */
  const FieldSep: string := ": "

  /** The blank line that ends a head. */
  const HeadEnd: string := "\r\n\r\n"

  /** `key, value = line.split(': ', 1)` with the key lower-cased, for a line
      holding `': '`; any other line carries no field. */
  function HeaderField(line: string): (r: Option<(string, string)>)
    ensures r.Some? <==> Seqs.Contains(line, FieldSep)
    ensures r.Some? ==> |r.value.0| + |FieldSep| + |r.value.1| == |line| && Seqs.EndsWith(line, r.value.1)
  {
    if Seqs.Contains(line, FieldSep) then
      Some((Seqs.Lower(Seqs.Before(line, FieldSep)), Seqs.After(line, FieldSep)))
    else None
  }

  /** `acc` with the field of `line`, if it has one, set. */
  function AddField(acc: Headers, line: string): Headers {
    match HeaderField(line)
    case None => acc
    case Some((k, v)) => acc[k := v]
  }

  /** The response loop: every line's field set in turn on top of `acc`. */
  function FoldHeaders(lines: seq<string>, acc: Headers): Headers
    decreases |lines|
  {
    if |lines| == 0 then acc else FoldHeaders(lines[1..], AddField(acc, lines[0]))
  }

  /** Reference reading of a list of lines: the value of the last line whose
      field name is `k`, found without any accumulated map. */
  function LastField(lines: seq<string>, k: string): Option<string>
    decreases |lines|
  {
    if |lines| == 0 then None
    else
      var later := LastField(lines[1..], k);
      var here := HeaderField(lines[0]);
      if later.Some? then later
      else if here.Some? && here.value.0 == k then Some(here.value.1)
      else None
  }

  /** Reading the lines into a map agrees with the reference: a name is
      present when some line names it or it was there before, and its value
      is the last line's. */
  lemma {:induction false} FoldHeadersLookup(lines: seq<string>, acc: Headers, k: string)
    ensures k in FoldHeaders(lines, acc) <==> LastField(lines, k).Some? || k in acc
    ensures k in FoldHeaders(lines, acc) ==>
      FoldHeaders(lines, acc)[k] == if LastField(lines, k).Some? then LastField(lines, k).value else acc[k]
    decreases |lines|
  {
    if |lines| > 0 {
      FoldHeadersLookup(lines[1..], AddField(acc, lines[0]), k);
    }
  }

  /** Field names read from lines are lower case. */
  lemma {:induction false} LastFieldLower(lines: seq<string>, k: string)
    requires LastField(lines, k).Some?
    ensures Seqs.Lower(k) == k
    decreases |lines|
  {
    if LastField(lines[1..], k).Some? {
      LastFieldLower(lines[1..], k);
    } else {
      Seqs.LowerIdempotent(Seqs.Before(lines[0], FieldSep));
    }
  }

  /** Reading two runs of lines is reading their concatenation. */
  lemma {:induction false} FoldHeadersAppend(a: seq<string>, b: seq<string>, acc: Headers)
    ensures FoldHeaders(a + b, acc) == FoldHeaders(b, FoldHeaders(a, acc))
    decreases |a|
  {
    if |a| > 0 {
      assert (a + b)[1..] == a[1..] + b;
      FoldHeadersAppend(a[1..], b, AddField(acc, a[0]));
    } else {
      assert a + b == b;
    }
  }

  /** The request loop: like `FoldHeaders`, except that an empty line ends it. */
  function RequestFields(lines: seq<string>, acc: Headers): Headers
    decreases |lines|
  {
    if |lines| == 0 then acc
    else if HeaderField(lines[0]).Some? then RequestFields(lines[1..], AddField(acc, lines[0]))
    else if lines[0] == "" then acc
    else RequestFields(lines[1..], acc)
  }

  /** The lines before the first empty one. */
  function UntilBlank(lines: seq<string>): (r: seq<string>)
    ensures |r| <= |lines| && r == lines[..|r|]
    ensures "" !in r
    ensures |r| < |lines| ==> lines[|r|] == ""
    decreases |lines|
  {
    if |lines| == 0 || lines[0] == "" then [] else [lines[0]] + UntilBlank(lines[1..])
  }

  /** The request loop reads exactly the lines before the first empty one. */
  lemma {:induction false} RequestFieldsStopAtBlank(lines: seq<string>, acc: Headers)
    ensures RequestFields(lines, acc) == FoldHeaders(UntilBlank(lines), acc)
    decreases |lines|
  {
    if |lines| > 0 && lines[0] != "" {
      RequestFieldsStopAtBlank(lines[1..], AddField(acc, lines[0]));
      var u := UntilBlank(lines);
      assert u[0] == lines[0] && u[1..] == UntilBlank(lines[1..]);
    }
  }

  /** Lines with no empty one among them, then an empty line, are all read. */
  lemma {:induction false} UntilBlankStops(a: seq<string>, rest: seq<string>)
    requires "" !in a
    ensures UntilBlank(a + [""] + rest) == a
    decreases |a|
  {
    if |a| > 0 {
      assert (a + [""] + rest)[1..] == a[1..] + [""] + rest;
      UntilBlankStops(a[1..], rest);
      assert a == [a[0]] + a[1..];
    } else {
      assert (a + [""] + rest)[0] == "";
    }
  }

  // ---------------------------------------------------------------------
  // What a peer writes

  /** A field as a peer writes it. */
  function FieldLine(name: string, value: string): string {
    name + FieldSep + value
  }

  /** A written field is read back with its name lower-cased. */
  lemma HeaderFieldOfLine(name: string, value: string)
    requires ':' !in name
    ensures HeaderField(FieldLine(name, value)) == Some((Seqs.Lower(name), value))
  {
    Seqs.FindAfter(name, FieldSep, value);
    var s := FieldLine(name, value);
    assert s[..|name|] == name;
    assert s[|name| + |FieldSep|..] == value;
  }

  /** A name and a value, in the order a peer writes them. */
  type Field = (string, string)

  /** A field a peer can write: the name holds no `:` and neither part a CR. */
  predicate WritableField(f: Field) {
    ':' !in f.0 && '\r' !in f.0 && '\r' !in f.1
  }

  function FieldLines(fields: seq<Field>): (r: seq<string>)
    ensures |r| == |fields|
    ensures forall i :: 0 <= i < |fields| ==> r[i] == FieldLine(fields[i].0, fields[i].1)
  {
    seq(|fields|, i requires 0 <= i < |fields| => FieldLine(fields[i].0, fields[i].1))
  }

  /** Reference meaning of a written list of fields: the value of the last
      field whose name is `k` ignoring case. */
  function LastNamed(fields: seq<Field>, k: string): Option<string>
    decreases |fields|
  {
    if |fields| == 0 then None
    else
      var later := LastNamed(fields[1..], k);
      if later.Some? then later
      else if Seqs.Lower(fields[0].0) == k then Some(fields[0].1)
      else None
  }

  /** Reading written fields gives the reference meaning. */
  lemma {:induction false} LastFieldOfFields(fields: seq<Field>, k: string)
    requires forall f :: f in fields ==> ':' !in f.0
    ensures LastField(FieldLines(fields), k) == LastNamed(fields, k)
    decreases |fields|
  {
    if |fields| > 0 {
      HeaderFieldOfLine(fields[0].0, fields[0].1);
      assert FieldLines(fields)[1..] == FieldLines(fields[1..]);
      assert fields[0] in fields;
      LastFieldOfFields(fields[1..], k);
    }
  }

  /** A head as a peer writes it: each line followed by CRLF. */
  function CrlfLines(ls: seq<string>): (r: string)
    ensures |ls| > 0 ==> |r| >= 2
    decreases |ls|
  {
    if |ls| == 0 then [] else ls[0] + Crlf + CrlfLines(ls[1..])
  }

  /** Splitting written lines at CRLF gives the lines back. */
  lemma {:induction false} SplitCrlfLines(ls: seq<string>, rest: string)
    requires forall l :: l in ls ==> '\r' !in l
    ensures Seqs.Split(CrlfLines(ls) + rest, Crlf) == ls + Seqs.Split(rest, Crlf)
    decreases |ls|
  {
    if |ls| > 0 {
      var tail := CrlfLines(ls[1..]) + rest;
      assert ls[0] in ls;
      SplitCrlfLines(ls[1..], rest);
      calc {
        Seqs.Split(CrlfLines(ls) + rest, Crlf);
        { CrlfLinesCons(ls, rest); }
        Seqs.Split(ls[0] + Crlf + tail, Crlf);
        { Seqs.SplitCons(ls[0], Crlf, tail); }
        [ls[0]] + Seqs.Split(tail, Crlf);
        [ls[0]] + (ls[1..] + Seqs.Split(rest, Crlf));
        { LinesCons(ls, Seqs.Split(rest, Crlf)); }
        ls + Seqs.Split(rest, Crlf);
      }
    } else {
      assert CrlfLines(ls) + rest == rest;
    }
  }

  lemma CrlfLinesCons(ls: seq<string>, rest: string)
    requires |ls| > 0
    ensures CrlfLines(ls) + rest == ls[0] + Crlf + (CrlfLines(ls[1..]) + rest)
  {
    Seqs.AppendAssoc(ls[0] + Crlf, CrlfLines(ls[1..]), rest);
  }

  lemma LinesCons(ls: seq<string>, more: seq<string>)
    requires |ls| > 0
    ensures [ls[0]] + (ls[1..] + more) == ls + more
  {
    Seqs.AppendAssoc([ls[0]], ls[1..], more);
    assert [ls[0]] + ls[1..] == ls;
  }

  /** After written lines that are non-empty and hold no CR, the first blank
      line is the one the writer put after them. */
  lemma {:induction false} HeadEndAfterLines(ls: seq<string>, body: string)
    requires |ls| > 0
    requires forall l :: l in ls ==> |l| > 0 && '\r' !in l
    ensures Seqs.Find(CrlfLines(ls) + Crlf + body, HeadEnd) == |CrlfLines(ls)| - 2
    decreases |ls|
  {
    var l := ls[0];
    assert l in ls;
    if |ls| == 1 {
      HeadEndLast(ls, body);
      Seqs.FindAfter(l, HeadEnd, body);
    } else {
      var t := CrlfLines(ls[1..]) + Crlf + body;
      assert ls[1] in ls;
      HeadEndAfterLines(ls[1..], body);
      HeadEndNext(ls, body);
      HeadEndShift(l, t, |CrlfLines(ls[1..])| - 2);
    }
  }

  lemma HeadEndLast(ls: seq<string>, body: string)
    requires |ls| == 1
    ensures CrlfLines(ls) + Crlf + body == ls[0] + HeadEnd + body
  {
    assert CrlfLines(ls) == ls[0] + Crlf;
  }

  lemma HeadEndNext(ls: seq<string>, body: string)
    requires |ls| > 1 && |ls[1]| > 0
    ensures var t := CrlfLines(ls[1..]) + Crlf + body;
            && CrlfLines(ls) + Crlf + body == ls[0] + Crlf + t
            && t[0] == ls[1][0]
  {
    var t := CrlfLines(ls[1..]) + Crlf + body;
    assert CrlfLines(ls) + Crlf + body == ls[0] + Crlf + t;
    assert ls[1..][0] == ls[1];
  }

  /** One step of `HeadEndAfterLines`: the first blank line of `t` stays the
      first one behind a non-empty line without CR. */
  lemma HeadEndShift(l: string, t: string, q: int)
    requires |l| > 0 && '\r' !in l && |t| > 0 && t[0] != '\r'
    requires Seqs.Find(t, HeadEnd) == q && q >= 0
    ensures Seqs.Find(l + Crlf + t, HeadEnd) == |l| + 2 + q
  {
    var a := l + Crlf;
    var s := a + t;
    Seqs.OccursShift(a, t, HeadEnd, |a| + q);
    forall j | 0 <= j < |a| + q
      ensures !Seqs.OccursAt(s, HeadEnd, j)
    {
      if j >= |a| {
        Seqs.OccursShift(a, t, HeadEnd, j);
      } else if j < |l| {
        assert s[j] == l[j];
      } else if j == |l| {
        assert s[j + 2] == t[0];
      } else {
        assert s[j] == '\n';
      }
    }
    Seqs.FindFirst(s, HeadEnd, |a| + q);
  }
}
