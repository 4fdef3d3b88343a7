/** The chunked transfer coding of section 7.1 of RFC 9112 as
    `HTTPStream.extract_chunked_data` in `mcphawk/tcp_reassembly.py` decodes
    it: the code as written, a corrected decoder, and what each does on
    well-formed and on partial input.

    Bytes are modelled as characters: every `decode('utf-8', errors='ignore')`
    of the source is the identity here. */
module Chunked {
  import opened Wrappers
  import Seqs
  import PyInt

  const Crlf: string := "\r\n"

  // ---------------------------------------------------------------------
  // Chunked transfer coding

  /** What one pass of the chunk loop finds at the front of the buffer. */
  datatype ChunkStep =
    | NoLine                            // no CRLF yet: wait for more data
    | BadSize                           // the size line is not a usable number
    | LastChunk(rest: string)           // size 0: what is left after `0\r\n\r\n`
    | Short                             // the chunk has not fully arrived
    | Chunk(data: string, rest: string) // one chunk's data and what follows it

  /** How a size line is read; `None` stands for the `ValueError` that ends
      the loop. The reassembler reads it with `HexSize`; the loop is stated for
      any reader so that its proofs need only the facts they use about it. */
  type SizeReader = string -> Option<int>

  /** `int(line.strip(), 16)`. */
  function HexSize(line: string): Option<int> {
    PyInt.ParseInt(Seqs.Strip(line), 16)
  }

  /** `HexSize` reads back what a sender writes as a chunk size. */
  lemma HexSizeReadsHex(n: nat)
    ensures HexSize(PyInt.ToHex(n)) == Some(n)
  {
    PyInt.ParseIntIgnoresPadding(PyInt.ToHex(n), 16);
    PyInt.ParseIntToHex(n);
  }

  /** The size line: the text before the first CRLF, as read by `readSize`. */
  function ChunkSize(buf: string, readSize: SizeReader): Option<int>
    requires Seqs.Contains(buf, Crlf)
  {
    readSize(buf[..Seqs.Find(buf, Crlf)])
  }

  /** One pass of the loop of `extract_chunked_data` as written, with Python's
      slicing rules (negative bounds count from the end). A negative size is
      not rejected. */
  function ReadChunkAsWritten(buf: string, readSize: SizeReader): (r: ChunkStep)
    ensures r.NoLine? <==> !Seqs.Contains(buf, Crlf)
    ensures r.BadSize? <==> Seqs.Contains(buf, Crlf) && ChunkSize(buf, readSize).None?
    ensures r.LastChunk? <==> Seqs.Contains(buf, Crlf) && ChunkSize(buf, readSize) == Some(0)
    ensures r.Chunk? ==> Seqs.EndsWith(buf, r.rest)
  {
    if !Seqs.Contains(buf, Crlf) then NoLine
    else SizedChunkAsWritten(buf, Seqs.Find(buf, Crlf), ChunkSize(buf, readSize))
  }

  /** The pass once the size line, ending at `sizeEnd`, has been read as `size`. */
  function SizedChunkAsWritten(buf: string, sizeEnd: nat, size: Option<int>): (r: ChunkStep)
    ensures r.BadSize? <==> size.None?
    ensures r.LastChunk? <==> size == Some(0)
    ensures !r.NoLine?
    ensures r.Chunk? ==> Seqs.EndsWith(buf, r.rest)
  {
    match size
    case None => BadSize
    case Some(size) =>
      if size == 0 then LastChunk(Seqs.PyFrom(buf, sizeEnd + 4))
      else
        var start := sizeEnd + 2;
        var end := start + size + 2;
        if |buf| < end then Short
        else Chunk(Seqs.PySlice(buf, start, start + size), Seqs.PyFrom(buf, end))
  }

  /** One pass of the chunk loop with a negative size treated like any other
      malformed size line. Every chunk it reads is non-empty and strictly
      shortens the buffer. */
  function ReadChunk(buf: string, readSize: SizeReader): (r: ChunkStep)
    ensures r.NoLine? <==> !Seqs.Contains(buf, Crlf)
    ensures r.BadSize? <==>
      Seqs.Contains(buf, Crlf) && (ChunkSize(buf, readSize).None? || ChunkSize(buf, readSize).value < 0)
    ensures r.LastChunk? ==> Seqs.EndsWith(buf, r.rest) && |r.rest| < |buf|
    ensures r.Chunk? ==>
      && Seqs.EndsWith(buf, r.rest)
      && 0 < |r.data| && |r.data| + |r.rest| < |buf|
      && Seqs.OccursAt(buf, r.data, Seqs.Find(buf, Crlf) + 2)
  {
    if !Seqs.Contains(buf, Crlf) then NoLine
    else SizedChunk(buf, Seqs.Find(buf, Crlf), ChunkSize(buf, readSize))
  }

  /** The corrected pass once the size line, ending at `sizeEnd`, has been read. */
  function SizedChunk(buf: string, sizeEnd: nat, size: Option<int>): (r: ChunkStep)
    requires sizeEnd + 2 <= |buf|
    ensures r.BadSize? <==> size.None? || size.value < 0
    ensures r.LastChunk? <==> size == Some(0)
    ensures !r.NoLine?
    ensures r.LastChunk? ==> Seqs.EndsWith(buf, r.rest) && |r.rest| < |buf|
    ensures r.Chunk? ==>
      && Seqs.EndsWith(buf, r.rest)
      && 0 < |r.data| && |r.data| + |r.rest| < |buf|
      && Seqs.OccursAt(buf, r.data, sizeEnd + 2)
  {
    match size
    case None => BadSize
    case Some(size) =>
      if size < 0 then BadSize
      else if size == 0 then LastChunk(Seqs.Drop(buf, sizeEnd + 4))
      else
        var start := sizeEnd + 2;
        var end := start + size + 2;
        if |buf| < end then Short
        else Chunk(buf[start..start + size], buf[end..])
  }

  /** The two readers differ only on a negative size, which the corrected one
      rejects. */
  lemma ReadChunkAgrees(buf: string, readSize: SizeReader)
    ensures ReadChunk(buf, readSize) == ReadChunkAsWritten(buf, readSize)
         || (ReadChunk(buf, readSize) == BadSize && ChunkSize(buf, readSize).value < 0)
  {
    if Seqs.Contains(buf, Crlf) {
      SizedChunkAgrees(buf, Seqs.Find(buf, Crlf), ChunkSize(buf, readSize));
    }
  }

  lemma SizedChunkAgrees(buf: string, sizeEnd: nat, size: Option<int>)
    requires sizeEnd + 2 <= |buf|
    ensures SizedChunk(buf, sizeEnd, size) == SizedChunkAsWritten(buf, sizeEnd, size)
         || (SizedChunk(buf, sizeEnd, size) == BadSize && size.value < 0)
  {
  }

  /** The result of `extract_chunked_data`: the data (`None` when no chunk data
      was collected) and the buffer it leaves behind. */
  datatype ChunkResult = ChunkResult(data: Option<string>, buffer: string)

  /** `return complete_data if complete_data else None`. */
  function Finish(acc: string, buffer: string): (r: ChunkResult)
    ensures r.data.None? <==> |acc| == 0
    ensures r.data.Some? ==> r.data.value == acc
    ensures r.buffer == buffer
  {
    ChunkResult(if |acc| > 0 then Some(acc) else None, buffer)
  }

  /** The loop of `extract_chunked_data` as written; `None` means the call
      never returns. Every pass takes a suffix of the buffer; a pass that takes
      the whole buffer again (possible only with a negative size) hands the
      next pass the same buffer, so every later pass does the same and the
      loop never ends, while the collected data keeps growing. An
      incomplete chunk puts back the buffer the call started with, even when
      chunks before it were already collected and are returned. */
  function ChunkLoopAsWritten(buf: string, original: string, acc: string,
                              readSize: SizeReader): Option<ChunkResult>
    decreases |buf|
  {
    match ReadChunkAsWritten(buf, readSize)
    case NoLine => Some(Finish(acc, buf))
    case BadSize => Some(Finish(acc, buf))
    case LastChunk(rest) => Some(Finish(acc, rest))
    case Short => Some(Finish(acc, original))
    case Chunk(data, rest) =>
      if |rest| == |buf| then None
      else ChunkLoopAsWritten(rest, original, acc + data, readSize)
  }

  /** `extract_chunked_data` as written. */
  function ExtractChunkedDataAsWritten(buf: string, readSize: SizeReader): Option<ChunkResult> {
    ChunkLoopAsWritten(buf, buf, "", readSize)
  }

  /** What the corrected chunk loop collects from a buffer, and the buffer it
      leaves behind. */
  datatype Decoded = Decoded(collected: string, buffer: string)

  /** The chunk loop with an incomplete chunk keeping the buffer after the
      chunks already collected. It always ends: each pass shortens the buffer,
      and what it collects is never more than what it removes. */
  function ChunkLoop(buf: string, readSize: SizeReader): (r: Decoded)
    ensures Seqs.EndsWith(buf, r.buffer)
    ensures |r.collected| + |r.buffer| <= |buf|
    ensures |r.collected| > 0 ==> |r.collected| + |r.buffer| < |buf|
    decreases |buf|
  {
    match ReadChunk(buf, readSize)
    case NoLine => Decoded([], buf)
    case BadSize => Decoded([], buf)
    case LastChunk(rest) => Decoded([], rest)
    case Short => Decoded([], buf)
    case Chunk(data, rest) =>
      var r := ChunkLoop(rest, readSize);
      Decoded(data + r.collected, r.buffer)
  }

  /** `extract_chunked_data`, corrected. Collected data always comes with
      progress: it and the buffer left behind are shorter than the buffer given. */
  function ExtractChunkedData(buf: string, readSize: SizeReader): (r: ChunkResult)
    ensures Seqs.EndsWith(buf, r.buffer)
    ensures r.data.Some? ==> |r.data.value| > 0 && |r.data.value| + |r.buffer| < |buf|
  {
    var d := ChunkLoop(buf, readSize);
    Finish(d.collected, d.buffer)
  }

  /** A chunk as a sender writes it: hexadecimal size, CRLF, data, CRLF. */
  function EncodeChunk(c: string): string {
    PyInt.ToHex(|c|) + Crlf + c + Crlf
  }

  function EncodeChunks(cs: seq<string>): string {
    if |cs| == 0 then [] else EncodeChunk(cs[0]) + EncodeChunks(cs[1..])
  }

  /** The last chunk with no trailer fields. */
  const LastChunkLine: string := "0\r\n\r\n"

  /** A size reader that reads back every size a sender writes. */
  ghost predicate ReadsHex(readSize: SizeReader) {
    forall n: nat {:trigger readSize(PyInt.ToHex(n))} :: readSize(PyInt.ToHex(n)) == Some(n)
  }

  /** The first CRLF of an encoded chunk ends its size line, which reads back
      as the chunk's length. */
  lemma EncodedChunkSize(c: string, tail: string, readSize: SizeReader)
    requires ReadsHex(readSize)
    ensures var buf := EncodeChunk(c) + tail;
            && Seqs.Contains(buf, Crlf)
            && Seqs.Find(buf, Crlf) == |PyInt.ToHex(|c|)|
            && ChunkSize(buf, readSize) == Some(|c|)
  {
    var h := PyInt.ToHex(|c|);
    var buf := EncodeChunk(c) + tail;
    assert buf[|h|..|h| + 2] == Crlf;
    forall j | 0 <= j < |h| ensures !Seqs.OccursAt(buf, Crlf, j) {
      assert buf[j] == h[j];
      assert PyInt.IsDigit(h[j], 16);
      if j + 2 <= |buf| {
        assert buf[j..j + 2][0] == buf[j];
      }
    }
    Seqs.FindFirst(buf, Crlf, |h|);
    assert buf[..|h|] == h;
  }

  /** Both readers take exactly one encoded non-empty chunk off the front. */
  lemma ReadEncodedChunk(c: string, tail: string, readSize: SizeReader)
    requires ReadsHex(readSize)
    requires |c| > 0
    ensures ReadChunk(EncodeChunk(c) + tail, readSize) == Chunk(c, tail)
    ensures ReadChunkAsWritten(EncodeChunk(c) + tail, readSize) == Chunk(c, tail)
  {
    var k := |PyInt.ToHex(|c|)|;
    var buf := EncodeChunk(c) + tail;
    assert Seqs.Contains(buf, Crlf) && Seqs.Find(buf, Crlf) == k && ChunkSize(buf, readSize) == Some(|c|) by {
      EncodedChunkSize(c, tail, readSize);
    }
    assert SizedChunk(buf, k, Some(|c|)) == Chunk(c, tail) by {
      EncodedChunkSlices(c, tail);
    }
    assert SizedChunkAsWritten(buf, k, Some(|c|)) == Chunk(c, tail) by {
      EncodedChunkSlices(c, tail);
    }
  }

  /** Where the data and what follows it sit in an encoded chunk. */
  lemma EncodedChunkSlices(c: string, tail: string)
    ensures var k := |PyInt.ToHex(|c|)|;
            var buf := EncodeChunk(c) + tail;
            && |buf| == k + 2 + |c| + 2 + |tail|
            && buf[k + 2..k + 2 + |c|] == c
            && buf[k + 2 + |c| + 2..] == tail
  {
  }

  /** The last chunk is recognised and removed with its blank line. */
  lemma ReadLastChunk(rest: string, readSize: SizeReader)
    requires ReadsHex(readSize)
    ensures ReadChunk(LastChunkLine + rest, readSize) == LastChunk(rest)
    ensures ReadChunkAsWritten(LastChunkLine + rest, readSize) == LastChunk(rest)
  {
    var buf := LastChunkLine + rest;
    assert buf[1..3] == Crlf;
    assert !Seqs.OccursAt(buf, Crlf, 0) by {
      assert buf[0..2][0] == '0';
    }
    Seqs.FindFirst(buf, Crlf, 1);
    assert buf[..1] == PyInt.ToHex(0);
    assert buf[5..] == rest;
  }

  /** Encoded chunks in front of `tail` are collected in order, and the loop
      goes on with `tail`. */
  lemma {:induction false} ChunkLoopEncoded(cs: seq<string>, tail: string, readSize: SizeReader)
    requires ReadsHex(readSize)
    requires forall i :: 0 <= i < |cs| ==> |cs[i]| > 0
    ensures ChunkLoop(EncodeChunks(cs) + tail, readSize)
         == Decoded(Seqs.Concat(cs) + ChunkLoop(tail, readSize).collected, ChunkLoop(tail, readSize).buffer)
    decreases |cs|
  {
    var last := ChunkLoop(tail, readSize);
    if |cs| > 0 {
      var more := EncodeChunks(cs[1..]) + tail;
      assert EncodeChunks(cs) + tail == EncodeChunk(cs[0]) + more by {
        EncodedParts(cs, tail, "");
      }
      var r := ChunkLoop(more, readSize);
      assert r == Decoded(Seqs.Concat(cs[1..]) + last.collected, last.buffer) by {
        ChunkLoopEncoded(cs[1..], tail, readSize);
      }
      assert ChunkLoop(EncodeChunk(cs[0]) + more, readSize) == Decoded(cs[0] + r.collected, r.buffer) by {
        ReadEncodedChunk(cs[0], more, readSize);
      }
      ConcatAssoc(cs, last.collected);
    } else {
      EncodedParts(cs, tail, "");
    }
  }

  /** How encoded chunks and their data split into the first chunk and the
      rest. */
  lemma EncodedParts(cs: seq<string>, tail: string, acc: string)
    ensures |cs| == 0 ==> EncodeChunks(cs) + tail == tail && Seqs.Concat(cs) == []
    ensures |cs| > 0 ==>
      && EncodeChunks(cs) + tail == EncodeChunk(cs[0]) + (EncodeChunks(cs[1..]) + tail)
      && acc + cs[0] + Seqs.Concat(cs[1..]) == acc + Seqs.Concat(cs)
  {
    if |cs| > 0 {
      Seqs.AppendAssoc(EncodeChunk(cs[0]), EncodeChunks(cs[1..]), tail);
      Seqs.AppendAssoc(acc, cs[0], Seqs.Concat(cs[1..]));
    }
  }

  lemma ConcatAssoc(cs: seq<string>, t: string)
    requires |cs| > 0
    ensures cs[0] + (Seqs.Concat(cs[1..]) + t) == Seqs.Concat(cs) + t
  {
    Seqs.AppendAssoc(cs[0], Seqs.Concat(cs[1..]), t);
  }

  /** The same for the loop as written. */
  lemma {:induction false} ChunkLoopAsWrittenEncoded(cs: seq<string>, tail: string, original: string,
                                                      acc: string, readSize: SizeReader)
    requires ReadsHex(readSize)
    requires forall i :: 0 <= i < |cs| ==> |cs[i]| > 0
    ensures ChunkLoopAsWritten(EncodeChunks(cs) + tail, original, acc, readSize)
         == ChunkLoopAsWritten(tail, original, acc + Seqs.Concat(cs), readSize)
    decreases |cs|
  {
    EncodedParts(cs, tail, acc);
    if |cs| > 0 {
      var more := EncodeChunks(cs[1..]) + tail;
      ReadEncodedChunk(cs[0], more, readSize);
      assert |EncodeChunk(cs[0]) + more| > |more|;
      ChunkLoopAsWrittenEncoded(cs[1..], tail, original, acc + cs[0], readSize);
    } else {
      assert acc + Seqs.Concat(cs) == acc;
    }
  }

  /** A complete chunked body, `hex CRLF data CRLF ... 0 CRLF CRLF`, decodes
      to the chunks' data joined in order, and the buffer keeps what follows it.
      Both the loop as written and the corrected loop do this. */
  lemma ChunkedRoundTrip(cs: seq<string>, rest: string, readSize: SizeReader)
    requires ReadsHex(readSize)
    requires forall i :: 0 <= i < |cs| ==> |cs[i]| > 0
    ensures ExtractChunkedData(EncodeChunks(cs) + LastChunkLine + rest, readSize)
         == Finish(Seqs.Concat(cs), rest)
    ensures ExtractChunkedDataAsWritten(EncodeChunks(cs) + LastChunkLine + rest, readSize)
         == Some(Finish(Seqs.Concat(cs), rest))
  {
    var buf := EncodeChunks(cs) + LastChunkLine + rest;
    assert buf == EncodeChunks(cs) + (LastChunkLine + rest);
    ReadLastChunk(rest, readSize);
    ChunkLoopEncoded(cs, LastChunkLine + rest, readSize);
    assert Seqs.Concat(cs) + [] == Seqs.Concat(cs);
    ChunkLoopAsWrittenEncoded(cs, LastChunkLine + rest, buf, "", readSize);
    assert "" + Seqs.Concat(cs) == Seqs.Concat(cs);
  }

  /** When the data after some complete chunks is not yet a whole chunk (no
      CRLF, or a chunk still arriving), the corrected loop returns the chunks
      and keeps the unfinished tail; the loop as written returns the chunks
      too, but puts back the whole buffer when the tail is an unfinished chunk.
      With no chunk before the tail, both return `None` and leave the buffer
      as it was. */
  lemma ChunkedStopsAtTail(cs: seq<string>, tail: string, readSize: SizeReader)
    requires ReadsHex(readSize)
    requires forall i :: 0 <= i < |cs| ==> |cs[i]| > 0
    requires ReadChunk(tail, readSize) == NoLine || ReadChunk(tail, readSize) == Short
    ensures ExtractChunkedData(EncodeChunks(cs) + tail, readSize) == Finish(Seqs.Concat(cs), tail)
    ensures ExtractChunkedDataAsWritten(EncodeChunks(cs) + tail, readSize)
         == Some(Finish(Seqs.Concat(cs),
                        if ReadChunk(tail, readSize) == Short then EncodeChunks(cs) + tail else tail))
  {
    ReadChunkAgrees(tail, readSize);
    ChunkLoopEncoded(cs, tail, readSize);
    assert Seqs.Concat(cs) + [] == Seqs.Concat(cs);
    ChunkLoopAsWrittenEncoded(cs, tail, EncodeChunks(cs) + tail, "", readSize);
    assert "" + Seqs.Concat(cs) == Seqs.Concat(cs);
  }

  /** `HexSize`, the reader the reassembler uses, reads back every size. */
  lemma HexSizeReadsEveryHex()
    ensures ReadsHex(HexSize)
  {
    forall n: nat ensures HexSize(PyInt.ToHex(n)) == Some(n) {
      HexSizeReadsHex(n);
    }
  }

  /** One complete chunk, then a chunk that has only begun to arrive:
      `1\r\na\r\n` followed by `5\r\nab`. */
  const PartlyArrived: string := "1\r\na\r\n5\r\nab"

  /** On `PartlyArrived` the loop as written returns the first chunk's data
      and also puts the whole buffer back, so the same data is returned again
      on the next call; the corrected loop keeps only the unfinished chunk. */
  lemma PartlyArrivedRedelivered()
    ensures ExtractChunkedDataAsWritten(PartlyArrived, HexSize)
         == Some(ChunkResult(Some("a"), PartlyArrived))
    ensures ExtractChunkedData(PartlyArrived, HexSize) == ChunkResult(Some("a"), "5\r\nab")
  {
    HexSizeReadsEveryHex();
    PartlyArrivedParts();
    ShortTail();
    ChunkedStopsAtTail(["a"], "5\r\nab", HexSize);
  }

  /** `PartlyArrived` is the chunk `a` encoded, then a partial chunk. */
  lemma PartlyArrivedParts()
    ensures EncodeChunks(["a"]) + "5\r\nab" == PartlyArrived
    ensures Seqs.Concat(["a"]) == "a"
  {
    assert PyInt.ToHex(1) == "1";
    assert EncodeChunks(["a"]) == EncodeChunk("a") + EncodeChunks([]);
    assert Seqs.Concat(["a"]) == "a" + Seqs.Concat([]);
  }

  /** A size line for five bytes of which two have arrived. */
  lemma ShortTail()
    ensures ReadChunk("5\r\nab", HexSize) == Short
  {
    var tail := "5\r\nab";
    assert tail[1..3] == Crlf;
    assert !Seqs.OccursAt(tail, Crlf, 0) by {
      assert tail[0..2][0] == '5';
    }
    Seqs.FindFirst(tail, Crlf, 1);
    assert tail[..1] == PyInt.ToHex(5);
    HexSizeReadsHex(5);
  }

  /** A size line holding a negative number. */
  const NegativeSizeLine: string := "-6\r\n"

  /** `int("-6", 16)` is -6: the size is accepted. */
  lemma NegativeSizeRead()
    ensures Seqs.Contains(NegativeSizeLine, Crlf)
    ensures Seqs.Find(NegativeSizeLine, Crlf) == 2
    ensures ChunkSize(NegativeSizeLine, HexSize) == Some(-6)
  {
    NegativeSizeLineEnd();
    assert NegativeSizeLine[..2] == "-6";
    assert HexSize("-6") == Some(-6) by {
      PyInt.ParseIntIgnoresPadding("-6", 16);
      PyInt.ParseIntMinusSix();
    }
  }

  /** The size line `-6` ends at its CRLF. */
  lemma NegativeSizeLineEnd()
    ensures Seqs.Contains(NegativeSizeLine, Crlf)
    ensures Seqs.Find(NegativeSizeLine, Crlf) == 2
  {
    var buf := NegativeSizeLine;
    assert buf[2..4] == Crlf;
    assert !Seqs.OccursAt(buf, Crlf, 0) by {
      assert buf[0..2][0] == '-';
    }
    assert !Seqs.OccursAt(buf, Crlf, 1) by {
      assert buf[1..3][0] == '6';
    }
    Seqs.FindFirst(buf, Crlf, 2);
  }

  /** With a negative size the pass as written takes nothing and leaves the
      whole buffer, so the loop as written never returns; the corrected loop
      stops at the malformed size line and leaves the buffer as it was. */
  lemma NegativeSizeNeverReturns()
    ensures ReadChunkAsWritten(NegativeSizeLine, HexSize) == Chunk([], NegativeSizeLine)
    ensures ExtractChunkedDataAsWritten(NegativeSizeLine, HexSize).None?
    ensures ExtractChunkedData(NegativeSizeLine, HexSize) == ChunkResult(None, NegativeSizeLine)
  {
    NegativeSizeRead();
    NegativeSizePass();
    assert ReadChunk(NegativeSizeLine, HexSize) == BadSize;
  }

  /** The pass as written after reading the size line `-6`. */
  lemma NegativeSizePass()
    ensures SizedChunkAsWritten(NegativeSizeLine, 2, Some(-6)) == Chunk([], NegativeSizeLine)
  {
    assert Seqs.PySlice(NegativeSizeLine, 4, -2) == [];
    assert Seqs.PyFrom(NegativeSizeLine, 0) == NegativeSizeLine;
  }
}
