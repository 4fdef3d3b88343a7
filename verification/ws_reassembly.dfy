/** WebSocket frame decoding and per-connection reassembly (`mcphawk/ws_reassembly.py`).

    Base framing follows section 5.2 of RFC 6455 (FIN bit, opcode, mask bit,
    7-bit length with 16-bit and 64-bit big-endian extensions), masking follows
    section 5.3 (payload octet j is XORed with mask octet j mod 4), and
    fragments are joined as in section 5.4 (continuation frames up to FIN). */
module WsReassembly {
  import opened Wrappers
  import Seqs
  import opened Net

  type Byte = b: int | 0 <= b < 256
  type Bytes = seq<Byte>

  /** `bytes.decode("utf-8")`; `None` stands for a raised `UnicodeDecodeError`. */
  type Utf8Decoder = Bytes -> Option<string>

  const OpContinuation := 0x0
  const OpText := 0x1

  /** `int.from_bytes(bs, "big")`. */
  function BigEndian(bs: Bytes): nat {
    if |bs| == 0 then 0 else BigEndian(bs[..|bs| - 1]) * 256 + bs[|bs| - 1]
  }

  function Pow256(w: nat): nat {
    if w == 0 then 1 else 256 * Pow256(w - 1)
  }

  /** The `w`-byte big-endian encoding of `n` (the sender's side of `BigEndian`). */
  function ToBigEndian(n: nat, w: nat): (r: Bytes)
    ensures |r| == w
  {
    if w == 0 then [] else ToBigEndian(n / 256, w - 1) + [n % 256]
  }

  lemma {:induction false} BigEndianRoundTrip(n: nat, w: nat)
    requires n < Pow256(w)
    ensures BigEndian(ToBigEndian(n, w)) == n
  {
    if w > 0 {
      var hi := ToBigEndian(n / 256, w - 1);
      assert n / 256 < Pow256(w - 1);
      BigEndianRoundTrip(n / 256, w - 1);
      assert (hi + [n % 256])[..w - 1] == hi;
      assert BigEndian(hi + [n % 256]) == BigEndian(hi) * 256 + n % 256;
    }
  }

  /** Bitwise exclusive or of two naturals (Python's `^` on non-negative ints). */
  function Xor(a: nat, b: nat): nat
    decreases a + b
  {
    if a == 0 && b == 0 then 0 else (a + b) % 2 + 2 * Xor(a / 2, b / 2)
  }

  lemma XorStep(a: nat, b: nat)
    ensures Xor(a, b) == (a + b) % 2 + 2 * Xor(a / 2, b / 2)
  {
  }

  lemma HalveTwice(r: nat, q: nat)
    requires r < 2
    ensures (r + 2 * q) % 2 == r && (r + 2 * q) / 2 == q
  {
  }

  lemma ParityCancel(a: nat, b: nat, q: nat)
    ensures ((a + b) % 2 + 2 * q + b) % 2 == a % 2
  {
  }

  /** Exclusive or with the same key twice is the identity. */
  lemma {:induction false} XorTwice(a: nat, b: nat)
    ensures Xor(Xor(a, b), b) == a
    decreases a + b
  {
    if a != 0 || b != 0 {
      var q := Xor(a / 2, b / 2);
      var x := (a + b) % 2 + 2 * q;
      assert Xor(a, b) == x;
      XorTwice(a / 2, b / 2);
      HalveTwice((a + b) % 2, q);
      ParityCancel(a, b, q);
      XorStep(x, b);
      assert Xor(x, b) == a % 2 + 2 * (a / 2);
    }
  }

  function Pow2(k: nat): nat {
    if k == 0 then 1 else 2 * Pow2(k - 1)
  }

  lemma {:induction false} XorBound(a: nat, b: nat, k: nat)
    requires a < Pow2(k) && b < Pow2(k)
    ensures Xor(a, b) < Pow2(k)
    decreases k
  {
    if k > 0 && (a != 0 || b != 0) {
      XorBound(a / 2, b / 2, k - 1);
    }
  }

  function XorByte(a: Byte, b: Byte): (r: Byte)
    ensures Xor(r, b) == a
  {
    assert Pow2(8) == 256;
    XorBound(a, b, 8);
    XorTwice(a, b);
    Xor(a, b)
  }

  /** Section 5.3 of RFC 6455: octet `j` of the payload is XORed with octet `j mod 4` of the key. */
  function Unmask(payload: Bytes, mask: Bytes): (r: Bytes)
    requires |mask| == 4
    ensures |r| == |payload|
  {
    seq(|payload|, j requires 0 <= j < |payload| => XorByte(payload[j], mask[j % 4]))
  }

  /** Masking and unmasking are the same operation, so applying it twice with
      the same key gives the payload back. */
  lemma UnmaskInvolution(payload: Bytes, mask: Bytes)
    requires |mask| == 4
    ensures Unmask(Unmask(payload, mask), mask) == payload
  {
  }

  datatype Frame = Frame(fin: bool, opcode: int, payload: Bytes)

  /** The frame at the head of a buffer: complete, with the offset just past
      it, or incomplete (more bytes are needed). */
  datatype FrameAt<F> = Incomplete | Complete(frame: F, next: nat)

  /** A decoded frame header: the FIN flag, the opcode, whether a mask key
      follows, the payload length, and the offset of the mask key (or of the
      payload when unmasked) — 2, 4 or 10 depending on the length encoding. */
  datatype Header = Header(fin: bool, opcode: int, masked: bool, length: nat, keyAt: nat)
  {
    /** Offset just past the frame. */
    function End(): nat {
      keyAt + (if masked then 4 else 0) + length
    }
  }

  /** The header at the head of `data`, or `None` while the two base bytes or
      the extended length are still missing. */
  function ParseHeader(data: Bytes): (r: Option<Header>)
    ensures r.Some? ==> 2 <= r.value.keyAt <= |data|
  {
    if |data| < 2 then None
    else
      var len7 := data[1] % 128;
      if len7 == 126 && 4 > |data| then None
      else if len7 == 127 && 10 > |data| then None
      else
        var length: nat := if len7 == 126 then BigEndian(data[2..4])
                           else if len7 == 127 then BigEndian(data[2..10])
                           else len7;
        var keyAt := if len7 == 126 then 4 else if len7 == 127 then 10 else 2;
        Some(Header(data[0] >= 128, data[0] % 16, data[1] >= 128, length, keyAt))
  }

  /** The payload carried by the bytes after the header: the mask key and the
      masked payload when the MASK bit is set, the payload itself otherwise. */
  function FramePayload(masked: bool, body: Bytes): (r: Bytes)
    requires masked ==> |body| >= 4
    ensures |r| == |body| - (if masked then 4 else 0)
  {
    if masked then Unmask(body[4..], body[..4]) else body
  }

  /** One iteration of the frame loop of `_parse_ws_frames`, at the head of `data`. */
  function ParseFrameAt(data: Bytes): (r: FrameAt<Frame>)
    ensures r.Complete? ==> 2 <= r.next <= |data|
  {
    match ParseHeader(data)
    case None => Incomplete
    case Some(h) =>
      if h.End() > |data| then Incomplete
      else Complete(Frame(h.fin, h.opcode, FramePayload(h.masked, data[h.keyAt..h.End()])), h.End())
  }

  /** A message part produced by a text or continuation frame. */
  datatype Part = Part(fin: bool, text: string)

  /** What one complete frame contributes: a part for a text (0x1) or
      continuation (0x0) frame whose payload decodes as UTF-8, nothing otherwise. */
  function FramePart(f: Frame, decode: Utf8Decoder): seq<Part> {
    if (f.opcode == OpText || f.opcode == OpContinuation) && decode(f.payload).Some?
    then [Part(f.fin, decode(f.payload).value)]
    else []
  }

  /** Reads one frame at the head of a buffer. */
  type FrameReader<!T, F> = seq<T> -> FrameAt<F>

  /** A reader whose verdict on a complete frame ignores the bytes after it. */
  ghost predicate PrefixStable<T(!new), F>(read: FrameReader<T, F>) {
    forall d: seq<T>, m: seq<T> {:trigger read(d + m)} :: read(d).Complete? ==> read(d + m) == read(d)
  }

  /** A reader's verdict on the head of `data` when it is a complete frame
      that fits in `data` and consumes at least one byte. */
  predicate ReadsFrame<T, F>(data: seq<T>, read: FrameReader<T, F>) {
    read(data).Complete? && 0 < read(data).next <= |data|
  }

  /** The frame loop of `_parse_ws_frames` over any reader: the number of
      bytes occupied by the complete frames at the head of `data`. (A reader
      that reports no progress ends the loop; `ParseFrameAt` always progresses.) */
  function Consumed<T, F>(data: seq<T>, read: FrameReader<T, F>): (c: nat)
    ensures c <= |data|
    decreases |data|
  {
    if |data| == 0 || !ReadsFrame(data, read) then 0
    else read(data).next + Consumed(data[read(data).next..], read)
  }

  /** The same loop: the complete frames at the head of `data`, in order. */
  function Frames<T, F>(data: seq<T>, read: FrameReader<T, F>): seq<F>
    decreases |data|
  {
    if |data| == 0 || !ReadsFrame(data, read) then []
    else [read(data).frame] + Frames(data[read(data).next..], read)
  }

  /** `data[..k]` is a run of complete frames: `k` lies on a frame boundary. */
  ghost predicate OnFrameBoundary<T, F>(data: seq<T>, k: nat, read: FrameReader<T, F>)
    decreases |data|
  {
    k == 0 ||
    (ReadsFrame(data, read) && read(data).next <= k &&
     OnFrameBoundary(data[read(data).next..], k - read(data).next, read))
  }

  /** The consumed count lies on a frame boundary, and what follows it is
      empty or an incomplete frame: the loop stops only for want of bytes. */
  lemma {:induction false} ConsumedStopsAtBoundary<T, F>(data: seq<T>, read: FrameReader<T, F>)
    ensures var c := Consumed(data, read);
            OnFrameBoundary(data, c, read) && (c == |data| || !ReadsFrame(data[c..], read))
    decreases |data|
  {
    if |data| > 0 && ReadsFrame(data, read) {
      var n := read(data).next;
      ConsumedStopsAtBoundary(data[n..], read);
      var c := Consumed(data[n..], read);
      assert data[n..][c..] == data[n + c..];
    } else {
      assert data[0..] == data;
    }
  }

  lemma DropAppend<T>(data: seq<T>, more: seq<T>, n: nat)
    requires n <= |data|
    ensures (data + more)[n..] == data[n..] + more
  {
    assert |(data + more)[n..]| == |data[n..] + more|;
    forall i | 0 <= i < |data[n..] + more|
      ensures (data + more)[n..][i] == (data[n..] + more)[i]
    {
      if n + i < |data| { assert (data + more)[n + i] == data[n + i]; }
    }
  }

  /** Reading is incremental: reading `data + more` yields the frames of `data`
      followed by the frames of its unconsumed tail extended with `more`. So a
      connection buffer that keeps only the unconsumed bytes loses and repeats nothing. */
  lemma {:induction false} ReadFramesAppend<T(!new), F>(data: seq<T>, more: seq<T>, read: FrameReader<T, F>)
    requires PrefixStable(read)
    ensures var c := Consumed(data, read);
            var tail := data[c..] + more;
            && Consumed(data + more, read) == c + Consumed(tail, read)
            && Frames(data + more, read) == Frames(data, read) + Frames(tail, read)
    decreases |data|
  {
    if |data| > 0 && ReadsFrame(data, read) {
      var n := read(data).next;
      assert read(data + more) == read(data);
      ReadFramesAppend(data[n..], more, read);
      ConsumedAppendStep(data, more, read);
      FramesAppendStep(data, more, read);
    } else {
      ReadFramesAppendIncomplete(data, more, read);
    }
  }

  /** The step of `ReadFramesAppend` for the consumed count, for a buffer that
      starts with a complete frame that reads the same with `more` appended. */
  lemma ConsumedAppendStep<T, F>(data: seq<T>, more: seq<T>, read: FrameReader<T, F>)
    requires |data| > 0 && ReadsFrame(data, read)
    requires read(data + more) == read(data)
    requires var rest := data[read(data).next..];
             var c := Consumed(rest, read);
             Consumed(rest + more, read) == c + Consumed(rest[c..] + more, read)
    ensures var c := Consumed(data, read);
            Consumed(data + more, read) == c + Consumed(data[c..] + more, read)
  {
    var n := read(data).next;
    DropAppend(data, more, n);
    assert data[n..][Consumed(data[n..], read)..] == data[n + Consumed(data[n..], read)..];
  }

  /** The same step for the frames read. */
  lemma FramesAppendStep<T, F>(data: seq<T>, more: seq<T>, read: FrameReader<T, F>)
    requires |data| > 0 && ReadsFrame(data, read)
    requires read(data + more) == read(data)
    requires var rest := data[read(data).next..];
             var c := Consumed(rest, read);
             Frames(rest + more, read) == Frames(rest, read) + Frames(rest[c..] + more, read)
    ensures Frames(data + more, read) == Frames(data, read) + Frames(data[Consumed(data, read)..] + more, read)
  {
    var n := read(data).next;
    DropAppend(data, more, n);
    var c := Consumed(data[n..], read);
    assert data[n..][c..] == data[n + c..];
    var f := read(data).frame;
    var t := Frames(data[n..], read);
    var r2 := Frames(data[n + c..] + more, read);
    assert [f] + (t + r2) == ([f] + t) + r2;
  }

  lemma ReadFramesAppendIncomplete<T, F>(data: seq<T>, more: seq<T>, read: FrameReader<T, F>)
    requires |data| == 0 || !ReadsFrame(data, read)
    ensures var c := Consumed(data, read);
            var tail := data[c..] + more;
            && Consumed(data + more, read) == c + Consumed(tail, read)
            && Frames(data + more, read) == Frames(data, read) + Frames(tail, read)
  {
    assert data[0..] == data;
    assert [] + Frames(data + more, read) == Frames(data + more, read);
  }

  /** A header, once complete, is unchanged by bytes appended after it. */
  lemma ParseHeaderExtend(data: Bytes, more: Bytes)
    requires ParseHeader(data).Some?
    ensures ParseHeader(data + more) == ParseHeader(data)
  {
    var d := data + more;
    assert d[0] == data[0] && d[1] == data[1];
    if data[1] % 128 == 126 {
      assert d[2..4] == data[2..4];
    } else if data[1] % 128 == 127 {
      assert d[2..10] == data[2..10];
    }
  }

  /** A complete frame stays complete, and identical, when more bytes follow it. */
  lemma ParseFrameAtExtend(data: Bytes, more: Bytes)
    requires ParseFrameAt(data).Complete?
    ensures ParseFrameAt(data + more) == ParseFrameAt(data)
  {
    var h := ParseHeader(data).value;
    ParseHeaderExtend(data, more);
    var d := data + more;
    assert d[..|data|] == data;
    assert d[h.keyAt..h.End()] == d[..|data|][h.keyAt..h.End()];
  }

  /** The RFC 6455 reader looks only at the bytes of the frame it reads. */
  lemma ParseFrameAtPrefixStable()
    ensures PrefixStable(ParseFrameAt)
  {
    forall d: Bytes, m: Bytes | ParseFrameAt(d).Complete?
      ensures ParseFrameAt(d + m) == ParseFrameAt(d)
    {
      ParseFrameAtExtend(d, m);
    }
  }

  /** The parts of a run of frames, in order. */
  function Parts(frames: seq<Frame>, decode: Utf8Decoder): (r: seq<Part>)
    ensures |r| <= |frames|
  {
    if |frames| == 0 then [] else FramePart(frames[0], decode) + Parts(frames[1..], decode)
  }

  lemma {:induction false} PartsAppend(a: seq<Frame>, b: seq<Frame>, decode: Utf8Decoder)
    ensures Parts(a + b, decode) == Parts(a, decode) + Parts(b, decode)
    decreases |a|
  {
    if |a| > 0 {
      assert (a + b)[1..] == a[1..] + b;
      PartsAppend(a[1..], b, decode);
    } else {
      assert a + b == b;
    }
  }

  /** `_parse_ws_frames`: the message parts of all complete frames in the
      buffer, and the number of bytes they occupy. */
  function ParseWsFrames(data: Bytes, decode: Utf8Decoder): (r: (seq<Part>, nat))
    ensures r.1 <= |data|
  {
    (Parts(Frames(data, ParseFrameAt), decode), Consumed(data, ParseFrameAt))
  }

  /** The bytes consumed end on a frame boundary, and what follows them is
      empty or an incomplete frame: parsing stops only for want of bytes. */
  lemma ParseWsFramesStopsAtBoundary(data: Bytes, decode: Utf8Decoder)
    ensures var c := ParseWsFrames(data, decode).1;
            OnFrameBoundary(data, c, ParseFrameAt) && (c == |data| || ParseFrameAt(data[c..]).Incomplete?)
  {
    ConsumedStopsAtBoundary(data, ParseFrameAt);
  }

  /** Parsing is incremental (see `ReadFramesAppend`). */
  lemma ParseWsFramesAppend(data: Bytes, more: Bytes, decode: Utf8Decoder)
    ensures var r := ParseWsFrames(data, decode);
            var r2 := ParseWsFrames(data[r.1..] + more, decode);
            ParseWsFrames(data + more, decode) == (r.0 + r2.0, r.1 + r2.1)
  {
    var c := Consumed(data, ParseFrameAt);
    var tail := data[c..] + more;
    assert && Consumed(data + more, ParseFrameAt) == c + Consumed(tail, ParseFrameAt)
           && Frames(data + more, ParseFrameAt) == Frames(data, ParseFrameAt) + Frames(tail, ParseFrameAt) by {
      ParseFrameAtPrefixStable();
      ReadFramesAppend(data, more, ParseFrameAt);
    }
    PartsAppend(Frames(data, ParseFrameAt), Frames(tail, ParseFrameAt), decode);
  }

  /** A header byte: a flag in the top bit and a 7-bit field below it (the
      FIN bit over the opcode, or the MASK bit over the 7-bit length). */
  function HeaderByte(flag: bool, low: nat): (b: Byte)
    requires low < 128
    ensures (b >= 128) == flag
    ensures b % 128 == low
    ensures low < 16 ==> b % 16 == low
  {
    (if flag then 128 else 0) + low
  }

  /** The 7-bit length field and the extended length that follows it: the
      shortest of the three encodings of section 5.2 of RFC 6455. */
  function LengthField(n: nat): (r: (nat, Bytes))
    requires n < Pow256(8)
    ensures r.0 < 128
    ensures r.0 < 126 ==> r.0 == n && r.1 == []
    ensures r.0 == 126 ==> |r.1| == 2 && BigEndian(r.1) == n
    ensures r.0 == 127 ==> |r.1| == 8 && BigEndian(r.1) == n
  {
    if n < 126 then (n, [])
    else if n < 65536 then
      assert Pow256(2) == 65536;
      BigEndianRoundTrip(n, 2);
      (126, ToBigEndian(n, 2))
    else
      BigEndianRoundTrip(n, 8);
      (127, ToBigEndian(n, 8))
  }

  /** Frame construction on the sending side (what a client or server puts on
      the wire): header, length, then the optional mask key and the masked payload. */
  function EncodeFrame(fin: bool, opcode: nat, mask: Option<Bytes>, payload: Bytes): (r: Bytes)
    requires opcode < 16
    requires mask.Some? ==> |mask.value| == 4
    requires |payload| < Pow256(8)
  {
    var (len7, ext) := LengthField(|payload|);
    [HeaderByte(fin, opcode), HeaderByte(mask.Some?, len7)] + ext +
      (match mask
       case None => payload
       case Some(m) => m + Unmask(payload, m))
  }

  /** Decoding inverts encoding: the frame at the head of `EncodeFrame(...) + rest`
      is exactly the encoded frame, whatever bytes follow it. */
  lemma EncodeFrameRoundTrip(fin: bool, opcode: nat, mask: Option<Bytes>, payload: Bytes, rest: Bytes)
    requires opcode < 16
    requires mask.Some? ==> |mask.value| == 4
    requires |payload| < Pow256(8)
    ensures var e := EncodeFrame(fin, opcode, mask, payload);
            ParseFrameAt(e + rest) == Complete(Frame(fin, opcode, payload), |e|)
  {
    var n := |payload|;
    var (len7, ext) := LengthField(n);
    var h0 := HeaderByte(fin, opcode);
    var h1 := HeaderByte(mask.Some?, len7);
    var body := match mask case None => payload case Some(m) => m + Unmask(payload, m);
    var e := EncodeFrame(fin, opcode, mask, payload);
    assert e == [h0, h1] + ext + body;
    var d := e + rest;
    var k := 2 + |ext|;
    FrameSlices([h0, h1], ext, body, rest);
    assert d == [h0, h1] + ext + body + rest;
    if mask.Some? {
      assert body[..4] == mask.value && body[4..] == Unmask(payload, mask.value);
      UnmaskInvolution(payload, mask.value);
    }
  }

  /** Where the parts of a frame lie in the bytes that hold it. */
  lemma FrameSlices(h: Bytes, ext: Bytes, body: Bytes, rest: Bytes)
    requires |h| == 2
    ensures var d := h + ext + body + rest;
            && d[0] == h[0] && d[1] == h[1]
            && d[2..2 + |ext|] == ext
            && d[2 + |ext|..2 + |ext| + |body|] == body
  {
    var d := h + ext + body + rest;
    assert d == h + (ext + (body + rest));
    assert (ext + (body + rest))[..|ext|] == ext;
    assert d[2..2 + |ext|] == (ext + (body + rest))[..|ext|];
    assert (body + rest)[..|body|] == body;
    assert d[2 + |ext|..2 + |ext| + |body|] == (body + rest)[..|body|];
  }

  /** An unmasked, final text frame with a 7-bit length, as a server sends it,
      decodes to exactly one final part holding its text and is consumed whole. */
  lemma SingleTextFrame(payload: Bytes, text: string, decode: Utf8Decoder)
    requires |payload| < 126
    requires decode(payload) == Some(text)
    ensures var frame: Bytes := [0x81, |payload|] + payload;
            ParseWsFrames(frame, decode) == ([Part(true, text)], |frame|)
  {
    var frame: Bytes := [0x81, |payload|] + payload;
    assert Pow256(8) > 126 by {
      assert Pow256(1) == 256;
    }
    assert EncodeFrame(true, OpText, None, payload) == frame;
    EncodeFrameRoundTrip(true, OpText, None, payload, []);
    assert frame + [] == frame;
    var f := Frame(true, OpText, payload);
    assert ParseFrameAt(frame) == Complete(f, |frame|);
    assert ReadsFrame(frame, ParseFrameAt);
    assert frame[|frame|..] == [];
    assert Consumed([], ParseFrameAt) == 0;
    assert Consumed(frame, ParseFrameAt) == |frame|;
    assert Frames(frame, ParseFrameAt) == [f];
    assert Parts([f], decode) == [Part(true, text)];
  }

  /** Joins the parts of one call: text accumulates until a part with FIN set
      completes a message; an unfinished message at the end is dropped. */
  function CombineParts(parts: seq<Part>, current: string): seq<string> {
    if |parts| == 0 then []
    else if parts[0].fin then [current + parts[0].text] + CombineParts(parts[1..], "")
    else CombineParts(parts[1..], current + parts[0].text)
  }

  function CountFin(parts: seq<Part>): nat {
    if |parts| == 0 then 0 else (if parts[0].fin then 1 else 0) + CountFin(parts[1..])
  }

  function Texts(parts: seq<Part>): seq<string> {
    if |parts| == 0 then [] else [parts[0].text] + Texts(parts[1..])
  }

  /** One message per FIN part, and the messages spell out the parts' text in
      order: their concatenation is a prefix of all the text (the rest being the
      unfinished fragment that is dropped). */
  lemma {:induction false} CombinePartsSpec(parts: seq<Part>, current: string)
    ensures |CombineParts(parts, current)| == CountFin(parts)
    ensures Seqs.StartsWith(current + Seqs.Concat(Texts(parts)), Seqs.Concat(CombineParts(parts, current)))
    decreases |parts|
  {
    if |parts| > 0 {
      var p := parts[0];
      var all := current + Seqs.Concat(Texts(parts));
      assert all == (current + p.text) + Seqs.Concat(Texts(parts[1..]));
      if p.fin {
        CombinePartsSpec(parts[1..], "");
        var tail := CombineParts(parts[1..], "");
        assert "" + Seqs.Concat(Texts(parts[1..])) == Seqs.Concat(Texts(parts[1..]));
        assert Seqs.Concat([current + p.text] + tail) == (current + p.text) + Seqs.Concat(tail);
      } else {
        CombinePartsSpec(parts[1..], current + p.text);
      }
    }
  }

  /** Non-final parts carrying the given texts. */
  function Unfinished(frags: seq<string>): (r: seq<Part>)
    ensures |r| == |frags|
  {
    if |frags| == 0 then [] else [Part(false, frags[0])] + Unfinished(frags[1..])
  }

  /** A message fragmented as non-final parts followed by a final part is
      reassembled into one message equal to the concatenated text. */
  lemma {:induction false} CombineFragments(frags: seq<string>, last: string, current: string)
    ensures CombineParts(Unfinished(frags) + [Part(true, last)], current) == [current + Seqs.Concat(frags) + last]
    decreases |frags|
  {
    var ps := Unfinished(frags) + [Part(true, last)];
    if |frags| > 0 {
      assert ps[0] == Part(false, frags[0]);
      assert ps[1..] == Unfinished(frags[1..]) + [Part(true, last)];
      CombineFragments(frags[1..], last, current + frags[0]);
      assert current + frags[0] + Seqs.Concat(frags[1..]) == current + Seqs.Concat(frags);
    } else {
      assert ps == [Part(true, last)];
      assert ps[1..] == [];
      assert current + Seqs.Concat(frags) + last == current + last;
    }
  }

  /** A trailing unfinished part never yields a message. */
  lemma {:induction false} CombineDropsUnfinished(parts: seq<Part>, text: string, current: string)
    ensures CombineParts(parts + [Part(false, text)], current) == CombineParts(parts, current)
    decreases |parts|
  {
    if |parts| > 0 {
      assert (parts + [Part(false, text)])[1..] == parts[1..] + [Part(false, text)];
      if parts[0].fin {
        CombineDropsUnfinished(parts[1..], text, "");
      } else {
        CombineDropsUnfinished(parts[1..], text, current + parts[0].text);
      }
    } else {
      assert parts + [Part(false, text)] == [Part(false, text)];
    }
  }

  /** The module-level `ws_buffers` table, passed explicitly. */
  type WsBuffers = map<ConnKey, Bytes>

  /** A connection buffer longer than this after a call is discarded. */
  const MaxBufferBytes := 1024 * 1024

  const GetPrefix: Bytes := [0x47, 0x45, 0x54, 0x20]          // "GET "
  const HttpPrefix: Bytes := [0x48, 0x54, 0x54, 0x50, 0x2f]   // "HTTP/"

  predicate IsHttpUpgrade(payload: Bytes) {
    Seqs.StartsWith(payload, GetPrefix) || Seqs.StartsWith(payload, HttpPrefix)
  }

  /** Keeps, in order, the messages that contain `"jsonrpc"`. */
  function JsonRpcOnly(messages: seq<string>): (r: seq<string>)
    ensures |r| <= |messages|
    ensures forall m :: m in r ==> m in messages && Seqs.Contains(m, "jsonrpc")
    ensures forall m :: m in messages && Seqs.Contains(m, "jsonrpc") ==> m in r
  {
    if |messages| == 0 then []
    else (if Seqs.Contains(messages[0], "jsonrpc") then [messages[0]] else []) + JsonRpcOnly(messages[1..])
  }

  /** The connection buffer left after a call: the unconsumed tail, or nothing
      when that tail exceeds the cap. */
  function Remaining(buf: Bytes, consumed: nat): Bytes
    requires consumed <= |buf|
  {
    if |buf| - consumed > MaxBufferBytes then [] else buf[consumed..]
  }

  /** `process_ws_packet`: returns the completed JSON-RPC messages and the new buffer table. */
  function ProcessWsPacket(buffers: WsBuffers, key: ConnKey, payload: Bytes, decode: Utf8Decoder)
    : (r: (WsBuffers, seq<string>))
    ensures IsHttpUpgrade(payload) ==> r == (buffers, [])
    ensures !IsHttpUpgrade(payload) ==>
      var buf := (if key in buffers then buffers[key] else []) + payload;
      var (parts, consumed) := ParseWsFrames(buf, decode);
      && key in r.0
      && r.0[key] == Remaining(buf, consumed)
      && (forall k :: k in buffers && k != key ==> k in r.0 && r.0[k] == buffers[k])
      && r.0.Keys == buffers.Keys + {key}
      && |r.1| <= CountFin(parts)
      && r.1 == JsonRpcOnly(CombineParts(parts, ""))
    ensures forall m :: m in r.1 ==> Seqs.Contains(m, "jsonrpc")
  {
    if IsHttpUpgrade(payload) then (buffers, [])
    else
      var buf := (if key in buffers then buffers[key] else []) + payload;
      var (parts, consumed) := ParseWsFrames(buf, decode);
      CombinePartsSpec(parts, "");
      (buffers[key := Remaining(buf, consumed)], JsonRpcOnly(CombineParts(parts, "")))
  }

  /** Two packets on one connection are parsed as if they had arrived together:
      the frames parsed by the first call and those parsed by the second call
      over the kept tail together equal the frames of the concatenated bytes
      (as long as the kept tail stayed under the cap). */
  lemma TwoPacketsParseAsOne(buffers: WsBuffers, key: ConnKey, p1: Bytes, p2: Bytes, decode: Utf8Decoder)
    requires !IsHttpUpgrade(p1)
    requires var buf := (if key in buffers then buffers[key] else []) + p1;
             |buf| - ParseWsFrames(buf, decode).1 <= MaxBufferBytes
    ensures var old_ := if key in buffers then buffers[key] else [];
            var after := ProcessWsPacket(buffers, key, p1, decode).0;
            ParseWsFrames(old_ + p1 + p2, decode).0
              == ParseWsFrames(old_ + p1, decode).0 + ParseWsFrames(after[key] + p2, decode).0
  {
    var old_ := if key in buffers then buffers[key] else [];
    ParseWsFramesAppend(old_ + p1, p2, decode);
  }

  /** Two packets on one connection deliver what the two together deliver in
      one call, as long as the first leaves no message unfinished and the
      tail kept after it stays under the cap. */
  lemma TwoPacketsAsOne(buffers: WsBuffers, key: ConnKey, p1: Bytes, p2: Bytes, decode: Utf8Decoder)
    requires !IsHttpUpgrade(p1) && !IsHttpUpgrade(p2) && !IsHttpUpgrade(p1 + p2)
    requires var buf := (if key in buffers then buffers[key] else []) + p1;
             |buf| - ParseWsFrames(buf, decode).1 <= MaxBufferBytes
    requires var buf := (if key in buffers then buffers[key] else []) + p1;
             Leftover(ParseWsFrames(buf, decode).0, "") == ""
    ensures var r1 := ProcessWsPacket(buffers, key, p1, decode);
            var r2 := ProcessWsPacket(r1.0, key, p2, decode);
            r1.1 + r2.1 == ProcessWsPacket(buffers, key, p1 + p2, decode).1
  {
    var old_ := if key in buffers then buffers[key] else [];
    var after := ProcessWsPacket(buffers, key, p1, decode).0;
    var a := ParseWsFrames(old_ + p1, decode).0;
    var b := ParseWsFrames(after[key] + p2, decode).0;
    assert ParseWsFrames(old_ + (p1 + p2), decode).0 == a + b by {
      TwoPacketsParseAsOne(buffers, key, p1, p2, decode);
      Seqs.AppendAssoc(old_, p1, p2);
    }
    CombinePartsAppend(a, b, "");
    JsonRpcOnlyAppend(CombineParts(a, ""), CombineParts(b, ""));
  }

  /** `e` holds exactly the frame `f`: whatever bytes follow it, the frame
      at the head is `f`, ending just after `e`. */
  ghost predicate Encodes(e: Bytes, f: Frame) {
    forall rest: Bytes :: ParseFrameAt(e + rest) == Complete(f, |e|)
  }

  /** What `EncodeFrame` produces holds exactly the frame encoded. */
  lemma EncodeFrameEncodes(fin: bool, opcode: nat, mask: Option<Bytes>, payload: Bytes)
    requires opcode < 16
    requires mask.Some? ==> |mask.value| == 4
    requires |payload| < Pow256(8)
    ensures Encodes(EncodeFrame(fin, opcode, mask, payload), Frame(fin, opcode, payload))
  {
    var e := EncodeFrame(fin, opcode, mask, payload);
    forall rest: Bytes
      ensures ParseFrameAt(e + rest) == Complete(Frame(fin, opcode, payload), |e|)
    {
      EncodeFrameRoundTrip(fin, opcode, mask, payload, rest);
    }
  }

  /** A frame followed by any bytes: parsing yields the frame's part and
      then whatever the bytes after it yield. */
  lemma FrameThen(e: Bytes, f: Frame, rest: Bytes, decode: Utf8Decoder)
    requires Encodes(e, f)
    ensures var r := ParseWsFrames(rest, decode);
            ParseWsFrames(e + rest, decode) == (FramePart(f, decode) + r.0, |e| + r.1)
  {
    var d := e + rest;
    assert ParseFrameAt(d) == Complete(f, |e|);
    assert ReadsFrame(d, ParseFrameAt);
    assert d[|e|..] == rest;
    assert Frames(d, ParseFrameAt) == [f] + Frames(rest, ParseFrameAt);
    assert ([f] + Frames(rest, ParseFrameAt))[1..] == Frames(rest, ParseFrameAt);
  }

  /** A frame alone in the buffer. */
  lemma FrameAlone(e: Bytes, f: Frame, decode: Utf8Decoder)
    requires Encodes(e, f)
    ensures ParseWsFrames(e, decode) == (FramePart(f, decode), |e|)
  {
    assert ParseWsFrames([], decode) == ([], 0);
    assert e + [] == e && FramePart(f, decode) + [] == FramePart(f, decode);
    FrameThen(e, f, [], decode);
  }

  /** Two frames, one after the other. */
  lemma FramePair(e1: Bytes, f1: Frame, e2: Bytes, f2: Frame, decode: Utf8Decoder)
    requires Encodes(e1, f1) && Encodes(e2, f2)
    ensures ParseWsFrames(e1 + e2, decode) == (FramePart(f1, decode) + FramePart(f2, decode), |e1 + e2|)
  {
    FrameAlone(e2, f2, decode);
    FrameThen(e1, f1, e2, decode);
  }

  /** A text or continuation frame, with whatever follows it, is not the
      head of an HTTP upgrade: the low nibble of its first byte is 0 or 1,
      where `G` and `H` have 7 and 8. */
  lemma FrameNotUpgrade(e: Bytes, f: Frame, rest: Bytes)
    requires Encodes(e, f) && (f.opcode == OpText || f.opcode == OpContinuation)
    ensures !IsHttpUpgrade(e + rest)
  {
    var d := e + rest;
    assert ParseFrameAt(d) == Complete(f, |e|);
    assert d[0] % 16 == f.opcode;
    Seqs.HeadDiffers(d, GetPrefix);
    Seqs.HeadDiffers(d, HttpPrefix);
  }

  /** A text or continuation frame whose payload decodes contributes one
      part holding the decoded text. */
  lemma FramePartText(fin: bool, opcode: nat, payload: Bytes, text: string, decode: Utf8Decoder)
    requires opcode == OpText || opcode == OpContinuation
    requires decode(payload) == Some(text)
    ensures FramePart(Frame(fin, opcode, payload), decode) == [Part(fin, text)]
  {
  }


  /** The text of the unfinished message after the parts: what the joining
      loop's `current` holds when it ends. */
  function Leftover(parts: seq<Part>, current: string): string {
    if |parts| == 0 then current
    else if parts[0].fin then Leftover(parts[1..], "")
    else Leftover(parts[1..], current + parts[0].text)
  }

  /** Joining is incremental when the unfinished text is carried over. */
  lemma {:induction false} CombinePartsAppend(a: seq<Part>, b: seq<Part>, current: string)
    ensures CombineParts(a + b, current) == CombineParts(a, current) + CombineParts(b, Leftover(a, current))
    decreases |a|
  {
    if |a| > 0 {
      assert (a + b)[0] == a[0] && (a + b)[1..] == a[1..] + b;
      if a[0].fin {
        CombinePartsAppend(a[1..], b, "");
      } else {
        CombinePartsAppend(a[1..], b, current + a[0].text);
      }
    } else {
      assert a + b == b;
    }
  }

  lemma {:induction false} JsonRpcOnlyAppend(a: seq<string>, b: seq<string>)
    ensures JsonRpcOnly(a + b) == JsonRpcOnly(a) + JsonRpcOnly(b)
    decreases |a|
  {
    if |a| > 0 {
      assert (a + b)[0] == a[0] && (a + b)[1..] == a[1..] + b;
      JsonRpcOnlyAppend(a[1..], b);
    } else {
      assert a + b == b;
    }
  }

  /** A packet whose bytes are all consumed by its frames, on a connection
      with nothing buffered: it leaves the buffer empty and returns the
      JSON-RPC messages its parts complete. */
  lemma DrainedPacket(buffers: WsBuffers, key: ConnKey, p: Bytes, parts: seq<Part>, decode: Utf8Decoder)
    requires !IsHttpUpgrade(p)
    requires key !in buffers || buffers[key] == []
    requires ParseWsFrames(p, decode) == (parts, |p|)
    ensures ProcessWsPacket(buffers, key, p, decode) == (buffers[key := []], JsonRpcOnly(CombineParts(parts, "")))
  {
    assert [] + p == p;
  }

  /** A message in two fragments, joined. */
  lemma TwoFragmentsJoined(t1: string, t2: string)
    ensures CombineParts([Part(false, t1), Part(true, t2)], "") == [t1 + t2]
  {
    CombineFragments([t1], t2, "");
    assert Unfinished([t1]) + [Part(true, t2)] == [Part(false, t1), Part(true, t2)];
    assert "" + Seqs.Concat([t1]) + t2 == t1 + t2;
  }

  /** A message sent as a non-final text frame `e1` and a final continuation
      frame `e2` (in any of the encodings of section 5.2 of RFC 6455, masked
      or not), in one packet on a connection with nothing buffered: it is
      delivered whole and the buffer is left empty. */
  lemma FragmentsInOnePacket(buffers: WsBuffers, key: ConnKey, e1: Bytes, b1: Bytes, t1: string,
                             e2: Bytes, b2: Bytes, t2: string, decode: Utf8Decoder)
    requires key !in buffers || buffers[key] == []
    requires Encodes(e1, Frame(false, OpText, b1)) && Encodes(e2, Frame(true, OpContinuation, b2))
    requires decode(b1) == Some(t1) && decode(b2) == Some(t2)
    requires Seqs.Contains(t1 + t2, "jsonrpc")
    ensures ProcessWsPacket(buffers, key, e1 + e2, decode) == (buffers[key := []], [t1 + t2])
  {
    var parts := [Part(false, t1), Part(true, t2)];
    FrameNotUpgrade(e1, Frame(false, OpText, b1), e2);
    assert ParseWsFrames(e1 + e2, decode) == (parts, |e1 + e2|) by {
      FramePartText(false, OpText, b1, t1, decode);
      FramePartText(true, OpContinuation, b2, t2, decode);
      FramePair(e1, Frame(false, OpText, b1), e2, Frame(true, OpContinuation, b2), decode);
      assert [Part(false, t1)] + [Part(true, t2)] == parts;
    }
    DrainedPacket(buffers, key, e1 + e2, parts, decode);
    TwoFragmentsJoined(t1, t2);
  }

  /** A strict prefix of an encoded frame is no complete frame. */
  lemma PrefixIncomplete(e: Bytes, f: Frame, k: nat)
    requires Encodes(e, f) && k < |e|
    ensures ParseFrameAt(e[..k]).Incomplete?
  {
    assert e + [] == e;
    assert ParseFrameAt(e) == Complete(f, |e|);
    if ParseFrameAt(e[..k]).Complete? {
      assert e[..k] + e[k..] == e;
      ParseFrameAtExtend(e[..k], e[k..]);
    }
  }

  /** A non-empty prefix of a text or continuation frame is not the head of
      an HTTP upgrade. */
  lemma PrefixNotUpgrade(e: Bytes, f: Frame, k: nat)
    requires Encodes(e, f) && (f.opcode == OpText || f.opcode == OpContinuation)
    requires 0 < k <= |e|
    ensures !IsHttpUpgrade(e[..k])
  {
    assert e + [] == e;
    assert ParseFrameAt(e) == Complete(f, |e|);
    assert e[0] % 16 == f.opcode;
    Seqs.HeadDiffers(e[..k], GetPrefix);
    Seqs.HeadDiffers(e[..k], HttpPrefix);
  }

  /** One text frame split over two TCP segments, on a connection with
      nothing buffered: the first segment is kept and returns nothing, and
      the second completes the frame, returns its message and empties the
      buffer (as long as the first segment stays under the cap, and the
      second does not itself begin like an HTTP upgrade, which the call
      would skip). */
  lemma FrameSplitAcrossPackets(buffers: WsBuffers, key: ConnKey, e: Bytes, b: Bytes, t: string,
                                k: nat, decode: Utf8Decoder)
    requires key !in buffers || buffers[key] == []
    requires Encodes(e, Frame(true, OpText, b)) && decode(b) == Some(t)
    requires Seqs.Contains(t, "jsonrpc")
    requires 0 < k < |e| && k <= MaxBufferBytes && !IsHttpUpgrade(e[k..])
    ensures var r1 := ProcessWsPacket(buffers, key, e[..k], decode);
            var r2 := ProcessWsPacket(r1.0, key, e[k..], decode);
            && r1.1 == [] && key in r1.0 && r1.0[key] == e[..k]
            && r2.1 == [t] && key in r2.0 && r2.0[key] == []
  {
    var f := Frame(true, OpText, b);
    var p1 := e[..k];
    PrefixNotUpgrade(e, f, k);
    assert ParseWsFrames(p1, decode) == ([], 0) by {
      PrefixIncomplete(e, f, k);
      assert !ReadsFrame(p1, ParseFrameAt);
    }
    assert [] + p1 == p1;
    var r1 := ProcessWsPacket(buffers, key, p1, decode);
    assert r1.0[key] == p1;
    assert r1.1 == [] by {
      assert CombineParts([], "") == [];
    }
    assert p1 + e[k..] == e;
    FrameAlone(e, f, decode);
    FramePartText(true, OpText, b, t, decode);
    assert CombineParts([Part(true, t)], "") == [t] by {
      assert "" + t == t;
    }
  }

  /** The same message with each frame in a packet of its own, as written:
      the first call consumes the non-final frame and drops its text, so the
      second call returns at most the final fragment and never the whole
      message. */
  lemma FragmentsAcrossPacketsLost(buffers: WsBuffers, key: ConnKey, e1: Bytes, b1: Bytes, t1: string,
                                   e2: Bytes, b2: Bytes, t2: string, decode: Utf8Decoder)
    requires key !in buffers || buffers[key] == []
    requires Encodes(e1, Frame(false, OpText, b1)) && Encodes(e2, Frame(true, OpContinuation, b2))
    requires decode(b1) == Some(t1) && decode(b2) == Some(t2) && |t1| > 0
    ensures var r1 := ProcessWsPacket(buffers, key, e1, decode);
            var r2 := ProcessWsPacket(r1.0, key, e2, decode);
            && r1.1 == [] && r2.1 == JsonRpcOnly([t2])
            && t1 + t2 !in r1.1 + r2.1
  {
    var r1 := ProcessWsPacket(buffers, key, e1, decode);
    assert r1 == (buffers[key := []], []) by {
      FrameNotUpgrade(e1, Frame(false, OpText, b1), []);
      assert e1 + [] == e1;
      FramePartText(false, OpText, b1, t1, decode);
      FrameAlone(e1, Frame(false, OpText, b1), decode);
      DrainedPacket(buffers, key, e1, [Part(false, t1)], decode);
      assert CombineParts([Part(false, t1)], "") == [];
    }
    assert ProcessWsPacket(r1.0, key, e2, decode).1 == JsonRpcOnly([t2]) by {
      FrameNotUpgrade(e2, Frame(true, OpContinuation, b2), []);
      assert e2 + [] == e2;
      FramePartText(true, OpContinuation, b2, t2, decode);
      FrameAlone(e2, Frame(true, OpContinuation, b2), decode);
      DrainedPacket(r1.0, key, e2, [Part(true, t2)], decode);
      assert CombineParts([Part(true, t2)], "") == [t2] by {
        assert "" + t2 == t2;
      }
    }
    assert |t1 + t2| > |t2|;
  }

  /** The lost fragment for frames as `EncodeFrame` writes them. */
  lemma EncodedFragmentsAcrossPacketsLost(buffers: WsBuffers, key: ConnKey, m1: Option<Bytes>, b1: Bytes, t1: string,
                                          m2: Option<Bytes>, b2: Bytes, t2: string, decode: Utf8Decoder)
    requires key !in buffers || buffers[key] == []
    requires m1.Some? ==> |m1.value| == 4
    requires m2.Some? ==> |m2.value| == 4
    requires |b1| < Pow256(8) && |b2| < Pow256(8)
    requires decode(b1) == Some(t1) && decode(b2) == Some(t2) && |t1| > 0
    ensures var e1 := EncodeFrame(false, OpText, m1, b1);
            var e2 := EncodeFrame(true, OpContinuation, m2, b2);
            var r1 := ProcessWsPacket(buffers, key, e1, decode);
            var r2 := ProcessWsPacket(r1.0, key, e2, decode);
            r1.1 == [] && t1 + t2 !in r2.1
  {
    var e1 := EncodeFrame(false, OpText, m1, b1);
    var e2 := EncodeFrame(true, OpContinuation, m2, b2);
    EncodeFrameEncodes(false, OpText, m1, b1);
    EncodeFrameEncodes(true, OpContinuation, m2, b2);
    FragmentsAcrossPacketsLost(buffers, key, e1, b1, t1, e2, b2, t2, decode);
  }


  /** Reassembly state of the corrected version: the byte buffers and, per
      connection, the text of the message whose final fragment has not
      arrived yet. */
  datatype WsState = WsState(buffers: WsBuffers, pending: map<ConnKey, string>)

  /** `process_ws_packet` with the unfinished message carried from one call
      to the next instead of being dropped. */
  function ProcessWsPacketCarrying(s: WsState, key: ConnKey, payload: Bytes, decode: Utf8Decoder)
    : (r: (WsState, seq<string>))
    ensures IsHttpUpgrade(payload) ==> r == (s, [])
    ensures !IsHttpUpgrade(payload) ==> r.0.buffers == ProcessWsPacket(s.buffers, key, payload, decode).0
    ensures forall m :: m in r.1 ==> Seqs.Contains(m, "jsonrpc")
  {
    if IsHttpUpgrade(payload) then (s, [])
    else
      var buf := (if key in s.buffers then s.buffers[key] else []) + payload;
      var (parts, consumed) := ParseWsFrames(buf, decode);
      var current := if key in s.pending then s.pending[key] else "";
      (WsState(s.buffers[key := Remaining(buf, consumed)], s.pending[key := Leftover(parts, current)]),
       JsonRpcOnly(CombineParts(parts, current)))
  }

  /** With the unfinished message carried over, two packets deliver exactly
      what the two together deliver in one call (as long as the tail kept
      after the first stays under the cap). */
  lemma CarryingTwoPacketsAsOne(s: WsState, key: ConnKey, p1: Bytes, p2: Bytes, decode: Utf8Decoder)
    requires !IsHttpUpgrade(p1) && !IsHttpUpgrade(p2) && !IsHttpUpgrade(p1 + p2)
    requires var buf := (if key in s.buffers then s.buffers[key] else []) + p1;
             |buf| - ParseWsFrames(buf, decode).1 <= MaxBufferBytes
    ensures var r1 := ProcessWsPacketCarrying(s, key, p1, decode);
            var r2 := ProcessWsPacketCarrying(r1.0, key, p2, decode);
            r1.1 + r2.1 == ProcessWsPacketCarrying(s, key, p1 + p2, decode).1
  {
    var old_ := if key in s.buffers then s.buffers[key] else [];
    var current := if key in s.pending then s.pending[key] else "";
    var r1 := ProcessWsPacketCarrying(s, key, p1, decode);
    var after := ProcessWsPacket(s.buffers, key, p1, decode).0;
    var a := ParseWsFrames(old_ + p1, decode).0;
    var b := ParseWsFrames(after[key] + p2, decode).0;
    assert ParseWsFrames(old_ + (p1 + p2), decode).0 == a + b by {
      TwoPacketsParseAsOne(s.buffers, key, p1, p2, decode);
      Seqs.AppendAssoc(old_, p1, p2);
    }
    CarryingStep(s, key, p1, decode);
    CarryingStep(r1.0, key, p2, decode);
    CarryingStep(s, key, p1 + p2, decode);
    CombinePartsAppend(a, b, current);
    JsonRpcOnlyAppend(CombineParts(a, current), CombineParts(b, Leftover(a, current)));
  }

  /** One call of the corrected version, spelled out for a payload that is
      not an upgrade. */
  lemma CarryingStep(s: WsState, key: ConnKey, p: Bytes, decode: Utf8Decoder)
    requires !IsHttpUpgrade(p)
    ensures var buf := (if key in s.buffers then s.buffers[key] else []) + p;
            var current := if key in s.pending then s.pending[key] else "";
            var parts := ParseWsFrames(buf, decode).0;
            var r := ProcessWsPacketCarrying(s, key, p, decode);
            && r.0.buffers == ProcessWsPacket(s.buffers, key, p, decode).0
            && key in r.0.pending && r.0.pending[key] == Leftover(parts, current)
            && r.1 == JsonRpcOnly(CombineParts(parts, current))
  {
  }

  /** The corrected version on a packet whose bytes are all consumed by its
      frames, on a connection with nothing buffered. */
  lemma DrainedPacketCarrying(s: WsState, key: ConnKey, p: Bytes, parts: seq<Part>, decode: Utf8Decoder)
    requires !IsHttpUpgrade(p)
    requires key !in s.buffers || s.buffers[key] == []
    requires ParseWsFrames(p, decode) == (parts, |p|)
    ensures var current := if key in s.pending then s.pending[key] else "";
            ProcessWsPacketCarrying(s, key, p, decode)
              == (WsState(s.buffers[key := []], s.pending[key := Leftover(parts, current)]),
                  JsonRpcOnly(CombineParts(parts, current)))
  {
    assert [] + p == p;
  }

  /** The fragmented message of `FragmentsAcrossPacketsLost`, corrected:
      delivered whole over the two packets. */
  lemma FragmentsAcrossPacketsCarried(s: WsState, key: ConnKey, e1: Bytes, b1: Bytes, t1: string,
                                      e2: Bytes, b2: Bytes, t2: string, decode: Utf8Decoder)
    requires key !in s.buffers || s.buffers[key] == []
    requires key !in s.pending || s.pending[key] == ""
    requires Encodes(e1, Frame(false, OpText, b1)) && Encodes(e2, Frame(true, OpContinuation, b2))
    requires decode(b1) == Some(t1) && decode(b2) == Some(t2)
    requires Seqs.Contains(t1 + t2, "jsonrpc")
    ensures var r1 := ProcessWsPacketCarrying(s, key, e1, decode);
            var r2 := ProcessWsPacketCarrying(r1.0, key, e2, decode);
            r1.1 + r2.1 == [t1 + t2]
  {
    var r1 := ProcessWsPacketCarrying(s, key, e1, decode);
    assert r1 == (WsState(s.buffers[key := []], s.pending[key := t1]), []) by {
      FrameNotUpgrade(e1, Frame(false, OpText, b1), []);
      assert e1 + [] == e1;
      FramePartText(false, OpText, b1, t1, decode);
      FrameAlone(e1, Frame(false, OpText, b1), decode);
      DrainedPacketCarrying(s, key, e1, [Part(false, t1)], decode);
      assert Leftover([Part(false, t1)], "") == t1 by {
        assert "" + t1 == t1;
      }
      assert CombineParts([Part(false, t1)], "") == [];
    }
    assert ProcessWsPacketCarrying(r1.0, key, e2, decode).1 == [t1 + t2] by {
      FrameNotUpgrade(e2, Frame(true, OpContinuation, b2), []);
      assert e2 + [] == e2;
      FramePartText(true, OpContinuation, b2, t2, decode);
      FrameAlone(e2, Frame(true, OpContinuation, b2), decode);
      DrainedPacketCarrying(r1.0, key, e2, [Part(true, t2)], decode);
      assert CombineParts([Part(true, t2)], t1) == [t1 + t2];
    }
  }
}
