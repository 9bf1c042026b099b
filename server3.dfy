/** The plain-TCP frame server of `3/main.go`: `readFrame` without masking of
    the stream id, the preface gate, a hand-built SETTINGS frame, and
    `handleFrame`, which answers a HEADERS frame with two hand-built frames
    and ignores every other frame. */
module Server3 {
  import opened Bytes
  import opened Transport

  const FrameHeaderLen: nat := 9

  /** `Frame` of 3/main.go; Go's `int` fields hold what 24 and 32 bits give. */
  datatype Frame = Frame(length: nat, ftype: Byte, flags: Byte, streamId: nat, payload: seq<Byte>)

  /** A frame the wire format carries exactly: a 24-bit length that is the
      payload's length, and a 32-bit stream id (reserved bit included). */
  predicate WellFormed(f: Frame)
  {
    f.length < 0x100_0000 && f.streamId < 0x1_0000_0000 && |f.payload| == f.length
  }

  // ---------------------------------------------------------------------------
  // Codec
  // ---------------------------------------------------------------------------

  /** The bytes of a frame in the order `handleFrame` spells them out: the
      declared length (low 24 bits), the type, the flags, the full 32-bit stream
      id, then the payload. The length field is the declared one, whether or
      not it matches the payload. */
  function Layout(f: Frame): (b: seq<Byte>)
    ensures |b| == FrameHeaderLen + |f.payload|
  {
    Be24Bytes(f.length) + [f.ftype, f.flags] + Be32Bytes(f.streamId) + f.payload
  }

  datatype ReadError = HeaderTruncated | PayloadTruncated

  datatype Decoded = Decoded(frame: Frame, rest: seq<Byte>)

  datatype DecodeResult = Ok(value: Decoded) | Err(error: ReadError)

  /** `readFrame` on the bytes `input` still to come: the length is bytes 0..2
      big-endian, the type byte 3, the flags byte 4, and the stream id all of
      bytes 5..8 big-endian, reserved bit included. It fails without a frame
      when the header or the announced payload is incomplete. */
  function Decode(input: seq<Byte>): (r: DecodeResult)
    ensures r == Err(HeaderTruncated) <==> |input| < FrameHeaderLen
    ensures r == Err(PayloadTruncated) <==>
              FrameHeaderLen <= |input| < FrameHeaderLen + Be24(input[0], input[1], input[2])
    ensures r.Ok? ==> WellFormed(r.value.frame)
  {
    if |input| < FrameHeaderLen then Err(HeaderTruncated)
    else
      var length := Be24(input[0], input[1], input[2]);
      var streamId := Be32(input[5], input[6], input[7], input[8]);
      if |input| < FrameHeaderLen + length then Err(PayloadTruncated)
      else
        var f := Frame(length, input[3], input[4], streamId, input[FrameHeaderLen..FrameHeaderLen + length]);
        Ok(Decoded(f, input[FrameHeaderLen + length..]))
  }

  /** The fields `readFrame` takes from the header it read; the payload is
      exactly the next `length` bytes and the rest is left for the next call. */
  lemma DecodedFields(input: seq<Byte>)
    requires Decode(input).Ok?
    ensures var d := Decode(input).value;
            && d.frame.length == Be24(input[0], input[1], input[2])
            && d.frame.ftype == input[3] && d.frame.flags == input[4]
            && d.frame.streamId == Be32(input[5], input[6], input[7], input[8])
            && input == input[..FrameHeaderLen] + d.frame.payload + d.rest
  {
    var d := Decode(input).value;
    assert input == input[..FrameHeaderLen] + input[FrameHeaderLen..FrameHeaderLen + d.frame.length] + d.rest;
  }

  /** Unlike 6/main.go the reserved bit is kept: the stream id has its top bit
      set exactly when the top bit of byte 5 is set. */
  lemma ReservedBitKept(input: seq<Byte>)
    requires Decode(input).Ok?
    ensures Decode(input).value.frame.streamId >= 0x8000_0000 <==> input[5] >= 0x80
  {
  }

  /** Decoding a header followed by exactly as many payload bytes as it
      announces. */
  lemma DecodeOfParts(input: seq<Byte>, h: seq<Byte>, payload: seq<Byte>, rest: seq<Byte>)
    requires input == h + payload + rest
    requires |h| == FrameHeaderLen && Be24(h[0], h[1], h[2]) == |payload|
    ensures Decode(input) ==
            Ok(Decoded(Frame(|payload|, h[3], h[4], Be32(h[5], h[6], h[7], h[8]), payload), rest))
  {
    assert input[..FrameHeaderLen] == h;
    assert input[FrameHeaderLen..FrameHeaderLen + |payload|] == payload;
    assert input[FrameHeaderLen + |payload|..] == rest;
  }

  /** The header of `Layout(f)` holds the declared length, the type, the
      flags and the stream id; the payload follows it. */
  lemma LayoutFields(f: Frame)
    requires f.length < 0x100_0000 && f.streamId < 0x1_0000_0000
    ensures var b := Layout(f);
            && Be24(b[0], b[1], b[2]) == f.length
            && b[3] == f.ftype && b[4] == f.flags
            && Be32(b[5], b[6], b[7], b[8]) == f.streamId
            && b[FrameHeaderLen..] == f.payload
  {
    var len := Be24Bytes(f.length);
    var sid := Be32Bytes(f.streamId);
    var b := Layout(f);
    Be24OfBytes(f.length);
    DivModUnique(f.length, 0x100_0000, 0, f.length);
    Be32OfBytes(f.streamId);
    assert b[0] == len[0] && b[1] == len[1] && b[2] == len[2];
    assert b[5] == sid[0] && b[6] == sid[1] && b[7] == sid[2] && b[8] == sid[3];
  }

  /** Round trip: `readFrame` gives back a well-formed frame laid out on the
      wire, and leaves whatever followed it untouched. */
  lemma RoundTrip(f: Frame, rest: seq<Byte>)
    requires WellFormed(f)
    ensures Decode(Layout(f) + rest) == Ok(Decoded(f, rest))
  {
    LayoutFields(f);
    var b := Layout(f);
    DecodeOfParts(b + rest, b[..FrameHeaderLen], f.payload, rest);
  }

  /** Every frame `readFrame` returns, in order, until the first failure:
      none when the first read fails, and otherwise the one the first read
      returns followed by the rest. */
  function DecodeAll(input: seq<Byte>): (fs: seq<Frame>)
    ensures fs == [] <==> Decode(input).Err?
    ensures fs != [] ==> fs[0] == Decode(input).value.frame
    decreases |input|
  {
    match Decode(input)
    case Err(_) => []
    case Ok(d) => [d.frame] + DecodeAll(d.rest)
  }

  /** Every frame the read loop gets is well-formed. */
  lemma {:induction false} DecodeAllWellFormed(input: seq<Byte>)
    ensures forall i :: 0 <= i < |DecodeAll(input)| ==> WellFormed(DecodeAll(input)[i])
    decreases |input|
  {
    var r := Decode(input);
    if r.Ok? {
      DecodeAllWellFormed(r.value.rest);
      var fs, more := DecodeAll(input), DecodeAll(r.value.rest);
      assert fs == [r.value.frame] + more;
      forall i | 0 <= i < |fs| ensures WellFormed(fs[i]) {
        if i > 0 {
          assert fs[i] == more[i - 1];
        }
      }
    }
  }

  function LayoutAll(fs: seq<Frame>): seq<Byte>
    decreases |fs|
  {
    if fs == [] then [] else Layout(fs[0]) + LayoutAll(fs[1..])
  }

  /** Round trip for a whole stream of well-formed frames followed by bytes
      that do not form another frame. */
  lemma {:induction false} DecodeAllLayoutAll(fs: seq<Frame>, tail: seq<Byte>)
    requires forall i :: 0 <= i < |fs| ==> WellFormed(fs[i])
    requires Decode(tail).Err?
    ensures DecodeAll(LayoutAll(fs) + tail) == fs
    decreases |fs|
  {
    if fs != [] {
      AppendAssoc(Layout(fs[0]), LayoutAll(fs[1..]), tail);
      RoundTrip(fs[0], LayoutAll(fs[1..]) + tail);
      assert forall i :: 0 <= i < |fs[1..]| ==> WellFormed(fs[1..][i]) by {
        forall i | 0 <= i < |fs[1..]| ensures WellFormed(fs[1..][i]) {
          assert fs[1..][i] == fs[i + 1];
        }
      }
      DecodeAllLayoutAll(fs[1..], tail);
    }
  }

  // ---------------------------------------------------------------------------
  // The bytes the server writes
  // ---------------------------------------------------------------------------

  /** The SETTINGS frame written after a valid preface: empty, stream 0. */
  const InitialSettings: seq<Byte> := [0x00, 0x00, 0x00, 0x04, 0x00, 0x00, 0x00, 0x00, 0x00]

  /** The header block of the HEADERS response, opaque here: ten octets. */
  const ResponseHeaderBlock: seq<Byte> := [0x88, 0x0A, 0x00, 0x0A, 0x00, 0x00, 0x00, 0x00, 0x00, 0x0A]

  /** `Hello, H2!`. */
  const ResponseBody: seq<Byte> := [0x48, 0x65, 0x6c, 0x6c, 0x6f, 0x2c, 0x20, 0x48, 0x32, 0x21]

  /** The HEADERS response as written: END_HEADERS on the request's stream,
      declaring a length of 12 for its 10 octets of header block. */
  function HeadersResponse(streamId: nat): Frame
  {
    Frame(0x0C, 1, 4, streamId, ResponseHeaderBlock)
  }

  /** The DATA response: END_STREAM on the request's stream, `Hello, H2!`. */
  function DataResponse(streamId: nat): Frame
  {
    Frame(0x0A, 0, 1, streamId, ResponseBody)
  }

  /** The writes `handleFrame` makes for a frame: for HEADERS, the two
      responses; for anything else, nothing. */
  function Replies(f: Frame): (rs: seq<seq<Byte>>)
    ensures |rs| == if f.ftype == 1 then 2 else 0
    ensures f.ftype == 1 ==> |rs[0]| == FrameHeaderLen + |ResponseHeaderBlock| && |rs[1]| == FrameHeaderLen + |ResponseBody|
    ensures f.ftype == 1 ==> rs[0][3] == 1 && rs[0][4] == 4 && rs[0][FrameHeaderLen..] == ResponseHeaderBlock
    ensures f.ftype == 1 ==> rs[1][3] == 0 && rs[1][4] == 1 && rs[1][FrameHeaderLen..] == ResponseBody
  {
    if f.ftype == 1 then
      var h := Layout(HeadersResponse(f.streamId));
      var d := Layout(DataResponse(f.streamId));
      assert h[3] == 1 && h[4] == 4 && h[FrameHeaderLen..] == ResponseHeaderBlock;
      assert d[3] == 0 && d[4] == 1 && d[FrameHeaderLen..] == ResponseBody;
      [h, d]
    else []
  }

  function RepliesAll(fs: seq<Frame>): (rs: seq<seq<Byte>>)
    ensures |rs| <= 2 * |fs|
    decreases |fs|
  {
    if fs == [] then [] else Replies(fs[0]) + RepliesAll(fs[1..])
  }

  // ---------------------------------------------------------------------------
  // Effect on the connection
  // ---------------------------------------------------------------------------

  /** `handleFrame`: each `conn.Write` ignores its error. */
  function AfterFrame(w: Wire, f: Frame): (r: Wire)
    ensures r.input == w.input && w.output <= r.output
  {
    WriteAll(w, Replies(f))
  }

  /** Handling the frames `fs` one after the other, in the order they were read. */
  function AfterFrames(w: Wire, fs: seq<Frame>): (r: Wire)
    ensures r.input == w.input && w.output <= r.output
    decreases |fs|
  {
    if fs == [] then w else AfterFrames(AfterFrame(w, fs[0]), fs[1..])
  }

  /** The read loop: handle frames until `readFrame` fails, which leaves no
      input behind. */
  function AfterLoop(w: Wire): (r: Wire)
    ensures r.input == [] && w.output <= r.output
  {
    AfterFrames(w.(input := []), DecodeAll(w.input))
  }

  /** `handleConnection`: read the preface, write the SETTINGS frame (ignoring
      the error), run the read loop. It reads from the front of the input
      only: it stops right after the preface, or reads everything. */
  function AfterConnection(w: Wire): (r: Wire)
    ensures w.output <= r.output
    ensures r.input == [] || (|w.input| >= |ClientPreface| && r.input == w.input[|ClientPreface|..])
  {
    if |w.input| < |ClientPreface| then w.(input := [])
    else if w.input[..|ClientPreface|] != ClientPreface then w.(input := w.input[|ClientPreface|..])
    else AfterLoop(AfterWrite(w.(input := w.input[|ClientPreface|..]), InitialSettings))
  }

  // ---------------------------------------------------------------------------
  // Properties
  // ---------------------------------------------------------------------------

  /** Only a HEADERS frame produces output. */
  lemma OnlyHeadersAnswered(w: Wire, f: Frame)
    ensures AfterFrame(w, f) == w <==> f.ftype != 1 || w.writesLeft == 0
  {
    if f.ftype == 1 {
      WriteTwo(w, Layout(HeadersResponse(f.streamId)), Layout(DataResponse(f.streamId)));
    }
  }

  /** The SETTINGS bytes are the empty SETTINGS frame on stream 0. */
  lemma InitialSettingsFrame()
    ensures InitialSettings == Layout(Frame(0, 4, 0, 0, []))
    ensures WellFormed(Frame(0, 4, 0, 0, []))
  {
  }

  /** A HEADERS frame is answered, when the peer takes both writes, by the
      HEADERS bytes then the DATA bytes. */
  lemma HeadersAnswered(w: Wire, f: Frame)
    requires f.ftype == 1 && w.writesLeft >= 2
    ensures AfterFrame(w, f).output ==
            w.output + Layout(HeadersResponse(f.streamId)) + Layout(DataResponse(f.streamId))
  {
    WriteTwo(w, Layout(HeadersResponse(f.streamId)), Layout(DataResponse(f.streamId)));
  }

  /** The HEADERS response to a frame on stream s: type 1, flags END_HEADERS
      and s big-endian in bytes 5..8. */
  lemma HeadersResponseFields(streamId: nat)
    requires streamId < 0x1_0000_0000
    ensures var h := Layout(HeadersResponse(streamId));
            h[3] == 1 && h[4] == 4 && Be32(h[5], h[6], h[7], h[8]) == streamId
  {
    LayoutFields(HeadersResponse(streamId));
  }

  /** The DATA response to a frame on stream s: type 0, flags END_STREAM,
      s big-endian in bytes 5..8, and a declared length, 10, that is the
      length of the `Hello, H2!` that follows. */
  lemma DataResponseFields(streamId: nat)
    requires streamId < 0x1_0000_0000
    ensures var d := Layout(DataResponse(streamId));
            && d[3] == 0 && d[4] == 1 && Be32(d[5], d[6], d[7], d[8]) == streamId
            && Be24(d[0], d[1], d[2]) == |d[FrameHeaderLen..]| == 10
  {
    LayoutFields(DataResponse(streamId));
  }

  /** The DATA payload is the ASCII text `Hello, H2!`. */
  lemma ResponseBodyText()
    ensures ResponseBody == Ascii("Hello, H2!")
  {
  }

  /** Preface gate: unless the first 24 bytes are exactly the preface, nothing
      is written and no frame is read. */
  lemma PrefaceGate(w: Wire)
    requires |w.input| < |ClientPreface| || w.input[..|ClientPreface|] != ClientPreface
    ensures AfterConnection(w).output == w.output
    ensures AfterConnection(w).writesLeft == w.writesLeft
    ensures AfterConnection(w).input == if |w.input| < |ClientPreface| then [] else w.input[|ClientPreface|..]
  {
  }

  /** When the peer takes the writes, handling frames writes their replies in order. */
  lemma {:induction false} AfterFramesWrites(w: Wire, fs: seq<Frame>)
    requires w.writesLeft >= |RepliesAll(fs)|
    ensures AfterFrames(w, fs) ==
            w.(output := w.output + Concat(RepliesAll(fs)), writesLeft := w.writesLeft - |RepliesAll(fs)|)
    decreases |fs|
  {
    if fs != [] {
      var first, more := Replies(fs[0]), RepliesAll(fs[1..]);
      assert RepliesAll(fs) == first + more;
      WriteAllDelivers(w, first);
      AfterFramesWrites(AfterFrame(w, fs[0]), fs[1..]);
      ConcatAppend(first, more);
      AppendAssoc(w.output, Concat(first), Concat(more));
    }
  }

  /** After a valid preface the connection is the read loop over what
      follows, with the SETTINGS bytes written first. */
  lemma AfterValidPreface(w: Wire)
    requires |w.input| >= |ClientPreface| && w.input[..|ClientPreface|] == ClientPreface
    requires w.writesLeft >= 1
    ensures AfterConnection(w) ==
            AfterLoop(w.(input := w.input[|ClientPreface|..], output := w.output + InitialSettings,
                         writesLeft := w.writesLeft - 1))
  {
  }

  /** A whole connection whose writes all go through: after a valid preface the
      server writes the SETTINGS bytes, then the replies to every frame it
      reads, in order, and nothing else. */
  lemma ServesFrames(w: Wire)
    requires |w.input| >= |ClientPreface| && w.input[..|ClientPreface|] == ClientPreface
    requires w.writesLeft >= 1 + |RepliesAll(DecodeAll(w.input[|ClientPreface|..]))|
    ensures AfterConnection(w).output ==
            w.output + InitialSettings + Concat(RepliesAll(DecodeAll(w.input[|ClientPreface|..])))
  {
    var frames := w.input[|ClientPreface|..];
    var w1 := w.(input := frames, output := w.output + InitialSettings, writesLeft := w.writesLeft - 1);
    AfterValidPreface(w);
    AfterFramesWrites(w1.(input := []), DecodeAll(frames));
  }

  /** Handling a frame neither reads nor depends on the input still to come. */
  lemma AfterFrameInput(w: Wire, f: Frame, input: seq<Byte>)
    ensures AfterFrame(w.(input := input), f) == AfterFrame(w, f).(input := input)
  {
    WriteAllInput(w, Replies(f), input);
  }

  /** One turn of the read loop: a frame is read, then handled. */
  lemma LoopStep(w: Wire)
    requires Decode(w.input).Ok?
    ensures var d := Decode(w.input).value;
            AfterLoop(w) == AfterLoop(AfterFrame(w.(input := d.rest), d.frame))
  {
    var d := Decode(w.input).value;
    var fs := DecodeAll(w.input);
    assert fs == [d.frame] + DecodeAll(d.rest);
    assert fs[0] == d.frame && fs[1..] == DecodeAll(d.rest);
    AfterFrameInput(w, d.frame, []);
    AfterFrameInput(w, d.frame, d.rest);
  }

  /** At the end of the input the read loop does nothing more. */
  lemma LoopEnd(w: Wire)
    requires w.input == []
    ensures AfterLoop(w) == w
  {
    assert Decode([]).Err?;
  }

  // ---------------------------------------------------------------------------
  // The connection handler
  // ---------------------------------------------------------------------------

  /** `readFrame`. */
  method ReadFrame(c: Conn) returns (f: Option<Frame>)
    modifies c
    ensures f.Some? == Decode(old(c.input)).Ok?
    ensures f.Some? ==> f.value == Decode(old(c.input)).value.frame
    ensures c.State() == old(c.State()).(input := if f.Some? then Decode(old(c.input)).value.rest else [])
  {
    var header, ok := c.ReadFull(FrameHeaderLen);
    if !ok {
      return None;
    }
    var length := Be24(header[0], header[1], header[2]);
    var frameType := header[3];
    var flags := header[4];
    var streamId := Be32(header[5], header[6], header[7], header[8]);
    var payload;
    payload, ok := c.ReadFull(length);
    if !ok {
      return None;
    }
    f := Some(Frame(length, frameType, flags, streamId, payload));
  }

  /** `handleFrame`: only a HEADERS frame is answered, by two hand-built
      frames written one after the other. */
  method HandleFrame(c: Conn, f: Frame)
    modifies c
    ensures c.State() == AfterFrame(old(c.State()), f)
  {
    if f.ftype == 1 {
      var sid := f.streamId;
      var id := [(sid / 0x100_0000) % 0x100, (sid / 0x1_0000) % 0x100, (sid / 0x100) % 0x100, sid % 0x100];
      var response := [0x00, 0x00, 0x0C, 0x01, 0x04] + id +
                      [0x88, 0x0A, 0x00, 0x0A, 0x00, 0x00, 0x00, 0x00, 0x00, 0x0A];
      Be32BytesShifts(sid);
      assert response == Layout(HeadersResponse(sid));
      var _ := c.Write(response);
      var data := [0x00, 0x00, 0x0A, 0x00, 0x01] + id +
                  [0x48, 0x65, 0x6c, 0x6c, 0x6f, 0x2c, 0x20, 0x48, 0x32, 0x21];
      assert data == Layout(DataResponse(sid));
      var _ := c.Write(data);
      WriteTwo(old(c.State()), response, data);
    }
  }

  /** `handleConnection`, with each `handleFrame` run to completion before the
      next frame is read. */
  method HandleConnection(c: Conn)
    modifies c
    ensures c.State() == AfterConnection(old(c.State()))
  {
    var preface, ok := c.ReadFull(|ClientPreface|);
    if !ok || preface != ClientPreface {
      return;
    }
    var _ := c.Write([0x00, 0x00, 0x00, 0x04, 0x00, 0x00, 0x00, 0x00, 0x00]);
    while true
      invariant AfterLoop(c.State()) == AfterConnection(old(c.State()))
      decreases |c.input|
    {
      ghost var before := c.State();
      var frame := ReadFrame(c);
      if frame.None? {
        LoopEnd(c.State());
        return;
      }
      LoopStep(before);
      HandleFrame(c, frame.value);
    }
  }
}
