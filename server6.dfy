/** The TLS frame server of `6/main.go`: a `Frame` record with a codec
    (`readFrame`, `writeFrame`), the preface gate, the initial SETTINGS frame,
    and a read loop that answers SETTINGS with an ACK and HEADERS with a fixed
    HEADERS + DATA response. This is the only variant that masks the reserved
    bit of the stream id. */
module Server6 {
  import opened Bytes
  import opened Transport
  import Text

  const FrameHeaderLen: nat := 9

  /** `Frame` of 6/main.go. `length` is the declared length, kept apart from
      the payload exactly as the Go struct keeps it. */
  datatype Frame = Frame(length: U32, ftype: Byte, flags: Byte, streamId: U32, payload: seq<Byte>)

  /** A frame the wire format carries exactly: a 24-bit length that is the
      payload's length, and a 31-bit stream id. */
  predicate WellFormed(f: Frame)
  {
    f.length < 0x100_0000 && f.streamId < 0x8000_0000 && |f.payload| == f.length
  }

  // ---------------------------------------------------------------------------
  // Codec
  // ---------------------------------------------------------------------------

  /** The 9-byte header `writeFrame` builds: the length (24 bits), the type,
      the flags and the stream id with its reserved bit cleared. */
  function Header(f: Frame): (h: seq<Byte>)
    ensures |h| == FrameHeaderLen && h[3] == f.ftype && h[4] == f.flags
  {
    Be24Bytes(f.length) + [f.ftype, f.flags] + Be32Bytes(f.streamId % 0x8000_0000)
  }

  /** The header carries the length modulo 2^24 in octets 0..2 and the
      stream id with its reserved bit cleared (`StreamID & 0x7FFFFFFF`) in
      octets 5..8, so octet 5 never has its top bit set. */
  lemma HeaderFields(f: Frame)
    ensures var h := Header(f);
            && Be24(h[0], h[1], h[2]) == f.length % 0x100_0000
            && Be32(h[5], h[6], h[7], h[8]) == f.streamId % 0x8000_0000
            && h[5] < 0x80
  {
    var len := Be24Bytes(f.length);
    var id := f.streamId % 0x8000_0000;
    var sid := Be32Bytes(id);
    var h := Header(f);
    Be24OfBytes(f.length);
    Be32OfBytes(id);
    Be32BytesShifts(id);
    assert h[0] == len[0] && h[1] == len[1] && h[2] == len[2];
    assert h[5] == sid[0] && h[6] == sid[1] && h[7] == sid[2] && h[8] == sid[3];
  }

  /** The bytes `writeFrame` sends when both of its writes go through: the
      9-byte header, then the payload. */
  function Encode(f: Frame): (b: seq<Byte>)
    ensures |b| == FrameHeaderLen + |f.payload|
    ensures b[..FrameHeaderLen] == Header(f) && b[FrameHeaderLen..] == f.payload
  {
    Header(f) + f.payload
  }

  /** What `writeFrame` puts on the wire, for every frame: the length modulo
      2^24, the type, the flags, the stream id with its reserved bit cleared,
      then the payload. */
  lemma EncodeFields(f: Frame)
    ensures var b := Encode(f);
            && |b| == FrameHeaderLen + |f.payload|
            && Be24(b[0], b[1], b[2]) == f.length % 0x100_0000 && b[3] == f.ftype && b[4] == f.flags
            && Be32(b[5], b[6], b[7], b[8]) == f.streamId % 0x8000_0000 && b[5] < 0x80
            && b[FrameHeaderLen..] == f.payload
  {
    var b := Encode(f);
    var h := Header(f);
    HeaderFields(f);
    assert b[0] == h[0] && b[1] == h[1] && b[2] == h[2];
    assert b[5] == h[5] && b[6] == h[6] && b[7] == h[7] && b[8] == h[8];
  }

  /** The frames' encodings back to back. */
  function EncodeAll(fs: seq<Frame>): seq<Byte>
    decreases |fs|
  {
    if fs == [] then [] else Encode(fs[0]) + EncodeAll(fs[1..])
  }

  /** Why `readFrame` returns no frame: `io.ReadFull` failed on the header or
      on the payload. */
  datatype ReadError = HeaderTruncated | PayloadTruncated

  datatype Decoded = Decoded(frame: Frame, rest: seq<Byte>)

  datatype DecodeResult = Ok(value: Decoded) | Err(error: ReadError)

  /** The header as a reader sees it: the reserved top bit of byte 5 cleared. */
  function ClearReserved(h: seq<Byte>): seq<Byte>
    requires |h| == FrameHeaderLen
  {
    h[..5] + [h[5] % 0x80] + h[6..]
  }

  /** `readFrame` on the bytes `input` still to come. It fails without a frame
      when fewer than 9 header bytes, or fewer than the announced length of
      payload bytes, are there. Otherwise the frame it returns is well-formed,
      its payload is exactly the next `length` bytes, and the rest of the
      input is left for the next call. */
  function Decode(input: seq<Byte>): (r: DecodeResult)
    ensures r == Err(HeaderTruncated) <==> |input| < FrameHeaderLen
    ensures r == Err(PayloadTruncated) <==>
              FrameHeaderLen <= |input| < FrameHeaderLen + Be24(input[0], input[1], input[2])
    ensures r.Ok? ==>
              && WellFormed(r.value.frame)
              && input == input[..FrameHeaderLen] + r.value.frame.payload + r.value.rest
  {
    if |input| < FrameHeaderLen then Err(HeaderTruncated)
    else
      var length := Be24(input[0], input[1], input[2]);
      var streamId := Be32(input[5], input[6], input[7], input[8]) % 0x8000_0000;
      if |input| < FrameHeaderLen + length then Err(PayloadTruncated)
      else
        var f := Frame(length, input[3], input[4], streamId, input[FrameHeaderLen..FrameHeaderLen + length]);
        assert input == input[..FrameHeaderLen] + f.payload + input[FrameHeaderLen + length..];
        Ok(Decoded(f, input[FrameHeaderLen + length..]))
  }

  /** Re-encoding the fields read from a header gives the header back, with
      the reserved bit cleared. */
  lemma DecodedHeader(h: seq<Byte>)
    requires |h| == FrameHeaderLen
    ensures Header(Frame(Be24(h[0], h[1], h[2]), h[3], h[4], Be32(h[5], h[6], h[7], h[8]) % 0x8000_0000, []))
            == ClearReserved(h)
  {
    var streamId := Be32(h[5], h[6], h[7], h[8]) % 0x8000_0000;
    Be32ClearTop(h[5], h[6], h[7], h[8]);
    assert streamId % 0x8000_0000 == streamId;
    BytesOfBe24(h[0], h[1], h[2]);
    BytesOfBe32(h[5] % 0x80, h[6], h[7], h[8]);
    var g := Header(Frame(Be24(h[0], h[1], h[2]), h[3], h[4], streamId, []));
    assert g == [h[0], h[1], h[2]] + [h[3], h[4]] + [h[5] % 0x80, h[6], h[7], h[8]];
    assert ClearReserved(h) == [h[0], h[1], h[2], h[3], h[4]] + [h[5] % 0x80] + [h[6], h[7], h[8]];
  }

  /** A frame `readFrame` returns re-encodes to the header it was read from,
      with the reserved bit cleared. */
  lemma DecodeReencodes(input: seq<Byte>)
    requires Decode(input).Ok?
    ensures Header(Decode(input).value.frame) == ClearReserved(input[..FrameHeaderLen])
  {
    DecodedHeader(input[..FrameHeaderLen]);
  }

  /** Every frame `readFrame` returns, in order, until the first failure:
      none when the first read fails, and otherwise the one the first read
      returns followed by the rest. */
  function DecodeAll(input: seq<Byte>): (fs: seq<Frame>)
    ensures fs == [] <==> Decode(input).Err?
    ensures fs != [] ==> fs[0] == Decode(input).value.frame
    decreases |input|
  {
    match Decode(input)
    case Err(_) => []
    case Ok(d) => [d.frame] + DecodeAll(d.rest)
  }

  /** Every frame the read loop gets is well-formed. */
  lemma {:induction false} DecodeAllWellFormed(input: seq<Byte>)
    ensures forall i :: 0 <= i < |DecodeAll(input)| ==> WellFormed(DecodeAll(input)[i])
    decreases |input|
  {
    var r := Decode(input);
    if r.Ok? {
      DecodeAllWellFormed(r.value.rest);
      var fs, more := DecodeAll(input), DecodeAll(r.value.rest);
      assert fs == [r.value.frame] + more;
      forall i | 0 <= i < |fs| ensures WellFormed(fs[i]) {
        if i > 0 {
          assert fs[i] == more[i - 1];
        }
      }
    }
  }

  /** Decoding a header followed by exactly as many payload bytes as it
      announces. */
  lemma DecodeOfParts(input: seq<Byte>, h: seq<Byte>, payload: seq<Byte>, rest: seq<Byte>, length: U32, streamId: U32)
    requires input == h + payload + rest
    requires |h| == FrameHeaderLen && Be24(h[0], h[1], h[2]) == length == |payload|
    requires Be32(h[5], h[6], h[7], h[8]) % 0x8000_0000 == streamId
    ensures Decode(input) == Ok(Decoded(Frame(length, h[3], h[4], streamId, payload), rest))
  {
    assert input[..FrameHeaderLen] == h;
    assert input[FrameHeaderLen..FrameHeaderLen + length] == payload;
    assert input[FrameHeaderLen + length..] == rest;
  }

  /** Round trip: reading back what `writeFrame` sent gives the same frame and
      leaves whatever followed it untouched. */
  lemma RoundTrip(f: Frame, rest: seq<Byte>)
    requires WellFormed(f)
    ensures Decode(Encode(f) + rest) == Ok(Decoded(f, rest))
  {
    HeaderFields(f);
    var h := Header(f);
    DivModUnique(f.streamId, 0x8000_0000, 0, f.streamId);
    DecodeOfParts(Encode(f) + rest, h, f.payload, rest, f.length, f.streamId);
  }

  /** One step of the read loop: a well-formed frame written in front of more
      bytes is read back first, and the loop goes on with those bytes. */
  lemma DecodeAllEncodeCons(f: Frame, more: seq<Byte>, tail: seq<Byte>)
    requires WellFormed(f)
    ensures DecodeAll(Encode(f) + more + tail) == [f] + DecodeAll(more + tail)
  {
    AppendAssoc(Encode(f), more, tail);
    RoundTrip(f, more + tail);
  }

  /** Round trip for a whole stream of well-formed frames followed by bytes
      that do not form another frame. */
  lemma {:induction false} DecodeAllEncodeAll(fs: seq<Frame>, tail: seq<Byte>)
    requires forall i :: 0 <= i < |fs| ==> WellFormed(fs[i])
    requires Decode(tail).Err?
    ensures DecodeAll(EncodeAll(fs) + tail) == fs
    decreases |fs|
  {
    if fs != [] {
      var more := EncodeAll(fs[1..]);
      assert DecodeAll(EncodeAll(fs) + tail) == [fs[0]] + DecodeAll(more + tail) by {
        assert EncodeAll(fs) == Encode(fs[0]) + more;
        DecodeAllEncodeCons(fs[0], more, tail);
      }
      assert DecodeAll(more + tail) == fs[1..] by {
        DecodeAllEncodeAll(fs[1..], tail);
      }
      assert fs == [fs[0]] + fs[1..];
    }
  }

  /** Any 32-bit stream id `readFrame` returns is below 2^31, whatever the
      reserved bit on the wire. */
  lemma DecodedStreamId(input: seq<Byte>)
    requires Decode(input).Ok?
    ensures Decode(input).value.frame.streamId < 0x8000_0000
    ensures Decode(input).value.frame.streamId == Be32(input[5] % 0x80, input[6], input[7], input[8])
  {
    Be32ClearTop(input[5], input[6], input[7], input[8]);
  }

  // ---------------------------------------------------------------------------
  // Effect of the writes on the connection
  // ---------------------------------------------------------------------------

  /** `writeFrame`: the header in one `Write`, then, only if that succeeded,
      the payload in a second one; it reports success when both succeeded. */
  function AfterWriteFrame(w: Wire, f: Frame): (r: (Wire, bool))
    ensures r.0.input == w.input
    ensures r.1 == (w.writesLeft >= 2)
    ensures r.1 ==> r.0 == w.(output := w.output + Encode(f), writesLeft := w.writesLeft - 2)
    ensures !r.1 ==> r.0.writesLeft == 0 && w.output <= r.0.output
  {
    var w1 := AfterWrite(w, Header(f));
    if !CanWrite(w) then (w1, false)
    else (AfterWrite(w1, f.payload), CanWrite(w1))
  }

  /** The empty SETTINGS frame sent after a valid preface. */
  const InitialSettings: Frame := Frame(0, 4, 0, 0, [])

  /** The empty SETTINGS frame with the ACK flag. */
  const SettingsAck: Frame := Frame(0, 4, 1, 0, [])

  /** The pre-encoded header block of the response: `:status: 200` followed by a
      `content-type: text/plain; charset=utf-8` literal. Opaque here. */
  const ResponseHeaderBlock: seq<Byte> :=
    [0x88, 0x40, 0x0c,
     0x74, 0x65, 0x78, 0x74, 0x2f, 0x70, 0x6c, 0x61, 0x69, 0x6e, 0x3b, 0x20,
     0x63, 0x68, 0x61, 0x72, 0x73, 0x65, 0x74, 0x3d, 0x75, 0x74, 0x66, 0x2d, 0x38]

  const ResponseBody: seq<Byte> := Ascii("Hello, HTTP/2!")

  /** The HEADERS half of the response: END_HEADERS, on the request's stream. */
  function HeadersResponse(streamId: U32): Frame
  {
    Frame(|ResponseHeaderBlock|, 1, 4, streamId, ResponseHeaderBlock)
  }

  /** The DATA half of the response: END_STREAM, on the request's stream. */
  function DataResponse(streamId: U32): Frame
  {
    Frame(|ResponseBody|, 0, 1, streamId, ResponseBody)
  }

  /** `sendSimpleResponse`: HEADERS then DATA; the DATA frame is not attempted
      when writing the HEADERS frame failed. */
  function AfterSimpleResponse(w: Wire, streamId: U32): (r: Wire)
    ensures r.input == w.input && w.output <= r.output
  {
    var headers := AfterWriteFrame(w, HeadersResponse(streamId));
    if !headers.1 then headers.0 else AfterWriteFrame(headers.0, DataResponse(streamId)).0
  }

  /** The `switch frame.Type` of the read loop. */
  function AfterFrame(w: Wire, f: Frame): (r: Wire)
    ensures r.input == w.input && w.output <= r.output
  {
    if f.ftype == 1 then AfterSimpleResponse(w, f.streamId)
    else if f.ftype == 4 then
      (if f.flags % 2 == 0 then AfterWriteFrame(w, SettingsAck).0 else w)
    else w
  }

  /** Handling the frames `fs` one after the other. */
  function AfterFrames(w: Wire, fs: seq<Frame>): (r: Wire)
    ensures r.input == w.input && w.output <= r.output
    decreases |fs|
  {
    if fs == [] then w else AfterFrames(AfterFrame(w, fs[0]), fs[1..])
  }

  /** The read loop: handle frames until `readFrame` fails, which leaves no
      input behind. */
  function AfterLoop(w: Wire): (r: Wire)
    ensures r.input == []
  {
    AfterFrames(w.(input := []), DecodeAll(w.input))
  }

  /** Handling a frame neither reads nor depends on the input still to come. */
  lemma AfterFrameInput(w: Wire, f: Frame, input: seq<Byte>)
    ensures AfterFrame(w.(input := input), f) == AfterFrame(w, f).(input := input)
  {
  }

  /** One turn of the read loop: a frame is read, then handled. */
  lemma LoopStep(w: Wire)
    requires Decode(w.input).Ok?
    ensures var d := Decode(w.input).value;
            AfterLoop(w) == AfterLoop(AfterFrame(w.(input := d.rest), d.frame))
  {
    var d := Decode(w.input).value;
    var fs := DecodeAll(w.input);
    assert fs == [d.frame] + DecodeAll(d.rest);
    assert fs[0] == d.frame && fs[1..] == DecodeAll(d.rest);
    AfterFrameInput(w, d.frame, []);
    AfterFrameInput(w, d.frame, d.rest);
  }

  /** At the end of the input the read loop does nothing more. */
  lemma LoopEnd(w: Wire)
    requires w.input == []
    ensures AfterLoop(w) == w
  {
    assert Decode([]).Err?;
  }

  /** `handleConnection`: read the preface, send the initial SETTINGS frame,
      run the read loop. It reads from the front of the input only: it stops
      right after the preface, or reads everything. */
  function AfterConnection(w: Wire): (r: Wire)
    ensures w.output <= r.output
    ensures r.input == [] || (|w.input| >= |ClientPreface| && r.input == w.input[|ClientPreface|..])
  {
    if |w.input| < |ClientPreface| then w.(input := [])
    else if w.input[..|ClientPreface|] != ClientPreface then w.(input := w.input[|ClientPreface|..])
    else
      var settings := AfterWriteFrame(w.(input := w.input[|ClientPreface|..]), InitialSettings);
      if !settings.1 then settings.0 else AfterLoop(settings.0)
  }

  // ---------------------------------------------------------------------------
  // The frames written, as a reference independent of the connection
  // ---------------------------------------------------------------------------

  /** The frames the server answers one frame with: HEADERS and DATA on the
      frame's own stream for HEADERS, one ACK on stream 0 for SETTINGS
      without ACK, none for anything else. */
  function Replies(f: Frame): (rs: seq<Frame>)
    ensures |rs| == if f.ftype == 1 then 2 else if f.ftype == 4 && f.flags % 2 == 0 then 1 else 0
    ensures forall i :: 0 <= i < |rs| ==> rs[i].streamId == if f.ftype == 1 then f.streamId else 0
    ensures f.streamId < 0x8000_0000 ==> forall i :: 0 <= i < |rs| ==> WellFormed(rs[i])
  {
    if f.ftype == 1 then [HeadersResponse(f.streamId), DataResponse(f.streamId)]
    else if f.ftype == 4 && f.flags % 2 == 0 then [SettingsAck]
    else []
  }

  /** The frames the server answers a sequence of frames with, in order: at
      most two per frame. */
  function RepliesAll(fs: seq<Frame>): (rs: seq<Frame>)
    ensures |rs| <= 2 * |fs|
    decreases |fs|
  {
    if fs == [] then [] else Replies(fs[0]) + RepliesAll(fs[1..])
  }

  lemma EncodeAllAppend(a: seq<Frame>, b: seq<Frame>)
    ensures EncodeAll(a + b) == EncodeAll(a) + EncodeAll(b)
    decreases |a|
  {
    if a != [] {
      assert (a + b)[0] == a[0] && (a + b)[1..] == a[1..] + b;
      EncodeAllAppend(a[1..], b);
    } else {
      assert a + b == b;
    }
  }

  lemma EncodeAllCons(f: Frame, fs: seq<Frame>)
    ensures EncodeAll([f] + fs) == Encode(f) + EncodeAll(fs)
  {
    assert ([f] + fs)[0] == f && ([f] + fs)[1..] == fs;
  }

  /** When the peer accepts the writes, handling a frame writes exactly the
      encodings of its replies, two write calls per reply. */
  lemma AfterFrameWrites(w: Wire, f: Frame)
    requires w.writesLeft >= 2 * |Replies(f)|
    ensures AfterFrame(w, f) ==
            w.(output := w.output + EncodeAll(Replies(f)), writesLeft := w.writesLeft - 2 * |Replies(f)|)
  {
    if f.ftype == 1 {
      var h, d := HeadersResponse(f.streamId), DataResponse(f.streamId);
      assert [h, d][1..] == [d];
      assert EncodeAll([d]) == Encode(d);
      assert EncodeAll(Replies(f)) == Encode(h) + Encode(d);
    } else if f.ftype == 4 && f.flags % 2 == 0 {
      assert EncodeAll([SettingsAck]) == Encode(SettingsAck);
    }
  }

  /** When the peer accepts the writes, handling frames writes exactly their
      replies, in order. */
  lemma {:induction false} AfterFramesWrites(w: Wire, fs: seq<Frame>)
    requires w.writesLeft >= 2 * |RepliesAll(fs)|
    ensures AfterFrames(w, fs) ==
            w.(output := w.output + EncodeAll(RepliesAll(fs)), writesLeft := w.writesLeft - 2 * |RepliesAll(fs)|)
    decreases |fs|
  {
    if fs != [] {
      var first, more := Replies(fs[0]), RepliesAll(fs[1..]);
      assert RepliesAll(fs) == first + more;
      AfterFrameWrites(w, fs[0]);
      AfterFramesWrites(AfterFrame(w, fs[0]), fs[1..]);
      EncodeAllAppend(first, more);
      AppendAssoc(w.output, EncodeAll(first), EncodeAll(more));
    }
  }

  /** When the peer accepts the writes, the read loop writes exactly the
      replies to every frame it can decode, in order. */
  lemma AfterLoopWrites(w: Wire)
    requires w.writesLeft >= 2 * |RepliesAll(DecodeAll(w.input))|
    ensures AfterLoop(w) ==
            w.(input := [], output := w.output + EncodeAll(RepliesAll(DecodeAll(w.input))),
               writesLeft := w.writesLeft - 2 * |RepliesAll(DecodeAll(w.input))|)
  {
    AfterFramesWrites(w.(input := []), DecodeAll(w.input));
  }

  /** After a valid preface whose SETTINGS frame goes out, the connection is
      the read loop over the bytes that follow the preface. */
  lemma AfterValidPreface(w: Wire)
    requires |w.input| >= |ClientPreface| && w.input[..|ClientPreface|] == ClientPreface
    requires w.writesLeft >= 2
    ensures AfterConnection(w) ==
            AfterLoop(w.(input := w.input[|ClientPreface|..], output := w.output + Encode(InitialSettings),
                         writesLeft := w.writesLeft - 2))
  {
    var w0 := w.(input := w.input[|ClientPreface|..]);
    var settings := AfterWriteFrame(w0, InitialSettings);
    assert AfterConnection(w) == AfterLoop(settings.0) by {
      assert settings.1;
    }
    assert settings.0 == w0.(output := w0.output + Encode(InitialSettings), writesLeft := w0.writesLeft - 2);
  }

  /** Preface gate: unless the first 24 bytes are exactly the preface, nothing
      is written and no frame is read. */
  lemma PrefaceGate(w: Wire)
    requires |w.input| < |ClientPreface| || w.input[..|ClientPreface|] != ClientPreface
    ensures AfterConnection(w).output == w.output
    ensures AfterConnection(w).writesLeft == w.writesLeft
    ensures AfterConnection(w).input == if |w.input| < |ClientPreface| then [] else w.input[|ClientPreface|..]
  {
  }

  /** After a valid preface the first bytes written are the empty SETTINGS
      frame on stream 0: `00 00 00 04 00 00 00 00 00`. */
  lemma FirstFrameIsSettings(w: Wire)
    requires |w.input| >= |ClientPreface| && w.input[..|ClientPreface|] == ClientPreface
    requires w.writesLeft >= 1
    ensures w.output + [0, 0, 0, 4, 0, 0, 0, 0, 0] <= AfterConnection(w).output
  {
    var w1 := AfterWriteFrame(w.(input := w.input[|ClientPreface|..]), InitialSettings).0;
    assert Encode(InitialSettings) == [0, 0, 0, 4, 0, 0, 0, 0, 0];
  }

  /** A whole connection whose writes all go through: after a valid preface
      the server writes the initial SETTINGS frame and then the replies to
      every frame it reads, and nothing else. */
  lemma ServesFrames(w: Wire)
    requires |w.input| >= |ClientPreface| && w.input[..|ClientPreface|] == ClientPreface
    requires w.writesLeft >= 2 + 2 * |RepliesAll(DecodeAll(w.input[|ClientPreface|..]))|
    ensures AfterConnection(w).output ==
            w.output + EncodeAll([InitialSettings] + RepliesAll(DecodeAll(w.input[|ClientPreface|..])))
  {
    var frames := w.input[|ClientPreface|..];
    var w1 := w.(input := frames, output := w.output + Encode(InitialSettings), writesLeft := w.writesLeft - 2);
    AfterValidPreface(w);
    AfterLoopWrites(w1);
    EncodeAllCons(InitialSettings, RepliesAll(DecodeAll(frames)));
    AppendAssoc(w.output, Encode(InitialSettings), EncodeAll(RepliesAll(DecodeAll(frames))));
  }

  /** A SETTINGS frame without ACK is answered by exactly one frame, the empty
      SETTINGS ACK on stream 0: `00 00 00 04 01 00 00 00 00`. */
  lemma SettingsAcked(w: Wire, f: Frame)
    requires f.ftype == 4 && f.flags % 2 == 0 && w.writesLeft >= 2
    ensures Replies(f) == [SettingsAck]
    ensures AfterFrame(w, f).output == w.output + [0, 0, 0, 4, 1, 0, 0, 0, 0]
  {
    assert Encode(SettingsAck) == [0, 0, 0, 4, 1, 0, 0, 0, 0];
  }

  /** A SETTINGS frame with ACK, a WINDOW_UPDATE frame, a DATA frame and any
      frame of an unknown type are answered with nothing. */
  lemma OthersIgnored(w: Wire, f: Frame)
    requires f.ftype != 1 && !(f.ftype == 4 && f.flags % 2 == 0)
    ensures Replies(f) == [] && AfterFrame(w, f) == w
  {
  }

  /** A HEADERS frame on stream s is answered by HEADERS (END_HEADERS, stream
      s, the 28-byte header block) followed by DATA (END_STREAM, stream s,
      `Hello, HTTP/2!`); each declares its payload's true length. */
  lemma HeadersAnswered(w: Wire, f: Frame)
    requires f.ftype == 1 && w.writesLeft >= 4
    ensures AfterFrame(w, f).output ==
            w.output + Encode(HeadersResponse(f.streamId)) + Encode(DataResponse(f.streamId))
    ensures var h := HeadersResponse(f.streamId);
            h.ftype == 1 && h.flags == 4 && h.streamId == f.streamId && h.length == |h.payload| == 28
    ensures var d := DataResponse(f.streamId);
            d.ftype == 0 && d.flags == 1 && d.streamId == f.streamId && d.length == |d.payload| == 14
            && d.payload == Ascii("Hello, HTTP/2!")
  {
  }

  // ---------------------------------------------------------------------------
  // parseHeaders
  // ---------------------------------------------------------------------------

  /** The map after storing the first `n` (name, value) pairs of `parts`. */
  function PairsMap(parts: seq<seq<Byte>>, n: nat): map<seq<Byte>, seq<Byte>>
    requires 2 * n <= |parts|
    decreases n
  {
    if n == 0 then map[] else PairsMap(parts, n - 1)[parts[2 * n - 2] := parts[2 * n - 1]]
  }

  /** Names and values are parts, so they hold no NUL when no part does. */
  lemma {:induction false} PairsMapNulFree(parts: seq<seq<Byte>>, n: nat)
    requires 2 * n <= |parts|
    requires forall i :: 0 <= i < |parts| ==> 0 !in parts[i]
    ensures forall k :: k in PairsMap(parts, n) ==> 0 !in k && 0 !in PairsMap(parts, n)[k]
    decreases n
  {
    if n > 0 {
      PairsMapNulFree(parts, n - 1);
    }
  }

  /** What `parseHeaders` returns for the NUL-separated parts of a payload. */
  function HeaderMap(payload: seq<Byte>): (headers: map<seq<Byte>, seq<Byte>>)
    ensures forall k :: k in headers ==> 0 !in k && 0 !in headers[k]
  {
    var parts := Text.Split(payload, 0);
    PairsMapNulFree(parts, |parts| / 2);
    PairsMap(parts, |parts| / 2)
  }

  /** Index `j` holds the last complete pair among the first `n` whose name is `k`. */
  ghost predicate LastPairAt(parts: seq<seq<Byte>>, n: nat, j: nat, k: seq<Byte>)
    requires 2 * n <= |parts|
  {
    j < 2 * n && j % 2 == 0 && parts[j] == k
    && forall j' :: j < j' < 2 * n && j' % 2 == 0 ==> parts[j'] != k
  }

  /** A name is in the map iff some complete pair starts with it, and its value
      is the one paired with it last: a trailing unpaired part is dropped and a
      repeated name keeps its latest value. */
  lemma {:induction false} PairsMapSpec(parts: seq<seq<Byte>>, n: nat, k: seq<Byte>)
    requires 2 * n <= |parts|
    ensures k in PairsMap(parts, n) <==> exists j :: 0 <= j < 2 * n && j % 2 == 0 && parts[j] == k
    ensures k in PairsMap(parts, n) ==>
              exists j: nat :: LastPairAt(parts, n, j, k) && PairsMap(parts, n)[k] == parts[j + 1]
    decreases n
  {
    if n > 0 {
      PairsMapSpec(parts, n - 1, k);
      if parts[2 * n - 2] == k {
        assert LastPairAt(parts, n, 2 * n - 2, k);
      } else if k in PairsMap(parts, n - 1) {
        var j: nat :| LastPairAt(parts, n - 1, j, k) && PairsMap(parts, n - 1)[k] == parts[j + 1];
        assert LastPairAt(parts, n, j, k);
      }
    }
  }

  /** `parseHeaders`: split the payload on NUL and store `parts[i] -> parts[i+1]`
      for `i = 0, 2, 4, ...` while `i < len(parts) - 1`. */
  method ParseHeaders(payload: seq<Byte>) returns (headers: map<seq<Byte>, seq<Byte>>)
    ensures headers == HeaderMap(payload)
  {
    headers := map[];
    var parts := Text.Split(payload, 0);
    var i := 0;
    ghost var n := 0;
    while i < |parts| - 1
      invariant 0 <= i <= |parts| && i == 2 * n
      invariant headers == PairsMap(parts, n)
      invariant i >= |parts| - 1 ==> n == |parts| / 2
    {
      headers := headers[parts[i] := parts[i + 1]];
      i, n := i + 2, n + 1;
    }
  }

  // ---------------------------------------------------------------------------
  // The connection handler
  // ---------------------------------------------------------------------------

  /** `readFrame`. */
  method ReadFrame(c: Conn) returns (f: Option<Frame>)
    modifies c
    ensures f.Some? == Decode(old(c.input)).Ok?
    ensures f.Some? ==> f.value == Decode(old(c.input)).value.frame
    ensures c.State() == old(c.State()).(input := if f.Some? then Decode(old(c.input)).value.rest else [])
  {
    var header, ok := c.ReadFull(FrameHeaderLen);
    if !ok {
      return None;
    }
    var length := Be24(header[0], header[1], header[2]);
    var frameType := header[3];
    var flags := header[4];
    var streamId := Be32(header[5], header[6], header[7], header[8]) % 0x8000_0000;
    var payload;
    payload, ok := c.ReadFull(length);
    if !ok {
      return None;
    }
    f := Some(Frame(length, frameType, flags, streamId, payload));
  }

  /** `writeFrame`: fill the 9-byte header by index, then write it and the payload. */
  method WriteFrame(c: Conn, f: Frame) returns (ok: bool)
    modifies c
    ensures (c.State(), ok) == AfterWriteFrame(old(c.State()), f)
  {
    var header := new Byte[FrameHeaderLen];
    header[0] := (f.length / 0x1_0000) % 0x100;
    header[1] := (f.length / 0x100) % 0x100;
    header[2] := f.length % 0x100;
    header[3] := f.ftype;
    header[4] := f.flags;
    var streamId := f.streamId % 0x8000_0000;
    header[5] := (streamId / 0x100_0000) % 0x100;
    header[6] := (streamId / 0x1_0000) % 0x100;
    header[7] := (streamId / 0x100) % 0x100;
    header[8] := streamId % 0x100;
    Be24BytesShifts(f.length);
    Be32BytesShifts(streamId);
    assert header[..] == Header(f);
    ok := c.Write(header[..]);
    if !ok {
      return;
    }
    ok := c.Write(f.payload);
  }

  /** `sendSimpleResponse`. */
  method SendSimpleResponse(c: Conn, streamId: U32)
    modifies c
    ensures c.State() == AfterSimpleResponse(old(c.State()), streamId)
  {
    var ok := WriteFrame(c, HeadersResponse(streamId));
    if !ok {
      return;
    }
    ok := WriteFrame(c, DataResponse(streamId));
  }

  /** `handleConnection`. */
  method HandleConnection(c: Conn)
    modifies c
    ensures c.State() == AfterConnection(old(c.State()))
  {
    var preface, ok := c.ReadFull(|ClientPreface|);
    if !ok || preface != ClientPreface {
      return;
    }
    ok := WriteFrame(c, InitialSettings);
    if !ok {
      return;
    }
    while true
      invariant AfterLoop(c.State()) == AfterConnection(old(c.State()))
      decreases |c.input|
    {
      ghost var before := c.State();
      var frame := ReadFrame(c);
      if frame.None? {
        LoopEnd(c.State());
        break;
      }
      LoopStep(before);
      var f := frame.value;
      if f.ftype == 1 {
        var headers := ParseHeaders(f.payload);
        SendSimpleResponse(c, f.streamId);
      } else if f.ftype == 4 {
        if f.flags % 2 == 0 {
          var acked := WriteFrame(c, SettingsAck);
        }
      }
      assert c.State() == AfterFrame(before.(input := Decode(before.input).value.rest), f);
    }
  }
}
