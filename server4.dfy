/** The TLS server of `4/s/main.go`: the preface gate, a hand-built SETTINGS
    frame, and a read loop that parses each frame header inline (the same
    layout `readFrame` of 3/main.go reads) and answers a HEADERS frame with
    one DATA frame, built byte by byte into a buffer. */
module Server4 {
  import opened Bytes
  import opened Transport
  import Server3

  /** The SETTINGS frame written after a valid preface, as written: it declares
      a length of 18 (0x12) and carries two 5-octet entries. */
  const Settings: seq<Byte> :=
    [0x00, 0x00, 0x12, 0x04, 0x00, 0x00, 0x00, 0x00, 0x00,
     0x00, 0x03, 0x00, 0x00, 0x01,
     0x00, 0x04, 0x00, 0x00, 0x80]

  /** `Hello, HTTP/2 with multiplexing!`. */
  const Body: seq<Byte> :=
    [0x48, 0x65, 0x6c, 0x6c, 0x6f, 0x2c, 0x20, 0x48, 0x54, 0x54, 0x50, 0x2f, 0x32, 0x20, 0x77, 0x69,
     0x74, 0x68, 0x20, 0x6d, 0x75, 0x6c, 0x74, 0x69, 0x70, 0x6c, 0x65, 0x78, 0x69, 0x6e, 0x67, 0x21]

  /** The DATA frame carrying `data` on a stream: END_STREAM, declaring the
      length of `data`. */
  function DataFrame(streamId: nat, data: seq<Byte>): (f: Server3.Frame)
    ensures |data| < 0x100_0000 && streamId < 0x1_0000_0000 ==>
      Server3.Decode(Server3.Layout(f)) == Server3.Ok(Server3.Decoded(f, []))
  {
    var f := Server3.Frame(|data|, 0, 1, streamId, data);
    if |data| < 0x100_0000 && streamId < 0x1_0000_0000 then
      Server3.RoundTrip(f, []);
      assert Server3.Layout(f) + [] == Server3.Layout(f);
      f
    else f
  }

  /** The writes made for one frame read: for HEADERS, the DATA frame with
      `Body`; for anything else, nothing. */
  function Replies(f: Server3.Frame): (rs: seq<seq<Byte>>)
    ensures |rs| == if f.ftype == 1 then 1 else 0
    ensures f.ftype == 1 ==> |rs[0]| == Server3.FrameHeaderLen + |Body|
    ensures f.ftype == 1 ==> rs[0][3] == 0 && rs[0][4] == 1 && rs[0][Server3.FrameHeaderLen..] == Body
  {
    if f.ftype == 1 then
      var d := Server3.Layout(DataFrame(f.streamId, Body));
      assert d[3] == 0 && d[4] == 1 && d[Server3.FrameHeaderLen..] == Body;
      [d]
    else []
  }

  function RepliesAll(fs: seq<Server3.Frame>): (rs: seq<seq<Byte>>)
    ensures |rs| <= |fs|
    decreases |fs|
  {
    if fs == [] then [] else Replies(fs[0]) + RepliesAll(fs[1..])
  }

  // ---------------------------------------------------------------------------
  // Effect on the connection
  // ---------------------------------------------------------------------------

  /** Handling one frame; `conn.Write` ignores its error. */
  function AfterFrame(w: Wire, f: Server3.Frame): (r: Wire)
    ensures r.input == w.input && w.output <= r.output
  {
    WriteAll(w, Replies(f))
  }

  /** Handling frames one after the other, in the order they were read; it
      only ever appends to the output. */
  function AfterFrames(w: Wire, fs: seq<Server3.Frame>): (r: Wire)
    ensures r.input == w.input && w.output <= r.output
    decreases |fs|
  {
    if fs == [] then w else AfterFrames(AfterFrame(w, fs[0]), fs[1..])
  }

  /** The read loop: parse and handle frames until a read fails, which leaves
      no input behind. */
  function AfterLoop(w: Wire): (r: Wire)
    ensures r.input == [] && w.output <= r.output
  {
    AfterFrames(w.(input := []), Server3.DecodeAll(w.input))
  }

  /** `handleConnection`: read the preface, write the SETTINGS frame (ignoring
      the error), run the read loop. It reads from the front of the input
      only: it stops right after the preface, or reads everything. */
  function AfterConnection(w: Wire): (r: Wire)
    ensures w.output <= r.output
    ensures r.input == [] || (|w.input| >= |ClientPreface| && r.input == w.input[|ClientPreface|..])
  {
    if |w.input| < |ClientPreface| then w.(input := [])
    else if w.input[..|ClientPreface|] != ClientPreface then w.(input := w.input[|ClientPreface|..])
    else AfterLoop(AfterWrite(w.(input := w.input[|ClientPreface|..]), Settings))
  }

  // ---------------------------------------------------------------------------
  // Properties
  // ---------------------------------------------------------------------------

  /** Preface gate: a failed read or a mismatched preface returns before any write. */
  lemma PrefaceGate(w: Wire)
    requires |w.input| < |ClientPreface| || w.input[..|ClientPreface|] != ClientPreface
    ensures AfterConnection(w).output == w.output
    ensures AfterConnection(w).writesLeft == w.writesLeft
    ensures AfterConnection(w).input == if |w.input| < |ClientPreface| then [] else w.input[|ClientPreface|..]
  {
  }

  /** The first frame written has type SETTINGS, flags 0 and stream 0. */
  lemma SettingsFields()
    ensures Settings[3] == 4 && Settings[4] == 0 && Be32(Settings[5], Settings[6], Settings[7], Settings[8]) == 0
  {
  }

  /** After a valid preface the connection is the read loop over what follows,
      with the SETTINGS bytes written first. */
  lemma AfterValidPreface(w: Wire)
    requires |w.input| >= |ClientPreface| && w.input[..|ClientPreface|] == ClientPreface
    requires w.writesLeft >= 1
    ensures AfterConnection(w) ==
            AfterLoop(w.(input := w.input[|ClientPreface|..], output := w.output + Settings,
                         writesLeft := w.writesLeft - 1))
  {
  }

  /** After a valid preface the first bytes written are the SETTINGS frame. */
  lemma FirstWriteIsSettings(w: Wire)
    requires |w.input| >= |ClientPreface| && w.input[..|ClientPreface|] == ClientPreface
    requires w.writesLeft >= 1
    ensures w.output + Settings <= AfterConnection(w).output
  {
    AfterValidPreface(w);
  }

  /** A HEADERS frame is answered by one write of its DATA frame; any other
      frame leaves the connection as it is. */
  lemma AnswerFrame(w: Wire, f: Server3.Frame)
    ensures AfterFrame(w, f) == if f.ftype == 1 then AfterWrite(w, Server3.Layout(DataFrame(f.streamId, Body))) else w
  {
    if f.ftype == 1 {
      WriteOne(w, Server3.Layout(DataFrame(f.streamId, Body)));
    }
  }

  /** Only a HEADERS frame produces a write. */
  lemma OnlyHeadersAnswered(w: Wire, f: Server3.Frame)
    ensures AfterFrame(w, f) == w <==> f.ftype != 1 || w.writesLeft == 0
  {
    if f.ftype == 1 {
      WriteOne(w, Server3.Layout(DataFrame(f.streamId, Body)));
    }
  }

  /** The DATA frame answering stream s: its size is 9 plus the length of the
      data, its header is the data's length (24 bits), type 0, flags
      END_STREAM and s big-endian, and from offset 9 on it is the data. */
  lemma DataFrameFields(streamId: nat, data: seq<Byte>)
    requires streamId < 0x1_0000_0000 && |data| < 0x100_0000
    ensures var b := Server3.Layout(DataFrame(streamId, data));
            && |b| == 9 + |data|
            && Be24(b[0], b[1], b[2]) == |data| && b[3] == 0 && b[4] == 1
            && Be32(b[5], b[6], b[7], b[8]) == streamId
            && b[9..] == data
  {
    Server3.LayoutFields(DataFrame(streamId, data));
  }

  /** Its reader gets the same frame back: the DATA frame is well formed. */
  lemma DataFrameReadBack(streamId: nat, rest: seq<Byte>)
    requires streamId < 0x1_0000_0000
    ensures Server3.Decode(Server3.Layout(DataFrame(streamId, Body)) + rest)
            == Server3.Ok(Server3.Decoded(DataFrame(streamId, Body), rest))
  {
    Server3.RoundTrip(DataFrame(streamId, Body), rest);
  }

  /** When the peer takes the writes, handling frames writes one DATA frame
      per HEADERS frame, in order. */
  lemma {:induction false} AfterFramesWrites(w: Wire, fs: seq<Server3.Frame>)
    requires w.writesLeft >= |RepliesAll(fs)|
    ensures AfterFrames(w, fs) ==
            w.(output := w.output + Concat(RepliesAll(fs)), writesLeft := w.writesLeft - |RepliesAll(fs)|)
    decreases |fs|
  {
    if fs != [] {
      var first, more := Replies(fs[0]), RepliesAll(fs[1..]);
      assert RepliesAll(fs) == first + more;
      WriteAllDelivers(w, first);
      AfterFramesWrites(AfterFrame(w, fs[0]), fs[1..]);
      ConcatAppend(first, more);
      AppendAssoc(w.output, Concat(first), Concat(more));
    }
  }

  /** A whole connection whose writes all go through: the SETTINGS bytes, then
      the answer to every frame read, in order, and nothing else. */
  lemma ServesFrames(w: Wire)
    requires |w.input| >= |ClientPreface| && w.input[..|ClientPreface|] == ClientPreface
    requires w.writesLeft >= 1 + |RepliesAll(Server3.DecodeAll(w.input[|ClientPreface|..]))|
    ensures AfterConnection(w).output ==
            w.output + Settings + Concat(RepliesAll(Server3.DecodeAll(w.input[|ClientPreface|..])))
  {
    var frames := w.input[|ClientPreface|..];
    var w1 := w.(input := frames, output := w.output + Settings, writesLeft := w.writesLeft - 1);
    AfterValidPreface(w);
    AfterFramesWrites(w1.(input := []), Server3.DecodeAll(frames));
  }

  /** One turn of the read loop: a frame is parsed, then handled. */
  lemma LoopStep(w: Wire)
    requires Server3.Decode(w.input).Ok?
    ensures var d := Server3.Decode(w.input).value;
            AfterLoop(w) == AfterLoop(AfterFrame(w.(input := d.rest), d.frame))
  {
    var d := Server3.Decode(w.input).value;
    var fs := Server3.DecodeAll(w.input);
    assert fs == [d.frame] + Server3.DecodeAll(d.rest);
    assert fs[0] == d.frame && fs[1..] == Server3.DecodeAll(d.rest);
    WriteAllInput(w, Replies(d.frame), []);
    WriteAllInput(w, Replies(d.frame), d.rest);
  }

  /** At the end of the input the read loop does nothing more. */
  lemma LoopEnd(w: Wire)
    requires w.input == []
    ensures AfterLoop(w) == w
  {
    assert Server3.Decode([]).Err?;
  }

  // ---------------------------------------------------------------------------
  // The connection handler
  // ---------------------------------------------------------------------------

  /** `dataFrame`: a buffer of `9 + len(data)` bytes filled by index, the
      length as three bytes (`byte(len(data) >> 16)` ...), type DATA, flags
      END_STREAM, the stream id as four bytes, then `copy(dataFrame[9:], data)`. */
  method BuildDataFrame(streamId: nat, data: seq<Byte>) returns (frame: array<Byte>)
    ensures frame.Length == 9 + |data|
    ensures frame[..] == Server3.Layout(DataFrame(streamId, data))
  {
    frame := new Byte[9 + |data|];
    frame[0] := (|data| / 0x1_0000) % 0x100;
    frame[1] := (|data| / 0x100) % 0x100;
    frame[2] := |data| % 0x100;
    frame[3] := 0x00;
    frame[4] := 0x01;
    frame[5] := (streamId / 0x100_0000) % 0x100;
    frame[6] := (streamId / 0x1_0000) % 0x100;
    frame[7] := (streamId / 0x100) % 0x100;
    frame[8] := streamId % 0x100;
    ghost var header := frame[..9];
    Be24BytesShifts(|data|);
    Be32BytesShifts(streamId);
    assert header == Be24Bytes(|data|) + [0, 1] + Be32Bytes(streamId);
    for k := 0 to |data|
      invariant forall i :: 0 <= i < 9 ==> frame[i] == header[i]
      invariant forall i :: 0 <= i < k ==> frame[9 + i] == data[i]
    {
      frame[9 + k] := data[k];
    }
    assert frame[..] == header + data by {
      forall i | 0 <= i < frame.Length
        ensures frame[i] == (header + data)[i]
      {
        if i >= 9 {
          assert frame[9 + (i - 9)] == data[i - 9];
        }
      }
    }
  }

  /** The body of the read loop once a frame is parsed: for HEADERS, build
      the DATA frame and write it, ignoring the error. */
  method AnswerHeaders(c: Conn, ghost f: Server3.Frame, frameType: Byte, streamId: nat)
    requires frameType == f.ftype && streamId == f.streamId
    modifies c
    ensures c.State() == AfterFrame(old(c.State()), f)
  {
    AnswerFrame(c.State(), f);
    if frameType == 0x01 {
      var dataFrame := BuildDataFrame(streamId, Body);
      var _ := c.Write(dataFrame[..]);
    }
  }

  /** `handleConnection`: the preface, the SETTINGS frame, then the read loop
      with its inline header parse. */
  method HandleConnection(c: Conn)
    modifies c
    ensures c.State() == AfterConnection(old(c.State()))
  {
    var buf, ok := c.ReadFull(|ClientPreface|);
    if !ok || buf != ClientPreface {
      return;
    }
    var _ := c.Write(Settings);
    while true
      invariant AfterLoop(c.State()) == AfterConnection(old(c.State()))
      decreases |c.input|
    {
      ghost var before := c.State();
      var frameHeader;
      frameHeader, ok := c.ReadFull(9);
      if !ok {
        LoopEnd(c.State());
        return;
      }
      var length := Be24(frameHeader[0], frameHeader[1], frameHeader[2]);
      var frameType := frameHeader[3];
      var streamId := Be32(frameHeader[5], frameHeader[6], frameHeader[7], frameHeader[8]);
      var payload;
      payload, ok := c.ReadFull(length);
      if !ok {
        LoopEnd(c.State());
        return;
      }
      Server3.DecodeOfParts(before.input, frameHeader, payload, c.input);
      LoopStep(before);
      AnswerHeaders(c, Server3.Decode(before.input).value.frame, frameType, streamId);
    }
  }
}
